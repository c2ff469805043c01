/**
 The array object: parsing in one pass over the text into linear storage, and access by
 multidimensional index. The loop does what the C++ one does, down to the dimension counter
 that starts one below zero by wrapping around; it is proved against the machine.
 */
module SqlArrays {
  import opened Wrappers
  import opened Scanners
  import opened ArrayGrammar
  import opened ArrayMachine
  import opened ArrayAcceptance
  import opened ArrayErrors
  import opened ArrayIndex

  datatype IndexError = RangeError(dimension: nat) | OutOfStorage

  /** The fictional dimension around the whole array: zero minus one, wrapped. */
  const OUTER: nat := SIZE_LIMIT - 1

  /** How the machine's level is held in an unsigned word. */
  function Word(level: int): nat
    requires -1 <= level
  {
    if level == -1 then OUTER else level
  }

  /** The element type is given by its conversion from what a field says, which may throw. */
  class SqlArray<E> {
    const dims: nat
    const sep: char
    const convert: Element -> Option<E>
    var elements: seq<E>
    var reserved: nat
    const extents: array<nat>
    const factors: array<nat>

    /** The texts that this class of arrays reads: its separator, and the fields it can convert. */
    function Reads(): Format {
      Format(sep, e => convert(e).Some?)
    }

    /** `elements` are the conversions of the fields in `fields`. */
    ghost predicate Holds(fields: seq<Element>)
      reads `elements
    {
      |fields| == |elements| && forall i | 0 <= i < |fields| :: convert(fields[i]) == Some(elements[i])
    }

    /** The sizes and elements are those of `p`. */
    ghost predicate Contains(p: Parsed)
      reads `elements, extents
    {
      p.shape == extents[..] && Holds(p.elements)
    }

    /** The sizes and factors fit the elements, indexing among them cannot overflow, and the
        space reserved for them was enough. */
    ghost predicate Valid()
      reads this, extents, factors
    {
      && dims >= 1
      && extents.Length == dims
      && OnlyRowsEmpty(extents[..])
      && |elements| == Product(extents[..]) < SIZE_LIMIT
      && |elements| <= reserved
      && AreFactors(factors[..], extents[..])
    }

    /** Storage for an array of `dimensions` dimensions; its sizes are not yet set. */
    constructor (dimensions: nat, separator: char, conversion: Element -> Option<E>)
      requires 1 <= dimensions < SIZE_LIMIT
      ensures dims == dimensions && sep == separator && convert == conversion && elements == []
      ensures extents.Length == dims && factors.Length == dims - 1
      ensures fresh(extents) && fresh(factors) && extents != factors
    {
      dims, sep, convert := dimensions, separator, conversion;
      elements, reserved := [], 0;
      extents := new nat[dimensions];
      factors := new nat[dimensions - 1];
    }

    method CheckDimensions(data: string) returns (r: Result<(), ParseError>)
      requires dims >= 1
      ensures r == CheckDims(dims, data)
    {
      var size := |data|;
      if size < dims * 2 {
        return Failure(TooShort);
      }
      if data[0] != '{' {
        return Failure(NoOpeningBrace);
      }
      for i := 0 to dims
        invariant forall k | 0 <= k < i :: data[k] == '{'
      {
        if data[i] != '{' {
          return Failure(TooFewDimensions);
        }
      }
      if data[dims] == '{' {
        return Failure(TooManyDimensions);
      }
      for i := 0 to dims
        invariant forall k | size - i <= k < size :: data[k] == '}'
      {
        if data[size - 1 - i] != '}' {
          return Failure(BadClosingBraces);
        }
      }
      return Success(());
    }

    /** The number of elements to reserve space for: one more than the separators. */
    method EstimateElements(data: string) returns (n: nat)
      ensures n == Count(sep, data) + 1 == multiset(data)[sep] + 1
    {
      var separators: nat := 0;
      assert data[..0] == "" && data[..|data|] == data;
      for i := 0 to |data|
        invariant separators == Count(sep, data[..i])
      {
        CountSplit(sep, data[..i], [data[i]]);
        assert data[..i + 1] == data[..i] + [data[i]];
        if data[i] == sep {
          separators := separators + 1;
        }
      }
      CountIsMultiplicity(sep, data);
      return separators + 1;
    }

    /** The field at `here`, which is no brace: where it ends and the element it stands for. */
    method ReadField(data: string, here: nat) returns (r: Result<(nat, E), ParseError>)
      requires here < |data| < NPOS && data[here] !in {'{', '}'}
      ensures r.Failure? ==> ScanField(Reads(), data, here) == Failure(r.error)
      ensures r.Success? ==>
                && ScanField(Reads(), data, here).Success?
                && var field := ScanField(Reads(), data, here).value;
                   field.0 == r.value.0 && convert(field.1) == Some(r.value.1)
    {
      if data[here] == '\0' {
        return Failure(ZeroByte);
      } else if data[here] == ',' {
        return Failure(EmptyField);
      } else if data[here] == '"' {
        var end := ScanDoubleQuotedString(data, here);
        if end.None? {
          return Failure(MissingQuote);
        }
        QuotedEndBound(data, here + 1);
        var text := ParseDoubleQuotedString(data, end.value, here);
        var element := convert(Some(text));
        return if element.Some? then Success((end.value, element.value)) else Failure(BadElement);
      } else {
        var end := ScanUnquotedString(data, here, {sep, '}'});
        var field := data[here..end];
        if field == "NULL" {
          var absent := convert(None);
          return if absent.Some? then Success((end, absent.value)) else Failure(UnexpectedNull);
        }
        var element := convert(Some(field));
        return if element.Some? then Success((end, element.value)) else Failure(BadElement);
      }
    }

    /** The loop's own variables, and the fields it fills, against the machine's state. */
    ghost predicate Tracks(s: State, here: nat, dim: nat, known: nat, counts: array<nat>)
      requires -1 <= s.level
      reads this, extents, counts
    {
      && s.here == here
      && Word(s.level) == dim
      && s.known == known
      && s.counts == counts[..]
      && Holds(s.elements)
      && |s.extents| == extents.Length == dims
      && forall d | 0 <= d < dims :: s.extents[d].Some? ==> s.extents[d].value == extents[d]
    }

    /** An opening brace: enter the next dimension in, counting a new item of this one. */
    method OpenBrace(data: string, here: nat, dim: nat, known: nat, counts: array<nat>, ghost s: State)
      returns (r: Result<(nat, nat), ParseError>)
      requires Inv(dims, data, s) && Tracks(s, here, dim, known, counts)
      requires here < |data| && data[here] == '{' && 1 <= dims < SIZE_LIMIT
      requires counts.Length == dims && counts != extents
      modifies counts
      ensures r.Failure? ==> Step(Reads(), dims, data, s) == Failure(r.error)
      ensures r.Success? ==>
                && Step(Reads(), dims, data, s).Success?
                && Tracks(Step(Reads(), dims, data, s).value, r.value.0, r.value.1, known, counts)
    {
      if dim == OUTER {
        if known != dims {
          return Failure(Reopened);
        }
        assert here == 0;
      } else {
        if dim >= dims - 1 {
          return Failure(InconsistentDepth);
        }
        counts[dim] := counts[dim] + 1;
      }
      var inner := (dim + 1) % SIZE_LIMIT;
      counts[inner] := 0;
      assert Step(Reads(), dims, data, s).value.counts == counts[..];
      return Success((here + 1, inner));
    }

    /** A closing brace: settle or check the size of this dimension, and leave it. */
    method CloseBrace(data: string, here: nat, dim: nat, known: nat, counts: array<nat>, ghost s: State)
      returns (r: Result<(nat, nat, nat), ParseError>)
      requires Inv(dims, data, s) && Tracks(s, here, dim, known, counts)
      requires here < |data| && data[here] == '}' && 1 <= dims < SIZE_LIMIT
      requires counts.Length == dims && counts != extents
      modifies extents
      ensures r.Failure? ==> Step(Reads(), dims, data, s) == Failure(r.error)
      ensures r.Success? ==>
                && Step(Reads(), dims, data, s).Success?
                && Tracks(Step(Reads(), dims, data, s).value, r.value.0, r.value.1, r.value.2, counts)
    {
      if dim == OUTER {
        return Failure(SpuriousClose);
      }
      var settled := known;
      if dim < known {
        assert s.extents[dim].None?;
        extents[dim] := counts[dim];
        settled := dim;
      } else {
        assert s.extents[dim].Some?;
        if counts[dim] != extents[dim] {
          return Failure(InconsistentSizes);
        }
      }
      var next :- FieldEnd(Reads(), data, here + 1);
      return Success((next, (dim + SIZE_LIMIT - 1) % SIZE_LIMIT, settled));
    }

    /** An array element, which can only be in the innermost dimension. */
    method AddElement(data: string, here: nat, dim: nat, known: nat, counts: array<nat>, ghost s: State)
      returns (r: Result<nat, ParseError>)
      requires Inv(dims, data, s) && Tracks(s, here, dim, known, counts)
      requires here < |data| < NPOS && data[here] !in {'{', '}'} && 1 <= dims < SIZE_LIMIT
      requires counts.Length == dims && counts != extents
      modifies counts, `elements
      ensures r.Failure? ==> Step(Reads(), dims, data, s) == Failure(r.error)
      ensures r.Success? ==>
                && Step(Reads(), dims, data, s).Success?
                && Tracks(Step(Reads(), dims, data, s).value, r.value, dim, known, counts)
    {
      if dim != dims - 1 {
        return Failure(MisplacedElement);
      }
      assert dim != OUTER;
      counts[dim] := counts[dim] + 1;
      var field :- ReadField(data, here);
      elements := elements + [field.1];
      var next :- FieldEnd(Reads(), data, field.0);
      assert Step(Reads(), dims, data, s).value.counts == counts[..];
      return Success(next);
    }

    /**
     Parses an array from its text. It fails exactly when, and with the error with which, the
     machine fails; when it succeeds the array has the sizes and elements the machine found.
     */
    method Parse(data: string) returns (r: Result<(), ParseError>)
      requires 1 <= dims < SIZE_LIMIT && |data| < NPOS && Reads().Valid()
      requires extents.Length == dims && factors.Length == dims - 1 && extents != factors
      requires elements == []
      modifies this, extents, factors
      ensures r.Success? <==> ParseText(Reads(), dims, data).Success?
      ensures r.Failure? ==> ParseText(Reads(), dims, data) == Failure(r.error)
      ensures r.Failure? ==> Faulty(Reads(), dims, data, r.error)
      ensures r.Success? ==>
                && Valid()
                && ParseText(Reads(), dims, data).Success?
                && Contains(ParseText(Reads(), dims, data).value)
    {
      hide Run, Step, Faulty;
      forall e {
        FailsExactly(Reads(), dims, data, e);
      }
      var _ :- CheckDimensions(data);
      reserved := EstimateElements(data);
      var known: nat := dims;
      var dim: nat := OUTER;
      var counts := new nat[dims](_ => 0);
      var here: nat := 0;
      ghost var s := Start(dims);
      assert s.counts == counts[..];
      while here < |data|
        invariant Inv(dims, data, s) && Tracks(s, here, dim, known, counts)
        invariant Run(Reads(), dims, data, Start(dims)) == Run(Reads(), dims, data, s)
        invariant fresh(counts) && counts.Length == dims && reserved == Count(sep, data) + 1
        decreases |data| - here
      {
        RunStep(Reads(), dims, data, s);
        ghost var step := Step(Reads(), dims, data, s);
        if data[here] == '{' {
          var at :- OpenBrace(data, here, dim, known, counts, s);
          here, dim := at.0, at.1;
        } else if data[here] == '}' {
          var at :- CloseBrace(data, here, dim, known, counts, s);
          here, dim, known := at.0, at.1, at.2;
        } else {
          here :- AddElement(data, here, dim, known, counts, s);
        }
        s := step.value;
      }
      RunStep(Reads(), dims, data, s);
      if dim != OUTER {
        return Failure(Unfinished);
      }
      assert known == 0;
      assert extents[..] == Sizes(s.extents, 0);
      ParsedSize(Reads(), dims, data);
      CountFits(Reads(), dims, data);
      InitFactors();
      return Success(());
    }

    /**
     Fills in the factors from the innermost dimension out. The running product is a machine
     word; with no empty dimension but the last it never wraps.
     */
    method InitFactors()
      requires 1 <= dims == extents.Length && factors.Length == dims - 1 && extents != factors
      requires OnlyRowsEmpty(extents[..]) && Product(extents[..]) < SIZE_LIMIT
      modifies factors
      ensures AreFactors(factors[..], extents[..])
    {
      ghost var shape := extents[..];
      var factor := 1;
      var dim := dims - 1;
      assert shape[dims..] == [];
      while dim > 0
        invariant 0 <= dim < dims && extents[..] == shape
        invariant factor == Product(shape[dim + 1..])
        invariant forall d | dim <= d < dims - 1 :: factors[d] == Product(shape[d + 1..])
      {
        FactorsFit(shape, dim);
        assert shape[dim..][1..] == shape[dim + 1..];
        assert extents[dim] == shape[dim];
        factor := (factor * extents[dim]) % SIZE_LIMIT;
        factors[dim - 1] := factor;
        dim := dim - 1;
      }
    }

    /** The element at `index`, or the first dimension in which the index is out of bounds. */
    method At(index: seq<int>) returns (r: Result<E, IndexError>)
      requires Valid() && |index| == dims
      ensures r.Success? <==> InBounds(extents[..], index)
      ensures r.Success? ==> r.value == elements[Offset(extents[..], index)]
      ensures r.Failure? ==>
                && r.error.RangeError? && r.error.dimension < dims
                && !(0 <= index[r.error.dimension] < extents[r.error.dimension])
                && forall d | 0 <= d < r.error.dimension :: 0 <= index[d] < extents[d]
    {
      var bounds := CheckBounds(extents[..], index, 0);
      if bounds.Failure? {
        return Failure(RangeError(bounds.error));
      }
      AddIndexIsOffset(factors[..], extents[..], index);
      var place := AddIndex(factors[..], index);
      if place >= |elements| {
        return Failure(OutOfStorage);
      }
      return Success(elements[place]);
    }
  }

  /** An array has fewer elements than its text has characters. */
  lemma CountFits(f: Format, dims: nat, data: string)
    requires f.Valid() && dims >= 1 && ParseText(f, dims, data).Success?
    ensures |ParseText(f, dims, data).value.elements| <= |data|
  {
    ParsedSize(f, dims, data);
    CountSplit(f.sep, data[..1], data[1..]);
    assert data == data[..1] + data[1..];
    assert Count(f.sep, data[..1]) == 0 by {
      assert data[..1][0] == '{';
      assert data[..1][1..] == "";
    }
    CountBound(f.sep, data[1..]);
  }

  lemma {:induction false} CountBound(c: char, text: string)
    ensures Count(c, text) <= |text|
  {
    if text == "" {
    } else {
      CountBound(c, text[1..]);
    }
  }
}
