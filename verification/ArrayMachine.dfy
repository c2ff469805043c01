/**
 The array parser's scan as a state machine: one step per brace or field. The machine says,
 state by state, what the parser in `SqlArray` does; what it recognises is proved in
 `ArrayRoundTrip` and `ArrayAcceptance`.
 */
module ArrayMachine {
  import opened Wrappers
  import opened Scanners
  import opened ArrayGrammar

  /** The exceptions of the parser, one for each place that throws. */
  datatype ParseError =
    | TooShort | NoOpeningBrace | TooFewDimensions | TooManyDimensions | BadClosingBraces
    | Truncated | DoubleSeparator | TrailingSeparator | UnexpectedCharacter(c: char)
    | Reopened | InconsistentDepth | SpuriousClose | InconsistentSizes | MisplacedElement
    | ZeroByte | EmptyField | MissingQuote | UnexpectedNull | BadElement | Unfinished

  // ----- The checks made before scanning -----

  function CheckDims(dims: nat, data: string): (r: Result<(), ParseError>)
    requires dims >= 1
    ensures r.Success? <==>
            && |data| >= 2 * dims
            && (forall i | 0 <= i < dims :: data[i] == '{')
            && data[dims] != '{'
            && (forall i | |data| - dims <= i < |data| :: data[i] == '}')
  {
    if |data| < dims * 2 then Failure(TooShort)
    else if data[0] != '{' then Failure(NoOpeningBrace)
    else if exists i | 0 <= i < dims :: data[i] != '{' then Failure(TooFewDimensions)
    else if data[dims] == '{' then Failure(TooManyDimensions)
    else if exists i | |data| - dims <= i < |data| :: data[i] != '}' then Failure(BadClosingBraces)
    else Success(())
  }

  /** The opening braces that `CheckDims` has seen. */
  predicate Opens(dims: nat, data: string) {
    1 <= dims < |data| && (forall i | 0 <= i < dims :: data[i] == '{') && data[dims] != '{'
  }

  // ----- After a field or a closing brace -----

  function FieldEnd(f: Format, data: string, here: nat): (r: Result<nat, ParseError>)
    requires here <= |data|
    ensures r.Success? <==>
            || here == |data| || data[here] == '}'
            || (data[here] == f.sep && here + 1 < |data| && data[here + 1] !in FieldStops(f))
    ensures r.Success? ==> here <= r.value <= |data|
    ensures r.Success? && r.value == here ==> here == |data| || data[here] == '}'
    ensures r.Success? && r.value != here ==>
              && data[here] == f.sep && r.value == here + 1 < |data|
              && data[here + 1] !in {f.sep, '}'}
  {
    if here == |data| || data[here] == '}' then Success(here)
    else if data[here] != f.sep then Failure(UnexpectedCharacter(data[here]))
    else if here + 1 >= |data| then Failure(Truncated)
    else if data[here + 1] == f.sep then Failure(DoubleSeparator)
    else if data[here + 1] == '}' then Failure(TrailingSeparator)
    else Success(here + 1)
  }

  // ----- Fields -----

  /**
   The field that starts at `here`: where it ends, and its element. The check for an empty field
   looks for a comma, whatever the separator.
   */
  function ScanField(f: Format, data: string, here: nat): (r: Result<(nat, Element), ParseError>)
    requires here < |data| && data[here] !in {'{', '}'}
    ensures r.Success? ==> here <= r.value.0 <= |data|
    ensures r.Success? && r.value.0 == here ==> data[here] == f.sep
  {
    if data[here] == '\0' then Failure(ZeroByte)
    else if data[here] == ',' then Failure(EmptyField)
    else if data[here] == '"' then
      var end := QuotedEnd(data, here + 1);
      if end.None? then Failure(MissingQuote)
      else
        QuotedEndBound(data, here + 1);
        Converted(f, end.value, Some(Unescaped(data, end.value, here + 1)))
    else
      var end := UnquotedEnd(data, here, FieldStops(f));
      var field := data[here..end];
      Converted(f, end, if field == "NULL" then None else Some(field))
  }

  /** The conversion to the element type, which may throw. */
  function Converted(f: Format, end: nat, element: Element): Result<(nat, Element), ParseError> {
    if f.accepts(element) then Success((end, element))
    else Failure(if element.None? then UnexpectedNull else BadElement)
  }

  // ----- The machine -----

  /**
   The scan between two steps. `level` is the dimension being parsed, -1 outside the outermost
   braces; `counts` are the running extents; `extents` holds the dimensions whose size is
   settled, those from `known` on. An extent of `None` is one the parser has not yet written.
   */
  datatype State = State(
    here: nat,
    level: int,
    known: nat,
    counts: seq<nat>,
    extents: seq<Option<nat>>,
    elements: seq<Element>)

  predicate Bounded(dims: nat, data: string, s: State) {
    && s.here <= |data|
    && -1 <= s.level < dims
    && s.known <= dims
    && |s.counts| == dims && |s.extents| == dims
  }

  /**
   What holds between any two steps, on any input that passed `CheckDims`. Until the first row
   closes the scan is still in the opening braces or in that row; from then on the settled
   dimensions are exactly those from `known` on, and the scan is at most one level above them.
   */
  ghost predicate Inv(dims: nat, data: string, s: State) {
    && Opens(dims, data)
    && Bounded(dims, data, s)
    && (forall d | 0 <= d < dims :: s.extents[d].Some? <==> s.known <= d)
    && (if s.known == dims
        then s.level == (if s.here < dims then s.here else dims) - 1
        else s.known <= s.level + 1)
  }

  function Start(dims: nat): State {
    State(0, -1, dims, seq(dims, _ => 0), seq(dims, _ => None), [])
  }

  function Open(s: State): (r: State)
    requires 0 <= s.level + 1 < |s.counts|
  {
    s.(here := s.here + 1, level := s.level + 1, counts := s.counts[s.level + 1 := 0])
  }

  /** One turn of the scanning loop. The requires says that it reads no unset extent. */
  function Step(f: Format, dims: nat, data: string, s: State): (r: Result<State, ParseError>)
    requires Inv(dims, data, s) && s.here < |data|
    ensures r.Success? ==> Inv(dims, data, r.value) && s.here < r.value.here
  {
    var c := data[s.here];
    if c == '{' then
      if s.level == -1 then
        if s.known != dims then Failure(Reopened) else Success(Open(s))
      else if s.level >= dims - 1 then Failure(InconsistentDepth)
      else Success(Open(s.(counts := s.counts[s.level := s.counts[s.level] + 1])))
    else if c == '}' then
      if s.level == -1 then Failure(SpuriousClose)
      else if s.known <= s.level && s.counts[s.level] != s.extents[s.level].value then Failure(InconsistentSizes)
      else
        var settled :=
          if s.level < s.known
          then s.(extents := s.extents[s.level := Some(s.counts[s.level])], known := s.level)
          else s;
        var next :- FieldEnd(f, data, s.here + 1);
        Success(settled.(here := next, level := s.level - 1))
    else if s.level != dims - 1 then Failure(MisplacedElement)
    else
      var field :- ScanField(f, data, s.here);
      var next :- FieldEnd(f, data, field.0);
      Success(s.(here := next,
                 counts := s.counts[s.level := s.counts[s.level] + 1],
                 elements := s.elements + [field.1]))
  }

  /** Steps to the end of the input. */
  function Run(f: Format, dims: nat, data: string, s: State): (r: Result<State, ParseError>)
    requires Inv(dims, data, s)
    ensures r.Success? ==> Inv(dims, data, r.value) && r.value.here == |data|
    decreases |data| - s.here
  {
    if s.here >= |data| then Success(s)
    else
      var next :- Step(f, dims, data, s);
      Run(f, dims, data, next)
  }

  /** What a step over an opening brace does. */
  lemma StepOpen(f: Format, dims: nat, data: string, s: State)
    requires Inv(dims, data, s) && s.here < |data| && data[s.here] == '{'
    requires Step(f, dims, data, s).Success?
    ensures s.level < dims - 1 && (s.level == -1 ==> s.known == dims)
    ensures Step(f, dims, data, s).value ==
            Open(if s.level == -1 then s else s.(counts := s.counts[s.level := s.counts[s.level] + 1]))
  {
  }

  /** What a step over a field does. */
  lemma StepField(f: Format, dims: nat, data: string, s: State)
    requires Inv(dims, data, s) && s.here < |data| && data[s.here] !in {'{', '}'}
    requires Step(f, dims, data, s).Success?
    ensures s.level == dims - 1 && ScanField(f, data, s.here).Success?
    ensures var next, field := Step(f, dims, data, s).value, ScanField(f, data, s.here).value;
            && FieldEnd(f, data, field.0) == Success(next.here)
            && next == s.(here := next.here,
                          counts := s.counts[s.level := s.counts[s.level] + 1],
                          elements := s.elements + [field.1])
  {
  }

  /** What a step over a closing brace does. */
  lemma StepClose(f: Format, dims: nat, data: string, s: State)
    requires Inv(dims, data, s) && s.here < |data| && data[s.here] == '}'
    requires Step(f, dims, data, s).Success?
    ensures s.level >= 0
    ensures var next := Step(f, dims, data, s).value;
            && FieldEnd(f, data, s.here + 1) == Success(next.here)
            && next.level == s.level - 1 && next.counts == s.counts && next.elements == s.elements
            && next.extents == s.extents[s.level := Some(s.counts[s.level])]
            && (s.known <= s.level ==> next.extents == s.extents)
            && next.known == (if s.level < s.known then s.level else s.known)
  {
  }

  /** `Run`, one step at a time. */
  lemma RunStep(f: Format, dims: nat, data: string, s: State)
    requires Inv(dims, data, s)
    ensures s.here == |data| ==> Run(f, dims, data, s) == Success(s)
    ensures s.here < |data| && Step(f, dims, data, s).Failure? ==>
              Run(f, dims, data, s) == Failure(Step(f, dims, data, s).error)
    ensures s.here < |data| && Step(f, dims, data, s).Success? ==>
              Run(f, dims, data, s) == Run(f, dims, data, Step(f, dims, data, s).value)
  {
  }

  /** The sizes of the dimensions from `from` on. */
  function Sizes(extents: seq<Option<nat>>, from: nat): (r: seq<nat>)
    requires from <= |extents|
    requires forall d | from <= d < |extents| :: extents[d].Some?
    ensures |r| == |extents| - from
    ensures forall i | 0 <= i < |r| :: r[i] == extents[from + i].value
  {
    seq(|extents| - from, i requires 0 <= i < |extents| - from => extents[from + i].value)
  }

  /** An array as parsed: its sizes, and its elements in storage order. */
  datatype Parsed = Parsed(shape: seq<nat>, elements: seq<Element>)

  function ParseText(f: Format, dims: nat, data: string): (r: Result<Parsed, ParseError>)
    requires dims >= 1
  {
    var _ :- CheckDims(dims, data);
    var s :- Run(f, dims, data, Start(dims));
    if s.level != -1 then Failure(Unfinished)
    else Success(Parsed(Sizes(s.extents, 0), s.elements))
  }

  // ----- Internal safety -----

  /** `t` is the state `n` steps after `s`. */
  ghost predicate Reaches(f: Format, dims: nat, data: string, s: State, t: State, n: nat)
    requires Inv(dims, data, s)
    decreases n
  {
    if n == 0 then s == t
    else
      && s.here < |data|
      && Step(f, dims, data, s).Success?
      && Reaches(f, dims, data, Step(f, dims, data, s).value, t, n - 1)
  }

  /** No step overwrites a size that an earlier step has settled, each step consumes input, and no
      counter outgrows the input read. */
  lemma {:induction false} SizesAreWrittenOnce(f: Format, dims: nat, data: string, s: State, t: State, n: nat)
    requires Inv(dims, data, s) && Reaches(f, dims, data, s, t, n)
    ensures Inv(dims, data, t)
    ensures t.known <= s.known
    ensures forall d | 0 <= d < dims :: s.extents[d].Some? ==> t.extents[d] == s.extents[d]
    ensures s.here + n <= t.here
    ensures (forall d | 0 <= d < dims :: s.counts[d] <= s.here) ==> forall d | 0 <= d < dims :: t.counts[d] <= t.here
    decreases n
  {
    if n == 0 {
    } else {
      SizesAreWrittenOnce(f, dims, data, Step(f, dims, data, s).value, t, n - 1);
    }
  }

  /**
   The parser's own assertions, in every state it can reach: the outermost brace opens only at
   the start of the input, and a scan that ends outside all braces knows every size. A size is
   written only for the dimension just above the settled ones, which is then still unset, and
   none is compared before it is set. No counter exceeds the input read, so none wraps around.
   */
  lemma InternalSafety(f: Format, dims: nat, data: string, t: State, n: nat)
    requires dims >= 1 && CheckDims(dims, data).Success?
    requires Reaches(f, dims, data, Start(dims), t, n)
    ensures |t.extents| == dims && -1 <= t.level < dims
    ensures t.level == -1 && t.known == dims ==> t.here == 0
    ensures t.level == -1 && t.here == |data| ==> t.known == 0
    ensures t.here < |data| && data[t.here] == '}' && 0 <= t.level < t.known ==>
              t.level == t.known - 1 && t.extents[t.level].None?
    ensures t.here < |data| && data[t.here] == '}' && t.known <= t.level ==> t.extents[t.level].Some?
    ensures n <= t.here <= |data|
    ensures |t.counts| == dims && forall d | 0 <= d < dims :: t.counts[d] <= t.here
  {
    SizesAreWrittenOnce(f, dims, data, Start(dims), t, n);
  }
}
