/**
 Row-major indexing: the precomputed factors take each index tuple that is within bounds to
 its own place in linear storage, in lexicographic order, leaving no place unused.
 */
module ArrayIndex {
  import opened Wrappers
  import opened Arithmetic
  import opened ArrayGrammar
  import opened ArrayMachine
  import opened ArrayRoundTrip

  /** The factor for each dimension but the last: the size of one of its rows. */
  predicate AreFactors(factors: seq<nat>, shape: seq<nat>) {
    |shape| == |factors| + 1 && forall d | 0 <= d < |factors| :: factors[d] == Product(shape[d + 1..])
  }

  /** `add_index`: the offset of an index tuple, from the outermost dimension in. */
  function AddIndex(factors: seq<nat>, index: seq<nat>): nat
    requires |index| == |factors| + 1
  {
    if |index| == 1 then index[0]
    else index[0] * factors[0] + AddIndex(factors[1..], index[1..])
  }

  /** `check_bounds`: fails with the first dimension whose index is negative or too large. */
  function CheckBounds(extents: seq<nat>, index: seq<int>, dimension: nat): (r: Result<(), nat>)
    requires dimension <= |index| == |extents|
    ensures r.Success? <==> forall d | dimension <= d < |index| :: 0 <= index[d] < extents[d]
    ensures r.Failure? ==>
              && dimension <= r.error < |index|
              && !(0 <= index[r.error] < extents[r.error])
              && forall d | dimension <= d < r.error :: 0 <= index[d] < extents[d]
    decreases |index| - dimension
  {
    if dimension == |index| then Success(())
    else if index[dimension] < 0 || index[dimension] >= extents[dimension] then Failure(dimension)
    else CheckBounds(extents, index, dimension + 1)
  }

  // ----- Offsets -----

  /** The number of elements that come before the one at `index`. */
  function Offset(shape: seq<nat>, index: seq<int>): (r: nat)
    requires InBounds(shape, index)
    ensures r < Product(shape)
  {
    if shape == [] then 0
    else
      assert InBounds(shape[1..], index[1..]);
      var row := Product(shape[1..]);
      var rest := Offset(shape[1..], index[1..]);
      assert index[0] * row + rest < (index[0] + 1) * row <= shape[0] * row by {
        MulMonotone(index[0] + 1, shape[0], row);
      }
      MulMonotone(0, index[0], row);
      index[0] * row + rest
  }

  /** The index tuple of the element at `offset`. */
  function IndexOf(shape: seq<nat>, offset: nat): (index: seq<int>)
    requires offset < Product(shape)
    ensures InBounds(shape, index)
  {
    if shape == [] then []
    else
      var row := Product(shape[1..]);
      DivBelow(offset, shape[0], row);
      [offset / row] + IndexOf(shape[1..], offset % row)
  }

  lemma {:induction false} AddIndexIsOffset(factors: seq<nat>, shape: seq<nat>, index: seq<nat>)
    requires AreFactors(factors, shape) && InBounds(shape, index)
    ensures AddIndex(factors, index) == Offset(shape, index)
    decreases |shape|
  {
    if |shape| == 1 {
      assert Offset(shape[1..], index[1..]) == 0;
      assert Product(shape[1..]) == 1;
    } else {
      forall d | 0 <= d < |factors| - 1
        ensures factors[1..][d] == Product(shape[1..][d + 1..])
      {
        assert shape[1..][d + 1..] == shape[d + 2..];
      }
      AddIndexIsOffset(factors[1..], shape[1..], index[1..]);
    }
  }

  // ----- A bijection, in order -----

  lemma {:induction false} OffsetOfIndexOf(shape: seq<nat>, offset: nat)
    requires offset < Product(shape)
    ensures Offset(shape, IndexOf(shape, offset)) == offset
  {
    if shape == [] {
    } else {
      var row := Product(shape[1..]);
      DivBelow(offset, shape[0], row);
      OffsetOfIndexOf(shape[1..], offset % row);
      var index := IndexOf(shape, offset);
      assert index[0] == offset / row && index[1..] == IndexOf(shape[1..], offset % row);
      assert Offset(shape, index) == index[0] * row + Offset(shape[1..], index[1..]);
    }
  }

  lemma {:induction false} IndexOfOffset(shape: seq<nat>, index: seq<int>)
    requires InBounds(shape, index)
    ensures IndexOf(shape, Offset(shape, index)) == index
  {
    if shape == [] {
    } else {
      assert InBounds(shape[1..], index[1..]);
      IndexOfOffset(shape[1..], index[1..]);
      DivMod(index[0], Product(shape[1..]), Offset(shape[1..], index[1..]));
    }
  }

  predicate LexBefore(a: seq<int>, b: seq<int>)
    requires |a| == |b|
  {
    a != [] && (a[0] < b[0] || (a[0] == b[0] && LexBefore(a[1..], b[1..])))
  }

  /** Storage order is lexicographic order of the index tuples: the last index varies fastest. */
  lemma {:induction false} RowMajor(shape: seq<nat>, a: seq<int>, b: seq<int>)
    requires InBounds(shape, a) && InBounds(shape, b)
    ensures Offset(shape, a) < Offset(shape, b) <==> LexBefore(a, b)
    decreases shape
  {
    if shape == [] {
    } else {
      assert InBounds(shape[1..], a[1..]) && InBounds(shape[1..], b[1..]);
      RowMajor(shape[1..], a[1..], b[1..]);
      var row := Product(shape[1..]);
      var p, q := Offset(shape[1..], a[1..]), Offset(shape[1..], b[1..]);
      assert Offset(shape, a) == a[0] * row + p && Offset(shape, b) == b[0] * row + q;
      if a[0] < b[0] {
        LaterRow(a[0], b[0], row, p, q);
      } else if b[0] < a[0] {
        LaterRow(b[0], a[0], row, q, p);
      }
    }
  }

  lemma LaterRow(x: nat, y: nat, row: nat, p: nat, q: nat)
    requires x < y && p < row
    ensures x * row + p < y * row + q
  {
    MulMonotone(x + 1, y, row);
    assert (x + 1) * row == x * row + row;
  }

  // ----- The element found there -----

  lemma {:induction false} RowAt(kids: seq<Tree>, shape: seq<nat>, i: nat, rest: nat)
    requires RowShape(kids, shape) && i < |kids| && rest < Product(shape)
    ensures i * Product(shape) + rest < |AllElements(kids)|
    ensures |Elements(kids[i])| == Product(shape)
    ensures AllElements(kids)[i * Product(shape) + rest] == Elements(kids[i])[rest]
    decreases kids
  {
    var row := Product(shape);
    SizeLaw(kids[0], shape);
    RowSize(kids, shape);
    MulMonotone(i + 1, |kids|, row);
    if i == 0 {
    } else {
      RowAt(kids[1..], shape, i - 1, rest);
      assert i * row + rest - row == (i - 1) * row + rest;
      MulMonotone(1, i, row);
      assert AllElements(kids)[i * row + rest] == AllElements(kids[1..])[i * row + rest - row];
    }
  }

  lemma {:induction false} ElementsAt(t: Tree, shape: seq<nat>, index: seq<int>)
    requires HasShape(t, shape) && InBounds(shape, index)
    ensures |Elements(t)| == Product(shape)
    ensures Elements(t)[Offset(shape, index)] == ElementAt(t, shape, index)
    decreases shape
  {
    SizeLaw(t, shape);
    if shape == [] {
    } else {
      assert InBounds(shape[1..], index[1..]);
      RowShapeEach(t.kids, shape[1..]);
      assert t.kids[index[0]] in t.kids;
      ElementsAt(t.kids[index[0]], shape[1..], index[1..]);
      RowAt(t.kids, shape[1..], index[0], Offset(shape[1..], index[1..]));
    }
  }

  /** The array parsed from a tree's text has, at each index tuple, the field the tree has there. */
  lemma RoundTripAt(f: Format, t: Tree, shape: seq<nat>, index: seq<int>)
    requires f.Valid() && shape != [] && Rectangular(f, t, shape) && InBounds(shape, index)
    ensures ParseText(f, |shape|, Render(f, t)).Success?
    ensures var p := ParseText(f, |shape|, Render(f, t)).value;
            && p.shape == shape && |p.elements| == Product(shape)
            && p.elements[Offset(shape, index)] == ElementAt(t, shape, index)
  {
    RoundTrip(f, t, shape);
    ElementsAt(t, shape, index);
  }

  // ----- Word size -----

  /** With no empty dimension but the last, the factors stay within the size of the array. */
  lemma {:induction false} FactorsFit(shape: seq<nat>, d: nat)
    requires OnlyRowsEmpty(shape) && d < |shape|
    ensures Product(shape[d..]) <= Product(shape)
    decreases d
  {
    if d == 0 {
      assert shape[0..] == shape;
    } else {
      var tail := shape[1..];
      assert forall i | 0 <= i < |tail| - 1 :: tail[i] == shape[i + 1];
      FactorsFit(tail, d - 1);
      assert tail[d - 1..] == shape[d..];
      MulMonotone(1, shape[0], Product(tail));
    }
  }
}
