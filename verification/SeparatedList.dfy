/**
 Joining values with a separator: the version that budgets a buffer and writes into it in
 place, and the recursive version for tuples.
 */
module SeparatedList {
  import opened Wrappers
  import opened StringTraits

  /** Every value's text, each followed by the separator. */
  function Terminated<T(!new)>(tr: Traits<T>, sep: string, items: seq<T>): string {
    if items == [] then ""
    else Terminated(tr, sep, items[..|items| - 1]) + tr.textOf(items[|items| - 1]) + sep
  }

  /** The values' texts with the separator between them: after each, but not after the last. */
  function Joined<T(!new)>(tr: Traits<T>, sep: string, items: seq<T>): string {
    if items == [] then ""
    else Terminated(tr, sep, items[..|items| - 1]) + tr.textOf(items[|items| - 1])
  }

  /** The space for the values' conversions, and a separator for each. */
  function Room<T(!new)>(tr: Traits<T>, sep: string, items: seq<T>): nat {
    if items == [] then 0 else tr.sizeBuffer(items[0]) + |sep| + Room(tr, sep, items[1..])
  }

  /** The values' own part of that space. */
  function Sizes<T(!new)>(tr: Traits<T>, items: seq<T>): nat {
    if items == [] then 0 else tr.sizeBuffer(items[0]) + Sizes(tr, items[1..])
  }

  lemma {:induction false} SizesSnoc<T(!new)>(tr: Traits<T>, items: seq<T>, last: T)
    ensures Sizes(tr, items + [last]) == Sizes(tr, items) + tr.sizeBuffer(last)
  {
    if items == [] {
    } else {
      assert (items + [last])[1..] == items[1..] + [last];
      SizesSnoc(tr, items[1..], last);
    }
  }

  lemma OneMore(n: nat, k: nat)
    ensures (n + 1) * k == n * k + k
  {
  }

  lemma {:induction false} RoomIsSizes<T(!new)>(tr: Traits<T>, sep: string, items: seq<T>)
    ensures Room(tr, sep, items) == Sizes(tr, items) + |items| * |sep|
  {
    if items == [] {
    } else {
      RoomIsSizes(tr, sep, items[1..]);
      OneMore(|items| - 1, |sep|);
    }
  }

  method Budget<T(!new)>(tr: Traits<T>, sep: string, items: seq<T>) returns (budget: nat)
    ensures budget == Room(tr, sep, items)
  {
    budget := 0;
    for i := 0 to |items|
      invariant budget == Sizes(tr, items[..i])
    {
      SizesSnoc(tr, items[..i], items[i]);
      assert items[..i + 1] == items[..i] + [items[i]];
      budget := budget + tr.sizeBuffer(items[i]);
    }
    assert items[..|items|] == items;
    RoomIsSizes(tr, sep, items);
    budget := budget + |items| * |sep|;
  }

  /**
   The iterator version. No write is ever refused for want of space, and none leaves the
   buffer: each value finds at least the space it asks for.
   */
  method SeparatedList<T(!new)>(tr: Traits<T>, sep: string, items: seq<T>) returns (r: Option<string>)
    requires tr.Contract()
    ensures r == Some(Joined(tr, sep, items))
    ensures items == [] ==> r == Some("")
    ensures |items| == 1 ==> r == Some(tr.textOf(items[0]))
  {
    if items == [] {
      return Some("");
    }
    if |items| == 1 {
      assert items[..0] == [];
      assert "" + tr.textOf(items[0]) == tr.textOf(items[0]);
      return Some(tr.textOf(items[0]));
    }
    var budget := Budget(tr, sep, items);
    var data := new char[budget];
    RoomTail(tr, sep, items, 0);
    assert items[0..] == items;
    var first := IntoBuf(tr, data, 0, budget, items[0]);
    if first.None? {
      return None;
    }
    var here: nat := first.value - 1;
    assert data[..here] == Joined(tr, sep, items[..1]) by {
      assert items[..1][..0] == [];
      assert data[..here] == data[0..here];
    }
    for i := 1 to |items|
      invariant here <= budget
      invariant data[..here] == Joined(tr, sep, items[..i])
      invariant here + Room(tr, sep, items[i..]) < budget
    {
      RoomTail(tr, sep, items, i);
      var next := WriteNext(tr, data, here, sep, items[i], data[..here]);
      if next.None? {
        return None;
      }
      here := next.value;
      JoinedNext(tr, sep, items, i);
    }
    assert items[..|items|] == items;
    return Some(data[..here]);
  }

  /** One turn of the loop: the separator, then the value, less its trailing zero. */
  method WriteNext<T(!new)>(tr: Traits<T>, data: array<char>, here: nat, sep: string, value: T, ghost before: string)
    returns (r: Option<nat>)
    requires tr.Contract() && here + |sep| + tr.sizeBuffer(value) <= data.Length
    requires data[..here] == before
    modifies data
    ensures r.Some? && r.value == here + |sep| + |tr.textOf(value)| < data.Length
    ensures data[..r.value] == before + sep + tr.textOf(value)
  {
    var next := Copy(data, here, sep);
    assert data[..next] == before + sep;
    ghost var separated := data[..next];
    var written := IntoBuf(tr, data, next, data.Length, value);
    if written.None? {
      return None;
    }
    assert data[..next] == separated;
    return Some(written.value - 1);
  }

  lemma RoomTail<T(!new)>(tr: Traits<T>, sep: string, items: seq<T>, i: nat)
    requires tr.Contract() && i < |items|
    ensures |tr.textOf(items[i])| + 1 <= tr.sizeBuffer(items[i])
    ensures Room(tr, sep, items[i..]) == tr.sizeBuffer(items[i]) + |sep| + Room(tr, sep, items[i + 1..])
  {
    SizeHoldsText(tr, items[i]);
    assert items[i..][1..] == items[i + 1..];
  }

  lemma JoinedNext<T(!new)>(tr: Traits<T>, sep: string, items: seq<T>, i: nat)
    requires 1 <= i < |items|
    ensures Joined(tr, sep, items[..i + 1]) == Joined(tr, sep, items[..i]) + sep + tr.textOf(items[i])
  {
    assert items[..i + 1][..i] == items[..i];
    assert items[..i][..i - 1] == items[..i - 1];
  }

  /** The lengths of the values' texts, together. */
  function Lengths<T(!new)>(tr: Traits<T>, items: seq<T>): nat {
    if items == [] then 0 else |tr.textOf(items[0])| + Lengths(tr, items[1..])
  }

  lemma {:induction false} LengthsSnoc<T(!new)>(tr: Traits<T>, items: seq<T>, last: T)
    ensures Lengths(tr, items + [last]) == Lengths(tr, items) + |tr.textOf(last)|
  {
    if items == [] {
    } else {
      assert (items + [last])[1..] == items[1..] + [last];
      LengthsSnoc(tr, items[1..], last);
    }
  }

  lemma {:induction false} TerminatedLength<T(!new)>(tr: Traits<T>, sep: string, items: seq<T>)
    ensures |Terminated(tr, sep, items)| == Lengths(tr, items) + |items| * |sep|
  {
    if items == [] {
    } else {
      var front, last := items[..|items| - 1], items[|items| - 1];
      TerminatedLength(tr, sep, front);
      assert items == front + [last];
      LengthsSnoc(tr, front, last);
      OneMore(|front|, |sep|);
    }
  }

  /** The result is as long as the texts and one separator fewer than there are values. */
  lemma JoinedLength<T(!new)>(tr: Traits<T>, sep: string, items: seq<T>)
    ensures |Joined(tr, sep, items)| == Lengths(tr, items) + (if items == [] then 0 else |items| - 1) * |sep|
  {
    if items == [] {
    } else {
      var front, last := items[..|items| - 1], items[|items| - 1];
      TerminatedLength(tr, sep, front);
      assert items == front + [last];
      LengthsSnoc(tr, front, last);
    }
  }

  /** What the values ask for beyond their texts. */
  function Surplus<T(!new)>(tr: Traits<T>, items: seq<T>): int {
    if items == [] then 0 else tr.sizeBuffer(items[0]) - |tr.textOf(items[0])| + Surplus(tr, items[1..])
  }

  lemma {:induction false} RoomLength<T(!new)>(tr: Traits<T>, sep: string, items: seq<T>)
    ensures Room(tr, sep, items) == Lengths(tr, items) + Surplus(tr, items) + |items| * |sep|
  {
    if items == [] {
    } else {
      RoomLength(tr, sep, items[1..]);
      OneMore(|items| - 1, |sep|);
    }
  }

  /** The budget exceeds the result by what the values ask for beyond their texts, and a separator. */
  lemma BudgetSurplus<T(!new)>(tr: Traits<T>, sep: string, items: seq<T>)
    requires items != []
    ensures Room(tr, sep, items) == |Joined(tr, sep, items)| + Surplus(tr, items) + |sep|
  {
    RoomLength(tr, sep, items);
    JoinedLength(tr, sep, items);
    OneMore(|items| - 1, |sep|);
  }

  /** The tuple version, from position `index` on; a tuple has at least one element. */
  function TupleList<T(!new)>(tr: Traits<T>, sep: string, t: seq<T>, index: nat): string
    requires index < |t|
    decreases |t| - index
  {
    if index == |t| - 1 then tr.textOf(t[index])
    else tr.textOf(t[index]) + sep + TupleList(tr, sep, t, index + 1)
  }

  /** The recursive version gives the same text as the budgeted one. */
  lemma {:induction false} TupleListIsJoined<T(!new)>(tr: Traits<T>, sep: string, t: seq<T>, index: nat)
    requires index < |t|
    ensures Joined(tr, sep, t) == Terminated(tr, sep, t[..index]) + TupleList(tr, sep, t, index)
    decreases |t| - index
  {
    if index < |t| - 1 {
      TupleListIsJoined(tr, sep, t, index + 1);
      assert t[..index + 1][..index] == t[..index];
      var head, text, rest := Terminated(tr, sep, t[..index]), tr.textOf(t[index]), TupleList(tr, sep, t, index + 1);
      assert Terminated(tr, sep, t[..index + 1]) == head + text + sep;
      assert (head + text + sep) + rest == head + (text + sep + rest);
    }
  }
}
