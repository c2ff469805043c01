/**
 Ranges as text: the writer that fills a caller's buffer, the size it asks for, the reader,
 and when a range survives the trip. Text is taken to be ASCII.
 */
module RangeText {
  import opened Wrappers
  import opened StringTraits
  import opened Ranges

  const EMPTY_TEXT: string := "empty"
  const STOPS: set<char> := {',', ')', ']'}

  // ----- Writing -----

  function BoundText<T(!new)>(tr: Traits<T>, b: Bound<T>): string {
    if b.IsLimited() then tr.textOf(b.value) else ""
  }

  /** The text of a range, which the writer is proved to produce. */
  function Text<T(!new)>(tr: Traits<T>, o: Order<T>, r: Range<T>): string {
    if Empty(o, r) then EMPTY_TEXT
    else
      (if r.lower.Inclusive? then "[" else "(") + BoundText(tr, r.lower) + "," +
      BoundText(tr, r.upper) + (if r.upper.Inclusive? then "]" else ")")
  }

  function SizeBuffer<T(!new)>(tr: Traits<T>, o: Order<T>, r: Range<T>): int {
    var lower := if r.lower.IsLimited() then tr.sizeBuffer(r.lower.value) - 1 else 0;
    var upper := if r.upper.IsLimited() then tr.sizeBuffer(r.upper.value) - 1 else 0;
    if Empty(o, r) then |EMPTY_TEXT| + 1 else 1 + lower + 1 + upper + 2
  }

  /** Appends a bound's text at `here`, and steps back over the trailing zero. */
  method WriteBound<T(!new)>(tr: Traits<T>, buf: array<char>, here: nat, end: nat, b: Bound<T>) returns (r: Option<nat>)
    requires tr.Contract() && here <= end <= buf.Length
    modifies buf
    ensures r.None? <==> b.IsLimited() && tr.refuses(end - here, b.value)
    ensures r.None? ==> OnlyWithin(buf, here, end)
    ensures r.Some? ==>
              && r.value == here + |BoundText(tr, b)| <= end && (b.IsLimited() ==> r.value < end)
              && buf[here..r.value] == BoundText(tr, b)
              && OnlyWithin(buf, here, end)
  {
    if !b.IsLimited() {
      return Some(here);
    }
    var written := IntoBuf(tr, buf, here, end, b.value);
    if written.None? {
      return None;
    }
    return Some(written.value - 1);
  }

  /**
   `into_buf`: either throws, or writes the range's text and a trailing zero and returns the
   end. It never touches the buffer outside `[begin, end)`, and does not throw when given the
   space that `size_buffer` asks for.
   */
  method RangeIntoBuf<T(!new)>(tr: Traits<T>, o: Order<T>, buf: array<char>, begin: nat, end: nat, value: Range<T>)
    returns (r: Option<nat>)
    requires tr.Contract() && begin <= end <= buf.Length
    modifies buf
    ensures OnlyWithin(buf, begin, end)
    ensures end - begin >= SizeBuffer(tr, o, value) ==> r.Some?
    ensures r.Some? ==>
              && r.value == begin + |Text(tr, o, value)| + 1 <= end
              && buf[begin..r.value - 1] == Text(tr, o, value) && buf[r.value - 1] == '\0'
    ensures r.Some? && Empty(o, value) ==> buf[begin..r.value - 1] == "empty"
    ensures r.Some? && !Empty(o, value) ==>
              var text := buf[begin..r.value - 1];
              && |text| >= 3 && text[0] == (if value.lower.Inclusive? then '[' else '(')
              && text[|text| - 1] == (if value.upper.Inclusive? then ']' else ')')
              && text[1..|text| - 1] ==
                 (if value.lower.NoBound? then "" else tr.textOf(value.lower.value)) + "," +
                 (if value.upper.NoBound? then "" else tr.textOf(value.upper.value))
    ensures r.None? <==> Refuses(tr, o, end - begin, value)
  {
    hide BoundText, SizeBuffer, Text, FrontText;
    TextIs(tr, o, value);
    if SizeBuffer(tr, o, value) <= end - begin {
      SizeIsServed(tr, o, end - begin, value);
    }
    if Empty(o, value) {
      if end - begin <= |EMPTY_TEXT| {
        return None;
      }
      var here := Copy(buf, begin, EMPTY_TEXT);
      buf[here] := '\0';
      return Some(here + 1);
    }
    if end - begin < 4 {
      return None;
    }
    var front := WriteFront(tr, buf, begin, end, value);
    if front.None? {
      return None;
    }
    r := WriteRest(tr, buf, begin, front.value, end, value, FrontText(tr, value));
  }

  /** Where `into_buf` throws: at the start, at a bound whose conversion refuses what is left, or
      for want of space for the closing bracket and the zero. */
  predicate Refuses<T(!new)>(tr: Traits<T>, o: Order<T>, space: nat, r: Range<T>) {
    if Empty(o, r) then space < 6
    else
      || space < 4
      || (r.lower.IsLimited() && tr.refuses(space - 1, r.lower.value))
      || space < |BoundText(tr, r.lower)| + 2
      || (r.upper.IsLimited() && tr.refuses(space - |BoundText(tr, r.lower)| - 2, r.upper.value))
      || space < |BoundText(tr, r.lower)| + |BoundText(tr, r.upper)| + 4
  }

  /** The size that is asked for is never refused. */
  lemma SizeIsServed<T(!new)>(tr: Traits<T>, o: Order<T>, space: nat, r: Range<T>)
    requires tr.Contract() && SizeBuffer(tr, o, r) <= space
    ensures !Refuses(tr, o, space, r)
  {
    BoundFits(tr, r.lower);
    BoundFits(tr, r.upper);
  }

  /** The text of a range in full: what is at its ends, and what is between them. */
  lemma TextIs<T(!new)>(tr: Traits<T>, o: Order<T>, r: Range<T>)
    ensures Empty(o, r) ==> Text(tr, o, r) == "empty" == EMPTY_TEXT
    ensures !Empty(o, r) ==>
              && Text(tr, o, r) == FrontText(tr, r) + BoundText(tr, r.upper) + (if r.upper.Inclusive? then "]" else ")")
              && |FrontText(tr, r)| == |BoundText(tr, r.lower)| + 2
    ensures !Empty(o, r) ==>
              var text := Text(tr, o, r);
              && |text| == |BoundText(tr, r.lower)| + |BoundText(tr, r.upper)| + 3
              && text[0] == (if r.lower.Inclusive? then '[' else '(')
              && text[|text| - 1] == (if r.upper.Inclusive? then ']' else ')')
              && text[1..|text| - 1] ==
                 (if r.lower.NoBound? then "" else tr.textOf(r.lower.value)) + "," +
                 (if r.upper.NoBound? then "" else tr.textOf(r.upper.value))
  {
  }

  /** What a bound asks for beyond its text and the zero. */
  function Surplus<T(!new)>(tr: Traits<T>, b: Bound<T>): int {
    if b.IsLimited() then tr.sizeBuffer(b.value) - (|tr.textOf(b.value)| + 1) else 0
  }

  /** The size asked for is just the text and its zero, and what the bounds ask for beyond theirs. */
  lemma SizeIsTight<T(!new)>(tr: Traits<T>, o: Order<T>, r: Range<T>)
    ensures SizeBuffer(tr, o, r) ==
            |Text(tr, o, r)| + 1 + if Empty(o, r) then 0 else Surplus(tr, r.lower) + Surplus(tr, r.upper)
  {
  }

  function FrontText<T(!new)>(tr: Traits<T>, r: Range<T>): string {
    (if r.lower.Inclusive? then "[" else "(") + BoundText(tr, r.lower) + ","
  }

  /** The first half of `into_buf`: the opening bracket, the lower bound and the comma. */
  method WriteFront<T(!new)>(tr: Traits<T>, buf: array<char>, begin: nat, end: nat, value: Range<T>)
    returns (r: Option<nat>)
    requires tr.Contract() && begin + 4 <= end <= buf.Length
    modifies buf
    ensures OnlyWithin(buf, begin, end)
    ensures r.None? <==> value.lower.IsLimited() && tr.refuses(end - begin - 1, value.lower.value)
    ensures r.None? ==> value.lower.IsLimited() && end - begin <= tr.sizeBuffer(value.lower.value)
    ensures r.Some? ==>
              && r.value == begin + |FrontText(tr, value)| <= end
              && buf[begin..r.value] == FrontText(tr, value)
  {
    buf[begin] := if value.lower.Inclusive? then '[' else '(';
    var here := begin + 1;
    var lower := WriteBound(tr, buf, here, end, value.lower);
    if lower.None? {
      return None;
    }
    assert buf[begin + 1..lower.value] == BoundText(tr, value.lower);
    here := lower.value;
    buf[here] := ',';
    here := here + 1;
    return Some(here);
  }

  /** Never less is asked for a bound than the length of its text. */
  lemma BoundFits<T(!new)>(tr: Traits<T>, b: Bound<T>)
    requires tr.Contract()
    ensures b.IsLimited() ==> |BoundText(tr, b)| + 1 <= tr.sizeBuffer(b.value)
  {
    if b.IsLimited() {
      SizeHoldsText(tr, b.value);
    }
  }

  /** The second half of `into_buf`: the upper bound, the closing bracket and the zero. */
  method WriteRest<T(!new)>(tr: Traits<T>, buf: array<char>, ghost begin: nat, middle: nat, end: nat,
                            value: Range<T>, ghost half: string)
    returns (r: Option<nat>)
    requires tr.Contract() && begin <= middle <= end <= buf.Length
    requires buf[begin..middle] == half
    modifies buf
    ensures OnlyWithin(buf, middle, end)
    ensures var needed := if value.upper.IsLimited() then tr.sizeBuffer(value.upper.value) else 1;
            end - middle >= needed + 1 ==> r.Some?
    ensures r.None? <==>
            || (value.upper.IsLimited() && tr.refuses(end - middle, value.upper.value))
            || end - middle < |BoundText(tr, value.upper)| + 2
    ensures r.Some? ==>
              && r.value == middle + |BoundText(tr, value.upper)| + 2 <= end
              && buf[begin..r.value - 1] ==
                 half + BoundText(tr, value.upper) + (if value.upper.Inclusive? then "]" else ")")
              && buf[r.value - 1] == '\0'
  {
    BoundFits(tr, value.upper);
    var upper := WriteBound(tr, buf, middle, end, value.upper);
    if upper.None? {
      return None;
    }
    var here := upper.value;
    assert buf[begin..middle] == half;
    assert buf[begin..here] == half + BoundText(tr, value.upper);
    if end - here < 2 {
      return None;
    }
    buf[here] := if value.upper.Inclusive? then ']' else ')';
    here := here + 1;
    buf[here] := '\0';
    return Some(here + 1);
  }
}
