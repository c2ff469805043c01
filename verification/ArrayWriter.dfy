/**
 Writing nested containers as SQL arrays, in place in a caller's buffer: elements between quotes
 or without, and when the size that is asked for is enough.
 */
module ArrayWriter {
  import opened Wrappers
  import opened Scanners
  import opened StringTraits
  import opened ArrayGrammar

  /** An element type: its conversions, whether it needs no quotes in an array, and its separator. */
  datatype ElementType<!T(!new)> = ElementType(traits: Traits<T>, unquoted: bool, separator: char) {
    /** A type may claim to need no quotes only if no text of it could confuse the parser. */
    ghost predicate Valid() {
      traits.Contract() && (unquoted ==> forall v :: PlainText(separator, traits.textOf(v)))
    }
  }

  predicate PlainText(sep: char, text: string) {
    && text != "" && text != "NULL"
    && forall i | 0 <= i < |text| :: text[i] !in {sep, ',', '{', '}', '"', '\\', '\0'}
  }

  /** An element of a container, null or not, or a nested container. */
  datatype Nested<T> = Value(element: Option<T>) | Container(items: seq<Nested<T>>)

  /** A container holds either elements or containers, as its type says. */
  predicate WellTyped<T>(v: Nested<T>) {
    v.Container? ==>
      && (|| (forall i | 0 <= i < |v.items| :: v.items[i].Value?)
          || (forall i | 0 <= i < |v.items| :: v.items[i].Container?))
      && forall i | 0 <= i < |v.items| :: WellTyped(v.items[i])
  }

  /** A container whose elements are written without quotes. */
  predicate Flat<T(!new)>(t: ElementType<T>, items: seq<Nested<T>>) {
    t.unquoted && items != [] && items[0].Value?
  }

  // ----- The text of a container -----

  /** A string between quotes, with a backslash before each backslash and quote. */
  function Escape(s: string): (units: seq<Unit>)
    ensures LegalUnits(units) && UnitsValue(units) == s
  {
    if s == "" then []
    else
      var unit := if s[0] == '\\' || s[0] == '"' then Escaped(s[0]) else Plain(s[0]);
      [unit] + Escape(s[1..])
  }

  /** An element as written: quoted, unless it is null or needs no quotes. */
  function TokenOf<T(!new)>(t: ElementType<T>, element: Option<T>): Token {
    match element
    case None => Bare("NULL")
    case Some(v) => if t.unquoted then Bare(t.traits.textOf(v)) else Quoted(Escape(t.traits.textOf(v)))
  }

  /** What the writer puts after an item: the separator of the item's own type, which for a
      container is the comma, whatever separates the elements. */
  function SeparatorAfter<T(!new)>(t: ElementType<T>, item: Nested<T>): char {
    if item.Value? then t.separator else ','
  }

  function ItemText<T(!new)>(t: ElementType<T>, item: Nested<T>): string
    decreases item, 1
  {
    match item
    case Value(element) => TokenOf(t, element).Text()
    case Container(items) => Text(t, items)
  }

  function Text<T(!new)>(t: ElementType<T>, items: seq<Nested<T>>): string
    decreases items, 1
  {
    "{" + ItemsText(t, items) + "}"
  }

  function ItemsText<T(!new)>(t: ElementType<T>, items: seq<Nested<T>>): string
    decreases items, 0
  {
    if items == [] then ""
    else if |items| == 1 then ItemText(t, items[0])
    else ItemText(t, items[0]) + [SeparatorAfter(t, items[0])] + ItemsText(t, items[1..])
  }

  /** The items with a separator after each, as they are before the last one is taken back. */
  function EachFollowed<T(!new)>(t: ElementType<T>, items: seq<Nested<T>>): string {
    if items == [] then ""
    else ItemText(t, items[0]) + [SeparatorAfter(t, items[0])] + EachFollowed(t, items[1..])
  }

  // ----- The space it asks for -----

  /** What `size_buffer` says of an element. */
  function ItemSize<T(!new)>(t: ElementType<T>, item: Nested<T>): int
    decreases item, 1
  {
    match item
    case Value(None) => 4
    case Value(Some(v)) => t.traits.sizeBuffer(v)
    case Container(items) => SizeBuffer(t, items)
  }

  function SizeBuffer<T(!new)>(t: ElementType<T>, items: seq<Nested<T>>): int
    decreases items, 1
  {
    3 + Room(t, items)
  }

  /** What an item adds to the size: twice its own and two, or without quotes its own less one. */
  function Budget<T(!new)>(t: ElementType<T>, item: Nested<T>): int
    decreases item, 2
  {
    if item.Value? && t.unquoted then ItemSize(t, item) - 1 else 2 * ItemSize(t, item) + 2
  }

  function Room<T(!new)>(t: ElementType<T>, items: seq<Nested<T>>): int
    decreases items, 0
  {
    if items == [] then 0 else Budget(t, items[0]) + Room(t, items[1..])
  }

  // ----- Writing a quoted element -----

  lemma {:induction false} EscapeSnoc(s: string, c: char)
    ensures UnitsText(Escape(s + [c])) ==
            UnitsText(Escape(s)) + (if c == '\\' || c == '"' then ['\\', c] else [c])
  {
    hide LegalUnits, UnitsValue;
    if s == "" {
      assert s + [c] == [c] && [c][1..] == "";
      assert UnitsText([]) == "";
    } else {
      assert (s + [c])[1..] == s[1..] + [c];
      EscapeSnoc(s[1..], c);
      var first := Escape(s)[0];
      assert Escape(s + [c])[0] == first;
      assert Escape(s + [c])[1..] == Escape(s[1..] + [c]) && Escape(s)[1..] == Escape(s[1..]);
    }
  }

  lemma NothingEscaped()
    ensures UnitsText(Escape("")) == ""
  {
  }

  /** A character, after a backslash if it needs one. */
  method PutEscaped(buf: array<char>, ghost start: nat, here: nat, c: char, ghost before: string) returns (next: nat)
    requires start <= here && here + 2 <= buf.Length && buf[start..here] == before
    modifies buf
    ensures here < next <= here + 2
    ensures buf[start..next] == before + (if c == '\\' || c == '"' then ['\\', c] else [c])
    ensures OnlyWithin(buf, here, next)
  {
    next := here;
    if c == '\\' || c == '"' {
      buf[next] := '\\';
      next := next + 1;
    }
    buf[next] := c;
    next := next + 1;
    assert buf[start..next] == before + buf[here..next];
  }

  /**
   Writes a quoted element at `here`. Its text is first converted into the tail of the same
   buffer, and read from there while its escaped form grows towards it; the space suffices for
   the one never to reach the other's unread part.
   */
  method WriteQuoted<T(!new)>(tr: Traits<T>, buf: array<char>, here: nat, end: nat, v: T) returns (next: nat)
    requires tr.Contract() && here + 2 * tr.sizeBuffer(v) + 4 <= end <= buf.Length
    modifies buf
    ensures next == here + |Quoted(Escape(tr.textOf(v))).Text()| <= end
    ensures buf[here..next] == Quoted(Escape(tr.textOf(v))).Text()
    ensures OnlyWithin(buf, here, end)
  {
    hide Escape, UnitsText, LegalUnits, UnitsValue;
    ghost var s := tr.textOf(v);
    NothingEscaped();
    SizeHoldsText(tr, v);
    buf[here] := '"';
    next := here + 1;
    var budget := tr.sizeBuffer(v);
    assert budget < end - next;
    var tail, length := ToTail(tr, buf, end, v);
    assert s[..0] == "";
    for i := 0 to length
      invariant here < next <= here + 1 + 2 * i
      invariant buf[here..next] == "\"" + UnitsText(Escape(s[..i]))
      invariant forall k | i <= k < |s| :: buf[tail + k] == s[k]
      invariant OnlyWithin(buf, here, end)
    {
      var c := buf[tail + i];
      EscapeSnoc(s[..i], c);
      assert s[..i + 1] == s[..i] + [c];
      next := PutEscaped(buf, here, next, c, buf[here..next]);
    }
    assert s[..|s|] == s;
    ghost var open := buf[here..next];
    buf[next] := '"';
    next := next + 1;
    assert buf[here..next] == open + "\"";
  }

  /** Converts an element into the very end of the buffer, in just the space it asks for. */
  method ToTail<T(!new)>(tr: Traits<T>, buf: array<char>, end: nat, v: T) returns (tail: nat, length: nat)
    requires tr.Contract() && tr.sizeBuffer(v) <= end <= buf.Length
    modifies buf
    ensures tail == end - tr.sizeBuffer(v) && length == |tr.textOf(v)| && tail + length <= end
    ensures forall k | 0 <= k < length :: buf[tail + k] == tr.textOf(v)[k]
    ensures OnlyWithin(buf, tail, end)
  {
    tail := end - tr.sizeBuffer(v);
    var stop := IntoBuf(tr, buf, tail, end, v);
    length := stop.value - 1 - tail;
    forall k | 0 <= k < length
      ensures buf[tail + k] == tr.textOf(v)[k]
    {
      assert buf[tail..stop.value - 1][k] == buf[tail + k];
    }
  }

  // ----- Writing a container -----

  /** An element written without quotes is given a space that its conversion accepts. */
  predicate ItemServed<T(!new)>(t: ElementType<T>, space: int, item: Nested<T>) {
    t.unquoted && item.Value? && item.element.Some? ==> space >= 0 && !t.traits.refuses(space, item.element.value)
  }

  /** So are all such elements, each where it is written. */
  predicate Served<T(!new)>(t: ElementType<T>, space: int, items: seq<Nested<T>>) {
    forall i | 0 <= i < |items| :: ItemServed(t, space - 1 - |EachFollowed(t, items[..i])|, items[i])
  }

  function Max(a: nat, b: nat): nat {
    if a < b then b else a
  }

  /**
   `into_buf` of a container. It throws when the buffer is smaller than `size_buffer` says, or
   when an element that needs no quotes refuses the space left for it; and otherwise writes the
   text and a trailing zero. Only what it checks keeps it inside: it writes nulls, separators
   and the end unchecked, so `buf` here is the memory, of which the caller's buffer ends at `end`.
   */
  method ContainerIntoBuf<T(!new)>(t: ElementType<T>, buf: array<char>, begin: nat, end: nat, items: seq<Nested<T>>)
    returns (r: Option<nat>)
    requires t.Valid() && WellTyped(Container(items)) && begin <= end <= buf.Length
    requires SizeBuffer(t, items) <= end - begin ==> begin + |Text(t, items)| + 1 <= buf.Length
    modifies buf
    ensures r.Some? <==> SizeBuffer(t, items) <= end - begin && Served(t, end - begin, items)
    ensures end - begin < SizeBuffer(t, items) ==> buf[..] == old(buf[..])
    ensures SizeBuffer(t, items) <= end - begin ==> OnlyWithin(buf, begin, Max(end, begin + |Text(t, items)| + 1))
    ensures r.Some? ==>
              && r.value == begin + |Text(t, items)| + 1
              && buf[begin..r.value - 1] == Text(t, items) && buf[r.value - 1] == '\0'
    ensures !Flat(t, items) && r.Some? ==> r.value <= end
    decreases items, 1
  {
    hide EachFollowed, ItemsText, Room, WellTyped, Flat, Served, ElementType.Valid;
    if end - begin < SizeBuffer(t, items) {
      return None;
    }
    WholeText(t, items);
    SizeCountsBraces(t, items);
    buf[begin] := '{';
    var written := WriteItems(t, buf, begin, end, items);
    if written.None? {
      return None;
    }
    var next := Close(buf, begin, written.value, |items| > 0, "{" + ItemsText(t, items), "{" + EachFollowed(t, items));
    return Some(next);
  }

  /** The loop over the items, each with a separator after it. */
  method WriteItems<T(!new)>(t: ElementType<T>, buf: array<char>, begin: nat, end: nat, items: seq<Nested<T>>)
    returns (r: Option<nat>)
    requires t.Valid() && WellTyped(Container(items)) && begin < end <= buf.Length && buf[begin] == '{'
    requires SizeBuffer(t, items) <= end - begin && begin + 1 + |EachFollowed(t, items)| <= buf.Length
    modifies buf
    ensures r.Some? <==> Served(t, end - begin, items)
    ensures OnlyWithin(buf, begin, Max(end, begin + 1 + |EachFollowed(t, items)|))
    ensures r.Some? ==>
              && r.value == begin + 1 + |EachFollowed(t, items)|
              && buf[begin..r.value] == "{" + EachFollowed(t, items)
              && (!Flat(t, items) ==> r.value + 2 <= end)
    decreases items, 0
  {
    hide EachFollowed, ItemText, ItemsText, Room, Budget, WellTyped, Flat, PlainText, ItemServed;
    NothingYet(t, items);
    var here := begin + 1;
    for i := 0 to |items|
      invariant here + |EachFollowed(t, items[i..])| == begin + 1 + |EachFollowed(t, items)|
      invariant Flat(t, items) || here + Room(t, items[i..]) + 2 <= end
      invariant here == begin + 1 + |EachFollowed(t, items[..i])|
      invariant buf[begin..here] == "{" + EachFollowed(t, items[..i])
      invariant forall k | 0 <= k < i :: ItemServed(t, end - begin - 1 - |EachFollowed(t, items[..k])|, items[k])
      invariant OnlyWithin(buf, begin, Max(end, begin + 1 + |EachFollowed(t, items)|))
    {
      ItemStep(t, items, i);
      var next := WriteItem(t, buf, begin, here, end, items[i], "{" + EachFollowed(t, items[..i]));
      if next.None? {
        return None;
      }
      here := next.value;
    }
    assert items[..|items|] == items;
    return Some(here);
  }

  /** Takes back the last separator, if there is one, and adds the closing brace and a zero. */
  method Close(buf: array<char>, ghost begin: nat, end: nat, nonempty: bool, ghost text: string, ghost written: string)
    returns (next: nat)
    requires begin <= end && begin + |text| + 2 <= buf.Length && end <= buf.Length
    requires buf[begin..end] == written && text <= written && |written| == |text| + if nonempty then 1 else 0
    modifies buf
    ensures next == begin + |text| + 2
    ensures buf[begin..next - 1] == text + "}" && buf[next - 1] == '\0'
    ensures OnlyWithin(buf, begin + |text|, next)
  {
    var here := if nonempty then end - 1 else end;
    assert buf[begin..here] == buf[begin..end][..|text|] == text;
    buf[here] := '}';
    next := here + 1;
    buf[next] := '\0';
    next := next + 1;
  }

  /** An element: a null, text as it is, or a quoted string. */
  method WriteElement<T(!new)>(t: ElementType<T>, buf: array<char>, here: nat, end: nat, element: Option<T>)
    returns (r: Option<nat>)
    requires t.Valid() && end <= buf.Length
    requires t.unquoted || here + Budget(t, Value(element)) + 2 <= end
    requires here + |TokenOf(t, element).Text()| <= buf.Length
    modifies buf
    ensures r.Some? <==> ItemServed(t, end - here, Value(element))
    ensures r.Some? ==>
              && r.value == here + |TokenOf(t, element).Text()|
              && buf[here..r.value] == TokenOf(t, element).Text()
    ensures OnlyWithin(buf, here, Max(end, here + |TokenOf(t, element).Text()|))
  {
    hide Escape, UnitsText, LegalUnits, UnitsValue, PlainText;
    match element {
      case None =>
        var next := Copy(buf, here, "NULL");
        return Some(next);
      case Some(v) =>
        if !t.unquoted {
          var next := WriteQuoted(t.traits, buf, here, end, v);
          return Some(next);
        }
        if end < here {
          return None;
        }
        var written := IntoBuf(t.traits, buf, here, end, v);
        if written.None? {
          return None;
        }
        return Some(written.value - 1);
    }
  }

  /** A container inside another, which is never refused; its trailing zero is taken back. */
  method WriteNested<T(!new)>(t: ElementType<T>, buf: array<char>, here: nat, end: nat, items: seq<Nested<T>>)
    returns (next: nat)
    requires t.Valid() && WellTyped(Container(items)) && end <= buf.Length
    requires here + 2 * SizeBuffer(t, items) + 4 <= end && here + |Text(t, items)| + 1 <= buf.Length
    modifies buf
    ensures next == here + |Text(t, items)| && buf[here..next] == Text(t, items)
    ensures OnlyWithin(buf, here, Max(end, next + 1))
    decreases items, 2
  {
    hide EachFollowed, ItemsText, Room, WellTyped, Served;
    DoubleRoomServes(t, items, end - here);
    var written := ContainerIntoBuf(t, buf, here, end, items);
    next := written.value - 1;
  }

  /** One turn of the loop: an item, and the separator after it. */
  method WriteItem<T(!new)>(t: ElementType<T>, buf: array<char>, ghost begin: nat, here: nat, end: nat,
                            item: Nested<T>, ghost before: string)
    returns (r: Option<nat>)
    requires t.Valid() && WellTyped(item) && begin <= here && end <= buf.Length
    requires (t.unquoted && item.Value?) || here + Budget(t, item) + 2 <= end
    requires here + |ItemText(t, item)| + 1 <= buf.Length
    requires buf[begin..here] == before
    modifies buf
    ensures r.Some? <==> ItemServed(t, end - here, item)
    ensures r.Some? ==>
              && r.value == here + |ItemText(t, item)| + 1
              && buf[begin..r.value] == before + (ItemText(t, item) + [SeparatorAfter(t, item)])
    ensures OnlyWithin(buf, here, Max(end, here + |ItemText(t, item)| + 1))
    decreases item, 0
  {
    hide TokenOf, Text, EachFollowed, WellTyped, ElementType.Valid;
    var next: nat;
    match item {
      case Value(element) =>
        var written := WriteElement(t, buf, here, end, element);
        if written.None? {
          return None;
        }
        next := written.value;
      case Container(items) =>
        next := WriteNested(t, buf, here, end, items);
    }
    assert buf[begin..next] == before + ItemText(t, item);
    buf[next] := SeparatorAfter(t, item);
    next := next + 1;
    return Some(next);
  }

  lemma ItemStep<T(!new)>(t: ElementType<T>, items: seq<Nested<T>>, i: nat)
    requires t.Valid() && WellTyped(Container(items)) && i < |items|
    ensures WellTyped(items[i]) && (Flat(t, items) <==> t.unquoted && items[i].Value?)
    ensures Room(t, items[i..]) == Budget(t, items[i]) + Room(t, items[i + 1..]) && Room(t, items[i + 1..]) >= 0
    ensures Flat(t, items) || |ItemText(t, items[i])| + 1 <= Budget(t, items[i])
    ensures |EachFollowed(t, items[i..])| == |ItemText(t, items[i])| + 1 + |EachFollowed(t, items[i + 1..])|
    ensures |EachFollowed(t, items[..i + 1])| == |EachFollowed(t, items[..i])| + |ItemText(t, items[i])| + 1
    ensures EachFollowed(t, items[..i + 1]) ==
            EachFollowed(t, items[..i]) + (ItemText(t, items[i]) + [SeparatorAfter(t, items[i])])
  {
    hide ItemText, Budget, PlainText;
    assert items[i..][1..] == items[i + 1..];
    assert items[..i + 1] == items[..i] + [items[i]];
    FollowedSnoc(t, items[..i], items[i]);
    ItemFits(t, items[i]);
    RowFits(t, items[i + 1..]);
  }

  /** At the start of the loop, and at its end. */
  lemma NothingYet<T(!new)>(t: ElementType<T>, items: seq<Nested<T>>)
    ensures items[0..] == items && items[|items|..] == []
    ensures EachFollowed(t, items[..0]) == "" && Room(t, items[|items|..]) == 0
  {
  }

  lemma {:induction false} FollowedSnoc<T(!new)>(t: ElementType<T>, items: seq<Nested<T>>, item: Nested<T>)
    ensures EachFollowed(t, items + [item]) ==
            EachFollowed(t, items) + (ItemText(t, item) + [SeparatorAfter(t, item)])
  {
    hide ItemText;
    if items == [] {
      assert items + [item] == [item] && [item][1..] == [];
    } else {
      assert (items + [item])[1..] == items[1..] + [item];
      FollowedSnoc(t, items[1..], item);
    }
  }

  /** Taking back the last separator leaves the items' text. */
  lemma {:induction false} WholeText<T(!new)>(t: ElementType<T>, items: seq<Nested<T>>)
    ensures items == [] ==> EachFollowed(t, items) == ItemsText(t, items) == ""
    ensures items != [] ==>
              EachFollowed(t, items) == ItemsText(t, items) + [SeparatorAfter(t, items[|items| - 1])]
  {
    hide ItemText;
    if items == [] {
    } else {
      WholeText(t, items[1..]);
    }
  }

  // ----- Items against their budgets -----

  lemma {:induction false} EscapeFits(s: string)
    ensures |s| <= |UnitsText(Escape(s))| <= 2 * |s|
  {
    if s == "" {
    } else {
      EscapeFits(s[1..]);
      assert Escape(s)[1..] == Escape(s[1..]);
    }
  }

  /** An item and its separator fit the item's budget, or without quotes twice the budget. */
  lemma {:induction false} ItemFits<T(!new)>(t: ElementType<T>, item: Nested<T>)
    requires t.Valid() && WellTyped(item)
    ensures Budget(t, item) >= 1
    ensures |ItemText(t, item)| + 1 <= 2 * Budget(t, item)
    ensures !(t.unquoted && item.Value?) ==> |ItemText(t, item)| + 1 <= Budget(t, item)
    decreases item, 1
  {
    hide Escape, UnitsText;
    match item
    case Value(None) =>
    case Value(Some(v)) =>
      SizeHoldsText(t.traits, v);
      EscapeFits(t.traits.textOf(v));
    case Container(items) =>
      ContainerBudget(t, items);
      RowFits(t, items);
      WholeText(t, items);
  }

  lemma ContainerBudget<T(!new)>(t: ElementType<T>, items: seq<Nested<T>>)
    ensures Budget(t, Container(items)) == 2 * (3 + Room(t, items)) + 2
    ensures |ItemText(t, Container(items))| == 2 + |ItemsText(t, items)|
  {
    hide Room, ItemsText;
    assert ItemSize(t, Container(items)) == SizeBuffer(t, items);
    assert ItemText(t, Container(items)) == Text(t, items);
  }

  lemma {:induction false} RowFits<T(!new)>(t: ElementType<T>, items: seq<Nested<T>>)
    requires t.Valid() && forall i | 0 <= i < |items| :: WellTyped(items[i])
    ensures Room(t, items) >= 0
    ensures |EachFollowed(t, items)| <= 2 * Room(t, items)
    ensures (forall i | 0 <= i < |items| :: !(t.unquoted && items[i].Value?)) ==>
              |EachFollowed(t, items)| <= Room(t, items)
    decreases items, 0
  {
    hide ItemText, Budget, WellTyped;
    if items == [] {
    } else {
      ItemFits(t, items[0]);
      RowFits(t, items[1..]);
    }
  }

  lemma {:induction false} RoomSplit<T(!new)>(t: ElementType<T>, a: seq<Nested<T>>, b: seq<Nested<T>>)
    ensures Room(t, a + b) == Room(t, a) + Room(t, b)
  {
    hide Budget;
    if a == [] {
      assert a + b == b;
    } else {
      assert (a + b)[1..] == a[1..] + b;
      RoomSplit(t, a[1..], b);
    }
  }

  lemma SizeCountsBraces<T(!new)>(t: ElementType<T>, items: seq<Nested<T>>)
    requires t.Valid() && WellTyped(Container(items))
    ensures SizeBuffer(t, items) >= 3
  {
    RowFits(t, items);
  }

  /** The space that remains from an item on, in terms of the room of what comes before and after. */
  lemma RoomAround<T(!new)>(t: ElementType<T>, items: seq<Nested<T>>, i: nat)
    requires i < |items|
    ensures Room(t, items) == Room(t, items[..i]) + Budget(t, items[i]) + Room(t, items[i + 1..])
  {
    hide Budget;
    assert items == items[..i] + items[i..];
    RoomSplit(t, items[..i], items[i..]);
    assert items[i..][1..] == items[i + 1..];
  }

  /** A container inside another is given twice its size and more, so no element of it is refused. */
  lemma DoubleRoomServes<T(!new)>(t: ElementType<T>, items: seq<Nested<T>>, space: int)
    requires t.Valid() && WellTyped(Container(items))
    requires space >= 2 * SizeBuffer(t, items) + 4
    ensures space >= SizeBuffer(t, items) >= 3 && Served(t, space, items)
  {
    hide EachFollowed, Room, ItemText, PlainText;
    RowFits(t, items);
    forall i | 0 <= i < |items|
      ensures ItemServed(t, space - 1 - |EachFollowed(t, items[..i])|, items[i])
    {
      RowFits(t, items[..i]);
      RowFits(t, items[i + 1..]);
      RoomAround(t, items, i);
    }
  }
}
