/**
 Whether the size that the array writer asks for is enough. Between quotes it always is; without
 quotes there is no room in it for the separators, and only elements shorter than their own
 estimates make up for that.
 */
module ArraySizes {
  import opened Wrappers
  import opened Scanners
  import opened StringTraits
  import opened ArrayWriter
  import Decimal

  /** How far the items' texts stay below what they add to the size. */
  function Slack<T(!new)>(t: ElementType<T>, items: seq<Nested<T>>): int {
    if items == [] then 0 else Budget(t, items[0]) - |ItemText(t, items[0])| + Slack(t, items[1..])
  }

  lemma {:induction false} FollowedLength<T(!new)>(t: ElementType<T>, items: seq<Nested<T>>)
    ensures |EachFollowed(t, items)| == Room(t, items) - Slack(t, items) + |items|
  {
    hide Budget, ItemText;
    if items == [] {
    } else {
      FollowedLength(t, items[1..]);
    }
  }

  /** The size asked for, less the space that the text and its zero need. */
  lemma SizeGap<T(!new)>(t: ElementType<T>, items: seq<Nested<T>>)
    ensures SizeBuffer(t, items) - (|Text(t, items)| + 1) == if items == [] then 0 else Slack(t, items) - (|items| - 1)
  {
    hide Budget, ItemText, EachFollowed, ItemsText;
    FollowedLength(t, items);
    WholeText(t, items);
  }

  /**
   The size law: the text and its zero fit the size that is asked for, unless the elements are
   written without quotes; and then exactly when what they leave of their own sizes pays for
   the separators between them.
   */
  lemma SizeSuffices<T(!new)>(t: ElementType<T>, items: seq<Nested<T>>)
    requires t.Valid() && WellTyped(Container(items))
    ensures |Text(t, items)| + 1 <= SizeBuffer(t, items) <==> !Flat(t, items) || Slack(t, items) >= |items| - 1
  {
    hide Budget, ItemText, EachFollowed, ItemsText, Room, PlainText;
    SizeGap(t, items);
    FollowedLength(t, items);
    RowFits(t, items);
  }

  /** Given just the size it asks for, the writer does not throw, and stays inside. */
  predicate SizeKept<T(!new)>(t: ElementType<T>, items: seq<Nested<T>>) {
    Served(t, SizeBuffer(t, items), items) && |Text(t, items)| + 1 <= SizeBuffer(t, items)
  }

  /** Two ways for a conversion to refuse a space: when the text does not fit, or whenever there
      is less than the estimate. */
  ghost predicate Exacting<T(!new)>(tr: Traits<T>) {
    forall v, space: nat :: tr.refuses(space, v) <==> space < |tr.textOf(v)| + 1
  }

  ghost predicate Cautious<T(!new)>(tr: Traits<T>) {
    forall v, space: nat :: tr.refuses(space, v) <==> space < tr.sizeBuffer(v)
  }

  /** What comes before and after the element at `i` leaves it the space it asks for. */
  predicate LeavesRoom<T(!new)>(t: ElementType<T>, items: seq<Nested<T>>, i: nat)
    requires i < |items|
  {
    Slack(t, items[..i]) + 1 + Room(t, items[i + 1..]) >= i
  }

  /**
   Exactly when the promise of `size_buffer` is kept: always between quotes, and for containers
   of containers; without quotes, if the law above holds, and, where conversions refuse any
   space below their estimate, if each element is also left as much as that.
   */
  lemma SizePromise<T(!new)>(t: ElementType<T>, items: seq<Nested<T>>)
    requires t.Valid() && WellTyped(Container(items))
    ensures !Flat(t, items) ==> SizeKept(t, items)
    ensures Flat(t, items) && Exacting(t.traits) ==> (SizeKept(t, items) <==> Slack(t, items) >= |items| - 1)
    ensures Flat(t, items) && Cautious(t.traits) ==>
              (SizeKept(t, items) <==>
               && Slack(t, items) >= |items| - 1
               && forall i | 0 <= i < |items| :: items[i].element.Some? ==> LeavesRoom(t, items, i))
  {
    hide Budget, ItemText, EachFollowed, ItemsText, Room, Slack, PlainText, Text, SizeBuffer;
    SizeSuffices(t, items);
    forall i | 0 <= i < |items|
      ensures !Flat(t, items) ==> !(t.unquoted && items[i].Value?)
      ensures Flat(t, items) && items[i].element.Some? && Exacting(t.traits) && Slack(t, items) >= |items| - 1 ==>
                ItemServed(t, SizeBuffer(t, items) - 1 - |EachFollowed(t, items[..i])|, items[i])
      ensures Flat(t, items) && items[i].element.Some? && Cautious(t.traits) ==>
                (ItemServed(t, SizeBuffer(t, items) - 1 - |EachFollowed(t, items[..i])|, items[i]) <==>
                 LeavesRoom(t, items, i))
    {
      SpaceLeft(t, items, i);
      if Flat(t, items) && items[i].element.Some? {
        ElementBudget(t, items[i].element.value);
      }
    }
  }

  lemma ElementBudget<T(!new)>(t: ElementType<T>, v: T)
    requires t.unquoted
    ensures Budget(t, Value(Some(v))) == t.traits.sizeBuffer(v) - 1
    ensures ItemText(t, Value(Some(v))) == t.traits.textOf(v)
  {
  }

  lemma {:induction false} FollowedSplit<T(!new)>(t: ElementType<T>, a: seq<Nested<T>>, b: seq<Nested<T>>)
    ensures |EachFollowed(t, a + b)| == |EachFollowed(t, a)| + |EachFollowed(t, b)|
  {
    hide ItemText;
    if a == [] {
      assert a + b == b;
    } else {
      assert (a + b)[1..] == a[1..] + b;
      FollowedSplit(t, a[1..], b);
    }
  }

  /** The space that the element at `i` is given out of the size asked for. */
  lemma SpaceLeft<T(!new)>(t: ElementType<T>, items: seq<Nested<T>>, i: nat)
    requires t.Valid() && WellTyped(Container(items)) && i < |items|
    ensures Flat(t, items) <==> t.unquoted && items[i].Value?
    ensures var space := SizeBuffer(t, items) - 1 - |EachFollowed(t, items[..i])|;
            && space == 2 + Budget(t, items[i]) + Room(t, items[i + 1..]) + Slack(t, items[..i]) - i
            && (Slack(t, items) >= |items| - 1 ==> space >= |ItemText(t, items[i])| + 1)
  {
    hide Budget, ItemText, EachFollowed, Room, Slack, PlainText;
    FollowedLength(t, items[..i]);
    RoomAround(t, items, i);
    ItemStep(t, items, i);
    assert items == items[..i] + items[i..];
    FollowedSplit(t, items[..i], items[i..]);
    WholeText(t, items);
    SizeGap(t, items);
  }

  // ----- No more than the worst case -----

  /** The characters that a backslash must go before. */
  function Specials(s: string): nat {
    if s == "" then 0 else (if s[0] == '\\' || s[0] == '"' then 1 else 0) + Specials(s[1..])
  }

  lemma {:induction false} EscapedLength(s: string)
    ensures |UnitsText(Escape(s))| == |s| + Specials(s)
  {
    if s == "" {
    } else {
      EscapedLength(s[1..]);
      assert Escape(s)[1..] == Escape(s[1..]);
    }
  }

  /**
   What an item between quotes asks for beyond its text and separator: a byte, what its
   estimate exceeds its text and zero by, twice, and a byte for each character that needed no
   backslash. So nothing but a byte, where the estimate is exact and every character is special.
   A null asks for five bytes too many, a container for twice its own size and two.
   */
  lemma QuotedBudget<T(!new)>(t: ElementType<T>, item: Nested<T>)
    requires !(t.unquoted && item.Value?)
    ensures var surplus := Budget(t, item) - (|ItemText(t, item)| + 1);
            && (item == Value(None) ==> surplus == 5)
            && (item.Value? && item.element.Some? ==>
                  var v := item.element.value;
                  var s := t.traits.textOf(v);
                  surplus == 1 + 2 * (t.traits.sizeBuffer(v) - (|s| + 1)) + (|s| - Specials(s)))
            && (item.Container? ==>
                  surplus == 2 * SizeBuffer(t, item.items) + 2 - (|Text(t, item.items)| + 1))
  {
    hide Escape;
    if item.Value? && item.element.Some? {
      EscapedLength(t.traits.textOf(item.element.value));
    }
  }

  // ----- Examples -----

  /** One null without quotes: six bytes are asked for, and seven are needed. */
  lemma NullNeedsMore<T(!new)>(t: ElementType<T>)
    requires t.Valid() && t.unquoted
    ensures SizeBuffer(t, [Value(None)]) == 6 && |Text(t, [Value(None)])| + 1 == 7
    ensures !SizeKept(t, [Value(None)])
  {
    var items: seq<Nested<T>> := [Value(None)];
    assert items[1..] == [];
    assert ItemsText(t, items) == "NULL";
  }

  /** Two smallest `int`s: 25 bytes are asked for, and 26 are needed. */
  lemma SmallestIntsNeedMore(sep: char)
    requires sep !in "-0123456789"
    ensures var t, least := ElementType(IntConversions(), true, sep), Value(Some(-0x8000_0000 as Int32));
            && t.Valid() && SizeBuffer(t, [least, least]) == 25 && |Text(t, [least, least])| + 1 == 26
            && !SizeKept(t, [least, least])
  {
    hide SizeBuffer, Text, Budget, ItemText, PlainText, Room, Slack;
    var t, v := ElementType(IntConversions(), true, sep), -0x8000_0000 as Int32;
    var items := [Value(Some(v)), Value(Some(v))];
    IntsAreValid(sep);
    LeastIntLength();
    ElementBudget(t, v);
    SizeGap(t, items);
    OfTwo(t, Value(Some(v)));
  }

  lemma OfTwo<T(!new)>(t: ElementType<T>, item: Nested<T>)
    ensures SizeBuffer(t, [item, item]) == 3 + 2 * Budget(t, item)
    ensures Slack(t, [item, item]) == 2 * (Budget(t, item) - |ItemText(t, item)|)
  {
    hide Budget, ItemText;
    assert [item, item][1..] == [item] && [item][1..] == [];
    assert Room(t, [item]) == Budget(t, item);
    assert Slack(t, [item]) == Budget(t, item) - |ItemText(t, item)|;
  }

  lemma IntsAreValid(sep: char)
    requires sep !in "-0123456789"
    ensures ElementType(IntConversions(), true, sep).Valid()
  {
    IntContract();
    forall i: Int32
      ensures PlainText(sep, IntConversions().textOf(i))
    {
      Decimal.ParsePrint(i);
      var s := Decimal.Print(i);
      forall k | 0 <= k < |s|
        ensures s[k] !in {sep, ',', '{', '}', '"', '\\', '\0'}
      {
        assert s[k] in s;
        DigitOrSign(s[k]);
      }
      assert s[0] in s && s[0] != 'N';
    }
  }

  lemma DigitOrSign(c: char)
    requires c == '-' || Decimal.IsDigit(c)
    ensures c in "-0123456789"
  {
    var d := c as int - '0' as int;
    assert c != '-' ==> "-0123456789"[d + 1] == c;
  }

  lemma LeastIntLength()
    ensures |IntConversions().textOf(-0x8000_0000)| == 11
  {
    assert Decimal.Pow10(9) == 1_000_000_000 && Decimal.Pow10(10) == 10_000_000_000;
    Decimal.DigitCount(0x8000_0000, 9);
    Decimal.DigitCount(0x8000_0000, 10);
  }

  /** What a list of `bool` and null takes beyond its budget: a byte for each `false`, and two for
      each null. */
  function Owed(items: seq<Option<bool>>): nat {
    if items == [] then 0 else (if items[0].None? then 2 else if items[0].value then 0 else 1) + Owed(items[1..])
  }

  function Elements(items: seq<Option<bool>>): seq<Nested<bool>> {
    seq(|items|, i requires 0 <= i < |items| => Value(items[i]))
  }

  /** An array of `bool` is written within the size asked for exactly if at most one element is
      `false` and none is null. */
  lemma BoolsKept(sep: char, items: seq<Option<bool>>)
    requires sep !in "truefalse"
    ensures SizeKept(ElementType(BoolConversions(), true, sep), Elements(items)) <==> Owed(items) <= 1
  {
    hide SizeKept, PlainText, Slack;
    var t := ElementType(BoolConversions(), true, sep);
    BoolsAreValid(sep);
    OwedIsSlack(sep, items);
    SizePromise(t, Elements(items));
  }

  lemma BoolsAreValid(sep: char)
    requires sep !in "truefalse"
    ensures ElementType(BoolConversions(), true, sep).Valid()
  {
    assert 't' in "truefalse" && 'r' in "truefalse" && 'u' in "truefalse" && 'e' in "truefalse";
    assert 'f' in "truefalse" && 'a' in "truefalse" && 'l' in "truefalse" && 's' in "truefalse";
    assert PlainText(sep, "true") && PlainText(sep, "false");
  }

  lemma {:induction false} OwedIsSlack(sep: char, items: seq<Option<bool>>)
    ensures Slack(ElementType(BoolConversions(), true, sep), Elements(items)) == |items| - Owed(items)
  {
    if items == [] {
    } else {
      assert Elements(items)[1..] == Elements(items[1..]);
      OwedIsSlack(sep, items[1..]);
      if items[0].Some? {
        ElementBudget(ElementType(BoolConversions(), true, sep), items[0].value);
      }
    }
  }
}
