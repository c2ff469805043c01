/**
 The string conversions of a value type, as a record, and what their documentation promises.
 The conversions of the built-in types are in a compiled library; code that uses them here is
 proved against the documented contract alone.
 */
module StringTraits {
  import opened Wrappers
  import Decimal

  /** `refuses` says for which buffer space `into_buf` throws rather than write a value. */
  datatype Traits<!T(!new)> = Traits(
    textOf: T -> string,
    sizeBuffer: T -> nat,
    refuses: (nat, T) -> bool,
    parse: string -> Option<T>)
  {
    /** The buffer of the estimated size is never refused, and what is accepted fits with its
        trailing zero; a value reads back from its own text. */
    ghost predicate Contract() {
      && (forall v, space: nat :: sizeBuffer(v) <= space ==> !refuses(space, v))
      && (forall v, space: nat :: !refuses(space, v) ==> |textOf(v)| + 1 <= space)
      && (forall v :: parse(textOf(v)) == Some(v))
    }
  }

  /** The estimated size counts the trailing zero. */
  lemma SizeHoldsText<T(!new)>(tr: Traits<T>, v: T)
    requires tr.Contract()
    ensures |tr.textOf(v)| + 1 <= tr.sizeBuffer(v)
  {
    assert !tr.refuses(tr.sizeBuffer(v), v);
  }

  /** The buffer outside `[begin, end)` is as it was. */
  twostate predicate OnlyWithin(buf: array<char>, begin: nat, end: nat)
    requires begin <= end <= buf.Length
    reads buf
  {
    forall k | 0 <= k < buf.Length && !(begin <= k < end) :: buf[k] == old(buf[k])
  }

  /** Copies `text` into the buffer at `begin`. */
  method Copy(buf: array<char>, begin: nat, text: string) returns (end: nat)
    requires begin + |text| <= buf.Length
    modifies buf
    ensures end == begin + |text|
    ensures buf[begin..end] == text
    ensures OnlyWithin(buf, begin, end)
  {
    for i := 0 to |text|
      invariant buf[begin..begin + i] == text[..i]
      invariant forall k | 0 <= k < buf.Length && !(begin <= k < begin + i) :: buf[k] == old(buf[k])
    {
      buf[begin + i] := text[i];
      assert buf[begin..begin + i + 1] == buf[begin..begin + i] + [text[i]];
    }
    end := begin + |text|;
  }

  /** `string_traits<T>::into_buf`: the text and a trailing zero, or nothing if it is refused. */
  method IntoBuf<T(!new)>(tr: Traits<T>, buf: array<char>, begin: nat, end: nat, value: T) returns (r: Option<nat>)
    requires tr.Contract() && begin <= end <= buf.Length
    modifies buf
    ensures r.None? <==> tr.refuses(end - begin, value)
    ensures r.None? ==> buf[..] == old(buf[..])
    ensures r.Some? ==>
              && r.value == begin + |tr.textOf(value)| + 1 <= end
              && buf[begin..r.value - 1] == tr.textOf(value) && buf[r.value - 1] == '\0'
              && OnlyWithin(buf, begin, r.value)
  {
    if tr.refuses(end - begin, value) {
      return None;
    }
    var here := Copy(buf, begin, tr.textOf(value));
    buf[here] := '\0';
    return Some(here + 1);
  }

  // ----- Types that keep the contract -----

  /** `std::string`: its own text, and a buffer that must also hold the trailing zero. */
  function StringConversions(): Traits<string> {
    Traits((s: string) => s, (s: string) => |s| + 1, (space: nat, s: string) => |s| >= space, (s: string) => Some(s))
  }

  lemma StringContract()
    ensures StringConversions().Contract()
    ensures forall s :: StringConversions().sizeBuffer(s) == |StringConversions().textOf(s)| + 1
  {
  }

  type Int32 = i: int | -0x8000_0000 <= i < 0x8000_0000

  /** `int`: at most a sign, nine digits and a partial one, and the trailing zero. */
  function IntConversions(): Traits<Int32> {
    Traits(
      (i: Int32) => Decimal.Print(i),
      (i: Int32) => 12,
      (space: nat, i: Int32) => space < 12,
      ParseInt32)
  }

  function ParseInt32(s: string): Option<Int32> {
    var i := Decimal.Parse(s);
    if i.Some? && -0x8000_0000 <= i.value < 0x8000_0000 then Some(i.value) else None
  }

  lemma IntContract()
    ensures IntConversions().Contract()
  {
    forall i: Int32 {
      Int32Text(i);
    }
  }

  lemma Int32Text(i: Int32)
    ensures |Decimal.Print(i)| <= 11
    ensures ParseInt32(Decimal.Print(i)) == Some(i)
  {
    assert Decimal.Pow10(10) == 10_000_000_000;
    var n: int := i;
    Decimal.DigitCount(if n < 0 then -n else n, 10);
    Decimal.ParsePrint(i);
  }

  /** `bool`: a word copied as it is, and refused only if it does not fit. */
  function BoolConversions(): Traits<bool> {
    Traits(
      BoolText,
      (b: bool) => 6,
      (space: nat, b: bool) => space < |BoolText(b)| + 1,
      (s: string) => if s == "true" then Some(true) else if s == "false" then Some(false) else None)
  }

  function BoolText(b: bool): string {
    if b then "true" else "false"
  }

  lemma BoolContract()
    ensures BoolConversions().Contract()
  {
  }
}
