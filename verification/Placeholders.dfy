/**
 The generator of statement placeholders `$1`, `$2`, ...: a text that is counted up in place,
 mostly by bumping its last character.
 */
module Placeholders {
  import opened Wrappers
  import opened Decimal
  import opened StringTraits

  datatype NextError = TooManyParameters | BufferOverrun

  /** A counter type: its largest value, and the digits it can always represent. */
  predicate IsCounter(maxParams: nat, digits10: nat) {
    digits10 >= 1 && Pow10(digits10) <= maxParams + 1 <= Pow10(digits10 + 1) && digits10 + 3 <= maxParams
  }

  /** The type's conversion to text, of which only the documented contract is known. */
  ghost predicate WritesDigits(tr: Traits<nat>, maxParams: nat) {
    tr.Contract() && forall n: nat | n <= maxParams :: tr.textOf(n) == Digits(n)
  }

  /** What an unsigned type asks for: a number's digits, one of them partial, and a zero byte. */
  ghost predicate SizedAsUnsigned(tr: Traits<nat>, maxParams: nat, digits10: nat) {
    forall n: nat | n <= maxParams :: tr.sizeBuffer(n) == digits10 + 2
  }

  class Placeholder {
    const maxParams: nat
    const digits10: nat
    const conversions: Traits<nat>
    var current: nat
    var len: nat
    const buf: array<char>

    /** The buffer holds the dollar sign, the number in canonical decimal, and a zero byte. */
    ghost predicate Valid()
      reads this, buf
    {
      && IsCounter(maxParams, digits10) && WritesDigits(conversions, maxParams)
      && buf.Length == digits10 + 3
      && 1 <= current <= maxParams
      && len == |View()| < buf.Length
      && buf[..len] == View()
      && buf[len] == '\0'
    }

    /** The text that `view` and `get` give. */
    ghost function View(): string
      reads this
    {
      "$" + Digits(current)
    }

    constructor (maxParams: nat, digits10: nat, conversions: Traits<nat>)
      requires IsCounter(maxParams, digits10) && WritesDigits(conversions, maxParams)
      ensures Valid() && fresh(buf) && current == 1 && buf[..3] == "$1\0"
      ensures this.maxParams == maxParams && this.digits10 == digits10 && this.conversions == conversions
    {
      this.maxParams, this.digits10, this.conversions := maxParams, digits10, conversions;
      current := 1;
      len := 2;
      buf := new char[digits10 + 3];
      new;
      buf[0], buf[1], buf[2] := '$', '1', '\0';
      assert Digits(1) == "1";
    }

    /** Reads the current placeholder. */
    method Get() returns (text: string)
      requires Valid()
      ensures text == "$" + Digits(current)
    {
      return buf[..len];
    }

    /** Writes the whole number after the dollar sign, unless the conversion refuses the space. */
    method WriteNumber() returns (written: bool)
      requires IsCounter(maxParams, digits10) && WritesDigits(conversions, maxParams)
      requires buf.Length == digits10 + 3 && buf[0] == '$' && 1 <= current <= maxParams
      modifies this`len, buf
      ensures written <==> !conversions.refuses(digits10 + 2, current)
      ensures written ==> Valid()
      ensures !written ==> buf[..] == old(buf[..]) && len == old(len)
    {
      hide Digits, Pow10;
      DigitCount(current, digits10 + 1);
      assert conversions.textOf(current) == Digits(current);
      var end := IntoBuf(conversions, buf, 1, buf.Length, current);
      if end.None? {
        return false;
      }
      assert end.value <= maxParams;
      len := end.value - 1;
      assert buf[..len] == [buf[0]] + buf[1..len];
      return true;
    }

    /**
     Moves on to the next placeholder, or fails at the last one. At a carry the number is
     written anew, for which its conversion may refuse the space; an unsigned type never does,
     however large the counter grows. After a refusal the text lags behind the count.
     */
    method Next() returns (r: Result<(), NextError>)
      requires Valid()
      modifies this`current, this`len, buf
      ensures r == Failure(TooManyParameters) <==> old(current) == maxParams
      ensures r == Failure(BufferOverrun) <==>
              && old(current) < maxParams && (old(current) + 1) % 10 == 0
              && conversions.refuses(digits10 + 2, old(current) + 1)
      ensures SizedAsUnsigned(conversions, maxParams, digits10) ==> r != Failure(BufferOverrun)
      ensures r != Failure(BufferOverrun) ==> Valid()
      ensures r == Failure(BufferOverrun) ==> buf[..] == old(buf[..]) && len == old(len)
      ensures current == if r == Failure(TooManyParameters) then old(current) else old(current) + 1
    {
      hide Digits, Pow10;
      if current >= maxParams {
        return Failure(TooManyParameters);
      }
      ghost var before := current;
      current := current + 1;
      if current % 10 == 0 {
        var written := WriteNumber();
        if !written {
          return Failure(BufferOverrun);
        }
      } else {
        DigitCount(current, digits10 + 1);
        LastDigitBump(before);
        var digits := Digits(before);
        assert buf[len - 1] == buf[..len][len - 1] == digits[|digits| - 1];
        buf[len - 1] := (buf[len - 1] as int + 1) as char;
        assert buf[..len] == "$" + digits[..|digits| - 1] + [(digits[|digits| - 1] as int + 1) as char];
      }
      return Success(());
    }
  }

  /** No two placeholders have the same text. */
  lemma DistinctTexts(m: nat, n: nat)
    requires Digits(m) == Digits(n)
    ensures m == n
  {
    ValueOfDigits(m);
    ValueOfDigits(n);
  }

  // ----- Unsigned and signed counters -----

  /** The size that `integral_traits` asks for; beyond the type's range, as much as is needed. */
  function SizeAsked(signed: bool, digits10: nat, n: nat): nat {
    var size := (if signed then 1 else 0) + digits10 + 2;
    if |Digits(n)| < size then size else |Digits(n)| + 1
  }

  /** Conversions that refuse any space smaller than what they ask for. */
  function IntegralConversions(signed: bool, digits10: nat): Traits<nat> {
    Traits(
      (n: nat) => Digits(n),
      (n: nat) => SizeAsked(signed, digits10, n),
      (space: nat, n: nat) => space < SizeAsked(signed, digits10, n),
      (s: string) => if AllDigits(s) then Some(ValueOf(s)) else None)
  }

  lemma IntegralContract(signed: bool, digits10: nat)
    ensures IntegralConversions(signed, digits10).Contract()
  {
    var tr := IntegralConversions(signed, digits10);
    forall m: nat
      ensures tr.parse(tr.textOf(m)) == Some(m)
    {
      ValueOfDigits(m);
    }
  }

  /**
   With such conversions a placeholder counter of any type works, and its carry is refused
   exactly when the type is signed: the buffer has no room for the sign that is asked for.
   */
  lemma RefusedExactlyIfSigned(signed: bool, maxParams: nat, digits10: nat, n: nat)
    requires IsCounter(maxParams, digits10) && n <= maxParams
    ensures WritesDigits(IntegralConversions(signed, digits10), maxParams)
    ensures SizedAsUnsigned(IntegralConversions(signed, digits10), maxParams, digits10) <==> !signed
    ensures IntegralConversions(signed, digits10).refuses(digits10 + 2, n) <==> signed
  {
    hide Digits, Pow10;
    IntegralContract(signed, digits10);
    var tr := IntegralConversions(signed, digits10);
    forall m: nat | m <= maxParams
      ensures tr.sizeBuffer(m) == (if signed then 1 else 0) + digits10 + 2
    {
      DigitCount(m, digits10 + 1);
    }
    assert tr.sizeBuffer(n) == (if signed then 1 else 0) + digits10 + 2;
  }

  /** `unsigned int`, the default counter, and `int`. */
  lemma IntIsCounter()
    ensures IsCounter(0xffff_ffff, 9) && IsCounter(0x7fff_ffff, 9)
  {
    assert Pow10(9) == 1_000_000_000;
    assert Pow10(10) == 10_000_000_000;
  }
}
