/** Decimal text of integers, as the integral string conversions write it. */
module Decimal {
  import opened Wrappers

  function Digit(d: nat): (c: char)
    requires d < 10
    ensures '0' <= c <= '9'
  {
    ('0' as int + d) as char
  }

  predicate IsDigit(c: char) {
    '0' <= c <= '9'
  }

  /** The canonical digits of `n`: no leading zero, but for zero itself. */
  function Digits(n: nat): (s: string)
    ensures s != "" && forall i | 0 <= i < |s| :: IsDigit(s[i])
    ensures n > 0 ==> s[0] != '0'
  {
    if n < 10 then [Digit(n)] else Digits(n / 10) + [Digit(n % 10)]
  }

  /** The number that a string of digits stands for. */
  function ValueOf(s: string): nat
    requires forall i | 0 <= i < |s| :: IsDigit(s[i])
  {
    if s == "" then 0
    else
      assert IsDigit(s[|s| - 1]);
      ValueOf(s[..|s| - 1]) * 10 + (s[|s| - 1] as int - '0' as int)
  }

  lemma {:induction false} ValueOfDigits(n: nat)
    ensures ValueOf(Digits(n)) == n
  {
    var s := Digits(n);
    if n < 10 {
      assert s[..|s| - 1] == "";
    } else {
      assert s[..|s| - 1] == Digits(n / 10);
      ValueOfDigits(n / 10);
    }
  }

  function Pow10(k: nat): nat {
    if k == 0 then 1 else 10 * Pow10(k - 1)
  }

  /** `k` digits are enough exactly for the numbers below ten to the `k`. */
  lemma {:induction false} DigitCount(n: nat, k: nat)
    requires k >= 1
    ensures |Digits(n)| <= k <==> n < Pow10(k)
    decreases k
  {
    assert Pow10(k) == 10 * Pow10(k - 1);
    if k == 1 {
      assert Pow10(0) == 1;
    } else if n < 10 {
      Pow10Positive(k - 1);
    } else {
      DigitCount(n / 10, k - 1);
    }
  }

  lemma {:induction false} Pow10Positive(k: nat)
    ensures Pow10(k) >= 1
  {
    if k == 0 {
    } else {
      Pow10Positive(k - 1);
    }
  }

  /** Counting up changes only the last digit, unless it was a nine. */
  lemma LastDigitBump(n: nat)
    requires (n + 1) % 10 != 0
    ensures var s := Digits(n);
            && s[|s| - 1] < '9'
            && Digits(n + 1) == s[..|s| - 1] + [(s[|s| - 1] as int + 1) as char]
  {
    assert (n + 1) / 10 == n / 10 && (n + 1) % 10 == n % 10 + 1;
  }

  // ----- Signed integers -----

  function Print(i: int): string {
    if i < 0 then "-" + Digits(-i) else Digits(i)
  }

  predicate AllDigits(s: string) {
    s != "" && forall i | 0 <= i < |s| :: IsDigit(s[i])
  }

  function Parse(s: string): Option<int> {
    if AllDigits(s) then Some(ValueOf(s))
    else if s != "" && s[0] == '-' && AllDigits(s[1..]) then
      var n: int := ValueOf(s[1..]);
      Some(-n)
    else None
  }

  lemma ParsePrint(i: int)
    ensures Parse(Print(i)) == Some(i)
    ensures forall c <- Print(i) :: c == '-' || IsDigit(c)
  {
    if i < 0 {
      ValueOfDigits(-i);
      assert Print(i)[1..] == Digits(-i);
      assert !AllDigits(Print(i));
    } else {
      ValueOfDigits(i);
    }
  }
}
