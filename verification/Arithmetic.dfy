/** The facts about products, quotients and remainders that the proofs share. */
module Arithmetic {

  lemma MulMonotone(a: int, b: int, n: nat)
    requires a <= b
    ensures a * n <= b * n
  {
  }

  lemma DivBelow(offset: nat, n: nat, row: nat)
    requires offset < n * row
    ensures row > 0 && 0 <= offset / row < n && 0 <= offset % row < row
    ensures offset == (offset / row) * row + offset % row
  {
    if row > 0 {
      var q := offset / row;
      assert offset == q * row + offset % row;
      if q >= n {
        MulMonotone(n, q, row);
      }
    }
  }

  lemma DivMod(q: nat, row: nat, rest: nat)
    requires rest < row
    ensures (q * row + rest) / row == q && (q * row + rest) % row == rest
  {
    var n := q * row + rest;
    assert n == (n / row) * row + n % row;
    if n / row < q {
      MulMonotone(n / row + 1, q, row);
    } else if n / row > q {
      MulMonotone(q + 1, n / row, row);
    }
  }

  /** Counting up modulo `n`. */
  lemma Wrap(k: nat, n: nat)
    requires n > 0
    ensures (n + k) % n == k % n
    ensures k < n ==> k % n == k
    ensures k == n ==> k % n == 0
  {
    assert n + k == (k / n + 1) * n + k % n;
    DivMod(k / n + 1, n, k % n);
    if k < n {
      DivMod(0, n, k);
    } else if k == n {
      DivMod(1, n, 0);
    }
  }
}
