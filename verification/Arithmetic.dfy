/** Powers of two, and products, quotients and remainders by a symbolic divisor, one small step
    at a time. */
module Arithmetic {
  function Pow2(k: nat): (r: nat)
    ensures r > 0
  {
    if k == 0 then 1 else 2 * Pow2(k - 1)
  }

  /** 2 to the 32nd: the modulus of unsigned 32-bit arithmetic. */
  const TWO32: nat := 0x1_0000_0000

  lemma {:induction false} RemainderIs(x: nat, m: nat, q: nat, r: nat)
    requires 0 <= r < m && x == m * q + r
    ensures x % m == r && x / m == q
  {
    Divide(x, m);
    Apart(m, q, x / m, r, x % m);
  }

  lemma {:induction false} QuotRem(x: nat, m: nat) returns (q: nat, r: nat)
    requires m > 0
    ensures x == m * q + r && r < m && x % m == r
  {
    q, r := x / m, x % m;
  }

  lemma {:induction false} Divide(x: nat, m: nat)
    requires m > 0
    ensures x == m * (x / m) + x % m && 0 <= x % m < m
  {
  }

  lemma {:induction false} Doubled(p: nat, q: nat)
    ensures 2 * (p * q) == (2 * p) * q
  {
  }

  lemma {:induction false} Distributes(m: int, a: int, b: int)
    ensures m * (a - b) == m * a - m * b && m * (a + b) == m * a + m * b
  {
  }

  /** Quotient and remainder are unique. */
  lemma {:induction false} Apart(m: nat, q: nat, q': nat, r: nat, r': nat)
    requires 0 <= r < m && 0 <= r' < m && m * q + r == m * q' + r'
    ensures q == q' && r == r'
  {
    Distributes(m, q, q');
    if q > q' {
      AtLeast(m, q - q');
    } else if q < q' {
      AtLeast(m, q' - q);
      Distributes(m, q', q);
    }
  }

  lemma {:induction false} AtLeast(m: nat, d: nat)
    requires d >= 1
    ensures m * d >= m
  {
    Distributes(m, d, 1);
    assert m * (d - 1) >= 0;
  }

  lemma {:induction false} FitsIff(m: nat, n: nat, most: nat)
    requires m > 0
    ensures m * n <= most <==> n <= most / m
  {
    var q := most / m;
    Divide(most, m);
    if n <= q {
      Distributes(m, q, n);
      assert m * (q - n) >= 0;
    } else {
      Distributes(m, n, q);
      AtLeast(m, n - q);
    }
  }

  lemma {:induction false} Regroup(a: nat, b: nat, c: nat)
    ensures (a * b) * c == a * (b * c)
  {
  }

  lemma {:induction false} Pow2Splits(j: nat, k: nat)
    ensures Pow2(j + k) == Pow2(j) * Pow2(k)
  {
    if j > 0 {
      Pow2Splits(j - 1, k);
      assert j + k - 1 == (j - 1) + k;
      Doubled(Pow2(j - 1), Pow2(k));
    }
  }

  lemma {:induction false} Wrap32()
    ensures Pow2(32) == TWO32 && Pow2(31) == 0x8000_0000
  {
    assert Pow2(8) == 256;
    Pow2Splits(8, 8);
    Pow2Splits(16, 16);
  }
}
