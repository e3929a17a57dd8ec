/** Numbers and their bits, the lowest first. */
module BitStrings {
  import opened Arithmetic

  /** The lowest `k` bits of `n`. */
  function Bits(n: nat, k: nat): (r: seq<bool>)
    ensures |r| == k
  {
    if k == 0 then [] else [n % 2 == 1] + Bits(n / 2, k - 1)
  }

  /** The bit of `n` that stands for 2 to the `i`. */
  function Bit(n: nat, i: nat): bool { if i == 0 then n % 2 == 1 else Bit(n / 2, i - 1) }

  lemma {:induction false} BitsAt(n: nat, k: nat, i: nat)
    requires i < k
    ensures Bits(n, k)[i] == Bit(n, i)
    decreases k
  {
    if i > 0 {
      BitsAt(n / 2, k - 1, i - 1);
    }
  }

  function Value(s: seq<bool>): nat {
    if s == [] then 0 else (if s[0] then 1 else 0) + 2 * Value(s[1..])
  }

  lemma {:induction false} BitsOfValue(s: seq<bool>)
    ensures Bits(Value(s), |s|) == s
    decreases |s|
  {
    if s != [] {
      BitsOfValue(s[1..]);
      assert s == [s[0]] + s[1..];
    }
  }

  lemma {:induction false} ValueBelow(s: seq<bool>)
    ensures Value(s) < Pow2(|s|)
    decreases |s|
  {
    if s != [] {
      ValueBelow(s[1..]);
    }
  }

  lemma {:induction false} BitsOfSmall(n: nat, k: nat, m: nat)
    requires n < Pow2(k) && k <= m
    ensures forall i :: 0 <= i < m ==> Bits(n, m)[i] == (i < k && Bits(n, k)[i])
    decreases m
  {
    if k > 0 {
      BitsOfSmall(n / 2, k - 1, m - 1);
    } else if m > 0 {
      BitsOfSmall(0, 0, m - 1);
    }
  }

  lemma {:induction false} ValueOfBits(n: nat, k: nat)
    requires n < Pow2(k)
    ensures Value(Bits(n, k)) == n
  {
    if k > 0 {
      ValueOfBits(n / 2, k - 1);
      assert Bits(n, k)[1..] == Bits(n / 2, k - 1);
    }
  }

  lemma {:induction false} ByteValue(s: seq<bool>)
    requires |s| == 8
    ensures Value(s) < 256
  {
    ValueBelow(s);
    assert Pow2(8) == 256;
  }

  // ---------- words of 32 bits ----------

  type Word = w: seq<bool> | |w| == 32 witness Bits(0, 32)

  function Xor(x: Word, y: Word): (z: Word)
    ensures forall i :: 0 <= i < 32 ==> z[i] == (x[i] != y[i])
  {
    seq(32, i requires 0 <= i < 32 => x[i] != y[i])
  }

  lemma {:induction false} XorTwice(x: Word, y: Word)
    ensures Xor(Xor(x, y), y) == x
  {
  }
}
