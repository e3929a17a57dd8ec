/** Bytes, byte strings and the few sequence operations several components share. */
module Bytes {
  newtype byte = x: int | 0 <= x < 256

  /** memcpy of `d` into `s` at `off`. */
  function Overlay(s: seq<byte>, off: nat, d: seq<byte>): (r: seq<byte>)
    requires off + |d| <= |s|
    ensures |r| == |s|
    ensures forall i :: 0 <= i < |s| ==> r[i] == if off <= i < off + |d| then d[i - off] else s[i]
  {
    s[..off] + d + s[off + |d|..]
  }

  function Min(a: int, b: int): int { if a < b then a else b }

  function Max(a: int, b: int): int { if a < b then b else a }

  function Zeros(n: nat): (z: seq<byte>)
    ensures |z| == n
  {
    seq(n, _ => 0)
  }

  /** The number that the bytes stand for, the lowest first. */
  function LittleEndian(b: seq<byte>): nat { if b == [] then 0 else b[0] as nat + 256 * LittleEndian(b[1..]) }

  lemma {:induction false} FourBytes(b: seq<byte>)
    requires |b| == 4
    ensures LittleEndian(b) ==
      b[0] as nat + 256 * (b[1] as nat) + 65536 * (b[2] as nat) + 16777216 * (b[3] as nat)
  {
    LittleEndianStep(b);
    LittleEndianStep(b[1..]);
    LittleEndianStep(b[2..]);
    LittleEndianStep(b[3..]);
    assert b[1..][1..] == b[2..] && b[2..][1..] == b[3..] && b[3..][1..] == [];
  }

  lemma {:induction false} LittleEndianStep(b: seq<byte>)
    requires b != []
    ensures LittleEndian(b) == b[0] as nat + 256 * LittleEndian(b[1..])
  {
  }

  /** `n` blocks of `size` zero bytes. */
  function Blanks(n: nat, size: nat): (b: seq<seq<byte>>)
    ensures |b| == n && forall i :: 0 <= i < n ==> b[i] == Zeros(size)
  {
    seq(n, _ => Zeros(size))
  }

  ghost predicate NoDup<T>(s: seq<T>) {
    forall i, j :: 0 <= i < j < |s| ==> s[i] != s[j]
  }

  /** The sequence without `x`: unlinking one entry from a list. */
  function Without<T(==)>(s: seq<T>, x: T): (r: seq<T>)
    ensures x !in r && forall y :: y in s && y != x ==> y in r
    ensures forall y :: y in r ==> y in s
    ensures x !in s ==> r == s
    ensures |r| <= |s|
  {
    if s == [] then []
    else if s[0] == x then Without(s[1..], x)
    else [s[0]] + Without(s[1..], x)
  }

  /** Unlinking one entry of a list without duplicates. */
  lemma {:induction false} WithoutOne<T>(s: seq<T>, x: T)
    requires NoDup(s)
    ensures NoDup(Without(s, x))
    ensures |Without(s, x)| == if x in s then |s| - 1 else |s|
  {
    if s != [] {
      WithoutOne(s[1..], x);
      if s[0] == x {
        assert x !in s[1..];
      } else {
        assert s[0] !in s[1..];
        assert x in s <==> x in s[1..];
      }
    }
  }

  lemma {:induction false} WithoutAt<T>(s: seq<T>, k: nat)
    requires NoDup(s) && k < |s|
    ensures Without(s, s[k]) == s[..k] + s[k + 1..]
  {
    if k == 0 {
      assert s[0] !in s[1..];
    } else {
      assert s[0] != s[k];
      WithoutAt(s[1..], k - 1);
      assert s[..k] + s[k + 1..] == [s[0]] + (s[1..][..k - 1] + s[1..][k..]);
    }
  }
}
