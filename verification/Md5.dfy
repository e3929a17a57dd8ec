/** MD5 over a message that arrives in pieces, for any block transform. */
module Md5 {
  import opened Arithmetic
  import opened Bytes

  datatype Words = Words(a: nat, b: nat, c: nat, d: nat)

  /** What _md5_ransform does to the state with a block of 64 bytes. */
  type Transform = (Words, seq<byte>) -> Words

  const INIT := Words(0x67452301, 0xefcdab89, 0x98badcfe, 0x10325476)

  const TWO64: nat := 0x1_0000_0000_0000_0000

  // ---------- the digest of a whole message ----------

  /** The state after the whole blocks of `m`. */
  function Fold(t: Transform, st: Words, m: seq<byte>): Words
    decreases |m|
  {
    if |m| < 64 then st else Fold(t, t(st, m[..64]), m[64..])
  }

  /** The bytes of `m` behind its whole blocks. */
  function Rest(m: seq<byte>): (r: seq<byte>)
    ensures |r| < 64 && |r| <= |m|
    decreases |m|
  {
    if |m| < 64 then m else Rest(m[64..])
  }

  /** `n` as eight bytes, least significant first. */
  function Length8(n: nat): (b: seq<byte>)
    ensures |b| == 8
  {
    Word4(n % TWO32) + Word4(n / TWO32 % TWO32)
  }

  function Word4(n: nat): (b: seq<byte>)
    ensures |b| == 4
  {
    [(n % 256) as byte, (n / 256 % 256) as byte, (n / 65536 % 256) as byte, (n / 16777216 % 256) as byte]
  }

  function Encode(w: Words): seq<byte> { Word4(w.a) + Word4(w.b) + Word4(w.c) + Word4(w.d) }

  /** How many zeros follow the byte 0x80 so that 8 bytes are left of the last block. */
  function PadZeros(n: nat): (k: nat)
    ensures k < 64 && (n + 1 + k) % 64 == 56
  {
    if n % 64 < 56 then 55 - n % 64 else 119 - n % 64
  }

  /** Sections 3.1 and 3.2 of RFC 1321: one bit, zeros, and the length in bits modulo 2^64. */
  function Padded(m: seq<byte>): seq<byte> {
    m + ([0x80] + Zeros(PadZeros(|m|))) + Length8(8 * |m| % TWO64)
  }

  lemma {:induction false} Word4Bytes(n: nat)
    requires n < TWO32
    ensures LittleEndian(Word4(n)) == n
  {
    var a, b, c := n / 256, n / 65536, n / 16777216;
    FourBytes(Word4(n));
    assert n == n % 256 + 256 * a;
    assert b == a / 256 && c == b / 256;
    assert a == a % 256 + 256 * b && b == b % 256 + 256 * c && 0 <= c < 256;
  }

  lemma {:induction false} LittleEndianConcat(a: seq<byte>, b: seq<byte>)
    requires |a| == 4
    ensures LittleEndian(a + b) == LittleEndian(a) + TWO32 * LittleEndian(b)
  {
    var s := a + b;
    FourBytes(a);
    LittleEndianStep(s);
    LittleEndianStep(s[1..]);
    LittleEndianStep(s[2..]);
    LittleEndianStep(s[3..]);
    assert s[1..][1..] == s[2..] && s[2..][1..] == s[3..] && s[3..][1..] == b;
  }

  /** The digest has the four words one after the other, each with its lowest byte first. */
  lemma {:induction false} EncodedWords(w: Words)
    requires w.a < TWO32 && w.b < TWO32 && w.c < TWO32 && w.d < TWO32
    ensures var e := Encode(w);
      && |e| == 16 && LittleEndian(e[0..4]) == w.a && LittleEndian(e[4..8]) == w.b
      && LittleEndian(e[8..12]) == w.c && LittleEndian(e[12..16]) == w.d
  {
    var e := Encode(w);
    assert e[0..4] == Word4(w.a) && e[4..8] == Word4(w.b) && e[8..12] == Word4(w.c) && e[12..16] == Word4(w.d);
    Word4Bytes(w.a);
    Word4Bytes(w.b);
    Word4Bytes(w.c);
    Word4Bytes(w.d);
  }

  /** The state at first, as the bytes in section 3.3 of RFC 1321. */
  lemma {:induction false} InitBytes()
    ensures Encode(INIT) ==
      [0x01, 0x23, 0x45, 0x67, 0x89, 0xab, 0xcd, 0xef, 0xfe, 0xdc, 0xba, 0x98, 0x76, 0x54, 0x32, 0x10]
  {
    assert Word4(INIT.a) == [0x01, 0x23, 0x45, 0x67] && Word4(INIT.b) == [0x89, 0xab, 0xcd, 0xef];
  }

  /** Behind the message come one bit, as few zeros as will do, and the number of its bits, the
      lowest byte first. */
  lemma {:induction false} PaddedParts(m: seq<byte>)
    ensures var p := Padded(m);
      && |m| + 9 <= |p| < |m| + 73 && p[..|m|] == m && p[|m|] == 0x80
      && (forall i :: |m| < i < |p| - 8 ==> p[i] == 0)
      && LittleEndian(p[|p| - 8..]) == 8 * |m| % TWO64
  {
    var n, p := 8 * |m| % TWO64, Padded(m);
    assert p[|p| - 8..] == Length8(n);
    assert n / TWO32 % TWO32 == n / TWO32;
    Word4Bytes(n % TWO32);
    Word4Bytes(n / TWO32);
    LittleEndianConcat(Word4(n % TWO32), Word4(n / TWO32));
    Divide(n, TWO32);
  }

  lemma {:induction false} EightMore(n: nat)
    requires n % 64 == 56
    ensures (n + 8) % 64 == 0
  {
  }

  /** The padded message is whole blocks. */
  lemma {:induction false} PaddedIsWhole(m: seq<byte>)
    ensures |Padded(m)| % 64 == 0 && Rest(Padded(m)) == []
  {
    EightMore(|m| + 1 + PadZeros(|m|));
    RestLength(Padded(m));
  }

  function Digest(t: Transform, m: seq<byte>): seq<byte> { Encode(Fold(t, INIT, Padded(m))) }

  lemma {:induction false} NothingYet(t: Transform, m: seq<byte>)
    requires m == []
    ensures Fold(t, INIT, m) == INIT && Rest(m) == [] && 8 * |m| % TWO64 == 0
  {
  }

  /** The blocks one after the other. */
  function Blocks(bs: seq<seq<byte>>): seq<byte> { if bs == [] then [] else bs[0] + Blocks(bs[1..]) }

  /** The state after some blocks: the transform of the last one on the state after the others. */
  function After(t: Transform, st: Words, bs: seq<seq<byte>>): Words {
    if bs == [] then st else t(After(t, st, bs[..|bs| - 1]), bs[|bs| - 1])
  }

  lemma {:induction false} AfterFirst(t: Transform, st: Words, bs: seq<seq<byte>>)
    requires bs != []
    ensures After(t, st, bs) == After(t, t(st, bs[0]), bs[1..])
    decreases |bs|
  {
    if |bs| > 1 {
      AfterFirst(t, st, bs[..|bs| - 1]);
      assert bs[..|bs| - 1][1..] == bs[1..][..|bs| - 2];
    }
  }

  /** Every block is transformed once, in order. */
  lemma {:induction false} FoldBlocks(t: Transform, st: Words, bs: seq<seq<byte>>)
    requires forall i :: 0 <= i < |bs| ==> |bs[i]| == 64
    ensures Fold(t, st, Blocks(bs)) == After(t, st, bs)
    decreases |bs|
  {
    if bs != [] {
      var m := Blocks(bs);
      assert m[..64] == bs[0] && m[64..] == Blocks(bs[1..]);
      FoldBlocks(t, t(st, bs[0]), bs[1..]);
      AfterFirst(t, st, bs);
    }
  }

  // ---------- pieces ----------

  lemma {:induction false} FoldAppend(t: Transform, st: Words, m: seq<byte>, x: seq<byte>)
    ensures Fold(t, st, m + x) == Fold(t, Fold(t, st, m), Rest(m) + x)
    ensures Rest(m + x) == Rest(Rest(m) + x)
    decreases |m|
  {
    if |m| >= 64 {
      assert (m + x)[..64] == m[..64] && (m + x)[64..] == m[64..] + x;
      FoldAppend(t, t(st, m[..64]), m[64..], x);
    }
  }

  lemma {:induction false} RestLength(m: seq<byte>)
    ensures |Rest(m)| == |m| % 64
    decreases |m|
  {
    if |m| >= 64 {
      RestLength(m[64..]);
    }
  }

  /** The two-word count after `len` more bytes. */
  lemma {:induction false} CountAdds(c0: nat, c1: nat, len: nat, n: nat)
    requires c0 < TWO32 && c1 < TWO32 && len < TWO32 && c0 + TWO32 * c1 == 8 * n % TWO64
    ensures var low := 8 * len % TWO32;
      var d0 := (c0 + low) % TWO32;
      var d1 := ((if d0 < low then (c1 + 1) % TWO32 else c1) + len / 0x2000_0000) % TWO32;
      d0 < TWO32 && d1 < TWO32 && d0 + TWO32 * d1 == 8 * (n + len) % TWO64
  {
    var low, high := 8 * len % TWO32, len / 0x2000_0000;
    assert 8 * len == low + TWO32 * high;
    var d0 := (c0 + low) % TWO32;
    var carry := if d0 < low then 1 else 0;
    assert c0 + low == d0 + TWO32 * carry;
    var sum := c1 + carry + high;
    var d1 := sum % TWO32;
    assert sum == d1 + TWO32 * (sum / TWO32);
    assert c0 + TWO32 * c1 + 8 * len == d0 + TWO32 * d1 + TWO64 * (sum / TWO32);
    Modulo(8 * n, 8 * len, d0 + TWO32 * d1, sum / TWO32);
    WrapTwice(c1, high);
  }

  lemma {:induction false} WrapTwice(a: nat, b: nat)
    requires a < TWO32
    ensures ((a + 1) % TWO32 + b) % TWO32 == (a + 1 + b) % TWO32
  {
  }

  lemma {:induction false} Modulo(a: nat, b: nat, r: nat, q: nat)
    requires a % TWO64 + b == r + TWO64 * q && r < TWO64
    ensures (a + b) % TWO64 == r
  {
    var p := a / TWO64;
    assert a + b == r + TWO64 * (q + p);
  }

  /** The position in the buffer can be read off the low word of the count. */
  lemma {:induction false} IndexFromCount(c0: nat, c1: nat, n: nat)
    requires c0 < TWO32 && c1 < TWO32 && c0 + TWO32 * c1 == 8 * n % TWO64
    ensures c0 / 8 % 64 == n % 64
  {
    var q := 8 * n / TWO64;
    var m := 0x80_0000 * c1 + 0x80_0000_0000_0000 * q;
    var e: nat := n - 64 * m;
    assert c0 == 8 * e;
    var p, r := QuotRem(e, 64);
    RemainderIs(n, 64, p + m, r);
  }

  // ---------- the context ----------

  class Context {
    const t: Transform
    const buffer: array<byte>
    var count0: nat
    var count1: nat
    var state: Words
    ghost var message: seq<byte>

    ghost predicate Counted()
      reads this
    {
      count0 < TWO32 && count1 < TWO32 && count0 + TWO32 * count1 == 8 * |message| % TWO64
    }

    /** The context knows the message so far as the state after its whole blocks, the rest of
        it, and its length. */
    ghost predicate Valid()
      reads this, buffer
    {
      && Counted() && buffer.Length == 64 && state == Fold(t, INIT, message)
      && buffer[..|Rest(message)|] == Rest(message)
    }

    constructor (t: Transform)
      ensures Valid() && message == [] && this.t == t && fresh(buffer)
    {
      this.t, buffer := t, new byte[64](_ => 0);
      count0, count1, state, message := 0, 0, INIT, [];
    }

    method Copy(at: nat, d: seq<byte>)
      requires at + |d| <= buffer.Length
      modifies buffer
      ensures buffer[..] == Overlay(old(buffer[..]), at, d)
    {
      for i := 0 to |d|
        invariant buffer[..] == Overlay(old(buffer[..]), at, d[..i])
      {
        buffer[at + i] := d[i];
      }
      assert d[..|d|] == d;
    }

    /** The count in bits, in two words. */
    method Count(len: nat) returns (index: nat)
      requires Counted() && len < TWO32
      modifies this`count0, this`count1
      ensures count0 < TWO32 && count1 < TWO32 && count0 + TWO32 * count1 == 8 * (|message| + len) % TWO64
      ensures index == |Rest(message)|
    {
      IndexFromCount(count0, count1, |message|);
      RestLength(message);
      CountAdds(count0, count1, len, |message|);
      index := count0 / 8 % 64;
      var low, high := 8 * len % TWO32, len / 0x2000_0000;
      count0 := (count0 + low) % TWO32;
      count1 := if count0 < low then (count1 + 1) % TWO32 else count1;
      count1 := (count1 + high) % TWO32;
    }

    /** The blocks: first the one in the buffer, then those in the input; what is left goes
        into the buffer. `r` is what the buffer held. */
    method Absorb(input: seq<byte>, index: nat, ghost r: seq<byte>)
      requires buffer.Length == 64 && index == |r| < 64 && buffer[..index] == r
      modifies this`state, buffer
      ensures state == Fold(t, old(state), r + input)
      ensures buffer[..|Rest(r + input)|] == Rest(r + input)
    {
      var part := 64 - index;
      if |input| >= part {
        Copy(index, input[..part]);
        assert buffer[..] == r + input[..part] && (r + input)[..64] == r + input[..part]
          && (r + input)[64..] == input[part..];
        state := t(state, buffer[..]);
        var i := Blocks(input, part);
        Copy(0, input[i..]);
        assert buffer[..|input[i..]|] == input[i..];
      } else {
        Copy(index, input);
        assert buffer[..|r + input|] == r + input;
      }
    }

    /** The whole blocks of the input from byte `from` on: where they end. */
    method Blocks(input: seq<byte>, from: nat) returns (i: nat)
      requires from <= |input|
      modifies this`state
      ensures from <= i <= |input| && |input| - i < 64
      ensures state == Fold(t, old(state), input[from..]) && input[i..] == Rest(input[from..])
    {
      i := from;
      while i + 63 < |input|
        invariant from <= i <= |input|
        invariant Fold(t, state, input[i..]) == Fold(t, old(state), input[from..])
        invariant Rest(input[i..]) == Rest(input[from..])
      {
        assert input[i..][..64] == input[i..i + 64] && input[i..][64..] == input[i + 64..];
        state := t(state, input[i..i + 64]);
        i := i + 64;
      }
    }

    /** md5_update: the message grows by the input, of a length for which i + 63 stays a
        32-bit number. */
    method Update(input: seq<byte>)
      requires Valid() && |input| < TWO32 - 63
      modifies this, buffer
      ensures Valid() && message == old(message) + input
    {
      ghost var r := Rest(message);
      FoldAppend(t, INIT, message, input);
      var index := Count(|input|);
      Absorb(input, index, r);
      message := message + input;
    }

    /** md5_final: the digest of everything, and the context as new. */
    method Final() returns (digest: seq<byte>)
      requires Valid()
      modifies this, buffer
      ensures digest == Digest(t, old(message)) && Valid() && message == []
    {
      Pad();
      digest := Encode(state);
      count0, count1, state, message := 0, 0, INIT, [];
      NothingYet(t, message);
    }

    /** The updates of md5_final. */
    method Pad()
      requires Valid()
      modifies this, buffer
      ensures Valid() && message == Padded(old(message))
    {
      var padding, bits := Trailer();
      Update(padding);
      Update(bits);
    }

    /** The padding and the length of the message, both from the count. */
    method Trailer() returns (padding: seq<byte>, bits: seq<byte>)
      requires Counted()
      ensures |padding| <= 64 && |bits| == 8
      ensures message + padding + bits == Padded(message)
    {
      bits := Word4(count0) + Word4(count1);
      CountBytes(count0, count1, 8 * |message| % TWO64);
      IndexFromCount(count0, count1, |message|);
      var index := count0 / 8 % 64;
      PadIs(|message|, index);
      padding := [0x80] + Zeros((if index < 56 then 56 - index else 120 - index) - 1);
    }
  }

  lemma {:induction false} PadIs(n: nat, index: nat)
    requires index == n % 64
    ensures PadZeros(n) == (if index < 56 then 56 - index else 120 - index) - 1
  {
  }

  lemma {:induction false} CountBytes(c0: nat, c1: nat, n: nat)
    requires c0 < TWO32 && c1 < TWO32 && n == c0 + TWO32 * c1
    ensures Length8(n) == Word4(c0) + Word4(c1)
  {
    RemainderIs(n, TWO32, c1, c0);
    RemainderIs(c1, TWO32, 0, c1);
  }

  function Concat(parts: seq<seq<byte>>): seq<byte> {
    if parts == [] then [] else Concat(parts[..|parts| - 1]) + parts[|parts| - 1]
  }

  /** However a message is cut into updates, the digest is that of the message. */
  method DigestOf(t: Transform, parts: seq<seq<byte>>) returns (digest: seq<byte>)
    requires forall i :: 0 <= i < |parts| ==> |parts[i]| < TWO32 - 63
    ensures digest == Digest(t, Concat(parts))
  {
    var ctx := new Context(t);
    for i := 0 to |parts|
      invariant ctx.Valid() && ctx.message == Concat(parts[..i]) && fresh(ctx) && fresh(ctx.buffer) && ctx.t == t
    {
      assert parts[..i + 1][..i] == parts[..i];
      ctx.Update(parts[i]);
    }
    assert parts[..|parts|] == parts;
    digest := ctx.Final();
  }
}
