/** The table-driven CRC against the CRC computed one bit of the message at a time. Words are
    their 32 bits, the lowest first. */
module Crc32 {
  import opened Bytes
  import opened Arithmetic
  import opened BitStrings

  const CRC32_POLY: nat := 0xEDB88320

  const POLY: Word := Bits(CRC32_POLY, 32)

  const ONES: Word := Bits(0xFFFFFFFF, 32)

  /** A word whose lowest bits are `s` and whose others are clear. */
  function Wide(s: seq<bool>): (w: Word)
    requires |s| <= 32
    ensures forall i :: 0 <= i < 32 ==> w[i] == (i < |s| && s[i])
  {
    seq(32, i requires 0 <= i < 32 => i < |s| && s[i])
  }

  function Right(x: Word, k: nat): (z: Word)
    ensures forall i :: 0 <= i < 32 ==> z[i] == (i + k < 32 && x[i + k])
  {
    seq(32, i requires 0 <= i < 32 => i + k < 32 && x[i + k])
  }

  // ---------- one bit at a time ----------

  /** Shift the register by one bit. */
  function Shift(c: Word): Word { if c[0] then Xor(Right(c, 1), POLY) else Right(c, 1) }

  /** The reflected CRC (section 8 of RFC 1952) takes in the bits of a byte from the lowest
      on; a bit comes in at the low end of the register. */
  function TakeBits(c: Word, bits: seq<bool>): Word {
    if bits == [] then c
    else Shift(Xor(TakeBits(c, bits[..|bits| - 1]), Wide([bits[|bits| - 1]])))
  }

  /** All bits of a message, byte by byte. */
  function MessageBits(s: seq<byte>): seq<bool> {
    if s == [] then [] else MessageBits(s[..|s| - 1]) + Bits(s[|s| - 1] as nat, 8)
  }

  /** The CRC of `s`, continuing from `crc`; an empty part gives 0. */
  function BitCrc(crc: Word, s: seq<byte>): Word {
    if s == [] then Wide([]) else Xor(TakeBits(Xor(crc, ONES), MessageBits(s)), ONES)
  }

  lemma {:induction false} TakeBitsConcat(c: Word, s: seq<bool>, t: seq<bool>)
    ensures TakeBits(c, s + t) == TakeBits(TakeBits(c, s), t)
    decreases |t|
  {
    if t == [] {
      assert s + t == s;
    } else {
      assert (s + t)[..|s + t| - 1] == s + t[..|t| - 1];
      TakeBitsConcat(c, s, t[..|t| - 1]);
    }
  }

  lemma {:induction false} MessageBitsConcat(s: seq<byte>, t: seq<byte>)
    ensures MessageBits(s + t) == MessageBits(s) + MessageBits(t)
    decreases |t|
  {
    if t == [] {
      assert s + t == s && MessageBits(s) + [] == MessageBits(s);
    } else {
      var front, last := t[..|t| - 1], t[|t| - 1];
      MessageBitsConcat(s, front);
      OneMoreByte(s, front, last);
      assert t == front + [last];
    }
  }

  lemma {:induction false} OneMoreByte(s: seq<byte>, t: seq<byte>, b: byte)
    requires MessageBits(s + t) == MessageBits(s) + MessageBits(t)
    ensures MessageBits(s + (t + [b])) == MessageBits(s) + MessageBits(t + [b])
  {
    LastBits(s + t, b);
    LastBits(t, b);
    Associative(s, t, [b]);
    Associative(MessageBits(s), MessageBits(t), Bits(b as nat, 8));
  }

  lemma {:induction false} Associative<T>(a: seq<T>, b: seq<T>, c: seq<T>)
    ensures a + (b + c) == a + b + c
  {
  }

  lemma {:induction false} LastBits(s: seq<byte>, b: byte)
    ensures MessageBits(s + [b]) == MessageBits(s) + Bits(b as nat, 8)
  {
    assert (s + [b])[..|s|] == s;
  }

  /** Feeding the CRC of one part into the next gives the CRC of both together. */
  lemma {:induction false} Chained(crc: Word, s: seq<byte>, t: seq<byte>)
    requires s != [] && t != []
    ensures BitCrc(BitCrc(crc, s), t) == BitCrc(crc, s + t)
  {
    var c := Xor(crc, ONES);
    XorTwice(TakeBits(c, MessageBits(s)), ONES);
    MessageBitsConcat(s, t);
    TakeBitsConcat(c, MessageBits(s), MessageBits(t));
  }

  // ---------- eight bits at once ----------

  function Shifts(c: Word, k: nat): Word { if k == 0 then c else Shift(Shifts(c, k - 1)) }

  lemma {:induction false} ShiftLinear(x: Word, y: Word)
    ensures Shift(Xor(x, y)) == Xor(Shift(x), Shift(y))
  {
    assert forall i :: 0 <= i < 32 ==> Shift(Xor(x, y))[i] == Xor(Shift(x), Shift(y))[i];
  }

  lemma {:induction false} ShiftsLinear(x: Word, y: Word, k: nat)
    ensures Shifts(Xor(x, y), k) == Xor(Shifts(x, k), Shifts(y, k))
  {
    if k > 0 {
      ShiftsLinear(x, y, k - 1);
      ShiftLinear(Shifts(x, k - 1), Shifts(y, k - 1));
    }
  }

  /** Clear bits are just shifted out. */
  lemma {:induction false} ShiftsClear(x: Word, k: nat)
    requires k <= 32 && forall i :: 0 <= i < k ==> !x[i]
    ensures Shifts(x, k) == Right(x, k)
  {
    if k == 0 {
      assert Right(x, 0) == x;
    } else {
      ShiftsClear(x, k - 1);
      assert Right(Right(x, k - 1), 1) == Right(x, k);
    }
  }

  /** Taking bits in one at a time is putting them all in first. */
  lemma {:induction false} BitsAtOnce(c: Word, bits: seq<bool>)
    requires |bits| <= 32
    ensures TakeBits(c, bits) == Shifts(Xor(c, Wide(bits)), |bits|)
    decreases |bits|
  {
    var n := |bits| - 1;
    if bits == [] {
      assert Xor(c, Wide([])) == c;
    } else {
      var low, bit := bits[..n], bits[n];
      var top := Wide(seq(n, _ => false) + [bit]);
      BitsAtOnce(c, low);
      ShiftsClear(top, n);
      TopBit(c, bits, n, top);
      ShiftsLinear(Xor(c, Wide(low)), top, n);
    }
  }

  lemma {:induction false} TopBit(c: Word, bits: seq<bool>, n: nat, top: Word)
    requires |bits| == n + 1 <= 32 && top == Wide(seq(n, _ => false) + [bits[n]])
    ensures Right(top, n) == Wide([bits[n]]) && Xor(Xor(c, Wide(bits[..n])), top) == Xor(c, Wide(bits))
  {
  }

  /** The table entry of the low byte `s`. */
  lemma {:induction false} BitsOfIndex(s: seq<bool>)
    requires |s| == 8
    ensures Value(s) < 256 && Bits(Value(s), 32) == Wide(s)
  {
    ValueBelow(s);
    assert Pow2(8) == 256;
    BitsOfValue(s);
    BitsOfSmall(Value(s), 8, 32);
  }

  function TableEntry(i: nat): Word { Shifts(Bits(i, 32), 8) }

  function LowByte(c: Word): (s: seq<bool>)
    ensures |s| == 8
  {
    c[..8]
  }

  function Xor8(s: seq<bool>, t: seq<bool>): (r: seq<bool>)
    requires |s| == |t| == 8
    ensures |r| == 8 && forall i :: 0 <= i < 8 ==> r[i] == (s[i] != t[i])
  {
    seq(8, i requires 0 <= i < 8 => s[i] != t[i])
  }

  /** A byte changes the low byte of the register only. */
  lemma {:induction false} HighAndLow(c: Word, bits: seq<bool>, high: Word, low: seq<bool>)
    requires |bits| == 8 && low == Xor8(LowByte(c), bits)
    requires forall i :: 0 <= i < 32 ==> high[i] == (i >= 8 && c[i])
    ensures Xor(c, Wide(bits)) == Xor(high, Wide(low)) && Right(high, 8) == Right(c, 8)
  {
  }

  /** One table lookup does what the eight bits of a byte do one at a time. */
  lemma {:induction false} LookupIsEightBits(c: Word, bits: seq<bool>)
    requires |bits| == 8
    ensures var index := Value(Xor8(LowByte(c), bits));
      index < 256 && Xor(Right(c, 8), TableEntry(index)) == TakeBits(c, bits)
  {
    var low := Xor8(LowByte(c), bits);
    var high: Word := seq(32, i requires 0 <= i < 32 => i >= 8 && c[i]);
    BitsOfIndex(low);
    BitsAtOnce(c, bits);
    HighAndLow(c, bits, high, low);
    ShiftsLinear(high, Wide(low), 8);
    ShiftsClear(high, 8);
  }

  // ---------- what a CRC detects ----------

  /** The highest of `k + 1` bits is set in a number between 2^k and 2^(k+1). */
  lemma {:induction false} TopBitSet(n: nat, k: nat)
    requires Pow2(k) <= n < 2 * Pow2(k)
    ensures Bit(n, k)
  {
    if k > 0 {
      TopBitSet(n / 2, k - 1);
    }
  }

  lemma {:induction false} Powers(k: nat)
    requires k == 8
    ensures Pow2(k) == 256 && Pow2(k + 1) == 512 && Pow2(k + 7) == 32768 && Pow2(2 * k) == 65536
    ensures Pow2(2 * k + 3) == 524288 && Pow2(2 * k + 4) == 1048576 && Pow2(2 * k + 5) == 2097152
    ensures Pow2(2 * k + 7) == 8388608 && Pow2(3 * k) == 16777216
  {
    assert Pow2(1) == 2 && Pow2(3) == 8 && Pow2(4) == 16 && Pow2(5) == 32 && Pow2(7) == 128 && Pow2(8) == 256;
    Pow2Splits(k, 1);
    Pow2Splits(k, 7);
    Pow2Splits(k, k);
    Pow2Splits(2 * k, 3);
    Pow2Splits(2 * k, 4);
    Pow2Splits(2 * k, 5);
    Pow2Splits(2 * k, 7);
    Pow2Splits(2 * k, k);
  }

  lemma {:induction false} HighPowers(k: nat)
    requires k == 24
    ensures Pow2(k + 2) == 67108864 && Pow2(k + 3) == 134217728
    ensures Pow2(k + 5) == 536870912 && Pow2(k + 6) == 1073741824 && Pow2(k + 7) == 2147483648
  {
    Powers(8);
    assert Pow2(2) == 4 && Pow2(3) == 8 && Pow2(5) == 32 && Pow2(6) == 64 && Pow2(7) == 128;
    Pow2Splits(k, 2);
    Pow2Splits(k, 3);
    Pow2Splits(k, 5);
    Pow2Splits(k, 6);
    Pow2Splits(k, 7);
  }

  /** The polynomial is that of section 8.1.1.6.2 of ITU-T V.42 without its highest term: 2 to the
      power of 31 - i stands for x to the power of i. */
  lemma {:induction false} PolyTerms()
    ensures CRC32_POLY ==
      Pow2(31 - 26) + Pow2(31 - 23) + Pow2(31 - 22) + Pow2(31 - 16) + Pow2(31 - 12) + Pow2(31 - 11) + Pow2(31 - 10) +
      Pow2(31 - 8) + Pow2(31 - 7) + Pow2(31 - 5) + Pow2(31 - 4) + Pow2(31 - 2) + Pow2(31 - 1) + Pow2(31 - 0)
  {
    Powers(8);
    HighPowers(24);
    assert Pow2(5) == 32;
  }

  lemma {:induction false} PolyTop(p: Word, n: nat, k: nat)
    requires p == Bits(n, 32) && n == CRC32_POLY && k == 31
    ensures p[k]
  {
    Wrap32();
    TopBitSet(n, k);
    BitsAt(n, 32, k);
  }

  lemma {:induction false} ShiftedBit(c: Word, i: nat)
    requires i < 32
    ensures Shift(c)[i] == ((i < 31 && c[i + 1]) != (c[0] && POLY[i]))
  {
  }

  lemma {:induction false} SameLowBit(x: Word, y: Word, k: nat)
    requires Shift(x) == Shift(y) && k == 31
    ensures x[0] == y[0]
  {
    PolyTop(POLY, CRC32_POLY, k);
    ShiftedBit(x, k);
    ShiftedBit(y, k);
  }

  lemma {:induction false} SameNextBit(x: Word, y: Word, i: nat)
    requires Shift(x) == Shift(y) && x[0] == y[0] && i < 31
    ensures x[i + 1] == y[i + 1]
  {
    ShiftedBit(x, i);
    ShiftedBit(y, i);
  }

  lemma {:induction false} ShiftInjective(x: Word, y: Word)
    requires Shift(x) == Shift(y)
    ensures x == y
  {
    SameLowBit(x, y, 31);
    forall i: nat | 0 < i < 32 ensures x[i] == y[i] {
      SameNextBit(x, y, i - 1);
    }
  }

  lemma {:induction false} ShiftsInjective(x: Word, y: Word, k: nat)
    requires Shifts(x, k) == Shifts(y, k)
    ensures x == y
  {
    if k > 0 {
      ShiftInjective(Shifts(x, k - 1), Shifts(y, k - 1));
      ShiftsInjective(x, y, k - 1);
    }
  }

  lemma {:induction false} XorInjective(x: Word, y: Word, z: Word)
    requires Xor(x, z) == Xor(y, z)
    ensures x == y
  {
    XorTwice(x, z);
    XorTwice(y, z);
  }

  /** What has become different stays so. */
  lemma {:induction false} StaysDifferent(x: Word, y: Word, bits: seq<bool>)
    requires TakeBits(x, bits) == TakeBits(y, bits)
    ensures x == y
    decreases |bits|
  {
    if bits != [] {
      var front, top := bits[..|bits| - 1], Wide([bits[|bits| - 1]]);
      ShiftInjective(Xor(TakeBits(x, front), top), Xor(TakeBits(y, front), top));
      XorInjective(TakeBits(x, front), TakeBits(y, front), top);
      StaysDifferent(x, y, front);
    }
  }

  /** Up to 32 different bits make the register different. */
  lemma {:induction false} BurstSeen(c: Word, a: seq<bool>, b: seq<bool>)
    requires |a| == |b| <= 32 && TakeBits(c, a) == TakeBits(c, b)
    ensures a == b
  {
    BitsAtOnce(c, a);
    BitsAtOnce(c, b);
    ShiftsInjective(Xor(c, Wide(a)), Xor(c, Wide(b)), |a|);
    forall i | 0 <= i < |a| ensures a[i] == b[i] {
      assert Xor(c, Wide(a))[i] == (c[i] != a[i]) && Xor(c, Wide(b))[i] == (c[i] != b[i]);
    }
  }

  lemma {:induction false} LastByteApart(s: seq<byte>, n: nat)
    requires |s| == n + 1
    ensures |MessageBits(s)| == 8 * n + 8 && MessageBits(s)[..8 * n] == MessageBits(s[..n])
    ensures Value(MessageBits(s)[8 * n..]) == s[n] as nat
  {
    MessageLength(s[..n]);
    assert MessageBits(s)[8 * n..] == Bits(s[n] as nat, 8);
    assert Pow2(8) == 256;
    ValueOfBits(s[n] as nat, 8);
  }

  lemma {:induction false} SameLastByte(a: seq<byte>, b: seq<byte>, n: nat)
    requires |a| == |b| == n + 1 && MessageBits(a) == MessageBits(b)
    ensures MessageBits(a[..n]) == MessageBits(b[..n]) && a[n] == b[n]
  {
    LastByteApart(a, n);
    LastByteApart(b, n);
  }

  lemma {:induction false} MessageBitsInjective(a: seq<byte>, b: seq<byte>)
    requires |a| == |b| && MessageBits(a) == MessageBits(b)
    ensures a == b
    decreases |a|
  {
    if a != [] {
      var n := |a| - 1;
      SameLastByte(a, b, n);
      MessageBitsInjective(a[..n], b[..n]);
      assert a == a[..n] + [a[n]] && b == b[..n] + [b[n]];
    }
  }

  lemma {:induction false} MessageLength(s: seq<byte>)
    ensures |MessageBits(s)| == 8 * |s|
    decreases |s|
  {
    if s != [] {
      MessageLength(s[..|s| - 1]);
    }
  }

  /** Two messages that differ only in some of four bytes in a row have different CRCs. */
  lemma {:induction false} DetectsBursts(crc: Word, p: seq<byte>, a: seq<byte>, b: seq<byte>, q: seq<byte>)
    requires |a| == |b| <= 4 && a != b
    ensures BitCrc(crc, p + a + q) != BitCrc(crc, p + b + q)
  {
    var c := Xor(crc, ONES);
    if BitCrc(crc, p + a + q) == BitCrc(crc, p + b + q) {
      XorInjective(TakeBits(c, MessageBits(p + a + q)), TakeBits(c, MessageBits(p + b + q)), ONES);
      InParts(c, p, a, q);
      InParts(c, p, b, q);
      StaysDifferent(TakeBits(TakeBits(c, MessageBits(p)), MessageBits(a)),
                     TakeBits(TakeBits(c, MessageBits(p)), MessageBits(b)), MessageBits(q));
      MessageLength(a);
      MessageLength(b);
      BurstSeen(TakeBits(c, MessageBits(p)), MessageBits(a), MessageBits(b));
      MessageBitsInjective(a, b);
    }
  }

  lemma {:induction false} InParts(c: Word, p: seq<byte>, a: seq<byte>, q: seq<byte>)
    ensures TakeBits(c, MessageBits(p + a + q)) ==
      TakeBits(TakeBits(TakeBits(c, MessageBits(p)), MessageBits(a)), MessageBits(q))
  {
    MessageBitsConcat(p + a, q);
    MessageBitsConcat(p, a);
    TakeBitsConcat(c, MessageBits(p + a), MessageBits(q));
    TakeBitsConcat(c, MessageBits(p), MessageBits(a));
  }

  // ---------- the loops ----------

  /** _crc32_initial_table. */
  method InitialTable(table: array<Word>)
    requires table.Length == 256
    modifies table
    ensures forall i :: 0 <= i < 256 ==> table[i] == TableEntry(i)
  {
    for i := 0 to 256
      invariant forall j :: 0 <= j < i ==> table[j] == TableEntry(j)
    {
      table[i] := Entry(i);
    }
  }

  /** The inner loop of _crc32_initial_table. */
  method Entry(i: nat) returns (c: Word)
    ensures c == TableEntry(i)
  {
    c := Bits(i, 32);
    for bit := 0 to 8
      invariant c == Shifts(Bits(i, 32), bit)
    {
      c := if c[0] then Xor(Right(c, 1), POLY) else Right(c, 1);
    }
  }

  /** crc32 over a filled table. */
  method Crc(table: array<Word>, crc: Word, s: seq<byte>) returns (r: Word)
    requires table.Length == 256 && forall i :: 0 <= i < 256 ==> table[i] == TableEntry(i)
    ensures r == BitCrc(crc, s)
  {
    if s == [] {
      return Wide([]);
    }
    var c := Xor(crc, ONES);
    for k := 0 to |s|
      invariant c == TakeBits(Xor(crc, ONES), MessageBits(s[..k]))
    {
      var bits := Bits(s[k] as nat, 8);
      assert s[..k + 1][..k] == s[..k];
      TakeBitsConcat(Xor(crc, ONES), MessageBits(s[..k]), bits);
      LookupIsEightBits(c, bits);
      c := Xor(Right(c, 8), table[Value(Xor8(LowByte(c), bits))]);
    }
    assert s[..|s|] == s;
    r := Xor(c, ONES);
  }

  /** A message in two non-empty parts. */
  method CrcOfParts(table: array<Word>, crc: Word, s: seq<byte>, t: seq<byte>) returns (r: Word)
    requires table.Length == 256 && (forall i :: 0 <= i < 256 ==> table[i] == TableEntry(i)) && s != [] && t != []
    ensures r == BitCrc(crc, s + t)
  {
    var first := Crc(table, crc, s);
    r := Crc(table, first, t);
    Chained(crc, s, t);
  }
}
