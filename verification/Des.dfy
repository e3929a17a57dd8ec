/** DES: decryption undoes encryption, for any round function and any subkeys. */
module Des {
  import opened Arithmetic
  import opened Bytes
  import opened BitStrings

  // ---------- the permutations ----------

  /** The initial permutation, by row and column of its table: the position, counted from 1,
      that bit `i` comes from. */
  function Ip(i: nat): (p: int)
    requires i < 64
    ensures 1 <= p <= 64
  {
    (if i < 32 then 58 else 49) + 2 * (i / 8) - 8 * (i % 8)
  }

  /** The inverse permutation. */
  function Ip1(i: nat): (p: int)
    requires i < 64
    ensures 1 <= p <= 64
  {
    (if i % 8 % 2 == 0 then 40 else 4) + 4 * (i % 8) - i / 8
  }

  /** Row `r` of the table DES_IP_Table, and of DES_IP_1_Table. */
  function IpRow(r: nat): (row: seq<int>)
    requires r < 8
    ensures |row| == 8
  {
    match r
    case 0 => [58, 50, 42, 34, 26, 18, 10, 2]
    case 1 => [60, 52, 44, 36, 28, 20, 12, 4]
    case 2 => [62, 54, 46, 38, 30, 22, 14, 6]
    case 3 => [64, 56, 48, 40, 32, 24, 16, 8]
    case 4 => [57, 49, 41, 33, 25, 17, 9, 1]
    case 5 => [59, 51, 43, 35, 27, 19, 11, 3]
    case 6 => [61, 53, 45, 37, 29, 21, 13, 5]
    case _ => [63, 55, 47, 39, 31, 23, 15, 7]
  }

  function Ip1Row(r: nat): (row: seq<int>)
    requires r < 8
    ensures |row| == 8
  {
    match r
    case 0 => [40, 8, 48, 16, 56, 24, 64, 32]
    case 1 => [39, 7, 47, 15, 55, 23, 63, 31]
    case 2 => [38, 6, 46, 14, 54, 22, 62, 30]
    case 3 => [37, 5, 45, 13, 53, 21, 61, 29]
    case 4 => [36, 4, 44, 12, 52, 20, 60, 28]
    case 5 => [35, 3, 43, 11, 51, 19, 59, 27]
    case 6 => [34, 2, 42, 10, 50, 18, 58, 26]
    case _ => [33, 1, 41, 9, 49, 17, 57, 25]
  }

  /** The formulas are the tables. */
  lemma {:induction false} IpTable(r: nat, c: nat)
    requires r < 8 && c < 8
    ensures Ip(8 * r + c) == IpRow(r)[c]
  {
    RowColumn(r, c);
    match c
    case 0 => case 1 => case 2 => case 3 => case 4 => case 5 => case 6 => case _ =>
  }

  lemma {:induction false} Ip1Table(r: nat, c: nat)
    requires r < 8 && c < 8
    ensures Ip1(8 * r + c) == Ip1Row(r)[c]
  {
    RowColumn(r, c);
    match c
    case 0 => case 1 => case 2 => case 3 => case 4 => case 5 => case 6 => case _ =>
  }

  lemma {:induction false} RowColumn(r: nat, c: nat)
    requires c < 8
    ensures (8 * r + c) / 8 == r && (8 * r + c) % 8 == c
  {
  }

  lemma {:induction false} BackFromIp(i: nat)
    requires i < 64
    ensures Ip1(Ip(i) - 1) == i + 1
  {
    var r, c := i / 8, i % 8;
    var col := if i < 32 then 1 + 2 * r else 2 * r - 8;
    RowColumn(7 - c, col);
    assert Ip(i) - 1 == 8 * (7 - c) + col;
  }

  lemma {:induction false} BackFromIp1(i: nat)
    requires i < 64
    ensures Ip(Ip1(i) - 1) == i + 1
  {
    var r, c := i / 8, i % 8;
    var row := if c % 2 == 0 then 4 + c / 2 else c / 2;
    RowColumn(row, 7 - r);
    assert Ip1(i) - 1 == 8 * row + (7 - r);
  }

  type Block = s: seq<bool> | |s| == 64 witness Bits(0, 64)

  /** DES_IP_Transform and DES_IP_1_Transform. */
  function Permuted(d: Block): (r: Block)
    ensures forall i :: 0 <= i < 64 ==> r[i] == d[Ip(i) - 1]
  {
    seq(64, i requires 0 <= i < 64 => d[Ip(i) - 1])
  }

  function Restored(d: Block): (r: Block)
    ensures forall i :: 0 <= i < 64 ==> r[i] == d[Ip1(i) - 1]
  {
    seq(64, i requires 0 <= i < 64 => d[Ip1(i) - 1])
  }

  lemma {:induction false} PermutationsCancel(d: Block)
    ensures Restored(Permuted(d)) == d && Permuted(Restored(d)) == d
  {
    forall i: nat | i < 64 ensures Restored(Permuted(d))[i] == d[i] && Permuted(Restored(d))[i] == d[i] {
      BackFromIp(i);
      BackFromIp1(i);
    }
  }

  // ---------- bytes and bits ----------

  /** Char8ToBit64 and Bit64ToChar8, for any number of bytes. */
  function ToBits(s: seq<byte>): (r: seq<bool>)
    ensures |r| == 8 * |s|
  {
    if s == [] then [] else Bits(s[0] as nat, 8) + ToBits(s[1..])
  }

  function FromBits(x: seq<bool>): (r: seq<byte>)
    requires |x| % 8 == 0
    ensures 8 * |r| == |x|
    decreases |x|
  {
    if x == [] then []
    else
      ByteValue(x[..8]);
      [Value(x[..8]) as byte] + FromBits(x[8..])
  }

  /** Bit `i` of byte `j`, the lowest bit first, is where the permutations find it. */
  lemma {:induction false} ToBitsAt(s: seq<byte>, j: nat, i: nat)
    requires j < |s| && i < 8
    ensures ToBits(s)[8 * j + i] == Bit(s[j] as nat, i)
    decreases |s|
  {
    if j == 0 {
      BitsAt(s[0] as nat, 8, i);
    } else {
      ToBitsAt(s[1..], j - 1, i);
    }
  }

  lemma {:induction false} UnpackPacked(x: seq<bool>)
    requires |x| % 8 == 0
    ensures ToBits(FromBits(x)) == x
    decreases |x|
  {
    if x != [] {
      ByteValue(x[..8]);
      BitsOfValue(x[..8]);
      UnpackPacked(x[8..]);
      assert x == x[..8] + x[8..];
    }
  }

  lemma {:induction false} PackUnpacked(s: seq<byte>)
    ensures FromBits(ToBits(s)) == s
    decreases |s|
  {
    if s != [] {
      assert Pow2(8) == 256;
      ValueOfBits(s[0] as nat, 8);
      PackUnpacked(s[1..]);
      var b := Bits(s[0] as nat, 8);
      assert (b + ToBits(s[1..]))[..8] == b && (b + ToBits(s[1..]))[8..] == ToBits(s[1..]);
    }
  }

  // ---------- the rounds ----------

  type Key = seq<bool>

  /** What the expansion, the subkey, the S boxes and the P permutation make of a half. */
  type RoundFunction = (Word, Key) -> Word

  datatype Halves = Halves(left: Word, right: Word)

  function Round(f: RoundFunction, k: Key, h: Halves): Halves { Halves(Xor(h.left, f(h.right, k)), h.right) }

  function Swap(h: Halves): Halves { Halves(h.right, h.left) }

  /** A round for each key, with a swap between any two rounds. */
  function Rounds(f: RoundFunction, keys: seq<Key>, h: Halves): Halves
    decreases |keys|
  {
    if keys == [] then h
    else if |keys| == 1 then Round(f, keys[0], h)
    else Rounds(f, keys[1..], Swap(Round(f, keys[0], h)))
  }

  /** The recurrence of the cipher (FIPS 46-3, "Enciphering"): two halves, and then each word from
      the two before it and a key. */
  function Recurrence(f: RoundFunction, keys: seq<Key>, h: Halves, n: nat): Word
    requires n <= |keys| + 1
  {
    if n == 0 then h.left else if n == 1 then h.right
    else Xor(Recurrence(f, keys, h, n - 2), f(Recurrence(f, keys, h, n - 1), keys[n - 2]))
  }

  lemma {:induction false} RecurrenceNext(f: RoundFunction, keys: seq<Key>, h: Halves, n: nat)
    requires keys != [] && n <= |keys|
    ensures Recurrence(f, keys, h, n + 1) == Recurrence(f, keys[1..], Swap(Round(f, keys[0], h)), n)
    decreases n
  {
    if n >= 2 {
      RecurrenceNext(f, keys, h, n - 1);
      RecurrenceNext(f, keys, h, n - 2);
    }
  }

  /** The rounds come to the last two words of the recurrence. */
  lemma {:induction false} RoundsRecur(f: RoundFunction, keys: seq<Key>, h: Halves)
    requires keys != []
    ensures Rounds(f, keys, h) == Halves(Recurrence(f, keys, h, |keys| + 1), Recurrence(f, keys, h, |keys|))
    decreases |keys|
  {
    if |keys| > 1 {
      RoundsRecur(f, keys[1..], Swap(Round(f, keys[0], h)));
      RecurrenceNext(f, keys, h, |keys|);
      RecurrenceNext(f, keys, h, |keys| - 1);
    } else {
      assert Recurrence(f, keys, h, 2) == Xor(h.left, f(h.right, keys[0]));
    }
  }

  function Reversed(keys: seq<Key>): (r: seq<Key>)
    ensures |r| == |keys|
  {
    if keys == [] then [] else Reversed(keys[1..]) + [keys[0]]
  }

  lemma {:induction false} RoundTwice(f: RoundFunction, k: Key, h: Halves)
    ensures Round(f, k, Round(f, k, h)) == h
  {
    XorTwice(h.left, f(h.right, k));
  }

  lemma {:induction false} LastRound(f: RoundFunction, keys: seq<Key>, k: Key, h: Halves)
    requires keys != []
    ensures Rounds(f, keys + [k], h) == Round(f, k, Swap(Rounds(f, keys, h)))
    decreases |keys|
  {
    assert (keys + [k])[1..] == keys[1..] + [k];
    if |keys| > 1 {
      LastRound(f, keys[1..], k, Swap(Round(f, keys[0], h)));
    }
  }

  /** The rounds with the keys in reverse undo the rounds, whatever the round function. */
  lemma {:induction false} RoundsUndone(f: RoundFunction, keys: seq<Key>, h: Halves)
    ensures Rounds(f, Reversed(keys), Rounds(f, keys, h)) == h
    decreases |keys|
  {
    if |keys| == 1 {
      assert Reversed(keys) == keys by {
        assert keys[1..] == [] && keys == [keys[0]];
      }
      RoundTwice(f, keys[0], h);
    } else if |keys| > 1 {
      var k, rest, g := keys[0], keys[1..], Round(f, keys[0], h);
      RoundsUndone(f, rest, Swap(g));
      LastRound(f, Reversed(rest), k, Rounds(f, rest, Swap(g)));
      RoundTwice(f, k, h);
    }
  }

  // ---------- blocks ----------

  function Split(d: Block): Halves { Halves(d[..32], d[32..]) }

  function Join(h: Halves): Block { h.left + h.right }

  /** One block through the permutation, the rounds and the permutation back. */
  function Cipher(f: RoundFunction, keys: seq<Key>, s: seq<byte>): (r: seq<byte>)
    requires |s| == 8
    ensures |r| == 8
  {
    FromBits(Restored(Join(Rounds(f, keys, Split(Permuted(ToBits(s)))))))
  }

  /** __des_decryptBlock after __des_encryptBlock gives the block back. */
  lemma {:induction false} CipherUndone(f: RoundFunction, keys: seq<Key>, s: seq<byte>)
    requires |s| == 8
    ensures Cipher(f, Reversed(keys), Cipher(f, keys, s)) == s
  {
    var plain: Block := ToBits(s);
    var h := Split(Permuted(plain));
    var coded := Join(Rounds(f, keys, h));
    UnpackPacked(Restored(coded));
    PermutationsCancel(coded);
    assert Split(coded) == Rounds(f, keys, h);
    RoundsUndone(f, keys, h);
    assert Join(h) == Permuted(plain);
    PermutationsCancel(plain);
    PackUnpacked(s);
  }

  /** A whole buffer, block by block. */
  function CipherAll(f: RoundFunction, keys: seq<Key>, s: seq<byte>): (r: seq<byte>)
    requires |s| % 8 == 0
    ensures |r| == |s|
    decreases |s|
  {
    if s == [] then [] else Cipher(f, keys, s[..8]) + CipherAll(f, keys, s[8..])
  }

  /** des_decrypt inverts des_encrypt on every buffer of whole blocks. */
  lemma {:induction false} DecryptInvertsEncrypt(f: RoundFunction, keys: seq<Key>, s: seq<byte>)
    requires |s| % 8 == 0
    ensures CipherAll(f, Reversed(keys), CipherAll(f, keys, s)) == s
    decreases |s|
  {
    if s != [] {
      var first, rest := Cipher(f, keys, s[..8]), CipherAll(f, keys, s[8..]);
      CipherUndone(f, keys, s[..8]);
      DecryptInvertsEncrypt(f, keys, s[8..]);
      assert (first + rest)[..8] == first && (first + rest)[8..] == rest;
      assert s == s[..8] + s[8..];
    }
  }

  // ---------- the loops, on bits in place ----------

  /** DES_XOR of the left half. */
  method XorLeft(bits: array<bool>, v: Word)
    requires bits.Length == 64
    modifies bits
    ensures Split(bits[..]) == Halves(Xor(old(Split(bits[..])).left, v), old(Split(bits[..])).right)
  {
    for i := 0 to 32
      invariant forall j :: 0 <= j < i ==> bits[j] == (old(bits[j]) != v[j])
      invariant forall j :: i <= j < 64 ==> bits[j] == old(bits[j])
    {
      bits[i] := bits[i] != v[i];
    }
  }

  /** DES_SWAP of the halves. */
  method SwapHalves(bits: array<bool>)
    requires bits.Length == 64
    modifies bits
    ensures Split(bits[..]) == Swap(old(Split(bits[..])))
  {
    var temp := bits[..32];
    Overwrite(bits, bits[32..] + temp);
  }

  /** A transform through a temporary copy. */
  method Overwrite(bits: array<bool>, temp: Block)
    requires bits.Length == 64
    modifies bits
    ensures bits[..] == temp
  {
    for i := 0 to 64
      invariant bits[..i] == temp[..i]
    {
      bits[i] := temp[i];
    }
    assert temp[..64] == temp;
  }

  /** The loop over the rounds, first key first; __des_decryptBlock counts down instead, which
      is the same loop over the keys in reverse. */
  method RunRounds(bits: array<bool>, f: RoundFunction, keys: seq<Key>)
    requires bits.Length == 64
    modifies bits
    ensures Split(bits[..]) == Rounds(f, keys, old(Split(bits[..])))
  {
    for i := 0 to |keys|
      invariant Rounds(f, keys[i..], Split(bits[..])) == Rounds(f, keys, old(Split(bits[..])))
    {
      assert keys[i..][0] == keys[i] && keys[i..][1..] == keys[i + 1..];
      XorLeft(bits, f(Split(bits[..]).right, keys[i]));
      if i != |keys| - 1 {
        SwapHalves(bits);
      }
    }
  }

  method CipherBlock(f: RoundFunction, keys: seq<Key>, s: seq<byte>) returns (out: seq<byte>)
    requires |s| == 8
    ensures out == Cipher(f, keys, s)
  {
    var bits := new bool[64](_ => false);
    Overwrite(bits, ToBits(s));
    Overwrite(bits, Permuted(bits[..]));
    RunRounds(bits, f, keys);
    assert bits[..] == Join(Split(bits[..]));
    Overwrite(bits, Restored(bits[..]));
    out := FromBits(bits[..]);
  }

  datatype Result = Done(bytes: seq<byte>) | Einval

  /** des_encrypt and des_decrypt, with the subkeys in the order each uses them. */
  method CipherBuffer(f: RoundFunction, keys: seq<Key>, s: seq<byte>) returns (r: Result)
    ensures r == if s == [] || |s| % 8 != 0 then Einval else Done(CipherAll(f, keys, s))
  {
    if s == [] || |s| % 8 != 0 {
      return Einval;
    }
    var out, offset: nat := [], 0;
    while offset + 8 <= |s|
      invariant offset <= |s| && (|s| - offset) % 8 == 0
      invariant out + CipherAll(f, keys, s[offset..]) == CipherAll(f, keys, s)
    {
      var block := CipherBlock(f, keys, s[offset..offset + 8]);
      NextBlock(f, keys, s, offset, out, block);
      out, offset := out + block, offset + 8;
    }
    assert out + CipherAll(f, keys, []) == out && s[offset..] == [];
    r := Done(out);
  }

  lemma {:induction false} NextBlock(f: RoundFunction, keys: seq<Key>, s: seq<byte>, offset: nat, out: seq<byte>,
                                     block: seq<byte>)
    requires offset + 8 <= |s| && (|s| - offset) % 8 == 0 && block == Cipher(f, keys, s[offset..offset + 8])
    ensures (|s| - offset - 8) % 8 == 0
    ensures out + CipherAll(f, keys, s[offset..]) == out + block + CipherAll(f, keys, s[offset + 8..])
  {
    var rest := s[offset..];
    assert rest[..8] == s[offset..offset + 8] && rest[8..] == s[offset + 8..];
    assert out + (block + CipherAll(f, keys, rest[8..])) == out + block + CipherAll(f, keys, rest[8..]);
  }

  /** Encrypting and then decrypting with the subkeys in reverse gives every buffer back. */
  method RoundTrip(f: RoundFunction, keys: seq<Key>, s: seq<byte>) returns (r: Result)
    requires s != [] && |s| % 8 == 0
    ensures r == Done(s)
  {
    var coded := CipherBuffer(f, keys, s);
    r := CipherBuffer(f, Reversed(keys), coded.bytes);
    DecryptInvertsEncrypt(f, keys, s);
  }
}
