/** The keyed cipher: bits of data and key interleaved, and the result written in 64 printable
    characters. */
module KeyedCipher {
  import opened Arithmetic
  import opened Bytes
  import opened BitStrings
  import opened CipherTables

  // ---------- interleaving ----------

  /** The odd bits of `h`, which 0xAA masks, with the even bits of `l`, which 0x55 masks. */
  function MixBits(h: byte, l: byte): (s: seq<bool>)
    ensures |s| == 8
  {
    seq(8, i requires 0 <= i < 8 => if i % 2 == 1 then Bits(h as nat, 8)[i] else Bits(l as nat, 8)[i])
  }

  function Mix(h: byte, l: byte): byte {
    ByteValue(MixBits(h, l));
    Value(MixBits(h, l)) as byte
  }

  /** A mixed byte has its odd bits from the one and its even bits from the other. */
  lemma {:induction false} MixedBit(h: byte, l: byte, i: nat)
    requires i < 8
    ensures Bit(Mix(h, l) as nat, i) == if i % 2 == 1 then Bit(h as nat, i) else Bit(l as nat, i)
  {
    BitsOfValue(MixBits(h, l));
    BitsAt(Mix(h, l) as nat, 8, i);
    BitsAt(h as nat, 8, i);
    BitsAt(l as nat, 8, i);
  }

  lemma {:induction false} MixBack(h: byte, l: byte)
    ensures Mix(Mix(h, l), Mix(l, h)) == h
  {
    BitsOfValue(MixBits(h, l));
    BitsOfValue(MixBits(l, h));
    assert MixBits(Mix(h, l), Mix(l, h)) == Bits(h as nat, 8);
    assert Pow2(8) == 256;
    ValueOfBits(h as nat, 8);
  }

  // ---------- three bytes and four symbols ----------

  /** The four digits of three bytes. */
  function D0(x: nat): nat { x / 4 }

  function D1(x: nat, y: nat): nat { x % 4 * 16 + y / 16 }

  function D2(y: nat, z: nat): nat { y % 16 * 4 + z / 64 }

  function D3(z: nat): nat { z % 64 }

  function Group(t: Tables, a: byte, b: byte, c: byte): (g: seq<byte>)
    ensures |g| == 4
  {
    var x, y, z := a as nat, b as nat, c as nat;
    [t.symbol(D0(x)), t.symbol(D1(x, y)), t.symbol(D2(y, z)), t.symbol(D3(z))]
  }

  /** A padding character is left as it is, any other is looked up. */
  function DigitOf(t: Tables, b: byte): nat { if b == TILDE then 0x7E else t.digit(b) }

  /** The three bytes of four digits. */
  function B0(p: nat, q: nat): byte { (p * 4 % 256 + q / 16 % 4) as byte }

  function B1(q: nat, r: nat): byte { (q % 16 * 16 + r / 4 % 16) as byte }

  function B2(r: nat, s: nat): byte { if s < 64 then (r % 4 * 64 + s) as byte else 255 }

  /** The three bytes of a group. The code does not set the third byte when there is padding in
      the third place; `stale` is what was there before. */
  function Ungroup(t: Tables, g: seq<byte>, stale: byte): (r: seq<byte>)
    ensures |r| == 3
  {
    if |g| != 4 then Zeros(3) else
    var p, q, r := DigitOf(t, g[0]), DigitOf(t, g[1]), DigitOf(t, g[2]);
    [B0(p, q), B1(q, if g[2] == TILDE then 0 else r),
     if g[2] == TILDE then stale else B2(r, if g[3] == TILDE then 0 else DigitOf(t, g[3]))]
  }

  lemma {:induction false} DigitsBack(a: byte, b: byte, c: byte)
    ensures var x, y, z := a as nat, b as nat, c as nat;
      && D0(x) < 64 && D1(x, y) < 64 && D2(y, z) < 64 && D3(z) < 64
      && B0(D0(x), D1(x, y)) == a && B1(D1(x, y), D2(y, z)) == b && B2(D2(y, z), D3(z)) == c
      && (b == 0 && c == 0 ==> B1(D1(x, y), 0) == 0) && (c == 0 ==> B2(D2(y, z), 0) == 0)
  {
    Back0(a, b);
    Back1(a, b, c);
    Back2(b, c);
    if c == 0 {
      Zeros2(b);
      if b == 0 {
        Zeros1(a);
      }
    }
  }

  lemma {:induction false} Back0(a: byte, b: byte)
    ensures var x, y := a as nat, b as nat; D0(x) < 64 && D1(x, y) < 64 && B0(D0(x), D1(x, y)) == a
  {
    var x, y := a as nat, b as nat;
    assert D1(x, y) / 16 == x % 4;
    assert D0(x) * 4 + x % 4 == x;
  }

  lemma {:induction false} Back1(a: byte, b: byte, c: byte)
    ensures var x, y, z := a as nat, b as nat, c as nat; D2(y, z) < 64 && B1(D1(x, y), D2(y, z)) == b
  {
    var x, y, z := a as nat, b as nat, c as nat;
    assert D1(x, y) % 16 == y / 16;
    assert D2(y, z) / 4 == y % 16;
    assert y / 16 * 16 + y % 16 == y;
  }

  lemma {:induction false} Back2(b: byte, c: byte)
    ensures var y, z := b as nat, c as nat; D3(z) < 64 && B2(D2(y, z), D3(z)) == c
  {
    var y, z := b as nat, c as nat;
    assert D2(y, z) % 4 == z / 64;
    assert z / 64 * 64 + z % 64 == z;
  }

  lemma {:induction false} Zeros1(a: byte)
    ensures B1(D1(a as nat, 0), 0) == 0
  {
    assert D1(a as nat, 0) % 16 == 0;
  }

  lemma {:induction false} Zeros2(b: byte)
    ensures B2(D2(b as nat, 0), 0) == 0
  {
    assert D2(b as nat, 0) % 4 == 0;
  }

  lemma {:induction false} GroupDigits(t: Tables, a: byte, b: byte, c: byte)
    requires Inverse(t)
    ensures var x, y, z, g := a as nat, b as nat, c as nat, Group(t, a, b, c);
      && DigitOf(t, g[0]) == D0(x) && DigitOf(t, g[1]) == D1(x, y)
        && DigitOf(t, g[2]) == D2(y, z) && DigitOf(t, g[3]) == D3(z)
      && g[2] != TILDE && g[3] != TILDE
  {
    DigitsBack(a, b, c);
  }

  /** The characters of a group are the digits to base 64 of its three bytes, the highest first. */
  lemma {:induction false} GroupValue(t: Tables, a: byte, b: byte, c: byte)
    requires Inverse(t)
    ensures var g := Group(t, a, b, c);
      && (forall i :: 0 <= i < 4 ==> t.digit(g[i]) < 64 && g[i] == t.symbol(t.digit(g[i])))
      && 262144 * t.digit(g[0]) + 4096 * t.digit(g[1]) + 64 * t.digit(g[2]) + t.digit(g[3]) ==
         65536 * (a as nat) + 256 * (b as nat) + c as nat
  {
    GroupDigits(t, a, b, c);
    DigitsBack(a, b, c);
    Base64(a as nat, b as nat, c as nat);
  }

  lemma {:induction false} Base64(x: nat, y: nat, z: nat)
    ensures 262144 * D0(x) + 4096 * D1(x, y) + 64 * D2(y, z) + D3(z) == 65536 * x + 256 * y + z
  {
    assert x == 4 * (x / 4) + x % 4 && y == 16 * (y / 16) + y % 16 && z == 64 * (z / 64) + z % 64;
  }

  lemma {:induction false} UngroupGroup(t: Tables, a: byte, b: byte, c: byte, stale: byte)
    requires Inverse(t)
    ensures Ungroup(t, Group(t, a, b, c), stale) == [a, b, c]
  {
    GroupDigits(t, a, b, c);
    DigitsBack(a, b, c);
  }

  /** The last symbols replaced by padding, where the last bytes were zero. */
  lemma {:induction false} UngroupPadded(t: Tables, a: byte, b: byte, c: byte, stale: byte)
    requires Inverse(t) && c == 0
    ensures var g := Group(t, a, b, c);
      && Ungroup(t, [g[0], g[1], g[2], TILDE], stale)[..2] == [a, b]
      && (b == 0 ==> Ungroup(t, [g[0], g[1], TILDE, TILDE], stale)[..1] == [a])
  {
    GroupDigits(t, a, b, c);
    DigitsBack(a, b, c);
  }

  /** How bytes are mixed, and how three bytes become four characters and back, as far as
      whole texts care. The way back may depend on how many characters follow. */
  datatype Coder = Coder(
    mix: (byte, byte) -> byte,
    group: (byte, byte, byte) -> seq<byte>,
    ungroup: (seq<byte>, nat) -> seq<byte>)

  ghost predicate MixesBack(m: Coder) { forall h, l :: m.mix(m.mix(h, l), m.mix(l, h)) == h }

  ghost predicate Inverts(m: Coder) {
    && (forall a, b, c :: |m.group(a, b, c)| == 4)
    && (forall a, b, c, k :: m.ungroup(m.group(a, b, c), k) == [a, b, c])
  }

  ghost predicate NeverPads(m: Coder)
    requires Inverts(m)
  {
    forall a, b, c :: m.group(a, b, c)[2] != TILDE && m.group(a, b, c)[3] != TILDE
  }

  ghost predicate ThreeEach(m: Coder) { forall g, k :: |m.ungroup(g, k)| == 3 }

  ghost predicate TakesPadding(m: Coder)
    requires Inverts(m) && ThreeEach(m)
  {
    && (forall a, b, k :: m.ungroup(m.group(a, b, 0)[..3] + [TILDE], k)[..2] == [a, b])
    && (forall a, k :: m.ungroup(m.group(a, 0, 0)[..2] + [TILDE, TILDE], k)[..1] == [a])
  }

  ghost predicate Good(m: Coder) {
    match m
    case Coder(_, _, _) => MixesBack(m) && Inverts(m) && ThreeEach(m) && NeverPads(m) && TakesPadding(m)
  }

  /** What the third byte of a group holds before it is set, by the number of characters behind
      the group: anything. */
  type Stale = nat -> byte

  function CoderOf(t: Tables, stale: Stale): Coder {
    Coder(Mix, (a, b, c) => Group(t, a, b, c), (g, k: nat) => Ungroup(t, g, stale(k)))
  }

  lemma {:induction false} CoderInverts(t: Tables, stale: Stale)
    requires Inverse(t)
    ensures Inverts(CoderOf(t, stale)) && NeverPads(CoderOf(t, stale))
  {
    forall a, b, c, k: nat ensures Ungroup(t, Group(t, a, b, c), stale(k)) == [a, b, c] {
      UngroupGroup(t, a, b, c, stale(k));
    }
    forall a, b, c ensures Group(t, a, b, c)[2] != TILDE && Group(t, a, b, c)[3] != TILDE {
      GroupDigits(t, a, b, c);
    }
  }

  lemma {:induction false} OneTilde(t: Tables, a: byte, b: byte, stale: byte)
    requires Inverse(t)
    ensures Ungroup(t, Group(t, a, b, 0)[..3] + [TILDE], stale)[..2] == [a, b]
  {
    var g := Group(t, a, b, 0);
    UngroupPadded(t, a, b, 0, stale);
    assert g[..3] + [TILDE] == [g[0], g[1], g[2], TILDE];
  }

  lemma {:induction false} TwoTildes(t: Tables, a: byte, stale: byte)
    requires Inverse(t)
    ensures Ungroup(t, Group(t, a, 0, 0)[..2] + [TILDE, TILDE], stale)[..1] == [a]
  {
    var g := Group(t, a, 0, 0);
    UngroupPadded(t, a, 0, 0, stale);
    assert g[..2] + [TILDE, TILDE] == [g[0], g[1], TILDE, TILDE];
  }

  lemma {:induction false} CoderTakesPadding(t: Tables, stale: Stale)
    requires Inverse(t) && Inverts(CoderOf(t, stale)) && ThreeEach(CoderOf(t, stale))
    ensures TakesPadding(CoderOf(t, stale))
  {
    forall a, b, k: nat ensures Ungroup(t, Group(t, a, b, 0)[..3] + [TILDE], stale(k))[..2] == [a, b] {
      OneTilde(t, a, b, stale(k));
    }
    forall a, k: nat ensures Ungroup(t, Group(t, a, 0, 0)[..2] + [TILDE, TILDE], stale(k))[..1] == [a] {
      TwoTildes(t, a, stale(k));
    }
  }

  lemma {:induction false} CoderMixesBack(t: Tables, stale: Stale)
    ensures MixesBack(CoderOf(t, stale)) && ThreeEach(CoderOf(t, stale))
  {
    forall g, k: nat ensures |Ungroup(t, g, stale(k))| == 3 {
    }
    forall h, l ensures Mix(Mix(h, l), Mix(l, h)) == h {
      MixBack(h, l);
    }
  }

  lemma {:induction false} CoderIsGood(t: Tables, stale: Stale)
    requires Inverse(t)
    ensures Good(CoderOf(t, stale))
  {
    CoderMixesBack(t, stale);
    CoderInverts(t, stale);
    CoderTakesPadding(t, stale);
  }
}
