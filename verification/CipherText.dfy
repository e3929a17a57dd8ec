/** Whole texts of the keyed cipher: encrypting, decrypting and the way back. */
module CipherText {
  import opened Bytes
  import opened BitStrings
  import opened CipherTables
  import opened KeyedCipher

  // ---------- the key and the data ----------

  /** The byte of the key that each position uses. */
  type Stream = nat -> byte

  function StreamOf(key: seq<byte>): Stream { i => if key == [] then 0 else key[i % |key|] }

  /** Every byte becomes two: its odd bits with even bits of the key, and the other way. */
  function Blend(m: Coder, x: seq<byte>, key: Stream): (b: seq<byte>)
    ensures |b| == 2 * |x|
  {
    if x == [] then []
    else
      var n := |x| - 1;
      Blend(m, x[..n], key) + [m.mix(x[n], key(n)), m.mix(key(n), x[n])]
  }

  // ---------- whole texts ----------

  function Pages(m: Coder, s: seq<byte>): (d: seq<byte>)
    requires Good(m) && |s| % 3 == 0
    ensures 3 * |d| == 4 * |s|
    decreases |s|
  {
    if s == [] then [] else m.group(s[0], s[1], s[2]) + Pages(m, s[3..])
  }

  /** How many bytes fill `n` up to a multiple of three. */
  function Fill(n: nat): (k: nat)
    ensures k < 3 && (n + k) % 3 == 0
  {
    if n % 3 == 0 then 0 else 3 - n % 3
  }

  /** The last `add` characters of `d` replaced by padding. */
  function Tildes(d: seq<byte>, add: nat): (r: seq<byte>)
    requires add <= |d|
    ensures |r| == |d|
  {
    d[..|d| - add] + seq(add, _ => TILDE)
  }

  datatype Result = Done(bytes: seq<byte>) | Refused

  /** The characters for the data `x` under a key stream. */
  function Text(m: Coder, x: seq<byte>, key: Stream): seq<byte>
    requires Good(m)
  {
    var b := Blend(m, x, key);
    Tildes(Pages(m, b + Zeros(Fill(|b|))), Fill(|b|))
  }

  /** encrypt. */
  function Encrypt(m: Coder, x: seq<byte>, key: seq<byte>): Result
    requires Good(m)
  {
    if x == [] || |key| < 8 then Refused else Done(Text(m, x, StreamOf(key)))
  }

  /** The bytes of a text of whole groups. */
  function Unpages(m: Coder, c: seq<byte>): (r: seq<byte>)
    requires Good(m) && |c| % 4 == 0
    ensures 4 * |r| == 3 * |c|
    decreases |c|
  {
    if c == [] then [] else m.ungroup(c[..4], |c| - 4) + Unpages(m, c[4..])
  }

  /** How many padding characters stand in the third and fourth places of the groups. */
  function Cuts(c: seq<byte>): (n: nat)
    requires |c| % 4 == 0
    ensures 2 * n <= |c|
    decreases |c|
  {
    if c == [] then 0
    else (if c[2] == TILDE then 1 else 0) + (if c[3] == TILDE then 1 else 0) + Cuts(c[4..])
  }

  /** The data in `n` pairs of blended bytes, if the key bits in them are those of the key. */
  function Unblend(m: Coder, b: seq<byte>, n: nat, key: Stream): Result
    requires |b| == 2 * n
    decreases n
  {
    if n == 0 then Done([])
    else
      var first, second := b[2 * n - 2], b[2 * n - 1];
      var front := Unblend(m, b[..2 * n - 2], n - 1, key);
      if front == Refused || m.mix(second, first) != key(n - 1) then Refused
      else Done(front.bytes + [m.mix(first, second)])
  }

  /** The data in the characters `c` under a key stream. */
  function Untext(m: Coder, c: seq<byte>, key: Stream): Result
    requires Good(m) && |c| % 4 == 0
  {
    var b := Unpages(m, c);
    var n := |b| - Cuts(c);
    if n % 2 != 0 then Refused else Unblend(m, b[..n], n / 2, key)
  }

  /** decrypt. */
  function Decrypt(m: Coder, c: seq<byte>, key: seq<byte>): Result
    requires Good(m)
  {
    if c == [] || |c| % 4 != 0 || |key| < 8 then Refused else Untext(m, c, StreamOf(key))
  }

  // ---------- what a text is made of ----------

  lemma {:induction false} BlendAt(m: Coder, x: seq<byte>, key: Stream, i: nat)
    requires i < |x|
    ensures Blend(m, x, key)[2 * i] == m.mix(x[i], key(i)) && Blend(m, x, key)[2 * i + 1] == m.mix(key(i), x[i])
    decreases |x|
  {
    if i < |x| - 1 {
      BlendAt(m, x[..|x| - 1], key, i);
    }
  }

  /** Byte `i` of the data becomes two: the first has its odd bits and the even bits of the key, the
      second its even bits and the odd bits of the key, which is used from its first byte on and
      over again. */
  lemma {:induction false} BlendedBits(x: seq<byte>, key: seq<byte>, stale: Stale, i: nat, j: nat)
    requires i < |x| && key != [] && j < 8
    ensures var b := Blend(CoderOf(TABLES, stale), x, StreamOf(key));
      var d, k := Bit(x[i] as nat, j), Bit(key[i % |key|] as nat, j);
      && Bit(b[2 * i] as nat, j) == (if j % 2 == 1 then d else k)
      && Bit(b[2 * i + 1] as nat, j) == (if j % 2 == 1 then k else d)
  {
    BlendAt(CoderOf(TABLES, stale), x, StreamOf(key), i);
    MixedBit(x[i], key[i % |key|], j);
    MixedBit(key[i % |key|], x[i], j);
  }

  lemma {:induction false} PagesAt(m: Coder, s: seq<byte>, i: nat)
    requires Good(m) && |s| % 3 == 0 && 3 * i < |s|
    ensures 3 * i + 3 <= |s| && Pages(m, s)[4 * i..4 * i + 4] == m.group(s[3 * i], s[3 * i + 1], s[3 * i + 2])
    decreases |s|
  {
    var g, rest := m.group(s[0], s[1], s[2]), Pages(m, s[3..]);
    if i == 0 {
      assert (g + rest)[0..4] == g;
    } else {
      PagesAt(m, s[3..], i - 1);
      assert (g + rest)[4 * i..4 * i + 4] == rest[4 * (i - 1)..4 * (i - 1) + 4];
    }
  }

  /** A text has four characters for every three blended bytes begun; the last of them are padding,
      one for every byte that is missing, and no other character is. */
  lemma {:induction false} TextShape(m: Coder, x: seq<byte>, key: Stream, i: nat)
    requires Good(m) && i < |Text(m, x, key)|
    ensures 3 * |Text(m, x, key)| == 4 * (2 * |x| + Fill(2 * |x|))
    ensures i >= |Text(m, x, key)| - Fill(2 * |x|) ==> Text(m, x, key)[i] == TILDE
    ensures i < |Text(m, x, key)| - Fill(2 * |x|) ==>
      Text(m, x, key)[i] == Pages(m, Blend(m, x, key) + Zeros(Fill(2 * |x|)))[i]
  {
  }

  // ---------- the round trip ----------

  /** One group with padding. */
  lemma {:induction false} LastGroup(m: Coder, s: seq<byte>, add: nat)
    requires Good(m) && |s| == 3 && add < 3 && (forall i :: 3 - add <= i < 3 ==> s[i] == 0)
    ensures var c := Tildes(Pages(m, s), add);
      |c| == 4 && Unpages(m, c)[..3 - add] == s[..3 - add] && Cuts(c) == add
  {
    var g, c := m.group(s[0], s[1], s[2]), Tildes(Pages(m, s), add);
    assert s == [s[0], s[1], s[2]] && s[3..] == [];
    assert Pages(m, s) == g + [] == g;
    UnpagesOne(m, c);
    if add == 0 {
      assert c == g && s[..3] == s && m.ungroup(c, 0)[..3] == m.ungroup(c, 0);
    } else if add == 1 {
      assert c == m.group(s[0], s[1], 0)[..3] + [TILDE];
      assert s[..2] == [s[0], s[1]];
    } else {
      assert c == m.group(s[0], 0, 0)[..2] + [TILDE, TILDE];
      assert s[..1] == [s[0]];
    }
  }

  lemma {:induction false} UnpagesOne(m: Coder, c: seq<byte>)
    requires Good(m) && |c| == 4
    ensures Unpages(m, c) == m.ungroup(c, 0)
    ensures Cuts(c) == (if c[2] == TILDE then 1 else 0) + (if c[3] == TILDE then 1 else 0)
  {
    assert c[..4] == c && c[4..] == [] && m.ungroup(c, 0) + [] == m.ungroup(c, 0);
  }

  lemma {:induction false} UnpagesStep(m: Coder, g: seq<byte>, d: seq<byte>)
    requires Good(m) && |g| == 4 && |d| % 4 == 0
    ensures |g + d| % 4 == 0 && Unpages(m, g + d) == m.ungroup(g, |d|) + Unpages(m, d)
    ensures g[2] != TILDE && g[3] != TILDE ==> Cuts(g + d) == Cuts(d)
  {
    assert (g + d)[..4] == g && (g + d)[4..] == d;
  }

  /** What reading a padded text of `n` groups gives. */
  ghost predicate ReadsBack(m: Coder, s: seq<byte>, n: nat, add: nat, c: seq<byte>)
    requires Good(m) && add <= |s|
  {
    |c| == 4 * n && Unpages(m, c)[..Min(|s| - add, |Unpages(m, c)|)] == s[..|s| - add] && Cuts(c) == add
  }

  lemma {:induction false} OneMoreGroup(m: Coder, a: byte, b: byte, c: byte, rest: seq<byte>, n: nat, add: nat,
                                        d: seq<byte>)
    requires Good(m) && |rest| == 3 * n && add <= |rest| && ReadsBack(m, rest, n, add, d)
    ensures ReadsBack(m, [a, b, c] + rest, n + 1, add, m.group(a, b, c) + d)
  {
    UnpagesStep(m, m.group(a, b, c), d);
    Behind([a, b, c], Unpages(m, d), rest, add);
  }

  /** Reading a padded text of `n` groups gives back everything but the padding. */
  lemma {:induction false} UnpagesPages(m: Coder, s: seq<byte>, n: nat, add: nat)
    requires Good(m) && |s| == 3 * n && n > 0 && add < 3 && (forall i :: |s| - add <= i < |s| ==> s[i] == 0)
    ensures ReadsBack(m, s, n, add, Tildes(Pages(m, s), add))
    decreases n
  {
    if n == 1 {
      LastGroup(m, s, add);
    } else {
      var rest := s[3..];
      UnpagesPages(m, rest, n - 1, add);
      TildesBehind(m.group(s[0], s[1], s[2]), Pages(m, rest), add);
      OneMoreGroup(m, s[0], s[1], s[2], rest, n - 1, add, Tildes(Pages(m, rest), add));
      assert s == [s[0], s[1], s[2]] + rest;
    }
  }

  lemma {:induction false} TildesBehind(g: seq<byte>, d: seq<byte>, add: nat)
    requires add <= |d|
    ensures Tildes(g + d, add) == g + Tildes(d, add)
  {
  }

  lemma {:induction false} Behind(a: seq<byte>, b: seq<byte>, c: seq<byte>, add: nat)
    requires add <= |c| == |b| && b[..|c| - add] == c[..|c| - add]
    ensures (a + b)[..|a + c| - add] == (a + c)[..|a + c| - add]
  {
  }

  /** The keys agree at every position that `n` bytes of data use. */
  predicate SameKey(n: nat, key: Stream, key': Stream) {
    n == 0 || (SameKey(n - 1, key, key') && key(n - 1) == key'(n - 1))
  }

  lemma {:induction false} UnblendStep(m: Coder, front: seq<byte>, n: nat, a: byte, b: byte, key: Stream)
    requires |front| == 2 * n
    ensures Unblend(m, front + [a, b], n + 1, key) ==
            var f := Unblend(m, front, n, key);
            if f == Refused || m.mix(b, a) != key(n) then Refused else Done(f.bytes + [m.mix(a, b)])
  {
    var c := front + [a, b];
    assert c[..2 * n] == front;
  }

  /** Blended bytes give back the data under every key that agrees with the one used, and
      nothing under any other. */
  lemma {:induction false} UnblendBlend(m: Coder, x: seq<byte>, key: Stream, key': Stream)
    requires MixesBack(m)
    ensures Unblend(m, Blend(m, x, key), |x|, key') == if SameKey(|x|, key, key') then Done(x) else Refused
    decreases |x|
  {
    if x != [] {
      var n := |x| - 1;
      var c, k := x[n], key(n);
      UnblendBlend(m, x[..n], key, key');
      UnblendStep(m, Blend(m, x[..n], key), n, m.mix(c, k), m.mix(k, c), key');
      assert m.mix(m.mix(c, k), m.mix(k, c)) == c && m.mix(m.mix(k, c), m.mix(c, k)) == k;
      assert x == x[..n] + [c];
    }
  }

  lemma {:induction false} SameKeyRefl(n: nat, key: Stream)
    ensures SameKey(n, key, key)
  {
    if n > 0 {
      SameKeyRefl(n - 1, key);
    }
  }

  lemma {:induction false} PaddedLength(b: seq<byte>, add: nat, n: nat)
    requires b != [] && add == Fill(|b|) && n == (|b| + add) / 3
    ensures |b| + add == 3 * n && n > 0
  {
  }

  lemma {:induction false} Unpadded(m: Coder, b: seq<byte>, add: nat, s: seq<byte>)
    requires Good(m) && b != [] && add == Fill(|b|) && s == b + Zeros(add)
    ensures var c := Tildes(Pages(m, s), add);
      c != [] && |c| % 4 == 0 && |Unpages(m, c)| - Cuts(c) == |b| && Unpages(m, c)[..|b|] == b
  {
    var n := (|b| + add) / 3;
    PaddedLength(b, add, n);
    UnpagesPages(m, s, n, add);
    WholeText(m, b, add, s, n, Tildes(Pages(m, s), add));
  }

  lemma {:induction false} WholeText(m: Coder, b: seq<byte>, add: nat, s: seq<byte>, n: nat, c: seq<byte>)
    requires Good(m) && |b| + add == 3 * n && n > 0 && add < 3 && s == b + Zeros(add) && ReadsBack(m, s, n, add, c)
    ensures c != [] && |c| % 4 == 0 && |Unpages(m, c)| - Cuts(c) == |b| && Unpages(m, c)[..|b|] == b
  {
    assert s[..|s| - add] == b;
  }

  lemma {:induction false} UntextOf(m: Coder, c: seq<byte>, b: seq<byte>, n: nat, key: Stream)
    requires Good(m) && |c| % 4 == 0 && |b| == 2 * n
    requires |Unpages(m, c)| - Cuts(c) == |b| && Unpages(m, c)[..|b|] == b
    ensures Untext(m, c, key) == Unblend(m, b, n, key)
  {
    assert |b| % 2 == 0 && |b| / 2 == n;
  }

  lemma {:induction false} UntextText(m: Coder, x: seq<byte>, key: Stream, key': Stream)
    requires Good(m) && x != []
    ensures var c := Text(m, x, key);
      c != [] && |c| % 4 == 0 && Untext(m, c, key') == if SameKey(|x|, key, key') then Done(x) else Refused
  {
    var b := Blend(m, x, key);
    Unpadded(m, b, Fill(|b|), b + Zeros(Fill(|b|)));
    UntextOf(m, Text(m, x, key), b, |x|, key');
    UnblendBlend(m, x, key, key');
  }

  /** Decrypting gives the text back if and only if the key agrees with the one used, and
      refuses otherwise. */
  lemma {:induction false} DecryptEncryptIff(m: Coder, x: seq<byte>, key: seq<byte>, key': seq<byte>)
    requires Good(m) && x != [] && |key| >= 8 && |key'| >= 8
    ensures Encrypt(m, x, key).Done?
    ensures Decrypt(m, Encrypt(m, x, key).bytes, key') ==
            if SameKey(|x|, StreamOf(key), StreamOf(key')) then Done(x) else Refused
  {
    UntextText(m, x, StreamOf(key), StreamOf(key'));
  }

  /** decrypt(encrypt(x, k), k) is x, with the tables of the source. */
  lemma {:induction false} RoundTrip(x: seq<byte>, key: seq<byte>, stale: Stale)
    requires x != [] && |key| >= 8
    ensures Good(CoderOf(TABLES, stale))
    ensures Encrypt(CoderOf(TABLES, stale), x, key).Done?
    ensures Decrypt(CoderOf(TABLES, stale), Encrypt(CoderOf(TABLES, stale), x, key).bytes, key) == Done(x)
  {
    TheTables();
    CoderIsGood(TABLES, stale);
    SameKeyRefl(|x|, StreamOf(key));
    DecryptEncryptIff(CoderOf(TABLES, stale), x, key, key);
  }

  // ---------- the loops ----------

  method BlendLoop(m: Coder, x: seq<byte>, key: Stream) returns (b: seq<byte>)
    ensures b == Blend(m, x, key)
  {
    b := [];
    for i := 0 to |x|
      invariant b == Blend(m, x[..i], key)
    {
      assert x[..i + 1][..i] == x[..i];
      b := b + [m.mix(x[i], key(i)), m.mix(key(i), x[i])];
    }
    assert x[..|x|] == x;
  }

  /** The first `i` bytes of `s` are in `d`. */
  ghost predicate PagesSoFar(m: Coder, s: seq<byte>, i: nat, d: seq<byte>)
    requires Good(m) && |s| % 3 == 0
  {
    match m
    case Coder(_, _, _) => i <= |s| && (|s| - i) % 3 == 0 && d + Pages(m, s[i..]) == Pages(m, s)
  }

  method PagesLoop(m: Coder, s: seq<byte>) returns (d: seq<byte>)
    requires Good(m) && |s| % 3 == 0
    ensures d == Pages(m, s)
  {
    d := [];
    var i: nat := 0;
    PagesEnds(m, s);
    while i < |s|
      invariant PagesSoFar(m, s, i, d)
      decreases |s| - i
    {
      NextPage(m, s, i, d);
      d, i := d + m.group(s[i], s[i + 1], s[i + 2]), i + 3;
    }
  }

  lemma {:induction false} PagesEnds(m: Coder, s: seq<byte>)
    requires Good(m) && |s| % 3 == 0
    ensures PagesSoFar(m, s, 0, [])
    ensures forall i, d :: i >= |s| && PagesSoFar(m, s, i, d) ==> d == Pages(m, s)
  {
    assert s[0..] == s && [] + Pages(m, s) == Pages(m, s);
    forall i, d | i >= |s| && PagesSoFar(m, s, i, d) ensures d == Pages(m, s) {
      assert s[i..] == [] && d + [] == d;
    }
  }

  lemma {:induction false} NextPage(m: Coder, s: seq<byte>, i: nat, d: seq<byte>)
    requires Good(m) && |s| % 3 == 0 && PagesSoFar(m, s, i, d) && i < |s|
    ensures i + 3 <= |s| && PagesSoFar(m, s, i + 3, d + m.group(s[i], s[i + 1], s[i + 2]))
  {
    var rest, g := s[i..], m.group(s[i], s[i + 1], s[i + 2]);
    assert rest[3..] == s[i + 3..];
    assert d + (g + Pages(m, rest[3..])) == (d + g) + Pages(m, rest[3..]);
  }

  method PadLoop(d: seq<byte>, add: nat) returns (r: seq<byte>)
    requires add <= |d|
    ensures r == Tildes(d, add)
  {
    r := d;
    for i := 0 to add
      invariant r == Tildes(d, i)
    {
      r := r[|d| - 1 - i := TILDE];
    }
  }

  /** encrypt as the source computes it. */
  method EncryptText(m: Coder, x: seq<byte>, key: seq<byte>) returns (r: Result)
    requires Good(m)
    ensures r == Encrypt(m, x, key)
  {
    if x == [] || |key| < 8 {
      return Refused;
    }
    var b := BlendLoop(m, x, StreamOf(key));
    var add := Fill(|b|);
    var src := b + Zeros(add);
    var d := PagesLoop(m, src);
    d := PadLoop(d, add);
    r := Done(d);
  }

  method UnpagesLoop(m: Coder, c: seq<byte>) returns (b: seq<byte>, cuts: nat)
    requires Good(m) && |c| % 4 == 0
    ensures b == Unpages(m, c) && cuts == Cuts(c)
  {
    b, cuts := [], 0;
    var i: nat := 0;
    while i < |c|
      invariant i <= |c| && (|c| - i) % 4 == 0
      invariant b + Unpages(m, c[i..]) == Unpages(m, c) && cuts + Cuts(c[i..]) == Cuts(c)
    {
      NextGroup(m, c, i, b);
      b := b + m.ungroup(c[i..i + 4], |c| - i - 4);
      cuts := cuts + (if c[i + 2] == TILDE then 1 else 0) + (if c[i + 3] == TILDE then 1 else 0);
      i := i + 4;
    }
    assert c[i..] == [] && b + [] == b;
  }

  lemma {:induction false} NextGroup(m: Coder, c: seq<byte>, i: nat, b: seq<byte>)
    requires Good(m) && i < |c| && (|c| - i) % 4 == 0
    ensures i + 4 <= |c| && (|c| - i - 4) % 4 == 0
    ensures b + Unpages(m, c[i..]) == b + m.ungroup(c[i..i + 4], |c| - i - 4) + Unpages(m, c[i + 4..])
    ensures Cuts(c[i..]) ==
      (if c[i + 2] == TILDE then 1 else 0) + (if c[i + 3] == TILDE then 1 else 0) + Cuts(c[i + 4..])
  {
    var rest := c[i..];
    assert rest[4..] == c[i + 4..] && rest[..4] == c[i..i + 4];
    var g := m.ungroup(rest[..4], |rest| - 4);
    assert b + (g + Unpages(m, rest[4..])) == b + g + Unpages(m, rest[4..]);
  }

  method UnblendLoop(m: Coder, b: seq<byte>, n: nat, key: Stream) returns (r: Result)
    requires |b| == 2 * n
    ensures r == Unblend(m, b, n, key)
  {
    var out := [];
    for i := 0 to n
      invariant Unblend(m, b[..2 * i], i, key) == Done(out)
    {
      var front, first, second := b[..2 * i], b[2 * i], b[2 * i + 1];
      UnblendStep(m, front, i, first, second, key);
      assert front + [first, second] == b[..2 * (i + 1)];
      if m.mix(second, first) != key(i) {
        RefusedStays(m, b, n, i + 1, key);
        return Refused;
      }
      out := out + [m.mix(first, second)];
    }
    assert b[..2 * n] == b;
    r := Done(out);
  }

  lemma {:induction false} RefusedStays(m: Coder, b: seq<byte>, n: nat, i: nat, key: Stream)
    requires |b| == 2 * n && i <= n && Unblend(m, b[..2 * i], i, key) == Refused
    ensures Unblend(m, b, n, key) == Refused
    decreases n
  {
    if i < n {
      assert b[..2 * n - 2][..2 * i] == b[..2 * i];
      RefusedStays(m, b[..2 * n - 2], n - 1, i, key);
    } else {
      assert b[..2 * n] == b;
    }
  }

  /** decrypt as the source computes it. */
  method DecryptText(m: Coder, c: seq<byte>, key: seq<byte>) returns (r: Result)
    requires Good(m)
    ensures r == Decrypt(m, c, key)
  {
    if c == [] || |c| % 4 != 0 || |key| < 8 {
      return Refused;
    }
    var b, cuts := UnpagesLoop(m, c);
    r := UnblendPart(m, b, |b| - cuts, StreamOf(key));
  }

  method UnblendPart(m: Coder, b: seq<byte>, n: nat, key: Stream) returns (r: Result)
    requires n <= |b|
    ensures r == if n % 2 != 0 then Refused else Unblend(m, b[..n], n / 2, key)
  {
    if n % 2 != 0 {
      r := Refused;
    } else {
      r := UnblendLoop(m, b[..n], n / 2, key);
    }
  }
}
