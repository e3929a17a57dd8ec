/** Writes that outgrow a partly used last cluster: what they leave, and when every read is
    right all the same. */
module EvfsGaps {
  import opened Bytes
  import opened EvfsChain

  /** `x` over as few clusters as it needs, and behind them `y` over clusters of its own. */
  function Joined(seg: nat, x: seq<byte>, y: seq<byte>): (es: Elems)
    requires seg > 0
    ensures Shaped(seg, es)
    decreases |x|
  {
    if x == [] then Pack(seg, y)
    else
      var n := Min(|x|, seg);
      Cons(n, Padded(seg, x[..n]), Joined(seg, x[n..], y))
  }

  /** An entry whose bytes `x` and `y` meet inside a cluster's worth of bytes. */
  function GapLayout(seg: nat, x: seq<byte>, y: seq<byte>): (c: Chain)
    requires |x| > seg > KEY
    ensures Wellformed(seg, c) && c.total == |x| + |y|
  {
    Chain(|x| + |y|, Padded(seg, x[..seg]), Joined(seg, x[seg..], y))
  }

  lemma {:induction false} JoinedStep(seg: nat, x: seq<byte>, y: seq<byte>)
    requires |x| >= seg > 0
    ensures Joined(seg, x, y) == Cons(seg, Padded(seg, x[..seg]), Joined(seg, x[seg..], y))
  {
  }

  /** The bytes `t`, cut after the first `k`, lose their first cluster. */
  lemma {:induction false} JoinedCut(seg: nat, t: seq<byte>, k: nat)
    requires 0 < seg <= k <= |t|
    ensures var u := t[seg..];
      Joined(seg, t[..k], t[k..]) == Cons(seg, Padded(seg, t[..seg]), Joined(seg, u[..k - seg], u[k - seg..]))
  {
    var u := t[seg..];
    JoinedStep(seg, t[..k], t[k..]);
    assert t[..k][..seg] == t[..seg] && t[..k][seg..] == u[..k - seg] && u[k - seg..] == t[k..];
  }

  lemma {:induction false} GapCut(seg: nat, t: seq<byte>, k: nat)
    requires KEY < seg < k <= |t|
    ensures var u := t[seg..];
      GapLayout(seg, t[..k], t[k..]) == Chain(|t|, Padded(seg, t[..seg]), Joined(seg, u[..k - seg], u[k - seg..]))
  {
    var u := t[seg..];
    assert t[..k][..seg] == t[..seg] && t[..k][seg..] == u[..k - seg] && u[k - seg..] == t[k..];
  }

  lemma {:induction false} JoinedEnd(seg: nat, x: seq<byte>, y: seq<byte>)
    requires 0 < |x| <= seg
    ensures Joined(seg, x, y) == Cons(|x|, Padded(seg, x), Pack(seg, y))
  {
    assert x[..|x|] == x && x[|x|..] == [];
  }

  lemma {:induction false} PackEnd(seg: nat, s: seq<byte>)
    requires 0 < |s| <= seg
    ensures Pack(seg, s) == Cons(|s|, Padded(seg, s), Nil)
  {
    assert s[..|s|] == s && s[|s|..] == [];
  }

  // ---------- what such a write leaves ----------

  lemma {:induction false} OutgrowsLast(seg: nat, s: seq<byte>, data: seq<byte>)
    requires 0 < |s| < seg && |s| < |data|
    ensures WriteElem(seg, Pack(seg, s), data, 0) == (Joined(seg, data[..|s|], data[|s|..]), |data|)
  {
    var x, y := data[..|s|], data[|s|..];
    PackEnd(seg, s);
    FreshElements(seg, y, 0);
    assert Patched([], 0, y) == y;
    JoinedEnd(seg, x, y);
    assert Overlay(Padded(seg, s), 0, x) == Padded(seg, x);
  }

  lemma {:induction false} OutgrowsElems(seg: nat, s: seq<byte>, data: seq<byte>)
    requires 0 < |s| < |data| && seg > 0 && Inner(seg, |s|) != 0
    ensures WriteElem(seg, Pack(seg, s), data, 0) == (Joined(seg, data[..|s|], data[|s|..]), |data|)
    decreases |s|
  {
    if |s| < seg {
      OutgrowsLast(seg, s, data);
    } else {
      OutgrowsElems(seg, s[seg..], data[seg..]);
      ElemGoesOn(seg, Pack(seg, s), data);
      JoinedCut(seg, data, |s|);
      assert Overlay(Padded(seg, s[..seg]), 0, data[..seg]) == Padded(seg, data[..seg]);
    }
  }

  /** A write at byte `off` of `rem` bytes of elements starts at a cluster or behind the last. */
  predicate StartsClear(seg: nat, rem: nat, off: nat)
    requires seg > 0
  {
    Inner(seg, off) == 0 || off >= rem - Inner(seg, rem) + seg
  }

  lemma {:induction false} OutgrowsBehind(seg: nat, s: seq<byte>, data: seq<byte>, off: nat)
    requires 0 < |s| < seg <= off && 0 < |data|
    ensures var t := Patched(s, off, data);
      WriteAt(seg, Pack(seg, s), data, off) == (Joined(seg, t[..|s|], t[|s|..]), |data|)
  {
    var t := Patched(s, off, data);
    PackEnd(seg, s);
    StretchedWrite(seg, data, off - |s|);
    assert t[..|s|] == s && t[|s|..] == Patched([], off - |s|, data);
    JoinedEnd(seg, s, t[|s|..]);
  }

  lemma {:induction false} OutgrowsAt(seg: nat, s: seq<byte>, data: seq<byte>, off: nat)
    requires seg > 0 && 0 < |s| < off + |data| && 0 < |data| && Inner(seg, |s|) != 0 && StartsClear(seg, |s|, off)
    ensures var t := Patched(s, off, data);
      WriteAt(seg, Pack(seg, s), data, off) == (Joined(seg, t[..|s|], t[|s|..]), |data|)
    decreases off
  {
    var t := Patched(s, off, data);
    if off < seg {
      InnerSmall(seg, |s|);
      PatchedWhole(s, data);
      OutgrowsElems(seg, s, data);
    } else if |s| < seg {
      OutgrowsBehind(seg, s, data, off);
    } else {
      OutgrowsAt(seg, s[seg..], data, off - seg);
      AtGoesOn(seg, Pack(seg, s), data, off);
      SplitBeyond(seg, s, off, data);
      JoinedCut(seg, t, |s|);
    }
  }

  lemma {:induction false} InnerSmall(seg: nat, n: nat)
    requires seg > 0
    ensures Inner(seg, n) <= n && Inner(seg, n) < seg
    decreases n
  {
    if n >= seg {
      InnerSmall(seg, n - seg);
    }
  }

  // ---------- reads of it ----------

  lemma {:induction false} JoinedFirst(seg: nat, x: seq<byte>, y: seq<byte>, m: nat)
    requires x != [] && m == Min(|x|, seg) && seg > 0
    ensures Joined(seg, x, y) == Cons(m, Padded(seg, x[..m]), Joined(seg, x[m..], y))
  {
  }

  lemma {:induction false} SliceJoined(x: seq<byte>, y: seq<byte>, off: nat, m: nat, k: nat, n: nat)
    requires off + k <= m <= |x| && k <= n && off + n <= |x| + |y| && (k == n || off + k == m)
    ensures (x + y)[off..off + n] == x[off..off + k] + (x[m..] + y)[0..n - k]
  {
  }

  lemma {:induction false} ReadStraight(seg: nat, x: seq<byte>, y: seq<byte>, off: nat, n: nat)
    requires off < seg && (x == [] || off <= |x|) && off + n <= |x| + |y|
    ensures ReadElem(seg, Joined(seg, x, y), off, n) == (x + y)[off..off + n]
    decreases |x|
  {
    if x == [] {
      assert x + y == y;
      ReadElemSlice(seg, y, off, n);
    } else if n > 0 {
      var m := Min(|x|, seg);
      var cp := Min(n, m - off);
      JoinedFirst(seg, x, y, m);
      ReadGoes(seg, Joined(seg, x, y), off, n, cp);
      ReadStraight(seg, x[m..], y, 0, n - cp);
      SliceFirst(seg, x, off, off + cp);
      SliceJoined(x, y, off, m, cp, n);
    }
  }

  /** Every byte can be reached where the two parts meet. */
  predicate Seamless(seg: nat, x: nat, y: nat)
    requires seg > 0
  {
    y <= 1 || Inner(seg, x) == seg - 1
  }

  lemma {:induction false} InnerOf(seg: nat, n: nat)
    requires seg > 0
    ensures Inner(seg, n) == if n < seg then n else Inner(seg, n - seg)
  {
  }

  lemma {:induction false} SliceSecond(x: seq<byte>, y: seq<byte>, m: nat, off: nat, n: nat)
    requires m <= |x| && m <= off && off + n <= |x| + |y|
    ensures (x[m..] + y)[off - m..off - m + n] == (x + y)[off..off + n]
  {
  }

  lemma {:induction false} JoinedPasses(seg: nat, x: seq<byte>, y: seq<byte>, m: nat, off: nat, n: nat)
    requires x != [] && 0 < seg <= off && m == Min(|x|, seg)
    ensures ReadAt(seg, Joined(seg, x, y), off, n) == ReadAt(seg, Joined(seg, x[m..], y), off - m, n)
  {
    JoinedFirst(seg, x, y, m);
    ReadPasses(seg, Joined(seg, x, y), off, n);
  }

  lemma {:induction false} ReadArrived(seg: nat, x: seq<byte>, y: seq<byte>, off: nat, n: nat)
    requires off < seg && (x == [] || off <= |x|) && off + n <= |x| + |y|
    ensures ReadAt(seg, Joined(seg, x, y), off, n) == (x + y)[off..off + n]
  {
    ReadPasses(seg, Joined(seg, x, y), off, n);
    ReadStraight(seg, x, y, off, n);
  }

  /** Without a gap a read starts inside `x`, or in a cluster of `y`. */
  lemma {:induction false} SeamlessStart(seg: nat, x: nat, y: nat, off: nat)
    requires 0 < x && off < seg && off < x + y && Seamless(seg, x, y)
    ensures off <= x
  {
    InnerOf(seg, x);
  }

  lemma {:induction false} ReadBare(seg: nat, y: seq<byte>, off: nat, n: nat)
    requires seg > 0 && 0 < n && off + n <= |y|
    ensures ReadAt(seg, Joined(seg, [], y), off, n) == ([] + y)[off..off + n]
  {
    assert [] + y == y;
    ReadAtSlice(seg, y, off, n);
  }

  lemma {:induction false} SeamlessRest(seg: nat, x: seq<byte>, y: nat, m: nat)
    requires x != [] && seg > 0 && m == Min(|x|, seg) && Seamless(seg, |x|, y)
    ensures x[m..] == [] || Seamless(seg, |x[m..]|, y)
  {
    InnerOf(seg, |x|);
  }

  lemma {:induction false} ReadJoined(seg: nat, x: seq<byte>, y: seq<byte>, off: nat, n: nat)
    requires seg > 0 && 0 < n && off + n <= |x| + |y| && (x == [] || Seamless(seg, |x|, |y|))
    ensures ReadAt(seg, Joined(seg, x, y), off, n) == (x + y)[off..off + n]
    decreases |x|
  {
    if x == [] {
      ReadBare(seg, y, off, n);
    } else if off < seg {
      SeamlessStart(seg, |x|, |y|, off);
      ReadArrived(seg, x, y, off, n);
    } else {
      var m := Min(|x|, seg);
      SeamlessRest(seg, x, |y|, m);
      ReadJoined(seg, x[m..], y, off - m, n);
      JoinedPasses(seg, x, y, m, off, n);
      SliceSecond(x, y, m, off, n);
    }
  }

  /** The second byte behind the seam is out of reach. */
  lemma {:induction false} ReadLost(seg: nat, x: seq<byte>, y: seq<byte>)
    requires x != [] && seg > 0 && 0 < Inner(seg, |x|) && !Seamless(seg, |x|, |y|)
    ensures ReadAt(seg, Joined(seg, x, y), |x| + 1, 1) == []
    decreases |x|
  {
    if |x| < seg {
      JoinedEnd(seg, x, y);
    } else {
      JoinedStep(seg, x, y);
      ReadLost(seg, x[seg..], y);
    }
  }

  lemma {:induction false} ReadGap(seg: nat, x: seq<byte>, y: seq<byte>, off: nat, size: nat)
    requires |x| > seg > KEY && 0 < size && KEY + off < |x| + |y|
    ensures Read(seg, GapLayout(seg, x, y), off, size) ==
            ReadAt(seg, Joined(seg, x, y), KEY + off, Min(|x| + |y| - KEY - off, size))
  {
    JoinedStep(seg, x, y);
    ReadIsReadAt(seg, GapLayout(seg, x, y), off, size, seg);
  }

  /** Every read of the chain `c` returns what it would of a file with the bytes `t`. */
  ghost predicate ReadsAs(seg: nat, c: Chain, t: seq<byte>)
    requires Wellformed(seg, c) && |t| >= KEY
  {
    match c
    case Chain(_, _, _) => forall off: nat, size: nat :: Read(seg, c, off, size) == Slice(t, off, size)
  }

  lemma {:induction false} SeamlessRead(seg: nat, x: seq<byte>, y: seq<byte>, off: nat, size: nat)
    requires |x| > seg > KEY && Seamless(seg, |x|, |y|) && KEY + off < |x| + |y| && size > 0
    ensures Read(seg, GapLayout(seg, x, y), off, size) == (x + y)[KEY..][off..Min(off + size, |x| + |y| - KEY)]
  {
    var n := Min(|x| + |y| - KEY - off, size);
    ReadGap(seg, x, y, off, size);
    ReadJoined(seg, x, y, KEY + off, n);
    SliceShift(x + y, KEY + off, KEY, KEY + off + n);
  }

  lemma {:induction false} NothingRead(seg: nat, c: Chain, off: nat, size: nat)
    requires Wellformed(seg, c) && (size == 0 || c.total <= KEY + off)
    ensures Read(seg, c, off, size) == []
  {
  }

  lemma {:induction false} SeamlessReads(seg: nat, x: seq<byte>, y: seq<byte>)
    requires |x| > seg > KEY && Seamless(seg, |x|, |y|)
    ensures ReadsAs(seg, GapLayout(seg, x, y), x + y)
  {
    forall off: nat, size: nat ensures Read(seg, GapLayout(seg, x, y), off, size) == Slice(x + y, off, size) {
      if KEY + off < |x| + |y| && size > 0 {
        SeamlessRead(seg, x, y, off, size);
      } else {
        NothingRead(seg, GapLayout(seg, x, y), off, size);
      }
    }
  }

  lemma {:induction false} GapReadsIff(seg: nat, x: seq<byte>, y: seq<byte>)
    requires |x| > seg > KEY && 0 < Inner(seg, |x|)
    ensures ReadsAs(seg, GapLayout(seg, x, y), x + y) <==> Seamless(seg, |x|, |y|)
  {
    if Seamless(seg, |x|, |y|) {
      SeamlessReads(seg, x, y);
    } else {
      var off := |x| + 1 - KEY;
      ReadGap(seg, x, y, off, 1);
      ReadLost(seg, x, y);
      assert |Slice(x + y, off, 1)| == 1;
    }
  }

  // ---------- writes that lose bytes ----------

  /** How many bytes of the elements are in use. */
  function Used(es: Elems): nat { if es == Nil then 0 else es.size + Used(es.rest) }

  lemma {:induction false} UsedPack(seg: nat, s: seq<byte>)
    requires seg > 0
    ensures Used(Pack(seg, s)) == |s|
    decreases |s|
  {
    if s != [] {
      UsedPack(seg, s[Min(|s|, seg)..]);
    }
  }

  lemma {:induction false} ReadsUsed(seg: nat, es: Elems, off: nat, n: nat)
    requires Shaped(seg, es)
    ensures |ReadElem(seg, es, off, n)| <= Used(es)
    decreases es
  {
    if es != Nil && es.size >= off {
      ReadsUsed(seg, es.rest, 0, n - Min(n, es.size - off));
    }
  }

  /** A write that starts inside an element and outgrows the last one is refused, or leaves
      too few bytes in use. */
  lemma {:induction false} LosesLast(seg: nat, s: seq<byte>, data: seq<byte>, off: nat)
    requires 0 < |s| < seg && 0 < off < seg && |s| < off + |data| && 0 < |data|
    ensures var r := WriteElem(seg, Pack(seg, s), data, off); r.1 < |data| || Used(r.0) < off + |data|
  {
    PackEnd(seg, s);
    if |data| > |s| {
      var y := data[|s|..];
      FreshElements(seg, y, 0);
      assert Patched([], 0, y) == y;
      UsedPack(seg, y);
    }
  }

  lemma {:induction false} LosesBytes(seg: nat, s: seq<byte>, data: seq<byte>, off: nat)
    requires seg > 0 && 0 < |s| < off + |data| && 0 < |data| && Inner(seg, |s|) != 0 && !StartsClear(seg, |s|, off)
    ensures var r := WriteAt(seg, Pack(seg, s), data, off); r.1 < |data| || Used(r.0) < off + |data|
    decreases off
  {
    if |s| < seg {
      LosesLast(seg, s, data, off);
    } else if off >= seg {
      LosesBytes(seg, s[seg..], data, off - seg);
      AtGoesOn(seg, Pack(seg, s), data, off);
    }
  }

  lemma {:induction false} TooFewUsed(seg: nat, c: Chain, t: seq<byte>)
    requires Wellformed(seg, c) && c.total == |t| > seg && Used(c.elems) < |t| - seg
    ensures !ReadsAs(seg, c, t)
  {
    ReadsUsed(seg, c.elems, 0, |t| - seg);
    assert |Read(seg, c, 0, |t| - KEY)| < |t| - KEY;
    assert |Slice(t, 0, |t| - KEY)| == |t| - KEY;
  }

  // ---------- when a write is right for every reader ----------

  /** The whole write is reported, and every later read sees what a write to a file would
      leave. */
  ghost predicate ReadsBack(seg: nat, s: seq<byte>, off: nat, data: seq<byte>)
    requires seg > KEY && data != []
  {
    match Write(seg, Layout(seg, s), off, data)
    case (c, n) => n == |data| && ReadsAs(seg, c, Patched(s, KEY + off, data))
  }

  /** The write outgrows a partly used last cluster, but does not start inside a cluster of the
      entry, and either adds a single byte or that cluster lacks a single byte. */
  predicate FitsBehind(seg: nat, total: nat, off: nat, size: nat)
    requires seg > 0
  {
    var at := KEY + off;
    && at + size > total
    && (at < seg || at % seg == 0 || at >= total - total % seg + seg)
    && (at + size == total + 1 || total % seg == seg - 1)
  }

  lemma {:induction false} PatchedWhole(s: seq<byte>, d: seq<byte>)
    requires |s| <= |d|
    ensures Patched(s, 0, d) == d
  {
  }

  lemma {:induction false} BehindMeans(seg: nat, total: nat, at: nat, size: nat)
    requires 0 < seg < total
    ensures Inner(seg, total - seg) == total % seg
    ensures at >= seg ==>
      (StartsClear(seg, total - seg, at - seg) <==> at % seg == 0 || at >= total - total % seg + seg)
  {
    InnerIsRemainder(seg, total);
    InnerIsRemainder(seg, at);
    InnerOf(seg, total);
    InnerOf(seg, at);
  }

  lemma {:induction false} HeadLeads(seg: nat, c: Chain, at: nat, data: seq<byte>, es: Elems)
    requires Wellformed(seg, c) && KEY <= at < seg < at + |data|
    requires WriteElem(seg, c.elems, data[seg - at..], 0) == (es, |data| - (seg - at))
    ensures Write(seg, c, at - KEY, data) ==
            (Chain(Max(at + |data|, c.total), Overlay(c.head, at, data[..seg - at]), es), |data|)
  {
    HeadGoesOn(seg, c, at, data);
  }

  lemma {:induction false} ElemsAcross(seg: nat, s: seq<byte>, data: seq<byte>)
    requires KEY < seg < |s| < seg + |data| && Inner(seg, |s| - seg) != 0
    ensures var k := |s| - seg;
      WriteElem(seg, Layout(seg, s).elems, data, 0) == (Joined(seg, data[..k], data[k..]), |data|)
  {
    OutgrowsElems(seg, s[seg..], data);
  }

  lemma {:induction false} BytesAcross(seg: nat, s: seq<byte>, at: nat, data: seq<byte>)
    requires KEY < seg < |s| < at + |data| && at < seg
    ensures var t := Patched(s, at, data);
      t[seg..] == data[seg - at..] && Padded(seg, t[..seg]) == Overlay(Layout(seg, s).head, at, data[..seg - at])
  {
    SplitAcross(seg, s, at, data, seg - at);
    PatchedWhole(s[seg..], data[seg - at..]);
  }

  /** A write that starts at a cluster or behind the last one leaves all the bytes in order. */
  lemma {:induction false} OutgrowsHead(seg: nat, s: seq<byte>, at: nat, data: seq<byte>)
    requires KEY < seg < |s| < at + |data| && data != [] && KEY <= at < seg && Inner(seg, |s| - seg) != 0
    ensures var t := Patched(s, at, data);
      Write(seg, Layout(seg, s), at - KEY, data) == (GapLayout(seg, t[..|s|], t[|s|..]), |data|)
  {
    var rest, k := data[seg - at..], |s| - seg;
    ElemsAcross(seg, s, rest);
    HeadLeads(seg, Layout(seg, s), at, data, Joined(seg, rest[..k], rest[k..]));
    BytesAcross(seg, s, at, data);
    GapCut(seg, Patched(s, at, data), |s|);
  }

  lemma {:induction false} OutgrowsTail(seg: nat, s: seq<byte>, at: nat, data: seq<byte>)
    requires KEY < seg < |s| < at + |data| && data != [] && seg <= at && Inner(seg, |s| - seg) != 0
    requires StartsClear(seg, |s| - seg, at - seg)
    ensures var t := Patched(s, at, data);
      Write(seg, Layout(seg, s), at - KEY, data) == (GapLayout(seg, t[..|s|], t[|s|..]), |data|)
  {
    var t := Patched(s, at, data);
    OutgrowsAt(seg, s[seg..], data, at - seg);
    SplitBeyond(seg, s, at, data);
    GapCut(seg, t, |s|);
  }

  lemma {:induction false} GapReadsBack(seg: nat, s: seq<byte>, at: nat, data: seq<byte>, t: seq<byte>)
    requires KEY < seg < |s| < |t| && data != [] && KEY <= at && t == Patched(s, at, data) && 0 < Inner(seg, |s|)
    requires Write(seg, Layout(seg, s), at - KEY, data) == (GapLayout(seg, t[..|s|], t[|s|..]), |data|)
    ensures ReadsBack(seg, s, at - KEY, data) <==> Seamless(seg, |s|, |t| - |s|)
  {
    GapReadsIff(seg, t[..|s|], t[|s|..]);
    assert t[..|s|] + t[|s|..] == t;
  }

  lemma {:induction false} ClearReads(seg: nat, s: seq<byte>, off: nat, data: seq<byte>)
    requires KEY < seg < |s| < KEY + off + |data| && data != [] && 0 < Inner(seg, |s|) && Inner(seg, |s| - seg) != 0
    requires KEY + off < seg || StartsClear(seg, |s| - seg, KEY + off - seg)
    ensures ReadsBack(seg, s, off, data) <==> KEY + off + |data| == |s| + 1 || Inner(seg, |s|) == seg - 1
  {
    var at := KEY + off;
    if at < seg {
      OutgrowsHead(seg, s, at, data);
    } else {
      OutgrowsTail(seg, s, at, data);
    }
    GapReadsBack(seg, s, at, data, Patched(s, at, data));
  }

  lemma {:induction false} UnclearReads(seg: nat, s: seq<byte>, off: nat, data: seq<byte>)
    requires KEY < seg < |s| < KEY + off + |data| && data != [] && seg <= KEY + off && Inner(seg, |s| - seg) != 0
    requires !StartsClear(seg, |s| - seg, KEY + off - seg)
    ensures !ReadsBack(seg, s, off, data)
  {
    LosesBytes(seg, s[seg..], data, KEY + off - seg);
    var w := Write(seg, Layout(seg, s), off, data);
    if w.1 == |data| {
      TooFewUsed(seg, w.0, Patched(s, KEY + off, data));
    }
  }

  /** FitsBehind, said of the element clusters. */
  lemma {:induction false} FitsBehindMeans(seg: nat, total: nat, off: nat, size: nat)
    requires KEY < seg < total < KEY + off + size && total % seg != 0
    ensures 0 < Inner(seg, total) && Inner(seg, total - seg) != 0
    ensures FitsBehind(seg, total, off, size) <==>
            (KEY + off < seg || StartsClear(seg, total - seg, KEY + off - seg)) &&
            (KEY + off + size == total + 1 || Inner(seg, total) == seg - 1)
  {
    BehindMeans(seg, total, KEY + off, size);
    InnerOf(seg, total);
  }

  lemma {:induction false} OutgrowingReads(seg: nat, s: seq<byte>, off: nat, data: seq<byte>)
    requires KEY < seg < |s| < KEY + off + |data| && data != [] && |s| % seg != 0
    ensures ReadsBack(seg, s, off, data) <==> FitsBehind(seg, |s|, off, |data|)
  {
    FitsBehindMeans(seg, |s|, off, |data|);
    if KEY + off < seg || StartsClear(seg, |s| - seg, KEY + off - seg) {
      ClearReads(seg, s, off, data);
    } else {
      UnclearReads(seg, s, off, data);
    }
  }

  lemma {:induction false} StraddlingReads(seg: nat, s: seq<byte>, off: nat, data: seq<byte>)
    requires seg > KEY && |s| >= KEY && data != [] && !Fits(seg, |s|, off, |data|)
    requires KEY + off + |data| <= |s| || |s| % seg == 0
    ensures !ReadsBack(seg, s, off, data) && !FitsBehind(seg, |s|, off, |data|)
  {
    FitsMeans(seg, |s|, off, |data|);
    BehindMeans(seg, |s|, KEY + off, |data|);
    StraddlingIsRefused(seg, s, off, data);
  }

  lemma {:induction false} FittingReads(seg: nat, s: seq<byte>, off: nat, data: seq<byte>)
    requires seg > KEY && |s| >= KEY && data != [] && Fits(seg, |s|, off, |data|)
    ensures ReadsBack(seg, s, off, data)
  {
    WriteCorrectIff(seg, s, off, data);
    var t := Patched(s, KEY + off, data);
    forall o: nat, n: nat ensures Read(seg, Layout(seg, t), o, n) == Slice(t, o, n) {
      ReadReturnsSlice(seg, t, o, n);
    }
  }

  /** Exactly which writes every reader sees as on a file: those that keep the entry laid out,
      and those that outgrow its last cluster without a gap. */
  lemma {:induction false} ReadsBackIff(seg: nat, s: seq<byte>, off: nat, data: seq<byte>)
    requires seg > KEY && |s| >= KEY && data != []
    ensures ReadsBack(seg, s, off, data) <==>
            Fits(seg, |s|, off, |data|) || FitsBehind(seg, |s|, off, |data|)
  {
    if Fits(seg, |s|, off, |data|) {
      FittingReads(seg, s, off, data);
    } else if KEY + off + |data| > |s| && |s| % seg != 0 {
      OutgrowingReads(seg, s, off, data);
    } else {
      StraddlingReads(seg, s, off, data);
    }
  }

  /** Appending to an entry that ends inside an element cluster is not one of them: with
      clusters of 64 bytes, 30 bytes of data and then one more, the write reports its byte and
      a read of that byte returns nothing. */
  lemma {:induction false} AppendExample(s: seq<byte>, b: byte)
    requires |s| == KEY + 30
    ensures var w := Write(52, Layout(52, s), 30, [b]);
      w.1 == 1 && w.0.total == KEY + 31 && Read(52, w.0, 30, 1) == []
  {
    var seg := 52;
    var last := s[seg..];
    PackEnd(seg, last);
    var es := Cons(|last|, Overlay(Padded(seg, last), 10, [b]), Nil);
    assert [b][..1] == [b];
    assert WriteElem(seg, Pack(seg, last), [b], 10) == (es, 1);
    assert ReadElem(seg, es, 10, 1) == [];
  }
}
