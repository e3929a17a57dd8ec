/** Entries whose size promises more bytes than they hold: what a write leaves when the volume
    runs out of clusters, and what can be done with it afterwards. */
module EvfsShort {
  import opened Arithmetic
  import opened Bytes
  import opened EvfsChain

  /** How many bytes `k` clusters hold. */
  function Span(seg: nat, k: nat): nat { if k == 0 then 0 else seg + Span(seg, k - 1) }

  lemma {:induction false} SpanIsProduct(seg: nat, k: nat)
    ensures Span(seg, k) == seg * k
  {
    if k > 0 {
      SpanIsProduct(seg, k - 1);
      Distributes(seg, k, 1);
    }
  }

  lemma {:induction false} PartsHold(seg: nat, n: nat, k: nat)
    requires seg > 0 && Parts(seg, n) <= k
    ensures n <= Span(seg, k)
    decreases k
  {
    if n > 0 {
      PartsHold(seg, n - Min(n, seg), k - 1);
    }
  }

  lemma {:induction false} PartsNeeded(seg: nat, n: nat, k: nat)
    requires seg > 0 && k < Parts(seg, n)
    ensures Span(seg, k) < n
    decreases k
  {
    if k > 0 {
      PartsNeeded(seg, n - Min(n, seg), k - 1);
    }
  }

  lemma {:induction false} SpanNeeds(seg: nat, k: nat)
    requires seg > 0
    ensures Parts(seg, Span(seg, k)) == k
  {
    if k > 0 {
      SpanNeeds(seg, k - 1);
    }
  }

  lemma {:induction false} FrontPack(seg: nat, t: seq<byte>, k: nat)
    requires seg > 0 && Span(seg, k) < |t|
    ensures Front(Pack(seg, t), k) == Pack(seg, t[..Span(seg, k)])
    decreases k
  {
    if k > 0 {
      var u := t[..Span(seg, k)];
      FrontPack(seg, t[seg..], k - 1);
      assert u[..seg] == t[..seg] && u[seg..] == t[seg..][..Span(seg, k - 1)];
    }
  }

  // ---------- how many bytes are stored ----------

  /** A write over full elements and into new ones fills every element there is. */
  lemma {:induction false} StoredSeq(seg: nat, s: seq<byte>, data: seq<byte>, off: nat, k: nat)
    requires off < seg && |s| <= Span(seg, k) < off + |data| && (s == [] || (off == 0 && Inner(seg, |s|) == 0))
    ensures StoredIn(seg, Pack(seg, s), data, off, k) == if k == 0 then 0 else Span(seg, k) - off
    decreases k
  {
    if k > 0 {
      var cp := seg - off;
      if s != [] {
        StoredSeq(seg, s[seg..], data[cp..], 0, k - 1);
      } else {
        StoredSeq(seg, [], data[cp..], 0, k - 1);
      }
    }
  }

  /** A write that fits and fills `k` elements starts on full elements, or behind all. */
  lemma {:induction false} WalkStarts(seg: nat, rem: nat, off: nat, size: nat, k: nat)
    requires seg > 0 && rem <= Span(seg, k) < off + size && TailFits(seg, rem, off, size) && off < seg
    ensures rem == 0 || (off == 0 && Inner(seg, rem) == 0)
  {
  }

  lemma {:induction false} WalkGoesOn(seg: nat, rem: nat, off: nat, size: nat, k: nat)
    requires 0 < seg <= off && k > 0 && rem <= Span(seg, k) < off + size && TailFits(seg, rem, off, size)
    ensures rem == 0 || rem >= seg
    ensures rem - Min(rem, seg) <= Span(seg, k - 1) < off - seg + size
      && TailFits(seg, rem - Min(rem, seg), off - seg, size)
  {
  }

  lemma {:induction false} WalkPasses(seg: nat, s: seq<byte>, data: seq<byte>, off: nat, k: nat)
    requires 0 < seg <= off && k > 0 && (s == [] || |s| >= seg)
    ensures StoredAt(seg, Pack(seg, s), data, off, k) ==
      StoredAt(seg, Pack(seg, s[Min(|s|, seg)..]), data, off - seg, k - 1)
  {
  }

  lemma {:induction false} StoredWalk(seg: nat, s: seq<byte>, data: seq<byte>, off: nat, k: nat)
    requires seg > 0 && |s| <= Span(seg, k) < off + |data| && TailFits(seg, |s|, off, |data|)
    ensures StoredAt(seg, Pack(seg, s), data, off, k) == Max(0, Span(seg, k) - off)
    decreases k
  {
    if off < seg {
      WalkStarts(seg, |s|, off, |data|, k);
      StoredSeq(seg, s, data, off, k);
    } else if k > 0 {
      WalkGoesOn(seg, |s|, off, |data|, k);
      StoredWalk(seg, s[Min(|s|, seg)..], data, off - seg, k - 1);
      WalkPasses(seg, s, data, off, k);
    }
  }

  // ---------- an entry that lacks bytes ----------

  /** The chain of an entry that holds the bytes `u` and whose size is `size`. */
  function Sized(seg: nat, u: seq<byte>, size: nat): (c: Chain)
    requires seg > KEY
    ensures Wellformed(seg, c) && c.total == size
  {
    Layout(seg, u).(total := size)
  }

  /** Bytes can be missing only behind whole clusters. */
  predicate Lacks(seg: nat, u: nat, size: nat) { KEY <= u <= size && (u < size ==> u >= seg) }

  lemma {:induction false} WriteSized(seg: nat, u: seq<byte>, size: nat, off: nat, data: seq<byte>)
    requires seg > KEY && data != []
    ensures var w, total := Write(seg, Layout(seg, u), off, data), Max(KEY + off + |data|, size);
      Write(seg, Sized(seg, u, size), off, data) == (w.0.(total := total), w.1)
  {
  }

  /** A write that fits leaves what it would leave in a file, and what was missing behind it. */
  lemma {:induction false} SizedWrite(seg: nat, u: seq<byte>, size: nat, off: nat, data: seq<byte>)
    requires seg > KEY && |u| >= KEY && data != [] && Fits(seg, |u|, off, |data|)
    ensures Write(seg, Sized(seg, u, size), off, data) ==
            (Sized(seg, Patched(u, KEY + off, data), Max(KEY + off + |data|, size)), |data|)
  {
    WriteCorrectIff(seg, u, off, data);
    WriteSized(seg, u, size, off, data);
  }

  lemma {:induction false} LayoutFront(seg: nat, t: seq<byte>, k: nat)
    requires seg > KEY && seg + Span(seg, k) < |t|
    ensures Layout(seg, t).(elems := Front(Layout(seg, t).elems, k)) == Sized(seg, t[..seg + Span(seg, k)], |t|)
  {
    var u := t[..seg + Span(seg, k)];
    FrontPack(seg, t[seg..], k);
    assert u[..seg] == t[..seg] && u[seg..] == t[seg..][..Span(seg, k)];
  }

  lemma {:induction false} StoredFront(seg: nat, u: seq<byte>, size: nat, at: nat, data: seq<byte>, k: nat)
    requires seg > KEY && KEY <= at < seg && seg + Span(seg, k) < at + |data| && |u| - seg <= Span(seg, k)
    requires |u| <= seg || Inner(seg, |u| - seg) == 0
    ensures StoredBy(seg, Sized(seg, u, size), at - KEY, data, k) == seg + Span(seg, k) - at
  {
    StoredSeq(seg, u[Min(|u|, seg)..], data[seg - at..], 0, k);
  }

  lemma {:induction false} StoredBack(seg: nat, u: seq<byte>, size: nat, at: nat, data: seq<byte>, k: nat)
    requires KEY < seg <= at && seg + Span(seg, k) < at + |data| && |u| - seg <= Span(seg, k)
    requires TailFits(seg, |u[Min(|u|, seg)..]|, at - seg, |data|)
    ensures StoredBy(seg, Sized(seg, u, size), at - KEY, data, k) == Max(0, seg + Span(seg, k) - at)
  {
    StoredWalk(seg, u[Min(|u|, seg)..], data, at - seg, k);
  }

  /** Too few elements for `t` bytes, but enough for `u`. */
  lemma {:induction false} ShortBounds(seg: nat, u: nat, t: nat, k: nat)
    requires seg > 0 && ElementCount(seg, u) <= k < ElementCount(seg, t)
    ensures u - seg <= Span(seg, k) && seg + Span(seg, k) < t && u < t
  {
    PartsHold(seg, u - Min(u, seg), k);
    PartsNeeded(seg, t - Min(t, seg), k);
  }

  /** A write that fits but outgrows the entry finds full clusters only. */
  lemma {:induction false} OutgrownIsFull(seg: nat, u: nat, off: nat, size: nat)
    requires seg > 0 && FitsInner(seg, u, off, size) && u < KEY + off + size
    ensures u <= seg || Inner(seg, u - seg) == 0
    ensures KEY + off >= seg ==> TailFits(seg, u - Min(u, seg), KEY + off - seg, size)
  {
  }

  lemma {:induction false} ShortCount(seg: nat, u: seq<byte>, size: nat, off: nat, data: seq<byte>, k: nat)
    requires seg > KEY && data != [] && Fits(seg, |u|, off, |data|)
    requires ElementCount(seg, |u|) <= k < ElementCount(seg, Max(KEY + off + |data|, |u|))
    ensures StoredBy(seg, Sized(seg, u, size), off, data, k) == Max(0, seg + Span(seg, k) - (KEY + off))
  {
    ShortBounds(seg, |u|, Max(KEY + off + |data|, |u|), k);
    FitsMeans(seg, |u|, off, |data|);
    OutgrownIsFull(seg, |u|, off, |data|);
    if KEY + off < seg {
      StoredFront(seg, u, size, KEY + off, data, k);
    } else {
      StoredBack(seg, u, size, KEY + off, data, k);
    }
  }

  /** A write that fits but finds only `k` elements leaves the entry as a file cut off behind
      its clusters, and counts the bytes before the cut. */
  lemma {:induction false} ShortWrite(seg: nat, u: seq<byte>, size: nat, off: nat, data: seq<byte>, k: nat)
    requires seg > KEY && Lacks(seg, |u|, size) && data != [] && Fits(seg, |u|, off, |data|)
    requires var t := Patched(u, KEY + off, data);
      ElementCount(seg, |u|) <= k < ElementCount(seg, |t|)
    ensures var t, cut, at := Patched(u, KEY + off, data), seg + Span(seg, k), KEY + off;
      var c := Write(seg, Sized(seg, u, size), off, data).0;
      && Max(seg, |u|) <= cut < |t|
      && c.(elems := Front(c.elems, k)) == Sized(seg, t[..cut], Max(at + |data|, size))
      && StoredBy(seg, Sized(seg, u, size), off, data, k) == Max(0, cut - at)
  {
    var t := Patched(u, KEY + off, data);
    ShortBounds(seg, |u|, |t|, k);
    SizedWrite(seg, u, size, off, data);
    LayoutFront(seg, t, k);
    ShortCount(seg, u, size, off, data, k);
  }

  // ---------- reads ----------

  lemma {:induction false} ReadRest(seg: nat, s: seq<byte>, off: nat, n: nat, m: nat)
    requires off < seg && s != [] && m == Min(|s|, seg) && off <= m && n >= |s| - off && n > 0
    ensures ReadElem(seg, Pack(seg, s), off, n) ==
            Padded(seg, s[..m])[off..m] + ReadElem(seg, Pack(seg, s[m..]), 0, n - (m - off))
  {
    ReadGoes(seg, Pack(seg, s), off, n, m - off);
  }

  lemma {:induction false} ElemCut(seg: nat, s: seq<byte>, off: nat, n: nat)
    requires off < seg
    ensures ReadElem(seg, Pack(seg, s), off, n) == ReadElem(seg, Pack(seg, s), off, Min(n, Max(0, |s| - off)))
    decreases |s|
  {
    var m := Min(|s|, seg);
    if s != [] && off <= m && n > |s| - off {
      ElemCut(seg, s[m..], 0, n - (m - off));
      ReadRest(seg, s, off, n, m);
      if |s| > off {
        ReadRest(seg, s, off, |s| - off, m);
      }
    }
  }

  lemma {:induction false} AtCut(seg: nat, s: seq<byte>, off: nat, n: nat)
    requires seg > 0
    ensures ReadAt(seg, Pack(seg, s), off, n) == ReadAt(seg, Pack(seg, s), off, Min(n, Max(0, |s| - off)))
    decreases |s|
  {
    if off < seg {
      ElemCut(seg, s, off, n);
    } else if s != [] {
      AtCut(seg, s[Min(|s|, seg)..], off - Min(|s|, seg), n);
    }
  }

  lemma {:induction false} NothingAt(seg: nat, es: Elems, off: nat)
    requires Shaped(seg, es) && seg > 0
    ensures ReadAt(seg, es, off, 0) == []
  {
    if es != Nil && off >= seg {
      NothingAt(seg, es.rest, off - es.size);
    }
  }

  lemma {:induction false} AtSlice(seg: nat, s: seq<byte>, off: nat, n: nat)
    requires seg > 0 && n > 0
    ensures ReadAt(seg, Pack(seg, s), off, n) == if off < |s| then s[off..Min(off + n, |s|)] else []
  {
    AtCut(seg, s, off, n);
    if off < |s| {
      ReadAtSlice(seg, s, off, Min(|s| - off, n));
    } else {
      NothingAt(seg, Pack(seg, s), off);
    }
  }

  /** Every read of an entry returns the slice of the bytes that it holds. */
  lemma {:induction false} SizedRead(seg: nat, u: seq<byte>, size: nat, off: nat, n: nat)
    requires seg > KEY && Lacks(seg, |u|, size)
    ensures Read(seg, Sized(seg, u, size), off, n) == Slice(u, off, n)
  {
    if |u| == size {
      ReadReturnsSlice(seg, u, off, n);
    } else if KEY + off < size && n > 0 {
      LackingRead(seg, u, size, off, n);
    }
  }

  lemma {:induction false} LackingReadAt(seg: nat, u: seq<byte>, size: nat, off: nat, n: nat)
    requires KEY < seg <= |u| < size && KEY + off < size && n > 0
    ensures Read(seg, Sized(seg, u, size), off, n) == ReadAt(seg, Pack(seg, u), KEY + off, Min(size - KEY - off, n))
  {
    PackIsLayout(seg, u);
    ReadIsReadAt(seg, Sized(seg, u, size), off, n, seg);
  }

  lemma {:induction false} LackingRead(seg: nat, u: seq<byte>, size: nat, off: nat, n: nat)
    requires KEY < seg <= |u| < size && KEY + off < size && n > 0
    ensures Read(seg, Sized(seg, u, size), off, n) == Slice(u, off, n)
  {
    LackingReadAt(seg, u, size, off, n);
    AtSlice(seg, u, KEY + off, Min(size - KEY - off, n));
    SliceIs(u, off, n);
  }

  lemma {:induction false} SliceIs(u: seq<byte>, off: nat, n: nat)
    requires |u| >= KEY
    ensures Slice(u, off, n) == if KEY + off < |u| then u[KEY + off..Min(KEY + off + n, |u|)] else []
  {
    if KEY + off < |u| {
      SliceShift(u, KEY + off, KEY, Min(KEY + off + n, |u|));
    }
  }
}
