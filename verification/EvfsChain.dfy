/** How an entry's bytes are laid out over its head cluster and its element clusters, and
    what a write and a read do to that layout. */
module EvfsChain {
  import opened Arithmetic
  import opened Bytes

  /** The entry name in front of the data of a head cluster. */
  const KEY: nat := 32

  /** The element clusters of an entry, in order: how many bytes of each are in use, and all
      its bytes. */
  datatype Elems = Nil | Cons(size: nat, data: seq<byte>, rest: Elems)

  /** `total` counts the name and the data of the entry. */
  datatype Chain = Chain(total: nat, head: seq<byte>, elems: Elems)

  predicate Shaped(seg: nat, es: Elems) {
    es.Cons? ==> |es.data| == seg && es.size <= seg && Shaped(seg, es.rest)
  }

  /** How many elements there are. */
  function Length(es: Elems): nat { if es == Nil then 0 else 1 + Length(es.rest) }

  /** The first `k` elements. */
  function Front(es: Elems, k: nat): Elems {
    if k == 0 || es == Nil then Nil else Cons(es.size, es.data, Front(es.rest, k - 1))
  }

  function Tail(es: Elems): Elems { if es == Nil then Nil else es.rest }

  // ---------- the operations on a chain ----------

  /** __evfs_entries_write_element on the elements from the current one on: the elements
      after it and the number of bytes it reports. */
  function WriteElem(seg: nat, es: Elems, data: seq<byte>, off: nat): (r: (Elems, nat))
    requires Shaped(seg, es)
    ensures Shaped(seg, r.0) && r.1 <= |data|
    decreases |data|
  {
    if data == [] || off >= seg then (es, 0)
    else
      var e := if es == Nil then Cons(0, Zeros(seg), Nil) else es;
      var cp := Min(|data|, if e.size > 0 then e.size else seg - off);
      var size := if e.size > 0 then e.size else off + cp;
      if off + cp > seg then (e, 0)
      else
        var (rest, n) := if cp == |data| then (e.rest, 0) else WriteElem(seg, e.rest, data[cp..], 0);
        (Cons(size, Overlay(e.data, off, data[..cp]), rest), cp + n)
  }

  /** The walk of evfs_entries_write_data to the element that holds byte `off` of the
      elements, stretching the chain when it is too short, and the write from there. */
  function WriteAt(seg: nat, es: Elems, data: seq<byte>, off: nat): (r: (Elems, nat))
    requires Shaped(seg, es) && seg > 0
    ensures Shaped(seg, r.0) && r.1 <= |data|
    decreases off
  {
    if off < seg then WriteElem(seg, es, data, off)
    else if es == Nil then
      var (rest, n) := WriteAt(seg, Nil, data, off - seg);
      (Cons(seg, Zeros(seg), rest), n)
    else
      var (rest, n) := WriteAt(seg, es.rest, data, off - if es.size > 0 then es.size else seg);
      (Cons(es.size, es.data, rest), n)
  }

  predicate Wellformed(seg: nat, c: Chain) {
    seg > KEY && |c.head| == seg && Shaped(seg, c.elems)
  }

  /** evfs_entries_write_data. */
  function Write(seg: nat, c: Chain, off: nat, data: seq<byte>): (r: (Chain, nat))
    requires Wellformed(seg, c) && data != []
    ensures Wellformed(seg, r.0) && r.1 <= |data|
  {
    var at := KEY + off;
    var total := Max(at + |data|, c.total);
    if at < seg then
      var cp := Min(seg - at, |data|);
      var (es, n) := if cp == |data| then (c.elems, 0) else WriteElem(seg, c.elems, data[cp..], 0);
      (Chain(total, Overlay(c.head, at, data[..cp]), es), cp + n)
    else
      var (es, n) := WriteAt(seg, c.elems, data, at - seg);
      (Chain(total, c.head, es), n)
  }

  /** How much of `n` bytes an element of this size takes. */
  function CopySize(seg: nat, size: nat, off: nat, n: nat): nat
    requires off < seg
  {
    Min(n, if size > 0 then size else seg - off)
  }

  /** How many bytes WriteElem puts into the first `k` elements. */
  function StoredIn(seg: nat, es: Elems, data: seq<byte>, off: nat, k: nat): (n: nat)
    requires Shaped(seg, es)
    ensures n <= |data|
    decreases k
  {
    if k == 0 || data == [] || off >= seg then 0
    else
      var cp := CopySize(seg, if es == Nil then 0 else es.size, off, |data|);
      if off + cp > seg then 0 else cp + StoredIn(seg, Tail(es), data[cp..], 0, k - 1)
  }

  /** How many bytes WriteAt puts into the first `k` elements. */
  function StoredAt(seg: nat, es: Elems, data: seq<byte>, off: nat, k: nat): (n: nat)
    requires Shaped(seg, es) && seg > 0
    ensures n <= |data|
    decreases k
  {
    if off < seg then StoredIn(seg, es, data, off, k)
    else if k == 0 then 0
    else StoredAt(seg, Tail(es), data, off - if es != Nil && es.size > 0 then es.size else seg, k - 1)
  }

  /** How many bytes Write puts into the head cluster and the first `k` elements. */
  function StoredBy(seg: nat, c: Chain, off: nat, data: seq<byte>, k: nat): (n: nat)
    requires Wellformed(seg, c)
    ensures n <= |data|
  {
    var at := KEY + off;
    if at < seg then
      var cp := Min(seg - at, |data|);
      cp + StoredIn(seg, c.elems, data[cp..], 0, k)
    else StoredAt(seg, c.elems, data, at - seg, k)
  }

  /** __evfs_entries_read_element. A read of no bytes goes on with the next element; one of
      a negative count ends the read. */
  function ReadElem(seg: nat, es: Elems, off: nat, remain: nat): (r: seq<byte>)
    requires Shaped(seg, es)
    ensures |r| <= remain
  {
    if es == Nil || remain == 0 || off >= seg || es.size == 0 || es.size < off then []
    else
      var cp := Min(remain, es.size - off);
      es.data[off..off + cp] + ReadElem(seg, es.rest, 0, remain - cp)
  }

  function ReadAt(seg: nat, es: Elems, off: nat, remain: nat): (r: seq<byte>)
    requires Shaped(seg, es)
    ensures |r| <= remain
  {
    if es != Nil && off >= seg then ReadAt(seg, es.rest, off - es.size, remain)
    else ReadElem(seg, es, off, remain)
  }

  /** evfs_entries_read_data. */
  function Read(seg: nat, c: Chain, off: nat, size: nat): (r: seq<byte>)
    requires Wellformed(seg, c)
    ensures |r| <= size
  {
    var at := KEY + off;
    if c.total <= at then []
    else
      var remain := Min(c.total - at, size);
      if at < seg then
        var cp := Min(seg - at, remain);
        c.head[at..at + cp] + ReadElem(seg, c.elems, 0, remain - cp)
      else ReadAt(seg, c.elems, at - seg, remain)
  }

  // ---------- the layout ----------

  /** `s` filled up with zeros to a whole cluster. */
  function Padded(seg: nat, s: seq<byte>): (r: seq<byte>)
    requires |s| <= seg
    ensures |r| == seg
  {
    s + Zeros(seg - |s|)
  }

  /** `s` over as few clusters as it needs: all full but the last, whose rest is zero. */
  function Pack(seg: nat, s: seq<byte>): (es: Elems)
    requires seg > 0
    ensures Shaped(seg, es)
    decreases |s|
  {
    if s == [] then Nil
    else
      var n := Min(|s|, seg);
      Cons(n, Padded(seg, s[..n]), Pack(seg, s[n..]))
  }

  /** The layout of an entry whose name and data are the bytes `s`. */
  function Layout(seg: nat, s: seq<byte>): (c: Chain)
    requires seg > KEY
    ensures Wellformed(seg, c) && c.total == |s|
  {
    var n := Min(|s|, seg);
    Chain(|s|, Padded(seg, s[..n]), Pack(seg, s[n..]))
  }

  /** How many clusters `n` bytes take. */
  function Parts(seg: nat, n: nat): nat
    requires seg > 0
  {
    if n == 0 then 0 else 1 + Parts(seg, n - Min(n, seg))
  }

  /** How many elements an entry of this size takes behind its head cluster. */
  function ElementCount(seg: nat, total: nat): nat
    requires seg > 0
  {
    Parts(seg, total - Min(total, seg))
  }

  lemma {:induction false} PackLength(seg: nat, s: seq<byte>)
    requires seg > 0
    ensures Length(Pack(seg, s)) == Parts(seg, |s|)
    decreases |s|
  {
    if s != [] {
      PackLength(seg, s[Min(|s|, seg)..]);
    }
  }

  lemma {:induction false} LayoutLength(seg: nat, s: seq<byte>)
    requires seg > KEY
    ensures Length(Layout(seg, s).elems) == ElementCount(seg, |s|)
  {
    PackLength(seg, s[Min(|s|, seg)..]);
  }

  lemma {:induction false} PartsRoundUp(seg: nat, n: nat)
    requires seg > 0
    ensures Parts(seg, n) == (n + seg - 1) / seg
    decreases n
  {
    if n == 0 {
      RemainderIs(seg - 1, seg, 0, seg - 1);
    } else if n <= seg {
      RemainderIs(n + seg - 1, seg, 1, n - 1);
    } else {
      PartsRoundUp(seg, n - seg);
      var q, r := QuotRem(n - 1, seg);
      Distributes(seg, q, 1);
      RemainderIs(n - 1, seg, q, r);
      RemainderIs(n - seg + seg - 1, seg, q, r);
      RemainderIs(n + seg - 1, seg, q + 1, r);
    }
  }

  /** `s` with zeros up to `off` if it is shorter, and `d` over it from there. */
  function Patched(s: seq<byte>, off: nat, d: seq<byte>): (r: seq<byte>)
    ensures |r| == Max(off + |d|, |s|)
  {
    seq(Max(off + |d|, |s|), i requires 0 <= i =>
      if off <= i < off + |d| then d[i - off] else if i < |s| then s[i] else 0)
  }

  // How `s` and the patched `s` differ in their first cluster and behind it.

  lemma {:induction false} SplitInside(seg: nat, s: seq<byte>, off: nat, d: seq<byte>)
    requires off + |d| <= seg
    ensures var t, n := Patched(s, off, d), Min(|s|, seg);
      var m := Min(|t|, seg);
      Padded(seg, t[..m]) == Overlay(Padded(seg, s[..n]), off, d) && t[m..] == s[n..]
  {
  }

  lemma {:induction false} SplitAcross(seg: nat, s: seq<byte>, off: nat, d: seq<byte>, cp: nat)
    requires off + cp == seg && cp <= |d|
    ensures var t, n := Patched(s, off, d), Min(|s|, seg);
      && Padded(seg, t[..seg]) == Overlay(Padded(seg, s[..n]), off, d[..cp])
      && t[seg..] == Patched(s[n..], 0, d[cp..])
  {
  }

  lemma {:induction false} SplitBeyond(seg: nat, s: seq<byte>, off: nat, d: seq<byte>)
    requires seg <= off
    ensures var t, n := Patched(s, off, d), Min(|s|, seg);
      Padded(seg, t[..seg]) == Padded(seg, s[..n]) && t[seg..] == Patched(s[n..], off - seg, d)
  {
  }

  lemma {:induction false} NothingPadded(seg: nat)
    ensures Padded(seg, []) == Zeros(seg)
  {
  }

  // ---------- reads ----------

  lemma {:induction false} SliceFirst(seg: nat, s: seq<byte>, off: nat, end: nat)
    requires off <= end <= Min(|s|, seg)
    ensures Padded(seg, s[..Min(|s|, seg)])[off..end] == s[off..end]
  {
  }

  lemma {:induction false} SliceSplit(s: seq<byte>, off: nat, k: nat, end: nat)
    requires off <= k <= end <= |s|
    ensures s[off..end] == s[off..k] + s[k..][0..end - k]
  {
  }

  lemma {:induction false} SliceShift(s: seq<byte>, off: nat, k: nat, end: nat)
    requires k <= off <= end <= |s|
    ensures s[off..end] == s[k..][off - k..end - k]
  {
  }

  lemma {:induction false} ReadGoes(seg: nat, es: Elems, off: nat, remain: nat, cp: nat)
    requires Shaped(seg, es) && es != Nil && remain > 0 && off < seg && 0 < es.size && off <= es.size
    requires cp == Min(remain, es.size - off)
    ensures ReadElem(seg, es, off, remain) == es.data[off..off + cp] + ReadElem(seg, es.rest, 0, remain - cp)
  {
  }

  lemma {:induction false} ReadPasses(seg: nat, es: Elems, off: nat, remain: nat)
    requires Shaped(seg, es)
    ensures es != Nil && off >= seg ==> ReadAt(seg, es, off, remain) == ReadAt(seg, es.rest, off - es.size, remain)
    ensures es == Nil || off < seg ==> ReadAt(seg, es, off, remain) == ReadElem(seg, es, off, remain)
  {
  }

  lemma {:induction false} ReadGoesOn(seg: nat, es: Elems, off: nat, n: nat)
    requires Shaped(seg, es) && es != Nil && off < es.size == seg < off + n
    ensures ReadElem(seg, es, off, n) == es.data[off..seg] + ReadElem(seg, es.rest, 0, off + n - seg)
  {
  }

  lemma {:induction false} ReadEnds(seg: nat, es: Elems, off: nat, n: nat)
    requires Shaped(seg, es) && es != Nil && 0 < n && off + n <= es.size
    ensures ReadElem(seg, es, off, n) == es.data[off..off + n]
  {
  }

  lemma {:induction false} ReadFirst(seg: nat, s: seq<byte>, off: nat, n: nat)
    requires 0 < n && off + n <= Min(|s|, seg)
    ensures ReadElem(seg, Pack(seg, s), off, n) == s[off..off + n]
  {
    ReadEnds(seg, Pack(seg, s), off, n);
    SliceFirst(seg, s, off, off + n);
  }

  lemma {:induction false} ReadBeyondFirst(seg: nat, s: seq<byte>, off: nat, n: nat)
    requires off < seg < off + n <= |s|
    requires ReadElem(seg, Pack(seg, s[seg..]), 0, off + n - seg) == s[seg..][0..off + n - seg]
    ensures ReadElem(seg, Pack(seg, s), off, n) == s[off..off + n]
  {
    ReadGoesOn(seg, Pack(seg, s), off, n);
    SliceFirst(seg, s, off, seg);
    SliceSplit(s, off, seg, off + n);
  }

  lemma {:induction false} ReadElemSlice(seg: nat, s: seq<byte>, off: nat, n: nat)
    requires off < seg && off + n <= |s|
    ensures ReadElem(seg, Pack(seg, s), off, n) == s[off..off + n]
    decreases |s|
  {
    if n == 0 {
    } else if off + n <= seg {
      ReadFirst(seg, s, off, n);
    } else {
      ReadElemSlice(seg, s[seg..], 0, off + n - seg);
      ReadBeyondFirst(seg, s, off, n);
    }
  }

  lemma {:induction false} ReadSkips(seg: nat, s: seq<byte>, off: nat, n: nat)
    requires 0 < seg <= off <= |s|
    ensures ReadAt(seg, Pack(seg, s), off, n) == ReadAt(seg, Pack(seg, s[seg..]), off - seg, n)
  {
  }

  lemma {:induction false} ReadAtSlice(seg: nat, s: seq<byte>, off: nat, n: nat)
    requires seg > 0 && 0 < n && off + n <= |s|
    ensures ReadAt(seg, Pack(seg, s), off, n) == s[off..off + n]
    decreases |s|
  {
    if off < seg {
      ReadElemSlice(seg, s, off, n);
    } else {
      ReadSkips(seg, s, off, n);
      ReadAtSlice(seg, s[seg..], off - seg, n);
      SliceShift(s, off, seg, off + n);
    }
  }

  lemma {:induction false} ReadInHead(seg: nat, c: Chain, at: nat, remain: nat, n: nat)
    requires Wellformed(seg, c) && at < n <= seg && 0 < remain && (n == seg || at + remain <= n)
    ensures var cp := Min(seg - at, remain);
      ReadAt(seg, Cons(n, c.head, c.elems), at, remain) == c.head[at..at + cp] + ReadElem(seg, c.elems, 0, remain - cp)
  {
    var es := Cons(n, c.head, c.elems);
    ReadPasses(seg, es, at, remain);
    ReadGoes(seg, es, at, remain, Min(remain, n - at));
  }

  /** Reading an entry is reading its clusters behind the name; `n` bytes of the head cluster
      are in use. */
  lemma {:induction false} ReadIsReadAt(seg: nat, c: Chain, off: nat, size: nat, n: nat)
    requires Wellformed(seg, c) && 0 < size && KEY + off < c.total && n == Min(c.total, seg)
    ensures Read(seg, c, off, size) == ReadAt(seg, Cons(n, c.head, c.elems), KEY + off, Min(c.total - KEY - off, size))
  {
    var at, remain := KEY + off, Min(c.total - KEY - off, size);
    if at < seg {
      ReadInHead(seg, c, at, remain, n);
    } else {
      ReadPasses(seg, Cons(n, c.head, c.elems), at, remain);
    }
  }

  lemma {:induction false} PackIsLayout(seg: nat, s: seq<byte>)
    requires seg > KEY && s != []
    ensures Pack(seg, s) == Cons(Min(|s|, seg), Layout(seg, s).head, Layout(seg, s).elems)
  {
  }

  lemma {:induction false} ReadIsSlice(seg: nat, s: seq<byte>, off: nat, size: nat)
    requires seg > KEY && 0 < size && KEY + off < |s|
    ensures Read(seg, Layout(seg, s), off, size) == ReadAt(seg, Pack(seg, s), KEY + off, Min(|s| - KEY - off, size))
  {
    PackIsLayout(seg, s);
    ReadIsReadAt(seg, Layout(seg, s), off, size, Min(|s|, seg));
  }

  lemma {:induction false} ReadInRange(seg: nat, s: seq<byte>, off: nat, size: nat)
    requires seg > KEY && 0 < size && KEY + off < |s|
    ensures Read(seg, Layout(seg, s), off, size) == s[KEY..][off..Min(off + size, |s| - KEY)]
  {
    var n := Min(|s| - KEY - off, size);
    ReadIsSlice(seg, s, off, size);
    ReadAtSlice(seg, s, KEY + off, n);
    SliceShift(s, KEY + off, KEY, KEY + off + n);
  }

  /** A read returns the slice of the data it asks for, cut at the end of the data, across
      however many clusters it lies on. */
  lemma {:induction false} ReadReturnsSlice(seg: nat, s: seq<byte>, off: nat, size: nat)
    requires seg > KEY && |s| >= KEY
    ensures var d := s[KEY..];
      Read(seg, Layout(seg, s), off, size) == if off >= |d| then [] else d[off..Min(off + size, |d|)]
  {
    if KEY + off < |s| && size > 0 {
      ReadInRange(seg, s, off, size);
    }
  }

  /** The bytes that a read of a file with the name and data `s` returns. */
  function Slice(s: seq<byte>, off: nat, size: nat): seq<byte>
    requires |s| >= KEY
  {
    if KEY + off >= |s| then [] else s[KEY..][off..Min(off + size, |s| - KEY)]
  }

  // ---------- writes ----------

  /** Where in its cluster byte `off` lies. */
  function Inner(seg: nat, off: nat): nat
    requires seg > 0
  {
    if off < seg then off else Inner(seg, off - seg)
  }

  lemma {:induction false} InnerIsRemainder(seg: nat, off: nat)
    requires seg > 0
    ensures Inner(seg, off) == off % seg
    decreases off
  {
    if off < seg {
      RemainderIs(off, seg, 0, off);
    } else {
      InnerIsRemainder(seg, off - seg);
      var q, r := QuotRem(off - seg, seg);
      Distributes(seg, q, 1);
      RemainderIs(off, seg, q + 1, r);
    }
  }

  lemma {:induction false} FreshElements(seg: nat, data: seq<byte>, off: nat)
    requires off < seg && 0 < |data|
    ensures WriteElem(seg, Nil, data, off) == (Pack(seg, Patched([], off, data)), |data|)
    decreases |data|
  {
    NothingPadded(seg);
    if off + |data| <= seg {
      SplitInside(seg, [], off, data);
      assert data[..|data|] == data;
    } else {
      FreshElements(seg, data[seg - off..], 0);
      SplitAcross(seg, [], off, data, seg - off);
    }
  }

  lemma {:induction false} PackStep(seg: nat, t: seq<byte>, n: nat, x: seq<byte>, y: seq<byte>)
    requires seg > 0 && t != [] && n == Min(|t|, seg) && x == Padded(seg, t[..n]) && y == t[n..]
    ensures Pack(seg, t) == Cons(n, x, Pack(seg, y))
  {
  }

  lemma {:induction false} ElemEnds(seg: nat, es: Elems, data: seq<byte>, off: nat)
    requires Shaped(seg, es) && es != Nil && data != [] && off + |data| <= es.size
    ensures WriteElem(seg, es, data, off) == (Cons(es.size, Overlay(es.data, off, data), es.rest), |data|)
  {
    assert data[..|data|] == data;
  }

  lemma {:induction false} ElemGoesOn(seg: nat, es: Elems, data: seq<byte>)
    requires Shaped(seg, es) && es != Nil && 0 < es.size == seg < |data|
    ensures var r := WriteElem(seg, es.rest, data[seg..], 0);
      WriteElem(seg, es, data, 0) == (Cons(seg, Overlay(es.data, 0, data[..seg]), r.0), seg + r.1)
  {
  }

  lemma {:induction false} AtGoesOn(seg: nat, es: Elems, data: seq<byte>, off: nat)
    requires Shaped(seg, es) && es != Nil && 0 < es.size == seg <= off
    ensures var r := WriteAt(seg, es.rest, data, off - seg);
      WriteAt(seg, es, data, off) == (Cons(seg, es.data, r.0), r.1)
  {
  }

  lemma {:induction false} WriteElemEnds(seg: nat, s: seq<byte>, data: seq<byte>, off: nat)
    requires s != [] && 0 < |data| && off + |data| <= Min(|s|, seg)
    ensures WriteElem(seg, Pack(seg, s), data, off) == (Pack(seg, Patched(s, off, data)), |data|)
  {
    var n := Min(|s|, seg);
    SplitInside(seg, s, off, data);
    ElemEnds(seg, Pack(seg, s), data, off);
    PackStep(seg, Patched(s, off, data), n, Overlay(Padded(seg, s[..n]), off, data), s[n..]);
  }

  lemma {:induction false} WriteElemRight(seg: nat, s: seq<byte>, data: seq<byte>, off: nat)
    requires off < seg && 0 < |data|
    requires s == [] || off + |data| <= |s| || Inner(seg, |s|) == 0
    requires s == [] || off == 0 || off + |data| <= seg
    ensures WriteElem(seg, Pack(seg, s), data, off) == (Pack(seg, Patched(s, off, data)), |data|)
    decreases |data|
  {
    if s == [] {
      FreshElements(seg, data, off);
    } else if off + |data| <= seg {
      WriteElemEnds(seg, s, data, off);
    } else {
      var x, y, rest := Padded(seg, s[..seg]), s[seg..], data[seg..];
      WriteElemRight(seg, y, rest, 0);
      ElemGoesOn(seg, Pack(seg, s), data);
      SplitAcross(seg, s, 0, data, seg);
      PackStep(seg, Patched(s, 0, data), seg, Overlay(x, 0, data[..seg]), Patched(y, 0, rest));
    }
  }

  lemma {:induction false} StretchedWrite(seg: nat, data: seq<byte>, off: nat)
    requires seg > 0 && 0 < |data|
    ensures WriteAt(seg, Nil, data, off) == (Pack(seg, Patched([], off, data)), |data|)
    decreases off
  {
    if off < seg {
      FreshElements(seg, data, off);
    } else {
      NothingPadded(seg);
      StretchedWrite(seg, data, off - seg);
      SplitBeyond(seg, [], off, data);
    }
  }

  /** What must hold for a write at byte `off` of the element clusters to be right, when
      they hold `rem` bytes. */
  predicate TailFits(seg: nat, rem: nat, off: nat, size: nat)
    requires seg > 0
  {
    || rem == 0
    || ((off + size <= rem || Inner(seg, rem) == 0) &&
        (off >= rem || Inner(seg, off) == 0 || Inner(seg, off) + size <= seg))
  }

  lemma {:induction false} WriteAtRight(seg: nat, s: seq<byte>, data: seq<byte>, off: nat)
    requires seg > 0 && 0 < |data| && TailFits(seg, |s|, off, |data|)
    ensures WriteAt(seg, Pack(seg, s), data, off) == (Pack(seg, Patched(s, off, data)), |data|)
    decreases off
  {
    if s == [] {
      StretchedWrite(seg, data, off);
    } else if off < seg {
      WriteElemRight(seg, s, data, off);
    } else {
      var x, y := Padded(seg, s[..seg]), s[seg..];
      WriteAtRight(seg, y, data, off - seg);
      AtGoesOn(seg, Pack(seg, s), data, off);
      SplitBeyond(seg, s, off, data);
      PackStep(seg, Patched(s, off, data), seg, x, Patched(y, off - seg, data));
    }
  }

  /** A write that starts inside an element and runs past its end is refused whole. */
  lemma {:induction false} WriteAtRefused(seg: nat, s: seq<byte>, data: seq<byte>, off: nat)
    requires seg > 0 && 0 < |data| && (off + |data| <= |s| || Inner(seg, |s|) == 0)
    requires off < |s| && Inner(seg, off) != 0 && Inner(seg, off) + |data| > seg
    ensures WriteAt(seg, Pack(seg, s), data, off).1 == 0
    decreases off
  {
    if off >= seg {
      WriteAtRefused(seg, s[seg..], data, off - seg);
    }
  }

  ghost predicate KeepsSizes(es: Elems, es': Elems) {
    es.Cons? ==> es'.Cons? && (es.size > 0 ==> es'.size == es.size) && KeepsSizes(es.rest, es'.rest)
  }

  lemma {:induction false} KeepsSame(es: Elems)
    ensures KeepsSizes(es, es)
  {
    if es != Nil {
      KeepsSame(es.rest);
    }
  }

  lemma {:induction false} WriteElemKeepsSizes(seg: nat, es: Elems, data: seq<byte>, off: nat)
    requires Shaped(seg, es)
    ensures KeepsSizes(es, WriteElem(seg, es, data, off).0)
    decreases |data|
  {
    KeepsSame(es);
    if data != [] && off < seg && es != Nil {
      WriteElemKeepsSizes(seg, es.rest, data[Min(|data|, if es.size > 0 then es.size else seg - off)..], 0);
    }
  }

  lemma {:induction false} WriteAtKeepsSizes(seg: nat, es: Elems, data: seq<byte>, off: nat)
    requires Shaped(seg, es) && seg > 0
    ensures KeepsSizes(es, WriteAt(seg, es, data, off).0)
    decreases off
  {
    if off < seg {
      WriteElemKeepsSizes(seg, es, data, off);
    } else if es != Nil {
      WriteAtKeepsSizes(seg, es.rest, data, off - if es.size > 0 then es.size else seg);
    }
  }

  lemma {:induction false} WriteKeepsSizes(seg: nat, c: Chain, off: nat, data: seq<byte>)
    requires Wellformed(seg, c) && data != []
    ensures KeepsSizes(c.elems, Write(seg, c, off, data).0.elems)
  {
    KeepsSame(c.elems);
    if KEY + off < seg {
      WriteElemKeepsSizes(seg, c.elems, data[Min(seg - KEY - off, |data|)..], 0);
    } else {
      WriteAtKeepsSizes(seg, c.elems, data, KEY + off - seg);
    }
  }

  /** An element is never enlarged, so a chain with a partly used last element cannot grow
      without a gap. */
  lemma {:induction false} CannotGrow(seg: nat, s: seq<byte>, t: seq<byte>)
    requires seg > 0 && 0 < |s| < |t| && KeepsSizes(Pack(seg, s), Pack(seg, t))
    ensures Inner(seg, |s|) == 0
    decreases |s|
  {
    if |s| > seg {
      CannotGrow(seg, s[seg..], t[seg..]);
    }
  }

  /** What a caller can check before a write: the entry lies in its head cluster; or the
      write does not outgrow a partly used last cluster, and if it starts inside an element
      cluster it ends in that cluster. `total` is the size of the name and the data. */
  predicate Fits(seg: nat, total: nat, off: nat, size: nat)
    requires seg > 0
  {
    var at := KEY + off;
    || total <= seg
    || ((at + size <= total || total % seg == 0) &&
        (at < seg || at >= total || at % seg == 0 || at % seg + size <= seg))
  }

  /** The same, said of the element clusters alone. */
  predicate FitsInner(seg: nat, total: nat, off: nat, size: nat)
    requires seg > 0
  {
    var at := KEY + off;
    || total <= seg
    || ((at + size <= total || Inner(seg, total - seg) == 0) &&
        (at < seg || at >= total || Inner(seg, at - seg) == 0 || Inner(seg, at - seg) + size <= seg))
  }

  lemma {:induction false} FitsMeans(seg: nat, total: nat, off: nat, size: nat)
    requires seg > 0
    ensures Fits(seg, total, off, size) <==> FitsInner(seg, total, off, size)
  {
    InnerIsRemainder(seg, KEY + off);
    InnerIsRemainder(seg, total);
  }

  /** The entry is laid out as one that holds what a write to a file would leave, and the
      whole write is reported. */
  predicate Correct(seg: nat, s: seq<byte>, off: nat, data: seq<byte>)
    requires seg > KEY && data != []
  {
    Write(seg, Layout(seg, s), off, data) == (Layout(seg, Patched(s, KEY + off, data)), |data|)
  }

  lemma {:induction false} WriteBeyondHead(seg: nat, s: seq<byte>, at: nat, data: seq<byte>)
    requires seg > KEY && at >= seg && data != [] && TailFits(seg, |s[Min(|s|, seg)..]|, at - seg, |data|)
    ensures Correct(seg, s, at - KEY, data)
  {
    WriteAtRight(seg, s[Min(|s|, seg)..], data, at - seg);
    SplitBeyond(seg, s, at, data);
  }

  lemma {:induction false} WriteInsideHead(seg: nat, s: seq<byte>, at: nat, data: seq<byte>)
    requires KEY <= at < seg && data != [] && at + |data| <= seg
    ensures Correct(seg, s, at - KEY, data)
  {
    SplitInside(seg, s, at, data);
    assert data[..|data|] == data;
  }

  lemma {:induction false} HeadGoesOn(seg: nat, c: Chain, at: nat, data: seq<byte>)
    requires Wellformed(seg, c) && KEY <= at < seg < at + |data|
    ensures var cp := seg - at;
      var r := WriteElem(seg, c.elems, data[cp..], 0);
      Write(seg, c, at - KEY, data) ==
        (Chain(Max(at + |data|, c.total), Overlay(c.head, at, data[..cp]), r.0), cp + r.1)
  {
  }

  lemma {:induction false} WriteAcrossHead(seg: nat, s: seq<byte>, at: nat, data: seq<byte>)
    requires KEY <= at < seg < at + |data|
    requires |s| <= seg || at + |data| <= |s| || Inner(seg, |s| - seg) == 0
    ensures Correct(seg, s, at - KEY, data)
  {
    var n, cp := Min(|s|, seg), seg - at;
    WriteElemRight(seg, s[n..], data[cp..], 0);
    HeadGoesOn(seg, Layout(seg, s), at, data);
    SplitAcross(seg, s, at, data, cp);
  }

  lemma {:induction false} FittingWriteIsCorrect(seg: nat, s: seq<byte>, off: nat, data: seq<byte>)
    requires seg > KEY && data != [] && FitsInner(seg, |s|, off, |data|)
    ensures Correct(seg, s, off, data)
  {
    var at := KEY + off;
    if at >= seg {
      WriteBeyondHead(seg, s, at, data);
    } else if at + |data| <= seg {
      WriteInsideHead(seg, s, at, data);
    } else {
      WriteAcrossHead(seg, s, at, data);
    }
  }

  lemma {:induction false} OutgrownIsWrong(seg: nat, s: seq<byte>, off: nat, data: seq<byte>)
    requires KEY < seg < |s| < KEY + off + |data| && data != [] && Inner(seg, |s| - seg) != 0
    ensures !Correct(seg, s, off, data)
  {
    if Correct(seg, s, off, data) {
      WriteKeepsSizes(seg, Layout(seg, s), off, data);
      CannotGrow(seg, s[seg..], Patched(s, KEY + off, data)[seg..]);
    }
  }

  lemma {:induction false} StraddlingIsRefused(seg: nat, s: seq<byte>, off: nat, data: seq<byte>)
    requires KEY < seg <= KEY + off < |s| && data != []
    requires var at := KEY + off;
      && (at + |data| <= |s| || Inner(seg, |s| - seg) == 0)
      && Inner(seg, at - seg) != 0 && Inner(seg, at - seg) + |data| > seg
    ensures Write(seg, Layout(seg, s), off, data).1 == 0
  {
    WriteAtRefused(seg, s[seg..], data, KEY + off - seg);
  }

  /** A write does what a write to a file does exactly when it fits. */
  lemma {:induction false} WriteCorrectIff(seg: nat, s: seq<byte>, off: nat, data: seq<byte>)
    requires seg > KEY && |s| >= KEY && data != []
    ensures Correct(seg, s, off, data) <==> Fits(seg, |s|, off, |data|)
  {
    FitsMeans(seg, |s|, off, |data|);
    if FitsInner(seg, |s|, off, |data|) {
      FittingWriteIsCorrect(seg, s, off, data);
    } else if KEY + off + |data| > |s| && Inner(seg, |s| - seg) != 0 {
      OutgrownIsWrong(seg, s, off, data);
    } else {
      StraddlingIsRefused(seg, s, off, data);
    }
  }

  // ---------- whole histories of one entry ----------

  datatype WriteCall = WriteCall(off: nat, data: seq<byte>)

  /** Every write of the history fits when it is made; `total` is the size before the first. */
  predicate AllFit(seg: nat, total: nat, ws: seq<WriteCall>)
    requires seg > 0
    decreases |ws|
  {
    ws == [] ||
    (ws[0].data != [] && Fits(seg, total, ws[0].off, |ws[0].data|) &&
     AllFit(seg, Max(KEY + ws[0].off + |ws[0].data|, total), ws[1..]))
  }

  function WriteAll(seg: nat, c: Chain, ws: seq<WriteCall>): (r: Chain)
    requires Wellformed(seg, c)
    ensures Wellformed(seg, r)
    decreases |ws|
  {
    if ws == [] || ws[0].data == [] then c
    else WriteAll(seg, Write(seg, c, ws[0].off, ws[0].data).0, ws[1..])
  }

  /** The same writes on a plain byte string, `base` bytes further on. */
  function PatchAll(base: nat, s: seq<byte>, ws: seq<WriteCall>): seq<byte>
    decreases |ws|
  {
    if ws == [] then s else PatchAll(base, Patched(s, base + ws[0].off, ws[0].data), ws[1..])
  }

  lemma {:induction false} PatchedDrop(s: seq<byte>, k: nat, off: nat, d: seq<byte>)
    requires k <= |s|
    ensures Patched(s, k + off, d)[k..] == Patched(s[k..], off, d)
  {
  }

  lemma {:induction false} PatchAllDrop(k: nat, s: seq<byte>, ws: seq<WriteCall>)
    requires k <= |s|
    ensures |PatchAll(k, s, ws)| >= k && PatchAll(k, s, ws)[k..] == PatchAll(0, s[k..], ws)
    decreases |ws|
  {
    if ws != [] {
      PatchedDrop(s, k, ws[0].off, ws[0].data);
      PatchAllDrop(k, Patched(s, k + ws[0].off, ws[0].data), ws[1..]);
    }
  }

  lemma {:induction false} HistoryLayout(seg: nat, s: seq<byte>, ws: seq<WriteCall>)
    requires seg > KEY && |s| >= KEY && AllFit(seg, |s|, ws)
    ensures WriteAll(seg, Layout(seg, s), ws) == Layout(seg, PatchAll(KEY, s, ws))
    decreases |ws|
  {
    if ws != [] {
      WriteCorrectIff(seg, s, ws[0].off, ws[0].data);
      HistoryLayout(seg, Patched(s, KEY + ws[0].off, ws[0].data), ws[1..]);
    }
  }

  /** After any history of writes that fit, every read returns the slice of what the same
      writes make of a plain byte string. */
  lemma {:induction false} HistoryReads(seg: nat, s: seq<byte>, ws: seq<WriteCall>, off: nat, size: nat)
    requires seg > KEY && |s| >= KEY && AllFit(seg, |s|, ws)
    ensures var d := PatchAll(0, s[KEY..], ws);
      Read(seg, WriteAll(seg, Layout(seg, s), ws), off, size) ==
      if off >= |d| then [] else d[off..Min(off + size, |d|)]
  {
    HistoryLayout(seg, s, ws);
    PatchAllDrop(KEY, s, ws);
    ReadReturnsSlice(seg, PatchAll(KEY, s, ws), off, size);
  }
}
