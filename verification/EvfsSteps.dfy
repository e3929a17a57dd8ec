/** How the chain of an entry reads after steps on one of its clusters. */
module EvfsSteps {
  import opened Bytes
  import opened EvfsVolume
  import opened EvfsChain
  import opened EvfsEntries

  /** Nothing but the elements of `h` from the `j`-th on changed between `a` and `b`. */
  ghost predicate Keeps(a: Fs, b: Fs, h: nat, j: nat) {
    match (a, b)
    case (Fs(_, _, ids), Fs(_, _, ids')) =>
      && h in ids && j <= |ids[h]| && h in ids' && j <= |ids'[h]|
      && Outside(b, h, j) == Outside(a, h, j)
  }

  lemma {:induction false} ElemOutside(fs: FileSystem, h: nat, j: nat)
    requires h in fs.elems && j < |fs.elems[h]|
    ensures var id := fs.elems[h][j];
      && id < |fs.vol.headers| && id < |fs.vol.data| && id in Outside(fs, h, j + 1).clusters
      && Outside(fs, h, j + 1).clusters[id] == (fs.vol.headers[id].size, fs.vol.data[id])
  {
    ElemsFromStep(fs, h, j);
    assert ChainInv(fs.vol.headers, fs.vol.seg, h, fs.elems[h]);
    assert fs.elems[h][j] !in fs.elems[h][j + 1..];
  }

  /** An element reads the same when everything outside the elements after it is the same. */
  lemma {:induction false} ElemKept(a: FileSystem, b: FileSystem, h: nat, j: nat)
    requires h in a.elems && h in b.elems && j < |a.elems[h]| && j < |b.elems[h]|
    requires Outside(a, h, j + 1) == Outside(b, h, j + 1)
    ensures var es := ElemsFrom(a, h, j);
      es != Nil && ElemsFrom(b, h, j) == Cons(es.size, es.data, ElemsFrom(b, h, j + 1))
  {
    ElemsFromStep(a, h, j);
    ElemsFromStep(b, h, j);
    assert a.elems[h][..j + 1][j] == b.elems[h][..j + 1][j];
    ElemOutside(a, h, j);
    ElemOutside(b, h, j);
  }

  /** The effect of writing into the first of the elements `es`: all that it takes, or nothing
      if that would run over its end. */
  predicate Filled(seg: nat, es: Elems, es': Elems, data: seq<byte>, off: nat, n: nat)
    requires Shaped(seg, es) && es != Nil && off < seg
  {
    match es
    case Cons(size, bytes, rest) =>
      var cp := CopySize(seg, size, off, |data|);
      if off + cp > seg then n == 0 && es' == es
      else n == cp && es' == Cons(if size > 0 then size else off + cp, Overlay(bytes, off, data[..cp]), rest)
  }

  /** How the write of the chain `es` unfolds: the first element took `n` bytes, `es'` are the
      elements now, and the rest of the write is still to do. */
  ghost predicate FirstOf(seg: nat, es: Elems, es': Elems, data: seq<byte>, off: nat, n: nat)
    requires Shaped(seg, es)
  {
    match es'
    case Nil => false
    case Cons(_, _, rest) =>
      && Shaped(seg, es') && n <= |data| && rest == Tail(es) && n == StoredIn(seg, es, data, off, 1)
      && WriteElem(seg, es, data, off) ==
         if 0 < n < |data| then Before(es', n, WriteElem(seg, rest, data[n..], 0)) else (es', n)
  }

  function Before(es: Elems, n: nat, w: (Elems, nat)): (Elems, nat)
    requires es != Nil
  {
    (Cons(es.size, es.data, w.0), n + w.1)
  }

  /** `es'` are some but not all of the elements `es`, from the first on. */
  predicate CutOff(es': Elems, es: Elems) { Length(es') < Length(es) && es' == Front(es, Length(es')) }

  /** The elements `es'` are what the chain makes of `es`; or, if a cluster was missing, the
      first of those, and the count is of the bytes in them. */
  ghost predicate Written(seg: nat, es: Elems, es': Elems, data: seq<byte>, off: nat, n: nat, ok: bool)
    requires Shaped(seg, es)
  {
    match WriteElem(seg, es, data, off)
    case (elems, count) =>
      if ok then elems == es' && count == n
      else CutOff(es', elems) && n == StoredIn(seg, es, data, off, Length(es'))
  }

  ghost predicate WrittenAt(seg: nat, es: Elems, es': Elems, data: seq<byte>, off: nat, n: nat, ok: bool)
    requires Shaped(seg, es) && seg > 0
  {
    match WriteAt(seg, es, data, off)
    case (elems, count) =>
      if ok then elems == es' && count == n
      else CutOff(es', elems) && n == StoredAt(seg, es, data, off, Length(es'))
  }

  /** There was no element and none could be had. */
  lemma {:induction false} NoneToWrite(seg: nat, data: seq<byte>, off: nat)
    requires data != [] && off < seg
    ensures Written(seg, Nil, Nil, data, off, 0, false)
  {
  }

  lemma {:induction false} NothingDone(seg: nat, es: Elems, data: seq<byte>, off: nat)
    requires Shaped(seg, es) && (data == [] || off >= seg)
    ensures Written(seg, es, es, data, off, 0, true)
  {
  }

  lemma {:induction false} FirstDone(seg: nat, es: Elems, e: Elems, data: seq<byte>, off: nat, n: nat)
    requires Shaped(seg, es) && FirstOf(seg, es, e, data, off, n) && !(0 < n < |data|)
    ensures Written(seg, es, e, data, off, n, true)
  {
  }

  lemma {:induction false} RestDone(seg: nat, es: Elems, e: Elems, es': Elems, data: seq<byte>, off: nat, n: nat,
                                    rest: nat, ok: bool)
    requires Shaped(seg, es) && FirstOf(seg, es, e, data, off, n) && 0 < n < |data|
    requires es' != Nil && es'.size == e.size && es'.data == e.data
      && Written(seg, e.rest, es'.rest, data[n..], 0, rest, ok)
    ensures Written(seg, es, es', data, off, n + rest, ok)
  {
  }

  /** The first element, `e`, was there or is new, and is then filled. */
  lemma {:induction false} FirstIsFilled(seg: nat, es: Elems, e: Elems, e': Elems, data: seq<byte>, off: nat, n: nat)
    requires Shaped(seg, es) && data != [] && off < seg
    requires e == (if es == Nil then Cons(0, Zeros(seg), Nil) else es) && Filled(seg, e, e', data, off, n)
    ensures FirstOf(seg, es, e', data, off, n)
  {
    if es == Nil {
      FirstIsNew(seg, e', data, off, n);
    } else {
      FirstIsThere(seg, es, e', data, off, n);
    }
  }

  lemma {:induction false} FirstIsNew(seg: nat, e': Elems, data: seq<byte>, off: nat, n: nat)
    requires data != [] && off < seg && Filled(seg, Cons(0, Zeros(seg), Nil), e', data, off, n)
    ensures FirstOf(seg, Nil, e', data, off, n)
  {
  }

  lemma {:induction false} FirstIsThere(seg: nat, es: Elems, e': Elems, data: seq<byte>, off: nat, n: nat)
    requires Shaped(seg, es) && data != [] && off < seg && es != Nil && Filled(seg, es, e', data, off, n)
    ensures FirstOf(seg, es, e', data, off, n)
  {
  }

  lemma {:induction false} ChainSkips(seg: nat, es: Elems, data: seq<byte>, off: nat)
    requires Shaped(seg, es) && off >= seg > 0
    ensures var e := if es == Nil then Cons(seg, Zeros(seg), Nil) else es;
      var r := WriteAt(seg, e.rest, data, off - if e.size > 0 then e.size else seg);
      WriteAt(seg, es, data, off) == (Cons(e.size, e.data, r.0), r.1)
  {
  }

  lemma {:induction false} HeadOf(fs: FileSystem, h: nat)
    requires h in fs.elems
    ensures h in fs.vol.busy && 0 < h < |fs.vol.headers| == |fs.vol.data| && HeadOk(fs.vol.headers[h], h)
    ensures |fs.vol.data[h]| == fs.vol.seg && h !in fs.elems[h]
  {
    assert ChainInv(fs.vol.headers, fs.vol.seg, h, fs.elems[h]);
    assert ChainBusy(fs.vol.busy, h, fs.elems[h]);
  }

  /** The head cluster of `h` with another size of the entry and other bytes. */
  function StoreHead(fs: FileSystem, h: nat, total: nat, bytes: seq<byte>): FileSystem
    requires h in fs.elems && |bytes| == fs.vol.seg && 0 < total < TOP_BIT
  {
    HeadOf(fs, h);
    StoreInv(fs, h, Marked(total), bytes);
    Store(fs, h, Marked(total), bytes)
  }

  lemma {:induction false} StoreHeadChains(fs: FileSystem, h: nat, total: nat, bytes: seq<byte>, g: nat)
    requires h in fs.elems && |bytes| == fs.vol.seg && 0 < total < TOP_BIT && g in fs.elems
    ensures var fs' := StoreHead(fs, h, total, bytes);
      ChainOf(fs', g) == if g == h then Chain(total, bytes, ChainOf(fs, h).elems) else ChainOf(fs, g)
  {
    HeadOf(fs, h);
    HeadOf(fs, g);
    var fs', ids := StoreHead(fs, h, total, bytes), fs.elems[g];
    assert ChainInv(fs.vol.headers, fs.vol.seg, g, ids);
    assert ChainBusy(fs.vol.busy, g, ids);
    forall i | 0 <= i < |ids| ensures SameCluster(fs.vol, fs'.vol, ids[i]) {
      StoreOthers(fs, h, Marked(total), bytes, ids[i]);
    }
    ChainReadable(fs, g, 0);
    ChainReadable(fs', g, 0);
    SameElems(fs.vol, fs'.vol, ids[0..]);
  }

  /** The head of an entry is outside its elements. */
  lemma {:induction false} HeadKept(a: FileSystem, b: FileSystem, h: nat)
    requires h in a.elems && Keeps(a, b, h, 0)
    ensures ChainOf(b, h) == Chain(ChainOf(a, h).total, ChainOf(a, h).head, ElemsFrom(b, h, 0))
  {
    HeadOf(a, h);
    HeadOf(b, h);
    assert a.elems[h][0..] == a.elems[h] && b.elems[h][0..] == b.elems[h];
    assert Outside(a, h, 0).clusters[h] == Outside(b, h, 0).clusters[h];
  }

  /** What storing into the `j`-th element makes of the elements from there on. */
  lemma {:induction false} StoreFills(fs: FileSystem, h: nat, j: nat, data: seq<byte>, off: nat, id: nat, size: nat,
                                      cp: nat)
    requires h in fs.elems && j < |fs.elems[h]| && id == fs.elems[h][j] && off < fs.vol.seg && off + cp <= fs.vol.seg
    requires id < |fs.vol.headers| && size == fs.vol.headers[id].size && cp == CopySize(fs.vol.seg, size, off, |data|)
    requires id < |fs.vol.data| && |fs.vol.data[id]| == fs.vol.seg && size <= fs.vol.seg
    ensures ElemsFrom(fs, h, j) != Nil
    ensures var bytes := Overlay(fs.vol.data[id], off, data[..cp]);
      var fs' := StoreElem(fs, h, j, if size > 0 then size else off + cp, bytes);
      Keeps(fs, fs', h, j) && fs'.elems == fs.elems
        && Filled(fs.vol.seg, ElemsFrom(fs, h, j), ElemsFrom(fs', h, j), data, off, cp)
  {
    ElemsFromStep(fs, h, j);
    var bytes := Overlay(fs.vol.data[id], off, data[..cp]);
    StoreElemKeeps(fs, h, j, if size > 0 then size else off + cp, bytes);
    StoreElemElems(fs, h, j, if size > 0 then size else off + cp, bytes);
  }

  lemma {:induction false} RefusedFills(fs: FileSystem, h: nat, j: nat, data: seq<byte>, off: nat, id: nat, size: nat,
                                        cp: nat)
    requires h in fs.elems && j < |fs.elems[h]| && id == fs.elems[h][j] && off < fs.vol.seg && off + cp > fs.vol.seg
    requires id < |fs.vol.headers| && size == fs.vol.headers[id].size && cp == CopySize(fs.vol.seg, size, off, |data|)
    ensures ElemsFrom(fs, h, j) != Nil
    ensures Keeps(fs, fs, h, j) && Filled(fs.vol.seg, ElemsFrom(fs, h, j), ElemsFrom(fs, h, j), data, off, 0)
  {
    ElemsFromStep(fs, h, j);
  }

  /** What is in memory after the step on the `j`-th element. */
  lemma {:induction false} FillDone(fs: FileSystem, b: Fs, h: nat, j: nat, data: seq<byte>, off: nat, id: nat,
                                    size: nat, cp: nat)
    requires h in fs.elems && j < |fs.elems[h]| && id == fs.elems[h][j] && off < fs.vol.seg
    requires id < |fs.vol.headers| && size == fs.vol.headers[id].size && cp == CopySize(fs.vol.seg, size, off, |data|)
    requires id < |fs.vol.data| && |fs.vol.data[id]| == fs.vol.seg && size <= fs.vol.seg
    requires b == if off + cp > fs.vol.seg then fs
      else Store(fs, id, if size > 0 then size else off + cp, Overlay(fs.vol.data[id], off, data[..cp]))
    ensures FsInv(b) && Keeps(fs, b, h, j) && ElemsFrom(fs, h, j) != Nil
    ensures var n := if off + cp > fs.vol.seg then 0 else cp;
      Filled(fs.vol.seg, ElemsFrom(fs, h, j), ElemsFrom(b, h, j), data, off, n)
  {
    if off + cp <= fs.vol.seg {
      StoreFills(fs, h, j, data, off, id, size, cp);
    } else {
      RefusedFills(fs, h, j, data, off, id, size, cp);
    }
  }

  // ---------- the elements before some element ----------

  function Concat(p: Elems, q: Elems): Elems {
    if p == Nil then q else Cons(p.size, p.data, Concat(p.rest, q))
  }

  lemma {:induction false} ConcatCons(p: Elems, size: nat, data: seq<byte>, q: Elems)
    ensures Concat(Concat(p, Cons(size, data, Nil)), q) == Concat(p, Cons(size, data, q))
  {
    if p != Nil {
      ConcatCons(p.rest, size, data, q);
    }
  }

  /** The first `j` elements of `h`. */
  ghost function ElemsUpTo(fs: FileSystem, h: nat, j: nat): Elems
    requires h in fs.elems && j <= |fs.elems[h]|
  {
    if j == 0 then Nil
    else
      ElemsFromStep(fs, h, j - 1);
      var id := fs.elems[h][j - 1];
      Concat(ElemsUpTo(fs, h, j - 1), Cons(fs.vol.headers[id].size, fs.vol.data[id], Nil))
  }

  lemma {:induction false} AllElems(fs: FileSystem, h: nat, j: nat)
    requires h in fs.elems && j <= |fs.elems[h]|
    ensures ElemsFrom(fs, h, 0) == Concat(ElemsUpTo(fs, h, j), ElemsFrom(fs, h, j))
    decreases j
  {
    if j > 0 {
      AllElems(fs, h, j - 1);
      ElemsFromStep(fs, h, j - 1);
      var id := fs.elems[h][j - 1];
      ConcatCons(ElemsUpTo(fs, h, j - 1), fs.vol.headers[id].size, fs.vol.data[id], ElemsFrom(fs, h, j));
    }
  }

  lemma {:induction false} UpToKept(a: FileSystem, b: FileSystem, h: nat, j: nat)
    requires Keeps(a, b, h, j)
    ensures ElemsUpTo(b, h, j) == ElemsUpTo(a, h, j)
    decreases j
  {
    if j > 0 {
      KeepLess(a, b, h, j - 1);
      UpToKept(a, b, h, j - 1);
      assert Outside(a, h, j).front[j - 1] == a.elems[h][j - 1] && Outside(b, h, j).front[j - 1] == b.elems[h][j - 1];
      ElemOutside(a, h, j - 1);
      ElemOutside(b, h, j - 1);
    }
  }

  lemma {:induction false} KeepAll(a: FileSystem, b: FileSystem, h: nat, j: nat)
    requires Keeps(a, b, h, j)
    ensures Keeps(a, b, h, 0)
    decreases j
  {
    if j > 0 {
      KeepLess(a, b, h, j - 1);
      KeepAll(a, b, h, j - 1);
    }
  }

  function Behind(p: Elems, w: (Elems, nat)): (Elems, nat) { (Concat(p, w.0), w.1) }

  /** What the write at byte `off` of the elements from the `j`-th on makes of all elements. */
  ghost function Whole(fs: FileSystem, h: nat, j: nat, data: seq<byte>, off: nat): (Elems, nat)
    requires h in fs.elems && j <= |fs.elems[h]|
  {
    Behind(ElemsUpTo(fs, h, j), WriteAt(fs.vol.seg, ElemsFrom(fs, h, j), data, off))
  }

  /** Passing the `j`-th element, there before or new in `b`, as the chain does. */
  lemma {:induction false} PassElement(a: FileSystem, b: FileSystem, h: nat, j: nat, data: seq<byte>, off: nat,
                                       step: nat)
    requires Keeps(a, b, h, j) && j < |b.elems[h]| && off >= a.vol.seg >= step
    requires var es := ElemsFrom(a, h, j);
      ElemsFrom(b, h, j) == if es == Nil then Cons(a.vol.seg, Zeros(a.vol.seg), Nil) else es
    requires step == if ElemsFrom(b, h, j).size > 0 then ElemsFrom(b, h, j).size else a.vol.seg
    ensures Whole(b, h, j + 1, data, off - step) == Whole(a, h, j, data, off)
  {
    ElemsFromStep(b, h, j);
    UpToKept(a, b, h, j);
    ChainSkips(a.vol.seg, ElemsFrom(a, h, j), data, off);
    var id := b.elems[h][j];
    var w := WriteAt(a.vol.seg, ElemsFrom(b, h, j + 1), data, off - step);
    ConcatCons(ElemsUpTo(b, h, j), b.vol.headers[id].size, b.vol.data[id], w.0);
  }

  lemma {:induction false} ConcatLength(p: Elems, q: Elems)
    ensures Length(Concat(p, q)) == Length(p) + Length(q)
  {
    if p != Nil {
      ConcatLength(p.rest, q);
    }
  }

  lemma {:induction false} UpToLength(fs: FileSystem, h: nat, j: nat)
    requires h in fs.elems && j <= |fs.elems[h]|
    ensures Length(ElemsUpTo(fs, h, j)) == j
    decreases j
  {
    if j > 0 {
      UpToLength(fs, h, j - 1);
      ElemsFromStep(fs, h, j - 1);
      var id := fs.elems[h][j - 1];
      ConcatLength(ElemsUpTo(fs, h, j - 1), Cons(fs.vol.headers[id].size, fs.vol.data[id], Nil));
    }
  }

  lemma {:induction false} ElemsLength(fs: FileSystem, h: nat)
    requires h in fs.elems
    ensures Length(ElemsFrom(fs, h, 0)) == |fs.elems[h]|
  {
    var n := |fs.elems[h]|;
    AllElems(fs, h, n);
    ElemsFromEnd(fs, h, n);
    ConcatLength(ElemsUpTo(fs, h, n), Nil);
    UpToLength(fs, h, n);
  }

  lemma {:induction false} ConcatFront(p: Elems, q: Elems, m: nat)
    ensures Front(Concat(p, q), Length(p) + m) == Concat(p, Front(q, m))
  {
    if p != Nil {
      ConcatFront(p.rest, q, m);
    }
  }

  /** Counting from the `j`-th element and its byte `inner` on is counting from byte `off` of
      the elements `es` on. */
  ghost predicate CountsOn(fs: FileSystem, h: nat, j: nat, data: seq<byte>, inner: nat, es: Elems, off: nat)
    requires h in fs.elems && j <= |fs.elems[h]| && Shaped(fs.vol.seg, es)
  {
    match fs
    case Fs(vol, _, _) =>
      vol.seg > 0 && forall k: nat {:trigger StoredAt(vol.seg, es, data, off, k)} ::
        k >= j ==> StoredAt(vol.seg, es, data, off, k) == StoredAt(vol.seg, ElemsFrom(fs, h, j), data, inner, k - j)
  }

  /** The write at byte `off` of the elements `es` goes on at byte `inner` of the `j`-th; or it
      stopped for want of a cluster, with fewer elements than it comes to. */
  ghost predicate OnTheWay(fs: FileSystem, h: nat, j: nat, data: seq<byte>, inner: nat, es: Elems, off: nat, ok: bool)
    requires h in fs.elems
  {
    match fs
    case Fs(vol, _, _) =>
      && Shaped(vol.seg, es)
      && var w := WriteAt(fs.vol.seg, es, data, off);
        if ok then j <= |fs.elems[h]| && Whole(fs, h, j, data, inner) == w && CountsOn(fs, h, j, data, inner, es, off)
        else Capacity(fs.vol) == 0 && WrittenAt(fs.vol.seg, es, ElemsFrom(fs, h, 0), data, off, 0, false)
  }

  lemma {:induction false} OnTheWayStart(fs: FileSystem, h: nat, data: seq<byte>, off: nat)
    requires h in fs.elems
    ensures OnTheWay(fs, h, 0, data, off, ElemsFrom(fs, h, 0), off, true)
  {
  }

  lemma {:induction false} CountSkips(seg: nat, es: Elems, data: seq<byte>, off: nat, k: nat)
    requires Shaped(seg, es) && off >= seg > 0 && k > 0
    ensures StoredAt(seg, es, data, off, k) ==
            StoredAt(seg, Tail(es), data, off - if es != Nil && es.size > 0 then es.size else seg, k - 1)
  {
  }

  lemma {:induction false} CountsPass(a: FileSystem, b: FileSystem, h: nat, j: nat, data: seq<byte>, inner: nat,
                                      step: nat, es: Elems, off: nat)
    requires h in a.elems && j <= |a.elems[h]| && h in b.elems && j < |b.elems[h]| && b.vol.seg == a.vol.seg
    requires Shaped(a.vol.seg, es) && CountsOn(a, h, j, data, inner, es, off) && inner >= a.vol.seg >= step
    requires var e := ElemsFrom(a, h, j);
      Tail(e) == ElemsFrom(b, h, j + 1) && step == if e != Nil && e.size > 0 then e.size else a.vol.seg
    ensures CountsOn(b, h, j + 1, data, inner - step, es, off)
  {
    var seg := a.vol.seg;
    forall k: nat | k >= j + 1
      ensures StoredAt(seg, es, data, off, k) == StoredAt(seg, ElemsFrom(b, h, j + 1), data, inner - step, k - (j + 1))
    {
      CountSkips(seg, ElemsFrom(a, h, j), data, inner, k - j);
    }
  }

  /** Passing an element on the way. */
  lemma {:induction false} OnTheWayPass(a: FileSystem, b: FileSystem, h: nat, j: nat, data: seq<byte>, inner: nat,
                                        step: nat, es: Elems, off: nat)
    requires Keeps(a, b, h, j) && j < |b.elems[h]| && inner >= a.vol.seg >= step
    requires var e := ElemsFrom(a, h, j);
      ElemsFrom(b, h, j) == if e == Nil then Cons(a.vol.seg, Zeros(a.vol.seg), Nil) else e
    requires step == if ElemsFrom(b, h, j).size > 0 then ElemsFrom(b, h, j).size else a.vol.seg
    requires OnTheWay(a, h, j, data, inner, es, off, true)
    ensures OnTheWay(b, h, j + 1, data, inner - step, es, off, true)
  {
    PassElement(a, b, h, j, data, inner, step);
    ElemsFromStep(b, h, j);
    CountsPass(a, b, h, j, data, inner, step, es, off);
  }

  lemma {:induction false} CountStopped(seg: nat, es: Elems, data: seq<byte>, off: nat)
    requires Shaped(seg, es) && off >= seg > 0
    ensures StoredAt(seg, es, data, off, 0) == 0
  {
  }

  /** A walk that stops for want of an element has not come as far as the write goes. */
  lemma {:induction false} WalkStopped(a: FileSystem, b: FileSystem, h: nat, j: nat, data: seq<byte>, inner: nat,
                                       es: Elems, off: nat)
    requires Keeps(a, b, h, j) && j == |a.elems[h]| == |b.elems[h]| && inner >= a.vol.seg && Capacity(b.vol) == 0
    requires OnTheWay(a, h, j, data, inner, es, off, true)
    ensures OnTheWay(b, h, j + 1, data, inner, es, off, false)
  {
    ElemsFromEnd(a, h, j);
    ElemsFromEnd(b, h, j);
    UpToKept(a, b, h, j);
    UpToLength(a, h, j);
    AllElems(b, h, j);
    ChainSkips(a.vol.seg, Nil, data, inner);
    var p, q := ElemsUpTo(a, h, j), WriteAt(a.vol.seg, Nil, data, inner).0;
    ConcatFront(p, q, 0);
    ConcatLength(p, q);
    ConcatLength(p, Nil);
    CountStopped(a.vol.seg, Nil, data, inner);
    assert StoredAt(a.vol.seg, es, data, off, j) == 0;
  }

  /** The walk came to the `j`-th element, and what was written from there on is what is
      written. */
  lemma {:induction false} TailDone(a: FileSystem, b: FileSystem, h: nat, j: nat, data: seq<byte>, inner: nat,
                                    es: Elems, off: nat, n: nat, ok: bool)
    requires Keeps(a, b, h, j) && inner < a.vol.seg && OnTheWay(a, h, j, data, inner, es, off, true)
    requires Written(a.vol.seg, ElemsFrom(a, h, j), ElemsFrom(b, h, j), data, inner, n, ok)
    ensures Shaped(a.vol.seg, es) && WrittenAt(a.vol.seg, es, ElemsFrom(b, h, 0), data, off, n, ok)
  {
    var p, q := ElemsUpTo(a, h, j), ElemsFrom(b, h, j);
    var w := WriteElem(a.vol.seg, ElemsFrom(a, h, j), data, inner);
    UpToKept(a, b, h, j);
    UpToLength(a, h, j);
    AllElems(b, h, j);
    ConcatLength(p, q);
    ConcatLength(p, w.0);
    ConcatFront(p, w.0, Length(q));
    assert StoredAt(a.vol.seg, es, data, off, j + Length(q)) ==
      StoredAt(a.vol.seg, ElemsFrom(a, h, j), data, inner, Length(q));
  }

  /** An entry that got no new element when there was no cluster to be had. */
  lemma {:induction false} NoneLeft(a: FileSystem, b: FileSystem, h: nat, j: nat)
    requires Keeps(a, b, h, j) && Capacity(a.vol) == 0 && |b.elems[h]| == |a.elems[h]|
    ensures Capacity(b.vol) == 0
  {
    assert Outside(a, h, j).space == Outside(b, h, j).space;
  }

  /** Only the size and the head cluster of the entry `h` changed. */
  ghost predicate HeadStored(a: FileSystem, b: FileSystem, h: nat, total: nat, bytes: seq<byte>)
    requires h in a.elems
  {
    match b
    case Fs(vol, heads, elems) =>
      && elems == a.elems && heads == a.heads && vol.seg == a.vol.seg && Capacity(vol) == Capacity(a.vol)
      && forall g :: g in a.elems ==>
           ChainOf(b, g) == if g == h then Chain(total, bytes, ChainOf(a, h).elems) else ChainOf(a, g)
  }

  lemma {:induction false} StoreHeadStores(fs: FileSystem, h: nat, total: nat, bytes: seq<byte>)
    requires h in fs.elems && |bytes| == fs.vol.seg && 0 < total < TOP_BIT
    ensures HeadStored(fs, StoreHead(fs, h, total, bytes), h, total, bytes)
  {
    var fs' := StoreHead(fs, h, total, bytes);
    forall g | g in fs.elems
      ensures ChainOf(fs', g) == if g == h then Chain(total, bytes, ChainOf(fs, h).elems) else ChainOf(fs, g)
    {
      StoreHeadChains(fs, h, total, bytes, g);
    }
  }

  /** What a write to `h` leaves: `c` for `h` itself if clusters did not run out, the first
      elements of that and no cluster to be had if they did, and for every other entry what it had.
      Every cluster that is gone is an element of `h`. */
  ghost predicate EntryWritten(a: FileSystem, b: FileSystem, h: nat, c: Chain, ok: bool)
    requires h in a.elems
  {
    match b
    case Fs(vol, heads, elems) =>
      && heads == a.heads && vol.seg == a.vol.seg
      && (forall g :: g in a.elems <==> g in elems)
      && (forall g :: g in a.elems && g != h ==> ChainOf(b, g) == ChainOf(a, g))
      && Length(ChainOf(b, h).elems) + Capacity(vol) == Length(ChainOf(a, h).elems) + Capacity(a.vol)
      && var now := ChainOf(b, h);
        if ok then now == c else Capacity(vol) == 0 && CutOff(now.elems, c.elems) && now == c.(elems := now.elems)
  }

  /** The same, for the write of `data` at `off` that reports `n` bytes: the entry becomes what
      the chain makes of it, and `n` is the number of bytes that are in it. */
  ghost predicate DidWrite(a: FileSystem, b: FileSystem, h: nat, off: nat, data: seq<byte>, n: nat, ok: bool)
    requires h in a.elems && data != []
  {
    match Write(a.vol.seg, ChainOf(a, h), off, data)
    case (c, count) =>
      && EntryWritten(a, b, h, c, ok)
      && n == if ok then count else StoredBy(a.vol.seg, ChainOf(a, h), off, data, Length(ChainOf(b, h).elems))
  }

  lemma {:induction false} SpaceKept(a: FileSystem, m: FileSystem, b: FileSystem, h: nat)
    requires h in a.elems && m.elems == a.elems && Capacity(m.vol) == Capacity(a.vol) && Keeps(m, b, h, 0)
    ensures Length(ElemsFrom(b, h, 0)) + Capacity(b.vol) == Length(ElemsFrom(a, h, 0)) + Capacity(a.vol)
  {
    assert Outside(m, h, 0).space == Outside(b, h, 0).space;
    ElemsLength(a, h);
    ElemsLength(b, h);
  }

  /** First the head cluster, then the elements. */
  lemma {:induction false} HeadThenElems(a: FileSystem, m: FileSystem, b: FileSystem, h: nat, total: nat,
                                         bytes: seq<byte>, es: Elems, ok: bool)
    requires h in a.elems && HeadStored(a, m, h, total, bytes) && Keeps(m, b, h, 0)
    requires if ok then ElemsFrom(b, h, 0) == es else CutOff(ElemsFrom(b, h, 0), es) && Capacity(b.vol) == 0
    ensures EntryWritten(a, b, h, Chain(total, bytes, es), ok)
  {
    HeadKept(m, b, h);
    SpaceKept(a, m, b, h);
    assert Outside(m, h, 0) == Outside(b, h, 0);
    forall g | g in m.elems && g != h ensures g in b.elems && ChainOf(b, g) == ChainOf(m, g) {
      OtherChains(m, b, h, 0, g);
    }
    forall g | g in b.elems ensures g in a.elems {
      assert g in (b.elems - {h}) || g == h;
      assert Outside(m, h, 0).others == Outside(b, h, 0).others;
    }
  }

  lemma {:induction false} WriteFromHead(seg: nat, c: Chain, off: nat, data: seq<byte>, cp: nat, es: Elems, rest: nat)
    requires Wellformed(seg, c) && data != [] && KEY + off < seg && cp == Min(seg - KEY - off, |data|)
    requires Written(seg, c.elems, es, data[cp..], 0, rest, true)
    ensures Write(seg, c, off, data) ==
            (Chain(Max(KEY + off + |data|, c.total), Overlay(c.head, KEY + off, data[..cp]), es), cp + rest)
  {
  }

  lemma {:induction false} FrontCounts(seg: nat, c: Chain, off: nat, data: seq<byte>, cp: nat, k: nat)
    requires Wellformed(seg, c) && KEY + off < seg && cp == Min(seg - KEY - off, |data|)
    ensures StoredBy(seg, c, off, data, k) == cp + StoredIn(seg, c.elems, data[cp..], 0, k)
  {
  }

  lemma {:induction false} DidAll(a: FileSystem, b: FileSystem, h: nat, off: nat, data: seq<byte>,
                                  n: nat, ok: bool, c: Chain, count: nat)
    requires h in a.elems && data != [] && Write(a.vol.seg, ChainOf(a, h), off, data) == (c, count)
    requires EntryWritten(a, b, h, c, ok)
    requires h in b.elems
    requires n == if ok then count else StoredBy(a.vol.seg, ChainOf(a, h), off, data, Length(ChainOf(b, h).elems))
    ensures DidWrite(a, b, h, off, data, n, ok)
  {
  }

  /** The head cluster is written, and the elements after it as far as clusters went. */
  ghost predicate FrontWritten(a: FileSystem, m: FileSystem, b: FileSystem, h: nat, off: nat, data: seq<byte>,
                               cp: nat, rest: nat, ok: bool)
    requires h in a.elems && KEY + off < a.vol.seg && cp == Min(a.vol.seg - KEY - off, |data|)
  {
    match ChainOf(a, h)
    case Chain(total, head, elems) =>
      && HeadStored(a, m, h, Max(KEY + off + |data|, total), Overlay(head, KEY + off, data[..cp]))
      && Keeps(m, b, h, 0) && Written(a.vol.seg, elems, ElemsFrom(b, h, 0), data[cp..], 0, rest, ok)
      && (ok || Capacity(b.vol) == 0)
  }

  lemma {:induction false} FrontEntry(a: FileSystem, m: FileSystem, b: FileSystem, h: nat, off: nat, data: seq<byte>,
                                      cp: nat, rest: nat, ok: bool)
    requires h in a.elems && data != [] && KEY + off < a.vol.seg && cp == Min(a.vol.seg - KEY - off, |data|)
    requires FrontWritten(a, m, b, h, off, data, cp, rest, ok)
    ensures EntryWritten(a, b, h, Write(a.vol.seg, ChainOf(a, h), off, data).0, ok)
    ensures h in b.elems && ChainOf(b, h).elems == ElemsFrom(b, h, 0)
  {
    var c, seg := ChainOf(a, h), a.vol.seg;
    var w := WriteElem(seg, c.elems, data[cp..], 0);
    var c' := Chain(Max(KEY + off + |data|, c.total), Overlay(c.head, KEY + off, data[..cp]), w.0);
    HeadThenElems(a, m, b, h, c'.total, c'.head, w.0, ok);
    WriteFromHead(seg, c, off, data, cp, w.0, w.1);
    HeadKept(m, b, h);
  }

  lemma {:induction false} FrontCount(seg: nat, c: Chain, es: Elems,
    off: nat, data: seq<byte>, cp: nat, rest: nat, ok: bool)
    requires Wellformed(seg, c) && data != [] && KEY + off < seg && cp == Min(seg - KEY - off, |data|)
    requires Written(seg, c.elems, es, data[cp..], 0, rest, ok)
    ensures cp + rest == if ok then Write(seg, c, off, data).1 else StoredBy(seg, c, off, data, Length(es))
  {
    var w := WriteElem(seg, c.elems, data[cp..], 0);
    WriteFromHead(seg, c, off, data, cp, w.0, w.1);
    FrontCounts(seg, c, off, data, cp, Length(es));
  }

  /** A write that starts in the head cluster, all together. */
  lemma {:induction false} FrontDone(a: FileSystem, m: FileSystem, b: FileSystem, h: nat, off: nat, data: seq<byte>,
                                     cp: nat, rest: nat, ok: bool)
    requires h in a.elems && data != [] && KEY + off < a.vol.seg && cp == Min(a.vol.seg - KEY - off, |data|)
    requires FrontWritten(a, m, b, h, off, data, cp, rest, ok)
    ensures DidWrite(a, b, h, off, data, cp + rest, ok)
  {
    var w := Write(a.vol.seg, ChainOf(a, h), off, data);
    FrontEntry(a, m, b, h, off, data, cp, rest, ok);
    FrontCount(a.vol.seg, ChainOf(a, h), ElemsFrom(b, h, 0), off, data, cp, rest, ok);
    DidAll(a, b, h, off, data, cp + rest, ok, w.0, w.1);
  }

  /** A write that starts behind the head cluster, all together. */
  lemma {:induction false} BackDone(a: FileSystem, m: FileSystem, b: FileSystem, h: nat, off: nat, data: seq<byte>,
                                    n: nat, ok: bool)
    requires h in a.elems && data != [] && KEY + off >= a.vol.seg && Keeps(m, b, h, 0)
    requires HeadStored(a, m, h, Max(KEY + off + |data|, ChainOf(a, h).total), ChainOf(a, h).head)
    requires WrittenAt(m.vol.seg, ElemsFrom(m, h, 0), ElemsFrom(b, h, 0), data, KEY + off - a.vol.seg, n, ok)
    requires ok || Capacity(b.vol) == 0
    ensures DidWrite(a, b, h, off, data, n, ok)
  {
    var c := ChainOf(a, h);
    assert ChainOf(m, h).elems == c.elems;
    var w := WriteAt(a.vol.seg, c.elems, data, KEY + off - a.vol.seg);
    var c' := Chain(Max(KEY + off + |data|, c.total), c.head, w.0);
    HeadThenElems(a, m, b, h, c'.total, c.head, w.0, ok);
    HeadKept(m, b, h);
    DidAll(a, b, h, off, data, n, ok, c', w.1);
  }
}
