/** Entries in memory over the views, changed in place. */
module EvfsFiles {
  import opened Bytes
  import opened EvfsVolume
  import opened EvfsChain
  import opened EvfsEntries
  import opened EvfsSteps
  import opened EvfsView

  class Files {
    const views: Views
    /** The heads of the entries in the order they were made, and the elements of each. */
    var heads: seq<nat>
    var elems: map<nat, seq<nat>>

    ghost function State(): Fs
      reads this, views
    {
      Fs(views.Vol(), heads, elems)
    }

    ghost predicate Valid()
      reads this, views
    {
      views.OnDisk() && views.Counted() && FsInv(State())
    }

    /** evfs_entries_create over fresh views. */
    constructor (views: Views)
      requires views.OnDisk() && views.Counted() && Sound(views.Vol()) && views.busy == [] && views.seg > KEY
      ensures Valid() && heads == [] && this.views == views
    {
      this.views, heads, elems := views, [], map[];
    }

    // ---------- elements ----------

    /** __evfs_entries_alloc_idle_elements_for_head for one cluster. */
    method AddElement(h: nat) returns (ok: bool)
      requires Valid() && h in elems
      modifies this`elems, views
      ensures Valid() && Keeps(old(State()), State(), h, |old(elems)[h]|)
      ensures ok <==> Capacity(old(views.Vol())) > 0
      ensures |elems[h]| == |old(elems)[h]| + if ok then 1 else 0
      ensures ok ==> IsNew(views.Vol(), elems[h][|old(elems)[h]|])
    {
      ghost var fs: FileSystem := State();
      ok := Allocate(h);
      AddElementKeeps(fs, h, |fs.elems[h]|);
      AddElementNew(fs, h, |fs.elems[h]|);
    }

    method Allocate(h: nat) returns (ok: bool)
      requires Valid() && h in elems
      modifies this`elems, views
      ensures views.OnDisk() && views.Counted() && State() == EvfsEntries.AddElement(old(State()), h)
      ensures h in elems && |elems[h]| == |old(elems)[h]| + if ok then 1 else 0
    {
      ghost var fs: FileSystem := State();
      AcquireMoreAllOrNothing(fs.vol, 1);
      var es := elems[h];
      var ids := views.AcquireMore(1);
      ok := ids != [];
      if ok {
        assert ids == [ids[0]];
        LastInside(fs, h, views.Vol(), ids);
        HeadOf(fs, h);
        assert ChainInv(fs.vol.headers, fs.vol.seg, h, es);
        elems := elems[h := es + [ids[0]]];
        Link(h, es, ids[0]);
      }
    }

    /** Mark the new cluster as an element of `h` and let the last cluster point to it. */
    method Link(h: nat, es: seq<nat>, id: nat)
      requires views.OnDisk() && 0 < id < |views.headers| && 0 < Last(h, es) < |views.headers|
      modifies views`headers, views`disk, views`asked
      ensures views.OnDisk() && views.headers == Linked(old(views.headers), h, es, id)
    {
      views.WriteHead(id, Header(0, 0, h));
      var last := Last(h, es);
      views.WriteHead(last, views.headers[last].(next := id));
    }

    /** Write what goes into the `j`-th element; nothing if it would run over its end. */
    method Fill(h: nat, j: nat, data: seq<byte>, off: nat) returns (n: nat)
      requires Valid() && h in elems && j < |elems[h]| && off < views.seg && data != []
      modifies views
      ensures Valid() && Keeps(old(State()), State(), h, j)
      ensures ElemsFrom(old(State()), h, j) != Nil
      ensures Filled(views.seg, ElemsFrom(old(State()), h, j), ElemsFrom(State(), h, j), data, off, n)
    {
      ghost var fs: FileSystem := State();
      ElemAt(fs, h, j);
      var id := elems[h][j];
      var size := views.headers[id].size;
      var cp := CopySize(views.seg, size, off, |data|);
      n := Put(id, size, data[..cp], off, cp);
      FillDone(fs, State(), h, j, data, off, id, size, cp);
    }

    /** The size of an element that has none yet, and the bytes. */
    method Put(id: nat, size: nat, bytes: seq<byte>, off: nat, cp: nat) returns (n: nat)
      requires views.OnDisk() && 0 < id < |views.headers|
        && views.headers[id].size == size && views.headers[id].head != 0
      requires bytes != [] && cp == |bytes| && (size == 0 ==> off + cp <= views.seg)
      modifies views`headers, views`data, views`disk, views`asked
      ensures views.OnDisk()
      ensures off + cp <= views.seg ==> n == cp
      ensures off + cp <= views.seg ==> views.data == old(views.data)[id := Overlay(old(views.data)[id], off, bytes)]
      ensures off + cp <= views.seg ==>
        views.headers == old(views.headers)[id := old(views.headers)[id].(size := if size > 0 then size else off + cp)]
      ensures off + cp > views.seg ==> n == 0 && views.data == old(views.data) && views.headers == old(views.headers)
    {
      if size == 0 {
        views.WriteHead(id, views.headers[id].(size := off + cp));
      }
      n := views.WriteUserdata(id, bytes, off);
    }

    /** __evfs_entries_write_element from the `j`-th element on: the bytes written, and whether
        no cluster was missing. */
    method WriteElement(h: nat, j: nat, data: seq<byte>, off: nat) returns (n: nat, ok: bool)
      requires Valid() && h in elems && j <= |elems[h]|
      modifies this`elems, views
      ensures Valid() && Keeps(old(State()), State(), h, j)
      ensures if ok then n <= |data| else n < |data| && Capacity(views.Vol()) == 0
      ensures Written(views.seg, ElemsFrom(old(State()), h, j), ElemsFrom(State(), h, j), data, off, n, ok)
      decreases |data|, 1
    {
      ghost var es := ElemsFrom(State(), h, j);
      if data == [] || off >= views.seg {
        NothingDone(views.seg, es, data, off);
        return 0, true;
      }
      n, ok := WriteOne(h, j, data, off);
      if !ok {
        NoneToWrite(views.seg, data, off);
      } else if 0 < n < |data| {
        n, ok := WriteRest(h, j, data, n, es, off);
      } else {
        FirstDone(views.seg, es, ElemsFrom(State(), h, j), data, off, n);
      }
    }

    /** The write into the elements after the `j`-th, which took the first `k` bytes. */
    method WriteRest(h: nat, j: nat, data: seq<byte>, k: nat, ghost es: Elems, ghost off: nat) returns (n: nat,
                     ok: bool)
      requires Valid() && h in elems && j < |elems[h]| && 0 < k < |data|
      requires Shaped(views.seg, es) && FirstOf(views.seg, es, ElemsFrom(State(), h, j), data, off, k)
      modifies this`elems, views
      ensures Valid() && Keeps(old(State()), State(), h, j)
      ensures if ok then n <= |data| else n < |data| && Capacity(views.Vol()) == 0
      ensures Written(views.seg, es, ElemsFrom(State(), h, j), data, off, n, ok)
      decreases |data|, 0
    {
      ghost var fs: FileSystem := State();
      ElemsFromStep(fs, h, j);
      n, ok := WriteElement(h, j + 1, data[k..], 0);
      KeepLess(fs, State(), h, j);
      ElemKept(fs, State(), h, j);
      RestDone(views.seg, es, ElemsFrom(fs, h, j), ElemsFrom(State(), h, j), data, off, k, n, ok);
      n := k + n;
    }

    /** The first step of WriteElement, and what is then left of the write. */
    method WriteOne(h: nat, j: nat, data: seq<byte>, off: nat) returns (n: nat, ok: bool)
      requires Valid() && h in elems && j <= |elems[h]| && data != [] && off < views.seg
      modifies this`elems, views
      ensures Valid() && Keeps(old(State()), State(), h, j) && n <= |data|
      ensures if ok then j < |elems[h]| else n == 0 && Capacity(views.Vol()) == 0
      ensures !ok ==> ElemsFrom(old(State()), h, j) == Nil && ElemsFrom(State(), h, j) == Nil
      ensures ok ==> FirstOf(views.seg, ElemsFrom(old(State()), h, j), ElemsFrom(State(), h, j), data, off, n)
    {
      ghost var fs: FileSystem := State();
      ok := Prepare(h, j);
      if !ok {
        return 0, false;
      }
      ghost var e := ElemsFrom(State(), h, j);
      n := Fill(h, j, data, off);
      FirstIsFilled(views.seg, ElemsFrom(fs, h, j), e, ElemsFrom(State(), h, j), data, off, n);
    }

    /** See that there is a `j`-th element. */
    method Prepare(h: nat, j: nat) returns (ok: bool)
      requires Valid() && h in elems && j <= |elems[h]|
      modifies this`elems, views
      ensures Valid() && Keeps(old(State()), State(), h, j)
      ensures if ok then j < |elems[h]| else Capacity(views.Vol()) == 0
      ensures var es := ElemsFrom(old(State()), h, j);
        if ok then ElemsFrom(State(), h, j) == (if es == Nil then Cons(0, Zeros(views.seg), Nil) else es)
        else es == Nil && ElemsFrom(State(), h, j) == Nil
    {
      ghost var fs: FileSystem := State();
      if j < |elems[h]| {
        ElemsFromStep(fs, h, j);
        return true;
      }
      ElemsFromEnd(fs, h, j);
      ok := AddElement(h);
      if ok {
        ElemsFromStep(State(), h, j);
        ElemsFromEnd(State(), h, j + 1);
      } else {
        NoneLeft(fs, State(), h, j);
        ElemsFromEnd(State(), h, j);
      }
    }

    // ---------- whole writes ----------

    /** One round of the walk in evfs_entries_write_data: pass the `j`-th element, or make one
        that counts as full. */
    method Pass(h: nat, j: nat) returns (step: nat, ok: bool)
      requires Valid() && h in elems && j <= |elems[h]|
      modifies this`elems, views
      ensures Valid() && Keeps(old(State()), State(), h, j)
      ensures if ok then j < |elems[h]| && 0 < step <= views.seg
        else j == |old(elems)[h]| == |elems[h]| && Capacity(views.Vol()) == 0
      ensures var es := ElemsFrom(old(State()), h, j);
        ok ==> ElemsFrom(State(), h, j) == if es == Nil then Cons(views.seg, Zeros(views.seg), Nil) else es
      ensures ok ==> step == if ElemsFrom(State(), h, j).size > 0 then ElemsFrom(State(), h, j).size else views.seg
    {
      ghost var fs: FileSystem := State();
      if j == |elems[h]| {
        ElemsFromEnd(fs, h, j);
        step := views.seg;
        ok := AddElement(h);
        if ok {
          SetFull(h, j);
        } else {
          NoneLeft(fs, State(), h, j);
        }
      } else {
        ElemsFromStep(fs, h, j);
        var size := views.headers[elems[h][j]].size;
        step, ok := if size > 0 then size else views.seg, true;
      }
    }

    /** A new last element counts as full from the start. */
    method SetFull(h: nat, j: nat)
      requires Valid() && h in elems && j + 1 == |elems[h]| && IsNew(views.Vol(), elems[h][j])
      modifies views
      ensures Valid() && Keeps(old(State()), State(), h, j)
      ensures ElemsFrom(State(), h, j) == Cons(views.seg, Zeros(views.seg), Nil)
    {
      ghost var fs: FileSystem := State();
      ElemsFromStep(fs, h, j);
      ElemsFromEnd(fs, h, j + 1);
      var id := elems[h][j];
      assert ChainInv(fs.vol.headers, fs.vol.seg, h, elems[h]);
      StoreElemKeeps(fs, h, j, views.seg, fs.vol.data[id]);
      StoreElemElems(fs, h, j, views.seg, fs.vol.data[id]);
      views.WriteHead(id, views.headers[id].(size := views.seg));
      assert views.data == fs.vol.data[id := fs.vol.data[id]];
      assert State() == StoreElem(fs, h, j, views.seg, fs.vol.data[id]);
    }

    /** Pass one element as the chain does: how far it still is to the byte. */
    method Advance(h: nat, j: nat, ghost data: seq<byte>, inner: nat, ghost es: Elems, ghost off: nat)
      returns (left: nat, ok: bool)
      requires Valid() && h in elems && inner >= views.seg && OnTheWay(State(), h, j, data, inner, es, off, true)
      modifies this`elems, views
      ensures Valid() && Keeps(old(State()), State(), h, 0)
      ensures (ok ==> left < inner) && OnTheWay(State(), h, j + 1, data, left, es, off, ok)
    {
      ghost var fs: FileSystem := State();
      var step;
      step, ok := Pass(h, j);
      KeepAll(fs, State(), h, j);
      left := if ok then inner - step else inner;
      if ok {
        OnTheWayPass(fs, State(), h, j, data, inner, step, es, off);
      } else {
        WalkStopped(fs, State(), h, j, data, inner, es, off);
      }
    }

    /** The walk to byte `off` of the elements `es`: byte `inner` of the `j`-th. */
    method Walk(h: nat, ghost data: seq<byte>, off: nat, ghost es: Elems) returns (j: nat, inner: nat, ok: bool)
      requires Valid() && h in elems && OnTheWay(State(), h, 0, data, off, es, off, true)
      modifies this`elems, views
      ensures Valid() && Keeps(old(State()), State(), h, 0)
      ensures (ok ==> inner < views.seg) && OnTheWay(State(), h, j, data, inner, es, off, ok)
    {
      j, inner, ok := 0, off, true;
      while ok && inner >= views.seg
        invariant Valid() && Keeps(old(State()), State(), h, 0)
        invariant OnTheWay(State(), h, j, data, inner, es, off, ok)
        decreases ok, inner
      {
        inner, ok := Advance(h, j, data, inner, es, off);
        j := j + 1;
      }
    }

    /** The walk, and the write from there. */
    method WriteTail(h: nat, data: seq<byte>, off: nat) returns (n: nat, ok: bool)
      requires Valid() && h in elems && data != []
      modifies this`elems, views
      ensures Valid() && Keeps(old(State()), State(), h, 0)
      ensures if ok then n <= |data| else n < |data| && Capacity(views.Vol()) == 0
      ensures WrittenAt(views.seg, ElemsFrom(old(State()), h, 0), ElemsFrom(State(), h, 0), data, off, n, ok)
    {
      ghost var es := ElemsFrom(State(), h, 0);
      OnTheWayStart(State(), h, data, off);
      var j, inner;
      j, inner, ok := Walk(h, data, off, es);
      if !ok {
        return 0, false;
      }
      ghost var at: FileSystem := State();
      n, ok := WriteElement(h, j, data, inner);
      KeepAll(at, State(), h, j);
      TailDone(at, State(), h, j, data, inner, es, off, n, ok);
    }

    // ---------- evfs_entries_write_data ----------

    /** The size of the entry. */
    method SetTotal(h: nat, total: nat)
      requires Valid() && h in elems && 0 < total < TOP_BIT
      modifies views
      ensures Valid() && HeadStored(old(State()), State(), h, total, ChainOf(old(State()), h).head)
    {
      ghost var fs: FileSystem := State();
      HeadOf(fs, h);
      StoreHeadStores(fs, h, total, fs.vol.data[h]);
      views.WriteHead(h, views.headers[h].(size := Marked(total)));
      assert views.data == fs.vol.data[h := fs.vol.data[h]];
      assert State() == StoreHead(fs, h, total, fs.vol.data[h]);
    }

    /** The size of the entry and the bytes that go into its head cluster. */
    method SetHead(h: nat, total: nat, d: seq<byte>, at: nat)
      requires Valid() && h in elems && 0 < total < TOP_BIT && d != [] && at + |d| <= views.seg
      modifies views
      ensures Valid() && HeadStored(old(State()), State(), h, total, Overlay(ChainOf(old(State()), h).head, at, d))
    {
      ghost var fs: FileSystem := State();
      HeadOf(fs, h);
      PutHead(h, Marked(total), d, at);
      StoreHeadStores(fs, h, total, Overlay(fs.vol.data[h], at, d));
      assert State() == StoreHead(fs, h, total, Overlay(fs.vol.data[h], at, d));
    }

    method PutHead(id: nat, size: int, d: seq<byte>, at: nat)
      requires views.OnDisk() && 0 < id < |views.headers| && size != 0 && d != [] && at + |d| <= views.seg
      modifies views`headers, views`data, views`disk, views`asked
      ensures views.OnDisk() && |old(views.data)[id]| == views.seg
      ensures views.headers == old(views.headers)[id := old(views.headers)[id].(size := size)]
      ensures views.data == old(views.data)[id := Overlay(old(views.data)[id], at, d)]
    {
      views.WriteHead(id, views.headers[id].(size := size));
      var _ := views.WriteUserdata(id, d, at);
    }

    /** evfs_entries_write_data on the entry `h`: the bytes written, and whether no cluster was
        missing. The entry is then what the chain makes of it, and no other entry changes,
        whether or not a cluster was missing. */
    method WriteData(h: nat, data: seq<byte>, off: nat) returns (n: nat, ok: bool)
      requires Valid() && h in elems && data != [] && KEY + off + |data| < TOP_BIT
      modifies this`elems, views
      ensures Valid() && n <= |data| && (ok || n < |data|)
      ensures DidWrite(old(State()), State(), h, off, data, n, ok)
    {
      HeadOf(State(), h);
      var total := Max(KEY + off + |data|, SegSize(views.headers[h]));
      if KEY + off < views.seg {
        n, ok := WriteFront(h, data, off, total);
      } else {
        n, ok := WriteBack(h, data, off, total);
      }
    }

    /** A write that starts in the head cluster. */
    method WriteFront(h: nat, data: seq<byte>, off: nat, total: nat) returns (n: nat, ok: bool)
      requires Valid() && h in elems && data != [] && KEY + off < views.seg
      requires total == Max(KEY + off + |data|, ChainOf(State(), h).total) && 0 < total < TOP_BIT
      modifies this`elems, views
      ensures Valid() && n <= |data| && (ok || n < |data|)
      ensures DidWrite(old(State()), State(), h, off, data, n, ok)
    {
      ghost var fs: FileSystem := State();
      var at := KEY + off;
      var cp := Min(views.seg - at, |data|);
      SetHead(h, total, data[..cp], at);
      n, ok := WriteOver(h, data, off, cp, fs);
    }

    /** The rest of it, once the head cluster is written. */
    method WriteOver(h: nat, data: seq<byte>, off: nat, cp: nat, ghost fs: FileSystem) returns (n: nat, ok: bool)
      requires Valid() && h in fs.elems && data != [] && KEY + off < views.seg && fs.vol.seg == views.seg && h in elems
      requires cp == Min(views.seg - KEY - off, |data|)
      requires var c := ChainOf(fs, h);
        HeadStored(fs, State(), h, Max(KEY + off + |data|, c.total), Overlay(c.head, KEY + off, data[..cp]))
      modifies this`elems, views
      ensures Valid() && n <= |data| && (ok || n < |data|) && DidWrite(fs, State(), h, off, data, n, ok)
    {
      ghost var mid: FileSystem := State();
      var rest;
      rest, ok := WriteElement(h, 0, data[cp..], 0);
      n := cp + rest;
      assert ChainOf(mid, h).elems == ChainOf(fs, h).elems;
      FrontDone(fs, mid, State(), h, off, data, cp, rest, ok);
    }

    /** A write that starts behind the head cluster. */
    method WriteBack(h: nat, data: seq<byte>, off: nat, total: nat) returns (n: nat, ok: bool)
      requires Valid() && h in elems && data != [] && KEY + off >= views.seg
      requires total == Max(KEY + off + |data|, ChainOf(State(), h).total) && 0 < total < TOP_BIT
      modifies this`elems, views
      ensures Valid() && n <= |data| && (ok || n < |data|)
      ensures DidWrite(old(State()), State(), h, off, data, n, ok)
    {
      ghost var fs: FileSystem := State();
      SetTotal(h, total);
      n, ok := WriteBehind(h, data, off, fs);
    }

    /** The rest of it, once the size of the entry is set. */
    method WriteBehind(h: nat, data: seq<byte>, off: nat, ghost fs: FileSystem) returns (n: nat, ok: bool)
      requires Valid() && h in fs.elems && data != [] && KEY + off >= views.seg && fs.vol.seg == views.seg && h in elems
      requires HeadStored(fs, State(), h, Max(KEY + off + |data|, ChainOf(fs, h).total), ChainOf(fs, h).head)
      modifies this`elems, views
      ensures Valid() && n <= |data| && (ok || n < |data|) && DidWrite(fs, State(), h, off, data, n, ok)
    {
      ghost var mid: FileSystem := State();
      n, ok := WriteTail(h, data, KEY + off - views.seg);
      BackDone(fs, mid, State(), h, off, data, n, ok);
    }
  }
}
