/** Entries over the clusters of a volume: how the chain of an entry grows and is written. */
module EvfsEntries {
  import opened Bytes
  import opened EvfsVolume
  import opened EvfsChain

  /** Every entry by the id of its head cluster, with the ids of its element clusters. */
  datatype Fs = Fs(vol: Volume, heads: seq<nat>, elems: map<nat, seq<nat>>)

  const TOP_BIT: int := 0x8000_0000

  /** A size with the top bit of a 32-bit word set, read as a signed number. */
  function Marked(size: int): int { if size <= 0 then size else size - TOP_BIT }

  /** evfs_view_get_data_seg_size: the size without the mark. */
  function SegSize(x: Header): int { if x.size < 0 then x.size + TOP_BIT else x.size }

  // ---------- the invariant ----------

  function First(ids: seq<nat>): nat { if ids == [] then 0 else ids[0] }

  function Next(ids: seq<nat>, i: nat): nat { if i + 1 < |ids| then ids[i + 1] else 0 }

  predicate HeadOk(x: Header, h: nat) { -TOP_BIT <= x.size < 0 && x.head == h }

  predicate ElemOk(x: Header, h: nat, seg: nat) { 0 <= x.size <= seg && x.head == h }

  /** The clusters of one entry, each marked as what it is and linked in list order. */
  ghost predicate ChainInv(hs: seq<Header>, seg: nat, h: nat, ids: seq<nat>) {
    && 0 < h < |hs| && HeadOk(hs[h], h) && hs[h].next == First(ids) && NoDup(ids)
    && forall i :: 0 <= i < |ids| ==> 0 < ids[i] < |hs| && ElemOk(hs[ids[i]], h, seg) && hs[ids[i]].next == Next(ids, i)
  }

  ghost predicate Chains(hs: seq<Header>, seg: nat, elems: map<nat, seq<nat>>) {
    forall h {:trigger ChainInv(hs, seg, h, elems[h])} :: h in elems ==> ChainInv(hs, seg, h, elems[h])
  }

  ghost predicate ChainBusy(busy: seq<nat>, h: nat, ids: seq<nat>) {
    h in busy && forall i :: 0 <= i < |ids| ==> ids[i] in busy
  }

  ghost predicate HasOwner(hs: seq<Header>, elems: map<nat, seq<nat>>, id: nat) {
    id < |hs| && (id in elems || (hs[id].head in elems && id in elems[hs[id].head]))
  }

  /** The clusters of entries are busy, and every busy cluster belongs to an entry. */
  ghost predicate Owned(hs: seq<Header>, busy: seq<nat>, elems: map<nat, seq<nat>>) {
    && (forall h {:trigger ChainBusy(busy, h, elems[h])} :: h in elems ==> ChainBusy(busy, h, elems[h]))
    && (forall id {:trigger HasOwner(hs, elems, id)} :: id in busy ==> HasOwner(hs, elems, id))
  }

  ghost predicate Indexed(heads: seq<nat>, elems: map<nat, seq<nat>>) {
    NoDup(heads) && forall h :: h in heads <==> h in elems
  }

  ghost predicate FsInv(fs: Fs) {
    match fs
    case Fs(vol, heads, elems) =>
      && Sound(vol) && vol.seg > KEY && Indexed(heads, elems)
      && Chains(vol.headers, vol.seg, elems) && Owned(vol.headers, vol.busy, elems)
  }

  /** File systems in order. */
  type FileSystem = fs: Fs | FsInv(fs) ghost witness
    Fs(Volume(KEY + 1, 1, 0, [BLANK], [Zeros(KEY + 1)], [], []), [], map[])

  // ---------- the content of an entry ----------

  ghost predicate Readable(v: Volume, ids: seq<nat>) {
    && |v.data| == |v.headers|
    && (forall i :: 0 <= i < |ids| ==>
      ids[i] < |v.headers| && 0 <= v.headers[ids[i]].size <= v.seg && |v.data[ids[i]]| == v.seg)
  }

  ghost function ElemsOf(v: Volume, ids: seq<nat>): (es: Elems)
    requires Readable(v, ids)
    ensures Shaped(v.seg, es)
    decreases |ids|
  {
    if ids == [] then Nil
    else Cons(v.headers[ids[0]].size, v.data[ids[0]], ElemsOf(v, ids[1..]))
  }

  lemma {:induction false} ChainReadable(fs: FileSystem, h: nat, j: nat)
    requires h in fs.elems && j <= |fs.elems[h]|
    ensures Readable(fs.vol, fs.elems[h][j..])
  {
    assert ChainInv(fs.vol.headers, fs.vol.seg, h, fs.elems[h]);
  }

  ghost function ChainOf(fs: FileSystem, h: nat): (c: Chain)
    requires h in fs.elems
    ensures Wellformed(fs.vol.seg, c)
  {
    ChainReadable(fs, h, 0);
    assert ChainInv(fs.vol.headers, fs.vol.seg, h, fs.elems[h]);
    Chain(SegSize(fs.vol.headers[h]), fs.vol.data[h], ElemsOf(fs.vol, fs.elems[h][0..]))
  }

  /** Elements read the same where their sizes and bytes are the same. */
  lemma {:induction false} SameElems(v: Volume, w: Volume, ids: seq<nat>)
    requires Readable(v, ids) && Readable(w, ids) && v.seg == w.seg
    requires forall i :: 0 <= i < |ids| ==>
      w.headers[ids[i]].size == v.headers[ids[i]].size && w.data[ids[i]] == v.data[ids[i]]
    ensures ElemsOf(w, ids) == ElemsOf(v, ids)
    decreases |ids|
  {
    if ids != [] {
      SameElems(v, w, ids[1..]);
    }
  }

  // ---------- steps on one cluster ----------

  /** evfs_view_set_element_data_seg_size or evfs_view_set_head_data_seg_size, and
      evfs_view_write_userdata, on one cluster. */
  function Store(fs: Fs, id: nat, size: int, bytes: seq<byte>): Fs
    requires id < |fs.vol.headers| == |fs.vol.data|
  {
    fs.(vol := fs.vol.(headers := fs.vol.headers[id := fs.vol.headers[id].(size := size)],
                       data := fs.vol.data[id := bytes]))
  }

  ghost predicate SameCluster(v: Volume, w: Volume, id: nat) {
    && id < |v.headers| && id < |w.headers| && id < |v.data| && id < |w.data|
    && w.headers[id].size == v.headers[id].size && w.data[id] == v.data[id]
  }

  lemma {:induction false} SizedChain(hs: seq<Header>, seg: nat, h: nat, ids: seq<nat>, id: nat, size: int)
    requires ChainInv(hs, seg, h, ids) && id < |hs|
    requires if hs[id].size < 0 then -TOP_BIT <= size < 0 else 0 <= size <= seg
    ensures ChainInv(hs[id := hs[id].(size := size)], seg, h, ids)
  {
  }

  lemma {:induction false} StoredSound(v: Volume, id: nat, size: int, bytes: seq<byte>)
    requires Sound(v) && id in v.busy && |bytes| == v.seg
    ensures Sound(v.(headers := v.headers[id := v.headers[id].(size := size)], data := v.data[id := bytes]))
  {
  }

  /** Changing the size and the bytes of a busy cluster without changing what kind of cluster
      it is. */
  lemma {:induction false} StoreInv(fs: FileSystem, id: nat, size: int, bytes: seq<byte>)
    requires id in fs.vol.busy && |bytes| == fs.vol.seg
    requires if fs.vol.headers[id].size < 0 then -TOP_BIT <= size < 0 else 0 <= size <= fs.vol.seg
    ensures FsInv(Store(fs, id, size, bytes))
  {
    var hs, seg := fs.vol.headers, fs.vol.seg;
    StoredSound(fs.vol, id, size, bytes);
    forall h | h in fs.elems ensures ChainInv(hs[id := hs[id].(size := size)], seg, h, fs.elems[h]) {
      SizedChain(hs, seg, h, fs.elems[h], id, size);
    }
    forall x | x in fs.vol.busy ensures HasOwner(hs[id := hs[id].(size := size)], fs.elems, x) {
      assert HasOwner(hs, fs.elems, x);
    }
    forall h | h in fs.elems ensures ChainBusy(fs.vol.busy, h, fs.elems[h]) {
    }
  }

  lemma {:induction false} StoreOthers(fs: FileSystem, id: nat, size: int, bytes: seq<byte>, x: nat)
    requires id in fs.vol.busy && x in fs.vol.busy && x != id
    ensures SameCluster(fs.vol, Store(fs, id, size, bytes).vol, x)
  {
  }

  // ---------- growing a chain ----------

  function Last(h: nat, ids: seq<nat>): nat { if ids == [] then h else ids[|ids| - 1] }

  /** The headers after cluster `id` became the last element of the entry `h`. */
  function Linked(hs: seq<Header>, h: nat, ids: seq<nat>, id: nat): seq<Header>
    requires id < |hs| && Last(h, ids) < |hs|
  {
    var hs' := hs[id := Header(0, 0, h)];
    hs'[Last(h, ids) := hs'[Last(h, ids)].(next := id)]
  }

  lemma {:induction false} LinkedChain(hs: seq<Header>, seg: nat, h: nat, ids: seq<nat>, id: nat)
    requires ChainInv(hs, seg, h, ids) && 0 < id < |hs| && id != h && id !in ids
    ensures Last(h, ids) < |hs| && ChainInv(Linked(hs, h, ids, id), seg, h, ids + [id])
  {
    var hs', ids' := Linked(hs, h, ids, id), ids + [id];
    assert Last(h, ids) != id;
    forall i | 0 <= i < |ids'|
      ensures 0 < ids'[i] < |hs| && ElemOk(hs'[ids'[i]], h, seg) && hs'[ids'[i]].next == Next(ids', i)
    {
      if i < |ids| - 1 {
        assert ids[i] != ids[|ids| - 1];
      }
    }
  }

  /** The other chains do not notice. */
  lemma {:induction false} LinkedOther(hs: seq<Header>, seg: nat, h: nat, ids: seq<nat>, id: nat, g: nat,
                                       others: seq<nat>)
    requires ChainInv(hs, seg, h, ids) && id < |hs| && g != h && ChainInv(hs, seg, g, others)
    requires id != g && id !in others
    ensures Last(h, ids) < |hs| && ChainInv(Linked(hs, h, ids, id), seg, g, others)
  {
    var hs' := Linked(hs, h, ids, id);
    assert hs[Last(h, ids)].head == h;
    forall i | 0 <= i < |others| ensures hs'[others[i]] == hs[others[i]] {
    }
  }

  lemma {:induction false} LastInside(fs: FileSystem, h: nat, w: SoundVolume, ids: seq<nat>)
    requires h in fs.elems && Grown(fs.vol, w, ids) && ids != []
    ensures 0 < ids[0] < |w.headers| && Last(h, fs.elems[h]) < |w.headers|
  {
    assert ids[0] in ids;
    assert ChainInv(fs.vol.headers, fs.vol.seg, h, fs.elems[h]);
  }

  lemma {:induction false} SoundHeaders(v: Volume, hs: seq<Header>)
    requires Sound(v) && |hs| == |v.headers|
    requires forall id :: id in v.idle ==> hs[id] == v.headers[id]
    ensures Sound(v.(headers := hs))
  {
  }

  /** Acquiring clusters does not disturb the entries. */
  lemma {:induction false} GrownChain(fs: FileSystem, w: SoundVolume, ids: seq<nat>, h: nat)
    requires h in fs.elems && Grown(fs.vol, w, ids)
    ensures ChainInv(w.headers, w.seg, h, fs.elems[h])
  {
    var es := fs.elems[h];
    assert ChainInv(fs.vol.headers, fs.vol.seg, h, es);
    assert ChainBusy(fs.vol.busy, h, es);
  }

  lemma {:induction false} GrownChainBusy(fs: FileSystem, w: SoundVolume, ids: seq<nat>, h: nat)
    requires h in fs.elems && Grown(fs.vol, w, ids)
    ensures ChainBusy(w.busy, h, fs.elems[h])
  {
    assert ChainBusy(fs.vol.busy, h, fs.elems[h]);
  }

  lemma {:induction false} GrownInv(fs: FileSystem, w: SoundVolume)
    requires Grown(fs.vol, w, [])
    ensures FsInv(fs.(vol := w))
  {
    forall h | h in fs.elems ensures ChainInv(w.headers, w.seg, h, fs.elems[h]) {
      GrownChain(fs, w, [], h);
    }
    forall h | h in fs.elems ensures ChainBusy(w.busy, h, fs.elems[h]) {
      GrownChainBusy(fs, w, [], h);
    }
    forall id | id in w.busy ensures HasOwner(w.headers, fs.elems, id) {
      assert HasOwner(fs.vol.headers, fs.elems, id);
    }
  }

  lemma {:induction false} FreshIsForeign(fs: FileSystem, w: SoundVolume, ids: seq<nat>, id: nat, h: nat)
    requires Grown(fs.vol, w, ids) && id in ids && h in fs.elems
    ensures id != h && id !in fs.elems[h]
  {
    assert id !in fs.vol.busy;
    assert ChainBusy(fs.vol.busy, h, fs.elems[h]);
  }

  lemma {:induction false} AddedChains(fs: FileSystem, h: nat, w: SoundVolume, id: nat)
    requires h in fs.elems && Grown(fs.vol, w, [id])
    ensures 0 < id < |w.headers| && Last(h, fs.elems[h]) < |w.headers|
    ensures Chains(Linked(w.headers, h, fs.elems[h], id), w.seg, fs.elems[h := fs.elems[h] + [id]])
  {
    var es, elems' := fs.elems[h], fs.elems[h := fs.elems[h] + [id]];
    assert id in [id];
    LastInside(fs, h, w, [id]);
    GrownChain(fs, w, [id], h);
    forall g | g in elems' ensures ChainInv(Linked(w.headers, h, es, id), w.seg, g, elems'[g]) {
      FreshIsForeign(fs, w, [id], id, g);
      if g == h {
        LinkedChain(w.headers, w.seg, h, es, id);
      } else {
        GrownChain(fs, w, [id], g);
        LinkedOther(w.headers, w.seg, h, es, id, g, fs.elems[g]);
      }
    }
  }

  lemma {:induction false} AddedOwned(fs: FileSystem, h: nat, w: SoundVolume, id: nat)
    requires h in fs.elems && Grown(fs.vol, w, [id])
    requires 0 < id < |w.headers| && Last(h, fs.elems[h]) < |w.headers|
    ensures Owned(Linked(w.headers, h, fs.elems[h], id), w.busy, fs.elems[h := fs.elems[h] + [id]])
  {
    var es, elems' := fs.elems[h], fs.elems[h := fs.elems[h] + [id]];
    var hs := Linked(w.headers, h, es, id);
    assert id in [id];
    forall x | x in w.busy ensures HasOwner(hs, elems', x) {
      LinkedHead(w.headers, h, es, id, x);
      if x == id {
        assert (es + [id])[|es|] == id;
      } else {
        assert HasOwner(fs.vol.headers, fs.elems, x);
      }
    }
    forall g | g in elems' ensures ChainBusy(w.busy, g, elems'[g]) {
      GrownChainBusy(fs, w, [id], g);
    }
  }

  lemma {:induction false} LinkedHead(hs: seq<Header>, h: nat, ids: seq<nat>, id: nat, x: nat)
    requires id < |hs| && Last(h, ids) < |hs| && x < |hs|
    ensures Linked(hs, h, ids, id)[x].head == if x == id then h else hs[x].head
    ensures x != id ==> Linked(hs, h, ids, id)[x].size == hs[x].size
  {
  }

  lemma {:induction false} AddedIndexed(heads: seq<nat>, elems: map<nat, seq<nat>>, h: nat, ids: seq<nat>)
    requires Indexed(heads, elems) && h in elems
    ensures Indexed(heads, elems[h := ids])
  {
  }

  lemma {:induction false} AddedSound(fs: FileSystem, h: nat, w: SoundVolume, id: nat)
    requires h in fs.elems && Grown(fs.vol, w, [id])
    requires id < |w.headers| && Last(h, fs.elems[h]) < |w.headers|
    ensures Sound(w.(headers := Linked(w.headers, h, fs.elems[h], id)))
  {
    assert id in [id] && id in w.busy;
    assert ChainBusy(fs.vol.busy, h, fs.elems[h]);
    SoundHeaders(w, Linked(w.headers, h, fs.elems[h], id));
  }

  /** The file system after cluster `id` of `w` became the last element of `h`. */
  function Added(fs: Fs, h: nat, w: SoundVolume, id: nat): Fs
    requires h in fs.elems && id < |w.headers| && Last(h, fs.elems[h]) < |w.headers|
  {
    Fs(w.(headers := Linked(w.headers, h, fs.elems[h], id)), fs.heads, fs.elems[h := fs.elems[h] + [id]])
  }

  lemma {:induction false} AddedInv(fs: FileSystem, h: nat, w: SoundVolume, id: nat)
    requires h in fs.elems && Grown(fs.vol, w, [id])
    ensures id < |w.headers| && Last(h, fs.elems[h]) < |w.headers| && FsInv(Added(fs, h, w, id))
  {
    AddedChains(fs, h, w, id);
    AddedOwned(fs, h, w, id);
    AddedSound(fs, h, w, id);
    AddedIndexed(fs.heads, fs.elems, h, fs.elems[h] + [id]);
  }

  /** __evfs_entries_alloc_idle_elements_for_head for one cluster: a new last element, or
      none if no cluster is to be had. */
  function AddElement(fs: FileSystem, h: nat): FileSystem
    requires h in fs.elems
  {
    AcquireMoreAllOrNothing(fs.vol, 1);
    var r := AcquireMore(fs.vol, 1);
    var w, ids := r.v, r.ids;
    if ids == [] then
      GrownInv(fs, w);
      fs.(vol := w)
    else
      assert ids == [ids[0]];
      AddedInv(fs, h, w, ids[0]);
      Added(fs, h, w, ids[0])
  }

  // ---------- what an operation leaves alone ----------

  /** The sizes and bytes of the busy clusters but some. */
  ghost function Clusters(v: Volume, except: seq<nat>): map<nat, (int, seq<byte>)> {
    map id | id in v.busy && id < |v.headers| && id < |v.data| && id !in except :: (v.headers[id].size, v.data[id])
  }

  /** Everything but the elements of one entry from some element on. `space` counts the
      elements of the entry and the clusters that can still be had. */
  datatype Rest = Rest(
    heads: seq<nat>, seg: nat, space: nat,
    others: map<nat, seq<nat>>, front: seq<nat>, clusters: map<nat, (int, seq<byte>)>)

  /** The elements that the entry `h` has or can still get. */
  function Space(fs: Fs, h: nat): nat
    requires h in fs.elems
  {
    Capacity(fs.vol) + |fs.elems[h]|
  }

  ghost function Outside(fs: Fs, h: nat, j: nat): Rest
    requires h in fs.elems && j <= |fs.elems[h]|
  {
    Rest(fs.heads, fs.vol.seg, Space(fs, h), fs.elems - {h}, fs.elems[h][..j], Clusters(fs.vol, fs.elems[h][j..]))
  }

  lemma {:induction false} ClustersLess(v: Volume, x: nat, ids: seq<nat>)
    ensures Clusters(v, [x] + ids) == Clusters(v, ids) - {x}
  {
  }

  /** What is outside more elements is part of what is outside fewer. */
  lemma {:induction false} OutsideLess(fs: Fs, h: nat, j: nat)
    requires h in fs.elems && j < |fs.elems[h]|
    ensures var more := Outside(fs, h, j + 1);
      Outside(fs, h, j) == more.(front := more.front[..j], clusters := more.clusters - {more.front[j]})
  {
    var ids := fs.elems[h];
    assert ids[j..] == [ids[j]] + ids[j + 1..];
    assert ids[..j + 1][..j] == ids[..j];
    ClustersLess(fs.vol, ids[j], ids[j + 1..]);
  }

  lemma {:induction false} KeepLess(a: Fs, b: Fs, h: nat, j: nat)
    requires h in a.elems && h in b.elems && j < |a.elems[h]| && j < |b.elems[h]|
    requires Outside(a, h, j + 1) == Outside(b, h, j + 1)
    ensures Outside(a, h, j) == Outside(b, h, j)
  {
    OutsideLess(a, h, j);
    OutsideLess(b, h, j);
  }

  /** A cluster of another entry is outside the elements of `h`. */
  lemma {:induction false} SameOutside(a: FileSystem, b: Fs, h: nat, j: nat, id: nat)
    requires h in a.elems && h in b.elems && j <= |a.elems[h]| && j <= |b.elems[h]|
    requires Outside(a, h, j) == Outside(b, h, j)
    requires id in a.vol.busy && a.vol.headers[id].head != h
    ensures SameCluster(a.vol, b.vol, id)
  {
    assert ChainInv(a.vol.headers, a.vol.seg, h, a.elems[h]);
    assert id !in a.elems[h][j..];
    assert id in Outside(a, h, j).clusters;
    assert Outside(a, h, j).clusters[id] == Outside(b, h, j).clusters[id];
  }

  /** Other entries read the same when everything outside the elements of `h` is the same. */
  lemma {:induction false} OtherChains(a: FileSystem, b: FileSystem, h: nat, j: nat, g: nat)
    requires h in a.elems && h in b.elems && j <= |a.elems[h]| && j <= |b.elems[h]|
    requires Outside(a, h, j) == Outside(b, h, j) && g in a.elems && g != h
    ensures g in b.elems && b.elems[g] == a.elems[g] && ChainOf(b, g) == ChainOf(a, g)
  {
    assert g in Outside(a, h, j).others && (a.elems - {h})[g] == (b.elems - {h})[g];
    var ids := a.elems[g];
    assert ChainInv(a.vol.headers, a.vol.seg, g, ids);
    SameOutside(a, b, h, j, g);
    forall i | 0 <= i < |ids| ensures SameCluster(a.vol, b.vol, ids[i]) {
      SameOutside(a, b, h, j, ids[i]);
    }
    ChainReadable(a, g, 0);
    ChainReadable(b, g, 0);
    SameElems(a.vol, b.vol, ids[0..]);
  }

  lemma {:induction false} AddedClusters(v: SoundVolume, w: SoundVolume, id: nat, h: nat, ids: seq<nat>)
    requires Grown(v, w, [id]) && id < |w.headers| && Last(h, ids) < |w.headers|
    ensures Clusters(w.(headers := Linked(w.headers, h, ids, id)), [id]) == Clusters(v, [])
  {
    var w' := w.(headers := Linked(w.headers, h, ids, id));
    assert id in [id];
    forall x | x in v.busy ensures w'.headers[x].size == v.headers[x].size && w'.data[x] == v.data[x] {
      LinkedHead(w.headers, h, ids, id, x);
    }
  }

  lemma {:induction false} AddedOutside(fs: Fs, h: nat, w: SoundVolume, id: nat, n: nat)
    requires h in fs.elems && Sound(fs.vol) && Grown(fs.vol, w, [id]) && n == |fs.elems[h]|
    requires id < |w.headers| && Last(h, fs.elems[h]) < |w.headers| && Capacity(w) + 1 == Capacity(fs.vol)
    ensures Outside(Added(fs, h, w, id), h, n) == Outside(fs, h, n)
  {
    var fs' := Added(fs, h, w, id);
    assert fs'.elems[h][n..] == [id] && fs.elems[h][n..] == [] && fs'.elems[h][..n] == fs.elems[h][..n];
    assert fs'.elems - {h} == fs.elems - {h};
    AddedClusters(fs.vol, w, id, h, fs.elems[h]);
  }

  lemma {:induction false} GrownClusters(v: SoundVolume, w: SoundVolume)
    requires Grown(v, w, [])
    ensures Clusters(w, []) == Clusters(v, [])
  {
  }

  lemma {:induction false} AddElementKeeps(fs: FileSystem, h: nat, n: nat)
    requires h in fs.elems && n == |fs.elems[h]|
    ensures var fs' := AddElement(fs, h);
      && h in fs'.elems && n <= |fs'.elems[h]| <= n + 1 && Outside(fs', h, n) == Outside(fs, h, n)
      && (|fs'.elems[h]| == n <==> Capacity(fs.vol) == 0)
  {
    AcquireMoreAllOrNothing(fs.vol, 1);
    AcquireMoreCapacity(fs.vol, 1);
    var r := AcquireMore(fs.vol, 1);
    var w, ids := r.v, r.ids;
    if ids == [] {
      GrownClusters(fs.vol, w);
      assert fs.elems[h][n..] == [];
    } else {
      assert ids == [ids[0]];
      AddedInv(fs, h, w, ids[0]);
      AddedOutside(fs, h, w, ids[0], n);
    }
  }

  /** An element as it is acquired: no bytes in use, and all of them zero. */
  ghost predicate IsNew(v: Volume, id: nat) {
    id < |v.headers| && id < |v.data| && v.headers[id].size == 0 && v.data[id] == Zeros(v.seg)
  }

  lemma {:induction false} AddElementNew(fs: FileSystem, h: nat, n: nat)
    requires h in fs.elems && n == |fs.elems[h]|
    ensures var fs' := AddElement(fs, h);
      h in fs'.elems && (|fs'.elems[h]| > n ==> IsNew(fs'.vol, fs'.elems[h][n]))
  {
    AcquireMoreAllOrNothing(fs.vol, 1);
    var r := AcquireMore(fs.vol, 1);
    var w, ids := r.v, r.ids;
    if ids != [] {
      assert ids == [ids[0]] && ids[0] in [ids[0]];
      LastInside(fs, h, w, ids);
      FreshIsForeign(fs, w, ids, ids[0], h);
      LinkedHead(w.headers, h, fs.elems[h], ids[0], ids[0]);
    }
  }

  // ---------- writing elements ----------

  /** The elements of `h` from the `j`-th on. */
  ghost function ElemsFrom(fs: FileSystem, h: nat, j: nat): (es: Elems)
    requires h in fs.elems && j <= |fs.elems[h]|
    ensures Shaped(fs.vol.seg, es)
  {
    ChainReadable(fs, h, j);
    ElemsOf(fs.vol, fs.elems[h][j..])
  }

  lemma {:induction false} ElemsFromStep(fs: FileSystem, h: nat, j: nat)
    requires h in fs.elems && j < |fs.elems[h]|
    ensures var id := fs.elems[h][j];
      && id < |fs.vol.headers| && 0 <= fs.vol.headers[id].size <= fs.vol.seg && |fs.vol.data[id]| == fs.vol.seg
      && id in fs.vol.busy
      && ElemsFrom(fs, h, j) == Cons(fs.vol.headers[id].size, fs.vol.data[id], ElemsFrom(fs, h, j + 1))
  {
    assert ChainInv(fs.vol.headers, fs.vol.seg, h, fs.elems[h]);
    ChainReadable(fs, h, j);
    assert fs.elems[h][j..][1..] == fs.elems[h][j + 1..];
  }

  /** The cluster of the `j`-th element. */
  lemma {:induction false} ElemAt(fs: FileSystem, h: nat, j: nat)
    requires h in fs.elems && j < |fs.elems[h]|
    ensures var id := fs.elems[h][j];
      && 0 < id < |fs.vol.headers| == |fs.vol.data| && 0 <= fs.vol.headers[id].size <= fs.vol.seg
      && |fs.vol.data[id]| == fs.vol.seg && fs.vol.headers[id].head == h > 0
  {
    assert ChainInv(fs.vol.headers, fs.vol.seg, h, fs.elems[h]);
  }

  lemma {:induction false} ElemsFromEnd(fs: FileSystem, h: nat, j: nat)
    requires h in fs.elems && j == |fs.elems[h]|
    ensures ElemsFrom(fs, h, j) == Nil
  {
    assert fs.elems[h][j..] == [];
  }

  function StoreElem(fs: FileSystem, h: nat, j: nat, size: int, bytes: seq<byte>): FileSystem
    requires h in fs.elems && j < |fs.elems[h]| && |bytes| == fs.vol.seg && 0 <= size <= fs.vol.seg
  {
    ElemsFromStep(fs, h, j);
    StoreInv(fs, fs.elems[h][j], size, bytes);
    Store(fs, fs.elems[h][j], size, bytes)
  }

  lemma {:induction false} StoredClusters(v: Volume, id: nat, size: int, bytes: seq<byte>, ids: seq<nat>)
    requires id in ids && id < |v.headers| && id < |v.data|
    ensures var hs := v.headers[id := v.headers[id].(size := size)];
      Clusters(v.(headers := hs, data := v.data[id := bytes]), ids) == Clusters(v, ids)
  {
  }

  lemma {:induction false} StoreElemKeeps(fs: FileSystem, h: nat, j: nat, size: int, bytes: seq<byte>)
    requires h in fs.elems && j < |fs.elems[h]| && |bytes| == fs.vol.seg && 0 <= size <= fs.vol.seg
    ensures var fs' := StoreElem(fs, h, j, size, bytes);
      fs'.elems == fs.elems && Outside(fs', h, j) == Outside(fs, h, j)
  {
    ElemsFromStep(fs, h, j);
    assert fs.elems[h][j..][0] == fs.elems[h][j];
    StoredClusters(fs.vol, fs.elems[h][j], size, bytes, fs.elems[h][j..]);
  }

  lemma {:induction false} StoreElemElems(fs: FileSystem, h: nat, j: nat, size: int, bytes: seq<byte>)
    requires h in fs.elems && j < |fs.elems[h]| && |bytes| == fs.vol.seg && 0 <= size <= fs.vol.seg
    ensures var fs' := StoreElem(fs, h, j, size, bytes);
      fs'.elems == fs.elems && ElemsFrom(fs', h, j) == Cons(size, bytes, ElemsFrom(fs, h, j + 1))
  {
    ElemsFromStep(fs, h, j);
    var ids, fs' := fs.elems[h], StoreElem(fs, h, j, size, bytes);
    ElemsFromStep(fs', h, j);
    ChainReadable(fs, h, j + 1);
    ChainReadable(fs', h, j + 1);
    assert ChainInv(fs.vol.headers, fs.vol.seg, h, ids);
    var rest := ids[j + 1..];
    forall i | 0 <= i < |rest| ensures SameCluster(fs.vol, fs'.vol, rest[i]) {
      StoreOthers(fs, ids[j], size, bytes, rest[i]);
    }
    SameElems(fs.vol, fs'.vol, rest);
  }
}
