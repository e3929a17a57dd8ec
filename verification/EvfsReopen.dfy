/** Closing a file and opening it again: everything comes back from the disk. */
module EvfsReopen {
  import opened Arithmetic
  import opened Bytes
  import opened EvfsVolume
  import opened EvfsFormat
  import opened EvfsCache
  import opened EvfsEntries
  import opened EvfsLoad
  import opened EvfsFiles
  import opened EvfsRuns

  /** The clusters that look busy, as recognising puts them on the busy list. */
  function BusyIds(hs: seq<Header>, n: nat): seq<nat>
    requires n <= |hs|
  {
    if n <= 1 then []
    else if LooksBusy(hs[n - 1]) then BusyIds(hs, n - 1) + [n - 1]
    else BusyIds(hs, n - 1)
  }

  lemma {:induction false} BusyIdsMembers(hs: seq<Header>, n: nat)
    requires n <= |hs|
    ensures NoDup(BusyIds(hs, n))
    ensures forall x :: x in BusyIds(hs, n) <==> 1 <= x < n && LooksBusy(hs[x])
  {
    if n > 1 {
      BusyIdsMembers(hs, n - 1);
    }
  }

  /** The file system that loading makes of headers and data. */
  function Opened(v: Volume): Fs {
    var p := Load(v.headers);
    Fs(v.(idle := p.idle, busy := BusyIds(v.headers, |v.headers|)), p.heads, p.elems)
  }

  lemma {:induction false} CountedOnce(hs: seq<Header>, s: seq<nat>)
    requires hs != [] && (s == Load(hs).idle || s == Load(hs).heads)
    ensures NoDup(s)
  {
    forall x: nat ensures Occ(s, x) <= 1 {
      LoadConserves(hs, x);
    }
    OnceIsNoDup(s);
  }

  lemma {:induction false} OpenedMembers(fs: FileSystem)
    ensures var o := Opened(fs.vol);
      && o.elems == fs.elems && NoDup(o.heads) && NoDup(o.vol.idle) && NoDup(o.vol.busy)
      && (forall h :: h in o.heads <==> h in fs.heads)
      && (forall id :: id in o.vol.idle <==> id in fs.vol.idle)
      && (forall id :: id in o.vol.busy <==> id in fs.vol.busy)
  {
    var hs := fs.vol.headers;
    LoadRebuilds(fs);
    CountedOnce(hs, Load(hs).idle);
    CountedOnce(hs, Load(hs).heads);
    BusyIdsMembers(hs, |hs|);
    forall id ensures id in BusyIds(hs, |hs|) <==> id in fs.vol.busy {
      if 1 <= id < |hs| {
        HeadersTell(fs, id);
      }
    }
  }

  lemma {:induction false} SoundAgain(v: SoundVolume, idle: seq<nat>, busy: seq<nat>)
    requires NoDup(idle) && NoDup(busy)
    requires (forall id :: id in idle <==> id in v.idle) && (forall id :: id in busy <==> id in v.busy)
    ensures Sound(v.(idle := idle, busy := busy))
  {
  }

  lemma {:induction false} OwnedAgain(hs: seq<Header>, busy: seq<nat>, busy': seq<nat>, elems: map<nat, seq<nat>>)
    requires Owned(hs, busy, elems) && forall id :: id in busy' <==> id in busy
    ensures Owned(hs, busy', elems)
  {
    forall h | h in elems ensures ChainBusy(busy', h, elems[h]) {
      assert ChainBusy(busy, h, elems[h]);
    }
    forall id | id in busy' ensures HasOwner(hs, elems, id) {
    }
  }

  lemma {:induction false} OpenedInv(fs: FileSystem)
    ensures FsInv(Opened(fs.vol))
  {
    OpenedMembers(fs);
    var o := Opened(fs.vol);
    SoundAgain(fs.vol, o.vol.idle, o.vol.busy);
    OwnedAgain(fs.vol.headers, fs.vol.busy, o.vol.busy, fs.elems);
  }

  /** Opening a file again gives the same entries with the same content, and as much space. */
  lemma {:induction false} OpenedHolds(fs: FileSystem, m: Model)
    requires Holds(fs, m)
    ensures FsInv(Opened(fs.vol)) && Holds(Opened(fs.vol), m)
  {
    OpenedInv(fs);
    OpenedMembers(fs);
    var o: FileSystem := Opened(fs.vol);
    SameMembers(o.vol.idle, fs.vol.idle);
    forall h | h in m.files ensures Laid(o, h, m.files[h]) {
      assert Laid(fs, h, m.files[h]);
      ChainReadable(fs, h, 0);
      ChainReadable(o, h, 0);
      SameElems(fs.vol, o.vol, fs.elems[h][0..]);
    }
  }

  // ---------- from the bytes on disk ----------

  /** Every header fits its 12 bytes while ids and clusters are 32-bit numbers. */
  lemma {:induction false} HeadersStorable(fs: FileSystem, id: nat)
    requires 1 <= id < |fs.vol.headers| <= TOP_BIT && fs.vol.seg < TOP_BIT
    ensures Storable(fs.vol.headers[id])
  {
    var hs := fs.vol.headers;
    HeadersTell(fs, id);
    if id in fs.elems {
      assert ChainInv(hs, fs.vol.seg, id, fs.elems[id]);
    } else if id in fs.vol.busy {
      var h := hs[id].head;
      assert ChainInv(hs, fs.vol.seg, h, fs.elems[h]);
      var i :| 0 <= i < |fs.elems[h]| && fs.elems[h][i] == id;
      assert hs[id].next == Next(fs.elems[h], i);
    }
  }

  /** evfs_cache_read_head_directly for every cluster behind the first. */
  method ReadHeads(disk: Disk) returns (hs: seq<Header>)
    requires forall i :: 1 <= i < |disk| ==> |disk[i]| >= HEADER
    ensures |hs| == |disk| && forall i :: 0 <= i < |hs| ==> hs[i] == if i == 0 then BLANK else DecodeHeader(disk[i])
  {
    hs := [];
    while |hs| < |disk|
      invariant |hs| <= |disk|
      invariant forall i :: 0 <= i < |hs| ==> hs[i] == if i == 0 then BLANK else DecodeHeader(disk[i])
      decreases |disk| - |hs|
    {
      hs := hs + [if hs == [] then BLANK else DecodeHeader(disk[|hs|])];
    }
  }

  /** Whether evfs_hard_open takes a file of these sizes. */
  predicate Openable(seg: nat, count: nat) {
    && HEADER + RECORD <= (HEADER + seg) * count <= MAXIMUM_FILE_SIZE
    && MINIMUM_CLUSTER_SIZE <= HEADER + seg <= MAXIMUM_CLUSTER_SIZE
  }

  /** A file that can be opened stays so when it grows exactly as long as it has no more clusters
      than go into 1 GB, which nothing in evfs_hard_expand looks at. */
  lemma {:induction false} StaysOpenableIff(seg: nat, count: nat, grow: nat)
    requires Openable(seg, count)
    ensures Openable(seg, count + grow) <==> count + grow <= MAXIMUM_FILE_SIZE / (HEADER + seg)
  {
    Distributes(HEADER + seg, count, grow);
    FitsIff(HEADER + seg, count + grow, MAXIMUM_FILE_SIZE);
  }

  /** A file of 1 GB can be opened, and after one expansion it cannot. */
  lemma {:induction false} TooLargeExample(seg: nat, count: nat, grow: nat)
    requires seg == 500 && count == 0x20_0000 && grow > 0
    ensures Openable(seg, count) && !Openable(seg, count + grow)
  {
    assert (HEADER + seg) * count == MAXIMUM_FILE_SIZE;
    StaysOpenableIff(seg, count, grow);
  }

  /** The test of evfs_hard_open on the first cluster, and the file size it is held against. */
  method CheckHard(disk: Disk, ghost f: Files) returns (legal: bool)
    requires f.Valid() && disk == f.views.disk
    ensures legal <==> Openable(f.views.seg, |f.views.headers|)
  {
    HardLegalIff(disk[0], f.views.seg, |f.views.headers|, f.views.grow);
    legal := HardLegal(disk[0], |disk[0]| * |disk|);
  }

  /** What a file system keeps on disk, read again without looking at its memory: its first
      cluster passes the test exactly when its sizes are allowed, and the others give the headers
      it had, hence the entries it had, whatever has been done to it. */
  method Reopen(disk: Disk, ghost f: Files, ghost m: Model) returns (legal: bool, hs: seq<Header>, p: Places)
    requires f.Valid() && Holds(f.State(), m) && |f.views.headers| <= TOP_BIT && f.views.seg < TOP_BIT
    requires disk == f.views.disk
    ensures legal <==> Openable(f.views.seg, |f.views.headers|)
    ensures hs == f.views.headers && p == Load(hs)
    ensures p.elems == f.elems && p.wild == []
    ensures FsInv(Opened(f.views.Vol())) && Holds(Opened(f.views.Vol()), m)
  {
    ghost var fs: FileSystem := f.State();
    legal := CheckHard(disk, f);
    hs := ReadHeads(disk);
    forall i | 1 <= i < |hs| ensures hs[i] == fs.vol.headers[i] {
      HeadersStorable(fs, i);
      HeaderRoundTrip(fs.vol.headers[i], fs.vol.data[i]);
    }
    assert hs == fs.vol.headers;
    p := LoadEntries(hs);
    LoadRebuilds(fs);
    OpenedHolds(fs, m);
  }

  // ---------- through the cache ----------

  /** A cache over the disk that the views began with, which is asked what the views have asked
      of it, shows the disk that they see. */
  method Replay(cache: Cache, asked: seq<EvfsCache.Op>, ghost start: Disk, ghost disk: Disk)
    requires cache.Valid() && cache.Logical() == start && Recorded(start, asked, disk, cache.clusterSize)
    modifies cache, cache.blocks
    ensures cache.Valid() && cache.dirty == [] && cache.disk == disk
  {
    var _ := cache.Run(asked);
    cache.FlushAll();
  }

  /** A file system over a cache: once everything is written back, the disk behind the cache
      alone gives back the entries, whatever has been done to them through the cache. */
  method CloseAndReopen(cache: Cache, asked: seq<EvfsCache.Op>, ghost f: Files, ghost m: Model)
    returns (legal: bool, hs: seq<Header>, p: Places)
    requires f.Valid() && Holds(f.State(), m) && |f.views.headers| <= TOP_BIT && f.views.seg < TOP_BIT
    requires cache.Valid() && cache.clusterSize == HEADER + f.views.seg
    requires cache.Logical() == f.views.start && asked == f.views.asked
    modifies cache, cache.blocks
    ensures f.Valid() && f.State() == old(f.State())
    ensures cache.Valid() && cache.dirty == [] && cache.disk == f.views.disk
    ensures legal <==> Openable(f.views.seg, |f.views.headers|)
    ensures hs == f.views.headers && p == Load(hs) && p.elems == f.elems && p.wild == []
    ensures FsInv(Opened(f.views.Vol())) && Holds(Opened(f.views.Vol()), m)
  {
    Replay(cache, asked, f.views.start, f.views.disk);
    legal, hs, p := Reopen(cache.disk, f, m);
  }
}
