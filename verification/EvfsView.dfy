/** The views: which clusters are idle and which are busy, and their headers, in memory and
    on disk. */
module EvfsView {
  import opened Arithmetic
  import opened Bytes
  import opened EvfsVolume
  import opened EvfsFormat
  import opened EvfsCache

  ghost predicate Formed(seg: nat, hs: seq<Header>, data: seq<seq<byte>>) {
    seg >= 16 && 1 <= |hs| == |data| && hs[0] == BLANK && forall i :: 0 <= i < |data| ==> |data[i]| == seg
  }

  /** The disk of a volume: the record, and every other cluster's header and data. */
  ghost function Image(seg: nat, first: seq<byte>, hs: seq<Header>, data: seq<seq<byte>>): (d: Disk)
    requires Formed(seg, hs, data)
    ensures |d| == |hs| && d[0] == first
    ensures forall i :: 1 <= i < |d| ==> d[i] == EncodeHeader(hs[i]) + data[i]
  {
    seq(|hs|, i requires 0 <= i < |hs| => if i == 0 then first else EncodeHeader(hs[i]) + data[i])
  }

  lemma {:induction false} HeaderOver(seg: nat, first: seq<byte>, hs: seq<Header>, data: seq<seq<byte>>, id: nat,
                                      x: Header)
    requires Formed(seg, hs, data) && 0 < id < |hs|
    ensures var d := Image(seg, first, hs, data);
      |d[id]| == HEADER + seg && Image(seg, first, hs[id := x], data) == d[id := Overlay(d[id], 0, EncodeHeader(x))]
  {
    assert Overlay(EncodeHeader(hs[id]) + data[id], 0, EncodeHeader(x)) == EncodeHeader(x) + data[id];
  }

  lemma {:induction false} DataOver(seg: nat, first: seq<byte>, hs: seq<Header>, data: seq<seq<byte>>, id: nat,
                                    off: nat, e: seq<byte>)
    requires Formed(seg, hs, data) && 0 < id < |hs| && off + |e| <= seg
    ensures var d, data' := Image(seg, first, hs, data), data[id := Overlay(data[id], off, e)];
      && Formed(seg, hs, data') && |d[id]| == HEADER + seg
      && Image(seg, first, hs, data') == d[id := Overlay(d[id], HEADER + off, e)]
  {
    assert Overlay(EncodeHeader(hs[id]) + data[id], HEADER + off, e) ==
      EncodeHeader(hs[id]) + Overlay(data[id], off, e);
  }

  lemma {:induction false} BlankOver(seg: nat, first: seq<byte>, hs: seq<Header>, data: seq<seq<byte>>, id: nat)
    requires Formed(seg, hs, data) && 0 < id < |hs|
    ensures var d, data' := Image(seg, first, hs, data), data[id := Zeros(seg)];
      && Formed(seg, hs[id := BLANK], data') && |d[id]| == HEADER + seg
      && Image(seg, first, hs[id := BLANK], data') == d[id := Overlay(d[id], 0, Zeros(HEADER + seg))]
  {
    BlankOnDisk(seg);
    assert Overlay(EncodeHeader(hs[id]) + data[id], 0, Zeros(HEADER + seg)) == Zeros(HEADER + seg);
  }

  lemma {:induction false} ExpandedOver(seg: nat, first: seq<byte>, hs: seq<Header>, data: seq<seq<byte>>, grow: nat,
                                        first': seq<byte>)
    requires Formed(seg, hs, data)
    ensures var d, hs', data' := Image(seg, first, hs, data), hs + BlankHeaders(grow), data + Blanks(grow, seg);
      && Formed(seg, hs', data')
      && Image(seg, first', hs', data') == (d + Blanks(grow, HEADER + seg))[0 := first']
  {
    BlankOnDisk(seg);
  }

  lemma {:induction false} ImageShape(seg: nat, first: seq<byte>, hs: seq<Header>, data: seq<seq<byte>>)
    requires Formed(seg, hs, data) && |first| == HEADER + seg
    ensures DiskShape(Image(seg, first, hs, data), HEADER + seg)
  {
  }

  /** The disk after the file has grown, and what it was asked for. */
  lemma {:induction false} AfterExpand(seg: nat, first: seq<byte>, hs: seq<Header>, data: seq<seq<byte>>, grow: nat,
                                       first': seq<byte>, start: Disk, asked: seq<EvfsCache.Op>)
    requires Formed(seg, hs, data) && |first| == |first'| == HEADER + seg
    requires Recorded(start, asked, Image(seg, first, hs, data), HEADER + seg)
    ensures var hs', data' := hs + BlankHeaders(grow), data + Blanks(grow, seg);
      && Formed(seg, hs', data')
      && Image(seg, first', hs', data') == (Image(seg, first, hs, data) + Blanks(grow, HEADER + seg))[0 := first']
      && Recorded(start, asked + [EvfsCache.ExpandOp(grow, first')], Image(seg, first', hs', data'), HEADER + seg)
  {
    ImageShape(seg, first, hs, data);
    ExpandedOver(seg, first, hs, data, grow, first');
    RecordOne(start, asked, Image(seg, first, hs, data), HEADER + seg, EvfsCache.ExpandOp(grow, first'));
  }

  lemma {:induction false} FileGrows(seg: nat, n: nat, grow: nat)
    ensures FileSize(seg, n + grow) == FileSize(seg, n) + FileSize(seg, grow)
  {
    Distributes(HEADER + seg, n, grow);
  }

  /** Acquiring `n` clusters from `v` on is having acquired `ids` and going on from `w`. */
  ghost predicate Continues(v: SoundVolume, n: nat, w: SoundVolume, ids: seq<nat>) {
    |ids| <= n && AcquireUpTo(v, n) == GotSome(AcquireUpTo(w, n - |ids|).v, ids + AcquireUpTo(w, n - |ids|).ids)
  }

  lemma {:induction false} ContinuesStep(v: SoundVolume, n: nat, w: SoundVolume, ids: seq<nat>)
    requires Continues(v, n, w, ids) && |ids| < n
    ensures var r := Acquire(w);
      if r.id == 0 then AcquireUpTo(v, n) == GotSome(w, ids) else Continues(v, n, r.v, ids + [r.id])
  {
    var r := Acquire(w);
    if r.id == 0 {
      assert ids + [] == ids;
    } else {
      var rest := AcquireUpTo(r.v, n - |ids| - 1).ids;
      assert ids + ([r.id] + rest) == ids + [r.id] + rest;
    }
  }

  /** The header of a head or of an element. */
  predicate InUse(x: Header) { x.size != 0 || x.head != 0 }

  function FileSize(seg: nat, n: nat): int { (HEADER + seg) * n }

  class Views {
    const seg: nat
    const grow: nat
    /** The clusters as the cache presents them, the first one also in memory. */
    var first: seq<byte>
    var disk: Disk
    /** What was on the disk at first, and what the cache has been asked to do since. */
    ghost const start: Disk
    ghost var asked: seq<EvfsCache.Op>
    var room: nat
    var headers: seq<Header>
    ghost var data: seq<seq<byte>>
    var idle: seq<nat>
    var idleCount: int
    var busy: seq<nat>
    var busyCount: int
    var fileSize: int

    ghost function Vol(): Volume
      reads this
    {
      Volume(seg, grow, room, headers, data, idle, busy)
    }

    /** The disk holds the headers that are in memory, the data, and in its first cluster the
        shape of the file; and it got there by what the cache was asked to do. */
    ghost predicate OnDisk()
      reads this
    {
      && Formed(seg, headers, data) && disk == Image(seg, first, headers, data)
      && |first| == HEADER + seg && RecordOk(first, seg, |headers|, grow)
      && Recorded(start, asked, disk, HEADER + seg)
    }

    ghost predicate Counted()
      reads this
    {
      idleCount == |idle| && busyCount == |busy| && fileSize == FileSize(seg, |headers|)
    }

    /** evfs_view_create on a formatted file: every cluster is idle. */
    constructor (seg: nat, grow: nat, room: nat, count: nat)
      requires seg >= 16 && grow > 0 && count > 0
      ensures OnDisk() && Counted() && Sound(Vol()) && busy == [] && |headers| == count
      ensures this.seg == seg && this.grow == grow && this.room == room && start == disk && asked == []
    {
      this.seg, this.grow, this.room := seg, grow, room;
      headers, data := BlankHeaders(count), Blanks(count, seg);
      idle, idleCount := Ids(1, count - 1), count - 1;
      busy, busyCount := [], 0;
      fileSize := FileSize(seg, count);
      first := Record(seg, count, grow);
      disk := [first] + Blanks(count - 1, HEADER + seg);
      start, asked := [Record(seg, count, grow)] + Blanks(count - 1, HEADER + seg), [];
      new;
      BlankOnDisk(seg);
      RecordIsOk(seg, count, grow);
      NothingRecorded(disk, HEADER + seg);
    }

    // ---------- one cluster ----------

    /** The cache is asked to do `op`. */
    ghost method Note(op: EvfsCache.Op)
      requires Recorded(start, asked, disk, HEADER + seg) && DiskShape(disk, HEADER + seg)
      requires Addresses(op, HEADER + seg, |disk|)
      modifies this`asked
      ensures asked == old(asked) + [op]
      ensures Recorded(start, asked, PlainStep(disk, HEADER + seg, op).0, HEADER + seg)
    {
      RecordOne(start, asked, disk, HEADER + seg, op);
      asked := asked + [op];
    }

    /** evfs_cache_write_head of a changed header. */
    method WriteHead(id: nat, x: Header)
      requires OnDisk() && 0 < id < |headers|
      modifies this`headers, this`disk, this`asked
      ensures OnDisk() && headers == old(headers)[id := x]
    {
      ImageShape(seg, first, headers, data);
      HeaderOver(seg, first, headers, data, id, x);
      Note(WriteOp(id, 0, EncodeHeader(x)));
      headers := headers[id := x];
      disk := PlainWrite(disk, HEADER + seg, id, 0, EncodeHeader(x));
    }

    /** evfs_view_write_userdata: how many bytes were written, all or none. */
    method WriteUserdata(id: nat, d: seq<byte>, off: nat) returns (n: nat)
      requires OnDisk() && 0 < id < |headers|
      modifies this`data, this`disk, this`asked
      ensures OnDisk()
      ensures if d != [] && InUse(headers[id]) && off + |d| <= seg
        then n == |d| && data == old(data)[id := Overlay(old(data)[id], off, d)]
        else n == 0 && data == old(data)
    {
      if d == [] || !InUse(headers[id]) || off + |d| > seg {
        return 0;
      }
      ImageShape(seg, first, headers, data);
      DataOver(seg, first, headers, data, id, off, d);
      Note(WriteOp(id, HEADER + off, d));
      data := data[id := Overlay(data[id], off, d)];
      disk := PlainWrite(disk, HEADER + seg, id, HEADER + off, d);
      n := |d|;
    }

    /** evfs_view_read_userdata: the bytes that were read, all or none. */
    method ReadUserdata(id: nat, off: nat, n: nat) returns (out: seq<byte>)
      requires OnDisk() && 0 < id < |headers|
      ensures out == if InUse(headers[id]) && off + n <= seg then data[id][off..off + n] else []
    {
      if n == 0 || !InUse(headers[id]) || off + n > seg {
        return [];
      }
      out := PlainRead(disk, HEADER + seg, id, HEADER + off, n).1;
    }

    /** The whole cluster zero, with a blank header: evfs_cache_write of a new cluster. */
    method Blank(id: nat)
      requires OnDisk() && 0 < id < |headers|
      modifies this`headers, this`data, this`disk, this`asked
      ensures OnDisk() && headers == old(headers)[id := BLANK] && data == old(data)[id := Zeros(seg)]
    {
      ImageShape(seg, first, headers, data);
      BlankOver(seg, first, headers, data, id);
      Note(WriteOp(id, 0, Zeros(HEADER + seg)));
      headers, data := headers[id := BLANK], data[id := Zeros(seg)];
      disk := PlainWrite(disk, HEADER + seg, id, 0, Zeros(HEADER + seg));
    }

    // ---------- views ----------

    /** evfs_view_expand. */
    method Expand() returns (ok: bool)
      requires OnDisk() && Counted() && Sound(Vol())
      modifies this`room, this`headers, this`data, this`idle, this`idleCount, this`fileSize, this`disk, this`asked,
               this`first
      ensures OnDisk() && Counted()
      ensures ok == (old(room) > 0)
      ensures Vol() == if ok then EvfsVolume.Expand(old(Vol())) else old(Vol())
    {
      if room == 0 {
        return false;
      }
      ok := true;
      RecordIsOk(seg, |headers| + grow, grow);
      var id := HardExpand(Record(seg, |headers| + grow, grow));
      PushIdle(id);
    }

    /** evfs_hard_expand, with the new record for the first cluster: the id of the first new
        cluster. */
    method HardExpand(record: seq<byte>) returns (id: nat)
      requires OnDisk() && fileSize == FileSize(seg, |headers|) && room > 0
      requires |record| == HEADER + seg && RecordOk(record, seg, |headers| + grow, grow)
      modifies this`room, this`headers, this`data, this`fileSize, this`disk, this`asked, this`first
      ensures OnDisk() && fileSize == FileSize(seg, |headers|) && room == old(room) - 1 && id == |old(headers)|
      ensures headers == old(headers) + BlankHeaders(grow) && data == old(data) + Blanks(grow, seg)
      ensures first == record
    {
      id := |headers|;
      FileGrows(seg, id, grow);
      Append(record);
      room, fileSize := room - 1, fileSize + FileSize(seg, grow);
    }

    /** Zeroed clusters at the end of the file, and then the new record. */
    method Append(record: seq<byte>)
      requires OnDisk() && |record| == HEADER + seg && RecordOk(record, seg, |headers| + grow, grow)
      modifies this`headers, this`data, this`disk, this`asked, this`first
      ensures OnDisk() && first == record
      ensures headers == old(headers) + BlankHeaders(grow) && data == old(data) + Blanks(grow, seg)
    {
      AfterExpand(seg, first, headers, data, grow, record, start, asked);
      asked := asked + [EvfsCache.ExpandOp(grow, record)];
      disk := disk + Blanks(grow, HEADER + seg);
      first := record;
      disk := disk[0 := first];
      headers, data := headers + BlankHeaders(grow), data + Blanks(grow, seg);
    }

    /** __evfs_view_insert_new_idle for each of the new clusters. */
    method PushIdle(first: nat)
      requires idleCount == |idle|
      modifies this`idle, this`idleCount
      ensures idle == old(idle) + Ids(first, grow) && idleCount == |idle|
    {
      for i := 0 to grow
        invariant idle == old(idle) + Ids(first, i) && idleCount == |idle|
      {
        idle := idle + [first + i];
        idleCount := idleCount + 1;
      }
    }

    /** The first idle cluster goes to the end of the busy list, zeroed. */
    method TakeFirst() returns (id: nat)
      requires OnDisk() && Counted() && Sound(Vol()) && idle != []
      modifies this`headers, this`data, this`idle, this`idleCount, this`busy, this`busyCount, this`disk, this`asked
      ensures OnDisk() && Counted() && id == old(idle)[0] && Vol() == Take(old(Vol()))
    {
      id := idle[0];
      assert id in idle;
      idle, idleCount := idle[1..], idleCount - 1;
      busy, busyCount := busy + [id], busyCount + 1;
      Blank(id);
    }

    /** evfs_view_acquire_idle: 0 stands for no cluster. */
    method AcquireIdle() returns (id: nat)
      requires OnDisk() && Counted() && Sound(Vol())
      modifies this`headers, this`data, this`idle, this`idleCount, this`busy, this`busyCount, this`disk, this`asked,
               this`room, this`fileSize, this`first
      ensures OnDisk() && Counted() && Vol() == Acquire(old(Vol())).v && id == Acquire(old(Vol())).id
    {
      ghost var v: SoundVolume := Vol();
      while idleCount <= 0
        invariant OnDisk() && Counted() && Vol() == v
        invariant v == old(Vol()) || (old(idle) == [] && old(room) > 0 && v == EvfsVolume.Expand(old(Vol())))
        decreases room
      {
        var ok := Expand();
        if !ok {
          return 0;
        }
        v := EvfsVolume.Expand(v);
      }
      id := TakeFirst();
    }

    /** evfs_view_move_to_idle. */
    method MoveToIdle(id: nat)
      requires OnDisk() && Counted() && Sound(Vol()) && id in busy
      modifies this`headers, this`idle, this`idleCount, this`busy, this`busyCount, this`disk, this`asked
      ensures OnDisk() && Counted() && Vol() == Release(old(Vol()), id)
    {
      WithoutOne(busy, id);
      busy, busyCount := Without(busy, id), busyCount - 1;
      idle, idleCount := idle + [id], idleCount + 1;
      WriteHead(id, BLANK);
    }

    /** evfs_view_acquire_idle_more: all `n` clusters, or none and the clusters that were
        taken given back. */
    method AcquireMore(n: nat) returns (ids: seq<nat>)
      requires OnDisk() && Counted() && Sound(Vol())
      modifies this`headers, this`data, this`idle, this`idleCount, this`busy, this`busyCount, this`disk, this`asked,
               this`room, this`fileSize, this`first
      ensures OnDisk() && Counted() && Vol() == EvfsVolume.AcquireMore(old(Vol()), n).v
        && ids == EvfsVolume.AcquireMore(old(Vol()), n).ids
    {
      ghost var v: SoundVolume := Vol();
      AcquireUpToGrows(v, n);
      ids := AcquireSome(n);
      if |ids| < n {
        GrownBusy(v, Vol(), ids);
        GiveBack(ids);
        ids := [];
      }
    }

    /** The first loop of evfs_view_acquire_idle_more, up to the first failure. */
    method AcquireSome(n: nat) returns (ids: seq<nat>)
      requires OnDisk() && Counted() && Sound(Vol())
      modifies this`headers, this`data, this`idle, this`idleCount, this`busy, this`busyCount, this`disk, this`asked,
               this`room, this`fileSize, this`first
      ensures OnDisk() && Counted() && Vol() == AcquireUpTo(old(Vol()), n).v && ids == AcquireUpTo(old(Vol()), n).ids
    {
      ids := [];
      ghost var start: SoundVolume := Vol();
      ghost var v := start;
      assert [] + AcquireUpTo(v, n).ids == AcquireUpTo(v, n).ids;
      while |ids| < n
        invariant OnDisk() && Counted() && Vol() == v && |ids| <= n
        invariant Continues(start, n, v, ids)
        decreases n - |ids|
      {
        ContinuesStep(start, n, v, ids);
        AcquireGrows(v);
        var id := AcquireIdle();
        if id == 0 {
          break;
        }
        v := Acquire(v).v;
        ids := ids + [id];
      }
    }

    method GiveBack(ids: seq<nat>)
      requires OnDisk() && Counted() && Sound(Vol()) && AllBusy(Vol(), ids)
      modifies this`headers, this`idle, this`idleCount, this`busy, this`busyCount, this`disk, this`asked
      ensures OnDisk() && Counted() && Vol() == ReleaseAll(old(Vol()), ids)
    {
      ghost var start: SoundVolume := Vol();
      ghost var v := start;
      for j := 0 to |ids|
        invariant OnDisk() && Counted() && Vol() == v && AllBusy(v, ids[j..])
        invariant ReleaseAll(start, ids) == ReleaseAll(v, ids[j..])
      {
        assert ids[j..][0] == ids[j] && ids[j..][1..] == ids[j + 1..];
        ReleaseLeaves(v, ids[j..]);
        MoveToIdle(ids[j]);
        v := Release(v, ids[j]);
      }
    }
  }
}
