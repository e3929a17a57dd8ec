/** The write-back LRU cache in front of the clusters on disk.

    Every operation is proved to act as the same operation on a plain disk, whose content
    (`Logical`) is the cached bytes of a cluster where it is cached and the bytes on disk
    where it is not. */
module EvfsCache {
  import opened Bytes
  import opened EvfsLru

  datatype State = Idle | Clean | Dirty

  datatype Status = Success | Einval

  /** One cache block. */
  class Block {
    var clusterId: int
    var state: State
    var data: seq<byte>

    constructor (size: nat)
      ensures clusterId == 0 && state == Idle && |data| == size
    {
      clusterId, state, data := 0, Idle, seq(size, _ => 0);
    }
  }

  // ---------- the plain disk the cache must agree with ----------

  datatype Op =
    | ReadOp(id: int, off: int, len: int)
    | WriteOp(id: int, off: int, data: seq<byte>)
    | FlushAllOp
    | FlushBlockOp(id: int)
    | ExpandOp(n: nat, record: seq<byte>)

  type Disk = seq<seq<byte>>

  predicate InCluster(size: nat, id: int, off: int, len: int) {
    id > 0 && off >= 0 && len >= 0 && off + len <= size
  }

  function PlainRead(d: Disk, size: nat, id: int, off: int, len: int): (r: (Status, seq<byte>))
    requires InCluster(size, id, off, len) ==> id < |d| && |d[id]| == size
  {
    if InCluster(size, id, off, len) then (Success, d[id][off..off + len]) else (Einval, [])
  }

  function PlainWrite(d: Disk, size: nat, id: int, off: int, data: seq<byte>): Disk
    requires InCluster(size, id, off, |data|) ==> id < |d| && |d[id]| == size
  {
    if InCluster(size, id, off, |data|) then d[id := Overlay(d[id], off, data)] else d
  }

  /** The clusters an operation names are on the disk. */
  ghost predicate Addresses(op: Op, size: nat, count: nat) {
    match op
    case ReadOp(id, off, len) => InCluster(size, id, off, len) ==> id < count
    case WriteOp(id, off, data) => InCluster(size, id, off, |data|) ==> id < count
    case ExpandOp(_, record) => count > 0 && |record| == size
    case _ => true
  }

  /** How many clusters an operation adds. */
  function Growth(op: Op): nat { if op.ExpandOp? then op.n else 0 }

  ghost predicate AllAddress(ops: seq<Op>, size: nat, count: nat)
    decreases |ops|
  {
    ops == [] || (Addresses(ops[0], size, count) && AllAddress(ops[1..], size, count + Growth(ops[0])))
  }

  ghost predicate DiskShape(d: Disk, size: nat) { forall i :: 0 <= i < |d| ==> |d[i]| == size }

  type Answer = (Status, seq<byte>)

  /** One operation on a plain disk: the disk after it and what it returns. */
  function PlainStep(d: Disk, size: nat, op: Op): (r: (Disk, Answer))
    requires DiskShape(d, size) && Addresses(op, size, |d|)
    ensures DiskShape(r.0, size) && |r.0| == |d| + Growth(op)
  {
    match op
    case ReadOp(id, off, len) => (d, PlainRead(d, size, id, off, len))
    case WriteOp(id, off, data) =>
      (PlainWrite(d, size, id, off, data), (if InCluster(size, id, off, |data|) then Success else Einval, []))
    case ExpandOp(n, record) => ((d + Blanks(n, size))[0 := record], (Success, []))
    case _ => (d, (Success, []))
  }

  /** What a run of operations leaves on a plain disk, and what they return. */
  ghost function PlainRun(d: Disk, size: nat, ops: seq<Op>): (r: (Disk, seq<Answer>))
    requires DiskShape(d, size) && AllAddress(ops, size, |d|)
    ensures DiskShape(r.0, size) && |r.1| == |ops|
    decreases |ops|
  {
    if ops == [] then (d, [])
    else
      var (next, answer) := PlainStep(d, size, ops[0]);
      var (after, answers) := PlainRun(next, size, ops[1..]);
      (after, [answer] + answers)
  }

  /** The cluster that an operation reads or writes, if it is let through. */
  function Accessed(op: Op, size: nat): (r: seq<int>)
    ensures |r| <= 1
  {
    match op
    case ReadOp(id, off, len) => if InCluster(size, id, off, len) then [id] else []
    case WriteOp(id, off, data) => if InCluster(size, id, off, |data|) then [id] else []
    case _ => []
  }

  /** The clusters that `ops` read and write, in order. */
  function Accesses(ops: seq<Op>, size: nat): seq<int> {
    if ops == [] then [] else Accesses(ops[..|ops| - 1], size) + Accessed(ops[|ops| - 1], size)
  }

  /** The order of a cache of `n` blocks, which has kept `order`, after at most one more access. */
  function Order1(n: nat, order: seq<int>, accessed: seq<int>): seq<int> {
    if accessed == [] then order else Touched(n, order, accessed[0])
  }

  lemma {:induction false} OneMoreAccess(n: nat, start: seq<int>, ops: seq<Op>, i: nat, size: nat)
    requires i < |ops|
    ensures Order1(n, LastOnes(n, Recent(start + Accesses(ops[..i], size))), Accessed(ops[i], size)) ==
            LastOnes(n, Recent(start + Accesses(ops[..i + 1], size)))
  {
    var before, a := start + Accesses(ops[..i], size), Accessed(ops[i], size);
    assert ops[..i + 1][..i] == ops[..i];
    assert start + (Accesses(ops[..i], size) + a) == before + a;
    if a == [] {
      assert before + a == before;
    } else {
      assert a == [a[0]];
      TouchedIsRecent(n, before, a[0]);
    }
  }

  /** The disk behind a cache of `n` blocks after an access to `id`: the cluster that has to make
      room is written back, if there is one. */
  ghost function MadeRoom(n: nat, order: seq<int>, id: int, disk: Disk, seen: Disk): (r: Disk)
    requires |seen| == |disk|
    ensures |r| == |disk|
  {
    seq(|disk|, i requires 0 <= i < |disk| =>
      if id !in order && |order| == n && n > 0 && i == order[0] then seen[i] else disk[i])
  }

  /** The operations `ops` account for all that is on the disk since it was `start`. */
  ghost predicate Recorded(start: Disk, ops: seq<Op>, d: Disk, size: nat) {
    match (start, ops)
    case (s, os) => DiskShape(s, size) && AllAddress(os, size, |s|) && PlainRun(s, size, os).0 == d
  }

  lemma {:induction false} RunOneMore(d: Disk, size: nat, ops: seq<Op>, op: Op)
    requires DiskShape(d, size) && AllAddress(ops, size, |d|) && Addresses(op, size, |PlainRun(d, size, ops).0|)
    ensures AllAddress(ops + [op], size, |d|)
    ensures PlainRun(d, size, ops + [op]).0 == PlainStep(PlainRun(d, size, ops).0, size, op).0
    decreases |ops|
  {
    if ops == [] {
      assert [op][1..] == [];
    } else {
      RunOneMore(PlainStep(d, size, ops[0]).0, size, ops[1..], op);
      assert (ops + [op])[1..] == ops[1..] + [op];
    }
  }

  lemma {:induction false} RecordOne(start: Disk, ops: seq<Op>, d: Disk, size: nat, op: Op)
    requires Recorded(start, ops, d, size) && DiskShape(d, size) && Addresses(op, size, |d|)
    ensures Recorded(start, ops + [op], PlainStep(d, size, op).0, size)
  {
    RunOneMore(start, size, ops, op);
  }

  lemma {:induction false} NothingRecorded(d: Disk, size: nat)
    requires DiskShape(d, size)
    ensures Recorded(d, [], d, size)
  {
  }

  /** Having run some operations with these answers, and going on from the disk `d`. */
  ghost predicate GoesOn(start: (Disk, seq<Answer>), d: Disk, size: nat, ops: seq<Op>, answers: seq<Answer>)
    requires DiskShape(d, size) && AllAddress(ops, size, |d|)
  {
    match PlainRun(d, size, ops)
    case (after, rest) => start == (after, answers + rest)
  }

  lemma {:induction false} GoesOnStep(start: (Disk, seq<Answer>), d: Disk, size: nat, ops: seq<Op>,
                                      answers: seq<Answer>)
    requires DiskShape(d, size) && AllAddress(ops, size, |d|) && ops != [] && GoesOn(start, d, size, ops, answers)
    ensures var (next, answer) := PlainStep(d, size, ops[0]);
      AllAddress(ops[1..], size, |next|) && GoesOn(start, next, size, ops[1..], answers + [answer])
  {
    var (next, answer) := PlainStep(d, size, ops[0]);
    var rest := PlainRun(next, size, ops[1..]).1;
    assert answers + ([answer] + rest) == answers + [answer] + rest;
  }

  // ---------- the cache ----------

  class Cache {
    const clusterSize: nat
    const blockNum: nat
    ghost const blocks: set<Block>
    var index: map<int, Block>
    var lru: seq<Block>
    var lruCount: int
    var dirty: seq<Block>
    var dirtyCount: int
    var idle: seq<Block>
    var idleCount: int
    var disk: Disk

    /** The lists, the index and the counters agree with each other; `out` blocks are off
        both lists because an operation is moving them. */
    ghost predicate Consistent(out: nat)
      reads this, blocks
    {
      && NoDup(lru) && NoDup(idle) && NoDup(dirty)
      && (forall b :: b in lru ==> b in blocks && b !in idle)
      && (forall b :: b in idle ==> b in blocks && b.state == Idle)
      && (forall b :: b in lru ==> b.clusterId in index && index[b.clusterId] == b)
      && (forall id :: id in index ==> index[id] in lru && index[id].clusterId == id)
      && (forall b :: b in dirty ==> b in lru && b.state == Dirty)
      && (forall b :: b in lru && b.state == Dirty ==> b in dirty)
      && lruCount == |lru| && dirtyCount == |dirty| && idleCount == |idle|
      && lruCount + idleCount + out == blockNum
    }

    /** Blocks hold whole clusters, and a clean block holds what the disk holds. */
    ghost predicate Coherent()
      reads this, blocks
    {
      && DiskShape(disk, clusterSize)
      && (forall b :: b in blocks ==> |b.data| == clusterSize)
      && (forall b :: b in lru && b in blocks ==> 0 < b.clusterId < |disk| && b.state != Idle)
      && (forall b :: b in lru && b in blocks && b.state == Clean ==> b.data == disk[b.clusterId])
    }

    ghost predicate Valid()
      reads this, blocks
    {
      Consistent(0) && Coherent()
    }

    /** Valid but for block `b`, which is in use by the current operation. */
    ghost predicate Detached(b: Block)
      reads this, blocks
    {
      Consistent(1) && Coherent() && b in blocks && b !in lru && b !in idle
    }

    /** What the file system sees: cached bytes of a cluster where it is cached, disk bytes
        where it is not. */
    ghost function Logical(): (d: Disk)
      requires forall id :: id in index ==> index[id] in blocks
      reads this, blocks
      ensures |d| == |disk|
      ensures forall i :: 0 <= i < |d| ==> d[i] == if i in index then index[i].data else disk[i]
    {
      seq(|disk|, i requires 0 <= i < |disk| && (i in index ==> index[i] in blocks) reads this, blocks =>
        if i in index then index[i].data else disk[i])
    }

    /** The cached clusters, the one used longest ago first. */
    ghost function Order(): (r: seq<int>)
      requires forall b :: b in lru ==> b in blocks
      reads this, blocks
      ensures |r| == |lru| && forall i :: 0 <= i < |r| ==> r[i] == lru[i].clusterId
    {
      seq(|lru|, i requires 0 <= i < |lru| && lru[i] in blocks reads this, blocks => lru[i].clusterId)
    }

    /** The order has every cached cluster once, and never more than there are blocks. */
    lemma {:induction false} OrderIs()
      requires Valid()
      ensures NoDup(Order()) && |Order()| <= blockNum && (idle == [] <==> |Order()| == blockNum)
      ensures forall id :: id in Order() <==> id in index
      ensures forall id :: id in Order() ==> 0 < id < |disk|
    {
      forall id | id in index ensures id in Order() {
        var i :| 0 <= i < |lru| && lru[i] == index[id];
        assert Order()[i] == id;
      }
      forall id | id in Order() ensures id in index && 0 < id < |disk| {
        var i :| 0 <= i < |lru| && Order()[i] == id;
        assert lru[i] in lru;
      }
      forall i, j | 0 <= i < j < |lru| ensures Order()[i] != Order()[j] {
        assert lru[i] in lru && lru[j] in lru;
      }
    }

    twostate lemma {:induction false} SameOrder()
      requires (forall b :: b in lru ==> b in blocks) && lru == old(lru)
      requires forall b :: b in blocks ==> old(allocated(b)) && b.clusterId == old(b.clusterId)
      ensures Order() == old(Order())
    {
      assert forall i :: 0 <= i < |lru| ==> lru[i] in lru;
    }

    constructor (size: nat, count: nat, disk: Disk)
      requires DiskShape(disk, size)
      ensures Valid() && clusterSize == size && blockNum == count && Logical() == disk && Order() == []
      ensures this.disk == disk
      ensures fresh(blocks)
    {
      var spare: seq<Block> := [];
      for i := 0 to count
        invariant |spare| == i && NoDup(spare)
        invariant forall b :: b in spare ==> fresh(b) && b.state == Idle && |b.data| == size
      {
        var b := new Block(size);
        spare := spare + [b];
      }
      clusterSize, blockNum, blocks := size, count, set b | b in spare;
      index, lru, dirty, idle := map[], [], [], spare;
      lruCount, dirtyCount, idleCount := 0, 0, count;
      this.disk := disk;
    }

    // ---------- list steps ----------

    /** Write a block back if it is dirty; the block need not be on the LRU list. */
    method FlushBlockIfDirty(b: Block)
      requires NoDup(dirty) && dirtyCount == |dirty| && (b in dirty <==> b.state == Dirty)
      requires b.state == Dirty ==> 0 <= b.clusterId < |disk|
      modifies this`disk, this`dirty, this`dirtyCount, b`state
      ensures b.state == if old(b.state) == Dirty then Clean else old(b.state)
      ensures disk == if old(b.state) == Dirty then old(disk)[b.clusterId := b.data] else old(disk)
      ensures dirty == Without(old(dirty), b) && NoDup(dirty) && dirtyCount == |dirty|
    {
      WithoutOne(dirty, b);
      if b.state == Dirty {
        disk := disk[b.clusterId := b.data];
        b.state := Clean;
        dirty := Without(dirty, b);
        dirtyCount := dirtyCount - 1;
      }
    }

    method PushDirty(b: Block)
      requires b.state == Dirty <==> b in dirty
      modifies this`dirty, this`dirtyCount, b`state
      ensures b.state == Dirty
      ensures old(b.state) == Dirty ==> dirty == old(dirty) && dirtyCount == old(dirtyCount)
      ensures old(b.state) != Dirty ==> dirty == old(dirty) + [b] && dirtyCount == old(dirtyCount) + 1
    {
      if b.state != Dirty {
        b.state := Dirty;
        dirty := dirty + [b];
        dirtyCount := dirtyCount + 1;
      }
    }

    method PopIdle() returns (b: Block)
      requires Valid() && idle != []
      modifies this`idle, this`idleCount
      ensures Detached(b) && b.state == Idle && Logical() == old(Logical()) && Order() == old(Order())
    {
      b := idle[0];
      assert idle == [b] + idle[1..];
      idle := idle[1..];
      idleCount := idleCount - 1;
      SameOrder();
    }

    /** The effect of taking `b` off the head of the LRU list and writing it back. */
    twostate predicate Evicted(b: Block)
      reads this, blocks
    {
      && b in blocks && old(lru) == [b] + lru && lruCount == old(lruCount) - 1
      && index == old(index) - {b.clusterId}
      && idle == old(idle) && idleCount == old(idleCount)
      && dirty == Without(old(dirty), b) && NoDup(dirty) && dirtyCount == |dirty|
      && b.clusterId == old(b.clusterId) && b.data == old(b.data) && b.state == Clean
      && (forall x :: x in blocks && x != b ==> old(allocated(x)) && unchanged(x))
      && (old(b.state) == Dirty ==> 0 <= b.clusterId < |old(disk)| && disk == old(disk)[b.clusterId := b.data])
      && (old(b.state) != Dirty ==> disk == old(disk))
    }

    twostate lemma {:induction false} EvictedConsistent(b: Block)
      requires old(Valid()) && Evicted(b)
      ensures Consistent(1) && b !in lru && b !in idle
    {
      assert old(lru)[0] == b && old(lru)[1..] == lru;
    }

    twostate lemma {:induction false} EvictedCoherent(b: Block)
      requires old(Valid()) && Evicted(b)
      ensures Coherent()
    {
      assert old(lru)[0] == b && old(lru)[1..] == lru;
    }

    twostate lemma {:induction false} EvictedLogical(b: Block)
      requires old(Valid()) && Evicted(b)
      ensures (forall id :: id in index ==> index[id] in blocks) && Logical() == old(Logical())
    {
      assert b in old(lru);
    }

    /** Nothing but the lists has changed in what follows. */
    twostate predicate SameIds()
      reads this, blocks
    {
      && (forall x :: x in lru ==> x in blocks) && (forall x :: x in old(lru) ==> x in blocks)
      && (forall x :: x in blocks ==> old(allocated(x)) && x.clusterId == old(x.clusterId))
    }

    twostate lemma {:induction false} ShorterOrder(b: Block)
      requires SameIds() && old(lru) != [] && b == old(lru)[0] && lru == old(lru)[1..]
      ensures old(Order()) != [] && old(Order())[0] == b.clusterId && Order() == old(Order())[1..]
    {
    }

    /** What the evicted block has is on the disk afterwards. */
    twostate lemma {:induction false} EvictedDisk(b: Block)
      requires old(Valid()) && Evicted(b)
      ensures 0 < b.clusterId < |old(disk)|
      ensures disk == old(disk)[b.clusterId := old(Logical())[b.clusterId]]
    {
      assert old(lru)[0] == b && b in old(lru);
    }

    /** Take the least recently used block off its list and its index, writing it back
        first if it is dirty. */
    method Evict() returns (b: Block)
      requires Valid() && lru != []
      modifies this`lru, this`lruCount, this`index, this`disk, this`dirty, this`dirtyCount, blocks`state
      ensures Detached(b) && b.state == Clean && b == old(lru)[0] && |disk| == old(|disk|)
      ensures Logical() == old(Logical()) && index == old(index) - {b.clusterId}
      ensures old(Order()) != [] && old(Order())[0] == b.clusterId && Order() == old(Order())[1..]
      ensures 0 < b.clusterId < |disk|
      ensures disk == old(disk)[b.clusterId := old(Logical())[b.clusterId]]
    {
      b := lru[0];
      assert b in lru;
      assert lru == [b] + lru[1..];
      lru := lru[1..];
      index := index - {b.clusterId};
      lruCount := lruCount - 1;
      FlushBlockIfDirty(b);
      EvictedConsistent(b);
      EvictedCoherent(b);
      EvictedLogical(b);
      EvictedDisk(b);
      ShorterOrder(b);
    }

    /** The effect of filling the detached block `b` with `data` for cluster `id`. */
    twostate predicate Installed(b: Block, id: int, data: seq<byte>, st: State)
      reads this, blocks
    {
      && b in blocks && 0 < id < |disk| && id !in old(index) && disk == old(disk)
      && lru == old(lru) + [b] && lruCount == old(lruCount) + 1 && index == old(index)[id := b]
      && idle == old(idle) && idleCount == old(idleCount)
      && b.clusterId == id && b.data == data && b.state == st && |data| == clusterSize
      && ((st == Clean && data == disk[id] && dirty == old(dirty) && dirtyCount == old(dirtyCount)) ||
          (st == Dirty && dirty == old(dirty) + [b] && dirtyCount == old(dirtyCount) + 1))
      && (forall x :: x in blocks && x != b ==> old(allocated(x)) && unchanged(x))
    }

    twostate lemma {:induction false} InstalledConsistent(b: Block, new id: int, new data: seq<byte>, new st: State)
      requires old(Detached(b)) && Installed(b, id, data, st)
      ensures Consistent(0)
    {
    }

    twostate lemma {:induction false} InstalledCoherent(b: Block, new id: int, new data: seq<byte>, new st: State)
      requires old(Detached(b)) && Installed(b, id, data, st)
      ensures Coherent()
    {
    }

    twostate lemma {:induction false} InstalledLogical(b: Block, new id: int, new data: seq<byte>, new st: State)
      requires old(Detached(b)) && Installed(b, id, data, st)
      ensures (forall id :: id in index ==> index[id] in blocks)
      ensures Logical() == old(Logical())[id := data]
    {
    }

    twostate lemma {:induction false} InstalledOrder(b: Block, new id: int, new data: seq<byte>, new st: State)
      requires old(Detached(b)) && Installed(b, id, data, st) && (forall x :: x in lru ==> x in blocks)
      ensures Order() == old(Order()) + [id]
    {
      assert forall i :: 0 <= i < |old(lru)| ==> old(lru)[i] in old(lru);
    }

    method FillClean(b: Block, id: int)
      requires b in blocks && 0 < id < |disk| && id !in index && |disk[id]| == clusterSize
      modifies this`lru, this`lruCount, this`index, b
      ensures Installed(b, id, disk[id], Clean)
    {
      b.data := disk[id];
      b.clusterId := id;
      b.state := Clean;
      lru := lru + [b];
      lruCount := lruCount + 1;
      index := index[id := b];
    }

    method FillDirty(b: Block, id: int, data: seq<byte>, off: nat)
      requires b in blocks && 0 < id < |disk| && id !in index && |disk[id]| == clusterSize
      requires b.state != Dirty && b !in dirty && off + |data| <= clusterSize
      modifies this`lru, this`lruCount, this`index, this`dirty, this`dirtyCount, b
      ensures Installed(b, id, Overlay(disk[id], off, data), Dirty)
    {
      b.data := disk[id];
      b.clusterId := id;
      b.data := Overlay(b.data, off, data);
      PushDirty(b);
      lru := lru + [b];
      lruCount := lruCount + 1;
      index := index[id := b];
    }

    /** Load cluster `id` into a detached block. */
    method InstallClean(b: Block, id: int)
      requires Detached(b) && 0 < id < |disk| && id !in index
      modifies this`lru, this`lruCount, this`index, b
      ensures Valid() && id in index && index[id] == b
      ensures Logical() == old(Logical()) && b.data == disk[id] && Order() == old(Order()) + [id]
    {
      FillClean(b, id);
      InstalledConsistent(b, id, disk[id], Clean);
      InstalledCoherent(b, id, disk[id], Clean);
      InstalledLogical(b, id, disk[id], Clean);
      InstalledOrder(b, id, disk[id], Clean);
    }

    /** Load cluster `id` into a detached block, change a slice of it and mark it dirty. */
    method InstallDirty(b: Block, id: int, data: seq<byte>, off: nat)
      requires Detached(b) && b.state != Dirty && 0 < id < |disk| && id !in index && off + |data| <= clusterSize
      modifies this`lru, this`lruCount, this`index, this`dirty, this`dirtyCount, b
      ensures Valid() && Logical() == PlainWrite(old(Logical()), clusterSize, id, off, data)
      ensures Order() == old(Order()) + [id]
    {
      FillDirty(b, id, data, off);
      InstalledConsistent(b, id, Overlay(disk[id], off, data), Dirty);
      InstalledCoherent(b, id, Overlay(disk[id], off, data), Dirty);
      InstalledLogical(b, id, Overlay(disk[id], off, data), Dirty);
      InstalledOrder(b, id, Overlay(disk[id], off, data), Dirty);
    }

    // ---------- reads and writes ----------

    twostate lemma {:induction false} MovedOrder(b: Block, new k: nat)
      requires SameIds() && k < |old(lru)| && old(lru)[k] == b
      requires lru == old(lru)[..k] + old(lru)[k + 1..] + [b]
      ensures Order() == old(Order())[..k] + old(Order())[k + 1..] + [b.clusterId]
    {
      var ids := old(Order())[..k] + old(Order())[k + 1..] + [b.clusterId];
      forall i | 0 <= i < |lru| ensures Order()[i] == ids[i] {
        assert lru[i] == if i < k then old(lru)[i] else if i < |lru| - 1 then old(lru)[i + 1] else b;
      }
    }

    twostate lemma {:induction false} TailOrder(b: Block)
      requires SameIds() && NoDup(old(lru)) && NoDup(old(Order())) && b in old(lru)
      requires lru == Without(old(lru), b) + [b]
      ensures Order() == Without(old(Order()), b.clusterId) + [b.clusterId]
    {
      var k: nat :| k < |old(lru)| && old(lru)[k] == b;
      WithoutAt(old(lru), k);
      WithoutAt(old(Order()), k);
      MovedOrder(b, k);
    }

    method Relink(b: Block)
      requires Valid() && b in lru
      modifies this`lru
      ensures Valid() && lru == Without(old(lru), b) + [b] && Logical() == old(Logical())
    {
      WithoutOne(lru, b);
      lru := Without(lru, b) + [b];
      assert forall x :: x in lru <==> x in old(lru);
    }

    lemma {:induction false} OrderApart()
      requires Valid()
      ensures NoDup(lru) && NoDup(Order())
    {
      OrderIs();
    }

    /** A hit moves the block to the tail of the LRU list. */
    method MoveToTail(b: Block)
      requires Valid() && b in lru
      modifies this`lru
      ensures Valid() && lru == Without(old(lru), b) + [b] && Logical() == old(Logical())
      ensures Order() == Without(old(Order()), b.clusterId) + [b.clusterId]
    {
      OrderApart();
      Relink(b);
      TailOrder(b);
    }

    /** The effect of changing the bytes of a cached block. */
    twostate predicate Rewritten(b: Block, data: seq<byte>)
      reads this, blocks
    {
      && b in old(lru) && b in blocks && |data| == clusterSize
      && lru == old(lru) && lruCount == old(lruCount) && index == old(index) && disk == old(disk)
      && idle == old(idle) && idleCount == old(idleCount)
      && b.clusterId == old(b.clusterId) && b.data == data && b.state == Dirty
      && (old(b.state) == Dirty ==> dirty == old(dirty) && dirtyCount == old(dirtyCount))
      && (old(b.state) != Dirty ==> dirty == old(dirty) + [b] && dirtyCount == old(dirtyCount) + 1)
      && (forall x :: x in blocks && x != b ==> old(allocated(x)) && unchanged(x))
    }

    twostate lemma {:induction false} RewrittenKeeps(b: Block, new data: seq<byte>)
      requires old(Valid()) && Rewritten(b, data)
      ensures Valid()
    {
    }

    twostate lemma {:induction false} RewrittenLogical(b: Block, new data: seq<byte>)
      requires old(Valid()) && Rewritten(b, data)
      ensures (forall id :: id in index ==> index[id] in blocks)
      ensures Logical() == old(Logical())[b.clusterId := data]
    {
    }

    /** Change a slice of a cached block and mark it dirty. */
    method Rewrite(b: Block, data: seq<byte>, off: nat)
      requires Valid() && b in lru && off + |data| <= clusterSize
      modifies this`dirty, this`dirtyCount, b
      ensures Valid() && Order() == old(Order()) && b.clusterId == old(b.clusterId)
      ensures Logical() == old(Logical())[b.clusterId := Overlay(old(b.data), off, data)]
    {
      ghost var full := Overlay(b.data, off, data);
      b.data := Overlay(b.data, off, data);
      PushDirty(b);
      RewrittenKeeps(b, full);
      RewrittenLogical(b, full);
      SameOrder();
    }

    method WriteHit(b: Block, data: seq<byte>, off: nat)
      requires Valid() && b in lru && off + |data| <= clusterSize
      modifies this`lru, this`dirty, this`dirtyCount, b
      ensures Valid()
      ensures Logical() == old(Logical())[old(b.clusterId) := Overlay(old(b.data), off, data)]
      ensures Order() == Without(old(Order()), old(b.clusterId)) + [old(b.clusterId)]
    {
      MoveToTail(b);
      Rewrite(b, data, off);
    }

    lemma {:induction false} HitTouches(id: int)
      requires Valid() && id in index
      ensures Touched(blockNum, Order(), id) == Without(Order(), id) + [id]
      ensures MadeRoom(blockNum, Order(), id, disk, Logical()) == disk
    {
      OrderIs();
      TouchedIs(blockNum, Order(), id);
    }

    lemma {:induction false} IdleTouches(id: int)
      requires Valid() && id !in index && idle != []
      ensures Touched(blockNum, Order(), id) == Order() + [id]
      ensures MadeRoom(blockNum, Order(), id, disk, Logical()) == disk
    {
      OrderIs();
      TouchedIs(blockNum, Order(), id);
    }

    lemma {:induction false} FullTouches(id: int)
      requires Valid() && id !in index && idle == [] && blockNum > 0
      ensures Order() != [] && 0 < Order()[0] < |disk|
      ensures Touched(blockNum, Order(), id) == Order()[1..] + [id]
      ensures MadeRoom(blockNum, Order(), id, disk, Logical()) == disk[Order()[0] := Logical()[Order()[0]]]
    {
      OrderIs();
      TouchedIs(blockNum, Order(), id);
    }

    lemma {:induction false} NoBlocks(id: int)
      requires Valid() && blockNum == 0
      ensures id !in index && Touched(blockNum, Order(), id) == Order()
      ensures MadeRoom(blockNum, Order(), id, disk, Logical()) == disk
    {
      OrderIs();
      TouchedIs(blockNum, Order(), id);
    }

    /** Free the block used longest ago for cluster `id`. */
    method EvictFor(id: int) returns (b: Block)
      requires Valid() && id !in index && idle == [] && blockNum > 0
      modifies this`lru, this`lruCount, this`index, this`disk, this`dirty, this`dirtyCount, blocks`state
      ensures Detached(b) && b.state == Clean && |disk| == old(|disk|) && Logical() == old(Logical())
      ensures Order() + [id] == Touched(blockNum, old(Order()), id) && id !in index
      ensures disk == MadeRoom(blockNum, old(Order()), id, old(disk), old(Logical()))
    {
      FullTouches(id);
      b := Evict();
    }

    /** A block with cluster `id`, from the list, from the idle ones, or in place of the oldest. */
    method Fetch(id: int) returns (b: Block)
      requires Valid() && blockNum > 0 && 0 < id < |disk|
      modifies this, blocks
      ensures Valid() && Logical() == old(Logical()) && |disk| == old(|disk|)
      ensures b in blocks && id in index && index[id] == b
      ensures Order() == Touched(blockNum, old(Order()), id)
      ensures disk == MadeRoom(blockNum, old(Order()), id, old(disk), old(Logical()))
    {
      if id in index {
        HitTouches(id);
        b := index[id];
        MoveToTail(b);
      } else if idle != [] {
        IdleTouches(id);
        b := PopIdle();
        InstallClean(b, id);
      } else {
        b := EvictFor(id);
        InstallClean(b, id);
      }
    }

    /** evfs_cache_read: the slice the plain disk would give, whatever is cached; the disk changes
        only where a block has to make room. */
    method Read(id: int, off: int, len: int) returns (status: Status, out: seq<byte>)
      requires Valid() && (InCluster(clusterSize, id, off, len) ==> id < |disk|)
      modifies this, blocks
      ensures Valid() && Logical() == old(Logical())
      ensures (status, out) == PlainRead(Logical(), clusterSize, id, off, len)
      ensures Order() == Order1(blockNum, old(Order()), Accessed(ReadOp(id, off, len), clusterSize))
      ensures disk == if InCluster(clusterSize, id, off, len)
                      then MadeRoom(blockNum, old(Order()), id, old(disk), old(Logical())) else old(disk)
    {
      if !InCluster(clusterSize, id, off, len) {
        return Einval, [];
      }
      if blockNum == 0 {
        NoBlocks(id);
        return Success, disk[id][off..off + len];
      }
      var b := Fetch(id);
      status, out := Success, b.data[off..off + len];
    }

    method WriteReplacing(id: int, data: seq<byte>, off: nat)
      requires Valid() && id !in index && idle == [] && blockNum > 0
      requires InCluster(clusterSize, id, off, |data|) && id < |disk|
      modifies this`lru, this`lruCount, this`index, this`disk, this`dirty, this`dirtyCount, blocks
      ensures Valid() && |disk| == old(|disk|)
      ensures Logical() == PlainWrite(old(Logical()), clusterSize, id, off, data)
      ensures Order() == Touched(blockNum, old(Order()), id)
      ensures disk == MadeRoom(blockNum, old(Order()), id, old(disk), old(Logical()))
    {
      var b := EvictFor(id);
      InstallDirty(b, id, data, off);
    }

    method WriteCached(id: int, data: seq<byte>, off: nat)
      requires Valid() && blockNum > 0 && InCluster(clusterSize, id, off, |data|) && id < |disk|
      modifies this, blocks
      ensures Valid() && |disk| == old(|disk|)
      ensures Logical() == PlainWrite(old(Logical()), clusterSize, id, off, data)
      ensures Order() == Touched(blockNum, old(Order()), id)
      ensures disk == MadeRoom(blockNum, old(Order()), id, old(disk), old(Logical()))
    {
      if id in index {
        HitTouches(id);
        WriteHit(index[id], data, off);
      } else if idle != [] {
        IdleTouches(id);
        var b := PopIdle();
        InstallDirty(b, id, data, off);
      } else {
        WriteReplacing(id, data, off);
      }
    }

    /** evfs_cache_write: changes the slice and nothing else; the disk changes only where a block
        has to make room, or at once if there are no blocks. */
    method Write(id: int, data: seq<byte>, off: int) returns (status: Status)
      requires Valid() && (InCluster(clusterSize, id, off, |data|) ==> id < |disk|)
      modifies this, blocks
      ensures Valid() && |disk| == old(|disk|)
      ensures Logical() == PlainWrite(old(Logical()), clusterSize, id, off, data)
      ensures status == if InCluster(clusterSize, id, off, |data|) then Success else Einval
      ensures Order() == Order1(blockNum, old(Order()), Accessed(WriteOp(id, off, data), clusterSize))
      ensures disk == if !InCluster(clusterSize, id, off, |data|) then old(disk)
                      else if blockNum == 0 then PlainWrite(old(disk), clusterSize, id, off, data)
                      else MadeRoom(blockNum, old(Order()), id, old(disk), old(Logical()))
    {
      if !InCluster(clusterSize, id, off, |data|) {
        return Einval;
      }
      status := Success;
      if blockNum == 0 {
        NoBlocks(id);
        disk := disk[id := Overlay(disk[id], off, data)];
        SameOrder();
      } else {
        WriteCached(id, data, off);
      }
    }

    // ---------- flushing ----------

    /** The effect of writing one cached block back. */
    twostate predicate WrittenBack(b: Block)
      reads this, blocks
    {
      && b in lru && b in blocks && 0 <= b.clusterId < |old(disk)|
      && lru == old(lru) && lruCount == old(lruCount) && index == old(index)
      && idle == old(idle) && idleCount == old(idleCount)
      && b.clusterId == old(b.clusterId) && b.data == old(b.data) && b.state == Clean
      && dirty == Without(old(dirty), b) && NoDup(dirty) && dirtyCount == |dirty|
      && (forall x :: x in blocks && x != b ==> old(allocated(x)) && unchanged(x))
      && disk == if old(b.state) == Dirty then old(disk)[b.clusterId := b.data] else old(disk)
    }

    twostate lemma {:induction false} WrittenBackKeeps(b: Block)
      requires old(Valid()) && WrittenBack(b)
      ensures Valid() && Logical() == old(Logical())
    {
    }

    twostate lemma {:induction false} WrittenBackDisk(b: Block)
      requires old(Valid()) && WrittenBack(b)
      ensures disk == old(disk)[b.clusterId := old(Logical())[b.clusterId]] && Order() == old(Order())
    {
      SameOrder();
    }

    /** Write back one cached block; nothing changes for the file system. */
    method FlushCached(b: Block)
      requires Valid() && b in lru
      modifies this`disk, this`dirty, this`dirtyCount, b`state
      ensures Valid() && Logical() == old(Logical()) && |disk| == old(|disk|)
      ensures dirty == Without(old(dirty), b) && Order() == old(Order()) && 0 < b.clusterId < |disk|
      ensures disk == old(disk)[b.clusterId := old(Logical())[b.clusterId]]
    {
      FlushBlockIfDirty(b);
      WrittenBackKeeps(b);
      WrittenBackDisk(b);
    }

    /** Write back every dirty block, first the one that became dirty first: afterwards the
        disk holds what the file system sees. */
    method FlushAll()
      requires Valid()
      modifies this`disk, this`dirty, this`dirtyCount, blocks`state
      ensures Valid() && Logical() == old(Logical()) && |disk| == old(|disk|)
      ensures dirty == [] && disk == Logical() && Order() == old(Order())
    {
      while dirty != []
        invariant Valid() && Logical() == old(Logical()) && |disk| == old(|disk|) && Order() == old(Order())
        decreases |dirty|
      {
        WithoutOne(dirty, dirty[0]);
        assert dirty[0] in dirty;
        FlushCached(dirty[0]);
      }
    }

    /** Write back cluster `id` and no other. */
    method FlushBlock(id: int)
      requires Valid()
      modifies this`disk, this`dirty, this`dirtyCount, blocks`state
      ensures Valid() && Logical() == old(Logical()) && Order() == old(Order())
      ensures disk == if 0 < id < |disk| then old(disk)[id := Logical()[id]] else old(disk)
    {
      if id > 0 && id in index {
        FlushCached(index[id]);
      }
    }

    // ---------- growing the file ----------

    /** evfs_hard_expand: `n` zeroed clusters more, and the record in cluster 0 rewritten. The
        cache never holds cluster 0, so both go past it. */
    method Expand(n: nat, record: seq<byte>)
      requires Valid() && |disk| > 0 && |record| == clusterSize
      modifies this`disk
      ensures Valid() && |disk| == old(|disk|) + n
      ensures Logical() == (old(Logical()) + Blanks(n, clusterSize))[0 := record]
      ensures disk == (old(disk) + Blanks(n, clusterSize))[0 := record] && Order() == old(Order())
    {
      disk := disk + Blanks(n, clusterSize);
      disk := disk[0 := record];
      SameOrder();
    }

    // ---------- whole runs ----------

    method Step(op: Op) returns (answer: Answer)
      requires Valid() && Addresses(op, clusterSize, |disk|)
      modifies this, blocks
      ensures Valid() && |disk| == old(|disk|) + Growth(op)
      ensures (Logical(), answer) == PlainStep(old(Logical()), clusterSize, op)
      ensures Order() == Order1(blockNum, old(Order()), Accessed(op, clusterSize))
    {
      answer := (Success, []);
      match op
      case ReadOp(id, off, len) =>
        var status, data := Read(id, off, len);
        answer := (status, data);
      case WriteOp(id, off, data) =>
        var status := Write(id, data, off);
        answer := (status, []);
      case FlushAllOp =>
        FlushAll();
      case FlushBlockOp(id) =>
        FlushBlock(id);
      case ExpandOp(n, record) =>
        Expand(n, record);
    }

    lemma {:induction false} FirstOrder(ops: seq<Op>)
      requires Valid()
      ensures Order() == LastOnes(blockNum, Recent(Order() + Accesses(ops[..0], clusterSize)))
    {
      OrderIs();
      RecentSelf(Order());
      assert Order() + Accesses(ops[..0], clusterSize) == Order();
    }

    /** Every run gives the answers and leaves the content that a plain disk would, and the blocks
        hold the clusters accessed last. */
    method Run(ops: seq<Op>) returns (answers: seq<Answer>)
      requires Valid() && AllAddress(ops, clusterSize, |disk|)
      modifies this, blocks
      ensures Valid() && (Logical(), answers) == PlainRun(old(Logical()), clusterSize, ops)
      ensures Order() == LastOnes(blockNum, Recent(old(Order()) + Accesses(ops, clusterSize)))
    {
      answers := [];
      ghost var first := Order();
      FirstOrder(ops);
      ghost var end := PlainRun(Logical(), clusterSize, ops);
      assert ops[0..] == ops && [] + end.1 == end.1;
      for i := 0 to |ops|
        invariant Valid() && AllAddress(ops[i..], clusterSize, |disk|)
        invariant GoesOn(end, Logical(), clusterSize, ops[i..], answers)
        invariant Order() == LastOnes(blockNum, Recent(first + Accesses(ops[..i], clusterSize)))
      {
        ghost var d := Logical();
        assert ops[i..][1..] == ops[i + 1..];
        GoesOnStep(end, d, clusterSize, ops[i..], answers);
        OneMoreAccess(blockNum, first, ops, i, clusterSize);
        var answer := Step(ops[i]);
        answers := answers + [answer];
      }
      assert answers + [] == answers && ops[..|ops|] == ops;
    }
  }
}
