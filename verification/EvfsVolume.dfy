/** The clusters of a volume as the view layer manages them: their headers, their data, and
    which are idle and which are busy. */
module EvfsVolume {
  import opened Arithmetic
  import opened Bytes

  /** The header of a cluster. A head cluster keeps the size of its entry with the top bit
      set, which makes it negative; an element keeps the number of its bytes in use. */
  datatype Header = Header(size: int, next: int, head: int)

  const BLANK := Header(0, 0, 0)

  /** `room` is how many more times the file can be expanded, by `grow` clusters each. */
  datatype Volume = Volume(
    seg: nat, grow: nat, room: nat,
    headers: seq<Header>, data: seq<seq<byte>>,
    idle: seq<nat>, busy: seq<nat>)

  /** The idle and the busy list partition the clusters behind the first one, and an idle
      cluster has a blank header. */
  ghost predicate Sound(v: Volume) {
    match v
    case Volume(seg, grow, _, headers, data, idle, busy) =>
      && grow > 0 && 1 <= |headers| == |data|
      && (forall i :: 0 <= i < |data| ==> |data[i]| == seg)
      && NoDup(idle) && NoDup(busy)
      && (forall id :: id in idle ==> 1 <= id < |headers| && id !in busy && headers[id] == BLANK)
      && (forall id :: id in busy ==> 1 <= id < |headers|)
      && (forall id :: 1 <= id < |headers| ==> id in idle || id in busy)
  }

  type SoundVolume = v: Volume | Sound(v) ghost witness Volume(0, 1, 0, [BLANK], [[]], [], [])

  /** The next `n` cluster ids from `first` on. */
  function Ids(first: nat, n: nat): (s: seq<nat>)
    ensures |s| == n && NoDup(s) && forall i :: 0 <= i < n ==> s[i] == first + i
    ensures forall id :: id in s <==> first <= id < first + n
  {
    if n == 0 then [] else Ids(first, n - 1) + [first + n - 1]
  }

  function BlankHeaders(n: nat): (b: seq<Header>)
    ensures |b| == n && forall i :: 0 <= i < n ==> b[i] == BLANK
  {
    seq(n, _ => BLANK)
  }

  lemma {:induction false} NoDupConcat<T>(s: seq<T>, t: seq<T>)
    requires NoDup(s) && NoDup(t) && forall x :: x in s ==> x !in t
    ensures NoDup(s + t)
  {
    var u := s + t;
    forall i, j | 0 <= i < j < |u| ensures u[i] != u[j] {
      if i < |s| <= j {
        assert u[i] in s && u[j] in t;
      }
    }
  }

  lemma {:induction false} FirstOfList(s: seq<nat>)
    requires NoDup(s) && s != []
    ensures s[0] in s && s[0] !in s[1..] && NoDup(s[1..])
    ensures forall x :: x in s <==> x == s[0] || x in s[1..]
  {
    assert s == [s[0]] + s[1..];
  }

  // ---------- handing out clusters ----------

  function Expanded(v: Volume): Volume
    requires v.room > 0
  {
    v.(room := v.room - 1,
       headers := v.headers + BlankHeaders(v.grow),
       data := v.data + Blanks(v.grow, v.seg),
       idle := v.idle + Ids(|v.headers|, v.grow))
  }

  lemma {:induction false} ExpandedSound(v: SoundVolume)
    requires v.room > 0
    ensures Sound(Expanded(v)) && Expanded(v).idle != []
  {
    NoDupConcat(v.idle, Ids(|v.headers|, v.grow));
    assert |Ids(|v.headers|, v.grow)| > 0;
  }

  /** evfs_view_expand: new blank clusters at the end of the file, all idle. */
  function Expand(v: SoundVolume): (w: SoundVolume)
    requires v.room > 0
    ensures w.idle != []
  {
    ExpandedSound(v);
    Expanded(v)
  }

  function Taken(v: Volume, id: nat): Volume
    requires id < |v.headers| && id < |v.data| && v.idle != []
  {
    v.(headers := v.headers[id := BLANK], data := v.data[id := Zeros(v.seg)],
       idle := v.idle[1..], busy := v.busy + [id])
  }

  lemma {:induction false} TakenSound(v: SoundVolume)
    requires v.idle != []
    ensures 0 < v.idle[0] < |v.headers| && v.idle[0] !in v.busy && Sound(Taken(v, v.idle[0]))
  {
    var id := v.idle[0];
    FirstOfList(v.idle);
    assert forall x :: x in v.busy + [id] <==> x in v.busy || x == id;
  }

  /** Hand out the first idle cluster, zeroed. */
  function Take(v: SoundVolume): SoundVolume
    requires v.idle != []
  {
    TakenSound(v);
    Taken(v, v.idle[0])
  }

  /** A volume and a cluster of it, 0 for none; or some clusters of it. */
  datatype Got = Got(v: SoundVolume, id: nat)

  datatype GotSome = GotSome(v: SoundVolume, ids: seq<nat>)

  /** evfs_view_acquire_idle: a zeroed cluster, now busy, if there is one. */
  function Acquire(v: SoundVolume): Got {
    if v.idle != [] then Got(Take(v), v.idle[0])
    else if v.room == 0 then Got(v, 0)
    else Got(Take(Expand(v)), Expand(v).idle[0])
  }

  /** `w` has the busy clusters of `v` and those of `ids`, which are zeroed. */
  ghost predicate Grown(v: Volume, w: SoundVolume, ids: seq<nat>) {
    && w.seg == v.seg && |w.headers| >= |v.headers| && NoDup(ids)
    && (forall id :: id in w.busy <==> id in v.busy || id in ids)
    && (forall id :: id in ids ==>
      0 < id < |w.headers| && id !in v.busy && w.headers[id] == BLANK && w.data[id] == Zeros(v.seg))
    && (forall i :: i in v.busy && i < |v.headers| == |v.data| ==>
      w.headers[i] == v.headers[i] && w.data[i] == v.data[i])
  }

  lemma {:induction false} TakeGrows(v: SoundVolume)
    requires v.idle != []
    ensures Grown(v, Take(v), [v.idle[0]]) && v.idle[0] > 0
  {
    TakenSound(v);
  }

  lemma {:induction false} AcquireGrows(v: SoundVolume)
    ensures var r := Acquire(v);
      if r.id == 0 then r.v == v && v.idle == [] && v.room == 0 else Grown(v, r.v, [r.id])
  {
    if v.idle != [] {
      TakeGrows(v);
    } else if v.room > 0 {
      TakeGrows(Expand(v));
    }
  }

  /** Acquire `n` clusters one after the other, stopping at the first failure. */
  function AcquireUpTo(v: SoundVolume, n: nat): (r: GotSome)
    ensures |r.ids| <= n
    decreases n
  {
    if n == 0 || Acquire(v).id == 0 then GotSome(v, [])
    else
      var r := AcquireUpTo(Acquire(v).v, n - 1);
      GotSome(r.v, [Acquire(v).id] + r.ids)
  }

  lemma {:induction false} GrownTwice(v: Volume, w: SoundVolume, u: SoundVolume, id: nat, ids: seq<nat>)
    requires Grown(v, w, [id]) && Grown(w, u, ids)
    ensures Grown(v, u, [id] + ids)
  {
    assert id in [id] && id in w.busy;
    assert forall i :: i in [id] + ids <==> i == id || i in ids;
  }

  /** No cluster is handed out twice, and a new one is zeroed. */
  lemma {:induction false} AcquireUpToGrows(v: SoundVolume, n: nat)
    ensures Grown(v, AcquireUpTo(v, n).v, AcquireUpTo(v, n).ids)
    decreases n
  {
    AcquireGrows(v);
    var first := Acquire(v);
    if n > 0 && first.id > 0 {
      var r := AcquireUpTo(first.v, n - 1);
      AcquireUpToGrows(first.v, n - 1);
      GrownTwice(v, first.v, r.v, first.id, r.ids);
    }
  }

  /** How many clusters can still be acquired. */
  function Capacity(v: Volume): nat { |v.idle| + v.grow * v.room }

  lemma {:induction false} AcquireCapacity(v: SoundVolume)
    ensures Acquire(v).id > 0 <==> Capacity(v) > 0
    ensures Acquire(v).id > 0 ==> Capacity(Acquire(v).v) == Capacity(v) - 1
  {
    AcquireGrows(v);
    if v.room > 0 {
      Distributes(v.grow, v.room, 1);
      AtLeast(v.grow, v.room);
    }
  }

  /** Exactly as many clusters are acquired as there are, and so many fewer are left. */
  lemma {:induction false} AcquireUpToCapacity(v: SoundVolume, n: nat)
    ensures |AcquireUpTo(v, n).ids| == Min(n, Capacity(v))
    ensures Capacity(AcquireUpTo(v, n).v) == Capacity(v) - Min(n, Capacity(v))
    decreases n
  {
    AcquireCapacity(v);
    if n > 0 && Acquire(v).id > 0 {
      AcquireUpToCapacity(Acquire(v).v, n - 1);
    }
  }

  /** The clusters that can still be acquired, in the order in which they will be: the idle ones, and
      those behind the end of the file. */
  function Supply(v: Volume): (s: seq<nat>)
    ensures |s| == Capacity(v)
  {
    v.idle + Ids(|v.headers|, v.grow * v.room)
  }

  lemma {:induction false} ExpandSupply(v: SoundVolume)
    requires v.room > 0
    ensures Supply(Expand(v)) == Supply(v)
  {
    Distributes(v.grow, v.room, 1);
    AtLeast(v.grow, v.room);
    var next, more := Ids(|v.headers|, v.grow), Ids(|v.headers| + v.grow, v.grow * (v.room - 1));
    assert next + more == Ids(|v.headers|, v.grow * v.room);
    assert v.idle + next + more == v.idle + (next + more);
  }

  lemma {:induction false} TakeSupply(v: SoundVolume)
    requires v.idle != []
    ensures Supply(v) == [v.idle[0]] + Supply(Take(v))
  {
    var first, rest, behind := [v.idle[0]], v.idle[1..], Ids(|v.headers|, v.grow * v.room);
    assert v.idle == first + rest && (first + rest) + behind == first + (rest + behind);
    TakenSound(v);
    assert Take(v).idle == rest && |Take(v).headers| == |v.headers|;
  }

  lemma {:induction false} AcquireSupply(v: SoundVolume)
    requires Acquire(v).id > 0
    ensures Supply(v) == [Acquire(v).id] + Supply(Acquire(v).v)
    ensures Acquire(v).v.room == v.room || |Acquire(v).v.idle| < v.grow
  {
    if v.idle != [] {
      TakeSupply(v);
    } else {
      ExpandSupply(v);
      TakeSupply(Expand(v));
    }
  }

  lemma {:induction false} SupplyShrinks(v: SoundVolume, w: SoundVolume, ids: seq<nat>)
    requires Supply(v) == ids + Supply(w) && v.grow == w.grow && v.room == w.room
    ensures |w.idle| <= |v.idle|
  {
    assert |Supply(v)| == |ids| + |Supply(w)|;
  }

  /** Clusters are handed out in order, and the file is expanded only when none is idle. */
  lemma {:induction false} AcquireInOrder(v: SoundVolume, n: nat)
    ensures var r := AcquireUpTo(v, n);
      && Supply(v) == r.ids + Supply(r.v) && r.v.grow == v.grow
      && (r.v.room == v.room || |r.v.idle| < v.grow)
    decreases n
  {
    if n == 0 || Acquire(v).id == 0 {
      assert [] + Supply(v) == Supply(v);
    } else {
      var id, w, r := Acquire(v).id, Acquire(v).v, AcquireUpTo(Acquire(v).v, n - 1);
      AcquireSupply(v);
      AcquireInOrder(w, n - 1);
      OneFromSupply(v, id, w, r);
    }
  }

  lemma {:induction false} OneFromSupply(v: SoundVolume, id: nat, w: SoundVolume, r: GotSome)
    requires Supply(v) == [id] + Supply(w) && Supply(w) == r.ids + Supply(r.v) && v.grow == w.grow == r.v.grow
    requires w.room == v.room || |w.idle| < v.grow
    requires r.v.room == w.room || |r.v.idle| < v.grow
    ensures Supply(v) == [id] + r.ids + Supply(r.v) && (r.v.room == v.room || |r.v.idle| < v.grow)
  {
    assert [id] + (r.ids + Supply(r.v)) == [id] + r.ids + Supply(r.v);
    if r.v.room == w.room {
      SupplyShrinks(w, r.v, r.ids);
    }
  }

  // ---------- giving clusters back ----------

  lemma {:induction false} ReleasedSound(v: SoundVolume, id: nat)
    requires id in v.busy
    ensures Sound(v.(headers := v.headers[id := BLANK], idle := v.idle + [id], busy := Without(v.busy, id)))
  {
    WithoutOne(v.busy, id);
    assert forall x :: x in v.idle + [id] <==> x in v.idle || x == id;
  }

  /** evfs_view_move_to_idle. */
  function Release(v: SoundVolume, id: nat): SoundVolume
    requires id in v.busy
  {
    ReleasedSound(v, id);
    v.(headers := v.headers[id := BLANK], idle := v.idle + [id], busy := Without(v.busy, id))
  }

  ghost predicate AllBusy(v: Volume, ids: seq<nat>) {
    NoDup(ids) && forall i :: 0 <= i < |ids| ==> ids[i] in v.busy
  }

  lemma {:induction false} ReleaseLeaves(v: SoundVolume, ids: seq<nat>)
    requires AllBusy(v, ids) && ids != []
    ensures AllBusy(Release(v, ids[0]), ids[1..])
  {
  }

  function ReleaseAll(v: SoundVolume, ids: seq<nat>): SoundVolume
    requires AllBusy(v, ids)
    decreases |ids|
  {
    if ids == [] then v
    else
      ReleaseLeaves(v, ids);
      ReleaseAll(Release(v, ids[0]), ids[1..])
  }

  /** `w` is `v` with the clusters `ids` given back. */
  ghost predicate Released(v: Volume, w: Volume, ids: seq<nat>) {
    && w.idle == v.idle + ids && w.data == v.data && |w.headers| == |v.headers|
    && (w.seg, w.grow, w.room) == (v.seg, v.grow, v.room)
    && (forall id :: id in w.busy <==> id in v.busy && id !in ids)
    && (forall i :: 0 <= i < |v.headers| && i !in ids ==> w.headers[i] == v.headers[i])
  }

  lemma {:induction false} ReleasedTwice(v: Volume, w: Volume, u: Volume, id: nat, ids: seq<nat>)
    requires Released(v, w, [id]) && Released(w, u, ids)
    ensures Released(v, u, [id] + ids)
  {
    assert v.idle + [id] + ids == v.idle + ([id] + ids);
    assert forall i :: i in [id] + ids <==> i in [id] || i in ids;
  }

  /** Every cluster of the list goes back once, in list order. */
  lemma {:induction false} ReleaseAllReleases(v: SoundVolume, ids: seq<nat>)
    requires AllBusy(v, ids)
    ensures Released(v, ReleaseAll(v, ids), ids)
    decreases |ids|
  {
    if ids == [] {
      assert v.idle + [] == v.idle;
    } else {
      var w := Release(v, ids[0]);
      ReleaseLeaves(v, ids);
      assert Released(v, w, [ids[0]]);
      ReleaseAllReleases(w, ids[1..]);
      ReleasedTwice(v, w, ReleaseAll(w, ids[1..]), ids[0], ids[1..]);
      assert [ids[0]] + ids[1..] == ids;
    }
  }

  lemma {:induction false} GrownBusy(v: Volume, w: SoundVolume, ids: seq<nat>)
    requires Grown(v, w, ids)
    ensures AllBusy(w, ids)
  {
    assert forall i :: 0 <= i < |ids| ==> ids[i] in ids;
  }

  /** evfs_view_acquire_idle_more: `n` clusters, or none and everything back in place. */
  function AcquireMore(v: SoundVolume, n: nat): GotSome {
    AcquireUpToGrows(v, n);
    var r := AcquireUpTo(v, n);
    GrownBusy(v, r.v, r.ids);
    if |r.ids| == n then r else GotSome(ReleaseAll(r.v, r.ids), [])
  }

  /** It is all or nothing: it succeeds exactly when there are enough clusters, and a failure
      leaves the busy clusters as they were. */
  lemma {:induction false} AcquireMoreAllOrNothing(v: SoundVolume, n: nat)
    requires n > 0
    ensures var r := AcquireMore(v, n);
      && (|r.ids| == n <==> n <= Capacity(v))
      && (|r.ids| != n ==> r.ids == [])
      && Grown(v, r.v, r.ids)
  {
    AcquireUpToGrows(v, n);
    AcquireUpToCapacity(v, n);
    var r := AcquireUpTo(v, n);
    GrownBusy(v, r.v, r.ids);
    if |r.ids| != n {
      ReleaseAllReleases(r.v, r.ids);
    }
  }

  /** What is handed out is gone, and a failure costs nothing. */
  lemma {:induction false} AcquireMoreCapacity(v: SoundVolume, n: nat)
    ensures Capacity(AcquireMore(v, n).v) + |AcquireMore(v, n).ids| == Capacity(v)
  {
    AcquireUpToGrows(v, n);
    AcquireUpToCapacity(v, n);
    var r := AcquireUpTo(v, n);
    GrownBusy(v, r.v, r.ids);
    if |r.ids| != n {
      ReleaseAllReleases(r.v, r.ids);
    }
  }

  // ---------- whole runs ----------

  datatype Op = AcquireOp | AcquireMoreOp(n: nat) | ReleaseOp(id: nat) | ExpandOp

  function Step(v: SoundVolume, op: Op): SoundVolume {
    match op
    case AcquireOp => Acquire(v).v
    case AcquireMoreOp(n) => AcquireMore(v, n).v
    case ReleaseOp(id) => if id in v.busy then Release(v, id) else v
    case ExpandOp => if v.room > 0 then Expand(v) else v
  }

  function Run(v: SoundVolume, ops: seq<Op>): SoundVolume
    decreases |ops|
  {
    if ops == [] then v else Run(Step(v, ops[0]), ops[1..])
  }

  /** Across every run of the allocator every cluster but the first is on exactly one of the
      two lists, exactly once. */
  lemma {:induction false} RunConserves(v: SoundVolume, ops: seq<Op>)
    ensures var w := Run(v, ops);
      && multiset(w.idle + w.busy) == multiset(Ids(1, |w.headers| - 1))
      && |w.idle| + |w.busy| == |w.headers| - 1
  {
    var w := Run(v, ops);
    NoDupConcat(w.idle, w.busy);
    SameMembers(w.idle + w.busy, Ids(1, |w.headers| - 1));
  }

  lemma {:induction false} SameMembers(s: seq<nat>, t: seq<nat>)
    requires NoDup(s) && NoDup(t) && forall x :: x in s <==> x in t
    ensures multiset(s) == multiset(t) && |s| == |t|
  {
    forall x ensures multiset(s)[x] == multiset(t)[x] {
      OnlyOnce(s, x);
      OnlyOnce(t, x);
    }
    assert |multiset(s)| == |s| && |multiset(t)| == |t|;
  }

  lemma {:induction false} OnlyOnce(s: seq<nat>, x: nat)
    requires NoDup(s)
    ensures multiset(s)[x] == if x in s then 1 else 0
    decreases |s|
  {
    if s != [] {
      FirstOfList(s);
      OnlyOnce(s[1..], x);
      assert s == [s[0]] + s[1..];
    }
  }
}
