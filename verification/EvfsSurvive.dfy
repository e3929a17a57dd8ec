/** Which entries outlive loading when headers are damaged. */
module EvfsSurvive {
  import opened Bytes
  import opened EvfsVolume
  import opened EvfsEntries
  import opened EvfsLoad

  // ---------- what the headers say ----------

  predicate IsElement(hs: seq<Header>, x: int) { 1 <= x < |hs| && LooksBusy(hs[x]) && !LooksHead(hs[x]) }

  predicate IsHead(hs: seq<Header>, x: int) { 1 <= x < |hs| && LooksHead(hs[x]) }

  /** The next pointers from `next` on lead along the elements `ids`. */
  ghost predicate Way(hs: seq<Header>, next: int, ids: seq<nat>)
    decreases |ids|
  {
    ids == [] || (next == ids[0] && IsElement(hs, next) && Way(hs, hs[next].next, ids[1..]))
  }

  ghost predicate LeadsTo(hs: seq<Header>, next: int, x: nat) { exists ids :: Way(hs, next, ids) && x in ids }

  /** The head `h` leads along elements to a proper end, and none of the heads `before` it leads to
      one of these elements. */
  ghost predicate Intact(hs: seq<Header>, before: seq<nat>, h: nat)
    requires h < |hs|
  {
    exists ids :: Way(hs, hs[h].next, ids) && Follows(hs, hs[h].next, ids) && Untouched(hs, before, ids)
  }

  /** No head of `before` leads to `x`. */
  ghost predicate Missed(hs: seq<Header>, before: seq<nat>, x: nat) {
    var p := forall g :: g in before && g < |hs| ==> !LeadsTo(hs, hs[g].next, x);
    p
  }

  ghost predicate Untouched(hs: seq<Header>, before: seq<nat>, ids: seq<nat>) {
    forall i :: 0 <= i < |ids| ==> Missed(hs, before, ids[i])
  }

  // ---------- one walk ----------

  /** Whatever has been taken was taken with all that it leads to, but perhaps for `next`. */
  ghost predicate ClosedBut(hs: seq<Header>, wild: seq<nat>, next: int) {
    forall y :: IsElement(hs, y) && y !in wild && IsElement(hs, hs[y].next) && hs[y].next in wild ==> hs[y].next == next
  }

  ghost predicate Elements(hs: seq<Header>, wild: seq<nat>) { forall x :: x in wild ==> IsElement(hs, x) }

  lemma {:induction false} WalkCloses(hs: seq<Header>, wild: seq<nat>, next: int)
    requires Below(wild, |hs|) && Elements(hs, wild) && ClosedBut(hs, wild, next)
    ensures var w := Walk(hs, wild, next);
      Elements(hs, w.wild) && ClosedBut(hs, w.wild, 0) && next !in w.wild
    decreases |wild|
  {
    if next > 0 && next in wild {
      var id: nat := next;
      WithoutShorter(wild, id, |hs|);
      WalkCloses(hs, Without(wild, id), hs[id].next);
      WalkShrinks(hs, Without(wild, id), hs[id].next, id);
    }
  }

  lemma {:induction false} WalkShrinks(hs: seq<Header>, wild: seq<nat>, next: int, x: nat)
    requires Below(wild, |hs|)
    ensures x in Walk(hs, wild, next).wild ==> x in wild
    decreases |wild|
  {
    if next > 0 && next in wild {
      var id: nat := next;
      WithoutShorter(wild, id, |hs|);
      WalkShrinks(hs, Without(wild, id), hs[id].next, x);
    }
  }

  /** What a walk takes is on the way. */
  lemma {:induction false} WalkIsWay(hs: seq<Header>, wild: seq<nat>, next: int, x: nat)
    requires Below(wild, |hs|) && Elements(hs, wild)
    ensures var w := Walk(hs, wild, next);
      && Way(hs, next, w.ids) && (x in w.ids ==> x in wild) && (x in wild ==> x in w.ids || x in w.wild)
    decreases |wild|
  {
    if next > 0 && next in wild {
      var id: nat := next;
      WithoutShorter(wild, id, |hs|);
      WalkIsWay(hs, Without(wild, id), hs[id].next, x);
      var w := Walk(hs, Without(wild, id), hs[id].next);
      assert ([id] + w.ids)[1..] == w.ids;
    }
  }

  /** Everything on the way has been taken. */
  lemma {:induction false} WayTaken(hs: seq<Header>, wild: seq<nat>, next: int, ids: seq<nat>, x: nat)
    requires ClosedBut(hs, wild, 0) && next !in wild && Way(hs, next, ids) && x in ids
    ensures x !in wild
    decreases |ids|
  {
    if x != ids[0] {
      assert x in ids[1..];
      WayTaken(hs, wild, hs[next].next, ids[1..], x);
    }
  }

  /** The elements a walk takes are those its start leads to. */
  lemma {:induction false} WalkTakes(hs: seq<Header>, wild: seq<nat>, next: int, x: nat)
    requires Below(wild, |hs|) && Elements(hs, wild) && ClosedBut(hs, wild, 0)
    ensures x in Walk(hs, wild, next).wild <==> x in wild && !LeadsTo(hs, next, x)
  {
    var w := Walk(hs, wild, next);
    WalkCloses(hs, wild, next);
    WalkIsWay(hs, wild, next, x);
    WalkShrinks(hs, wild, next, x);
    if x in w.wild && LeadsTo(hs, next, x) {
      var ids :| Way(hs, next, ids) && x in ids;
      WayTaken(hs, w.wild, next, ids, x);
    }
  }

  // ---------- ends ----------

  lemma {:induction false} OneEnd(hs: seq<Header>, next: int, a: seq<nat>, b: seq<nat>)
    requires Follows(hs, next, a) && Follows(hs, next, b)
    ensures a == b
    decreases |a|
  {
    if a != [] {
      OneEnd(hs, hs[a[0]].next, a[1..], b[1..]);
      assert a == [a[0]] + a[1..] && b == [b[0]] + b[1..];
    }
  }

  lemma {:induction false} FollowsFrom(hs: seq<Header>, next: int, ids: seq<nat>, i: nat)
    requires Follows(hs, next, ids) && i < |ids|
    ensures ids[i] < |hs| && Follows(hs, hs[ids[i]].next, ids[i + 1..])
    decreases |ids|
  {
    if i > 0 {
      FollowsFrom(hs, hs[ids[0]].next, ids[1..], i - 1);
      assert ids[1..][i..] == ids[i + 1..];
    }
  }

  /** A way to a proper end does not come by twice. */
  lemma {:induction false} EndsOnce(hs: seq<Header>, next: int, ids: seq<nat>)
    requires Follows(hs, next, ids)
    ensures NoDup(ids)
  {
    forall i, j | 0 <= i < j < |ids| ensures ids[i] != ids[j] {
      FollowsFrom(hs, next, ids, i);
      FollowsFrom(hs, next, ids, j);
      if ids[i] == ids[j] {
        OneEnd(hs, hs[ids[i]].next, ids[i + 1..], ids[j + 1..]);
      }
    }
  }

  /** A walk comes to an end exactly when its start leads to one along clusters that are there. */
  lemma {:induction false} WalkEndsIff(hs: seq<Header>, wild: seq<nat>, next: int)
    requires Below(wild, |hs|) && Elements(hs, wild)
    ensures Walk(hs, wild, next).ok <==>
      exists ids :: Way(hs, next, ids) && Follows(hs, next, ids) && AllIn(ids, wild)
  {
    var w := Walk(hs, wild, next);
    if w.ok {
      WalkFollows(hs, wild, next);
      WalkIsWay(hs, wild, next, 0);
      forall i | 0 <= i < |w.ids| ensures w.ids[i] in wild {
        WalkIsWay(hs, wild, next, w.ids[i]);
      }
    }
    if ids :| Way(hs, next, ids) && Follows(hs, next, ids) && AllIn(ids, wild) {
      EndsOnce(hs, next, ids);
      WalkExact(hs, wild, next, ids);
    }
  }

  // ---------- all heads ----------

  /** The elements that are left are those to which none of the heads `done` leads. */
  ghost predicate Left(hs: seq<Header>, wild: seq<nat>, done: seq<nat>) {
    var p := Below(wild, |hs|) && Elements(hs, wild) && ClosedBut(hs, wild, 0) &&
      forall x: nat :: x in wild <==> IsElement(hs, x) && Missed(hs, done, x);
    p
  }

  lemma {:induction false} LeftAfter(hs: seq<Header>, p: Places, done: seq<nat>, h: nat)
    requires h < |hs| && Left(hs, p.wild, done)
    ensures Left(hs, Relinked(hs, p, h).wild, done + [h])
  {
    var w := Walk(hs, p.wild, hs[h].next);
    WalkCloses(hs, p.wild, hs[h].next);
    forall x: nat
      ensures x in w.wild <==> IsElement(hs, x) && Missed(hs, done + [h], x)
    {
      WalkTakes(hs, p.wild, hs[h].next, x);
      assert forall g :: g in done + [h] <==> g in done || g == h;
    }
  }

  ghost predicate AllIn(ids: seq<nat>, wild: seq<nat>) { forall i :: 0 <= i < |ids| ==> ids[i] in wild }

  lemma {:induction false} ThereIff(hs: seq<Header>, wild: seq<nat>, done: seq<nat>, next: int, ids: seq<nat>)
    requires Left(hs, wild, done) && Way(hs, next, ids)
    ensures AllIn(ids, wild) <==> Untouched(hs, done, ids)
  {
    forall i | 0 <= i < |ids| ensures ids[i] in wild <==> Missed(hs, done, ids[i]) {
      WayElements(hs, next, ids, i);
    }
  }

  /** A head keeps its place exactly when it is intact. */
  lemma {:induction false} RelinkedIff(hs: seq<Header>, wild: seq<nat>, done: seq<nat>, h: nat)
    requires h < |hs| && Left(hs, wild, done) && Below(wild, |hs|)
    ensures Walk(hs, wild, hs[h].next).ok <==> Intact(hs, done, h)
  {
    WalkEndsIff(hs, wild, hs[h].next);
    forall ids | Way(hs, hs[h].next, ids) ensures AllIn(ids, wild) <==> Untouched(hs, done, ids) {
      ThereIff(hs, wild, done, hs[h].next, ids);
    }
  }

  lemma {:induction false} WayElements(hs: seq<Header>, next: int, ids: seq<nat>, i: nat)
    requires Way(hs, next, ids) && i < |ids|
    ensures IsElement(hs, ids[i])
    decreases i
  {
    if i > 0 {
      WayElements(hs, hs[next].next, ids[1..], i - 1);
    }
  }

  lemma {:induction false} OthersStay(hs: seq<Header>, p: Places, todo: seq<nat>, h: nat)
    requires Below(p.wild, |hs|) && Below(todo, |hs|) && h !in todo
    ensures h in RelinkAll(hs, p, todo).heads <==> h in p.heads
    decreases |todo|
  {
    if todo != [] {
      OthersStay(hs, Relinked(hs, p, todo[0]), todo[1..], h);
    }
  }

  lemma {:induction false} PrefixStep(done: seq<nat>, todo: seq<nat>, k: nat)
    requires 0 < k <= |todo|
    ensures done + [todo[0]] + todo[1..][..k - 1] == done + todo[..k]
  {
  }

  lemma {:induction false} TailOnce(todo: seq<nat>, k: nat)
    requires NoDup(todo) && 0 < k < |todo|
    ensures NoDup(todo[1..]) && todo[0] != todo[k] == todo[1..][k - 1]
  {
  }

  lemma {:induction false} RelinkAllIff(hs: seq<Header>, p: Places, done: seq<nat>, todo: seq<nat>, k: nat)
    requires Below(p.wild, |hs|) && Below(todo, |hs|) && Left(hs, p.wild, done)
    requires k < |todo| && NoDup(todo) && todo[k] !in p.heads
    ensures todo[k] in RelinkAll(hs, p, todo).heads <==> Intact(hs, done + todo[..k], todo[k])
    decreases |todo|
  {
    var h, q, rest := todo[0], Relinked(hs, p, todo[0]), todo[1..];
    if k == 0 {
      RelinkedIff(hs, p.wild, done, h);
      OthersStay(hs, q, rest, h);
      assert done + todo[..0] == done;
    } else {
      TailOnce(todo, k);
      LeftAfter(hs, p, done, h);
      RelinkAllIff(hs, q, done + [h], rest, k - 1);
      PrefixStep(done, todo, k);
    }
  }

  /** Heads are done in the order of their clusters. */
  lemma {:induction false} HeadsInOrder(hs: seq<Header>, n: nat, k: nat)
    requires n <= |hs| && k < |Recognised(hs, n).heads|
    ensures Recognised(hs, n).heads[k] < |hs|
    ensures Recognised(hs, n).heads[..k] == Recognised(hs, Recognised(hs, n).heads[k]).heads
  {
    var before := Recognised(hs, n - 1).heads;
    if k < |before| {
      HeadsInOrder(hs, n - 1, k);
      assert Recognised(hs, n).heads[..k] == before[..k];
    } else {
      assert Recognised(hs, n).heads == before + [n - 1];
    }
  }

  lemma {:induction false} AllLeft(hs: seq<Header>)
    ensures Left(hs, Recognised(hs, |hs|).wild, [])
  {
    forall x: nat ensures x in Recognised(hs, |hs|).wild <==> IsElement(hs, x) {
      RecognisedMembers(hs, |hs|, x);
    }
  }

  /** Whatever the headers say, the entry of a head outlives loading exactly when its next pointers
      lead along elements to a proper end and no head of a lower cluster leads to one of them. */
  lemma {:induction false} SurvivesIff(hs: seq<Header>, h: nat)
    requires IsHead(hs, h)
    ensures h in Load(hs).heads <==> Intact(hs, Recognised(hs, h).heads, h)
    ensures forall g :: g in Recognised(hs, h).heads <==> g < h && IsHead(hs, g)
  {
    var p := Recognised(hs, |hs|);
    RecognisedMembers(hs, |hs|, h);
    var k :| 0 <= k < |p.heads| && p.heads[k] == h;
    HeadsOnce(hs);
    AllLeft(hs);
    HeadsInOrder(hs, |hs|, k);
    RelinkAllIff(hs, p.(heads := []), [], p.heads, k);
    assert [] + p.heads[..k] == p.heads[..k];
    forall g: nat ensures g in Recognised(hs, h).heads <==> g < h && IsHead(hs, g) {
      RecognisedMembers(hs, h, g);
    }
  }

  lemma {:induction false} LeftInTheEnd(hs: seq<Header>, p: Places, done: seq<nat>, todo: seq<nat>)
    requires Below(p.wild, |hs|) && Below(todo, |hs|) && Left(hs, p.wild, done)
    ensures Left(hs, RelinkAll(hs, p, todo).wild, done + todo)
    decreases |todo|
  {
    if todo == [] {
      assert done + todo == done;
    } else {
      LeftAfter(hs, p, done, todo[0]);
      LeftInTheEnd(hs, Relinked(hs, p, todo[0]), done + [todo[0]], todo[1..]);
      assert done + [todo[0]] + todo[1..] == done + todo;
    }
  }

  /** An element stays wild exactly when no head leads to it. */
  lemma {:induction false} WildIff(hs: seq<Header>, x: nat)
    ensures x in Load(hs).wild <==> IsElement(hs, x) && forall g :: IsHead(hs, g) ==> !LeadsTo(hs, hs[g].next, x)
  {
    var p := Recognised(hs, |hs|);
    AllLeft(hs);
    LeftInTheEnd(hs, p.(heads := []), [], p.heads);
    assert [] + p.heads == p.heads;
    forall g: nat ensures g in p.heads <==> IsHead(hs, g) {
      RecognisedMembers(hs, |hs|, g);
    }
  }
}
