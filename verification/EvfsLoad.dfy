/** Loading: the entries rebuilt from the headers of the clusters alone. */
module EvfsLoad {
  import opened Bytes
  import opened EvfsVolume
  import opened EvfsEntries

  /** Where every cluster went: idle, head of an entry, element of an entry, or wild, that is
      busy but reached from no head. */
  datatype Places = Places(idle: seq<nat>, heads: seq<nat>, elems: map<nat, seq<nat>>, wild: seq<nat>)

  predicate LooksBusy(x: Header) { x.size != 0 || x.head > 0 }

  predicate LooksHead(x: Header) { x.size < 0 }

  predicate Below(s: seq<nat>, n: nat) { forall i :: 0 <= i < |s| ==> s[i] < n }

  // ---------- the functions ----------

  /** evfs_view_load and __evfs_entries_raw_recognize for the clusters 1 to n - 1. */
  function Recognised(hs: seq<Header>, n: nat): (p: Places)
    requires n <= |hs|
    ensures Below(p.wild, n) && Below(p.heads, n) && p.elems == map[]
  {
    if n <= 1 then Places([], [], map[], [])
    else
      var p, id: nat := Recognised(hs, n - 1), n - 1;
      if !LooksBusy(hs[id]) then p.(idle := p.idle + [id])
      else if LooksHead(hs[id]) then p.(heads := p.heads + [id])
      else p.(wild := p.wild + [id])
  }

  /** What a walk along the next pointers takes out of the wild clusters: the clusters in
      order, the wild clusters left, and whether it came to an end. */
  datatype Walked = Walked(ids: seq<nat>, wild: seq<nat>, ok: bool)

  lemma {:induction false} WithoutShorter(s: seq<nat>, x: nat, n: nat)
    requires Below(s, n)
    ensures Below(Without(s, x), n)
    ensures x in s ==> |Without(s, x)| < |s| && x < n
    decreases |s|
  {
    if s != [] {
      WithoutShorter(s[1..], x, n);
    }
  }

  function Walk(hs: seq<Header>, wild: seq<nat>, next: int): (w: Walked)
    requires Below(wild, |hs|)
    ensures Below(w.wild, |hs|)
    decreases |wild|
  {
    if next <= 0 then Walked([], wild, true)
    else
      var id: nat := next;
      if id !in wild then Walked([], wild, false)
      else
        WithoutShorter(wild, id, |hs|);
        var w := Walk(hs, Without(wild, id), hs[id].next);
        Walked([id] + w.ids, w.wild, w.ok)
  }

  /** One round of the outer loop of __evfs_entries_init: the head `h` gets its elements; or,
      if one is missing, the head and the elements found so far become idle. */
  function Relinked(hs: seq<Header>, p: Places, h: nat): (q: Places)
    requires h < |hs| && Below(p.wild, |hs|)
    ensures Below(q.wild, |hs|)
  {
    var w := Walk(hs, p.wild, hs[h].next);
    if w.ok then Places(p.idle, p.heads + [h], p.elems[h := w.ids], w.wild)
    else Places(p.idle + w.ids + [h], p.heads, p.elems, w.wild)
  }

  function RelinkAll(hs: seq<Header>, p: Places, todo: seq<nat>): Places
    requires Below(p.wild, |hs|) && Below(todo, |hs|)
    decreases |todo|
  {
    if todo == [] then p else RelinkAll(hs, Relinked(hs, p, todo[0]), todo[1..])
  }

  /** evfs_entries_load. */
  function Load(hs: seq<Header>): Places {
    var p := Recognised(hs, |hs|);
    RelinkAll(hs, p.(heads := []), p.heads)
  }

  // ---------- whatever the headers say ----------

  /** How often `x` is in `s`. */
  function Occ(s: seq<nat>, x: nat): nat {
    if s == [] then 0 else (if s[0] == x then 1 else 0) + Occ(s[1..], x)
  }

  lemma {:induction false} OccConcat(s: seq<nat>, t: seq<nat>, x: nat)
    ensures Occ(s + t, x) == Occ(s, x) + Occ(t, x)
    decreases |s|
  {
    if s == [] {
      assert [] + t == t;
    } else {
      assert (s + t)[1..] == s[1..] + t;
      OccConcat(s[1..], t, x);
    }
  }

  lemma {:induction false} OccOne(s: seq<nat>, y: nat, x: nat)
    ensures Occ(s + [y], x) == Occ(s, x) + if x == y then 1 else 0
    ensures Occ([y] + s, x) == Occ(s, x) + if x == y then 1 else 0
  {
    OccConcat(s, [y], x);
    OccConcat([y], s, x);
    assert [y][1..] == [];
  }

  lemma {:induction false} OccMember(s: seq<nat>, x: nat)
    ensures x in s <==> Occ(s, x) > 0
    decreases |s|
  {
    if s != [] {
      OccMember(s[1..], x);
    }
  }

  lemma {:induction false} OccWithout(s: seq<nat>, y: nat, x: nat)
    ensures Occ(Without(s, y), x) == if x == y then 0 else Occ(s, x)
    decreases |s|
  {
    if s != [] {
      OccWithout(s[1..], y, x);
      if s[0] != y {
        OccOne(Without(s[1..], y), s[0], x);
      }
    }
  }

  /** How often `x` is an element of one of the entries. */
  function InElems(heads: seq<nat>, elems: map<nat, seq<nat>>, x: nat): nat {
    if heads == [] then 0
    else (if heads[0] in elems then Occ(elems[heads[0]], x) else 0) + InElems(heads[1..], elems, x)
  }

  /** In how many places `x` is. */
  function Count(p: Places, x: nat): nat {
    Occ(p.idle, x) + Occ(p.heads, x) + InElems(p.heads, p.elems, x) + Occ(p.wild, x)
  }

  lemma {:induction false} InElemsAdded(heads: seq<nat>, elems: map<nat, seq<nat>>, h: nat, ids: seq<nat>, x: nat)
    requires h !in heads
    ensures InElems(heads + [h], elems[h := ids], x) == InElems(heads, elems, x) + Occ(ids, x)
    decreases |heads|
  {
    if heads == [] {
      assert ([] + [h])[1..] == [];
    } else {
      assert (heads + [h])[1..] == heads[1..] + [h];
      InElemsAdded(heads[1..], elems, h, ids, x);
    }
  }

  /** A walk moves clusters and loses none; `x` is among the wild ones at most once. */
  lemma {:induction false} WalkConserves(hs: seq<Header>, wild: seq<nat>, next: int, x: nat)
    requires Below(wild, |hs|) && forall y :: Occ(wild, y) <= 1
    ensures var w := Walk(hs, wild, next); Occ(wild, x) == Occ(w.ids, x) + Occ(w.wild, x)
    decreases |wild|
  {
    if next > 0 && next in wild {
      var id: nat := next;
      WithoutShorter(wild, id, |hs|);
      forall y ensures Occ(Without(wild, id), y) <= 1 {
        OccWithout(wild, id, y);
      }
      WalkConserves(hs, Without(wild, id), hs[id].next, x);
      OccWithout(wild, id, x);
      OccMember(wild, id);
      OccOne(Walk(hs, Without(wild, id), hs[id].next).ids, id, x);
    }
  }

  lemma {:induction false} RelinkedConserves(hs: seq<Header>, p: Places, h: nat, x: nat)
    requires h < |hs| && Below(p.wild, |hs|) && h !in p.heads && forall y :: Occ(p.wild, y) <= 1
    ensures Count(Relinked(hs, p, h), x) == Count(p, x) + if x == h then 1 else 0
  {
    WalkConserves(hs, p.wild, hs[h].next, x);
    var w := Walk(hs, p.wild, hs[h].next);
    if w.ok {
      InElemsAdded(p.heads, p.elems, h, w.ids, x);
      OccOne(p.heads, h, x);
    } else {
      OccConcat(p.idle, w.ids, x);
      OccOne(p.idle + w.ids, h, x);
    }
  }

  lemma {:induction false} RelinkAllConserves(hs: seq<Header>, p: Places, todo: seq<nat>, x: nat)
    requires Below(p.wild, |hs|) && Below(todo, |hs|)
    requires (forall y :: Occ(p.wild, y) <= 1) && (forall y :: Occ(todo, y) + Occ(p.heads, y) <= 1)
    ensures Count(RelinkAll(hs, p, todo), x) == Count(p, x) + Occ(todo, x)
    decreases |todo|
  {
    if todo != [] {
      var h, q := todo[0], Relinked(hs, p, todo[0]);
      OccMember(p.heads, h);
      RelinkedConserves(hs, p, h, x);
      forall y ensures Occ(q.wild, y) <= 1 {
        WalkConserves(hs, p.wild, hs[h].next, y);
      }
      forall y ensures Occ(todo[1..], y) + Occ(q.heads, y) <= 1 {
        OccOne(p.heads, h, y);
      }
      RelinkAllConserves(hs, q, todo[1..], x);
    }
  }

  lemma {:induction false} RecognisedNext(hs: seq<Header>, n: nat, x: nat)
    requires 1 < n <= |hs|
    ensures var p, q, one := Recognised(hs, n - 1), Recognised(hs, n), if x == n - 1 then 1 else 0;
      Occ(q.idle, x) + Occ(q.heads, x) + Occ(q.wild, x) == Occ(p.idle, x) + Occ(p.heads, x) + Occ(p.wild, x) + one
  {
    var p := Recognised(hs, n - 1);
    if !LooksBusy(hs[n - 1]) {
      OccOne(p.idle, n - 1, x);
    } else if LooksHead(hs[n - 1]) {
      OccOne(p.heads, n - 1, x);
    } else {
      OccOne(p.wild, n - 1, x);
    }
  }

  lemma {:induction false} RecognisedConserves(hs: seq<Header>, n: nat, x: nat)
    requires 1 <= n <= |hs|
    ensures var p := Recognised(hs, n);
      Occ(p.idle, x) + Occ(p.heads, x) + Occ(p.wild, x) == if 1 <= x < n then 1 else 0
  {
    if n > 1 {
      RecognisedConserves(hs, n - 1, x);
      RecognisedNext(hs, n, x);
    }
  }

  /** Whatever the headers say, loading ends and puts every cluster in exactly one place, and
      there exactly once. */
  lemma {:induction false} LoadConserves(hs: seq<Header>, x: nat)
    requires hs != []
    ensures Count(Load(hs), x) == if 1 <= x < |hs| then 1 else 0
  {
    forall y ensures Occ(Recognised(hs, |hs|).wild, y) <= 1 && Occ(Recognised(hs, |hs|).heads, y) <= 1 {
      RecognisedConserves(hs, |hs|, y);
    }
    RecognisedConserves(hs, |hs|, x);
    var p := Recognised(hs, |hs|);
    RelinkAllConserves(hs, p.(heads := []), p.heads, x);
  }

  /** `ids` is the whole way along the next pointers from `next` on. */
  ghost predicate Follows(hs: seq<Header>, next: int, ids: seq<nat>)
    decreases |ids|
  {
    if ids == [] then next <= 0
    else next == ids[0] && 0 < ids[0] < |hs| && Follows(hs, hs[ids[0]].next, ids[1..])
  }

  lemma {:induction false} WalkFollows(hs: seq<Header>, wild: seq<nat>, next: int)
    requires Below(wild, |hs|)
    ensures Walk(hs, wild, next).ok ==> Follows(hs, next, Walk(hs, wild, next).ids)
    decreases |wild|
  {
    if next > 0 && next in wild {
      var id: nat := next;
      WithoutShorter(wild, id, |hs|);
      WalkFollows(hs, Without(wild, id), hs[id].next);
      var w := Walk(hs, Without(wild, id), hs[id].next);
      assert ([id] + w.ids)[1..] == w.ids;
    }
  }

  ghost predicate AllFollow(hs: seq<Header>, elems: map<nat, seq<nat>>) {
    forall h :: h in elems ==> h < |hs| && Follows(hs, hs[h].next, elems[h])
  }

  lemma {:induction false} RelinkAllFollows(hs: seq<Header>, p: Places, todo: seq<nat>)
    requires Below(p.wild, |hs|) && Below(todo, |hs|) && AllFollow(hs, p.elems)
    ensures AllFollow(hs, RelinkAll(hs, p, todo).elems)
    decreases |todo|
  {
    if todo != [] {
      WalkFollows(hs, p.wild, hs[todo[0]].next);
      RelinkAllFollows(hs, Relinked(hs, p, todo[0]), todo[1..]);
    }
  }

  /** Every entry that survives has exactly the elements its next pointers lead to. */
  lemma {:induction false} LoadFollows(hs: seq<Header>)
    ensures AllFollow(hs, Load(hs).elems)
  {
    var p := Recognised(hs, |hs|);
    RelinkAllFollows(hs, p.(heads := []), p.heads);
  }

  // ---------- what was stored comes back ----------

  lemma {:induction false} RecognisedMembers(hs: seq<Header>, n: nat, x: nat)
    requires n <= |hs|
    ensures var p := Recognised(hs, n);
      && (x in p.idle <==> 1 <= x < n && !LooksBusy(hs[x]))
      && (x in p.heads <==> 1 <= x < n && LooksHead(hs[x]))
      && (x in p.wild <==> 1 <= x < n && LooksBusy(hs[x]) && !LooksHead(hs[x]))
  {
    if n > 1 {
      RecognisedMembers(hs, n - 1, x);
    }
  }

  /** Headers of a file system in order show what each cluster is. */
  lemma {:induction false} HeadersTell(fs: FileSystem, x: nat)
    requires 1 <= x < |fs.vol.headers|
    ensures var y := fs.vol.headers[x];
      && (LooksBusy(y) <==> x in fs.vol.busy) && (LooksHead(y) <==> x in fs.elems)
      && (x in fs.vol.busy && x !in fs.elems ==> y.head in fs.elems && x in fs.elems[y.head])
      && (x in fs.elems ==> x in fs.vol.busy)
      && (x in fs.vol.idle <==> x !in fs.vol.busy)
  {
    var hs, seg := fs.vol.headers, fs.vol.seg;
    if x in fs.elems {
      assert ChainInv(hs, seg, x, fs.elems[x]);
      assert ChainBusy(fs.vol.busy, x, fs.elems[x]);
    } else if x in fs.vol.busy {
      assert HasOwner(hs, fs.elems, x);
      assert ChainInv(hs, seg, hs[x].head, fs.elems[hs[x].head]);
    }
  }

  lemma {:induction false} ChainFollows(hs: seq<Header>, seg: nat, h: nat, ids: seq<nat>, i: nat)
    requires ChainInv(hs, seg, h, ids) && i <= |ids|
    ensures Follows(hs, if i < |ids| then ids[i] else 0, ids[i..])
    decreases |ids| - i
  {
    if i < |ids| {
      ChainFollows(hs, seg, h, ids, i + 1);
      assert ids[i..][1..] == ids[i + 1..];
    }
  }

  /** A walk over clusters that are all wild takes exactly them. */
  lemma {:induction false} WalkExact(hs: seq<Header>, wild: seq<nat>, next: int, ids: seq<nat>)
    requires Below(wild, |hs|) && NoDup(ids) && Follows(hs, next, ids) && forall i :: 0 <= i < |ids| ==> ids[i] in wild
    ensures var w := Walk(hs, wild, next);
      w.ok && w.ids == ids && forall x :: x in w.wild <==> x in wild && x !in ids
    decreases |ids|
  {
    if ids != [] {
      var id := ids[0];
      WithoutShorter(wild, id, |hs|);
      assert forall i :: 0 <= i < |ids[1..]| ==> ids[1..][i] == ids[i + 1];
      WalkExact(hs, Without(wild, id), hs[id].next, ids[1..]);
      assert ids == [id] + ids[1..];
    }
  }

  /** The wild clusters are the elements of the heads still to do. */
  ghost predicate WildOf(fs: FileSystem, wild: seq<nat>, todo: seq<nat>) {
    match fs
    case Fs(vol, _, elems) =>
      forall x :: x in wild <==> x in vol.busy && x !in elems && x < |vol.headers| && vol.headers[x].head in todo
  }

  lemma {:induction false} RelinkedExact(fs: FileSystem, p: Places, h: nat, rest: seq<nat>)
    requires h in fs.elems && h !in rest && WildOf(fs, p.wild, [h] + rest) && Below(p.wild, |fs.vol.headers|)
    ensures h < |fs.vol.headers|
    ensures var q := Relinked(fs.vol.headers, p, h);
      && q.idle == p.idle && q.heads == p.heads + [h] && q.elems == p.elems[h := fs.elems[h]]
      && WildOf(fs, q.wild, rest)
  {
    var hs, ids := fs.vol.headers, fs.elems[h];
    assert ChainInv(hs, fs.vol.seg, h, ids);
    assert ChainBusy(fs.vol.busy, h, ids);
    ChainFollows(hs, fs.vol.seg, h, ids, 0);
    assert ids[0..] == ids;
    assert h in [h] + rest;
    forall i | 0 <= i < |ids| ensures ids[i] in p.wild {
      HeadersTell(fs, ids[i]);
    }
    WalkExact(hs, p.wild, hs[h].next, ids);
    var w := Walk(hs, p.wild, hs[h].next);
    forall x ensures x in w.wild <==> x in fs.vol.busy && x !in fs.elems && x < |hs| && hs[x].head in rest {
      if x in fs.vol.busy && x !in fs.elems {
        assert HasOwner(hs, fs.elems, x);
      }
      assert forall g :: g in [h] + rest <==> g == h || g in rest;
    }
  }

  ghost predicate Agrees(a: map<nat, seq<nat>>, b: map<nat, seq<nat>>) {
    forall h :: h in a ==> h in b && a[h] == b[h]
  }

  /** `q` is `p` with the heads `todo` and all their elements added. */
  ghost predicate Restored(fs: FileSystem, p: Places, q: Places, todo: seq<nat>) {
    match q
    case Places(idle, heads, elems, _) =>
      && idle == p.idle && heads == p.heads + todo
      && (forall h :: h in elems <==> h in p.elems || h in todo)
      && Agrees(elems, fs.elems)
  }

  lemma {:induction false} RestoredStep(fs: FileSystem, p: Places, q: Places, h: nat, rest: seq<nat>)
    requires h in fs.elems && Agrees(p.elems, fs.elems)
    requires Restored(fs, Places(p.idle, p.heads + [h], p.elems[h := fs.elems[h]], []), q, rest)
    ensures Restored(fs, p, q, [h] + rest)
  {
    assert p.heads + [h] + rest == p.heads + ([h] + rest);
  }

  lemma {:induction false} RelinkAllExact(fs: FileSystem, p: Places, todo: seq<nat>)
    requires NoDup(todo) && (forall i :: 0 <= i < |todo| ==> todo[i] in fs.elems) && WildOf(fs, p.wild, todo)
    requires Below(p.wild, |fs.vol.headers|) && Below(todo, |fs.vol.headers|)
    requires Agrees(p.elems, fs.elems)
    ensures var q := RelinkAll(fs.vol.headers, p, todo); Restored(fs, p, q, todo) && q.wild == []
    decreases |todo|
  {
    if todo == [] {
      NothingToDo(fs, p);
    } else {
      var h, rest, p' := todo[0], todo[1..], Relinked(fs.vol.headers, p, todo[0]);
      assert todo == [h] + rest && h !in rest;
      RelinkedExact(fs, p, h, rest);
      RelinkAllExact(fs, p', rest);
      RestoredStep(fs, p, RelinkAll(fs.vol.headers, p', rest), h, rest);
    }
  }

  lemma {:induction false} NothingToDo(fs: FileSystem, p: Places)
    requires WildOf(fs, p.wild, []) && Agrees(p.elems, fs.elems)
    ensures p.wild == [] && Restored(fs, p, p, [])
  {
    if p.wild != [] {
      FirstIn(p.wild);
    }
    assert p.heads + [] == p.heads;
  }

  lemma {:induction false} FirstIn(s: seq<nat>)
    requires s != []
    ensures s[0] in s
  {
  }

  lemma {:induction false} OnceIsNoDup(s: seq<nat>)
    requires forall x: nat :: Occ(s, x) <= 1
    ensures NoDup(s)
    decreases |s|
  {
    if s != [] {
      forall x: nat ensures Occ(s[1..], x) <= 1 {
        assert Occ(s, x) <= 1;
      }
      OnceIsNoDup(s[1..]);
      assert Occ(s, s[0]) <= 1;
      OccMember(s[1..], s[0]);
      assert s == [s[0]] + s[1..];
    }
  }

  /** Recognising finds the idle clusters, the heads, and all elements. */
  lemma {:induction false} RecognisedAll(fs: FileSystem)
    ensures var p := Recognised(fs.vol.headers, |fs.vol.headers|);
      && (forall x :: x in p.idle <==> x in fs.vol.idle) && (forall x :: x in p.heads <==> x in fs.elems)
      && WildOf(fs, p.wild, p.heads)
  {
    var hs := fs.vol.headers;
    var p := Recognised(hs, |hs|);
    forall x: nat
      ensures (x in p.idle <==> x in fs.vol.idle) && (x in p.heads <==> x in fs.elems)
      ensures x in p.wild <==> x in fs.vol.busy && x !in fs.elems && x < |hs| && hs[x].head in p.heads
    {
      RecognisedTells(fs, x);
      if x < |hs| && hs[x].head >= 0 {
        RecognisedTells(fs, hs[x].head);
      }
    }
  }

  lemma {:induction false} HeadsOnce(hs: seq<Header>)
    requires hs != []
    ensures NoDup(Recognised(hs, |hs|).heads)
  {
    var heads := Recognised(hs, |hs|).heads;
    forall x: nat ensures Occ(heads, x) <= 1 {
      RecognisedConserves(hs, |hs|, x);
    }
    OnceIsNoDup(heads);
  }

  lemma {:induction false} AllRestored(fs: FileSystem, p: Places, q: Places, todo: seq<nat>)
    requires p.heads == [] && p.elems == map[] && Restored(fs, p, q, todo)
    requires forall h :: h in todo <==> h in fs.elems
    ensures q.elems == fs.elems && q.idle == p.idle && forall h :: h in q.heads <==> h in fs.heads
  {
    assert [] + todo == todo;
  }

  /** The headers of a file system in order give back its entries, each with its elements in
      order; every other cluster is idle, and none is wild. */
  lemma {:induction false} LoadRebuilds(fs: FileSystem)
    ensures var q := Load(fs.vol.headers);
      && q.elems == fs.elems && q.wild == []
      && (forall h :: h in q.heads <==> h in fs.heads)
      && (forall id :: id in q.idle <==> id in fs.vol.idle)
  {
    var p := Recognised(fs.vol.headers, |fs.vol.headers|);
    RecognisedAll(fs);
    HeadsOnce(fs.vol.headers);
    RelinkAllExact(fs, p.(heads := []), p.heads);
    AllRestored(fs, p.(heads := []), Load(fs.vol.headers), p.heads);
  }

  lemma {:induction false} RecognisedTells(fs: FileSystem, x: nat)
    ensures var hs := fs.vol.headers;
      var p := Recognised(hs, |hs|);
      && (x in p.idle <==> x in fs.vol.idle) && (x in p.heads <==> x in fs.elems)
      && (x in p.wild <==> x in fs.vol.busy && x !in fs.elems && x < |hs| && hs[x].head in fs.elems)
  {
    RecognisedMembers(fs.vol.headers, |fs.vol.headers|, x);
    if 1 <= x < |fs.vol.headers| {
      HeadersTell(fs, x);
    } else {
      EntriesInside(fs);
    }
  }

  lemma {:induction false} EntriesInside(fs: FileSystem)
    ensures forall h :: h in fs.elems ==> 0 < h < |fs.vol.headers|
  {
    forall h | h in fs.elems ensures 0 < h < |fs.vol.headers| {
      assert ChainInv(fs.vol.headers, fs.vol.seg, h, fs.elems[h]);
    }
  }

  // ---------- the loops ----------

  /** evfs_view_load and the recognising of its views. */
  method Recognise(hs: seq<Header>) returns (p: Places)
    ensures p == Recognised(hs, |hs|)
  {
    p := Places([], [], map[], []);
    var id: nat := 1;
    while id < |hs|
      invariant 1 <= id && (id <= |hs| || |hs| == 0) && p == Recognised(hs, Min(id, |hs|))
    {
      if LooksBusy(hs[id]) {
        if LooksHead(hs[id]) {
          p := p.(heads := p.heads + [id]);
        } else {
          p := p.(wild := p.wild + [id]);
        }
      } else {
        p := p.(idle := p.idle + [id]);
      }
      id := id + 1;
    }
  }

  /** The inner loops of __evfs_entries_init for one head. */
  method WalkFrom(hs: seq<Header>, wild: seq<nat>, first: int) returns (w: Walked)
    requires Below(wild, |hs|)
    ensures w == Walk(hs, wild, first)
  {
    var next := first;
    w := Walked([], wild, true);
    while next > 0 && w.ok
      invariant Below(w.wild, |hs|)
      invariant !w.ok ==> w == Walk(hs, wild, first)
      invariant w.ok ==> Continues(Walk(hs, wild, first), w.ids, Walk(hs, w.wild, next))
      decreases w.ok, |w.wild|
    {
      if next in w.wild {
        var id: nat := next;
        WithoutShorter(w.wild, id, |hs|);
        ContinuesStep(hs, Walk(hs, wild, first), w.ids, w.wild, id);
        w := Walked(w.ids + [id], Without(w.wild, id), true);
        next := hs[id].next;
      } else {
        assert w.ids + [] == w.ids;
        w := w.(ok := false);
      }
    }
    assert w.ids + [] == w.ids;
  }

  ghost predicate Continues(all: Walked, ids: seq<nat>, rest: Walked) {
    all == Walked(ids + rest.ids, rest.wild, rest.ok)
  }

  lemma {:induction false} ContinuesStep(hs: seq<Header>, all: Walked, ids: seq<nat>, wild: seq<nat>, id: nat)
    requires Below(wild, |hs|) && id > 0 && id in wild && Continues(all, ids, Walk(hs, wild, id))
    ensures id < |hs| && Below(Without(wild, id), |hs|)
    ensures Continues(all, ids + [id], Walk(hs, Without(wild, id), hs[id].next))
  {
    WithoutShorter(wild, id, |hs|);
    var rest := Walk(hs, Without(wild, id), hs[id].next);
    assert ids + ([id] + rest.ids) == ids + [id] + rest.ids;
  }

  /** __evfs_entries_init after the recognising: every head gets its elements or goes. */
  method LoadEntries(hs: seq<Header>) returns (p: Places)
    ensures p == Load(hs)
  {
    p := Recognise(hs);
    var todo := p.heads;
    p := p.(heads := []);
    for i := 0 to |todo|
      invariant Below(p.wild, |hs|) && RelinkAll(hs, p, todo[i..]) == Load(hs)
    {
      var h := todo[i];
      var w := WalkFrom(hs, p.wild, hs[h].next);
      assert todo[i..][0] == h && todo[i..][1..] == todo[i + 1..];
      if w.ok {
        p := Places(p.idle, p.heads + [h], p.elems[h := w.ids], w.wild);
      } else {
        p := Places(p.idle + w.ids + [h], p.heads, p.elems, w.wild);
      }
    }
  }
}
