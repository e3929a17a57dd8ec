/** Which clusters a cache of `n` blocks holds that replaces the one used longest ago. */
module EvfsLru {
  import opened Bytes

  function LastOnes(n: nat, s: seq<int>): (r: seq<int>) { if |s| <= n then s else s[|s| - n..] }

  /** The clusters of a cache after one more access to `id`, the one used longest ago first. */
  function Touched(n: nat, order: seq<int>, id: int): seq<int> { LastOnes(n, Without(order, id) + [id]) }

  /** A hit goes to the end; a miss too, at the cost of the first once all blocks are in use. */
  lemma {:induction false} TouchedIs(n: nat, order: seq<int>, id: int)
    requires NoDup(order) && |order| <= n
    ensures id in order ==> Touched(n, order, id) == Without(order, id) + [id]
    ensures id !in order && |order| < n ==> Touched(n, order, id) == order + [id]
    ensures id !in order && |order| == n > 0 ==> Touched(n, order, id) == order[1..] + [id]
    ensures n == 0 ==> Touched(n, order, id) == []
  {
    WithoutOne(order, id);
  }

  /** The different members of `s` in the order of their last occurrence. */
  function Recent(s: seq<int>): seq<int> {
    if s == [] then [] else Without(Recent(s[..|s| - 1]), s[|s| - 1]) + [s[|s| - 1]]
  }

  lemma {:induction false} WithoutBoth(a: seq<int>, b: seq<int>, x: int)
    ensures Without(a + b, x) == Without(a, x) + Without(b, x)
    decreases |a|
  {
    if a == [] {
      assert a + b == b;
    } else {
      assert (a + b)[1..] == a[1..] + b;
      WithoutBoth(a[1..], b, x);
    }
  }

  lemma {:induction false} RecentOneMore(s: seq<int>, x: int)
    ensures Recent(s + [x]) == Without(Recent(s), x) + [x]
  {
    assert (s + [x])[..|s|] == s;
  }

  lemma {:induction false} RecentMembers(s: seq<int>)
    ensures NoDup(Recent(s)) && (forall x :: x in Recent(s) <==> x in s)
    decreases |s|
  {
    if s != [] {
      var front, last := s[..|s| - 1], s[|s| - 1];
      RecentMembers(front);
      WithoutOne(Recent(front), last);
      assert s == front + [last];
    }
  }

  /** One access to a cache that holds the last `n` different clusters of `s`. */
  lemma {:induction false} TouchedIsRecent(n: nat, s: seq<int>, id: int)
    ensures Touched(n, LastOnes(n, Recent(s)), id) == LastOnes(n, Recent(s + [id]))
  {
    var r, l := Recent(s), LastOnes(n, Recent(s));
    var a := r[..|r| - |l|];
    assert r == a + l;
    RecentOneMore(s, id);
    RecentMembers(s);
    WithoutBoth(a, l, id);
    WithoutOne(l, id);
    Split(n, a, l, Without(a, id), Without(l, id), id);
  }

  lemma {:induction false} Split(n: nat, a: seq<int>, l: seq<int>, a': seq<int>, l': seq<int>, id: int)
    requires |l| == n || (a == [] && a' == [])
    requires |l| <= n && if id in l then |l'| == |l| - 1 else l' == l
    ensures LastOnes(n, l' + [id]) == LastOnes(n, a' + l' + [id])
  {
  }

  function Members(s: seq<int>): (m: set<int>)
    ensures forall x :: x in m <==> x in s
  {
    set x | x in s
  }

  /** A list without repetitions that fits is its own order. */
  lemma {:induction false} RecentSelf(s: seq<int>)
    requires NoDup(s)
    ensures Recent(s) == s
    decreases |s|
  {
    if s != [] {
      RecentSelf(s[..|s| - 1]);
    }
  }

  lemma {:induction false} RecentBehind(a: seq<int>, x: int, b: seq<int>) returns (p: seq<int>)
    requires x !in b
    ensures Recent(a + [x] + b) == p + [x] + Recent(b)
    decreases |b|
  {
    if b == [] {
      p := Without(Recent(a), x);
      RecentOneMore(a, x);
      assert a + [x] + b == a + [x] && p + [x] + Recent(b) == p + [x];
    } else {
      var front, last := b[..|b| - 1], b[|b| - 1];
      var q := RecentBehind(a, x, front);
      p := Without(q, last);
      assert a + [x] + b == a + [x] + front + [last];
      RecentOneMore(a + [x] + front, last);
      Unlinked(q, x, Recent(front), last);
    }
  }

  lemma {:induction false} Unlinked(q: seq<int>, x: int, r: seq<int>, last: int)
    requires x != last
    ensures Without(q + [x] + r, last) + [last] == Without(q, last) + [x] + (Without(r, last) + [last])
  {
    WithoutBoth(q + [x], r, last);
    WithoutBoth(q, [x], last);
  }

  lemma {:induction false} CountMembers(s: seq<int>)
    requires NoDup(s)
    ensures |Members(s)| == |s|
    decreases |s|
  {
    if s != [] {
      CountMembers(s[1..]);
      assert Members(s) == Members(s[1..]) + {s[0]};
    }
  }

  lemma {:induction false} SameMembers(s: seq<int>, t: seq<int>)
    requires forall x :: x in s <==> x in t
    ensures Members(s) == Members(t)
  {
    assert forall x :: x in Members(s) <==> x in Members(t);
  }

  /** After the accesses `a`, one to `x`, and `b` without `x`, the cluster `x` is cached if and only
      if `b` goes to fewer than `n` different clusters. */
  lemma {:induction false} CachedIff(n: nat, a: seq<int>, x: int, b: seq<int>)
    requires x !in b
    ensures x in LastOnes(n, Recent(a + [x] + b)) <==> |Members(b)| < n
  {
    var p := RecentBehind(a, x, b);
    var q := Recent(b);
    RecentMembers(b);
    RecentMembers(a + [x] + b);
    CountMembers(q);
    SameMembers(b, q);
    InLastOnes(n, p, x, q);
  }

  lemma {:induction false} InLastOnes(n: nat, p: seq<int>, x: int, q: seq<int>)
    requires NoDup(p + [x] + q)
    ensures x in LastOnes(n, p + [x] + q) <==> |q| < n
  {
    var s := p + [x] + q;
    assert s[|p|] == x;
    if |q| < n && n < |s| {
      assert s[|s| - n..][|p| - (|s| - n)] == x;
    }
  }
}
