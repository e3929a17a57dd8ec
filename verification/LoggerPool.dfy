/** The asynchronous logger: any number of threads in log_save and in log_flush, an atomic
    admission counter and a fixed pool of record nodes.

    A step is one atomic operation on the counter or one critical section of the pool lock;
    threads interleave freely between steps. */
module LoggerPool {
  import opened Bytes

  const MAXIMUM_LOGSAVE_COUNT := 500

  type Node = nat
  type Tid = nat
  type Record = seq<byte>

  /** Where a flusher is inside the loop of log_flush. */
  datatype Flush = Printing(node: Node) | Recycling(node: Node) | Settling

  /** The threads are grouped by where they are inside log_save: `rejected` and `admitted` are
      past the counter, on either side of the limit; `holding` have a node and fill it.
      `starved` records whether an admitted thread ever found the pool empty. */
  datatype Log = Log(
    pending: int, idle: seq<Node>, busy: seq<Node>, text: map<Node, Record>,
    rejected: set<Tid>, admitted: set<Tid>, holding: map<Tid, Node>,
    flushers: map<Tid, Flush>,
    queued: seq<Record>, printed: seq<Record>, starved: bool)

  datatype Step =
    | Count(t: Tid) | Reject(t: Tid) | GetNode(t: Tid) | Publish(t: Tid, r: Record)
    | Peek(t: Tid) | Print(t: Tid) | Recycle(t: Tid) | Settle(t: Tid)

  ghost predicate Enabled(s: Log, e: Step) {
    match e
    case Count(t) => t !in s.rejected && t !in s.admitted && t !in s.holding
    case Reject(t) => t in s.rejected
    case GetNode(t) => t in s.admitted
    case Publish(t, r) => t in s.holding
    case Peek(t) => t !in s.flushers && s.busy != []
    case Print(t) => t in s.flushers && s.flushers[t].Printing? && s.flushers[t].node in s.text
    case Recycle(t) => t in s.flushers && s.flushers[t].Recycling?
    case Settle(t) => t in s.flushers && s.flushers[t].Settling?
  }

  ghost function Next(s: Log, e: Step): Log
    requires Enabled(s, e)
  {
    match e
    case Count(t) =>
      if s.pending + 1 >= MAXIMUM_LOGSAVE_COUNT then s.(pending := s.pending + 1, rejected := s.rejected + {t})
      else s.(pending := s.pending + 1, admitted := s.admitted + {t})
    case Reject(t) => s.(pending := s.pending - 1, rejected := s.rejected - {t})
    case GetNode(t) =>
      if s.idle == [] then s.(admitted := s.admitted - {t}, starved := true)
      else s.(admitted := s.admitted - {t}, idle := s.idle[1..], holding := s.holding[t := s.idle[0]])
    case Publish(t, r) =>
      s.(holding := s.holding - {t}, busy := s.busy + [s.holding[t]],
         text := s.text[s.holding[t] := r], queued := s.queued + [r])
    case Peek(t) => s.(flushers := s.flushers[t := Printing(s.busy[0])])
    case Print(t) =>
      var n := s.flushers[t].node;
      s.(flushers := s.flushers[t := Recycling(n)], printed := s.printed + [s.text[n]])
    case Recycle(t) =>
      var n := s.flushers[t].node;
      s.(flushers := s.flushers[t := Settling],
         busy := Without(s.busy, n), idle := Without(s.idle, n) + [n])
    case Settle(t) => s.(flushers := s.flushers - {t}, pending := s.pending - 1)
  }

  ghost predicate Reaches(s: Log, run: seq<Step>, r: Log)
    decreases |run|
  {
    if run == [] then s == r
    else Enabled(s, run[0]) && Reaches(Next(s, run[0]), run[1..], r)
  }

  ghost function Initial(): Log {
    Log(0, seq(MAXIMUM_LOGSAVE_COUNT, i => i), [], map[], {}, {}, map[], map[], [], [], false)
  }

  // ---------- what every step keeps ----------

  /** The flushers that work on a node: they print it or take it off the list. */
  ghost function Working(flushers: map<Tid, Flush>): set<Tid> {
    set t | t in flushers && !flushers[t].Settling?
  }

  ghost function Settlers(flushers: map<Tid, Flush>): set<Tid> {
    set t | t in flushers && flushers[t].Settling?
  }

  /** At most one flusher is at work, and on the oldest queued record. */
  ghost predicate OneAtWork(flushers: map<Tid, Flush>, busy: seq<Node>) {
    && (forall t, u :: t in Working(flushers) && u in Working(flushers) ==> t == u)
    && (forall t :: t in Working(flushers) ==> busy != [] && flushers[t].node == busy[0])
  }

  /** Records admitted and not yet settled. */
  ghost function Admitted(s: Log): nat {
    |s.admitted| + |s.holding| + |s.busy| + |Settlers(s.flushers)|
  }

  /** The counter is the number of admitted records and of threads about to back out, and the
      admitted ones stay below the limit. */
  ghost predicate CounterOk(s: Log) {
    s.pending == Admitted(s) + |s.rejected| && Admitted(s) < MAXIMUM_LOGSAVE_COUNT
  }

  /** No node of the pool is in two places, and none is missing (see `EveryNodePlaced`). */
  ghost predicate PoolOk(idle: seq<Node>, busy: seq<Node>, holding: map<Tid, Node>) {
    && NoDup(idle) && NoDup(busy)
    && (forall n :: n in idle ==> n !in busy)
    && (forall t :: t in holding ==> holding[t] !in idle && holding[t] !in busy)
    && (forall t, u :: t in holding && u in holding && holding[t] == holding[u] ==> t == u)
    && (forall n :: n in idle ==> n < MAXIMUM_LOGSAVE_COUNT)
    && (forall n :: n in busy ==> n < MAXIMUM_LOGSAVE_COUNT)
    && (forall t :: t in holding ==> holding[t] < MAXIMUM_LOGSAVE_COUNT)
    && |idle| + |busy| + |holding| == MAXIMUM_LOGSAVE_COUNT
  }

  /** A thread is in one place of log_save at a time. */
  ghost predicate ThreadsOk(s: Log) {
    s.rejected !! s.admitted && s.rejected !! s.holding.Keys && s.admitted !! s.holding.Keys
  }

  ghost function Texts(text: map<Node, Record>, nodes: seq<Node>): seq<Record>
    requires forall n :: n in nodes ==> n in text
  {
    seq(|nodes|, i requires 0 <= i < |nodes| => text[nodes[i]])
  }

  /** Queued records are printed once each, in queue order; `out` of those still on the busy
      list are printed already. */
  ghost predicate OrderOk(busy: seq<Node>, text: map<Node, Record>, queued: seq<Record>, printed: seq<Record>,
                          out: nat) {
    && out <= |busy|
    && (forall n :: n in busy ==> n in text)
    && queued == printed + Texts(text, busy[out..])
  }

  /** One when a flusher has printed the oldest record and not yet taken it off the list. */
  ghost function Out(flushers: map<Tid, Flush>): nat {
    if exists t :: t in flushers && flushers[t].Recycling? then 1 else 0
  }

  ghost predicate Inv(s: Log) {
    && OneAtWork(s.flushers, s.busy) && ThreadsOk(s) && CounterOk(s)
    && PoolOk(s.idle, s.busy, s.holding)
    && OrderOk(s.busy, s.text, s.queued, s.printed, Out(s.flushers))
    && !s.starved
  }

  /** A flusher looks for a record only while no other is at work. */
  ghost predicate Alone(s: Log, e: Step) { e.Peek? ==> Working(s.flushers) == {} }

  ghost predicate Orderly(s: Log, run: seq<Step>)
    decreases |run|
  {
    run == [] || !Enabled(s, run[0]) || (Alone(s, run[0]) && Orderly(Next(s, run[0]), run[1..]))
  }

  lemma {:induction false} SettlersMore(flushers: map<Tid, Flush>, t: Tid)
    requires t in Working(flushers)
    ensures |Settlers(flushers[t := Settling])| == |Settlers(flushers)| + 1
    ensures Working(flushers[t := Settling]) == Working(flushers) - {t}
  {
    assert Settlers(flushers[t := Settling]) == Settlers(flushers) + {t};
  }

  lemma {:induction false} SettlersLess(flushers: map<Tid, Flush>, t: Tid)
    requires t in Settlers(flushers)
    ensures |Settlers(flushers - {t})| == |Settlers(flushers)| - 1
    ensures Working(flushers - {t}) == Working(flushers) && Out(flushers - {t}) == Out(flushers)
  {
    assert Settlers(flushers - {t}) == Settlers(flushers) - {t};
    if u :| u in flushers && flushers[u].Recycling? {
      assert u in flushers - {t};
    }
  }

  lemma {:induction false} AtWork(flushers: map<Tid, Flush>, t: Tid, x: Flush)
    requires t !in Settlers(flushers) && !x.Settling?
    ensures Settlers(flushers[t := x]) == Settlers(flushers)
    ensures Working(flushers[t := x]) == Working(flushers) + {t}
  {
  }

  lemma {:induction false} Grow(m: map<Tid, Node>, t: Tid, n: Node)
    requires t !in m
    ensures |m[t := n]| == |m| + 1
  {
    assert m[t := n].Keys == m.Keys + {t};
  }

  lemma {:induction false} Shrink(m: map<Tid, Node>, t: Tid)
    requires t in m
    ensures |m - {t}| == |m| - 1
  {
    assert (m - {t}).Keys == m.Keys - {t};
  }

  /** A node leaves the head of the idle list for a thread. */
  lemma {:induction false} PoolTake(idle: seq<Node>, busy: seq<Node>, holding: map<Tid, Node>, t: Tid)
    requires PoolOk(idle, busy, holding) && idle != [] && t !in holding
    ensures PoolOk(idle[1..], busy, holding[t := idle[0]])
  {
    Grow(holding, t, idle[0]);
    assert idle[0] in idle && idle[0] !in idle[1..];
    assert forall n :: n in idle[1..] ==> n in idle;
  }

  /** A thread hands its node to the tail of the busy list. */
  lemma {:induction false} PoolPublish(idle: seq<Node>, busy: seq<Node>, holding: map<Tid, Node>, t: Tid)
    requires PoolOk(idle, busy, holding) && t in holding
    ensures PoolOk(idle, busy + [holding[t]], holding - {t})
  {
    Shrink(holding, t);
  }

  /** The head of the busy list goes back to the tail of the idle list. */
  lemma {:induction false} PoolRecycle(idle: seq<Node>, busy: seq<Node>, holding: map<Tid, Node>)
    requires PoolOk(idle, busy, holding) && busy != []
    ensures PoolOk(Without(idle, busy[0]) + [busy[0]], Without(busy, busy[0]), holding)
    ensures Without(busy, busy[0]) == busy[1..]
  {
    var n := busy[0];
    assert n !in busy[1..] && n in busy;
    assert Without(busy, n) == busy[1..];
    assert busy == [n] + busy[1..];
  }

  lemma {:induction false} CountStep(s: Log, t: Tid)
    requires Inv(s) && Enabled(s, Count(t))
    ensures Inv(Next(s, Count(t)))
  {
    OneMore(s.rejected, t);
    OneMore(s.admitted, t);
  }

  lemma {:induction false} OneMore(threads: set<Tid>, t: Tid)
    requires t !in threads
    ensures |threads + {t}| == |threads| + 1
  {
  }

  lemma {:induction false} RejectStep(s: Log, t: Tid)
    requires Inv(s) && Enabled(s, Reject(t))
    ensures Inv(Next(s, Reject(t)))
  {
  }

  /** An admitted thread always finds a node. */
  lemma {:induction false} AdmittedFindsNode(s: Log, t: Tid)
    requires Inv(s) && t in s.admitted
    ensures s.idle != []
  {
    assert |s.admitted| == |s.admitted - {t}| + 1;
  }

  lemma {:induction false} GetNodeStep(s: Log, t: Tid)
    requires Inv(s) && Enabled(s, GetNode(t))
    ensures Inv(Next(s, GetNode(t)))
  {
    AdmittedFindsNode(s, t);
    PoolTake(s.idle, s.busy, s.holding, t);
    Grow(s.holding, t, s.idle[0]);
    assert |s.admitted| == |s.admitted - {t}| + 1;
  }

  lemma {:induction false} PublishStep(s: Log, t: Tid, x: Record)
    requires Inv(s) && Enabled(s, Publish(t, x))
    ensures Inv(Next(s, Publish(t, x)))
  {
    PoolPublish(s.idle, s.busy, s.holding, t);
    Shrink(s.holding, t);
    OrderPublish(s.busy, s.text, s.queued, s.printed, Out(s.flushers), s.holding[t], x);
  }

  lemma {:induction false} OrderPublish(busy: seq<Node>, text: map<Node, Record>, queued: seq<Record>,
                                        printed: seq<Record>,
                     out: nat, n: Node, x: Record)
    requires OrderOk(busy, text, queued, printed, out) && n !in busy
    ensures OrderOk(busy + [n], text[n := x], queued + [x], printed, out)
  {
    assert (busy + [n])[out..] == busy[out..] + [n];
    assert Texts(text[n := x], (busy + [n])[out..]) == Texts(text, busy[out..]) + [x];
  }

  /** While nobody is at work, every record on the list is still to be printed. */
  lemma {:induction false} NobodyOut(flushers: map<Tid, Flush>)
    requires Working(flushers) == {}
    ensures Out(flushers) == 0
  {
    assert forall t :: t in flushers && flushers[t].Recycling? ==> t in Working(flushers);
  }

  lemma {:induction false} PeekStep(s: Log, t: Tid)
    requires Inv(s) && Enabled(s, Peek(t)) && Working(s.flushers) == {}
    ensures Inv(Next(s, Peek(t)))
  {
    var flushers := s.flushers[t := Printing(s.busy[0])];
    AtWork(s.flushers, t, Printing(s.busy[0]));
    NobodyOut(s.flushers);
    OnlyWorker(flushers, t);
  }

  /** The one flusher at work decides what is out. */
  lemma {:induction false} OnlyWorker(flushers: map<Tid, Flush>, t: Tid)
    requires Working(flushers) == {t}
    ensures Out(flushers) == if flushers[t].Recycling? then 1 else 0
  {
    assert t in Working(flushers);
    if u :| u in flushers && flushers[u].Recycling? {
      assert u in Working(flushers);
    }
  }

  lemma {:induction false} AtWorkAlone(flushers: map<Tid, Flush>, busy: seq<Node>, t: Tid)
    requires OneAtWork(flushers, busy) && t in flushers && !flushers[t].Settling?
    ensures Working(flushers) == {t} && busy != [] && flushers[t].node == busy[0]
  {
    assert t in Working(flushers);
  }

  lemma {:induction false} PrintOrder(busy: seq<Node>, text: map<Node, Record>, queued: seq<Record>,
                                      printed: seq<Record>)
    requires OrderOk(busy, text, queued, printed, 0) && busy != []
    ensures OrderOk(busy, text, queued, printed + [text[busy[0]]], 1)
  {
    assert busy[0..] == [busy[0]] + busy[1..];
    assert Texts(text, busy[0..]) == [text[busy[0]]] + Texts(text, busy[1..]);
  }

  lemma {:induction false} PrintStep(s: Log, t: Tid)
    requires Inv(s) && Enabled(s, Print(t))
    ensures Inv(Next(s, Print(t)))
  {
    AtWorkAlone(s.flushers, s.busy, t);
    OnlyWorker(s.flushers, t);
    AtWork(s.flushers, t, Recycling(s.flushers[t].node));
    OnlyWorker(s.flushers[t := Recycling(s.flushers[t].node)], t);
    PrintOrder(s.busy, s.text, s.queued, s.printed);
  }

  lemma {:induction false} RecycleStep(s: Log, t: Tid)
    requires Inv(s) && Enabled(s, Recycle(t))
    ensures Inv(Next(s, Recycle(t)))
  {
    AtWorkAlone(s.flushers, s.busy, t);
    OnlyWorker(s.flushers, t);
    SettlersMore(s.flushers, t);
    NobodyOut(s.flushers[t := Settling]);
    PoolRecycle(s.idle, s.busy, s.holding);
    assert s.busy[1..][0..] == s.busy[1..];
  }

  lemma {:induction false} SettleStep(s: Log, t: Tid)
    requires Inv(s) && Enabled(s, Settle(t))
    ensures Inv(Next(s, Settle(t)))
  {
    assert t in Settlers(s.flushers);
    SettlersLess(s.flushers, t);
  }

  /** Every step keeps the invariant, provided a flusher starts on a record only while no other
      is at work. */
  lemma {:induction false} InvStep(s: Log, e: Step)
    requires Inv(s) && Enabled(s, e) && Alone(s, e)
    ensures Inv(Next(s, e))
  {
    match e
    case Count(t) => CountStep(s, t);
    case Reject(t) => RejectStep(s, t);
    case GetNode(t) => GetNodeStep(s, t);
    case Publish(t, r) => PublishStep(s, t, r);
    case Peek(t) => PeekStep(s, t);
    case Print(t) => PrintStep(s, t);
    case Recycle(t) => RecycleStep(s, t);
    case Settle(t) => SettleStep(s, t);
  }

  lemma {:induction false} InitialInv()
    ensures Inv(Initial())
  {
    NobodyOut(map[]);
    assert Settlers(map[]) == {};
    assert Initial().busy[0..] == [];
  }

  lemma {:induction false} RunInv(s: Log, run: seq<Step>, r: Log)
    requires Inv(s) && Reaches(s, run, r) && Orderly(s, run)
    ensures Inv(r)
    decreases |run|
  {
    if run != [] {
      InvStep(s, run[0]);
      RunInv(Next(s, run[0]), run[1..], r);
    }
  }

  /** Safety of the pool for any number of saving and flushing threads, of which one at a time
      is at work on a record: at most 499 admitted records, never more nodes in use than
      admitted records, an admitted thread never finds the pool empty, and the printed records
      are a prefix of the queued ones. */
  lemma {:induction false} PoolSafety(run: seq<Step>, r: Log)
    requires Reaches(Initial(), run, r) && Orderly(Initial(), run)
    ensures Inv(r) && !r.starved
    ensures Admitted(r) <= 499 && MAXIMUM_LOGSAVE_COUNT - |r.idle| <= Admitted(r)
    ensures forall t :: t in r.admitted ==> r.idle != []
    ensures r.printed <= r.queued
  {
    InitialInv();
    RunInv(Initial(), run, r);
  }

  // ---------- nothing is dropped without need ----------

  /** A thread is admitted exactly while fewer than 499 records are admitted or being refused, and
      whether it is or not nobody else is affected. */
  lemma {:induction false} CountAdmitsIff(s: Log, t: Tid)
    requires Inv(s) && Enabled(s, Count(t))
    ensures var r := Next(s, Count(t));
      if Admitted(s) + |s.rejected| < 499
      then r.admitted == s.admitted + {t} && r.rejected == s.rejected
      else r.admitted == s.admitted && r.rejected == s.rejected + {t}
    ensures var r := Next(s, Count(t)); (r.queued, r.printed, r.busy) == (s.queued, s.printed, s.busy)
  {
  }

  /** The first `k` threads are admitted, and nothing else has happened. */
  ghost predicate Filling(s: Log, k: nat) {
    && Inv(s) && s.rejected == {} && s.admitted == Upto(k) && s.holding == map[] && s.busy == []
    && s.flushers == map[]
  }

  lemma {:induction false} FillMore(s: Log, k: nat)
    requires Filling(s, k) && k < 499
    ensures Enabled(s, Count(k)) && Admitted(s) == k && Filling(Next(s, Count(k)), k + 1)
  {
    assert Settlers(map[]) == {};
    CountStep(s, k);
    CountAdmitsIff(s, k);
    assert Upto(k + 1) == Upto(k) + {k};
  }

  /** The limit can be reached: 499 records are admitted together, and the next thread is not. */
  lemma {:induction false} LimitReached(s: Log, k: nat) returns (r: Log)
    requires Filling(s, k) && k <= 499
    ensures Leads(s, r) && Inv(r) && Admitted(r) == 499
    ensures forall t :: Enabled(r, Count(t)) ==> t in Next(r, Count(t)).rejected
    decreases 499 - k
  {
    if k == 499 {
      r := s;
      assert Settlers(map[]) == {};
      LeadsHere(s);
    } else {
      FillMore(s, k);
      r := LimitReached(Next(s, Count(k)), k + 1);
      LeadsOn(s, Count(k), r);
    }
  }

  lemma {:induction false} LimitReachedFromStart() returns (r: Log)
    ensures Leads(Initial(), r) && Inv(r) && Admitted(r) == 499
  {
    InitialInv();
    assert Upto(0) == {};
    r := LimitReached(Initial(), 0);
  }

  /** One round of the loop in log_flush, while nobody else is at work. */
  lemma {:induction false} FlushRound(s: Log, t: Tid) returns (r: Log)
    requires Inv(s) && Working(s.flushers) == {} && t !in s.flushers && s.busy != []
    ensures Inv(r) && Working(r.flushers) == {} && t !in r.flushers && r.busy == s.busy[1..]
    ensures r.queued == s.queued && r.pending == s.pending - 1
    ensures forall q :: Leads(r, q) ==> Leads(s, q)
  {
    var a := Next(s, Peek(t));
    PeekStep(s, t);
    AtWork(s.flushers, t, Printing(s.busy[0]));
    assert s.busy[0] in s.busy;
    var b := Next(a, Print(t));
    PrintStep(a, t);
    var c := Next(b, Recycle(t));
    RecycleStep(b, t);
    PoolRecycle(s.idle, s.busy, s.holding);
    r := Next(c, Settle(t));
    SettleStep(c, t);
    RoundsFlushers(s.flushers, t, s.busy[0]);
    forall q | Leads(r, q) ensures Leads(s, q) {
      LeadsOn(c, Settle(t), q);
      LeadsOn(b, Recycle(t), q);
      LeadsOn(a, Print(t), q);
      LeadsAlone(s, Peek(t), q);
    }
  }

  lemma {:induction false} RoundsFlushers(flushers: map<Tid, Flush>, t: Tid, n: Node)
    requires t !in flushers
    ensures flushers[t := Printing(n)][t := Recycling(n)][t := Settling] - {t} == flushers
  {
  }

  /** Whoever calls log_flush while nobody else is at work prints all that is queued. */
  lemma {:induction false} FlushPrintsAll(s: Log, t: Tid) returns (r: Log)
    requires Inv(s) && Working(s.flushers) == {} && t !in s.flushers
    ensures Leads(s, r) && Inv(r) && r.busy == [] && r.printed == s.queued == r.queued
    decreases |s.busy|
  {
    if s.busy == [] {
      r := s;
      NobodyOut(s.flushers);
      LeadsHere(s);
      assert s.busy[0..] == [] && s.printed + [] == s.printed;
    } else {
      var a := FlushRound(s, t);
      r := FlushPrintsAll(a, t);
    }
  }

  ghost function Elements(q: seq<Node>): (r: set<Node>)
    ensures forall n :: n in r <==> n in q
  {
    set n | n in q
  }

  lemma {:induction false} ListCardinality(q: seq<Node>)
    requires NoDup(q)
    ensures |Elements(q)| == |q|
  {
    if q == [] {
      assert Elements(q) == {};
    } else {
      ListCardinality(q[1..]);
      assert q[0] !in q[1..] && q == [q[0]] + q[1..];
      assert Elements(q) == Elements(q[1..]) + {q[0]};
    }
  }

  lemma {:induction false} HeldCardinality(m: map<Tid, Node>)
    requires forall t, u :: t in m && u in m && m[t] == m[u] ==> t == u
    ensures |m.Values| == |m|
    decreases |m|
  {
    if m.Keys == {} {
      assert m.Values == {};
    } else {
      var t :| t in m;
      var r := m - {t};
      assert r.Keys == m.Keys - {t};
      HeldCardinality(r);
      forall v | v in m.Values ensures v in r.Values + {m[t]} {
        var u :| u in m && m[u] == v;
        if u != t {
          assert r[u] == v;
        }
      }
      forall v | v in r.Values ensures v in m.Values && v != m[t] {
        var u :| u in r && r[u] == v;
        assert m[u] == v;
      }
      assert m.Values == r.Values + {m[t]};
    }
  }

  ghost function Upto(k: nat): (r: set<Node>)
    ensures |r| == k && forall n: Node :: n in r <==> n < k
  {
    if k == 0 then {} else Upto(k - 1) + {k - 1}
  }

  /** A set of `k` numbers below `k` holds all of them. */
  lemma {:induction false} FullAt(a: set<Node>, k: nat, n: Node)
    requires |a| == k && n < k && forall m :: m in a ==> m < k
    ensures n in a
  {
    assert Upto(k) == a + (Upto(k) - a);
  }

  lemma {:induction false} HeldApart(idle: seq<Node>, busy: seq<Node>, holding: map<Tid, Node>, v: Node)
    requires PoolOk(idle, busy, holding) && v in holding.Values
    ensures v < MAXIMUM_LOGSAVE_COUNT && v !in Elements(idle) && v !in Elements(busy)
  {
    var t :| t in holding && holding[t] == v;
  }

  lemma {:induction false} ThreeParts(i: set<Node>, b: set<Node>, h: set<Node>, k: nat, n: Node)
    requires i !! b && i !! h && b !! h && |i| + |b| + |h| == k && n < k
    requires (forall m :: m in i ==> m < k) && (forall m :: m in b ==> m < k) && (forall m :: m in h ==> m < k)
    ensures n in i || n in b || n in h
  {
    assert |i + b + h| == |i + b| + |h|;
    FullAt(i + b + h, k, n);
  }

  /** Every node of the pool is in exactly one place. */
  lemma {:induction false} EveryNodePlaced(idle: seq<Node>, busy: seq<Node>, holding: map<Tid, Node>, n: Node)
    requires PoolOk(idle, busy, holding) && n < MAXIMUM_LOGSAVE_COUNT
    ensures n in idle || n in busy || n in holding.Values
    ensures !(n in idle && n in busy) && !(n in idle && n in holding.Values) && !(n in busy && n in holding.Values)
  {
    ListCardinality(idle);
    ListCardinality(busy);
    HeldCardinality(holding);
    forall v | v in holding.Values ensures v < MAXIMUM_LOGSAVE_COUNT && v !in Elements(idle) && v !in Elements(busy) {
      HeldApart(idle, busy, holding, v);
    }
    ThreeParts(Elements(idle), Elements(busy), holding.Values, MAXIMUM_LOGSAVE_COUNT, n);
  }

  // ---------- a second flusher at work ----------

  /** More records have been printed than were queued and have left the list. */
  ghost predicate PrintedTwice(s: Log) { |s.printed| + |s.busy| > |s.queued| + Out(s.flushers) }

  /** The counter has lost an admitted record, so that too many will be admitted. */
  ghost predicate Undercounted(s: Log) { s.pending < Admitted(s) + |s.rejected| }

  /** Some run from `s`, orderly from there on, leads to `r`. */
  ghost predicate Leads(s: Log, r: Log) {
    match s
    case Log(_, _, _, _, _, _, _, _, _, _, _) => exists run :: Orderly(s, run) && Reaches(s, run, r)
  }

  lemma {:induction false} LeadsHere(s: Log)
    ensures Leads(s, s)
  {
    assert Orderly(s, []) && Reaches(s, [], s);
  }

  lemma {:induction false} LeadsOn(s: Log, e: Step, r: Log)
    requires Enabled(s, e) && !e.Peek? && Leads(Next(s, e), r)
    ensures Leads(s, r)
  {
    var run :| Orderly(Next(s, e), run) && Reaches(Next(s, e), run, r);
    assert ([e] + run)[1..] == run;
    assert Orderly(s, [e] + run) && Reaches(s, [e] + run, r);
  }

  lemma {:induction false} InvNotHarmed(s: Log)
    requires Inv(s)
    ensures !PrintedTwice(s) && !Undercounted(s)
  {
  }

  lemma {:induction false} LeadsAlone(s: Log, e: Step, r: Log)
    requires Enabled(s, e) && Alone(s, e) && Leads(Next(s, e), r)
    ensures Leads(s, r)
  {
    var run :| Orderly(Next(s, e), run) && Reaches(Next(s, e), run, r);
    assert ([e] + run)[1..] == run;
    assert Orderly(s, [e] + run) && Reaches(s, [e] + run, r);
  }

  /** A flusher that has printed its node takes it off the list and settles. */
  ghost function Finished(s: Log, t: Tid): Log
    requires t in s.flushers && s.flushers[t].Recycling?
  {
    var n := s.flushers[t].node;
    s.(flushers := s.flushers - {t}, pending := s.pending - 1,
       busy := Without(s.busy, n), idle := Without(s.idle, n) + [n])
  }

  lemma {:induction false} Finish(s: Log, t: Tid, r: Log)
    requires t in s.flushers && s.flushers[t].Recycling? && Leads(Finished(s, t), r)
    ensures Leads(s, r)
  {
    var a := Next(s, Recycle(t));
    assert a.flushers - {t} == s.flushers - {t};
    assert Next(a, Settle(t)) == Finished(s, t);
    LeadsOn(a, Settle(t), r);
    LeadsOn(s, Recycle(t), r);
  }

  /** A second flusher goes through with the node that `t` has printed. */
  lemma {:induction false} SecondRound(s: Log, t: Tid, u: Tid) returns (r: Log)
    requires t in s.flushers && s.flushers[t].Recycling? && t != u
    requires u in s.flushers && s.flushers[u] == Printing(s.flushers[t].node) && s.flushers[u].node in s.text
    ensures Leads(s, r) && r.queued == s.queued && |r.printed| == |s.printed| + 1 && r.pending == s.pending - 2
    ensures r.busy == Without(s.busy, s.flushers[t].node) && r.flushers == s.flushers - {t} - {u}
    ensures (r.admitted, r.holding, r.rejected) == (s.admitted, s.holding, s.rejected)
  {
    var c := Finished(s, t);
    var d := Next(c, Print(u));
    r := Finished(d, u);
    assert r.flushers == s.flushers - {t} - {u};
    LeadsHere(r);
    Finish(d, u, r);
    LeadsOn(c, Print(u), r);
    Finish(s, t, r);
  }

  lemma {:induction false} TwiceTaken(s: Log, t: Tid, r: Log)
    requires Inv(s) && t in s.flushers && !s.flushers[t].Settling?
    requires r.queued == s.queued && |r.printed| == |s.printed| + 2 - Out(s.flushers) && r.pending == s.pending - 2
    requires s.busy != [] && r.busy == Without(s.busy, s.busy[0]) && r.flushers == s.flushers - {t}
    requires (r.admitted, r.holding, r.rejected) == (s.admitted, s.holding, s.rejected)
    ensures PrintedTwice(r) && Undercounted(r)
  {
    AtWorkAlone(s.flushers, s.busy, t);
    WithoutOne(s.busy, s.busy[0]);
    assert Working(r.flushers) == {};
    NobodyOut(r.flushers);
    assert Settlers(r.flushers) == Settlers(s.flushers);
  }

  lemma {:induction false} BothFlush(s: Log, t: Tid, u: Tid) returns (r: Log)
    requires s.busy != [] && s.busy[0] in s.text && t in s.flushers && u !in s.flushers
    requires s.flushers[t] == Printing(s.busy[0]) || s.flushers[t] == Recycling(s.busy[0])
    ensures Leads(Next(s, Peek(u)), r) && r.queued == s.queued && r.pending == s.pending - 2
    ensures |r.printed| == |s.printed| + if s.flushers[t].Printing? then 2 else 1
    ensures r.busy == Without(s.busy, s.busy[0]) && r.flushers == s.flushers - {t}
    ensures (r.admitted, r.holding, r.rejected) == (s.admitted, s.holding, s.rejected)
  {
    var a := Next(s, Peek(u));
    if s.flushers[t].Printing? {
      r := SecondRound(Next(a, Print(t)), t, u);
      LeadsOn(a, Print(t), r);
    } else {
      r := SecondRound(a, t, u);
    }
    assert r.flushers == s.flushers - {t};
  }

  /** When a flusher is at work, a second one that looks for a record takes the same node, prints
      it again and settles for it again. */
  lemma {:induction false} SecondPeek(s: Log, t: Tid, u: Tid) returns (r: Log)
    requires Inv(s) && Enabled(s, Peek(u)) && t in s.flushers && !s.flushers[t].Settling?
    ensures Leads(Next(s, Peek(u)), r) && PrintedTwice(r) && Undercounted(r)
  {
    AtWorkAlone(s.flushers, s.busy, t);
    OnlyWorker(s.flushers, t);
    assert s.busy[0] in s.busy;
    r := BothFlush(s, t, u);
    TwiceTaken(s, t, r);
  }

  /** Looking for a record can do harm exactly when another flusher is at work. */
  lemma {:induction false} PeekHarmsIff(s: Log, u: Tid)
    requires Inv(s) && Enabled(s, Peek(u))
    ensures (exists r :: Leads(Next(s, Peek(u)), r) && (PrintedTwice(r) || Undercounted(r))) <==>
      Working(s.flushers) != {}
  {
    var a := Next(s, Peek(u));
    if t :| t in Working(s.flushers) {
      var r := SecondPeek(s, t, u);
    } else {
      InvStep(s, Peek(u));
      forall r | Leads(a, r) ensures !PrintedTwice(r) && !Undercounted(r) {
        LeadsSafe(a, r);
      }
    }
  }

  lemma {:induction false} LeadsSafe(s: Log, r: Log)
    requires Inv(s) && Leads(s, r)
    ensures Inv(r) && !PrintedTwice(r) && !Undercounted(r)
  {
    var run :| Orderly(s, run) && Reaches(s, run, r);
    RunInv(s, run, r);
    InvNotHarmed(r);
  }

  lemma {:induction false} ReachesThen(a: Log, x: seq<Step>, b: Log, e: Step)
    requires Reaches(a, x, b) && Enabled(b, e)
    ensures Reaches(a, x + [e], Next(b, e))
    decreases |x|
  {
    if x != [] {
      ReachesThen(Next(a, x[0]), x[1..], b, e);
      assert (x + [e])[1..] == x[1..] + [e];
    }
  }

  ghost predicate Reachable(s: Log) { exists run :: Reaches(Initial(), run, s) }

  lemma {:induction false} Then(s: Log, e: Step) returns (r: Log)
    requires Reachable(s) && Enabled(s, e)
    ensures Reachable(r) && r == Next(s, e)
  {
    var run :| Reaches(Initial(), run, s);
    ReachesThen(Initial(), run, s, e);
    r := Next(s, e);
  }

  /** log_flush is public: when two threads are in it at once, a record can be printed twice. */
  lemma {:induction false} TwoFlushersPrintTwice() returns (r: Log)
    ensures Reachable(r) && r.queued == [[7]] && r.printed == [[7], [7]]
  {
    assert Reaches(Initial(), [], Initial());
    r := Then(Initial(), Count(0));
    r := Then(r, GetNode(0));
    r := Then(r, Publish(0, [7]));
    assert r.busy == [0] && r.text == map[0 := [7]];
    r := Then(r, Peek(1));
    r := Then(r, Peek(2));
    r := Then(r, Print(1));
    r := Then(r, Print(2));
  }
}
