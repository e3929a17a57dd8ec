/** Several threads in tcp_write on one link: the overflow flag is looked at outside the critical
    section that uses it. This model tells packets apart by number and counts their bytes, and
    lets the worker send whenever it can; TcpSend models one writer in full. */
module TcpWriters {
  import TcpSend

  type Tid = nat

  /** The packet `id`, and how many of its bytes the kernel has not taken yet. */
  datatype Packet = Packet(id: nat, left: nat)

  /** Where a thread is inside tcp_write; a thread that is not in it has no place. */
  datatype Place =
    | Built(node: Packet)                   // overflow not looked at yet
    | Sending(node: Packet)                 // overflow was off: in tcp_txn
    | Queues(node: Packet, begun: bool)     // about to call fifo_queue; `begun`: after tcp_txn

  /** `kernel` has the packet number of every byte given to the kernel, `next` is the number of
      the next packet, `committed` are the packets taken on. */
  datatype Line = Line(
    kernel: seq<nat>, nodes: seq<Packet>, overflow: bool, writers: map<Tid, Place>,
    next: nat, committed: seq<Packet>, refused: bool)

  datatype Move =
    | Enter(t: Tid, size: nat) | Check(t: Tid) | Send(t: Tid, n: nat) | Full(t: Tid) | Queue(t: Tid)
    | Drain(n: nat) | Pop

  predicate Can(s: Line, e: Move) {
    match e
    case Enter(t, size) => t !in s.writers && size > 0
    case Check(t) => t in s.writers && s.writers[t].Built?
    case Send(t, n) => t in s.writers && s.writers[t].Sending? && 0 < n <= s.writers[t].node.left
    case Full(t) => t in s.writers && s.writers[t].Sending?
    case Queue(t) => t in s.writers && s.writers[t].Queues?
    case Drain(n) => s.nodes != [] && 0 < n <= s.nodes[0].left
    case Pop => s.nodes != [] && s.nodes[0].left == 0
  }

  function Sent(p: Packet, n: nat): seq<nat> { seq(n, _ => p.id) }

  function Less(p: Packet, n: nat): Packet
    requires n <= p.left
  {
    p.(left := p.left - n)
  }

  function After(s: Line, e: Move): Line
    requires Can(s, e)
  {
    match e
    case Enter(t, size) => s.(writers := s.writers[t := Built(Packet(s.next, size))], next := s.next + 1)
    case Check(t) =>
      var p := s.writers[t].node;
      if s.overflow then s.(writers := s.writers[t := Queues(p, false)])
      else s.(writers := s.writers[t := Sending(p)], committed := s.committed + [p])
    case Send(t, n) =>
      var p := s.writers[t].node;
      s.(kernel := s.kernel + Sent(p, n),
         writers := if n == p.left then s.writers - {t} else s.writers[t := Sending(Less(p, n))])
    case Full(t) => s.(writers := s.writers[t := Queues(s.writers[t].node, true)])
    case Queue(t) =>
      var p, begun := s.writers[t].node, s.writers[t].begun;
      if |s.nodes| >= TcpSend.MAXIMUM_FIFO_SIZE then s.(writers := s.writers - {t}, refused := s.refused || begun)
      else s.(nodes := s.nodes + [p], overflow := true, writers := s.writers - {t},
              committed := if begun then s.committed else s.committed + [p])
    case Drain(n) => s.(kernel := s.kernel + Sent(s.nodes[0], n), nodes := [Less(s.nodes[0], n)] + s.nodes[1..])
    case Pop => s.(nodes := s.nodes[1..], overflow := s.overflow && |s.nodes| > 1)
  }

  // ---------- order ----------

  /** The bytes of some packets, one after the other. */
  function Flat(ps: seq<Packet>): seq<nat> {
    if ps == [] then [] else Sent(ps[0], ps[0].left) + Flat(ps[1..])
  }

  /** The kernel has, and is going to get from the queue, the committed packets in order. */
  predicate Ordered(s: Line) { s.kernel + Flat(s.nodes) <= Flat(s.committed) }

  /** The thread has begun to send its packet and has not sent or queued all of it. */
  predicate HasBegun(w: Place) { w.Sending? || (w.Queues? && w.begun) }

  function Begun(writers: map<Tid, Place>): set<Tid> { set t | t in writers && HasBegun(writers[t]) }

  /** At most one thread has begun, and while one has, nothing is queued; what it has left is all
      that is missing. */
  ghost predicate RestOk(s: Line) {
    && (forall t, u :: t in Begun(s.writers) && u in Begun(s.writers) ==> t == u)
    && (forall t :: t in Begun(s.writers) ==>
         s.nodes == [] && s.kernel + Sent(s.writers[t].node, s.writers[t].node.left) == Flat(s.committed))
    && (Begun(s.writers) == {} ==> s.kernel + Flat(s.nodes) == Flat(s.committed))
  }

  ghost predicate NumbersOk(writers: map<Tid, Place>, next: nat) {
    && (forall t :: t in writers ==> writers[t].node.id < next && writers[t].node.left > 0)
    && (forall t, u :: t in writers && u in writers && writers[t].node.id == writers[u].node.id ==> t == u)
  }

  ghost predicate LineOk(s: Line) {
    match s
    case Line(_, nodes, overflow, writers, next, _, refused) =>
      && RestOk(s) && NumbersOk(writers, next) && |nodes| <= TcpSend.MAXIMUM_FIFO_SIZE
      && (overflow <==> nodes != []) && !refused
  }

  /** Some thread other than `t` has begun. */
  predicate OtherBegun(s: Line, t: Tid) { Begun(s.writers) - {t} != {} }

  /** The thread looks at the overflow flag, or queues its packet, between the first and the last
      byte of another's. */
  predicate Jumps(s: Line, e: Move) { (e.Check? || e.Queue?) && OtherBegun(s, e.t) }

  lemma {:induction false} FlatAppend(ps: seq<Packet>, p: Packet)
    ensures Flat(ps + [p]) == Flat(ps) + Sent(p, p.left)
    decreases |ps|
  {
    if ps != [] {
      FlatAppend(ps[1..], p);
      assert (ps + [p])[1..] == ps[1..] + [p];
    }
  }

  lemma {:induction false} SentSplits(p: Packet, n: nat)
    requires n <= p.left
    ensures Sent(p, n) + Sent(Less(p, n), p.left - n) == Sent(p, p.left)
  {
  }

  lemma {:induction false} OrderedNow(s: Line)
    requires LineOk(s)
    ensures Ordered(s)
  {
    if t :| t in Begun(s.writers) {
      assert Flat(s.nodes) == [];
      assert s.kernel + [] == s.kernel;
    }
  }

  lemma {:induction false} EnterStep(s: Line, t: Tid, size: nat)
    requires LineOk(s) && Can(s, Enter(t, size))
    ensures LineOk(After(s, Enter(t, size)))
  {
    assert Begun(After(s, Enter(t, size)).writers) == Begun(s.writers);
  }

  lemma {:induction false} CheckStep(s: Line, t: Tid)
    requires LineOk(s) && Can(s, Check(t)) && !Jumps(s, Check(t))
    ensures LineOk(After(s, Check(t)))
  {
    var r, p := After(s, Check(t)), s.writers[t].node;
    assert t !in Begun(s.writers);
    assert Begun(s.writers) == {};
    if s.overflow {
      assert Begun(r.writers) == {};
    } else {
      assert Begun(r.writers) == {t};
      FlatAppend(s.committed, p);
      assert s.kernel + Flat(s.nodes) == s.kernel;
    }
  }

  lemma {:induction false} SendStep(s: Line, t: Tid, n: nat)
    requires LineOk(s) && Can(s, Send(t, n))
    ensures LineOk(After(s, Send(t, n)))
  {
    var r, p := After(s, Send(t, n)), s.writers[t].node;
    assert t in Begun(s.writers);
    SentSplits(p, n);
    assert s.kernel + (Sent(p, n) + Sent(Less(p, n), p.left - n)) ==
      s.kernel + Sent(p, n) + Sent(Less(p, n), p.left - n);
    if n == p.left {
      assert Begun(r.writers) == {};
      assert r.kernel + Flat(r.nodes) == r.kernel;
    } else {
      assert Begun(r.writers) == {t};
    }
  }

  lemma {:induction false} FullStep(s: Line, t: Tid)
    requires LineOk(s) && Can(s, Full(t))
    ensures LineOk(After(s, Full(t)))
  {
    assert Begun(After(s, Full(t)).writers) == Begun(s.writers);
  }

  lemma {:induction false} QueueStep(s: Line, t: Tid)
    requires LineOk(s) && Can(s, Queue(t)) && !Jumps(s, Queue(t))
    ensures LineOk(After(s, Queue(t)))
  {
    var r, p := After(s, Queue(t)), s.writers[t].node;
    assert Begun(s.writers) <= {t};
    assert Begun(r.writers) == {};
    FlatAppend(s.nodes, p);
    if s.writers[t].begun {
      assert t in Begun(s.writers);
    } else {
      assert t !in Begun(s.writers);
      assert Begun(s.writers) == {};
      FlatAppend(s.committed, p);
      assert s.kernel + (Flat(s.nodes) + Sent(p, p.left)) == s.kernel + Flat(s.nodes) + Sent(p, p.left);
    }
  }

  lemma {:induction false} DrainStep(s: Line, n: nat)
    requires LineOk(s) && Can(s, Drain(n))
    ensures LineOk(After(s, Drain(n)))
  {
    var r, p := After(s, Drain(n)), s.nodes[0];
    SentSplits(p, n);
    assert r.nodes[1..] == s.nodes[1..];
    var rest := Flat(s.nodes[1..]);
    assert s.kernel + Sent(p, n) + (Sent(Less(p, n), p.left - n) + rest) ==
           s.kernel + (Sent(p, n) + Sent(Less(p, n), p.left - n) + rest);
  }

  lemma {:induction false} PopStep(s: Line)
    requires LineOk(s) && Can(s, Pop)
    ensures LineOk(After(s, Pop))
  {
    assert Sent(s.nodes[0], 0) + Flat(s.nodes[1..]) == Flat(s.nodes[1..]);
  }

  /** Every step keeps the packets in order, provided no thread jumps in. */
  lemma {:induction false} LineStep(s: Line, e: Move)
    requires LineOk(s) && Can(s, e) && !Jumps(s, e)
    ensures LineOk(After(s, e))
  {
    match e
    case Enter(t, size) => EnterStep(s, t, size);
    case Check(t) => CheckStep(s, t);
    case Send(t, n) => SendStep(s, t, n);
    case Full(t) => FullStep(s, t);
    case Queue(t) => QueueStep(s, t);
    case Drain(n) => DrainStep(s, n);
    case Pop => PopStep(s);
  }

  // ---------- runs ----------

  ghost predicate Goes(s: Line, run: seq<Move>, r: Line)
    decreases |run|
  {
    if run == [] then s == r else Can(s, run[0]) && Goes(After(s, run[0]), run[1..], r)
  }

  /** No step of the run jumps in. */
  ghost predicate InTurn(s: Line, run: seq<Move>)
    decreases |run|
  {
    run == [] || !Can(s, run[0]) || (!Jumps(s, run[0]) && InTurn(After(s, run[0]), run[1..]))
  }

  lemma {:induction false} TurnsOk(s: Line, run: seq<Move>, r: Line)
    requires LineOk(s) && Goes(s, run, r) && InTurn(s, run)
    ensures LineOk(r)
    decreases |run|
  {
    if run != [] {
      LineStep(s, run[0]);
      TurnsOk(After(s, run[0]), run[1..], r);
    }
  }

  ghost predicate New(s: Line) {
    s.kernel == [] && s.nodes == [] && !s.overflow && s.writers == map[] && s.committed == [] && !s.refused
  }

  /** Any number of threads may write: while none jumps in, the kernel is given the committed
      packets in order, and no packet that was begun is refused. */
  lemma {:induction false} WritersInOrder(s: Line, run: seq<Move>, r: Line)
    requires New(s) && Goes(s, run, r) && InTurn(s, run)
    ensures LineOk(r) && Ordered(r) && r.kernel <= Flat(r.committed) && !r.refused
  {
    assert Begun(s.writers) == {};
    TurnsOk(s, run, r);
    OrderedNow(r);
  }

  /** A packet is sent directly exactly when none waits, and queued exactly when fewer than 100
      do; one that was begun always is. */
  lemma {:induction false} WriterDecides(s: Line, t: Tid)
    requires LineOk(s) && t in s.writers
    ensures Can(s, Check(t)) ==>
      var r, p := After(s, Check(t)), s.writers[t].node;
      r == if s.nodes == [] then s.(writers := s.writers[t := Sending(p)], committed := s.committed + [p])
           else s.(writers := s.writers[t := Queues(p, false)])
    ensures Can(s, Queue(t)) ==>
      var r, p, begun := After(s, Queue(t)), s.writers[t].node, s.writers[t].begun;
      if |s.nodes| >= 100 then !begun && r == s.(writers := s.writers - {t})
      else r.nodes == s.nodes + [p] && r.committed == s.committed + (if begun then [] else [p])
  {
    if s.writers[t].Queues? && s.writers[t].begun {
      assert t in Begun(s.writers);
    }
  }

  /** Some run from `s`, in turn from there on, comes to a state out of order. */
  ghost predicate CanMix(s: Line) {
    exists run, r :: InTurn(s, run) && Goes(s, run, r) && !Ordered(r)
  }

  /** The bytes `p` where those of another packet, not all of them sent, should be. */
  lemma {:induction false} OutOfOrder(kernel: seq<nat>, p: Packet, q: Packet, n: nat, tail: seq<nat>, order: seq<nat>)
    requires order == kernel + Sent(q, q.left) + tail && 0 < n && q.left > 0 && p.id != q.id
    ensures !(kernel + Sent(p, n) <= order)
  {
    assert (kernel + Sent(p, n))[|kernel|] == p.id;
    assert order[|kernel|] == q.id;
  }

  lemma {:induction false} QueueMixes(s: Line, t: Tid, u: Tid)
    requires LineOk(s) && Can(s, Queue(t)) && u in Begun(s.writers) && u != t
    ensures CanMix(After(s, Queue(t)))
  {
    var r, p, q := After(s, Queue(t)), s.writers[t].node, s.writers[u].node;
    assert t !in Begun(s.writers);
    FlatAppend(s.committed, p);
    OutOfOrder(s.kernel, p, q, p.left, Sent(p, p.left), Flat(r.committed));
    assert r.nodes == [p];
    FlatAppend([], p);
    assert [] + [p] == [p] && [] + Sent(p, p.left) == Sent(p, p.left);
    assert InTurn(r, []) && Goes(r, [], r);
  }

  lemma {:induction false} CheckMixes(s: Line, t: Tid, u: Tid)
    requires LineOk(s) && Can(s, Check(t)) && u in Begun(s.writers) && u != t
    ensures CanMix(After(s, Check(t)))
  {
    var a, p, q := After(s, Check(t)), s.writers[t].node, s.writers[u].node;
    FlatAppend(s.committed, p);
    var r := After(a, Send(t, 1));
    OutOfOrder(s.kernel, p, q, 1, Sent(p, p.left), Flat(r.committed));
    assert r.kernel + Flat(r.nodes) == r.kernel;
    var run := [Send(t, 1)];
    assert Goes(r, run[1..], r) && InTurn(r, run[1..]);
    assert InTurn(a, run) && Goes(a, run, r);
  }

  /** A step can bring the packets out of order exactly when it jumps in. */
  lemma {:induction false} MixesIff(s: Line, e: Move)
    requires LineOk(s) && Can(s, e)
    ensures CanMix(After(s, e)) <==> Jumps(s, e)
  {
    if Jumps(s, e) {
      var u :| u in Begun(s.writers) - {e.t};
      if e.Check? {
        CheckMixes(s, e.t, u);
      } else {
        QueueMixes(s, e.t, u);
      }
    } else {
      LineStep(s, e);
      forall run, r | InTurn(After(s, e), run) && Goes(After(s, e), run, r) ensures Ordered(r) {
        TurnsOk(After(s, e), run, r);
        OrderedNow(r);
      }
    }
  }

  ghost predicate Breaks(s: Line) { exists run, r :: Goes(s, run, r) && !Ordered(r) }

  lemma {:induction false} BreaksLater(s: Line, e: Move)
    requires Can(s, e) && Breaks(After(s, e))
    ensures Breaks(s)
  {
    var run, r :| Goes(After(s, e), run, r) && !Ordered(r);
    assert ([e] + run)[1..] == run;
    assert Goes(s, [e] + run, r);
  }

  /** One thread has begun, and another is about to look at the flag. */
  lemma {:induction false} AboutToJump(s: Line) returns (a: Line, b: Line, c: Line)
    requires New(s)
    ensures Can(s, Enter(0, 2)) && a == After(s, Enter(0, 2)) && Can(a, Enter(1, 1)) && b == After(a, Enter(1, 1))
    ensures Can(b, Check(0)) && c == After(b, Check(0)) && LineOk(c) && Can(c, Check(1)) && 0 in Begun(c.writers)
  {
    assert Begun(s.writers) == {};
    a := After(s, Enter(0, 2));
    b := After(a, Enter(1, 1));
    c := After(b, Check(0));
    LineStep(s, Enter(0, 2));
    LineStep(a, Enter(1, 1));
    assert Begun(b.writers) == {};
    LineStep(b, Check(0));
  }

  /** Two threads that both see the overflow flag off are enough. */
  lemma {:induction false} TwoWritersMix(s: Line)
    requires New(s)
    ensures Breaks(s)
  {
    var a, b, c := AboutToJump(s);
    CheckMixes(c, 1, 0);
    BreaksLater(c, Check(1));
    BreaksLater(b, Check(0));
    BreaksLater(a, Enter(1, 1));
    BreaksLater(s, Enter(0, 2));
  }
}
