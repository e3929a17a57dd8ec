/** The send side of a non-blocking TCP link: one writer thread in tcp_write, the worker
    thread that drains the overflow queue, and the kernel, interleaved step by step.

    A step is what runs between two points where another thread can get in: one send(2),
    one critical section of the queue, one change of the epoll registration. */
module TcpSend {
  import opened Bytes

  const MAXIMUM_FIFO_SIZE := 100

  /** A packet to send and how much of it the kernel has taken. */
  datatype TxNode = TxNode(data: seq<byte>, offset: nat)

  function Remainder(n: TxNode): seq<byte>
    requires n.offset <= |n.data|
  {
    n.data[n.offset..]
  }

  datatype Status = Success | Ebusy | Enoent | Eagain

  // ---------- the overflow queue ----------

  /** The queue of a link. `armed` is whether epoll reports writability (EPOLLOUT). */
  datatype Queue = Queue(nodes: seq<TxNode>, size: int, overflow: bool, armed: bool)

  /** fifo_queue: one critical section. */
  function Enqueue(q: Queue, n: TxNode): (Queue, Status) {
    if q.size >= MAXIMUM_FIFO_SIZE then (q, Ebusy)
    else (Queue(q.nodes + [n], q.size + 1, true, if q.overflow then q.armed else true), Success)
  }

  /** fifo_pop up to the end of its critical section; the flag says that the overflow state
      was cancelled, so that the epoll registration is still to be changed. */
  function Dequeue(q: Queue): (r: (Queue, bool))
    requires q.nodes != []
  {
    var cancel := q.size - 1 == 0 && q.overflow;
    (Queue(q.nodes[1..], q.size - 1, q.overflow && !cancel, q.armed), cancel)
  }

  class Fifo {
    var nodes: seq<TxNode>
    var size: int
    var txOverflow: bool
    var armed: bool

    ghost function Value(): Queue
      reads this
    {
      Queue(nodes, size, txOverflow, armed)
    }

    constructor ()
      ensures Value() == Queue([], 0, false, false)
    {
      nodes, size, txOverflow, armed := [], 0, false, false;
    }

    method Put(node: TxNode) returns (status: Status)
      modifies this
      ensures (Value(), status) == Enqueue(old(Value()), node)
    {
      if size >= MAXIMUM_FIFO_SIZE {
        return Ebusy;
      }
      nodes := nodes + [node];
      if !txOverflow {
        armed := true;
        txOverflow := true;
      }
      size := size + 1;
      status := Success;
    }

    method Top() returns (status: Status, node: TxNode)
      ensures status == if nodes == [] then Enoent else Success
      ensures nodes != [] ==> node == nodes[0]
    {
      if nodes == [] {
        return Enoent, TxNode([], 0);
      }
      status, node := Success, nodes[0];
    }

    method Pop() returns (status: Status, canceled: bool)
      modifies this
      ensures old(nodes) == [] ==> status == Enoent && !canceled && Value() == old(Value())
      ensures old(nodes) != [] ==> status == Success && (Value(), canceled) == Dequeue(old(Value()))
    {
      canceled := false;
      if nodes == [] {
        return Enoent, false;
      }
      nodes := nodes[1..];
      size := size - 1;
      if size == 0 && txOverflow {
        txOverflow := false;
        canceled := true;
      }
      status := Success;
    }
  }

  /** How much a kernel that gives these answers is ready to take before its first EAGAIN, which
      is answered by 0. */
  function Ready(answers: seq<nat>): nat {
    if answers == [] || answers[0] == 0 then 0 else answers[0] + Ready(answers[1..])
  }

  lemma {:induction false} ReadyAt(answers: seq<nat>, i: nat)
    requires i < |answers|
    ensures Ready(answers[i..]) == if answers[i] == 0 then 0 else answers[i] + Ready(answers[i + 1..])
  {
    assert answers[i..][1..] == answers[i + 1..];
  }

  lemma {:induction false} OneMoreSlice(k: seq<byte>, d: seq<byte>, a: nat, b: nat, c: nat)
    requires a <= b <= c <= |d|
    ensures k + d[a..b] + d[b..c] == k + d[a..c]
  {
  }

  /** tcp_txn against a kernel that answers each send(2) with the bytes it takes (at least
      one, at most what is offered) or with EAGAIN. The kernel receives a contiguous slice of
      the packet, as much of it as it is ready to take, and success means that all of it has
      been taken. */
  method Txn(kernel: seq<byte>, node: TxNode, answers: seq<nat>)
    returns (kernel': seq<byte>, node': TxNode, status: Status)
    requires node.offset <= |node.data|
    ensures node'.data == node.data && node.offset <= node'.offset <= |node.data|
    ensures node'.offset == Min(|node.data|, node.offset + Ready(answers))
    ensures kernel' == kernel + node.data[node.offset..node'.offset]
    ensures status == if node'.offset == |node.data| then Success else Eagain
  {
    var offset, i := node.offset, 0;
    kernel' := kernel;
    assert answers[0..] == answers;
    while offset < |node.data|
      invariant node.offset <= offset <= |node.data| && i <= |answers|
      invariant kernel' == kernel + node.data[node.offset..offset]
      invariant Min(|node.data|, offset + Ready(answers[i..])) == Min(|node.data|, node.offset + Ready(answers))
      decreases |answers| - i, |node.data| - offset
    {
      if i == |answers| || answers[i] == 0 {
        assert Ready(answers[i..]) == 0;
        return kernel', TxNode(node.data, offset), Eagain;
      }
      ReadyAt(answers, i);
      var wcb := Min(answers[i], |node.data| - offset);
      OneMoreSlice(kernel, node.data, node.offset, offset, offset + wcb);
      kernel' := kernel' + node.data[offset..offset + wcb];
      offset := offset + wcb;
      i := i + 1;
    }
    node', status := TxNode(node.data, offset), Success;
  }

  // ---------- the protocol ----------

  /** Where the writer is inside tcp_write. */
  datatype Writer =
    | Outside
    | Framed(packet: seq<byte>)             // packet built, overflow not looked at yet
    | Direct(node: TxNode)                  // overflow was off: in tcp_txn
    | Queueing(node: TxNode, begun: bool)   // about to call fifo_queue; `begun`: after tcp_txn

  /** Where the worker is inside _wp_exec. */
  datatype Worker = Waiting | Exec | Draining | Popping | Canceling | Requeueing

  /** `committed` are the packets tcp_write has taken on: those it started to send and those
      it queued. `refused` records whether a packet that was already begun got EBUSY. */
  datatype Link = Link(kernel: seq<byte>, q: Queue, writer: Writer, worker: Worker, tasks: nat,
                       committed: seq<seq<byte>>, refused: bool)

  const INITIAL := Link([], Queue([], 0, false, false), Outside, Waiting, 0, [], false)

  datatype Step =
    | Write(packet: seq<byte>) | Look | SendDirect(n: nat) | DirectFull | Submit
    | Writable | GetTask | TakeTop | SendQueued(n: nat) | QueueFull | PopFront | Disarm | PutTask

  predicate Enabled(s: Link, e: Step) {
    match e
    case Write(p) => s.writer.Outside? && p != []
    case Look => s.writer.Framed?
    case SendDirect(n) => s.writer.Direct? && 0 < n && s.writer.node.offset + n <= |s.writer.node.data|
    case DirectFull => s.writer.Direct? && s.writer.node.offset < |s.writer.node.data|
    case Submit => s.writer.Queueing?
    case Writable => s.q.armed
    case GetTask => s.worker.Waiting? && s.tasks > 0
    case TakeTop => s.worker.Exec?
    case SendQueued(n) => s.worker.Draining? && s.q.nodes != [] && 0 < n
      && s.q.nodes[0].offset + n <= |s.q.nodes[0].data|
    case QueueFull => s.worker.Draining?
    case PopFront => s.worker.Popping? && s.q.nodes != []
    case Disarm => s.worker.Canceling?
    case PutTask => s.worker.Requeueing?
  }

  /** The next `k` bytes of a packet. */
  function Taken(n: TxNode, k: nat): seq<byte>
    requires n.offset + k <= |n.data|
  {
    n.data[n.offset..n.offset + k]
  }

  function Advance(n: TxNode, k: nat): TxNode { n.(offset := n.offset + k) }

  function Next(s: Link, e: Step): (r: Link)
    requires Enabled(s, e)
  {
    match e
    case Write(p) => s.(writer := Framed(p))
    case Look =>
      if s.q.overflow then s.(writer := Queueing(TxNode(s.writer.packet, 0), false))
      else s.(writer := Direct(TxNode(s.writer.packet, 0)), committed := s.committed + [s.writer.packet])
    case SendDirect(k) =>
      var n := s.writer.node;
      s.(kernel := s.kernel + Taken(n, k),
         writer := if n.offset + k == |n.data| then Outside else Direct(Advance(n, k)))
    case DirectFull => s.(writer := Queueing(s.writer.node, true))
    case Submit =>
      var (q, status) := Enqueue(s.q, s.writer.node);
      s.(q := q, writer := Outside,
         committed := if status.Success? && !s.writer.begun then s.committed + [s.writer.node.data] else s.committed,
         refused := s.refused || (status.Ebusy? && s.writer.begun))
    case Writable => s.(tasks := s.tasks + 1)
    case GetTask => s.(tasks := s.tasks - 1, worker := Exec)
    case TakeTop => s.(worker := if s.q.nodes == [] then Waiting else Draining)
    case SendQueued(k) =>
      var n := s.q.nodes[0];
      s.(kernel := s.kernel + Taken(n, k),
         q := s.q.(nodes := s.q.nodes[0 := Advance(n, k)]),
         worker := if n.offset + k == |n.data| then Popping else Draining)
    case QueueFull => s.(worker := Waiting)
    case PopFront =>
      var (q, canceled) := Dequeue(s.q);
      s.(q := q, worker := if canceled then Canceling else Requeueing)
    case Disarm => s.(q := s.q.(armed := false), worker := Requeueing)
    case PutTask => s.(tasks := s.tasks + 1, worker := Waiting)
  }

  /** What a run of steps leads to, as long as every step is possible. */
  ghost predicate Reaches(s: Link, run: seq<Step>, r: Link)
    decreases |run|
  {
    if run == [] then s == r
    else Enabled(s, run[0]) && Reaches(Next(s, run[0]), run[1..], r)
  }

  // ---------- what every step keeps ----------

  ghost function Flatten(ps: seq<seq<byte>>): seq<byte> {
    if ps == [] then [] else Flatten(ps[..|ps| - 1]) + ps[|ps| - 1]
  }

  /** The bytes still waiting in the queue, front first. */
  ghost function Pending(nodes: seq<TxNode>): seq<byte>
    requires forall i :: 0 <= i < |nodes| ==> nodes[i].offset <= |nodes[i].data|
  {
    if nodes == [] then [] else Remainder(nodes[0]) + Pending(nodes[1..])
  }

  /** The rest of a packet the writer has begun to send. */
  ghost function Begun(w: Writer): seq<byte>
    requires w.Direct? || w.Queueing? ==> w.node.offset <= |w.node.data|
  {
    if w.Direct? || (w.Queueing? && w.begun) then Remainder(w.node) else []
  }

  ghost predicate NodesOk(s: Link) {
    match s
    case Link(_, q, w, worker, _, _, _) =>
      && (forall i :: 0 <= i < |q.nodes| ==> q.nodes[i].offset <= |q.nodes[i].data|)
      && (w.Direct? || w.Queueing? ==> w.node.offset < |w.node.data|)
      && (w.Queueing? && !w.begun ==> w.node.offset == 0)
      && (w.Framed? ==> w.packet != [])
      && (worker.Draining? || worker.Popping? ==> q.nodes != [])
      && (worker.Popping? ==> q.nodes[0].offset == |q.nodes[0].data|)
  }

  /** The queue bookkeeping: the overflow flag says exactly whether packets wait, and their
      number is right and bounded. */
  ghost predicate QueueOk(s: Link) {
    s.q.size == |s.q.nodes| <= MAXIMUM_FIFO_SIZE && (s.q.overflow <==> s.q.size > 0)
  }

  /** The writer sends directly only while nothing is queued. */
  ghost predicate DirectAlone(s: Link) {
    s.writer.Direct? || (s.writer.Queueing? && s.writer.begun) ==> s.q.nodes == []
  }

  /** Some bytes, one part after the other, are `all` bytes. */
  predicate Adds(kernel: seq<byte>, pending: seq<byte>, begun: seq<byte>, all: seq<byte>) {
    match (kernel, pending, begun)
    case (x, y, z) => x + y + z == all
  }

  /** Kernel bytes so far and everything unsent are the committed packets, in order. */
  ghost predicate InOrder(s: Link)
    requires NodesOk(s)
  {
    match s
    case Link(kernel, q, writer, _, _, committed, _) =>
      Adds(kernel, Pending(q.nodes), Begun(writer), Flatten(committed))
  }

  ghost predicate Shape(s: Link) { NodesOk(s) && QueueOk(s) && DirectAlone(s) && !s.refused }

  ghost predicate Inv(s: Link) { Shape(s) && InOrder(s) }

  /** All of the invariant but the order. */
  lemma {:induction false} ShapeStep(s: Link, e: Step)
    requires Shape(s) && Enabled(s, e)
    ensures Shape(Next(s, e))
  {
    match e
    case SendQueued(k) =>
    case SendDirect(k) =>
    case Submit =>
    case PopFront =>
    case _ =>
  }

  lemma {:induction false} PendingAppend(nodes: seq<TxNode>, n: TxNode)
    requires n.offset <= |n.data| && forall i :: 0 <= i < |nodes| ==> nodes[i].offset <= |nodes[i].data|
    ensures Pending(nodes + [n]) == Pending(nodes) + Remainder(n)
  {
    if nodes != [] {
      PendingAppend(nodes[1..], n);
      assert (nodes + [n])[1..] == nodes[1..] + [n];
    }
  }

  lemma {:induction false} FlattenAppend(ps: seq<seq<byte>>, p: seq<byte>)
    ensures Flatten(ps + [p]) == Flatten(ps) + p
  {
    assert (ps + [p])[..|ps|] == ps;
  }

  lemma {:induction false} SlicedOff(n: TxNode, k: nat)
    requires n.offset + k <= |n.data|
    ensures Taken(n, k) + Remainder(Advance(n, k)) == Remainder(n)
  {
  }

  // What the parts are after bytes have moved from one to the next.

  lemma {:induction false} SentFromQueue(kernel: seq<byte>, sent: seq<byte>, rest: seq<byte>, begun: seq<byte>,
                                         all: seq<byte>)
    requires Adds(kernel, sent + rest, begun, all)
    ensures Adds(kernel + sent, rest, begun, all)
  {
    assert kernel + (sent + rest) + begun == (kernel + sent) + rest + begun;
  }

  lemma {:induction false} SentDirectly(kernel: seq<byte>, pending: seq<byte>, sent: seq<byte>, rest: seq<byte>,
                                        all: seq<byte>)
    requires Adds(kernel, pending, sent + rest, all) && pending == []
    ensures Adds(kernel + sent, pending, rest, all)
  {
    assert kernel + pending + (sent + rest) == (kernel + sent) + pending + rest;
  }

  lemma {:induction false} BegunQueued(kernel: seq<byte>, pending: seq<byte>, begun: seq<byte>, all: seq<byte>)
    requires Adds(kernel, pending, begun, all)
    ensures Adds(kernel, pending + begun, [], all)
  {
    assert kernel + pending + begun == kernel + (pending + begun) + [];
  }

  lemma {:induction false} WholeQueued(kernel: seq<byte>, pending: seq<byte>, whole: seq<byte>, all: seq<byte>)
    requires Adds(kernel, pending, [], all)
    ensures Adds(kernel, pending + whole, [], all + whole)
  {
    assert kernel + (pending + whole) + [] == kernel + pending + [] + whole;
  }

  lemma {:induction false} WholeBegun(kernel: seq<byte>, pending: seq<byte>, whole: seq<byte>, all: seq<byte>)
    requires Adds(kernel, pending, [], all)
    ensures Adds(kernel, pending, whole, all + whole)
  {
    assert kernel + pending + whole == kernel + pending + [] + whole;
  }

  lemma {:induction false} PendingSent(nodes: seq<TxNode>, k: nat)
    requires nodes != [] && nodes[0].offset + k <= |nodes[0].data|
    requires forall i :: 0 <= i < |nodes| ==> nodes[i].offset <= |nodes[i].data|
    ensures var n := nodes[0];
      Pending(nodes) == Taken(n, k) + Pending(nodes[0 := Advance(n, k)])
  {
    var n := nodes[0];
    assert nodes[0 := Advance(n, k)][1..] == nodes[1..];
    SlicedOff(n, k);
    var sent, rest := Taken(n, k), Pending(nodes[1..]);
    assert sent + Remainder(Advance(n, k)) + rest == sent + (Remainder(Advance(n, k)) + rest);
  }

  lemma {:induction false} PendingPop(nodes: seq<TxNode>)
    requires nodes != [] && nodes[0].offset == |nodes[0].data|
    requires forall i :: 0 <= i < |nodes| ==> nodes[i].offset <= |nodes[i].data|
    ensures Pending(nodes) == Pending(nodes[1..])
  {
    assert Remainder(nodes[0]) == [];
    assert [] + Pending(nodes[1..]) == Pending(nodes[1..]);
  }

  lemma {:induction false} OrderQueued(s: Link, k: nat)
    requires NodesOk(s) && InOrder(s) && Enabled(s, SendQueued(k)) && NodesOk(Next(s, SendQueued(k)))
    ensures InOrder(Next(s, SendQueued(k)))
  {
    var n := s.q.nodes[0];
    PendingSent(s.q.nodes, k);
    SentFromQueue(s.kernel, Taken(n, k), Pending(s.q.nodes[0 := Advance(n, k)]), Begun(s.writer),
                  Flatten(s.committed));
  }

  lemma {:induction false} InvQueued(s: Link, k: nat)
    requires Inv(s) && Enabled(s, SendQueued(k))
    ensures Inv(Next(s, SendQueued(k)))
  {
    ShapeStep(s, SendQueued(k));
    OrderQueued(s, k);
  }

  lemma {:induction false} BegunSent(s: Link, k: nat)
    requires NodesOk(s) && Enabled(s, SendDirect(k)) && NodesOk(Next(s, SendDirect(k)))
    ensures var n := s.writer.node;
      Begun(s.writer) == Taken(n, k) + Begun(Next(s, SendDirect(k)).writer)
  {
    var n := s.writer.node;
    SlicedOff(n, k);
    if n.offset + k == |n.data| {
      assert Remainder(Advance(n, k)) == [];
    }
  }

  lemma {:induction false} OrderDirect(s: Link, k: nat, r: Link)
    requires NodesOk(s) && InOrder(s) && Enabled(s, SendDirect(k)) && r == Next(s, SendDirect(k)) && NodesOk(r)
    requires Pending(s.q.nodes) == []
    ensures InOrder(r)
  {
    var n := s.writer.node;
    BegunSent(s, k);
    SentDirectly(s.kernel, Pending(s.q.nodes), Taken(n, k), Begun(r.writer), Flatten(s.committed));
  }

  lemma {:induction false} InvDirect(s: Link, k: nat)
    requires Inv(s) && Enabled(s, SendDirect(k))
    ensures Inv(Next(s, SendDirect(k)))
  {
    ShapeStep(s, SendDirect(k));
    OrderDirect(s, k, Next(s, SendDirect(k)));
  }

  lemma {:induction false} OrderSubmitBegun(s: Link)
    requires NodesOk(s) && InOrder(s) && Enabled(s, Submit) && s.writer.begun && s.q.nodes == [] && s.q.size == 0
    requires NodesOk(Next(s, Submit))
    ensures InOrder(Next(s, Submit))
  {
    var n := s.writer.node;
    PendingAppend(s.q.nodes, n);
    BegunQueued(s.kernel, Pending(s.q.nodes), Remainder(n), Flatten(s.committed));
  }

  lemma {:induction false} InvSubmitBegun(s: Link)
    requires Inv(s) && Enabled(s, Submit) && s.writer.begun
    ensures Inv(Next(s, Submit))
  {
    ShapeStep(s, Submit);
    OrderSubmitBegun(s);
  }

  lemma {:induction false} OrderSubmitWhole(s: Link)
    requires NodesOk(s) && InOrder(s) && Enabled(s, Submit) && !s.writer.begun && s.q.size < MAXIMUM_FIFO_SIZE
    requires NodesOk(Next(s, Submit))
    ensures InOrder(Next(s, Submit))
  {
    var n := s.writer.node;
    PendingAppend(s.q.nodes, n);
    FlattenAppend(s.committed, n.data);
    assert Remainder(n) == n.data;
    WholeQueued(s.kernel, Pending(s.q.nodes), n.data, Flatten(s.committed));
  }

  lemma {:induction false} InvSubmitWhole(s: Link)
    requires Inv(s) && Enabled(s, Submit) && !s.writer.begun
    ensures Inv(Next(s, Submit))
  {
    ShapeStep(s, Submit);
    if s.q.size < MAXIMUM_FIFO_SIZE {
      OrderSubmitWhole(s);
    }
  }

  lemma {:induction false} OrderLook(s: Link)
    requires NodesOk(s) && InOrder(s) && Enabled(s, Look) && s.q.nodes == [] && !s.q.overflow && NodesOk(Next(s, Look))
    ensures InOrder(Next(s, Look))
  {
    var p := s.writer.packet;
    FlattenAppend(s.committed, p);
    assert Remainder(TxNode(p, 0)) == p;
    WholeBegun(s.kernel, Pending(s.q.nodes), p, Flatten(s.committed));
  }

  lemma {:induction false} InvLook(s: Link)
    requires Inv(s) && Enabled(s, Look)
    ensures Inv(Next(s, Look))
  {
    ShapeStep(s, Look);
    if !s.q.overflow {
      OrderLook(s);
    }
  }

  lemma {:induction false} InvPop(s: Link)
    requires Inv(s) && Enabled(s, PopFront)
    ensures Inv(Next(s, PopFront))
  {
    ShapeStep(s, PopFront);
    PendingPop(s.q.nodes);
  }

  /** Every step of either thread keeps the invariant. */
  lemma {:induction false} InvStep(s: Link, e: Step)
    requires Inv(s) && Enabled(s, e)
    ensures Inv(Next(s, e))
  {
    match e
    case SendQueued(k) => InvQueued(s, k);
    case SendDirect(k) => InvDirect(s, k);
    case Submit => if s.writer.begun { InvSubmitBegun(s); } else { InvSubmitWhole(s); }
    case Look => InvLook(s);
    case PopFront => InvPop(s);
    case _ =>
  }

  /** Send order over all runs: whatever the interleaving, the kernel has been given a prefix
      of the committed packets in order, the writer never overtakes the queue, the queue
      counters are right, and no packet that was begun is refused. */
  lemma {:induction false} SendOrder(s: Link, run: seq<Step>, r: Link)
    requires Inv(s) && Reaches(s, run, r)
    ensures Inv(r) && r.kernel <= Flatten(r.committed)
    decreases |run|
  {
    if run != [] {
      InvStep(s, run[0]);
      SendOrder(Next(s, run[0]), run[1..], r);
    }
  }

  lemma {:induction false} SendOrderFromStart(run: seq<Step>, r: Link)
    requires Reaches(INITIAL, run, r)
    ensures Inv(r) && r.kernel <= Flatten(r.committed)
    ensures r.writer.Outside? && r.q.nodes == [] ==> r.kernel == Flatten(r.committed)
  {
    SendOrder(INITIAL, run, r);
  }

  // ---------- wake-ups ----------

  /** Packets wait, but epoll will not report writability and no task is left: nobody is
      going to send them. */
  ghost predicate Stalled(s: Link) {
    s.q.nodes != [] && !s.q.armed && s.tasks == 0 && s.worker.Waiting?
  }

  /** A stalled link stays stalled whatever the writer does, and sends nothing more. */
  lemma {:induction false} StalledForGood(s: Link, run: seq<Step>, r: Link)
    requires Inv(s) && Stalled(s) && Reaches(s, run, r)
    ensures Stalled(r) && r.kernel == s.kernel
    decreases |run|
  {
    if run != [] {
      InvStep(s, run[0]);
      StalledForGood(Next(s, run[0]), run[1..], r);
    }
  }

  /** Unless the worker is about to change the registration, epoll watches for writability
      while packets wait; when it is about to, nothing has been queued since the pop. */
  ghost predicate Watched(s: Link) {
    if s.worker.Canceling? then s.q.nodes == [] else s.q.nodes != [] ==> s.q.armed
  }

  /** No packet is queued between the pop that empties the queue and the change of the epoll
      registration that follows it outside the critical section. */
  ghost predicate Calm(s: Link, run: seq<Step>)
    decreases |run|
  {
    run == [] || !Enabled(s, run[0]) ||
    (!(s.worker.Canceling? && run[0].Submit?) && Calm(Next(s, run[0]), run[1..]))
  }

  lemma {:induction false} WatchedStep(s: Link, e: Step)
    requires Inv(s) && Watched(s) && Enabled(s, e) && !(s.worker.Canceling? && e.Submit?)
    ensures Watched(Next(s, e))
  {
  }

  /** Calm runs never stall. */
  lemma {:induction false} CalmNeverStalls(s: Link, run: seq<Step>, r: Link)
    requires Inv(s) && Watched(s) && Reaches(s, run, r) && Calm(s, run)
    ensures Watched(r) && !Stalled(r)
    decreases |run|
  {
    if run != [] {
      InvStep(s, run[0]);
      WatchedStep(s, run[0]);
      CalmNeverStalls(Next(s, run[0]), run[1..], r);
    }
  }

  /** Some calm run from here ends in a stalled link. */
  ghost predicate CanStall(s: Link) {
    exists run, r :: Calm(s, run) && Reaches(s, run, r) && Stalled(r)
  }

  lemma {:induction false} StallLater(s: Link, e: Step)
    requires Enabled(s, e) && !(s.worker.Canceling? && e.Submit?) && CanStall(Next(s, e))
    ensures CanStall(s)
  {
    var run, r :| Calm(Next(s, e), run) && Reaches(Next(s, e), run, r) && Stalled(r);
    var all := [e] + run;
    assert all[1..] == run;
    assert Calm(s, all) && Reaches(s, all, r);
  }

  /** A worker that wakes up only to find the kernel full uses up the tasks that are left. */
  lemma {:induction false} WaitingStalls(s: Link)
    requires s.worker.Waiting? && s.q.nodes != [] && !s.q.armed
    ensures CanStall(s)
    decreases s.tasks
  {
    if s.tasks == 0 {
      assert Calm(s, []) && Reaches(s, [], s);
    } else {
      var a := Next(s, GetTask);
      var b := Next(a, TakeTop);
      WaitingStalls(Next(b, QueueFull));
      StallLater(b, QueueFull);
      StallLater(a, TakeTop);
      StallLater(s, GetTask);
    }
  }

  lemma {:induction false} WorkingStalls(s: Link)
    requires s.q.nodes != [] && (s.worker.Canceling? || !s.q.armed) && !s.worker.Popping?
    ensures CanStall(s)
    decreases match s.worker case Canceling => 3 case Exec => 2 case Waiting => 0 case _ => 1
  {
    if s.worker.Waiting? {
      WaitingStalls(s);
    } else {
      var e := match s.worker
        case Exec => TakeTop
        case Draining => QueueFull
        case Canceling => Disarm
        case _ => PutTask;
      WorkingStalls(Next(s, e));
      StallLater(s, e);
    }
  }

  lemma {:induction false} PoppingStalls(s: Link)
    requires Inv(s) && s.worker.Popping? && |s.q.nodes| > 1 && !s.q.armed
    ensures CanStall(s)
  {
    WorkingStalls(Next(s, PopFront));
    StallLater(s, PopFront);
  }

  /** The writer can queue one more packet behind the last one. */
  lemma {:induction false} LastPoppingStalls(s: Link)
    requires Inv(s) && s.worker.Popping? && |s.q.nodes| == 1 && !s.q.armed
    ensures CanStall(s)
    decreases match s.writer case Outside => 2 case Framed(_) => 1 case _ => 0
  {
    var e := match s.writer
      case Outside => Write([0])
      case Framed(_) => Look
      case _ => Submit;
    var r := Next(s, e);
    InvStep(s, e);
    if s.writer.Queueing? {
      PoppingStalls(r);
    } else {
      LastPoppingStalls(r);
    }
    StallLater(s, e);
  }

  /** From which states a calm run can stall: exactly those in which nobody watches. */
  lemma {:induction false} StallsIff(s: Link)
    requires Inv(s)
    ensures CanStall(s) <==> !Watched(s)
  {
    if Watched(s) {
      forall run, r | Calm(s, run) && Reaches(s, run, r) ensures !Stalled(r) {
        CalmNeverStalls(s, run, r);
      }
    } else if !s.worker.Popping? {
      WorkingStalls(s);
    } else if |s.q.nodes| > 1 {
      PoppingStalls(s);
    } else {
      LastPoppingStalls(s);
    }
  }

  /** The change of the registration lets the link stall, although every run from then on is
      calm, exactly when a packet was queued in the gap before it. */
  lemma {:induction false} DisarmLosesWakeup(s: Link)
    requires Inv(s) && s.worker.Canceling?
    ensures CanStall(Next(s, Disarm)) <==> s.q.nodes != []
  {
    InvStep(s, Disarm);
    StallsIff(Next(s, Disarm));
  }

  /** A run that a watched link takes can come to a state from which it can stall by one kind of
      step only: a packet queued in the gap. */
  lemma {:induction false} OnlyTheGap(s: Link, e: Step)
    requires Inv(s) && !CanStall(s) && Enabled(s, e)
    ensures CanStall(Next(s, e)) <==> s.worker.Canceling? && e.Submit?
  {
    InvStep(s, e);
    StallsIff(s);
    StallsIff(Next(s, e));
    if !(s.worker.Canceling? && e.Submit?) {
      WatchedStep(s, e);
    }
  }

  // ---------- what is queued is sent ----------

  /** A packet is sent directly exactly when none waits; otherwise it is queued. */
  lemma {:induction false} LookDecides(s: Link)
    requires Inv(s) && Enabled(s, Look)
    ensures var n := TxNode(s.writer.packet, 0);
      if s.q.nodes == [] then Next(s, Look) == s.(writer := Direct(n), committed := s.committed + [n.data])
      else Next(s, Look) == s.(writer := Queueing(n, false))
  {
  }

  /** A packet, or what is left of one, is queued behind the others exactly when fewer than 100
      wait, and then epoll watches for writability; what is left of one always is. */
  lemma {:induction false} SubmitDecides(s: Link)
    requires Inv(s) && Enabled(s, Submit)
    ensures var r, n := Next(s, Submit), s.writer.node;
      if |s.q.nodes| >= 100 then !s.writer.begun && r == s.(writer := Outside)
      else r.q.nodes == s.q.nodes + [n] && (s.q.nodes == [] ==> r.q.armed) && (s.q.armed ==> r.q.armed) &&
           r.committed == s.committed + if s.writer.begun then [] else [n.data]
  {
  }

  /** No packet in the queue has been sent to its end but the one that is about to be popped. */
  ghost predicate Unsent(s: Link) {
    forall i :: 0 <= i < |s.q.nodes| ==>
      s.q.nodes[i].offset < |s.q.nodes[i].data| || (i == 0 && s.worker.Popping?)
  }

  lemma {:induction false} UnsentStep(s: Link, e: Step)
    requires Inv(s) && Unsent(s) && Enabled(s, e)
    ensures Unsent(Next(s, e))
  {
  }

  predicate WorkerStep(e: Step) {
    e.Writable? || e.GetTask? || e.TakeTop? || e.SendQueued? || e.PopFront? || e.Disarm? || e.PutTask?
  }

  /** The worker and the kernel alone can bring the link to an empty queue, with these bytes sent. */
  ghost predicate CanDrain(s: Link, kernel: seq<byte>) {
    exists run, r :: (forall i :: 0 <= i < |run| ==> WorkerStep(run[i])) &&
      Reaches(s, run, r) && r.q.nodes == [] && r.kernel == kernel
  }

  lemma {:induction false} DrainLater(s: Link, e: Step, kernel: seq<byte>)
    requires Enabled(s, e) && WorkerStep(e) && CanDrain(Next(s, e), kernel)
    ensures CanDrain(s, kernel)
  {
    var run, r :| (forall i :: 0 <= i < |run| ==> WorkerStep(run[i])) &&
      Reaches(Next(s, e), run, r) && r.q.nodes == [] && r.kernel == kernel;
    var all := [e] + run;
    assert all[1..] == run;
    assert Reaches(s, all, r);
  }

  /** What the worker does next. */
  function WorkerNext(s: Link): Step
    requires s.q.nodes != [] && s.q.nodes[0].offset <= |s.q.nodes[0].data|
  {
    match s.worker
    case Waiting => if s.tasks == 0 then Writable else GetTask
    case Exec => TakeTop
    case Draining => SendQueued(|s.q.nodes[0].data| - s.q.nodes[0].offset)
    case Popping => PopFront
    case Canceling => Disarm
    case Requeueing => PutTask
  }

  /** How far the worker is from popping a packet. */
  function Distance(s: Link): nat {
    match s.worker
    case Requeueing => 5
    case Waiting => if s.tasks == 0 then 4 else 3
    case Exec => 2
    case Draining => 1
    case _ => 0
  }

  lemma {:induction false} WorkerGoesOn(s: Link)
    requires Inv(s) && Unsent(s) && Watched(s) && s.q.nodes != []
    ensures s.q.nodes[0].offset <= |s.q.nodes[0].data|
    ensures var e := WorkerNext(s);
      && Enabled(s, e) && WorkerStep(e) && NodesOk(s) && NodesOk(Next(s, e))
      && Next(s, e).kernel + Pending(Next(s, e).q.nodes) == s.kernel + Pending(s.q.nodes)
      && if s.worker.Popping? then |Next(s, e).q.nodes| < |s.q.nodes|
         else |Next(s, e).q.nodes| == |s.q.nodes| && Distance(Next(s, e)) < Distance(s)
  {
    var e := WorkerNext(s);
    InvStep(s, e);
    if s.worker.Draining? {
      PendingSent(s.q.nodes, e.n);
      Joined(s.kernel, Taken(s.q.nodes[0], e.n), Pending(Next(s, e).q.nodes));
    } else if s.worker.Popping? {
      PendingPop(s.q.nodes);
    }
  }

  lemma {:induction false} Joined(a: seq<byte>, b: seq<byte>, c: seq<byte>)
    ensures a + (b + c) == (a + b) + c
  {
  }

  /** As long as epoll watches, all that is queued can still be sent, in order and without the
      writer: nothing is lost. */
  lemma {:induction false} QueueDrains(s: Link)
    requires Inv(s) && Unsent(s) && Watched(s)
    ensures NodesOk(s) && CanDrain(s, s.kernel + Pending(s.q.nodes))
    decreases |s.q.nodes|, Distance(s)
  {
    if s.q.nodes == [] {
      assert Reaches(s, [], s);
      assert s.kernel + [] == s.kernel;
    } else {
      WorkerGoesOn(s);
      var e := WorkerNext(s);
      InvStep(s, e);
      UnsentStep(s, e);
      WatchedStep(s, e);
      QueueDrains(Next(s, e));
      DrainLater(s, e, s.kernel + Pending(s.q.nodes));
    }
  }

  lemma {:induction false} ReachesThen(a: Link, x: seq<Step>, b: Link, e: Step)
    requires Reaches(a, x, b) && Enabled(b, e)
    ensures Reaches(a, x + [e], Next(b, e))
    decreases |x|
  {
    if x != [] {
      ReachesThen(Next(a, x[0]), x[1..], b, e);
      assert (x + [e])[1..] == x[1..] + [e];
    }
  }

  ghost predicate Reachable(s: Link) { exists run :: Reaches(INITIAL, run, s) }

  lemma {:induction false} Then(s: Link, e: Step) returns (r: Link)
    requires Reachable(s) && Enabled(s, e)
    ensures Reachable(r) && r == Next(s, e)
  {
    var run :| Reaches(INITIAL, run, s);
    ReachesThen(INITIAL, run, s, e);
    r := Next(s, e);
  }

  /** The stalling run begins with a packet that goes through the queue, */
  lemma {:induction false} QueuedExample() returns (r: Link)
    ensures Reachable(r)
    ensures r == Link([], Queue([TxNode([1], 0)], 1, true, true), Outside, Waiting, 0, [[1]], false)
  {
    assert Reaches(INITIAL, [], INITIAL);
    r := Then(INITIAL, Write([1]));
    r := Then(r, Look);
    r := Then(r, DirectFull);
    r := Then(r, Submit);
  }

  /** which the worker has popped without changing the registration yet. */
  lemma {:induction false} PoppedExample() returns (r: Link)
    ensures Reachable(r) && r == Link([1], Queue([], 0, false, true), Outside, Canceling, 0, [[1]], false)
  {
    r := QueuedExample();
    r := Then(r, Writable);
    r := Then(r, GetTask);
    r := Then(r, TakeTop);
    r := Then(r, SendQueued(1));
    assert r == Link([1], Queue([TxNode([1], 1)], 1, true, true), Outside, Popping, 0, [[1]], false);
    r := Then(r, PopFront);
  }

  /** Then the kernel is full again, and the next packet is queued in the gap. */
  lemma {:induction false} GapExample() returns (r: Link)
    ensures Reachable(r)
    ensures r == Link([1], Queue([TxNode([2], 0)], 1, true, true), Outside, Canceling, 0, [[1], [2]], false)
  {
    r := PoppedExample();
    r := Then(r, Write([2]));
    r := Then(r, Look);
    r := Then(r, DirectFull);
    r := Then(r, Submit);
  }

  /** A run that is not calm and stalls. */
  lemma {:induction false} StallExample() returns (r: Link)
    ensures Reachable(r) && Stalled(r)
  {
    r := GapExample();
    r := Then(r, Disarm);
    r := Then(r, PutTask);
    r := Then(r, GetTask);
    r := Then(r, TakeTop);
    r := Then(r, QueueFull);
  }
}
