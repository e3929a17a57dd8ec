/** References to an entry: who may use its head, and when the head is freed.

    The head's own fields change inside its mutex, one critical section at a time; the state
    machine interleaves the critical sections of any number of threads. */
module EvfsRefs {

  datatype EntryState = Normal | CloseWait | Busy

  datatype Permission = Io | Open | Exclusive

  datatype Reply = Granted | Eacces | Ebusy

  // ---------- the critical sections ----------

  /** The fields the mutex of a head protects. */
  datatype Fields = Fields(state: EntryState, refcnt: int, ioRefcnt: int)

  /** __evfs_entries_check_reference_condition: the fields after it and its answer. */
  function Reference(f: Fields, p: Permission): (Fields, Reply) {
    if f.state != Normal then (f, Eacces)
    else match p
      case Io => (f.(refcnt := f.refcnt + 1, ioRefcnt := f.ioRefcnt + 1), Granted)
      case Open => (f.(refcnt := f.refcnt + 1), Granted)
      case Exclusive =>
        if f.ioRefcnt != 0 then (f, Ebusy) else (f.(refcnt := f.refcnt + 1, state := Busy), Granted)
  }

  /** __evfs_entries_dereference_head: the fields after it and whether to free the head. */
  function Dereference(f: Fields, p: Permission): (Fields, bool) {
    var g := Fields(
      if p == Exclusive && f.state == Busy then Normal else f.state,
      f.refcnt - 1,
      if p == Io then f.ioRefcnt - 1 else f.ioRefcnt);
    (g, g.refcnt == 0 && g.state == CloseWait)
  }

  /** __evfs_entries_try_delete_head: the fields after it and whether to free the head. */
  function TryDelete(f: Fields, mandatory: bool): (Fields, bool) {
    var g := Fields(CloseWait, if mandatory && f.ioRefcnt == 0 then 0 else f.refcnt, f.ioRefcnt);
    (g, g.refcnt == 0)
  }

  /** A head as the code changes it in place. */
  class Head {
    var state: EntryState
    var refcnt: int
    var ioRefcnt: int

    ghost function Now(): Fields
      reads this
    {
      Fields(state, refcnt, ioRefcnt)
    }

    constructor ()
      ensures Now() == Fields(Normal, 0, 0)
    {
      state, refcnt, ioRefcnt := Normal, 0, 0;
    }

    method CheckReference(p: Permission) returns (reply: Reply)
      modifies this
      ensures (Now(), reply) == Reference(old(Now()), p)
    {
      reply := Granted;
      match p
      case Io =>
        if state != Normal {
          reply := Eacces;
        } else {
          refcnt, ioRefcnt := refcnt + 1, ioRefcnt + 1;
        }
      case Open =>
        if state != Normal {
          reply := Eacces;
        } else {
          refcnt := refcnt + 1;
        }
      case Exclusive =>
        if state != Normal {
          reply := Eacces;
        } else if ioRefcnt != 0 {
          reply := Ebusy;
        } else {
          refcnt, state := refcnt + 1, Busy;
        }
    }

    method DereferenceHead(p: Permission) returns (detach: bool)
      modifies this
      ensures (Now(), detach) == Dereference(old(Now()), p)
    {
      refcnt := refcnt - 1;
      if p == Io {
        ioRefcnt := ioRefcnt - 1;
      }
      if p == Exclusive && state == Busy {
        state := Normal;
      }
      detach := refcnt == 0 && state == CloseWait;
    }

    method TryDeleteHead(mandatory: bool) returns (detach: bool)
      modifies this
      ensures (Now(), detach) == TryDelete(old(Now()), mandatory)
    {
      state := CloseWait;
      if mandatory && ioRefcnt == 0 {
        refcnt := 0;
      }
      detach := refcnt == 0;
    }
  }

  // ---------- any number of threads ----------

  /** The head, and who holds it: `handles` open references in the hands of clients, `closing`
      threads that still have two and `closed` threads that still have one open reference to
      give back, `io` and `busy` threads inside an operation, `detaching` threads that have
      decided to free the head, and how often it has been freed. */
  datatype Sys = Sys(
    head: Fields,
    handles: nat, closing: nat, closed: nat, io: nat, busy: nat,
    detaching: nat, freed: nat)

  /** A new head that nobody holds. */
  predicate Fresh(s: Sys) {
    && s.head.state == Normal && s.head.refcnt == 0 && s.head.ioRefcnt == 0
    && Held(s) == 0 && s.io == 0 && s.busy == 0 && s.detaching == 0 && s.freed == 0
  }

  datatype Step = OpenOne | IoBegin | IoEnd | BusyBegin | BusyEnd | Delete
    | CloseBegin | CloseMid | CloseEnd | Force | Free

  /** When a mandatory delete does no harm: an operation with the entry is under way, or nobody
      has a reference and nobody frees the head. */
  predicate ForceIsSafe(s: Sys) { s.detaching == 0 && (s.io > 0 || Held(s) == 0) }

  /** A thread can take the step: it finds the head in the index, or it holds what it returns. */
  predicate Enabled(s: Sys, step: Step) {
    match step
    case OpenOne => s.freed == 0
    case IoBegin => s.freed == 0
    case BusyBegin => s.freed == 0
    case CloseBegin => s.freed == 0 && s.handles > 0
    case IoEnd => s.io > 0
    case Delete => s.io > 0
    case BusyEnd => s.busy > 0
    case CloseMid => s.closing > 0
    case CloseEnd => s.closed > 0
    case Force => s.freed == 0 && ForceIsSafe(s)
    case Free => s.detaching > 0
  }

  function Detached(s: Sys, detach: bool): Sys {
    if detach then s.(detaching := s.detaching + 1) else s
  }

  /** A delete with kEvfsEntryMandatory. */
  function ForceDelete(s: Sys): Sys {
    var (h, d) := TryDelete(s.head, true);
    Detached(s.(head := h), d)
  }

  function Next(s: Sys, step: Step): Sys
    requires Enabled(s, step)
  {
    match step
    case OpenOne =>
      var (h, reply) := Reference(s.head, Open);
      if reply == Granted then s.(head := h, handles := s.handles + 1) else s
    case IoBegin =>
      var (h, reply) := Reference(s.head, Io);
      if reply == Granted then s.(head := h, io := s.io + 1) else s
    case BusyBegin =>
      var (h, reply) := Reference(s.head, Exclusive);
      if reply == Granted then s.(head := h, busy := s.busy + 1) else s
    case CloseBegin =>
      var (h, reply) := Reference(s.head, Open);
      if reply == Granted then s.(head := h, handles := s.handles - 1, closing := s.closing + 1) else s
    case IoEnd =>
      var (h, d) := Dereference(s.head, Io);
      Detached(s.(head := h, io := s.io - 1), d)
    case Delete =>
      var (h, d) := TryDelete(s.head, false);
      Detached(s.(head := h), d)
    case BusyEnd =>
      var (h, d) := Dereference(s.head, Exclusive);
      Detached(s.(head := h, busy := s.busy - 1), d)
    case CloseMid =>
      var (h, d) := Dereference(s.head, Open);
      Detached(s.(head := h, closing := s.closing - 1, closed := s.closed + 1), d)
    case CloseEnd =>
      var (h, d) := Dereference(s.head, Open);
      Detached(s.(head := h, closed := s.closed - 1), d)
    case Force => ForceDelete(s)
    case Free => s.(detaching := s.detaching - 1, freed := s.freed + 1)
  }

  /** The references granted and not yet returned. */
  function Held(s: Sys): nat { s.handles + 2 * s.closing + s.closed + s.io + s.busy }

  ghost predicate Inv(s: Sys) {
    && s.head.refcnt == Held(s) && s.head.ioRefcnt == s.io
    && (s.head.state == Busy <==> s.busy > 0)
    && (s.head.state == Busy ==> s.busy == 1 && s.io == 0)
    && s.detaching + s.freed <= 1
    && (s.detaching + s.freed == 1 <==> s.head.state == CloseWait && Held(s) == 0)
  }

  lemma {:induction false} InvStep(s: Sys, step: Step)
    requires Inv(s) && Enabled(s, step)
    ensures Inv(Next(s, step))
  {
  }

  ghost predicate Runs(s: Sys, steps: seq<Step>, t: Sys)
    decreases |steps|
  {
    if steps == [] then t == s
    else Enabled(s, steps[0]) && Runs(Next(s, steps[0]), steps[1..], t)
  }

  /** In every run: the count is that of the references out; a busy head has one busy holder
      and no I/O holder; the head is freed at most once and only when nobody holds it. */
  lemma {:induction false} RunSafe(s: Sys, steps: seq<Step>, t: Sys)
    requires Inv(s) && Runs(s, steps, t)
    ensures Inv(t)
    decreases |steps|
  {
    if steps != [] {
      InvStep(s, steps[0]);
      RunSafe(Next(s, steps[0]), steps[1..], t);
    }
  }

  ghost predicate Reaches(s: Sys, t: Sys) {
    match s
    case Sys(_, _, _, _, _, _, _, _) => exists steps :: Runs(s, steps, t)
  }

  /** The same, said of every state a run can reach. */
  lemma {:induction false} ReachSafe(s: Sys, t: Sys)
    requires Inv(s) && Reaches(s, t)
    ensures Inv(t) && t.head.refcnt == Held(t) && (t.head.state == Busy ==> t.io == 0 && t.busy == 1)
    ensures t.freed <= 1 && (t.freed + t.detaching > 0 ==> Held(t) == 0)
  {
    var steps :| Runs(s, steps, t);
    RunSafe(s, steps, t);
  }

  lemma {:induction false} FreshInv(s: Sys)
    requires Fresh(s)
    ensures Inv(s)
  {
  }

  ghost predicate Reachable(t: Sys) { exists s :: Fresh(s) && Reaches(s, t) }

  lemma {:induction false} ReachableSafe(t: Sys)
    requires Reachable(t)
    ensures Inv(t) && t.head.refcnt == Held(t) && (t.head.state == Busy ==> t.io == 0 && t.busy == 1)
    ensures t.freed <= 1 && (t.freed + t.detaching > 0 ==> Held(t) == 0)
  {
    var s :| Fresh(s) && Reaches(s, t);
    FreshInv(s);
    ReachSafe(s, t);
  }

  // ---------- who gets what ----------

  /** Every reference is out with the same holders, and the head is in state `st`. */
  predicate Becomes(s: Sys, t: Sys, handles: int, closing: int, closed: int, io: int, busy: int, st: EntryState) {
    && t.handles == s.handles + handles && t.closing == s.closing + closing && t.closed == s.closed + closed
    && t.io == s.io + io && t.busy == s.busy + busy && t.head.state == st && t.freed == s.freed
  }

  /** While one thread has the head to itself, or once it waits to close, nobody gets anything. */
  lemma {:induction false} OthersRefused(s: Sys, step: Step)
    requires Inv(s) && Enabled(s, step) && s.head.state != Normal
    requires step == OpenOne || step == IoBegin || step == BusyBegin || step == CloseBegin
    ensures Next(s, step) == s
  {
  }

  /** Otherwise an open and an operation are granted, and exclusive use exactly when no operation
      is under way. */
  lemma {:induction false} NormalGrants(s: Sys)
    requires Inv(s) && s.head.state == Normal
    ensures Becomes(s, Next(s, OpenOne), 1, 0, 0, 0, 0, Normal)
    ensures Becomes(s, Next(s, IoBegin), 0, 0, 0, 1, 0, Normal)
    ensures if s.io == 0 then Becomes(s, Next(s, BusyBegin), 0, 0, 0, 0, 1, Busy) else Next(s, BusyBegin) == s
    ensures s.handles > 0 ==> Becomes(s, Next(s, CloseBegin), -1, 1, 0, 0, 0, Normal)
  {
  }

  /** What a thread that gets nothing is told: a head that is not in order is closed to everybody,
      and one with operations under way only to exclusive use. */
  lemma {:induction false} Told(s: Sys, p: Permission)
    requires Inv(s)
    ensures Reference(s.head, p).1 == Ebusy <==> s.head.state == Normal && s.io > 0 && p == Exclusive
    ensures Reference(s.head, p).1 == Eacces <==> s.busy > 0 || s.head.state == CloseWait
  {
  }

  /** What is given back is given back once; exclusive use ends with it, and a delete closes the
      head and takes nothing away. */
  lemma {:induction false} GivesBack(s: Sys)
    requires Inv(s)
    ensures s.io > 0 ==> Becomes(s, Next(s, IoEnd), 0, 0, 0, -1, 0, s.head.state)
    ensures s.busy > 0 ==> Becomes(s, Next(s, BusyEnd), 0, 0, 0, 0, -1, Normal)
    ensures s.closing > 0 ==> Becomes(s, Next(s, CloseMid), 0, -1, 1, 0, 0, s.head.state)
    ensures s.closed > 0 ==> Becomes(s, Next(s, CloseEnd), 0, 0, -1, 0, 0, s.head.state)
    ensures s.io > 0 ==> Becomes(s, Next(s, Delete), 0, 0, 0, 0, 0, CloseWait)
    ensures Enabled(s, Force) ==> Becomes(s, Next(s, Force), 0, 0, 0, 0, 0, CloseWait)
  {
  }

  /** The last reference to a head that waits to close is the one that has it freed. */
  lemma {:induction false} LastOneFrees(s: Sys, step: Step)
    requires Inv(s) && Enabled(s, step) && step != Free
    ensures var t := Next(s, step);
      t.detaching > s.detaching <==> t.head.state == CloseWait && Held(t) == 0 && s.detaching + s.freed == 0
  {
    InvStep(s, step);
  }

  /** Waiting to close is for good, and nothing new is granted. */
  lemma {:induction false} CloseWaitGrantsNothing(s: Sys, steps: seq<Step>, t: Sys)
    requires Inv(s) && s.head.state == CloseWait && Runs(s, steps, t)
    ensures t.head.state == CloseWait && Held(t) <= Held(s) && t.handles == s.handles
    decreases |steps|
  {
    if steps != [] {
      InvStep(s, steps[0]);
      CloseWaitGrantsNothing(Next(s, steps[0]), steps[1..], t);
    }
  }

  lemma {:induction false} ReachKeepsHandles(s: Sys, t: Sys)
    requires Inv(s) && s.head.state == CloseWait && Reaches(s, t)
    ensures t.handles == s.handles
  {
    var steps :| Runs(s, steps, t);
    CloseWaitGrantsNothing(s, steps, t);
  }

  /** A deleted entry can still be freed exactly when no client kept a handle to it: closing a
      handle needs a new reference first, which a head that waits to close refuses. */
  lemma {:induction false} FreedIff(s: Sys)
    requires Inv(s) && s.head.state == CloseWait
    ensures (exists t :: Reaches(s, t) && t.freed == 1) <==> s.handles == 0
  {
    if s.handles == 0 {
      var t := Drain(s);
    }
    if t :| Reaches(s, t) && t.freed == 1 {
      ReachSafe(s, t);
      ReachKeepsHandles(s, t);
    }
  }

  /** Everybody gives back what they hold, and the last one frees the head. */
  lemma {:induction false} Drain(s: Sys) returns (t: Sys)
    requires Inv(s) && s.head.state == CloseWait && s.handles == 0
    ensures Reaches(s, t) && t.freed == 1
    decreases 2 * s.closing + s.closed + s.io + s.busy, s.detaching
  {
    if s.freed == 1 {
      t := s;
      assert Runs(s, [], t);
    } else {
      var step :=
        if s.io > 0 then IoEnd else if s.busy > 0 then BusyEnd
        else if s.closing > 0 then CloseMid else if s.closed > 0 then CloseEnd else Free;
      InvStep(s, step);
      t := Drain(Next(s, step));
      StepThenReaches(s, step, t);
    }
  }

  lemma {:induction false} StepThenReaches(s: Sys, step: Step, t: Sys)
    requires Enabled(s, step) && Reaches(Next(s, step), t)
    ensures Reaches(s, t)
  {
    var rest :| Runs(Next(s, step), rest, t);
    assert ([step] + rest)[1..] == rest;
    assert Runs(s, [step] + rest, t);
  }

  /** A run to such a leak: a client opens the entry, and another deletes it. */
  lemma {:induction false} LeakExample(start: Sys) returns (s: Sys)
    requires Fresh(start)
    ensures Reachable(s) && s.head.state == CloseWait && s.handles == 1 == Held(s) && s.freed == 0
    ensures !exists t :: Reaches(s, t) && t.freed == 1
  {
    var a := Next(start, OpenOne);
    var b := Next(a, IoBegin);
    var c := Next(b, Delete);
    s := Next(c, IoEnd);
    assert Runs(s, [], s);
    StepThenReaches(c, IoEnd, s);
    StepThenReaches(b, Delete, s);
    StepThenReaches(a, IoBegin, s);
    StepThenReaches(start, OpenOne, s);
    ReachableSafe(s);
    FreedIff(s);
  }

  // ---------- mandatory deletes ----------

  /** The head was freed while somebody holds it, or twice. */
  predicate Harmed(t: Sys) { t.freed > 1 || (t.freed == 1 && Held(t) > 0) }

  /** A mandatory delete forgets the open references. Harm can come of it exactly when nobody is
      inside an operation and somebody holds the head, or when the head is already being freed. */
  lemma {:induction false} ForceHarmsIff(s: Sys)
    requires Inv(s) && s.freed == 0
    ensures (exists t :: Reaches(ForceDelete(s), t) && Harmed(t)) <==> !ForceIsSafe(s)
  {
    var f := ForceDelete(s);
    if ForceIsSafe(s) {
      forall t | Reaches(f, t) ensures !Harmed(t) {
        ReachSafe(f, t);
      }
    } else {
      var t := FreeAll(f);
    }
  }

  lemma {:induction false} FreeAll(s: Sys) returns (t: Sys)
    ensures Reaches(s, t) && t.freed == s.freed + s.detaching && Held(t) == Held(s)
    decreases s.detaching
  {
    if s.detaching == 0 {
      t := s;
      assert Runs(s, [], t);
    } else {
      t := FreeAll(Next(s, Free));
      StepThenReaches(s, Free, t);
    }
  }

  /** evfs_entries_uninit does it to entries that clients still have open. */
  lemma {:induction false} ForceExample(start: Sys) returns (s: Sys)
    requires Fresh(start)
    ensures Reachable(s) && s.handles == 1 && !ForceIsSafe(s)
  {
    s := Next(start, OpenOne);
    assert Runs(s, [], s);
    StepThenReaches(start, OpenOne, s);
  }
}
