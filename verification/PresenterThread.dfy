/**
 The presenter thread of recomp-runtime/d3d_presenter_thread.cpp: the owner fills
 packets and publishes them, a worker executes them, over a ring of three
 packets.  The two threads are a state machine of atomic steps in any order; one
 step is one critical section, or one access to the packet a thread has to
 itself.  Backend results, allocation failures and window messages are arbitrary.
 */
module PresenterThread {

  datatype Kind = Draw | Present | OtherCommand | Release | Report

  datatype Record = Record(kind: Kind, id: nat)

  datatype Error = Ok | Closed | Failure(code: nat)

  datatype Packet = Packet(records: seq<Record>, sealed: bool)

  const EMPTY: Packet := Packet([], false)

  /** Where the owner is. */
  datatype OwnerPc =
    | Idle                        // between calls
    | Adding(r: Record)           // status was OK; about to add to the open packet
    | ReportFailed(error: Error)  // a report could not be added; about to raise the error
    | Publishing(destroying: bool)
    | Published(destroying: bool) // sealed; about to signal the worker
    | ShuttingDown
    | ShutDown                    // flag set; about to signal the worker
    | Joining
    | Destroyed

  /** Where the worker is. */
  datatype WorkerPc =
    | Pump                        // window messages
    | Pick                        // look for a packet
    | Wait
    | Check(i: nat)               // about to look at the status before record i
    | Run(i: nat)                 // status was OK; about to run record i
    | Settle(i: nat, error: Error)
    | Clear
    | Advance
    | Stopped

  /** `added` and `executed` are the histories of the two threads.  `late`
      counts records run after an error was already raised; `overtaken` says that
      the owner raised the first error while a record was past its check. */
  datatype State = State(
    packets: seq<Packet>, open: nat, front: nat, pending: nat,
    status: Error, shutdown: bool, wake: bool,
    owner: OwnerPc, worker: WorkerPc,
    added: seq<Record>, executed: seq<Record>, late: nat, overtaken: bool)

  const START: State :=
    State([EMPTY, EMPTY, EMPTY], 0, 0, 0, Ok, false, false, Idle, Pump, [], [], 0, false)

  datatype Step =
    // owner
    | Call(r: Record) | AddOk | AddFails(error: Error) | RaiseReport
    | PublishGo | PublishGiveUp | Signal | Destroy | SetShutdown | SignalShutdown | Join
    // worker
    | PumpMessages(error: Error) | PickPacket | WakeUp | MessageArrives | WaitFails(error: Error)
    | CheckStatus | RunRecord(error: Error) | SettleResult | ClearPacket | AdvanceFront

  /** The first error sticks. */
  function Raise(status: Error, error: Error): Error { if status == Ok then error else status }

  function Front(s: State): seq<Record>
    requires s.front < |s.packets|
  {
    s.packets[s.front].records
  }

  /** A failed draw is only counted; other errors, and closing, are raised. */
  function Outcome(kind: Kind, error: Error): Error {
    if kind == Draw && error != Closed then Ok else error
  }

  predicate WellFormed(s: State) {
    |s.packets| == 3 && s.open < 3 && s.front < 3
  }

  // ------------------------------------------------------------------- steps

  ghost predicate OwnerStep(s: State, step: Step, s': State)
    requires WellFormed(s)
  {
    match step
    case Call(r) =>
      s.owner == Idle && s' == s.(owner := if s.status == Ok then Adding(r) else Idle)
    case AddOk =>
      && s.owner.Adding? && !s.packets[s.open].sealed
      && var p := s.packets[s.open];
         s' == s.(packets := s.packets[s.open := p.(records := p.records + [s.owner.r])],
                  added := s.added + [s.owner.r],
                  owner := if s.owner.r.kind == Present then Publishing(false) else Idle)
    case AddFails(error) =>
      && s.owner.Adding? && error != Ok
      && s' == s.(owner := if s.owner.r.kind == Report then ReportFailed(error) else Idle)
    case RaiseReport =>
      && s.owner.ReportFailed?
      && s' == s.(status := Raise(s.status, s.owner.error), owner := Idle,
                  overtaken := s.overtaken || (s.status == Ok && s.owner.error != Ok && s.worker.Run?))
    case PublishGo =>
      && s.owner.Publishing? && s.pending < 2 && (s.owner.destroying || s.status == Ok)
      && s' == s.(packets := s.packets[s.open := s.packets[s.open].(sealed := true)],
                  open := (s.open + 1) % 3, pending := s.pending + 1, owner := Published(s.owner.destroying))
    case PublishGiveUp =>
      s.owner == Publishing(false) && s.status != Ok && s' == s.(owner := Idle)
    case Signal =>
      s.owner.Published? && s' == s.(wake := true, owner := if s.owner.destroying then ShuttingDown else Idle)
    case Destroy =>
      && s.owner == Idle
      && s' == s.(owner := if s.packets[s.open].records != [] then Publishing(true) else ShuttingDown)
    case SetShutdown =>
      s.owner == ShuttingDown && s' == s.(shutdown := true, owner := ShutDown)
    case SignalShutdown =>
      s.owner == ShutDown && s' == s.(wake := true, owner := Joining)
    case Join =>
      s.owner == Joining && s.worker == Stopped && s' == s.(owner := Destroyed)
    case _ => false
  }

  ghost predicate WorkerStep(s: State, step: Step, s': State)
    requires WellFormed(s)
  {
    match step
    case PumpMessages(error) =>
      s.worker == Pump && s' == s.(status := Raise(s.status, error), worker := Pick)
    case PickPacket =>
      && s.worker == Pick
      && s' == s.(worker := if s.pending != 0 then Check(0) else if s.shutdown then Stopped else Wait)
    case WakeUp =>
      s.worker == Wait && s.wake && s' == s.(wake := false, worker := Pump)
    case MessageArrives =>
      s.worker == Wait && s' == s.(worker := Pump)
    case WaitFails(error) =>
      s.worker == Wait && error != Ok && s' == s.(status := Raise(s.status, error), worker := Pump)
    case CheckStatus =>
      && s.worker.Check?
      && s' == s.(worker := if s.worker.i < |Front(s)| && s.status == Ok then Run(s.worker.i) else Clear)
    case RunRecord(error) =>
      && s.worker.Run? && s.worker.i < |Front(s)|
      && var r := Front(s)[s.worker.i];
         s' == s.(executed := s.executed + [r], late := s.late + if s.status == Ok then 0 else 1,
                  worker := Settle(s.worker.i, Outcome(r.kind, error)))
    case SettleResult =>
      s.worker.Settle? && s' == s.(status := Raise(s.status, s.worker.error), worker := Check(s.worker.i + 1))
    case ClearPacket =>
      s.worker == Clear && s' == s.(packets := s.packets[s.front := EMPTY], worker := Advance)
    case AdvanceFront =>
      && s.worker == Advance && s.pending > 0
      && s' == s.(front := (s.front + 1) % 3, pending := s.pending - 1, worker := Pump)
    case _ => false
  }

  ghost predicate Next(s: State, s': State) {
    WellFormed(s) && exists step :: OwnerStep(s, step, s') || WorkerStep(s, step, s')
  }

  ghost predicate NextAt(run: seq<State>, k: nat) { k + 1 < |run| && Next(run[k], run[k + 1]) }

  /** A run in any interleaving. */
  ghost predicate IsRun(run: seq<State>) {
    |run| > 0 && run[0] == START && forall k: nat :: k + 1 < |run| ==> NextAt(run, k)
  }

  // --------------------------------------------------------------- invariant

  /** The worker has the front packet to itself. */
  predicate Holds(w: WorkerPc) { w.Check? || w.Run? || w.Settle? || w == Clear || w == Advance }

  function Slot(s: State, k: nat): nat { if s.front + k < 3 then s.front + k else if s.front + k < 6 then s.front + k - 3 else 0 }

  /** Pending packets are sealed, except one the worker has just cleared; the
      open packet and the spare one are not, and the spare one is empty. */
  ghost predicate RingOk(s: State)
    requires WellFormed(s)
  {
    && s.pending <= 2 && s.open == Slot(s, s.pending)
    && (s.pending >= 1 ==> if s.worker == Advance then s.packets[s.front] == EMPTY else s.packets[s.front].sealed)
    && (s.pending == 2 ==> s.packets[Slot(s, 1)].sealed)
    && !s.packets[s.open].sealed
    && (s.pending <= 1 ==> s.packets[Slot(s, s.pending + 1)] == EMPTY)
    && (s.pending == 0 ==> s.packets[Slot(s, 2)] == EMPTY)
  }

  /** How many records of the front packet the worker is done with. */
  function Done(s: State): nat {
    match s.worker
    case Check(i) => i
    case Run(i) => i
    case Settle(i, _) => i + 1
    case _ => 0
  }

  /** The records still to be run, in order. */
  function Rest(s: State): seq<Record>
    requires WellFormed(s) && s.pending <= 2
  {
    Ahead(s) + s.packets[s.open].records
  }

  /** Those of them that have been published. */
  function Ahead(s: State): seq<Record>
    requires WellFormed(s) && s.pending <= 2
  {
    Unrun(s.pending, s.worker == Clear, Done(s), Front(s), if s.pending == 2 then s.packets[Slot(s, 1)].records else [])
  }

  function Unrun(pending: nat, cleared: bool, done: nat, first: seq<Record>, second: seq<Record>): seq<Record> {
    (if pending == 0 || cleared || done > |first| then [] else first[done..]) + second
  }

  ghost predicate WorkerOk(s: State)
    requires WellFormed(s)
  {
    && (Holds(s.worker) ==> s.pending >= 1)
    && (s.worker.Check? ==> s.worker.i <= |Front(s)|)
    && (s.worker.Run? ==> s.worker.i < |Front(s)|)
    && (s.worker.Settle? ==> s.worker.i < |Front(s)|)
    && (s.worker == Stopped ==> s.shutdown && s.pending == 0)
  }

  ghost predicate OwnerOk(s: State)
    requires WellFormed(s)
  {
    && (s.owner.ReportFailed? ==> s.owner.error != Ok)
    && (s.shutdown <==> s.owner in {ShutDown, Joining, Destroyed})
    && (s.owner in {Published(true), ShuttingDown, ShutDown, Joining, Destroyed} ==> s.packets[s.open].records == [])
    && (s.owner == Destroyed ==> s.worker == Stopped)
  }

  /** Executed records come first among the added ones, and until an error is
      raised nothing is lost. */
  ghost predicate TraceOk(s: State)
    requires WellFormed(s) && s.pending <= 2
  {
    && s.executed <= s.added
    && (s.status == Ok || s.worker.Run? ==> s.executed + Rest(s) == s.added)
  }

  ghost predicate LateOk(s: State) {
    && (s.status == Ok ==> s.late == 0 && !s.overtaken)
    && (s.status != Ok && s.worker.Run? ==> s.overtaken && s.late == 0)
    && (s.overtaken ==> s.late == if s.worker.Run? then 0 else 1)
    && (!s.overtaken ==> s.late == 0)
  }

  /** A worker that waits while there is work has been, or is about to be, woken. */
  ghost predicate WakeOk(s: State) {
    s.worker == Wait && (s.pending > 0 || s.shutdown) ==> s.wake || s.owner.Published? || s.owner == ShutDown
  }

  ghost predicate Inv(s: State) {
    WellFormed(s) && RingOk(s) && WorkerOk(s) && OwnerOk(s) && TraceOk(s) && LateOk(s) && WakeOk(s)
  }

  lemma RingSlots(s: State)
    requires WellFormed(s) && s.pending <= 2
    ensures Slot(s, 0) == s.front
    ensures Slot(s, 0) != Slot(s, 1) && Slot(s, 1) != Slot(s, 2) && Slot(s, 0) != Slot(s, 2)
    ensures Slot(s, 3) == s.front
  {
  }

  lemma StartOk()
    ensures Inv(START)
  {
  }

  /** Replacing the open packet leaves the pending ones alone. */
  lemma OpenReplaced(s: State, s': State, p: Packet)
    requires Inv(s) && WellFormed(s') && s'.packets == s.packets[s.open := p]
    requires s'.open == s.open && s'.front == s.front && s'.pending == s.pending && s'.worker == s.worker
    requires !p.sealed
    ensures RingOk(s')
    ensures s.pending > 0 ==> Front(s') == Front(s)
  {
    RingSlots(s);
  }

  lemma SameAhead(s: State, s': State)
    requires WellFormed(s) && s.pending <= 2 && WellFormed(s')
    requires s'.front == s.front && s'.pending == s.pending && s'.worker == s.worker
    requires s.pending == 2 ==> s'.packets[Slot(s, 1)] == s.packets[Slot(s, 1)]
    requires s.pending > 0 ==> Front(s') == Front(s)
    ensures Ahead(s') == Ahead(s)
  {
    SameUnrun(s.pending, s.worker == Clear, Done(s), Front(s), Front(s'),
              if s.pending == 2 then s.packets[Slot(s, 1)].records else []);
  }

  /** Nothing is ahead in a packet that is not pending. */
  lemma SameUnrun(pending: nat, cleared: bool, done: nat, a: seq<Record>, b: seq<Record>, second: seq<Record>)
    requires pending > 0 ==> a == b
    ensures Unrun(pending, cleared, done, a, second) == Unrun(pending, cleared, done, b, second)
  {
  }

  lemma AddedLast(s: State, s': State, r: Record)
    requires WellFormed(s) && s.pending <= 2 && WellFormed(s')
    requires s'.open == s.open && s'.front == s.front && s'.pending == s.pending && s'.worker == s.worker
    requires s.pending == 2 ==> s'.packets[Slot(s, 1)] == s.packets[Slot(s, 1)]
    requires s'.packets[s.open].records == s.packets[s.open].records + [r]
    requires s.pending > 0 ==> Front(s') == Front(s)
    ensures Rest(s') == Rest(s) + [r]
  {
    SameAhead(s, s');
    AppendedLast(Ahead(s), s.packets[s.open].records, r);
  }

  lemma AppendedLast(ahead: seq<Record>, open: seq<Record>, r: Record)
    ensures ahead + (open + [r]) == (ahead + open) + [r]
  {
  }

  /** A record has been added to the open packet. */
  predicate AddedRecord(s: State, s': State, r: Record)
    requires s.open < |s.packets|
  {
    && s' == s.(packets := s'.packets, added := s.added + [r], owner := s'.owner)
    && s'.packets == s.packets[s.open := s.packets[s.open].(records := s.packets[s.open].records + [r])]
  }

  lemma AddKeepsRing(s: State, s': State, r: Record)
    requires Inv(s) && WellFormed(s') && AddedRecord(s, s', r)
    ensures RingOk(s') && LateOk(s') && (s.pending > 0 ==> Front(s') == Front(s))
  {
    OpenReplaced(s, s', s.packets[s.open].(records := s.packets[s.open].records + [r]));
  }

  lemma AddedRest(s: State, s': State, r: Record)
    requires WellFormed(s) && s.pending <= 2 && s.open == Slot(s, s.pending) && WellFormed(s') && AddedRecord(s, s', r)
    requires s.pending > 0 ==> Front(s') == Front(s)
    ensures Rest(s') == Rest(s) + [r]
  {
    RingSlots(s);
    AddedLast(s, s', r);
  }

  lemma AddKeepsTrace(s: State, s': State, r: Record)
    requires WellFormed(s) && s.pending <= 2 && TraceOk(s) && WellFormed(s') && s'.pending <= 2
    requires s' == s.(packets := s'.packets, added := s.added + [r], owner := s'.owner) && Rest(s') == Rest(s) + [r]
    ensures TraceOk(s')
  {
    if s.status == Ok || s.worker.Run? { AppendedLast(s.executed, Rest(s), r); }
  }

  lemma AddKeeps(s: State, step: Step, s': State)
    requires Inv(s) && OwnerStep(s, step, s') && step == AddOk
    ensures Inv(s')
  {
    AddKeepsRing(s, s', s.owner.r);
    AddedRest(s, s', s.owner.r);
    AddKeepsTrace(s, s', s.owner.r);
  }

  /** Sealing turns the open packet into the last pending one and opens the spare. */
  lemma SealSlots(s: State, s': State)
    requires Inv(s) && s.pending < 2 && WellFormed(s')
    requires s'.packets == s.packets[s.open := s.packets[s.open].(sealed := true)]
    requires s'.open == (s.open + 1) % 3 && s'.front == s.front && s'.pending == s.pending + 1
    requires s'.worker == s.worker
    ensures s'.open == Slot(s, s.pending + 1) && s'.packets[s'.open] == EMPTY
    ensures RingOk(s')
    ensures s.pending > 0 ==> Front(s') == Front(s)
  {
    RingSlots(s);
    RingSlots(s');
    assert s.pending == 0 ==> !Holds(s.worker);
  }

  lemma SealedIsAhead(pending: nat, cleared: bool, done: nat, first: seq<Record>, open: seq<Record>)
    ensures Unrun(1, false, 0, open, []) + [] == Unrun(0, cleared, done, first, []) + open
    ensures pending > 0 ==> Unrun(2, cleared, done, first, open) + [] == Unrun(pending, cleared, done, first, []) + open
  {
  }

  /** A packet has been sealed and another one opened. */
  predicate Sealed(s: State, s': State)
    requires WellFormed(s)
  {
    && WellFormed(s') && s.pending < 2 && s.open == Slot(s, s.pending)
    && s'.packets == s.packets[s.open := s.packets[s.open].(sealed := true)]
    && s'.open == (s.open + 1) % 3 && s'.front == s.front && s'.pending == s.pending + 1
    && s'.worker == s.worker && s'.packets[s'.open] == EMPTY
  }

  lemma SealFirst(s: State, s': State)
    requires WellFormed(s) && Sealed(s, s') && s.pending == 0 && Done(s) == 0 && s.worker != Clear
    ensures Rest(s') == Rest(s)
  {
    var open := s.packets[s.open].records;
    RingSlots(s);
    assert Front(s') == open;
    assert Ahead(s') == Unrun(1, false, 0, open, []);
    SealedIsAhead(0, false, 0, Front(s), open);
  }

  lemma SealSecond(s: State, s': State)
    requires WellFormed(s) && Sealed(s, s') && s.pending == 1
    ensures Rest(s') == Rest(s)
  {
    var open := s.packets[s.open].records;
    RingSlots(s);
    assert s'.packets[Slot(s', 1)].records == open && Front(s') == Front(s);
    assert Ahead(s') == Unrun(2, s.worker == Clear, Done(s), Front(s), open);
    SealedIsAhead(1, s.worker == Clear, Done(s), Front(s), open);
  }

  lemma SealRest(s: State, s': State)
    requires WellFormed(s) && RingOk(s) && WorkerOk(s) && Sealed(s, s')
    ensures Rest(s') == Rest(s)
  {
    if s.pending == 0 { SealFirst(s, s'); } else { SealSecond(s, s'); }
  }

  lemma PublishKeeps(s: State, step: Step, s': State)
    requires Inv(s) && OwnerStep(s, step, s') && step == PublishGo
    ensures Inv(s')
  {
    SealSlots(s, s');
    SealRest(s, s');
  }

  /** Steps that leave packets, progress and history alone. */
  lemma QuietRing(s: State, s': State)
    requires WellFormed(s) && RingOk(s) && WellFormed(s')
    requires s'.packets == s.packets && s'.open == s.open && s'.front == s.front && s'.pending == s.pending
    requires (s'.worker == Advance) == (s.worker == Advance)
    ensures RingOk(s')
  {
  }

  lemma QuietRest(s: State, s': State)
    requires WellFormed(s) && WellFormed(s') && s.pending <= 2
    requires s'.packets == s.packets && s'.open == s.open && s'.front == s.front && s'.pending == s.pending
    requires Done(s') == Done(s) && (s'.worker == Clear) == (s.worker == Clear)
    ensures Rest(s') == Rest(s)
  {
  }

  lemma RaiseKeeps(s: State, step: Step, s': State)
    requires Inv(s) && OwnerStep(s, step, s') && step == RaiseReport
    ensures Inv(s')
  {
    QuietRing(s, s');
    QuietRest(s, s');
  }

  predicate Quiet(step: Step) { step != AddOk && step != PublishGo && step != RaiseReport }

  /** Such a step of the owner changes nothing but its own place, the shutdown flag and
      the wake-up. */
  lemma OwnerQuietFrame(s: State, step: Step, s': State)
    requires WellFormed(s) && OwnerStep(s, step, s') && Quiet(step)
    ensures WellFormed(s') && s' == s.(owner := s'.owner, shutdown := s'.shutdown, wake := s'.wake)
  {
  }

  lemma OwnerQuietHistory(s: State, s': State)
    requires Inv(s) && WellFormed(s') && s' == s.(owner := s'.owner, shutdown := s'.shutdown, wake := s'.wake)
    ensures RingOk(s') && TraceOk(s') && LateOk(s')
  {
    QuietRing(s, s');
    QuietRest(s, s');
  }

  lemma OwnerQuietRoles(s: State, step: Step, s': State)
    requires Inv(s) && OwnerStep(s, step, s') && Quiet(step)
    ensures WellFormed(s') && WorkerOk(s') && OwnerOk(s') && WakeOk(s')
  {
  }

  lemma OwnerQuietKeeps(s: State, step: Step, s': State)
    requires Inv(s) && OwnerStep(s, step, s') && Quiet(step)
    ensures Inv(s')
  {
    OwnerQuietFrame(s, step, s');
    OwnerQuietHistory(s, s');
    OwnerQuietRoles(s, step, s');
  }

  lemma OwnerKeeps(s: State, step: Step, s': State)
    requires Inv(s) && OwnerStep(s, step, s')
    ensures Inv(s')
  {
    match step
    case AddOk => AddKeeps(s, step, s');
    case PublishGo => PublishKeeps(s, step, s');
    case RaiseReport => RaiseKeeps(s, step, s');
    case _ => OwnerQuietKeeps(s, step, s');
  }

  lemma RunRest(s: State, s': State)
    requires Inv(s) && s.worker.Run? && WellFormed(s')
    requires s'.packets == s.packets && s'.open == s.open && s'.front == s.front && s'.pending == s.pending
    requires s'.worker.Settle? && s'.worker.i == s.worker.i
    ensures Rest(s) == [Front(s)[s.worker.i]] + Rest(s')
  {
    var i := s.worker.i;
    assert Front(s)[i..] == [Front(s)[i]] + Front(s)[i + 1..];
  }

  lemma RunKeeps(s: State, step: Step, s': State)
    requires Inv(s) && WorkerStep(s, step, s') && step.RunRecord?
    ensures Inv(s')
  {
    QuietRing(s, s');
    RunRest(s, s');
    RanOne(s.executed, Front(s)[s.worker.i], Rest(s'));
  }

  lemma RanOne(executed: seq<Record>, r: Record, rest: seq<Record>)
    ensures (executed + [r]) + rest == executed + ([r] + rest)
  {
  }

  lemma ClearKeeps(s: State, step: Step, s': State)
    requires Inv(s) && WorkerStep(s, step, s') && step == ClearPacket
    ensures Inv(s')
  {
    RingSlots(s);
    assert Rest(s') == Rest(s);
  }

  /** The front has moved on by one. */
  predicate MovedOn(s: State, s': State)
    requires WellFormed(s)
  {
    && s.worker == Advance && s.pending > 0 && WellFormed(s') && s'.packets == s.packets && s'.open == s.open
    && s'.front == (s.front + 1) % 3 && s'.pending == s.pending - 1 && s'.worker == Pump
  }

  lemma SlotsMoveOn(s: State, s': State)
    requires WellFormed(s) && MovedOn(s, s')
    ensures Slot(s', 0) == Slot(s, 1) && Slot(s', 1) == Slot(s, 2) && Slot(s', 2) == Slot(s, 0) == s.front
    ensures s'.front == Slot(s, 1)
  {
  }

  lemma AdvanceRing(s: State, s': State)
    requires WellFormed(s) && RingOk(s) && MovedOn(s, s')
    ensures RingOk(s')
  {
    SlotsMoveOn(s, s');
  }

  lemma AdvanceRecords(s: State, s': State)
    requires WellFormed(s) && RingOk(s) && MovedOn(s, s')
    ensures s'.pending <= 2 && Rest(s') == Rest(s)
  {
    SlotsMoveOn(s, s');
  }

  lemma AdvanceKeeps(s: State, step: Step, s': State)
    requires Inv(s) && WorkerStep(s, step, s') && step == AdvanceFront
    ensures Inv(s')
  {
    AdvanceRing(s, s');
    AdvanceRecords(s, s');
    AdvanceRest(s, s');
  }

  /** Past the ring, moving on changes nothing. */
  lemma AdvanceRest(s: State, s': State)
    requires Inv(s) && s.worker == Advance && s.pending > 0 && WellFormed(s') && RingOk(s') && Rest(s') == Rest(s)
    requires s' == s.(front := (s.front + 1) % 3, pending := s.pending - 1, worker := Pump)
    ensures Inv(s')
  {
  }

  lemma IdleWorkerKeeps(s: State, step: Step, s': State)
    requires Inv(s) && WorkerStep(s, step, s')
    requires step.PumpMessages? || step == WakeUp || step == MessageArrives || step.WaitFails?
    ensures Inv(s')
  {
    QuietRing(s, s');
    QuietRest(s, s');
  }

  lemma PickKeeps(s: State, step: Step, s': State)
    requires Inv(s) && WorkerStep(s, step, s') && step == PickPacket
    ensures Inv(s')
  {
    QuietRing(s, s');
    QuietRest(s, s');
  }

  lemma CheckKeeps(s: State, step: Step, s': State)
    requires Inv(s) && WorkerStep(s, step, s') && step == CheckStatus
    ensures Inv(s')
  {
    QuietRing(s, s');
    if s'.worker == Clear && s.status == Ok {
      assert Front(s)[s.worker.i..] == [];
      assert Rest(s') == Rest(s);
    } else if s'.worker.Run? {
      QuietRest(s, s');
    }
  }

  lemma SettleKeeps(s: State, step: Step, s': State)
    requires Inv(s) && WorkerStep(s, step, s') && step == SettleResult
    ensures Inv(s')
  {
    QuietRing(s, s');
    QuietRest(s, s');
  }

  lemma WorkerKeeps(s: State, step: Step, s': State)
    requires Inv(s) && WorkerStep(s, step, s')
    ensures Inv(s')
  {
    match step
    case RunRecord(_) => RunKeeps(s, step, s');
    case ClearPacket => ClearKeeps(s, step, s');
    case AdvanceFront => AdvanceKeeps(s, step, s');
    case PickPacket => PickKeeps(s, step, s');
    case CheckStatus => CheckKeeps(s, step, s');
    case SettleResult => SettleKeeps(s, step, s');
    case _ => IdleWorkerKeeps(s, step, s');
  }

  lemma NextKeeps(s: State, s': State)
    requires Inv(s) && Next(s, s')
    ensures Inv(s')
  {
    var step :| OwnerStep(s, step, s') || WorkerStep(s, step, s');
    if OwnerStep(s, step, s') { OwnerKeeps(s, step, s'); } else { WorkerKeeps(s, step, s'); }
  }

  /** Every state of every run satisfies the invariant. */
  lemma {:induction false} RunsKeep(run: seq<State>, k: nat)
    requires IsRun(run) && k < |run|
    ensures Inv(run[k])
  {
    if k == 0 {
      StartOk();
    } else {
      RunsKeep(run, k - 1);
      assert NextAt(run, k - 1);
      NextKeeps(run[k - 1], run[k]);
    }
  }

  // ---------------------------------------------------------- what it means

  /** In every reachable state: the ring counters agree, at most two packets are
      pending, the open packet is unsealed and never the one the worker holds,
      and what has run is a prefix of what was added. */
  lemma Safety(run: seq<State>, k: nat)
    requires IsRun(run) && k < |run|
    ensures var s := run[k];
      && s.pending <= 2 && s.open == (s.front + s.pending) % 3 < |s.packets|
      && !s.packets[s.open].sealed
      && (Holds(s.worker) ==> s.open != s.front)
      && s.executed <= s.added
  {
    RunsKeep(run, k);
    RingSlots(run[k]);
  }

  /** Whatever the owner does, the packet the worker holds stays as it is. */
  lemma OwnerLeavesWorkersPacket(s: State, step: Step, s': State)
    requires Inv(s) && Holds(s.worker) && OwnerStep(s, step, s')
    ensures s'.front == s.front && s'.packets[s.front] == s.packets[s.front] && s'.worker == s.worker
  {
    RingSlots(s);
  }

  /** Whatever the worker does, the open packet stays as it is. */
  lemma WorkerLeavesOpenPacket(s: State, step: Step, s': State)
    requires Inv(s) && WorkerStep(s, step, s')
    ensures s'.open == s.open && s'.packets[s.open] == s.packets[s.open] && s'.owner == s.owner
  {
    RingSlots(s);
  }

  lemma OwnerRunsNothing(s: State, step: Step, s': State)
    requires WellFormed(s) && OwnerStep(s, step, s')
    ensures s'.executed == s.executed && s'.worker == s.worker && (s.status != Ok ==> s'.status == s.status)
  {
  }

  lemma WorkerAfterError(s: State, step: Step, s': State)
    requires WellFormed(s) && WorkerStep(s, step, s') && s.status != Ok
    ensures s'.status == s.status && !s'.worker.Run?
    ensures !s.worker.Run? ==> s'.executed == s.executed
  {
  }

  /** The first error sticks, and a worker that is not past its check of the
      status runs nothing. */
  lemma ErrorSticks(s: State, s': State)
    requires Next(s, s') && s.status != Ok
    ensures s'.status == s.status
    ensures !s.worker.Run? ==> s'.executed == s.executed && !s'.worker.Run?
  {
    var step :| OwnerStep(s, step, s') || WorkerStep(s, step, s');
    if OwnerStep(s, step, s') { OwnerRunsNothing(s, step, s'); } else { WorkerAfterError(s, step, s'); }
  }

  lemma ErrorSticksAt(run: seq<State>, k: nat)
    requires IsRun(run) && k + 1 < |run| && run[k].status != Ok
    ensures run[k + 1].status == run[k].status
    ensures !run[k].worker.Run? ==> run[k + 1].executed == run[k].executed && !run[k + 1].worker.Run?
  {
    assert NextAt(run, k);
    ErrorSticks(run[k], run[k + 1]);
  }

  /** After an error, a worker that is not already past its check of the status
      runs nothing more. */
  lemma {:induction false} NothingRunsAfterError(run: seq<State>, j: nat, k: nat)
    requires IsRun(run) && j <= k < |run|
    requires run[j].status != Ok && !run[j].worker.Run?
    ensures run[k].executed == run[j].executed && run[k].status == run[j].status && !run[k].worker.Run?
  {
    if j < k {
      NothingRunsAfterError(run, j, k - 1);
      ErrorSticksAt(run, k - 1);
    }
  }

  /** Exactly when a record runs after the first error: the owner raised that
      error, for a report it could not add, while the worker was between its
      check and the record.  Then that one record runs, and no other. */
  lemma LateRecords(run: seq<State>, k: nat)
    requires IsRun(run) && k < |run|
    ensures var s := run[k];
      && s.late <= 1
      && (s.late == 1 <==> s.overtaken && !s.worker.Run?)
      && (s.overtaken ==> s.status != Ok)
  {
    RunsKeep(run, k);
  }

  /** The state in which a frame has been published and the worker woken. */
  function Woken(frame: Record): State {
    START.(packets := START.packets[0 := EMPTY.(records := [frame], sealed := true)], added := [frame], open := 1, pending := 1,
           wake := true, owner := Idle)
  }

  /** A frame is published... */
  lemma FramePublished(frame: Record) returns (run: seq<State>)
    requires frame.kind == Present
    ensures IsRun(run) && |run| == 5 && run[4] == Woken(frame)
  {
    var s1 := START.(owner := Adding(frame));
    var s2 := s1.(packets := s1.packets[0 := EMPTY.(records := [] + [frame])], added := [] + [frame],
                  owner := Publishing(false));
    var s3 := s2.(packets := s2.packets[0 := s2.packets[0].(sealed := true)], open := 1, pending := 1,
                  owner := Published(false));
    var s4 := s3.(wake := true, owner := Idle);
    OwnerNext(START, Call(frame), s1);
    OwnerNext(s1, AddOk, s2);
    OwnerNext(s2, PublishGo, s3);
    OwnerNext(s3, Signal, s4);
    run := [START];
    RunExtends(run, s1);
    RunExtends(run + [s1], s2);
    RunExtends(run + [s1] + [s2], s3);
    RunExtends(run + [s1] + [s2] + [s3], s4);
    run := run + [s1] + [s2] + [s3] + [s4];
    assert [] + [frame] == [frame];
    assert s4.packets == Woken(frame).packets && s4.added == [frame];
  }

  /** ... and the worker takes it up. */
  lemma FrameTakenUp(frame: Record) returns (run: seq<State>)
    requires frame.kind == Present
    ensures IsRun(run) && |run| == 8
    ensures var s := run[7];
      && WellFormed(s) && s.status == Ok && s.worker == Run(0) && s.owner == Idle && s.late == 0
      && Front(s) == [frame] && s.executed == []
  {
    run := FramePublished(frame);
    var s4 := run[4];
    var s5, s6, s7 := s4.(worker := Pick), s4.(worker := Check(0)), s4.(worker := Run(0));
    WorkerNext(s4, PumpMessages(Ok), s5);
    RunExtends(run, s5);
    WorkerNext(s5, PickPacket, s6);
    RunExtends(run + [s5], s6);
    WorkerNext(s6, CheckStatus, s7);
    RunExtends(run + [s5] + [s6], s7);
    run := run + [s5] + [s6] + [s7];
  }

  lemma OwnerNext(s: State, step: Step, s': State)
    requires WellFormed(s) && OwnerStep(s, step, s')
    ensures Next(s, s')
  {
  }

  lemma WorkerNext(s: State, step: Step, s': State)
    requires WellFormed(s) && WorkerStep(s, step, s')
    ensures Next(s, s')
  {
  }

  lemma RunExtends(run: seq<State>, s': State)
    requires IsRun(run) && Next(run[|run| - 1], s')
    ensures IsRun(run + [s'])
  {
    forall k: nat | k + 1 < |run + [s']| ensures NextAt(run + [s'], k) {
      if k + 1 < |run| { assert NextAt(run, k); }
    }
  }

  /** It does happen: while the worker is about to run a frame's record, the
      owner fails to add a report and raises the first error. */
  lemma LateRecordHappens() returns (run: seq<State>)
    ensures IsRun(run) && run[|run| - 1].late == 1
  {
    var report, error := Record(Report, 2), Failure(4);
    run := FrameTakenUp(Record(Present, 1));
    var s7 := run[7];
    var s8 := s7.(owner := Adding(report));
    var s9 := s8.(owner := ReportFailed(error));
    var s10 := s9.(status := error, owner := Idle, overtaken := true);
    var s11 := s10.(executed := s10.executed + [Front(s10)[0]], late := 1, worker := Settle(0, Ok));
    OwnerNext(s7, Call(report), s8);
    RunExtends(run, s8);
    OwnerNext(s8, AddFails(error), s9);
    RunExtends(run + [s8], s9);
    OwnerNext(s9, RaiseReport, s10);
    RunExtends(run + [s8] + [s9], s10);
    WorkerNext(s10, RunRecord(Ok), s11);
    RunExtends(run + [s8] + [s9] + [s10], s11);
    run := run + [s8] + [s9] + [s10] + [s11];
  }

  /** Without an error, destroy returns only after every added record has run. */
  lemma DestroyRunsAll(run: seq<State>, k: nat)
    requires IsRun(run) && k < |run|
    ensures run[k].owner == Destroyed && run[k].status == Ok ==> run[k].executed == run[k].added
  {
    RunsKeep(run, k);
  }

  // ------------------------------------------------------------------ progress

  /** Work the worker still has to do before it can look for a packet again. */
  function Remaining(s: State): nat
    requires WellFormed(s)
  {
    match s.worker
    case Wait => 3
    case Pump => 2
    case Pick => 1
    case Check(i) => if i <= |Front(s)| then 3 * (|Front(s)| - i) + 6 else 6
    case Run(i) => if i < |Front(s)| then 3 * (|Front(s)| - i) + 5 else 6
    case Settle(i, _) => if i < |Front(s)| then 3 * (|Front(s)| - i) + 4 else 6
    case Clear => 5
    case Advance => 4
    case Stopped => 0
  }

  function Cost(p: Packet): nat { 3 * |p.records| + 10 }

  /** Bounds the worker steps until nothing is pending. */
  function Measure(s: State): nat
    requires WellFormed(s)
  {
    Remaining(s)
    + (if s.pending >= 1 && !Holds(s.worker) then Cost(s.packets[s.front]) else 0)
    + (if s.pending == 2 then Cost(s.packets[Slot(s, 1)]) else 0)
  }

  /** As long as packets are pending or the owner has shut down, every worker
      step brings it nearer to the end, whatever the backend answers. */
  lemma WorkerProgress(s: State, step: Step, s': State)
    requires Inv(s) && WorkerStep(s, step, s') && (s.pending > 0 || s.shutdown)
    ensures Measure(s') < Measure(s)
  {
    if step == AdvanceFront { AdvanceShrinks(s, s'); } else { StepShrinks(s, step, s'); }
  }

  lemma AdvanceShrinks(s: State, s': State)
    requires WellFormed(s) && RingOk(s) && WorkerStep(s, AdvanceFront, s')
    ensures WellFormed(s') && Measure(s') < Measure(s)
  {
    RingSlots(s);
  }

  lemma StepShrinks(s: State, step: Step, s': State)
    requires WellFormed(s) && RingOk(s) && WorkerOk(s) && WorkerStep(s, step, s') && (s.pending > 0 || s.shutdown)
    requires step != AdvanceFront
    ensures WellFormed(s') && Measure(s') < Measure(s)
  {
    RingSlots(s);
    if step == ClearPacket {
      ClearShrinks(s, s');
    } else if step == PickPacket {
      PickShrinks(s, s');
    } else {
      StayShrinks(s, s');
    }
  }

  lemma ClearShrinks(s: State, s': State)
    requires WellFormed(s) && s.worker == Clear && s.pending > 0 && Slot(s, 1) != s.front
    requires s' == s.(packets := s.packets[s.front := EMPTY], worker := Advance)
    ensures WellFormed(s') && Measure(s') < Measure(s)
  {
  }

  lemma PickShrinks(s: State, s': State)
    requires WellFormed(s) && s.worker == Pick && (s.pending > 0 || s.shutdown)
    requires s' == s.(worker := if s.pending != 0 then Check(0) else if s.shutdown then Stopped else Wait)
    ensures WellFormed(s') && Measure(s') < Measure(s)
  {
  }

  /** A step that keeps the packets and whether one is held. */
  lemma StayShrinks(s: State, s': State)
    requires WellFormed(s) && WellFormed(s')
    requires s'.packets == s.packets && s'.front == s.front && s'.pending == s.pending
    requires Holds(s'.worker) == Holds(s.worker) && Remaining(s') < Remaining(s)
    ensures Measure(s') < Measure(s)
  {
  }

  /** And it can always take one until then. */
  lemma WorkerNeverBlocked(s: State) returns (step: Step, s': State)
    requires Inv(s) && (s.pending > 0 || s.shutdown) && s.worker != Stopped
    requires !s.owner.Published? && s.owner != ShutDown
    ensures WorkerStep(s, step, s')
  {
    step, s' := WorkerFree(s);
  }

  /** It takes no more than a packet to work on, and a wake-up if it waits. */
  lemma WorkerFree(s: State) returns (step: Step, s': State)
    requires WellFormed(s) && WorkerOk(s) && (s.pending > 0 || s.shutdown) && s.worker != Stopped
    requires s.worker == Wait ==> s.wake
    ensures WorkerStep(s, step, s')
  {
    match s.worker
    case Pump => step, s' := PumpMessages(Ok), s.(worker := Pick);
    case Pick =>
      step, s' := PickPacket, s.(worker := if s.pending != 0 then Check(0) else Stopped);
    case Wait => step, s' := WakeUp, s.(wake := false, worker := Pump);
    case Check(i) =>
      step, s' := CheckStatus, s.(worker := if i < |Front(s)| && s.status == Ok then Run(i) else Clear);
    case Run(i) =>
      step, s' := RunFree(s);
    case Settle(i, error) =>
      step, s' := SettleResult, s.(status := Raise(s.status, error), worker := Check(i + 1));
    case Clear => step, s' := ClearPacket, s.(packets := s.packets[s.front := EMPTY], worker := Advance);
    case Advance =>
      step, s' := AdvanceFront, s.(front := (s.front + 1) % 3, pending := s.pending - 1, worker := Pump);
  }

  /** A record can be run, with a backend that succeeds. */
  lemma RunFree(s: State) returns (step: Step, s': State)
    requires WellFormed(s) && s.worker.Run? && s.worker.i < |Front(s)|
    ensures WorkerStep(s, step, s')
  {
    var i := s.worker.i;
    step, s' := RunRecord(Ok), s.(executed := s.executed + [Front(s)[i]],
      late := s.late + if s.status == Ok then 0 else 1, worker := Settle(i, Ok));
    assert Outcome(Front(s)[i].kind, Ok) == Ok;
  }

  /** The owner waits: for room in the ring, or for the worker to stop. */
  predicate Waits(s: State) {
    || (s.owner.Publishing? && s.pending >= 2 && (s.owner.destroying || s.status == Ok))
    || (s.owner == Joining && s.worker != Stopped)
  }

  /** Only the worker can step meanwhile, and it gets nearer to its end. */
  lemma WaitingOwner(s: State, step: Step, s': State)
    requires WellFormed(s) && Waits(s)
    ensures !OwnerStep(s, step, s')
  {
  }

  /** In every other state but the last the owner has a step to take. */
  lemma OwnerGoesOn(s: State) returns (step: Step, s': State)
    requires WellFormed(s) && !Waits(s) && s.owner != Destroyed
    ensures OwnerStep(s, step, s')
  {
    match s.owner
    case Idle =>
      var r := Record(Report, 0);
      step, s' := Call(r), s.(owner := if s.status == Ok then Adding(r) else Idle);
    case Adding(r) =>
      step, s' := AddFails(Closed), s.(owner := if r.kind == Report then ReportFailed(Closed) else Idle);
    case ReportFailed(error) =>
      step := RaiseReport;
      s' := s.(status := Raise(s.status, error), owner := Idle,
               overtaken := s.overtaken || (s.status == Ok && error != Ok && s.worker.Run?));
    case Publishing(destroying) =>
      if destroying || s.status == Ok {
        step := PublishGo;
        s' := s.(packets := s.packets[s.open := s.packets[s.open].(sealed := true)],
                 open := (s.open + 1) % 3, pending := s.pending + 1, owner := Published(destroying));
      } else {
        step, s' := PublishGiveUp, s.(owner := Idle);
      }
    case Published(destroying) =>
      step, s' := Signal, s.(wake := true, owner := if destroying then ShuttingDown else Idle);
    case ShuttingDown =>
      step, s' := SetShutdown, s.(shutdown := true, owner := ShutDown);
    case ShutDown =>
      step, s' := SignalShutdown, s.(wake := true, owner := Joining);
    case Joining =>
      step, s' := Join, s.(owner := Destroyed);
  }

  lemma WaitingHasWork(s: State)
    requires Inv(s) && Waits(s)
    ensures s.pending > 0 || s.shutdown
    ensures s.worker != Stopped && !s.owner.Published? && s.owner != ShutDown
  {
  }

  lemma WaitProgress(s: State, step: Step, s': State)
    requires Inv(s) && Waits(s) && WorkerStep(s, step, s')
    ensures WellFormed(s') && Measure(s') < Measure(s)
  {
    WaitingHasWork(s);
    WorkerProgress(s, step, s');
  }

  lemma WaitStep(s: State, s': State)
    requires Inv(s) && Waits(s) && Next(s, s')
    ensures WellFormed(s') && Measure(s') < Measure(s)
  {
    var step :| OwnerStep(s, step, s') || WorkerStep(s, step, s');
    WaitingOwner(s, step, s');
    WaitProgress(s, step, s');
  }

  lemma RunWellFormed(run: seq<State>, k: nat)
    requires IsRun(run) && k < |run|
    ensures WellFormed(run[k])
  {
    RunsKeep(run, k);
  }

  lemma WaitStepAt(run: seq<State>, k: nat)
    requires IsRun(run) && k + 1 < |run| && Waits(run[k])
    ensures WellFormed(run[k]) && WellFormed(run[k + 1]) && Measure(run[k + 1]) < Measure(run[k])
  {
    RunsKeep(run, k);
    assert NextAt(run, k);
    WaitStep(run[k], run[k + 1]);
  }

  /** No publish and no destroy waits for more than Measure steps of the worker,
      whatever the backend answers... */
  lemma {:induction false} WaitsAreBounded(run: seq<State>, j: nat, k: nat)
    requires IsRun(run) && j <= k < |run|
    requires forall i :: j <= i < k ==> Waits(run[i])
    ensures WellFormed(run[j]) && WellFormed(run[k])
    ensures k - j <= Measure(run[j]) - Measure(run[k])
  {
    if j == k {
      RunWellFormed(run, j);
    } else {
      WaitsAreBounded(run, j, k - 1);
      WaitStepAt(run, k - 1);
    }
  }

  lemma WorkerGoesOn(run: seq<State>) returns (s': State)
    requires IsRun(run) && Waits(run[|run| - 1])
    ensures IsRun(run + [s']) && WellFormed(run[|run| - 1]) && WellFormed(s') && Measure(s') < Measure(run[|run| - 1])
  {
    var s := run[|run| - 1];
    RunsKeep(run, |run| - 1);
    var step;
    WaitingHasWork(s);
    step, s' := WorkerNeverBlocked(s);
    WorkerNext(s, step, s');
    WaitProgress(s, step, s');
    RunExtends(run, s');
  }

  /** ... and from every waiting state there is a way on to the end of the wait. */
  lemma {:induction false} WaitEnds(run: seq<State>) returns (more: seq<State>)
    requires IsRun(run) && WellFormed(run[|run| - 1])
    ensures IsRun(run + more) && !Waits((run + more)[|run + more| - 1])
    decreases Measure(run[|run| - 1])
  {
    more := [];
    assert run + [] == run;
    if Waits(run[|run| - 1]) {
      var s' := WorkerGoesOn(run);
      var rest := WaitEnds(run + [s']);
      more := [s'] + rest;
      assert run + more == run + [s'] + rest;
    }
  }
}
