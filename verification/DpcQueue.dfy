/**
 The queue of deferred procedure calls of recomp-runtime/kernel_interrupt.c.  It
 is drained when the interrupt level drops, and the routines it runs may queue,
 remove and lower the level themselves.  What the guest's routines do, call by
 call and without end, is given from outside.  A drain need not end: exactly when
 it does is EndsExactly.  The history numbers the accepted insertions.
 */
module DpcQueue {
  import opened MachineWords

  const CAPACITY := 64
  const DISPATCH_LEVEL := 2

  datatype Entry = Entry(dpc: u32, argument1: u32, argument2: u32)

  const BLANK: Entry := Entry(0, 0, 0)

  /** What guest code can do to the queue. */
  datatype Action = Insert(entry: Entry) | Remove(dpc: u32) | Raise(level: u32) | Lower(level: u32)

  /** What a deferred call turns out to be: without a routine, or running one. */
  datatype Routine = NoRoutine | Runs(actions: seq<Action>)

  /** Every accepted insertion by number; where each of them is. */
  datatype History = History(accepted: seq<Entry>, pending: seq<nat>, dequeued: seq<nat>, removed: seq<nat>)

  predicate Rising(s: seq<nat>) {
    forall i, j :: 0 <= i < j < |s| ==> s[i] < s[j]
  }

  predicate Known(s: seq<nat>, n: nat) {
    forall i :: 0 <= i < |s| ==> s[i] < n
  }

  /** Numbers in a queue, those that left it and those removed from it are all
      the numbers, without overlap, in order. */
  ghost predicate Sound(h: History) {
    && Rising(h.pending) && Rising(h.dequeued)
    && Known(h.pending, |h.accepted|) && Known(h.dequeued, |h.accepted|)
    && Known(h.removed, |h.accepted|)
    && (forall i, j :: 0 <= i < |h.dequeued| && 0 <= j < |h.pending| ==> h.dequeued[i] < h.pending[j])
    && (forall n :: n in h.removed ==> n !in h.pending && n !in h.dequeued)
    && (forall n: nat :: n < |h.accepted| ==> n in h.pending || n in h.dequeued || n in h.removed)
  }

  /** A later history only adds. */
  ghost predicate Extends(h: History, later: History) {
    h.accepted <= later.accepted && h.dequeued <= later.dequeued && h.removed <= later.removed
  }

  predicate NoDuplicates(s: seq<Entry>) {
    forall i, j :: 0 <= i < j < |s| ==> s[i].dpc != s[j].dpc
  }

  function Without<T>(s: seq<T>, i: nat): seq<T>
    requires i < |s|
  {
    s[..i] + s[i + 1..]
  }

  function Inserted(h: History, e: Entry): History {
    History(h.accepted + [e], h.pending + [|h.accepted|], h.dequeued, h.removed)
  }

  function Dequeued(h: History): History
    requires h.pending != []
  {
    History(h.accepted, h.pending[1..], h.dequeued + [h.pending[0]], h.removed)
  }

  function Removed(h: History, i: nat): History
    requires i < |h.pending|
  {
    History(h.accepted, Without(h.pending, i), h.dequeued, h.removed + [h.pending[i]])
  }

  lemma InsertedSound(h: History, e: Entry)
    requires Sound(h)
    ensures Sound(Inserted(h, e)) && Extends(h, Inserted(h, e))
  {
    var later := Inserted(h, e);
    assert later.pending[|h.pending|] == |h.accepted|;
    forall n: nat | n < |later.accepted| ensures n in later.pending || n in later.dequeued || n in later.removed {
      if n < |h.accepted| { assert n in h.pending ==> n in later.pending; }
    }
  }

  lemma DequeuedSound(h: History)
    requires Sound(h) && h.pending != []
    ensures Sound(Dequeued(h)) && Extends(h, Dequeued(h))
  {
    var later := Dequeued(h);
    assert h.pending == [h.pending[0]] + later.pending;
    assert later.dequeued[|h.dequeued|] == h.pending[0];
  }

  /** Taking one place out of a rising sequence takes out that number alone. */
  lemma WithoutNumber(s: seq<nat>, i: nat)
    requires Rising(s) && i < |s|
    ensures Rising(Without(s, i))
    ensures forall n :: n in Without(s, i) <==> n in s && n != s[i]
  {
    var t := Without(s, i);
    forall k | 0 <= k < |s| && k != i ensures s[k] in t && s[k] != s[i] {
      assert t[if k < i then k else k - 1] == s[k];
    }
    forall k | 0 <= k < |t| ensures t[k] in s && t[k] != s[i] {
      assert t[k] == s[if k < i then k else k + 1];
    }
  }

  lemma RemovedSound(h: History, i: nat)
    requires Sound(h) && i < |h.pending|
    ensures Sound(Removed(h, i)) && Extends(h, Removed(h, i))
  {
    var later := Removed(h, i);
    WithoutNumber(h.pending, i);
    assert h.pending[i] !in h.dequeued;
    assert later.removed[|h.removed|] == h.pending[i];
    assert forall n :: n in later.removed <==> n in h.removed || n == h.pending[i];
  }

  /** The entries are the pending insertions. */
  ghost predicate Matches(entries: seq<Entry>, pending: seq<nat>, accepted: seq<Entry>) {
    && |entries| == |pending|
    && forall i :: 0 <= i < |entries| ==> pending[i] < |accepted| && entries[i] == accepted[pending[i]]
  }

  /** An entry that is taken: a real one, not queued yet, and room for it. */
  predicate Insertable(entries: seq<Entry>, dpc: u32) {
    dpc != 0 && |entries| < CAPACITY && forall i :: 0 <= i < |entries| ==> entries[i].dpc != dpc
  }

  predicate IsAt(entries: seq<Entry>, i: nat, dpc: u32) {
    i < |entries| && entries[i].dpc == dpc
  }

  /** The entry of one call, and only that, has been removed. */
  ghost predicate TakenOut(before: seq<Entry>, after: seq<Entry>, h: History, later: History, dpc: u32) {
    exists i: nat :: IsAt(before, i, dpc) && i < |h.pending| && after == Without(before, i) && later == Removed(h, i)
  }

  lemma WithoutMatches(entries: seq<Entry>, pending: seq<nat>, accepted: seq<Entry>, i: nat)
    requires Matches(entries, pending, accepted) && NoDuplicates(entries) && i < |entries|
    ensures Matches(Without(entries, i), Without(pending, i), accepted) && NoDuplicates(Without(entries, i))
  {
    var left := Without(entries, i);
    assert forall k :: 0 <= k < |left| ==> left[k] == entries[if k < i then k else k + 1];
  }

  /** The queue holds the pending insertions, each call once. */
  ghost predicate InOrder(entries: seq<Entry>, h: History) {
    NoDuplicates(entries) && Sound(h) && Matches(entries, h.pending, h.accepted)
  }

  lemma FirstGone(entries: seq<Entry>, h: History)
    requires InOrder(entries, h) && entries != []
    ensures Without(entries, 0) == entries[1..]
    ensures InOrder(entries[1..], Dequeued(h)) && Extends(h, Dequeued(h))
  {
    DequeuedSound(h);
    FirstMatches(entries, h.pending, h.accepted);
  }

  lemma FirstMatches(entries: seq<Entry>, pending: seq<nat>, accepted: seq<Entry>)
    requires Matches(entries, pending, accepted) && NoDuplicates(entries) && entries != []
    ensures Matches(entries[1..], pending[1..], accepted) && NoDuplicates(entries[1..])
  {
    assert forall i :: 0 <= i < |entries| - 1 ==> entries[1..][i] == entries[i + 1];
    assert forall i :: 0 <= i < |pending| - 1 ==> pending[1..][i] == pending[i + 1];
  }

  /** What the guest does: what the k-th entry taken off the queue turns out to be,
      for every k there may ever be. */
  type Guest = nat -> Routine

  /** The entries taken off the queue that have a routine. */
  function CalledOf(dequeued: seq<nat>, accepted: seq<Entry>, guest: Guest): seq<Entry>
    requires Known(dequeued, |accepted|)
  {
    if dequeued == [] then []
    else
      var last := |dequeued| - 1;
      CalledOf(dequeued[..last], accepted, guest) + if guest(last).Runs? then [accepted[dequeued[last]]] else []
  }

  /** The queue, the interrupt level, and what routines were called with. */
  datatype State = State(entries: seq<Entry>, irql: u32, history: History, called: seq<Entry>)

  /** Every accepted insertion is counted once. */
  predicate Counted(s: State) {
    && |s.entries| == |s.history.pending|
    && |s.history.accepted| == |s.history.pending| + |s.history.dequeued| + |s.history.removed|
  }

  /** What always holds: no duplicates, no more entries than there is room for, and
      every accepted insertion in its place. */
  ghost predicate Good(s: State) { Counted(s) && InOrder(s.entries, s.history) && |s.entries| <= CAPACITY }

  /** A later state of the same run; nothing is forgotten. */
  ghost predicate Later(s: State, later: State) { Good(later) && Extends(s.history, later.history) }

  function IndexIn(entries: seq<Entry>, dpc: u32): (i: nat)
    ensures i <= |entries| && (i < |entries| ==> entries[i].dpc == dpc)
    ensures forall k :: 0 <= k < i ==> entries[k].dpc != dpc
  {
    if entries == [] || entries[0].dpc == dpc then 0 else 1 + IndexIn(entries[1..], dpc)
  }

  function Queued(s: State, e: Entry): (r: State)
    requires Counted(s)
    ensures Counted(r)
  {
    if Insertable(s.entries, e.dpc) then s.(entries := s.entries + [e], history := Inserted(s.history, e)) else s
  }

  function Unqueued(s: State, dpc: u32): (r: State)
    requires Counted(s)
    ensures Counted(r)
  {
    var i := IndexIn(s.entries, dpc);
    if i < |s.entries| then s.(entries := Without(s.entries, i), history := Removed(s.history, i)) else s
  }

  /** One action of a deferred routine.  Lowering the level drains nothing: the
      queue is being drained. */
  function Acted(s: State, action: Action): (r: State)
    requires Counted(s)
    ensures Counted(r)
  {
    match action
    case Insert(e) => Queued(s, e)
    case Remove(dpc) => Unqueued(s, dpc)
    case Raise(level) => s.(irql := level % 0x100)
    case Lower(level) => s.(irql := level % 0x100)
  }

  function Performed(s: State, actions: seq<Action>): (r: State)
    requires Counted(s)
    ensures Counted(r) && r.history.dequeued == s.history.dequeued && r.called == s.called
    ensures |r.history.accepted| >= |s.history.accepted| && |r.history.removed| >= |s.history.removed|
    decreases |actions|
  {
    if actions == [] then s else Performed(Acted(s, actions[0]), actions[1..])
  }

  /** The first entry taken off. */
  function TakenOff(s: State): (r: State)
    requires Counted(s) && s.entries != []
    ensures Counted(r)
  {
    s.(entries := s.entries[1..], history := Dequeued(s.history))
  }

  /** The call of a routine, with the entry's arguments. */
  function Calling(s: State, e: Entry): (r: State)
    requires Counted(s)
    ensures Counted(r)
  {
    s.(called := s.called + [e])
  }

  /** One turn of the drain: an entry taken off, and its routine run. */
  function Turned(s: State, guest: Guest): (r: State)
    requires Counted(s) && s.entries != []
    ensures Counted(r) && |r.history.dequeued| == |s.history.dequeued| + 1
    ensures |r.history.accepted| >= |s.history.accepted| && |r.history.removed| >= |s.history.removed|
  {
    match guest(|s.history.dequeued|)
    case NoRoutine => TakenOff(s)
    case Runs(actions) => Performed(Calling(TakenOff(s), s.entries[0]), actions)
  }

  /** n turns of the drain, or as many as there are before the queue is empty. */
  function After(s: State, guest: Guest, n: nat): (r: State)
    requires Counted(s)
    ensures Counted(r)
  {
    if n == 0 then s
    else
      var before := After(s, guest, n - 1);
      if before.entries == [] then before else Turned(before, guest)
  }

  // -------------------------------------------------- what every step keeps

  lemma ExtendsOn(a: History, b: History, c: History)
    requires Extends(a, b) && Extends(b, c)
    ensures Extends(a, c)
  {
  }

  lemma ActedGood(s: State, action: Action)
    requires Good(s)
    ensures Later(s, Acted(s, action))
  {
    match action {
      case Insert(e) =>
        if Insertable(s.entries, e.dpc) { InsertedSound(s.history, e); }
      case Remove(dpc) =>
        var i := IndexIn(s.entries, dpc);
        if i < |s.entries| {
          RemovedSound(s.history, i);
          WithoutMatches(s.entries, s.history.pending, s.history.accepted, i);
        }
      case Raise(_) =>
      case Lower(_) =>
    }
  }

  lemma {:induction false} PerformedGood(s: State, actions: seq<Action>)
    requires Good(s)
    ensures Later(s, Performed(s, actions))
    decreases |actions|
  {
    if actions != [] {
      ActedGood(s, actions[0]);
      PerformedGood(Acted(s, actions[0]), actions[1..]);
      ExtendsOn(s.history, Acted(s, actions[0]).history, Performed(s, actions).history);
    }
  }

  lemma TurnedGood(s: State, guest: Guest)
    requires Good(s) && s.entries != []
    ensures Later(s, Turned(s, guest))
  {
    FirstGone(s.entries, s.history);
    var routine := guest(|s.history.dequeued|);
    if routine.Runs? {
      var calling := Calling(TakenOff(s), s.entries[0]);
      PerformedGood(calling, routine.actions);
      ExtendsOn(s.history, calling.history, Turned(s, guest).history);
    }
  }

  lemma {:induction false} AfterGood(s: State, guest: Guest, n: nat)
    requires Good(s)
    ensures Later(s, After(s, guest, n))
  {
    if n > 0 {
      AfterGood(s, guest, n - 1);
      var before := After(s, guest, n - 1);
      if before.entries != [] {
        TurnedGood(before, guest);
        ExtendsOn(s.history, before.history, After(s, guest, n).history);
      }
    }
  }

  /** Every entry taken off has had its routine called with its arguments, if it has
      a routine, in order. */
  ghost predicate AllCalled(s: State, guest: Guest) {
    Good(s) && s.called == CalledOf(s.history.dequeued, s.history.accepted, guest)
  }

  lemma {:induction false} CalledStays(dequeued: seq<nat>, accepted: seq<Entry>, more: seq<Entry>, guest: Guest)
    requires Known(dequeued, |accepted|) && accepted <= more
    ensures CalledOf(dequeued, more, guest) == CalledOf(dequeued, accepted, guest)
  {
    if dequeued != [] { CalledStays(dequeued[..|dequeued| - 1], accepted, more, guest); }
  }

  lemma TurnCalls(s: State, guest: Guest)
    requires AllCalled(s, guest) && s.entries != []
    ensures AllCalled(Turned(s, guest), guest)
  {
    TurnedGood(s, guest);
    var h, later := s.history, Turned(s, guest).history;
    assert later.dequeued == h.dequeued + [h.pending[0]] && later.dequeued[..|h.dequeued|] == h.dequeued;
    assert s.entries[0] == h.accepted[h.pending[0]] == later.accepted[h.pending[0]];
    CalledStays(h.dequeued, h.accepted, later.accepted, guest);
  }

  lemma {:induction false} AfterAllCalled(s: State, guest: Guest, n: nat)
    requires AllCalled(s, guest)
    ensures AllCalled(After(s, guest, n), guest)
  {
    if n > 0 {
      AfterAllCalled(s, guest, n - 1);
      if !EmptyAfter(s, guest, n - 1) { TurnCalls(After(s, guest, n - 1), guest); }
    }
  }

  // -------------------------------------------------------- when a drain ends

  predicate EmptyAfter(s: State, guest: Guest, n: nat)
    requires Counted(s)
  {
    After(s, guest, n).entries == []
  }

  /** A drain that has ended stays so. */
  lemma {:induction false} StaysEnded(s: State, guest: Guest, n: nat, m: nat)
    requires Counted(s) && EmptyAfter(s, guest, n) && n <= m
    ensures After(s, guest, m) == After(s, guest, n)
  {
    if n < m { StaysEnded(s, guest, n, m - 1); }
  }

  lemma StaysBusy(s: State, guest: Guest, n: nat, m: nat)
    requires Counted(s) && !EmptyAfter(s, guest, m) && n <= m
    ensures !EmptyAfter(s, guest, n)
  {
    if EmptyAfter(s, guest, n) { StaysEnded(s, guest, n, m); }
  }

  /** Every turn takes one entry off, and there are no more turns than entries that
      were pending or have been accepted since. */
  lemma {:induction false} TurnsBounded(s: State, guest: Guest, n: nat)
    requires Counted(s) && (n > 0 ==> !EmptyAfter(s, guest, n - 1))
    ensures |After(s, guest, n).history.dequeued| == |s.history.dequeued| + n
    ensures |After(s, guest, n).history.removed| >= |s.history.removed|
    ensures |s.history.accepted| + n <= |s.entries| + |After(s, guest, n).history.accepted|
  {
    if n > 0 {
      if n > 1 { StaysBusy(s, guest, n - 2, n - 1); }
      TurnsBounded(s, guest, n - 1);
    }
  }

  /** No more than b insertions are accepted, however long the drain goes on. */
  ghost predicate AcceptsAtMost(s: State, guest: Guest, b: nat)
    requires Counted(s)
  {
    forall n: nat :: |After(s, guest, n).history.accepted| <= |s.history.accepted| + b
  }

  lemma EndsWithin(s: State, guest: Guest, b: nat)
    requires Counted(s) && AcceptsAtMost(s, guest, b)
    ensures EmptyAfter(s, guest, |s.entries| + b)
  {
    var n := |s.entries| + b + 1;
    assert |After(s, guest, n).history.accepted| <= |s.history.accepted| + b;
    if !EmptyAfter(s, guest, n - 1) { TurnsBounded(s, guest, n); }
  }

  lemma TurnGrows(s: State, guest: Guest, n: nat)
    requires Counted(s)
    ensures |After(s, guest, n).history.accepted| <= |After(s, guest, n + 1).history.accepted|
  {
  }

  lemma AcceptedGrows(s: State, guest: Guest, m: nat, n: nat)
    requires Counted(s) && m <= n
    ensures |After(s, guest, m).history.accepted| <= |After(s, guest, n).history.accepted|
  {
    var accepted := (k: nat) => |After(s, guest, k).history.accepted|;
    forall k: nat ensures Rises(accepted, k) {
      TurnGrows(s, guest, k);
    }
    RisesOn(accepted, m, n);
  }

  predicate Rises(f: nat -> nat, k: nat) { f(k) <= f(k + 1) }

  lemma {:induction false} RisesOn(f: nat -> nat, m: nat, n: nat)
    requires m <= n && forall k: nat :: Rises(f, k)
    ensures f(m) <= f(n)
  {
    if m < n {
      RisesOn(f, m, n - 1);
      assert Rises(f, n - 1);
    }
  }

  /** A drain ends exactly if the insertions accepted in it are bounded. */
  lemma EndsExactly(s: State, guest: Guest)
    requires Counted(s)
    ensures (exists n: nat :: EmptyAfter(s, guest, n)) <==> (exists b: nat :: AcceptsAtMost(s, guest, b))
  {
    if n: nat :| EmptyAfter(s, guest, n) {
      AcceptedGrows(s, guest, 0, n);
      var b: nat := |After(s, guest, n).history.accepted| - |s.history.accepted|;
      forall m: nat
        ensures |After(s, guest, m).history.accepted| <= |s.history.accepted| + b
      {
        if m <= n { AcceptedGrows(s, guest, m, n); } else { StaysEnded(s, guest, n, m); }
      }
      assert AcceptsAtMost(s, guest, b);
    }
    if b: nat :| AcceptsAtMost(s, guest, b) {
      EndsWithin(s, guest, b);
    }
  }

  /** A routine that queues its own call again: it is accepted each time, since it was
      taken off before, and the drain never ends. */
  lemma {:induction false} RequeueingNeverEnds(s: State, guest: Guest, e: Entry, n: nat)
    requires Counted(s) && s.entries == [e] && e.dpc != 0
    requires forall k :: guest(k) == Runs([Insert(e)])
    ensures After(s, guest, n).entries == [e]
  {
    if n > 0 {
      RequeueingNeverEnds(s, guest, e, n - 1);
      var before := After(s, guest, n - 1);
      var calling := Calling(TakenOff(before), e);
      assert calling.entries == [];
      OneAction(calling, Insert(e));
    }
  }

  lemma OneAction(s: State, action: Action)
    requires Counted(s)
    ensures Performed(s, [action]) == Acted(s, action)
  {
    assert [action][1..] == [];
  }

  // ------------------------------------------------------------- whole runs

  /** What guest code outside deferred routines does; a drain that it starts may be
      looked at after any number of turns. */
  datatype Outer = Calls(action: Action) | Lowers(level: u32, turns: nat)

  function Stepped(s: State, guest: Guest, step: Outer): (r: State)
    requires Counted(s)
    ensures Counted(r)
  {
    match step
    case Calls(action) => Acted(s, action)
    case Lowers(level, turns) =>
      var lowered := s.(irql := level % 0x100);
      if lowered.irql < DISPATCH_LEVEL then After(lowered, guest, turns) else lowered
  }

  function Ran(s: State, guest: Guest, steps: seq<Outer>): (r: State)
    requires Counted(s)
    ensures Counted(r)
    decreases |steps|
  {
    if steps == [] then s else Stepped(Ran(s, guest, steps[..|steps| - 1]), guest, steps[|steps| - 1])
  }

  lemma StepAllCalled(s: State, guest: Guest, step: Outer)
    requires AllCalled(s, guest)
    ensures AllCalled(Stepped(s, guest, step), guest)
  {
    match step {
      case Calls(action) =>
        ActedGood(s, action);
        CalledStays(s.history.dequeued, s.history.accepted, Acted(s, action).history.accepted, guest);
      case Lowers(level, turns) =>
        AfterAllCalled(s.(irql := level % 0x100), guest, turns);
    }
  }

  const START: State := State([], 0, History([], [], [], []), [])

  /** In every state of every run, in the middle of a drain too, there are no
      duplicates and at most 64 entries, every accepted insertion is in its place,
      and every entry taken off has had its routine called. */
  lemma {:induction false} RunsGood(guest: Guest, steps: seq<Outer>)
    ensures AllCalled(Ran(START, guest, steps), guest)
    decreases |steps|
  {
    if steps != [] {
      var last := |steps| - 1;
      RunsGood(guest, steps[..last]);
      StepAllCalled(Ran(START, guest, steps[..last]), guest, steps[last]);
    }
  }

  class Queue {
    const queue: array<Entry>
    const guest: Guest
    var count: nat
    var irql: u32
    var draining: bool
    var turn: nat
    ghost var history: History
    ghost var called: seq<Entry>

    ghost function Now(): State
      reads this, queue
      requires count <= queue.Length
    {
      State(queue[..count], irql, history, called)
    }

    ghost predicate Valid()
      reads this, queue
    {
      queue.Length == CAPACITY && count <= CAPACITY && Counted(Now()) && turn == |history.dequeued|
    }

    constructor (guest: Guest)
      ensures Valid() && fresh(queue) && !draining && this.guest == guest && Now() == START
    {
      queue := new Entry[CAPACITY](_ => BLANK);
      count, irql, draining, turn := 0, 0, false, 0;
      this.guest := guest;
      history, called := History([], [], [], []), [];
    }

    method IndexOf(dpc: u32) returns (i: nat)
      requires Valid()
      ensures i == IndexIn(Now().entries, dpc)
    {
      i := 0;
      while i < count
        invariant i <= count && forall k :: 0 <= k < i ==> queue[k].dpc != dpc
      {
        if queue[i].dpc == dpc { break; }
        i := i + 1;
      }
    }

    /** Close the gap at one place by moving the later entries up. */
    method CloseGap(at: nat)
      requires at < count <= queue.Length
      modifies this`count, queue
      ensures count == old(count) - 1 && queue[..count] == Without(old(queue[..count]), at)
    {
      ghost var was := queue[..count];
      var i := at + 1;
      while i < count
        invariant at < i <= count == |was|
        invariant forall k :: 0 <= k < at || i <= k < count ==> queue[k] == was[k]
        invariant forall k :: at <= k < i - 1 ==> queue[k] == was[k + 1]
      {
        queue[i - 1] := queue[i];
        i := i + 1;
      }
      count := count - 1;
      assert queue[..count] == was[..at] + was[at + 1..];
    }

    method QueueDpc(dpc: u32, argument1: u32, argument2: u32) returns (inserted: bool)
      requires Valid()
      modifies this`count, this`history, queue
      ensures Valid() && Now() == Queued(old(Now()), Entry(dpc, argument1, argument2))
      ensures inserted <==> Insertable(old(Now().entries), dpc)
      ensures inserted ==> Now().entries == old(Now().entries) + [Entry(dpc, argument1, argument2)]
      ensures !inserted ==> Now() == old(Now())
    {
      if dpc == 0 { return false; }
      var i := IndexOf(dpc);
      if i < count { return false; }
      if count >= CAPACITY { return false; }
      ghost var before := Now();
      var e := Entry(dpc, argument1, argument2);
      queue[count] := e;
      count := count + 1;
      history := Inserted(history, e);
      assert Now().entries == before.entries + [e];
      return true;
    }

    method RemoveDpc(dpc: u32) returns (removed: bool)
      requires Valid()
      modifies this`count, this`history, queue
      ensures Valid() && Now() == Unqueued(old(Now()), dpc)
      ensures removed <==> exists e :: e in old(Now().entries) && e.dpc == dpc
      ensures removed ==> TakenOut(old(Now().entries), Now().entries, old(history), history, dpc)
      ensures !removed ==> Now() == old(Now())
    {
      var i := IndexOf(dpc);
      if i == count { return false; }
      assert Now().entries[i] in Now().entries;
      CloseGap(i);
      history := Removed(history, i);
      assert IsAt(old(Now().entries), i, dpc);
      return true;
    }

    /** Take the first entry off the queue, and read what its routine is. */
    method Dequeue() returns (e: Entry, routine: Routine)
      requires Valid() && count > 0
      modifies this`count, this`history, this`turn, queue
      ensures Valid() && Now() == TakenOff(old(Now()))
      ensures e == old(Now().entries)[0] && routine == guest(old(turn))
    {
      e := queue[0];
      routine := guest(turn);
      ghost var before := Now();
      CloseGap(0);
      turn := turn + 1;
      history := Dequeued(history);
      assert Now().entries == before.entries[1..];
    }

    /** Run the queue until it is empty.  An outermost drain that ends has made the
        turns of After and leaves the queue empty; a drain inside a drain does
        nothing. */
    method Drain(ghost turns: nat)
      requires Valid() && (!draining ==> EmptyAfter(Now(), guest, turns))
      modifies this, queue
      ensures Valid() && draining == old(draining)
      ensures !old(draining) ==> count == 0 && Now() == After(old(Now()), guest, turns)
      ensures old(draining) ==> Now() == old(Now())
      decreases if draining then 0 else 1, 0
    {
      if draining { return; }
      ghost var start := Now();
      ghost var n := 0;
      draining := true;
      while count > 0
        invariant Valid() && draining && n <= turns && Now() == After(start, guest, n)
        decreases turns - n
      {
        NextTurn(start, n, turns);
        n := n + 1;
      }
      StaysEnded(start, guest, n, turns);
      draining := false;
    }

    /** A turn while the queue is not empty yet. */
    method NextTurn(ghost start: State, ghost n: nat, ghost turns: nat)
      requires Valid() && draining && count > 0 && Counted(start) && n <= turns
      requires Now() == After(start, guest, n) && EmptyAfter(start, guest, turns)
      modifies this, queue
      ensures Valid() && draining && n < turns && Now() == After(start, guest, n + 1)
      decreases 0, 5
    {
      if n == turns { assert false; }
      Turn();
    }

    method Turn()
      requires Valid() && draining && count > 0
      modifies this, queue
      ensures Valid() && draining && Now() == Turned(old(Now()), guest)
      decreases 0, 4
    {
      var e, routine := Dequeue();
      match routine {
        case NoRoutine =>
        case Runs(actions) => CallRoutine(e, actions);
      }
    }

    /** Call the routine of the entry taken off last. */
    method CallRoutine(e: Entry, actions: seq<Action>)
      requires Valid() && draining
      modifies this, queue
      ensures Valid() && draining && Now() == Performed(Calling(old(Now()), e), actions)
      decreases 0, 3
    {
      called := called + [e];
      RunGuest(actions);
    }

    /** The code of a deferred routine. */
    method RunGuest(actions: seq<Action>)
      requires Valid() && draining
      modifies this, queue
      ensures Valid() && draining && Now() == Performed(old(Now()), actions)
      decreases 0, 2, |actions|
    {
      if actions != [] {
        Act(actions[0]);
        RunGuest(actions[1..]);
      }
    }

    method Act(action: Action)
      requires Valid() && draining
      modifies this, queue
      ensures Valid() && draining && Now() == Acted(old(Now()), action)
      decreases 0, 2, 0
    {
      match action {
        case Insert(e) => var _ := QueueDpc(e.dpc, e.argument1, e.argument2);
        case Remove(dpc) => var _ := RemoveDpc(dpc);
        case Raise(level) => irql := level % 0x100;
        case Lower(level) => LowerIrql(level, 0);
      }
    }

    /** Lower the level, and below dispatch level drain the queue. */
    method LowerIrql(level: u32, ghost turns: nat)
      requires Valid()
      requires !draining && level % 0x100 < DISPATCH_LEVEL ==> EmptyAfter(Now().(irql := level % 0x100), guest, turns)
      modifies this, queue
      ensures Valid() && draining == old(draining)
      ensures !old(draining) ==> Now() == Stepped(old(Now()), guest, Lowers(level, turns))
      ensures old(draining) ==> Now() == Acted(old(Now()), Lower(level))
      ensures !old(draining) && level % 0x100 < DISPATCH_LEVEL ==> count == 0
      decreases if draining then 0 else 1, 1, 0
    {
      irql := level % 0x100;
      if irql < DISPATCH_LEVEL { Drain(turns); }
    }
  }

  /** In every sound history each accepted insertion is pending, has left the
      queue or was removed: one of the three, and not two. */
  lemma EachOnce(h: History, n: nat)
    requires Sound(h) && n < |h.accepted|
    ensures (n in h.pending || n in h.dequeued || n in h.removed)
    ensures !(n in h.pending && n in h.dequeued) && !(n in h.pending && n in h.removed) && !(n in h.dequeued && n in h.removed)
  {
  }
}
