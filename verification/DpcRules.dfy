/**
 The rules of the queue in recomp-runtime/kernel_interrupt.c, call by call: what is
 taken, what is taken out, which routine runs next, and when a drain begins.
 */
module DpcRules {
  import opened MachineWords
  import opened DpcQueue
  import Arith

  /** A call is queued at the end unless it is null, queued already, or one too many. */
  lemma InsertMeans(s: State, e: Entry)
    requires Counted(s)
    ensures var refused := e.dpc == 0 || |s.entries| >= 64 || exists q :: q in s.entries && q.dpc == e.dpc;
      && Acted(s, Insert(e)).entries == (if refused then s.entries else s.entries + [e])
      && (refused ==> Acted(s, Insert(e)) == s)
    ensures Acted(s, Insert(e)).irql == s.irql && Acted(s, Insert(e)).called == s.called
  {
  }

  /** A queued call is taken out from between what is before and what is behind it. */
  lemma RemoveMeans(s: State, before: seq<Entry>, e: Entry, behind: seq<Entry>)
    requires Counted(s) && s.entries == before + [e] + behind && NoDuplicates(s.entries)
    ensures Acted(s, Remove(e.dpc)).entries == before + behind
    ensures Acted(s, Remove(e.dpc)).irql == s.irql && Acted(s, Remove(e.dpc)).called == s.called
  {
    var i := |before|;
    assert s.entries[i] == e;
    assert IndexIn(s.entries, e.dpc) == i;
    assert Without(s.entries, i) == before + behind;
  }

  lemma NothingToRemove(s: State, dpc: u32)
    requires Counted(s) && forall q :: q in s.entries ==> q.dpc != dpc
    ensures Acted(s, Remove(dpc)) == s
  {
    assert IndexIn(s.entries, dpc) == |s.entries|;
  }

  /** The level is the lowest byte of what is asked for; nothing else changes. */
  lemma LevelMeans(s: State, level: u32, low: nat, high: nat)
    requires Counted(s) && level == low + 256 * high && low < 256
    ensures Acted(s, Raise(level)) == Acted(s, Lower(level)) == s.(irql := low)
  {
  }

  /** The entry at the front leaves the queue, and its routine, if it has one, is
      called with it and then acts. */
  lemma TurnMeans(s: State, guest: Guest, e: Entry, rest: seq<Entry>)
    requires Counted(s) && s.entries == [e] + rest
    ensures TakenOff(s).entries == rest && TakenOff(s).irql == s.irql && TakenOff(s).called == s.called
    ensures guest(|s.history.dequeued|).NoRoutine? ==> Turned(s, guest) == TakenOff(s)
    ensures guest(|s.history.dequeued|).Runs? ==>
      Turned(s, guest) == Performed(TakenOff(s).(called := s.called + [e]), guest(|s.history.dequeued|).actions)
  {
  }

  /** A routine's actions happen one after the other. */
  lemma {:induction false} ActionsInOrder(s: State, actions: seq<Action>, more: seq<Action>)
    requires Counted(s)
    ensures Performed(s, actions + more) == Performed(Performed(s, actions), more)
    decreases |actions|
  {
    if actions == [] {
      assert actions + more == more;
    } else {
      assert (actions + more)[1..] == actions[1..] + more;
      ActionsInOrder(Acted(s, actions[0]), actions[1..], more);
    }
  }

  /** Outside of a drain, lowering the level below two begins one. */
  lemma LoweringMeans(s: State, guest: Guest, level: u32, low: nat, high: nat, turns: nat)
    requires Counted(s) && level == low + 256 * high && low < 256
    ensures low >= 2 ==> Stepped(s, guest, Lowers(level, turns)) == s.(irql := low)
    ensures low < 2 ==> Stepped(s, guest, Lowers(level, turns)) == After(s.(irql := low), guest, turns)
  {
    Arith.DivisionIs(level, 0x100, high, low);
  }
}
