/**
 The playback clock of recomp-runtime/dsound_service_model.c.  The specification
 moves a play head one frame at a time; the buffer computes the same place in
 closed form, in 64-bit arithmetic, from any elapsed time.
 */
module AudioClock {
  import Arith

  /** A buffer counted in frames: its length and loop point, where the head is,
      thousandths of a frame still owed, and the moment that was settled for. */
  datatype Deck = Deck(frames: nat, loop: nat, looping: bool, position: nat, playing: bool,
                       remainder: nat, rate: nat, last: nat)

  predicate OnTape(d: Deck) {
    d.loop < d.frames && d.position < d.frames && d.remainder < 1000
  }

  /** Play one frame: past the end, wrap to the loop point or stop. */
  function Frame(d: Deck): (r: Deck)
    requires OnTape(d)
    ensures OnTape(r)
  {
    if d.position + 1 < d.frames then d.(position := d.position + 1)
    else if d.looping then d.(position := d.loop)
    else d.(position := 0, playing := false, remainder := 0)
  }

  function Steps(d: Deck, n: nat): (r: Deck)
    requires OnTape(d)
    ensures OnTape(r)
    decreases n
  {
    if n == 0 || !d.playing then d else Steps(Frame(d), n - 1)
  }

  /** Thousandths of a frame due after some milliseconds. */
  function Due(d: Deck, elapsed: nat): nat { elapsed * d.rate + d.remainder }

  /** Play what is due, frame by frame. */
  function Settle(d: Deck, due: nat, now: nat): (r: Deck)
    requires OnTape(d)
    ensures OnTape(r)
  {
    Steps(d.(remainder := due % 1000, last := now), due / 1000)
  }

  /** The deck at a later moment. */
  function After(d: Deck, now: nat): (r: Deck)
    requires OnTape(d)
    ensures OnTape(r)
  {
    if d.playing && now > d.last then Settle(d, Due(d, now - d.last), now) else d
  }

  // ------------------------------------------------------------ closed form

  lemma OneLapLess(n: nat, lap: nat)
    requires 0 < lap <= n
    ensures (n - lap) % lap == n % lap
  {
    Arith.DivisionIs(n - lap, lap, n / lap - 1, n % lap);
  }

  /** Where n frames of a looping deck lead. */
  function Wrapped(d: Deck, n: nat): nat
    requires OnTape(d)
  {
    if n < d.frames - d.position then d.position + n
    else d.loop + (n - (d.frames - d.position)) % (d.frames - d.loop)
  }

  lemma {:induction false} StepsLooping(d: Deck, n: nat)
    requires OnTape(d) && d.playing && d.looping
    ensures Steps(d, n) == d.(position := Wrapped(d, n))
    decreases n
  {
    if n > 0 {
      var lap := d.frames - d.loop;
      StepsLooping(Frame(d), n - 1);
      if d.position + 1 == d.frames {
        if n - 1 >= lap { OneLapLess(n - 1, lap); } else { Arith.DivisionIs(n - 1, lap, 0, n - 1); }
      }
    }
  }

  lemma {:induction false} StepsOneShot(d: Deck, n: nat)
    requires OnTape(d) && d.playing && !d.looping
    ensures n < d.frames - d.position ==> Steps(d, n) == d.(position := d.position + n)
    ensures n >= d.frames - d.position ==> Steps(d, n) == d.(position := 0, playing := false, remainder := 0)
    decreases n
  {
    if n > 0 {
      if d.position + 1 < d.frames { StepsOneShot(Frame(d), n - 1); }
    }
  }

  // --------------------------------------------------------------- arithmetic

  /** Whole seconds and the rest give the same due as all the milliseconds. */
  lemma SecondsAndRest(elapsed: nat, rate: nat, remainder: nat)
    ensures (elapsed * rate + remainder) / 1000 == elapsed / 1000 * rate + (elapsed % 1000 * rate + remainder) / 1000
    ensures (elapsed * rate + remainder) % 1000 == (elapsed % 1000 * rate + remainder) % 1000
  {
    var s, e := elapsed / 1000, elapsed % 1000;
    var x := e * rate + remainder;
    assert elapsed * rate == 1000 * (s * rate) + e * rate by {
      assert elapsed == 1000 * s + e;
      assert (1000 * s + e) * rate == (1000 * s) * rate + e * rate;
      assert (1000 * s) * rate == 1000 * (s * rate);
    }
    Arith.DivisionIs(elapsed * rate + remainder, 1000, s * rate + x / 1000, x % 1000);
  }

  /** Comparing with a quotient instead of multiplying. */
  lemma RoomTest(seconds: nat, rate: nat, remaining: nat)
    requires rate > 0
    ensures seconds <= remaining / rate <==> seconds * rate <= remaining
  {
    var q := remaining / rate;
    assert remaining == rate * q + remaining % rate;
    if seconds <= q {
      Arith.TimesMonotone(seconds, q, rate, rate);
    } else {
      Arith.TimesMonotone(q + 1, seconds, rate, rate);
      Arith.OneMore(q, rate);
    }
  }

  /** Reducing before multiplying keeps the place in the lap. */
  lemma ReducedPlace(s: nat, rate: nat, f: nat, lap: nat, remaining: nat)
    requires lap > 0 && s * rate + f >= remaining
    ensures (s % lap * rate % lap + f + lap - remaining % lap) % lap == (s * rate + f - remaining) % lap
  {
    var q, s0 := s / lap, s % lap;
    var q1, a := s0 * rate / lap, s0 * rate % lap;
    var q2, m := remaining / lap, remaining % lap;
    var x := a + f + lap - m;
    assert s * rate == lap * (q * rate) + s0 * rate by {
      assert s == lap * q + s0;
      assert (lap * q + s0) * rate == (lap * q) * rate + s0 * rate;
      assert (lap * q) * rate == lap * (q * rate);
    }
    assert s0 * rate == lap * q1 + a;
    assert remaining == lap * q2 + m;
    assert x == lap * (x / lap) + x % lap;
    var k := q * rate + q1 - q2 - 1 + x / lap;
    assert lap * k == lap * (q * rate) + lap * q1 - lap * q2 - lap + lap * (x / lap);
    Arith.DivisionIs(s * rate + f - remaining, lap, k, x % lap);
  }

  // ------------------------------------------------------ runs of the deck

  lemma {:induction false} StepsTwice(d: Deck, a: nat, b: nat)
    requires OnTape(d)
    ensures Steps(Steps(d, a), b) == Steps(d, a + b)
    decreases a
  {
    if a > 0 && d.playing {
      StepsTwice(Frame(d), a - 1, b);
    }
  }

  /** While the deck plays on, its remainder and date do not matter. */
  lemma {:induction false} StepsAside(d: Deck, n: nat, remainder: nat, last: nat)
    requires OnTape(d) && remainder < 1000
    ensures Steps(d.(remainder := remainder, last := last), n).playing == Steps(d, n).playing
    ensures Steps(d, n).playing ==>
      Steps(d.(remainder := remainder, last := last), n) == Steps(d, n).(remainder := remainder, last := last)
    ensures !Steps(d, n).playing && d.playing ==>
      Steps(d.(remainder := remainder, last := last), n) == Steps(d, n).(last := last)
    decreases n
  {
    if n > 0 && d.playing {
      var d' := d.(remainder := remainder, last := last);
      if Frame(d).playing {
        assert Frame(d') == Frame(d).(remainder := remainder, last := last);
        StepsAside(Frame(d), n - 1, remainder, last);
      }
    }
  }

  /** Two settlements owe together what one owes. */
  lemma DueJoins(a: nat, b: nat, rate: nat, remainder: nat)
    ensures var first := a * rate + remainder;
            var second := b * rate + first % 1000;
            && ((a + b) * rate + remainder) / 1000 == first / 1000 + second / 1000
            && ((a + b) * rate + remainder) % 1000 == second % 1000
  {
    var first := a * rate + remainder;
    var second := b * rate + first % 1000;
    assert (a + b) * rate == a * rate + b * rate;
    Arith.DivisionIs((a + b) * rate + remainder, 1000, first / 1000 + second / 1000, second % 1000);
  }

  lemma {:induction false} StepsSameTape(d: Deck, n: nat)
    requires OnTape(d)
    ensures var r := Steps(d, n);
            r.frames == d.frames && r.loop == d.loop && r.looping == d.looping && r.rate == d.rate && r.last == d.last
    decreases n
  {
    if n > 0 && d.playing { StepsSameTape(Frame(d), n - 1); }
  }

  lemma SameTape(d: Deck, now: nat)
    requires OnTape(d)
    ensures var r := After(d, now);
            r.frames == d.frames && r.loop == d.loop && r.looping == d.looping && r.rate == d.rate
    ensures After(d, now).last == if d.playing then Max(d.last, now) else d.last
  {
    if d.playing && now > d.last {
      var due := Due(d, now - d.last);
      StepsSameTape(d.(remainder := due % 1000, last := now), due / 1000);
    }
  }

  /** Two settlements are one, as long as the deck plays on after the first. */
  lemma SettleJoins(d: Deck, first: nat, now: nat, second: nat, total: nat, later: nat)
    requires OnTape(d) && d.playing
    requires total / 1000 == first / 1000 + second / 1000 && total % 1000 == second % 1000
    ensures var e := Settle(d, first, now);
            && (e.playing ==> Settle(e, second, later) == Settle(d, total, later))
            && (!e.playing ==> Settle(d, total, later) == e.(last := later))
  {
    var n, m := first / 1000, second / 1000;
    StepsAside(d, n, first % 1000, now);
    StepsAside(d, n, total % 1000, later);
    StepsTwice(d.(remainder := total % 1000, last := later), n, m);
  }

  lemma SettledBetween(d: Deck, now: nat, later: nat)
    requires OnTape(d) && d.playing && d.last < now < later
    ensures After(After(d, now), later).(last := 0) == After(d, later).(last := 0)
    ensures After(d, later).playing ==> After(After(d, now), later) == After(d, later)
  {
    var a, b := now - d.last, later - now;
    var first, total := Due(d, a), Due(d, a + b);
    var e := Settle(d, first, now);
    var second := b * d.rate + first % 1000;
    DueJoins(a, b, d.rate, d.remainder);
    SettleJoins(d, first, now, second, total, later);
    SameTape(d, now);
    if e.playing {
      StepsAside(d, first / 1000, first % 1000, now);
      assert Due(e, b) == second;
    }
  }

  /** A settlement in between changes nothing, except that a deck that has
      stopped keeps the date it was last settled. */
  lemma SettledTwice(d: Deck, now: nat, later: nat)
    requires OnTape(d) && now <= later
    ensures After(After(d, now), later).(last := 0) == After(d, later).(last := 0)
    ensures After(d, later).playing ==> After(After(d, now), later) == After(d, later)
  {
    SameTape(d, now);
    if d.playing && d.last < now < later { SettledBetween(d, now, later); }
  }

  // --------------------------------------------------------------- operations

  datatype Op = Query(now: nat) | Play(looping: bool, fromStart: bool, now: nat) | Stop(now: nat)
    | Retune(rate: nat, now: nat) | Seek(position: nat, now: nat)

  predicate Fits(op: Op, d: Deck) {
    && (op.Retune? ==> op.rate > 0)
    && (op.Seek? ==> op.position < d.frames)
  }

  function Max(a: nat, b: nat): nat { if a < b then b else a }

  function Perform(d: Deck, op: Op): (r: Deck)
    requires OnTape(d) && Fits(op, d)
    ensures OnTape(r) && r.frames == d.frames && r.loop == d.loop
  {
    SameTape(d, op.now);
    var e := After(d, op.now);
    match op
    case Query(_) => e
    case Play(looping, fromStart, now) =>
      e.(position := if fromStart then 0 else e.position, remainder := if fromStart then 0 else e.remainder,
         looping := looping, playing := true, last := Max(e.last, now))
    case Stop(_) => e.(playing := false)
    case Retune(rate, _) => e.(rate := rate)
    case Seek(position, _) => e.(position := position, remainder := 0)
  }

  // -------------------------------------------------------------- conservation

  /** The place n frames on from a place, in a looping buffer. */
  function Place(frames: nat, loop: nat, from: nat, n: nat): nat
    requires loop < frames && from < frames
  {
    Steps(Deck(frames, loop, true, from, true, 0, 0, 0), n).position
  }

  /** Only place, length and loop point tell where a looping head goes. */
  lemma PlaceOf(d: Deck, n: nat)
    requires OnTape(d) && d.playing && d.looping
    ensures Steps(d, n) == d.(position := Place(d.frames, d.loop, d.position, n))
    ensures Place(d.frames, d.loop, d.position, n) == Wrapped(d, n)
  {
    StepsLooping(d, n);
    StepsLooping(Deck(d.frames, d.loop, true, d.position, true, 0, 0, 0), n);
  }

  lemma PlaceTwice(frames: nat, loop: nat, from: nat, a: nat, b: nat)
    requires loop < frames && from < frames
    ensures Place(frames, loop, from, a) < frames
    ensures Place(frames, loop, Place(frames, loop, from, a), b) == Place(frames, loop, from, a + b)
  {
    var d := Deck(frames, loop, true, from, true, 0, 0, 0);
    StepsLooping(d, a);
    StepsTwice(d, a, b);
  }

  /** Operations after which a looping buffer still loops. */
  predicate Loops(op: Op) { op.Play? ==> op.looping }

  predicate AllLoop(d: Deck, ops: seq<Op>) {
    forall k :: 0 <= k < |ops| ==> Loops(ops[k]) && Fits(ops[k], d)
  }

  function Run(d: Deck, ops: seq<Op>): (r: Deck)
    requires OnTape(d) && AllLoop(d, ops)
    ensures OnTape(r) && r.frames == d.frames && r.loop == d.loop
    decreases |ops|
  {
    if ops == [] then d else Perform(Run(d, ops[..|ops| - 1]), ops[|ops| - 1])
  }

  // What the operations alone say, from the first rate, moment and place on.

  /** The rate in force after some operations: that of the last change. */
  function RateAfter(first: nat, ops: seq<Op>): nat {
    if ops == [] then first
    else if ops[|ops| - 1].Retune? then ops[|ops| - 1].rate
    else RateAfter(first, ops[..|ops| - 1])
  }

  /** Whether the buffer plays after them: as the last play or stop left it. */
  predicate PlaysAfter(first: bool, ops: seq<Op>) {
    if ops == [] then first
    else if ops[|ops| - 1].Play? then true
    else if ops[|ops| - 1].Stop? then false
    else PlaysAfter(first, ops[..|ops| - 1])
  }

  /** The latest moment so far of those at which it played, or began to. */
  function MomentAfter(playing: bool, first: nat, ops: seq<Op>): nat {
    if ops == [] then first
    else
      var before, op := ops[..|ops| - 1], ops[|ops| - 1];
      var moment := MomentAfter(playing, first, before);
      if (PlaysAfter(playing, before) || op.Play?) && op.now > moment then op.now else moment
  }

  /** Thousandths of a frame played between two moments. */
  function Stretch(playing: bool, from: nat, to: nat, rate: nat): nat {
    if playing && to > from then (to - from) * rate else 0
  }

  /** Those played up to the last operation since the head was last put somewhere; a
      head that is put somewhere owes nothing. */
  function PlayedFor(d: Deck, ops: seq<Op>): nat {
    if ops == [] then d.remainder
    else
      var before, op := ops[..|ops| - 1], ops[|ops| - 1];
      if op.Seek? || (op.Play? && op.fromStart) then 0
      else
        PlayedFor(d, before) +
        Stretch(PlaysAfter(d.playing, before), MomentAfter(d.playing, d.last, before), op.now, RateAfter(d.rate, before))
  }

  /** Where the head was last put. */
  function PutAt(d: Deck, ops: seq<Op>): nat {
    if ops == [] then d.position
    else if ops[|ops| - 1].Seek? then ops[|ops| - 1].position
    else if ops[|ops| - 1].Play? && ops[|ops| - 1].fromStart then 0
    else PutAt(d, ops[..|ops| - 1])
  }

  lemma {:induction false} PutOnTape(d: Deck, ops: seq<Op>)
    requires OnTape(d) && AllLoop(d, ops)
    ensures PutAt(d, ops) < d.frames
    decreases |ops|
  {
    if ops != [] {
      assert Fits(ops[|ops| - 1], d);
      PutOnTape(d, ops[..|ops| - 1]);
    }
  }

  /** What is left of the first part goes into the second. */
  lemma DueGoesOn(first: nat, more: nat)
    ensures (first + more) / 1000 == first / 1000 + (first % 1000 + more) / 1000
    ensures (first + more) % 1000 == (first % 1000 + more) % 1000
  {
  }

  /** Settling moves a looping head on by the whole part of what is due. */
  lemma SettledPlace(d: Deck, now: nat)
    requires OnTape(d) && d.looping
    ensures var e := After(d, now);
      var due := d.remainder + Stretch(d.playing, d.last, now, d.rate);
      && e == d.(position := Place(d.frames, d.loop, d.position, due / 1000), remainder := due % 1000,
                 last := if d.playing && now > d.last then now else d.last)
  {
    if d.playing && now > d.last {
      var due := Due(d, now - d.last);
      PlaceOf(d.(remainder := due % 1000, last := now), due / 1000);
    } else {
      Arith.DivisionIs(d.remainder, 1000, 0, d.remainder);
    }
  }

  /** The deck is what the operations say: this rate, playing or not, settled for this
      moment; the head as far on from where it was put as has been played. */
  ghost predicate AsTold(e: Deck, d: Deck, rate: nat, playing: bool, moment: nat, from: nat, played: nat)
    requires OnTape(d) && from < d.frames
  {
    && e.frames == d.frames && e.loop == d.loop && e.looping && e.rate == rate && e.playing == playing && e.last == moment
    && e.position == Place(d.frames, d.loop, from, played / 1000) && e.remainder == played % 1000
  }

  lemma ToldSettled(e: Deck, d: Deck, from: nat, played: nat, now: nat)
    requires OnTape(d) && OnTape(e) && from < d.frames
    requires AsTold(e, d, e.rate, e.playing, e.last, from, played)
    ensures var more := Stretch(e.playing, e.last, now, e.rate);
      AsTold(After(e, now), d, e.rate, e.playing, if e.playing && now > e.last then now else e.last, from, played + more)
  {
    var more := Stretch(e.playing, e.last, now, e.rate);
    SettledPlace(e, now);
    DueGoesOn(played, more);
    PlaceTwice(d.frames, d.loop, from, played / 1000, (played % 1000 + more) / 1000);
  }

  lemma ToldNext(e: Deck, d: Deck, ops: seq<Op>)
    requires OnTape(d) && OnTape(e) && ops != [] && AllLoop(d, ops)
    requires var before := ops[..|ops| - 1];
      PutAt(d, before) < d.frames &&
      AsTold(e, d, RateAfter(d.rate, before), PlaysAfter(d.playing, before), MomentAfter(d.playing, d.last, before),
             PutAt(d, before), PlayedFor(d, before))
    ensures PutAt(d, ops) < d.frames && Fits(ops[|ops| - 1], e)
    ensures AsTold(Perform(e, ops[|ops| - 1]), d, RateAfter(d.rate, ops), PlaysAfter(d.playing, ops),
                   MomentAfter(d.playing, d.last, ops), PutAt(d, ops), PlayedFor(d, ops))
  {
    var before, op := ops[..|ops| - 1], ops[|ops| - 1];
    assert Fits(op, d) && Loops(op);
    ToldSettled(e, d, PutAt(d, before), PlayedFor(d, before), op.now);
  }

  /** No fraction of a frame is lost, and nothing else moves the head: over any run of
      queries, plays, stops, changes of rate and seeks in which a buffer keeps looping,
      its rate is that of the last change, it plays as the last play or stop says, and its
      head has moved on from where it was last put by the whole part of all that was played
      since, each stretch at the rate then in force; it still holds the rest. */
  lemma {:induction false} NothingLost(d: Deck, ops: seq<Op>)
    requires OnTape(d) && d.looping && AllLoop(d, ops)
    ensures PutAt(d, ops) < d.frames
    ensures var e, played := Run(d, ops), PlayedFor(d, ops);
      && e.rate == RateAfter(d.rate, ops) && e.playing == PlaysAfter(d.playing, ops)
      && e.last == MomentAfter(d.playing, d.last, ops)
      && e.position == Place(d.frames, d.loop, PutAt(d, ops), played / 1000) && e.remainder == played % 1000
    ensures Run(d, ops).looping
    decreases |ops|
  {
    PutOnTape(d, ops);
    if ops == [] {
      Arith.DivisionIs(d.remainder, 1000, 0, d.remainder);
    } else {
      var before := ops[..|ops| - 1];
      NothingLost(d, before);
      ToldNext(Run(d, before), d, ops);
    }
  }
}
