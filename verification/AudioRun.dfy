/**
 Runs of the output pump of recomp-runtime/dsound_service_adapter.c.  As long as
 no pump drops a span, what is submitted over a whole run of a looping buffer is
 one walk over the sound, of exactly the frames that have come due.
 */
module AudioRun {
  import opened MachineWords
  import opened AudioClock
  import opened AudioBuffer
  import opened AudioPump
  import Arith

  /** A pump takes what has passed after ten milliseconds at the earliest. */
  predicate Takes(d: Deck, now: nat) { d.playing && now >= d.last + 10 }

  function Pumped(d: Deck, now: nat): (r: Deck)
    requires OnTape(d)
    ensures OnTape(r)
  {
    if Takes(d, now) then AudioClock.After(d, now) else d
  }

  /** The deck after pumps at these times. */
  function PumpedTo(d: Deck, times: seq<nat>): (r: Deck)
    requires OnTape(d)
    ensures OnTape(r)
    decreases |times|
  {
    if times == [] then d else Pumped(PumpedTo(d, times[..|times| - 1]), times[|times| - 1])
  }

  /** The frames that the pumps take. */
  function Played(d: Deck, times: seq<nat>): nat
    requires OnTape(d)
    decreases |times|
  {
    if times == [] then 0
    else
      var before, now := PumpedTo(d, times[..|times| - 1]), times[|times| - 1];
      Played(d, times[..|times| - 1]) + if Takes(before, now) then Span(before, now) else 0
  }

  /** No pump is so late, or its span so large, that it is dropped. */
  predicate Steady(d: Deck, times: seq<nat>, align: nat)
    requires OnTape(d)
    decreases |times|
  {
    times == [] ||
    (var before, now := PumpedTo(d, times[..|times| - 1]), times[|times| - 1];
     && Steady(d, times[..|times| - 1], align)
     && (Takes(before, now) ==> now <= before.last + 100 && Span(before, now) * align <= CAPACITY))
  }

  /** A pump within ten milliseconds takes nothing; later ones take their span, which
      is not dropped if at most a hundred have passed and it has at most 80000 bytes. */
  lemma SteadyMeans(d: Deck, times: seq<nat>, now: nat, align: nat)
    requires OnTape(d)
    ensures var e := PumpedTo(d, times);
      && PumpedTo(d, times + [now]) == (if e.playing && now - e.last >= 10 then AudioClock.After(e, now) else e)
      && (Steady(d, times + [now], align) <==>
            Steady(d, times, align)
            && (e.playing && now - e.last >= 10 ==> now - e.last <= 100 && Span(e, now) * align <= 80000))
  {
    assert (times + [now])[..|times|] == times;
  }

  predicate SameRing(d: Deck, e: Deck) {
    e.frames == d.frames && e.loop == d.loop && e.rate == d.rate && e.looping == d.looping && e.playing == d.playing
  }

  lemma PumpedOn(d: Deck, now: nat)
    requires OnTape(d) && d.playing && d.looping
    ensures SameRing(d, Pumped(d, now))
  {
    SameTape(d, now);
    if Takes(d, now) {
      var due := Due(d, now - d.last);
      StepsLooping(d.(remainder := due % 1000, last := now), due / 1000);
    }
  }

  lemma {:induction false} PlaysOn(d: Deck, times: seq<nat>)
    requires OnTape(d) && d.playing && d.looping
    ensures SameRing(d, PumpedTo(d, times)) && PumpedTo(d, times).last >= d.last
    decreases |times|
  {
    if times != [] {
      var before := PumpedTo(d, times[..|times| - 1]);
      PlaysOn(d, times[..|times| - 1]);
      PumpedOn(before, times[|times| - 1]);
      SameTape(before, times[|times| - 1]);
    }
  }

  /** One pump in time takes the frames due, and owes the rest. */
  lemma PumpTakesDue(d: Deck, now: nat)
    requires OnTape(d) && d.playing && d.looping && Takes(d, now) && now <= d.last + 100
    ensures var due := Due(d, now - d.last);
      Span(d, now) == due / 1000 && Pumped(d, now).remainder == due % 1000 && Pumped(d, now).last == now
  {
    var due := Due(d, now - d.last);
    StepsLooping(d.(remainder := due % 1000, last := now), due / 1000);
  }

  /** The pumps together take exactly the frames due at the last of them: however
      often the buffer is pumped, no fraction of a frame is lost. */
  lemma {:induction false} PlayedIsDue(d: Deck, times: seq<nat>, align: nat)
    requires OnTape(d) && d.playing && d.looping && Steady(d, times, align)
    ensures var e := PumpedTo(d, times);
      && e.last >= d.last
      && Played(d, times) == Due(d, e.last - d.last) / 1000 && e.remainder == Due(d, e.last - d.last) % 1000
    decreases |times|
  {
    if times == [] {
      Arith.DivisionIs(d.remainder, 1000, 0, d.remainder);
    } else {
      var before, now := PumpedTo(d, times[..|times| - 1]), times[|times| - 1];
      PlayedIsDue(d, times[..|times| - 1], align);
      PlaysOn(d, times[..|times| - 1]);
      if Takes(before, now) {
        PumpTakesDue(before, now);
        DueJoins(before.last - d.last, now - before.last, d.rate, d.remainder);
      }
    }
  }

  /** The bytes of the span that one pump takes. */
  function Taken(d: Deck, now: nat, align: nat): nat
    requires OnTape(d)
  {
    if Takes(d, now) then Span(d, now) * align else 0
  }

  /** The bytes that the pumps take. */
  function Bytes(d: Deck, times: seq<nat>, align: nat): nat
    requires OnTape(d)
    decreases |times|
  {
    if times == [] then 0
    else
      var before := PumpedTo(d, times[..|times| - 1]);
      Bytes(d, times[..|times| - 1], align) + Taken(before, times[|times| - 1], align)
  }

  lemma SumTimes(a: nat, b: nat, align: nat)
    ensures (a + b) * align == a * align + b * align
  {
  }

  lemma {:induction false} BytesAreFrames(d: Deck, times: seq<nat>, align: nat)
    requires OnTape(d)
    ensures Bytes(d, times, align) == Played(d, times) * align
    decreases |times|
  {
    if times != [] {
      var before, now := PumpedTo(d, times[..|times| - 1]), times[|times| - 1];
      BytesAreFrames(d, times[..|times| - 1], align);
      if Takes(before, now) { SumTimes(Played(d, times[..|times| - 1]), Span(before, now), align); }
    }
  }

  /** A ring of bytes, the place of a deck in it, and its loop point. */
  predicate Lies(d: Deck, align: nat, at: nat, size: nat, loop: nat) {
    align > 0 && at == d.position * align < size == d.frames * align && loop == d.loop * align < size
  }

  /** The bytes of the frames taken lead from the first place to the last. */
  lemma {:induction false} BytesAlong(d: Deck, times: seq<nat>, align: nat, at: nat, size: nat, loop: nat)
    requires OnTape(d) && d.playing && d.looping && Steady(d, times, align) && Lies(d, align, at, size, loop)
    ensures Lies(PumpedTo(d, times), align, Along(at, size, loop, Bytes(d, times, align)), size, loop)
    decreases |times|
  {
    if times != [] {
      var before, now := PumpedTo(d, times[..|times| - 1]), times[|times| - 1];
      var bytes := Bytes(d, times[..|times| - 1], align);
      BytesAlong(d, times[..|times| - 1], align, at, size, loop);
      PlaysOn(d, times[..|times| - 1]);
      PumpedOn(before, now);
      if Takes(before, now) { SpanEndsAtHead(before, align, now); }
      AlongTwice(at, size, loop, bytes, Taken(before, now, align));
    }
  }

  lemma {:induction false} PrefixSteady(d: Deck, times: seq<nat>, align: nat, k: nat)
    requires OnTape(d) && Steady(d, times, align) && k <= |times|
    ensures Steady(d, times[..k], align) && Bytes(d, times[..k], align) <= Bytes(d, times, align)
    decreases |times|
  {
    if k == |times| {
      assert times[..k] == times;
    } else {
      PrefixSteady(d, times[..|times| - 1], align, k);
      assert times[..|times| - 1][..k] == times[..k];
    }
  }

  /** A walk that is decoded throughout is so at its beginning. */
  lemma WalkBegins<T>(ring: seq<T>, at: nat, loop: nat, a: nat, n: nat, bad: T)
    requires at < |ring| && loop < |ring| && a <= n && bad !in Walk(ring, at, loop, n)
    ensures bad !in Walk(ring, at, loop, a)
  {
    WalkTwice(ring, at, loop, a, n - a);
  }

  lemma GivenJoins(a: seq<byte>, b: seq<byte>)
    ensures Given(a + b) == Given(a) + Given(b)
  {
  }

  /** A piece that goes on where a walk has ended prolongs it. */
  lemma WalkProlonged(heard: seq<Option<byte>>, at: nat, loop: nat, n: nat, here: nat, more: nat, sent: seq<byte>,
                      piece: seq<byte>)
    requires at < |heard| && loop < |heard| && here == Along(at, |heard|, loop, n)
    requires Given(sent) == Walk(heard, at, loop, n) && Given(piece) == Walk(heard, here, loop, more)
    ensures Given(sent + piece) == Walk(heard, at, loop, n + more)
  {
    WalkTwice(heard, at, loop, n, more);
    GivenJoins(sent, piece);
  }

  lemma WalkEnds(heard: seq<Option<byte>>, at: nat, loop: nat, n: nat, here: nat, more: nat)
    requires at < |heard| && loop < |heard| && here == Along(at, |heard|, loop, n)
    requires None !in Walk(heard, at, loop, n + more)
    ensures None !in Walk(heard, here, loop, more)
  {
    WalkTwice(heard, at, loop, n, more);
  }

  lemma DeckLies(output: Buffer)
    requires output.Valid() && output.Configured()
    ensures Lies(output.Deck(), output.blockAlign, output.cursor, output.size, output.loopStart)
  {
    Blocks(output.cursor, output.blockAlign);
    Blocks(output.loopStart, output.blockAlign);
    Blocks(output.size, output.blockAlign);
  }

  /** The condition under which a run drops nothing: no pump too late or too large
      for its span, and every block of the sound that is played can be decoded. */
  ghost predicate DropsNothing(heard: seq<Option<byte>>, d: Deck, times: seq<nat>, align: nat, at: nat, loop: nat)
    requires OnTape(d) && at < |heard| && loop < |heard|
  {
    Steady(d, times, align) && None !in Walk(heard, at, loop, Bytes(d, times, align))
  }

  lemma PrefixDropsNothing(heard: seq<Option<byte>>, d: Deck, times: seq<nat>, align: nat, at: nat, loop: nat, k: nat)
    requires OnTape(d) && at < |heard| && loop < |heard| && k <= |times|
    requires DropsNothing(heard, d, times, align, at, loop)
    ensures DropsNothing(heard, d, times[..k], align, at, loop)
  {
    PrefixSteady(d, times, align, k);
    WalkBegins(heard, at, loop, Bytes(d, times[..k], align), Bytes(d, times, align), None);
  }

  /** One more pump, after some. */
  lemma PumpAfter(d: Deck, times: seq<nat>, now: nat, align: nat)
    requires OnTape(d) && Steady(d, times + [now], align)
    ensures var e := PumpedTo(d, times);
      && PumpedTo(d, times + [now]) == Pumped(e, now)
      && Bytes(d, times + [now], align) == Bytes(d, times, align) + Taken(e, now, align)
      && Taken(e, now, align) <= CAPACITY && (Takes(e, now) ==> now <= e.last + 100)
  {
    assert (times + [now])[..|times|] == times;
  }

  /** A pump that drops nothing sends what it takes. */
  method PumpPiece(output: Buffer, source: seq<byte>, format: Format, volume: int, decode: Decoder, ghost n: nat,
                   now: u64) returns (piece: seq<byte>)
    requires output.Valid() && output.Configured() && Measures(format, source, decode, n, output.size)
    requires Taken(output.Deck(), now, output.blockAlign) <= CAPACITY
    requires None !in Walk(Heard(format, source, decode, n, output.size), output.cursor, output.loopStart,
                           Taken(output.Deck(), now, output.blockAlign))
    modifies output`cursor, output`remainder, output`playing, output`lastMs
    ensures output.Valid() && output.Configured() && output.Deck() == Pumped(old(output.Deck()), now)
    ensures Given(piece) == Walk(Heard(format, source, decode, n, output.size), old(output.cursor), output.loopStart,
                                 Taken(old(output.Deck()), now, output.blockAlign))
  {
    var submitted := Pump(output, Some(source), format, volume, decode, n, now);
    piece := if submitted.Some? then submitted.value.pcm else [];
  }

  /** One pump of a run in which nothing is dropped. */
  method PumpNext(output: Buffer, source: seq<byte>, format: Format, volume: int, decode: Decoder, ghost n: nat,
                  now: u64, ghost d: Deck, ghost times: seq<nat>, ghost at: nat, sent: seq<byte>)
    returns (all: seq<byte>)
    requires output.Valid() && output.Configured() && Measures(format, source, decode, n, output.size)
    requires OnTape(d) && d.playing && d.looping && output.Deck() == PumpedTo(d, times)
    requires Lies(d, output.blockAlign, at, output.size, output.loopStart)
    requires Steady(d, times, output.blockAlign)
    requires DropsNothing(Heard(format, source, decode, n, output.size), d, times + [now], output.blockAlign, at,
                          output.loopStart)
    requires Given(sent)
          == Walk(Heard(format, source, decode, n, output.size), at, output.loopStart, Bytes(d, times, output.blockAlign))
    modifies output`cursor, output`remainder, output`playing, output`lastMs
    ensures output.Valid() && output.Configured() && output.Deck() == PumpedTo(d, times + [now])
    ensures Given(all)
         == Walk(Heard(format, source, decode, n, output.size), at, output.loopStart, Bytes(d, times + [now], output.blockAlign))
  {
    ghost var heard := Heard(format, source, decode, n, output.size);
    ghost var e, align, loop: nat := output.Deck(), output.blockAlign, output.loopStart;
    ghost var bytes, more := Bytes(d, times, align), Taken(e, now, align);
    ghost var here: nat := output.cursor;
    PumpAfter(d, times, now, align);
    DeckLies(output);
    BytesAlong(d, times, align, at, output.size, loop);
    PlaysOn(d, times);
    WalkEnds(heard, at, loop, bytes, here, more);
    var piece := PumpPiece(output, source, format, volume, decode, n, now);
    WalkProlonged(heard, at, loop, bytes, here, more, sent, piece);
    all := sent + piece;
  }

  /** A whole run of pumps on a looping buffer.  If it drops nothing, then all that
      is submitted, piece after piece, is one walk over the sound from where the
      head was, of exactly the frames due between the first moment and the last. */
  method PumpAll(output: Buffer, source: seq<byte>, format: Format, volume: int, decode: Decoder, ghost n: nat,
                 times: seq<u64>) returns (sent: seq<byte>)
    requires output.Valid() && output.Configured() && Measures(format, source, decode, n, output.size)
    requires output.Deck().playing && output.Deck().looping
    requires DropsNothing(Heard(format, source, decode, n, output.size), output.Deck(), times, output.blockAlign,
                          output.cursor, output.loopStart)
    modifies output`cursor, output`remainder, output`playing, output`lastMs
    ensures output.Valid() && output.Configured() && output.Deck() == PumpedTo(old(output.Deck()), times)
    ensures output.lastMs >= old(output.lastMs)
    ensures Given(sent) == Walk(Heard(format, source, decode, n, output.size), old(output.cursor), output.loopStart,
                                Due(old(output.Deck()), output.lastMs - old(output.lastMs)) / 1000 * output.blockAlign)
  {
    ghost var d, at, align, loop: nat := output.Deck(), output.cursor, output.blockAlign, output.loopStart;
    ghost var heard := Heard(format, source, decode, n, output.size);
    DeckLies(output);
    sent := [];
    for k := 0 to |times|
      invariant output.Valid() && output.Configured() && output.Deck() == PumpedTo(d, times[..k])
      invariant Given(sent) == Walk(heard, at, loop, Bytes(d, times[..k], align))
    {
      assert times[..k + 1] == times[..k] + [times[k]];
      PrefixDropsNothing(heard, d, times, align, at, loop, k);
      PrefixDropsNothing(heard, d, times, align, at, loop, k + 1);
      sent := PumpNext(output, source, format, volume, decode, n, times[k], d, times[..k], at, sent);
    }
    assert times[..|times|] == times;
    PlayedIsDue(d, times, align);
    BytesAreFrames(d, times, align);
  }
}
