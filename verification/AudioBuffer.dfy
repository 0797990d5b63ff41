/**
 The sound buffer of recomp-runtime/dsound_service_model.c: byte positions and
 32-bit fields, moved in closed form.  Every operation is proved to be the deck's.
 A value of type u64 that is computed here is proved not to have overflowed.
 */
module AudioBuffer {
  import opened MachineWords
  import opened AudioClock
  import Arith

  const OK: u32 := 0
  const INVALID_PARAM: u32 := 0x8007_0057

  // ----------------------------------------------------------------- places

  /** Whole blocks: counting them loses nothing. */
  lemma Blocks(bytes: nat, align: nat)
    requires align > 0 && bytes % align == 0
    ensures bytes == bytes / align * align
  {
    assert bytes == align * (bytes / align) + bytes % align;
  }

  lemma BlocksBelow(bytes: nat, size: nat, align: nat)
    requires align > 0 && bytes % align == 0 && size % align == 0 && bytes < size
    ensures bytes / align < size / align
  {
    Blocks(bytes, align);
    Blocks(size, align);
    if bytes / align >= size / align { Arith.TimesMonotone(size / align, bytes / align, align, align); }
  }

  /** A block number below the count is a byte position below the size. */
  lemma BlockPlace(n: nat, size: nat, align: nat)
    requires align > 0 && size % align == 0 && n < size / align
    ensures n * align < size && n * align % align == 0 && n * align / align == n
  {
    Blocks(size, align);
    Arith.ItemFits(n, size / align, align);
    Arith.DivisionIs(n * align, align, n, 0);
  }

  lemma ProductFits(a: nat, b: nat)
    requires a < TWO32 && b < TWO32
    ensures a * b <= TWO64 - 2 * TWO32 + 1
  {
    Arith.TimesMonotone(a, TWO32 - 1, b, TWO32 - 1);
  }

  lemma RestFits(rest: nat, rate: nat)
    requires rest < 1000 && rate < TWO32
    ensures rest * rate < 1000 * TWO32
  {
    Arith.TimesMonotone(rest, 1000, rate, TWO32 - 1);
  }

  /** n frames, as whole seconds and a fraction at some rate. */
  ghost predicate Amounts(n: nat, seconds: nat, rate: nat, fraction: nat) {
    n == seconds * rate + fraction / 1000 && fraction < 1000 * TWO32 + 1000
  }

  class Buffer {
    var size: u32
    var rate: u32
    var originalRate: u32
    var blockAlign: u32
    var cursor: u32
    var loopStart: u32
    var remainder: u32
    var playFlags: u32
    var playing: bool
    var lastMs: u64

    predicate Configured()
      reads this
    {
      && size != 0 && rate != 0 && blockAlign != 0 && size % blockAlign == 0
      && loopStart < size && loopStart % blockAlign == 0
    }

    ghost predicate Valid()
      reads this
    {
      remainder < 1000 && (Configured() ==> cursor < size && cursor % blockAlign == 0)
    }

    /** The buffer counted in frames. */
    ghost function Deck(): (d: Deck)
      reads this
      requires Valid() && Configured()
      ensures OnTape(d)
    {
      BlocksBelow(cursor, size, blockAlign);
      BlocksBelow(loopStart, size, blockAlign);
      AudioClock.Deck(size / blockAlign, loopStart / blockAlign, playFlags % 2 == 1, cursor / blockAlign,
                      playing, remainder, rate, lastMs)
    }

    /** A buffer that has not been configured. */
    constructor ()
      ensures Valid() && !Configured()
    {
      size, rate, originalRate, blockAlign, cursor := 0, 0, 0, 0, 0;
      loopStart, remainder, playFlags, playing, lastMs := 0, 0, 0, false, 0;
    }

    method Configure(bytes: u32, sampleRate: u32, align: u32, now: u64) returns (result: u32)
      requires Valid()
      modifies this
      ensures Valid()
      ensures result == OK <==> bytes != 0 && sampleRate != 0 && align != 0 && bytes % align == 0
      ensures result == OK ==>
        && Configured() && size == bytes && blockAlign == align && originalRate == sampleRate
        && Deck() == AudioClock.Deck(bytes / align, 0, false, 0, false, 0, sampleRate, now)
      ensures result != OK ==> result == INVALID_PARAM && unchanged(this)
    {
      if bytes == 0 || sampleRate == 0 || align == 0 || bytes % align != 0 { return INVALID_PARAM; }
      Arith.DivisionIs(0, align, 0, 0);
      size, rate, originalRate, blockAlign, cursor := bytes, sampleRate, sampleRate, align, 0;
      loopStart, remainder, playFlags, playing, lastMs := 0, 0, 0, false, now;
      return OK;
    }

    /** What is due after some milliseconds: whole seconds, and thousandths of a
        frame for the rest; `n` frames in all. */
    static method Split(elapsed: u64, rate: u32, remainder: u32) returns (seconds: u64, fraction: u64, ghost n: nat)
      requires remainder < 1000
      ensures Amounts(n, seconds, rate, fraction) && n == (elapsed * rate + remainder) / 1000
      ensures fraction % 1000 == (elapsed * rate + remainder) % 1000
    {
      seconds := elapsed / 1000;
      var rest: u64 := elapsed % 1000;
      SecondsAndRest(elapsed, rate, remainder);
      RestFits(rest, rate);
      fraction := rest * rate + remainder;
      n := seconds * rate + fraction / 1000;
    }

    /** Whether the frames due end before the buffer does. */
    static method EndsBefore(seconds: u64, rate: u32, fraction: u64, remaining: u64, ghost n: nat)
      returns (before: bool, frames: u64)
      requires rate > 0 && remaining < TWO32 && Amounts(n, seconds, rate, fraction)
      ensures (before <==> n < remaining) && (before ==> frames == n)
    {
      RoomTest(seconds, rate, remaining);
      if seconds <= remaining / rate {
        var whole: u64 := seconds * rate;
        frames := whole + fraction / 1000;
        return frames < remaining, frames;
      }
      return false, 0;
    }

    /** The place of a looping buffer that has passed its end. */
    static method Wrap(loop: u64, remaining: u64, lap: u64, seconds: u64, rate: u32, fraction: u64, ghost n: nat)
      returns (place: u64)
      requires loop < TWO32 && remaining < TWO32 && 0 < lap < TWO32
      requires Amounts(n, seconds, rate, fraction) && n >= remaining
      ensures place == loop + (n - remaining) % lap
    {
      ProductFits(seconds % lap, rate);
      var scaled: u64 := seconds % lap * rate;
      var advance: u64 := scaled % lap + fraction / 1000;
      ReducedPlace(seconds, rate, fraction / 1000, lap, remaining);
      var ahead: u64 := advance + lap - remaining % lap;
      place := loop + ahead % lap;
    }

    method MoveTo(place: u64)
      requires Valid() && Configured() && place < size / blockAlign
      modifies this`cursor
      ensures Valid() && Deck() == old(Deck()).(position := place)
    {
      BlockPlace(place, size, blockAlign);
      cursor := place * blockAlign;
    }

    /** Reach the end of a one-shot buffer. */
    method Finish()
      requires Valid() && Configured()
      modifies this`cursor, this`remainder, this`playing
      ensures Valid() && Deck() == old(Deck()).(position := 0, playing := false, remainder := 0)
    {
      Arith.DivisionIs(0, blockAlign, 0, 0);
      playing, cursor, remainder := false, 0, 0;
    }

    /** Pass the end of a looping buffer. */
    method Loop(frames: u64, remaining: u64, seconds: u64, fraction: u64, ghost n: nat)
      requires Valid() && Configured() && playing && Deck().looping && Amounts(n, seconds, rate, fraction)
      requires frames == Deck().frames && remaining == frames - Deck().position && n >= remaining
      modifies this`cursor
      ensures Valid() && Deck() == Steps(old(Deck()), n)
    {
      ghost var d := Deck();
      StepsLooping(d, n);
      var loop: u64 := loopStart / blockAlign;
      var place := Wrap(loop, remaining, frames - loop, seconds, rate, fraction, n);
      MoveTo(place);
    }

    /** Move on by n frames. */
    method Advance(seconds: u64, fraction: u64, ghost n: nat)
      requires Valid() && Configured() && playing && Amounts(n, seconds, rate, fraction)
      modifies this`cursor, this`remainder, this`playing
      ensures Valid() && Deck() == Steps(old(Deck()), n)
    {
      ghost var d := Deck();
      var frames: u64 := size / blockAlign;
      var position: u64 := cursor / blockAlign;
      var remaining: u64 := frames - position;
      var before, ahead := EndsBefore(seconds, rate, fraction, remaining, n);
      if before {
        StepsAhead(d, n);
        MoveTo(position + ahead);
      } else if playFlags % 2 == 0 {
        StepsOneShot(d, n);
        Finish();
      } else {
        Loop(frames, remaining, seconds, fraction, n);
      }
    }

    method Cursor(now: u64) returns (bytes: u32)
      requires Valid()
      modifies this`cursor, this`remainder, this`playing, this`lastMs
      ensures Valid()
      ensures old(Configured()) ==> Configured() && bytes == cursor && Deck() == After(old(Deck()), now)
      ensures !old(Configured()) ==> bytes == 0 && unchanged(this)
    {
      if !Configured() { return 0; }
      if !playing || now <= lastMs { return cursor; }
      var seconds, fraction, n := Split(now - lastMs, rate, remainder);
      lastMs, remainder := now, fraction % 1000;
      Advance(seconds, fraction, n);
      return cursor;
    }

    /** Take the frames that have passed since the last call, as a span of bytes
        that starts at the offset and wraps; stalls over 100 ms are dropped. */
    method Consume(now: u64) returns (bytes: u32, offset: u32)
      requires Valid()
      modifies this`cursor, this`remainder, this`playing, this`lastMs
      ensures Valid()
      ensures old(Configured()) ==> Configured() && Deck() == After(old(Deck()), now)
      ensures old(Configured()) ==>
        var taken := Span(old(Deck()), now) * blockAlign;
        bytes == (if taken < TWO32 then taken else 0) && (bytes > 0 ==> offset == old(cursor))
      ensures bytes > 0 ==> old(playing) && old(lastMs) < now <= old(lastMs) + 100
      ensures !old(Configured()) ==> bytes == 0 && unchanged(this)
    {
      if !Configured() || !playing || now <= lastMs { return 0, 0; }
      var elapsed: u64 := now - lastMs;
      var position, owed := cursor, remainder;
      ghost var d := Deck();
      var _ := Cursor(now);
      if elapsed > 100 { return 0, 0; }
      var frames := Passed(elapsed, owed, position);
      assert frames == Span(d, now);
      bytes := FrameBytes(frames, blockAlign);
      return bytes, if bytes == 0 then 0 else position;
    }

    /** The frames that have passed since the head was at a position, up to the end of a
        one-shot buffer. */
    method Passed(elapsed: u64, owed: u32, position: u32) returns (frames: u64)
      requires Configured() && elapsed <= 100 && owed < 1000 && position < size
      requires position % blockAlign == 0 && size % blockAlign == 0
      ensures var n, left := (elapsed * rate + owed) / 1000, size / blockAlign - position / blockAlign;
        frames == if playFlags % 2 == 1 || n < left then n else left
    {
      ProductFits(elapsed, rate);
      frames := (elapsed * rate + owed) / 1000;
      if playFlags % 2 == 0 {
        BlocksLeft(position, size, blockAlign);
        var remaining: u32 := (size - position) / blockAlign;
        if frames > remaining { frames := remaining; }
      }
    }

    /** The bytes of so many frames; none if they do not fit. */
    static method FrameBytes(frames: u64, align: u32) returns (bytes: u32)
      requires align > 0
      ensures bytes == if frames * align < TWO32 then frames * align else 0
    {
      RoomTest(frames, align, TWO32 - 1);
      if frames > (TWO32 - 1) / align { return 0; }
      return frames * align;
    }

    method Play(flags: u32, now: u64) returns (result: u32)
      requires Valid()
      modifies this`cursor, this`remainder, this`playFlags, this`playing, this`lastMs
      ensures Valid()
      ensures result == OK <==> old(Configured()) && flags < 4
      ensures result == OK ==>
        Configured() && Deck() == Perform(old(Deck()), Op.Play(flags % 2 == 1, flags / 2 % 2 == 1, now))
      ensures result == OK ==> playing && playFlags == flags && lastMs >= now && lastMs >= old(lastMs)
      ensures result == OK ==> if flags in {2, 3} then cursor == 0 && remainder == 0
                               else Deck().position == After(old(Deck()), now).position
      ensures result != OK ==> result == INVALID_PARAM && unchanged(this)
    {
      if !Configured() || flags / 4 != 0 { return INVALID_PARAM; }
      var _ := Cursor(now);
      if flags / 2 % 2 == 1 {
        Arith.DivisionIs(0, blockAlign, 0, 0);
        cursor, remainder := 0, 0;
      }
      playFlags, playing := flags, true;
      if now > lastMs { lastMs := now; }
      return OK;
    }

    method Stop(now: u64)
      requires Valid()
      modifies this`cursor, this`remainder, this`playing, this`lastMs
      ensures Valid() && !playing
      ensures old(Configured()) ==> Configured() && Deck() == Perform(old(Deck()), Op.Stop(now))
      ensures old(Configured()) ==> Deck() == After(old(Deck()), now).(playing := false)
    {
      var _ := Cursor(now);
      playing := false;
    }

    method SetPosition(position: u32, now: u64) returns (result: u32)
      requires Valid()
      modifies this`cursor, this`remainder, this`playing, this`lastMs
      ensures Valid()
      ensures result == OK <==> old(Configured()) && position < size && position % blockAlign == 0
      ensures result == OK ==> position / blockAlign < old(Deck()).frames
      ensures result == OK ==> Configured() && Deck() == Perform(old(Deck()), Seek(position / blockAlign, now))
      ensures result == OK ==> cursor == position && remainder == 0 && playing == After(old(Deck()), now).playing
      ensures result != OK ==> result == INVALID_PARAM && unchanged(this)
    {
      if !Configured() || position >= size || position % blockAlign != 0 { return INVALID_PARAM; }
      BlocksBelow(position, size, blockAlign);
      var _ := Cursor(now);
      cursor, remainder := position, 0;
      return OK;
    }

    /** Zero asks for the rate the buffer was made with. */
    method SetFrequency(sampleRate: u32, now: u64) returns (result: u32)
      requires Valid()
      modifies this`cursor, this`remainder, this`playing, this`lastMs, this`rate
      ensures Valid()
      ensures var chosen := if sampleRate == 0 then originalRate else sampleRate;
        && (result == OK <==> old(Configured()) && chosen != 0)
        && (result == OK ==> Configured() && Deck() == Perform(old(Deck()), Retune(chosen, now)))
        && (result == OK ==> rate == chosen && Deck().position == After(old(Deck()), now).position)
      ensures result != OK ==> result == INVALID_PARAM && unchanged(this)
    {
      if !Configured() { return INVALID_PARAM; }
      var chosen := if sampleRate == 0 then originalRate else sampleRate;
      if chosen == 0 { return INVALID_PARAM; }
      var _ := Cursor(now);
      rate := chosen;
      return OK;
    }
  }

  /** The frames a span covers: those due, and for a one-shot buffer no more than
      are left. */
  function Span(d: Deck, now: nat): (n: nat)
    requires OnTape(d)
  {
    if !d.playing || now <= d.last || now - d.last > 100 then 0
    else
      var n := Due(d, now - d.last) / 1000;
      if d.looping || n < d.frames - d.position then n else d.frames - d.position
  }

  lemma BlocksLeft(position: nat, size: nat, align: nat)
    requires align > 0 && position < size && position % align == 0 && size % align == 0
    ensures (size - position) / align == size / align - position / align
  {
    Blocks(position, align);
    Blocks(size, align);
    BlocksBelow(position, size, align);
    var n, p := size / align, position / align;
    assert (n - p) * align == n * align - p * align;
    Arith.DivisionIs(size - position, align, n - p, 0);
  }

  lemma StepsAhead(d: Deck, n: nat)
    requires OnTape(d) && d.playing && n < d.frames - d.position
    ensures Steps(d, n) == d.(position := d.position + n)
  {
    if d.looping { StepsLooping(d, n); } else { StepsOneShot(d, n); }
  }
}
