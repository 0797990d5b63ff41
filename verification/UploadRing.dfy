/**
 The upload ring of recomp-runtime/d3d_presenter_d3d11.cpp: each draw's bytes go
 behind the last, and only when the ring wraps is the buffer asked for afresh.
 Bytes that earlier draws may still read are live; a mapping that promises not to
 overwrite must keep off them.
 */
module UploadRing {
  import opened MachineWords

  /** No span of guest memory is longer (d3d_presenter_capture.cpp:18). */
  const MAX_SPAN := 64 * 1024 * 1024
  const MIN_REQUIRED := 0x10_0000
  const FIRST_CAPACITY := 4096

  /** One byte of the buffer, and whether a draw may still read it. */
  datatype Cell = Cell(value: byte, live: bool)

  const BLANK: Cell := Cell(0, false)

  function Blank(n: nat): (s: seq<Cell>)
    ensures |s| == n && forall k :: 0 <= k < n ==> s[k] == BLANK
  {
    seq(n, _ => BLANK)
  }

  function Live(source: seq<byte>): (s: seq<Cell>)
    ensures |s| == |source| && forall k :: 0 <= k < |source| ==> s[k] == Cell(source[k], true)
  {
    seq(|source|, i requires 0 <= i < |source| => Cell(source[i], true))
  }

  /** No live byte from a place on. */
  predicate FreeFrom(cells: seq<Cell>, from: nat) {
    forall k :: from <= k < |cells| ==> !cells[k].live
  }

  /** Every byte that was live is as it was. */
  predicate Kept(before: seq<Cell>, after: seq<Cell>) {
    |after| == |before| && forall k :: 0 <= k < |before| && before[k].live ==> after[k] == before[k]
  }

  /** What the host does with one call: the address of a new buffer, if it makes
      one (it may well be the old one's), and whether the mapping succeeds. */
  datatype Host = Host(created: Option<nat>, mapped: bool)

  datatype Outcome = Failed | Wrote(offset: u32, discarded: bool)

  function Required(size: nat): nat { if 4 * size < MIN_REQUIRED then MIN_REQUIRED else 4 * size }

  /** A buffer is wanted that is four times as large, and a megabyte at least. */
  lemma RequiredMeans(size: nat, n: nat)
    ensures n >= Required(size) <==> n >= 4 * size && n >= 0x10_0000
  {
  }

  /** A ring: the address of its buffer, how large it is, how far it is used, and
      what the buffer holds. */
  datatype State = State(buffer: Option<nat>, capacity: nat, used: nat, cells: seq<Cell>)

  const START: State := State(None, 0, 0, [])

  predicate Valid(s: State) {
    && |s.cells| == s.capacity && (s.buffer.None? ==> s.capacity == 0)
    && s.capacity < 8 * MAX_SPAN && s.used < 8 * MAX_SPAN + 16 && s.used % 16 == 0
    && (s.capacity == 0 || s.capacity >= FIRST_CAPACITY)
  }

  /** What is still to be written is free. */
  predicate Safe(s: State) { FreeFrom(s.cells, s.used) }

  predicate Serves(s: State, size: nat) { s.buffer.Some? && s.capacity >= Required(size) }

  /** The buffer serves, but what is left of it does not. */
  predicate Overrun(s: State, size: nat) { Serves(s, size) && s.used + size > s.capacity }

  /** The capacity, doubled until it is enough. */
  function Doubling(size: nat, required: nat): (r: nat)
    requires size > 0
    ensures r >= required && r >= size && (r == size || r < 2 * required)
    decreases required - size
  {
    if size >= required then size else Doubling(2 * size, required)
  }

  /** A buffer of at least the required size: the one there is, or a new one. */
  function Ensured(s: State, required: nat, host: Host): (r: State)
    requires Valid(s) && 0 < required <= 4 * MAX_SPAN
    ensures Valid(r) && r.used == s.used && (r.buffer.Some? ==> r.capacity >= required)
  {
    if s.buffer.Some? && s.capacity >= required then s
    else if host.created.None? then State(None, 0, s.used, [])
    else
      var size := Doubling(if s.capacity != 0 then s.capacity else FIRST_CAPACITY, required);
      State(host.created, size, s.used, Blank(size))
  }

  function Written(cells: seq<Cell>, from: nat, more: seq<Cell>): (r: seq<Cell>)
    requires from + |more| <= |cells|
    ensures |r| == |cells| && r[from..from + |more|] == more
  {
    cells[..from] + more + cells[from + |more|..]
  }

  function Rounded(size: nat): nat { (size + 15) / 16 * 16 }

  lemma RoundedUp(size: nat)
    ensures Rounded(size) % 16 == 0 && size <= Rounded(size) < size + 16
  {
  }

  /** What one upload makes of a ring, and what it answers. */
  function Uploaded(s: State, source: seq<byte>, host: Host): (State, Outcome)
    requires Valid(s) && 0 < |source| <= MAX_SPAN
  {
    var r := Ensured(s, Required(|source|), host);
    if r.buffer.None? then (r, Failed)
    else
      var wrap := r.buffer != s.buffer || s.used + |source| > r.capacity;
      var from := if wrap then 0 else s.used;
      if !host.mapped then (r.(used := from), Failed)
      else
        var cells := if wrap then Blank(r.capacity) else r.cells;
        (r.(used := from + Rounded(|source|), cells := Written(cells, from, Live(source))),
         Wrote(from, wrap))
  }

  /** The draw finds its bytes, at an aligned place. */
  lemma DrawFindsBytes(s: State, source: seq<byte>, host: Host)
    requires Valid(s) && 0 < |source| <= MAX_SPAN
    ensures var (after, outcome) := Uploaded(s, source, host);
      && Valid(after) && (outcome.Wrote? ==> outcome.offset % 16 == 0 && Serves(after, |source|))
      && (outcome.Wrote? ==> Placed(after.cells, (outcome.offset, source)))
  {
    RoundedUp(|source|);
    var (after, outcome) := Uploaded(s, source, host);
    if outcome.Wrote? {
      ThereWritten(if outcome.discarded then Blank(after.capacity) else Ensured(s, Required(|source|), host).cells,
                   outcome.offset, source);
    }
  }

  lemma ThereWritten(cells: seq<Cell>, from: nat, source: seq<byte>)
    requires from + |source| <= |cells|
    ensures Placed(Written(cells, from, Live(source)), (from, source))
  {
  }

  /** A mapping that promises not to overwrite keeps off live bytes if the ring is
      safe, and a ring stays safe exactly without the failure of a discarding map
      over live bytes. */
  lemma KeepsOffLiveBytes(s: State, source: seq<byte>, host: Host)
    requires Valid(s) && 0 < |source| <= MAX_SPAN && Safe(s)
    ensures var (after, outcome) := Uploaded(s, source, host);
      && (Safe(after) <==> !(Overrun(s, |source|) && !host.mapped && !FreeFrom(s.cells, 0)))
      && (Serves(s, |source|) && !(outcome.Wrote? && outcome.discarded) ==>
            after.buffer == s.buffer && after.capacity == s.capacity && Kept(s.cells, after.cells))
  {
    var (after, outcome) := Uploaded(s, source, host);
    if Overrun(s, |source|) && !host.mapped && !FreeFrom(s.cells, 0) {
      assert after.used == 0 && after.cells == s.cells;
    }
  }

  /** Failures have their reasons, and a map discards only a new buffer or one
      that is at its end. */
  lemma WhyItFails(s: State, source: seq<byte>, host: Host)
    requires Valid(s) && 0 < |source| <= MAX_SPAN
    ensures var (after, outcome) := Uploaded(s, source, host);
      && (outcome.Failed? <==> !host.mapped || (!Serves(s, |source|) && host.created.None?))
      && (outcome.Failed? && Serves(s, |source|) ==> after == s.(used := if Overrun(s, |source|) then 0 else s.used))
      && (outcome.Wrote? && outcome.discarded ==>
            outcome.offset == 0 && (after.buffer != s.buffer || s.used + |source| > after.capacity))
  {
  }

  class Ring {
    var buffer: Option<nat>
    var capacity: u32
    var used: u32
    ghost var cells: seq<Cell>

    ghost function Now(): State
      reads this
    {
      State(buffer, capacity, used, cells)
    }

    constructor ()
      ensures Now() == START
    {
      buffer, capacity, used, cells := None, 0, 0, [];
    }

    /** Double the capacity until it is enough. */
    static method Doubled(start: u32, required: u32) returns (size: u32)
      requires 0 < start < 8 * MAX_SPAN && required <= 4 * MAX_SPAN
      ensures size == Doubling(start, required) && required <= size < 8 * MAX_SPAN
      ensures size == start || size < 2 * required
    {
      size := start;
      while size < required
        invariant start <= size < 8 * MAX_SPAN
        invariant Doubling(size, required) == Doubling(start, required)
      {
        size := size * 2;
      }
    }

    /** Have a buffer of at least the required size, a new one if need be. */
    method Ensure(required: u32, host: Host) returns (ok: bool)
      requires Valid(Now()) && 0 < required <= 4 * MAX_SPAN
      modifies this`buffer, this`capacity, this`cells
      ensures Valid(Now()) && Now() == Ensured(old(Now()), required, host)
      ensures ok <==> buffer.Some?
    {
      if buffer.Some? && capacity >= required { return true; }
      var size := Doubled(if capacity != 0 then capacity else FIRST_CAPACITY, required);
      buffer, capacity, cells := None, 0, [];
      if host.created.None? { return false; }
      buffer, capacity, cells := host.created, size, Blank(size);
      return true;
    }

    /** Upload the bytes of one draw. */
    method Upload(source: seq<byte>, host: Host) returns (outcome: Outcome)
      requires Valid(Now()) && 0 < |source| <= MAX_SPAN
      modifies this
      ensures Valid(Now()) && Now() == Uploaded(old(Now()), source, host).0
      ensures outcome == Uploaded(old(Now()), source, host).1
    {
      DrawFindsBytes(Now(), source, host);
      var previous := buffer;
      var ok := Ensure(Required(|source|), host);
      if !ok { return Failed; }
      var wrap := buffer != previous || used + |source| > capacity;
      if wrap { used := 0; }
      if !host.mapped { return Failed; }
      if wrap { cells := Blank(capacity); }
      var offset := Append(source);
      return Wrote(offset, wrap);
    }

    /** Copy the bytes behind the last. */
    method Append(source: seq<byte>) returns (offset: u32)
      requires used + |source| <= capacity == |cells| && capacity < 8 * MAX_SPAN
      modifies this`cells, this`used
      ensures offset == old(used) && used == offset + Rounded(|source|)
      ensures cells == Written(old(cells), offset, Live(source))
    {
      cells := Written(cells, used, Live(source));
      offset := used;
      used := used + (|source| + 15) / 16 * 16;
    }
  }

  /** The bytes of one upload are still where they were put. */
  predicate Placed(cells: seq<Cell>, at: (nat, seq<byte>)) {
    at.0 + |at.1| <= |cells| && cells[at.0..at.0 + |at.1|] == Live(at.1)
  }

  lemma StillPlaced(before: seq<Cell>, after: seq<Cell>, at: (nat, seq<byte>))
    requires Placed(before, at) && Kept(before, after)
    ensures Placed(after, at)
  {
    forall k | 0 <= k < |at.1| ensures after[at.0 + k] == Live(at.1)[k] {
      assert before[at.0 + k] == before[at.0..at.0 + |at.1|][k];
    }
  }

  // ------------------------------------------------------------- whole runs

  /** A run so far: the ring, the uploads since its buffer was last new or
      discarded, and whether no discarding map over any of them has failed. */
  datatype Run = Run(ring: State, standing: seq<(nat, seq<byte>)>, intact: bool)

  predicate Uploadable(sources: seq<seq<byte>>, hosts: seq<Host>) {
    |hosts| == |sources| && forall i :: 0 <= i < |sources| ==> 0 < |sources[i]| <= MAX_SPAN
  }

  function Step(run: Run, source: seq<byte>, host: Host): Run
    requires Valid(run.ring) && 0 < |source| <= MAX_SPAN
  {
    var (ring, outcome) := Uploaded(run.ring, source, host);
    var renewed := !Serves(run.ring, |source|) || (outcome.Wrote? && outcome.discarded);
    var lost := Overrun(run.ring, |source|) && !host.mapped && run.standing != [];
    var standing := if renewed then [] else run.standing;
    Run(ring, if outcome.Wrote? then standing + [(outcome.offset as nat, source)] else standing,
        renewed || (run.intact && !lost))
  }

  function After(sources: seq<seq<byte>>, hosts: seq<Host>): (run: Run)
    requires Uploadable(sources, hosts)
    ensures Valid(run.ring)
  {
    if sources == [] then Run(START, [], true)
    else
      var last := |sources| - 1;
      var before := After(sources[..last], hosts[..last]);
      DrawFindsBytes(before.ring, sources[last], hosts[last]);
      Step(before, sources[last], hosts[last])
  }

  /** All that stands is in place, what is live stands, and the rest is free. */
  ghost predicate Sound(run: Run) {
    && Valid(run.ring) && Safe(run.ring)
    && (forall i :: 0 <= i < |run.standing| ==> run.standing[i].1 != [] && Placed(run.ring.cells, run.standing[i]))
    && (run.standing == [] ==> FreeFrom(run.ring.cells, 0))
  }

  /** A new buffer, or a discarded one, makes a ring sound whatever came before. */
  lemma RenewedSound(run: Run, source: seq<byte>, host: Host)
    requires Valid(run.ring) && 0 < |source| <= MAX_SPAN
    requires !Serves(run.ring, |source|) || (Uploaded(run.ring, source, host).1.Wrote? && Uploaded(run.ring, source, host).1.discarded)
    ensures Sound(Step(run, source, host))
  {
    DrawFindsBytes(run.ring, source, host);
    FreshCells(run.ring, source, host);
  }

  /** Then only the bytes just written are live. */
  lemma FreshCells(s: State, source: seq<byte>, host: Host)
    requires Valid(s) && 0 < |source| <= MAX_SPAN
    requires var (after, outcome) := Uploaded(s, source, host);
      !Serves(s, |source|) || (outcome.Wrote? && outcome.discarded)
    ensures var (after, outcome) := Uploaded(s, source, host);
      && FreeFrom(after.cells, after.used) && (outcome.Failed? ==> FreeFrom(after.cells, 0))
  {
    var (after, outcome) := Uploaded(s, source, host);
    if outcome.Wrote? {
      assert FreeFrom(after.cells, outcome.offset + |source|);
    }
  }

  lemma StepSound(run: Run, source: seq<byte>, host: Host)
    requires Sound(run) && 0 < |source| <= MAX_SPAN
    requires !(Overrun(run.ring, |source|) && !host.mapped && run.standing != [])
    ensures Sound(Step(run, source, host))
  {
    var next := Step(run, source, host);
    DrawFindsBytes(run.ring, source, host);
    KeepsOffLiveBytes(run.ring, source, host);
    WhyItFails(run.ring, source, host);
    forall i | 0 <= i < |run.standing| && Kept(run.ring.cells, next.ring.cells)
      ensures Placed(next.ring.cells, run.standing[i])
    {
      StillPlaced(run.ring.cells, next.ring.cells, run.standing[i]);
    }
  }

  /** Over every run of uploads, mappings failing anywhere: unless a discarding map
      over a standing upload has failed since, every upload since the buffer was
      last new or discarded is in place, and no other byte is live. */
  lemma {:induction false} RunsStand(sources: seq<seq<byte>>, hosts: seq<Host>)
    requires Uploadable(sources, hosts)
    ensures After(sources, hosts).intact ==> Sound(After(sources, hosts))
  {
    if sources != [] {
      var last := |sources| - 1;
      var before := After(sources[..last], hosts[..last]);
      RunsStand(sources[..last], hosts[..last]);
      var outcome := Uploaded(before.ring, sources[last], hosts[last]).1;
      if !Serves(before.ring, |sources[last]|) || (outcome.Wrote? && outcome.discarded) {
        RenewedSound(before, sources[last], hosts[last]);
      } else if After(sources, hosts).intact {
        StepSound(before, sources[last], hosts[last]);
      }
    }
  }

  /** The uploads of a whole run. */
  method UploadAll(sources: seq<seq<byte>>, hosts: seq<Host>) returns (ring: Ring)
    requires Uploadable(sources, hosts)
    ensures var run := After(sources, hosts);
      ring.Now() == run.ring && (run.intact ==> Sound(run))
  {
    ring := new Ring();
    for n := 0 to |sources|
      invariant fresh(ring) && ring.Now() == After(sources[..n], hosts[..n]).ring
    {
      assert sources[..n + 1][..n] == sources[..n] && hosts[..n + 1][..n] == hosts[..n];
      var _ := ring.Upload(sources[n], hosts[n]);
    }
    assert sources[..|sources|] == sources && hosts[..|sources|] == hosts;
    RunsStand(sources, hosts);
  }

  /** After the failure of a discarding map, the next upload that the buffer serves
      overwrites its beginning, live bytes or not, under a mapping that promised
      not to. */
  lemma OverwritesAfterFailure(s: State, first: seq<byte>, second: seq<byte>, failing: Host, host: Host)
    requires Valid(s) && 0 < |first| <= MAX_SPAN && 0 < |second| <= MAX_SPAN
    requires Overrun(s, |first|) && !failing.mapped && Serves(s, |second|) && host.mapped
    ensures var failed := Uploaded(s, first, failing).0;
      && Valid(failed) && failed.cells == s.cells
      && Uploaded(failed, second, host).1 == Wrote(0, false)
      && Uploaded(failed, second, host).0.cells == Live(second) + s.cells[|second|..]
  {
    var failed := Uploaded(s, first, failing).0;
    assert failed == s.(used := 0);
    assert Live(second) + s.cells[|second|..] == Written(s.cells, 0, Live(second));
  }

  /** A quarter of the first buffer is filled, and then the next. */
  ghost predicate Quarters(run: Run, n: nat, quarter: seq<byte>) {
    && Valid(run.ring) && run.intact && |run.standing| == n
    && (n == 0 ==> run.ring == START)
    && (n > 0 ==> run.ring.buffer.Some? && run.ring.capacity == 0x10_0000 && run.ring.used == n * 0x4_0000)
    && (n > 0 ==> run.standing[0] == (0, quarter))
  }

  lemma QuarterStep(run: Run, n: nat, quarter: seq<byte>, host: Host)
    requires n < 4 && |quarter| == 0x4_0000 && Quarters(run, n, quarter) && host.created.Some? && host.mapped
    ensures Quarters(Step(run, quarter, host), n + 1, quarter)
  {
    DrawFindsBytes(run.ring, quarter, host);
    assert Doubling(FIRST_CAPACITY, MIN_REQUIRED) == 0x10_0000;
  }

  lemma {:induction false} QuartersFill(n: nat, quarter: seq<byte>, host: Host)
    requires n <= 4 && |quarter| == 0x4_0000 && host.created.Some? && host.mapped
    ensures Quarters(After(seq(n, _ => quarter), seq(n, _ => host)), n, quarter)
  {
    if n != 0 {
      QuartersFill(n - 1, quarter, host);
      assert seq(n, _ => quarter)[..n - 1] == seq(n - 1, _ => quarter);
      assert seq(n, _ => host)[..n - 1] == seq(n - 1, _ => host);
      QuarterStep(After(seq(n - 1, _ => quarter), seq(n - 1, _ => host)), n - 1, quarter, host);
    }
  }

  /** Such a failure, from a fresh ring: four uploads fill the first buffer, the
      discarding map of the fifth fails, and the sixth writes over the first. */
  lemma FailureHappens(address: nat, quarter: seq<byte>, fifth: seq<byte>, sixth: seq<byte>)
    requires |quarter| == 0x4_0000 && 0 < |fifth| <= 0x4_0000 && 0 < |sixth| <= 0x4_0000
    ensures var ok, failing := Host(Some(address), true), Host(Some(address), false);
      var run := After(seq(4, _ => quarter) + [fifth], seq(4, _ => ok) + [failing]);
      && !run.intact && |run.standing| == 4 && run.standing[0] == (0, quarter) && Placed(run.ring.cells, run.standing[0])
      && Uploaded(run.ring, sixth, ok).1 == Wrote(0, false)
      && Uploaded(run.ring, sixth, ok).0.cells[..|sixth|] == Live(sixth)
  {
    var ok, failing := Host(Some(address), true), Host(Some(address), false);
    var sources, hosts := seq(4, _ => quarter), seq(4, _ => ok);
    QuartersFill(4, quarter, ok);
    RunsStand(sources, hosts);
    var four := After(sources, hosts);
    assert (sources + [fifth])[..4] == sources && (hosts + [failing])[..4] == hosts;
    OverwritesAfterFailure(four.ring, fifth, sixth, failing, ok);
  }
}
