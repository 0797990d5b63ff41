/**
 The capture packet of recomp-runtime/d3d_presenter_capture.cpp.  Each accepted
 command is copied together with the memory its draw pointers name; equal spans
 of one pointer are stored once.  Any allocation may fail, and then the packet is
 as it was.  The ghost log records what every successful call saw; Valid ties the
 vectors and the span index to it.
 */
module Capture {
  import opened MachineWords

  /** Host memory at one moment. */
  type Memory = nat -> byte

  /** Which of the allocations of one call succeed. */
  type Allocator = nat -> bool

  ghost predicate NeverFails(alloc: Allocator) {
    forall n :: alloc(n)
  }

  const FIELDS := 7
  const MAX_SPAN := 64 * 1024 * 1024
  const LINEAR_BGRA := 0x12

  /** The memory a draw refers to: 7 pointers (0 is null), their byte counts,
      and the texture formats that decide which stay borrowed. */
  datatype Draw = Draw(pointers: seq<nat>, sizes: seq<nat>, texture: nat, alphaMask: nat, reflection: nat)

  datatype Command = DrawCommand(draw: Draw, rest: nat) | PlainCommand(kind: nat, rest: nat)

  predicate WellShaped(c: Command) {
    c.DrawCommand? ==> |c.draw.pointers| == FIELDS && |c.draw.sizes| == FIELDS
  }

  const DRAW_KIND := 2
  const GAMMA_KIND := 3

  function KindOf(c: Command): nat { if c.DrawCommand? then DRAW_KIND else c.kind }

  predicate Borrowed(d: Draw, field: nat) {
    || (field == 2 && d.texture != LINEAR_BGRA)
    || (field == 4 && d.alphaMask != LINEAR_BGRA)
    || (field == 6 && d.reflection != LINEAR_BGRA)
  }

  /** The commands that are taken at all. */
  predicate Acceptable(c: Command) {
    KindOf(c) <= GAMMA_KIND && (c.DrawCommand? ==> forall i :: 0 <= i < |c.draw.sizes| ==> c.draw.sizes[i] <= MAX_SPAN)
  }

  function BytesAt(mem: Memory, at: nat, size: nat): (s: seq<byte>)
    ensures |s| == size
  {
    seq(size, i requires 0 <= i < size => mem(at + i))
  }

  /** What a consumer sees through one pointer of a draw. */
  datatype View = Null | Alias(pointer: nat) | Copy(bytes: seq<byte>)

  /** What the pointer stands for at the moment of the call. */
  function ViewOf(mem: Memory, d: Draw, i: nat): View
    requires i < |d.pointers| && i < |d.sizes|
  {
    if d.pointers[i] == 0 then Null
    else if Borrowed(d, i) then Alias(d.pointers[i])
    else Copy(BytesAt(mem, d.pointers[i], d.sizes[i]))
  }

  function Views(mem: Memory, c: Command): seq<View>
    requires WellShaped(c)
  {
    if c.DrawCommand? then seq(FIELDS, i requires 0 <= i < FIELDS => ViewOf(mem, c.draw, i)) else []
  }

  /** A copy of the bytes at an address, as they are now. */
  ghost predicate IsCopy(v: View, mem: Memory, at: nat, size: nat) {
    v.Copy? && |v.bytes| == size && forall i :: 0 <= i < size ==> v.bytes[i] == mem(at + i)
  }

  ghost predicate SeenAs(mem: Memory, d: Draw, i: nat, copied: bool, v: View)
    requires i < |d.pointers| && i < |d.sizes|
  {
    if d.pointers[i] == 0 then v == Null
    else if copied then IsCopy(v, mem, d.pointers[i], d.sizes[i]) else v == Alias(d.pointers[i])
  }

  /** What a draw sees: vertices, indices and both palettes are always copied, the
      three textures exactly if they are linear, of format 0x12; a null pointer stays
      null. */
  ghost predicate DrawSeen(mem: Memory, d: Draw, views: seq<View>) {
    && |d.pointers| == |d.sizes| == |views| == 7
    && SeenAs(mem, d, 0, true, views[0]) && SeenAs(mem, d, 1, true, views[1])
    && SeenAs(mem, d, 2, d.texture == 0x12, views[2]) && SeenAs(mem, d, 3, true, views[3])
    && SeenAs(mem, d, 4, d.alphaMask == 0x12, views[4]) && SeenAs(mem, d, 5, true, views[5])
    && SeenAs(mem, d, 6, d.reflection == 0x12, views[6])
  }

  lemma ViewsSeen(mem: Memory, c: Command)
    requires WellShaped(c) && c.DrawCommand?
    ensures DrawSeen(mem, c.draw, Views(mem, c))
  {
    forall i: nat | i < FIELDS
      ensures SeenAs(mem, c.draw, i, i in {0, 1, 3, 5} || (i == 2 && c.draw.texture == 0x12) ||
                     (i == 4 && c.draw.alphaMask == 0x12) || (i == 6 && c.draw.reflection == 0x12), Views(mem, c)[i])
    {
      assert Views(mem, c)[i] == ViewOf(mem, c.draw, i);
    }
  }

  /** Presentable commands are of the four kinds, and no span of a draw is longer than
      the 64 MiB of the guest. */
  lemma TakenExactly(c: Command)
    requires WellShaped(c)
    ensures c.DrawCommand? ==>
      var sizes := c.draw.sizes;
      (Acceptable(c) <==> sizes[0] <= 0x400_0000 && sizes[1] <= 0x400_0000 && sizes[2] <= 0x400_0000 && sizes[3] <= 0x400_0000
                          && sizes[4] <= 0x400_0000 && sizes[5] <= 0x400_0000 && sizes[6] <= 0x400_0000)
    ensures c.PlainCommand? ==> (Acceptable(c) <==> c.kind in {0, 1, 2, 3})
  {
  }

  /** One successful call. */
  datatype Logged = LoggedCommand(command: Command, views: seq<View>) | LoggedRelease(base: nat, size: nat) | LoggedReport

  // -------------------------------------------------------------- the vectors

  datatype Entry = CommandEntry(index: nat) | ReleaseEntry(base: nat, size: nat) | ReportEntry

  /** Where a field's bytes are: nowhere, with the guest, or in the payload from
      a given 8-byte word on. */
  datatype Offset = NullOffset | BorrowedOffset | At(word: nat)

  /** A pointer of a captured command. */
  datatype Pointer = NullPointer | Guest(address: nat) | Payload(word: nat)

  datatype Captured = Captured(command: Command, pointers: seq<Pointer>, offsets: seq<Offset>)

  datatype Span = Span(source: nat, size: nat, word: nat)

  datatype Error = Ok | InvalidArgument | OutOfMemory

  function WordsFor(size: nat): nat { if size == 0 then 1 else (size + 7) / 8 }

  /** The fewest words that hold the bytes, and at least one. */
  lemma WordsMeans(size: nat, words: nat)
    ensures words >= WordsFor(size) <==> words >= 1 && 8 * words >= size
  {
  }

  /** A span as it is stored: whole words, the tail defined. */
  function Stored(bytes: seq<byte>): (s: seq<byte>)
    ensures |s| == 8 * WordsFor(|bytes|) && bytes <= s
  {
    bytes + Zeros(8 * WordsFor(|bytes|) - |bytes|)
  }

  /** The span's bytes lie in the payload. */
  predicate Lies(payload: seq<byte>, word: nat, bytes: seq<byte>) {
    8 * word + |bytes| <= |payload| && payload[8 * word..8 * word + |bytes|] == bytes
  }

  /** A field's offset stands for a view. */
  ghost predicate Stands(payload: seq<byte>, o: Offset, v: View) {
    match v
    case Null => o == NullOffset
    case Alias(_) => o == BorrowedOffset
    case Copy(bytes) => o.At? && Lies(payload, o.word, bytes)
  }

  /** A captured command stands for what its call saw. */
  ghost predicate Faithful(payload: seq<byte>, c: Captured, l: Logged, sealed: bool) {
    && l.LoggedCommand? && c.command == l.command && WellShaped(l.command)
    && (l.command.DrawCommand? ==>
        && |c.offsets| == FIELDS == |c.pointers| == |l.views|
        && (forall i :: 0 <= i < FIELDS ==> Stands(payload, c.offsets[i], l.views[i]))
        && (forall i :: 0 <= i < FIELDS && l.views[i].Alias? ==> c.pointers[i] == Guest(l.views[i].pointer))
        && (forall i :: 0 <= i < FIELDS && !l.views[i].Alias? ==>
              c.pointers[i] == if sealed && c.offsets[i].At? then Payload(c.offsets[i].word) else NullPointer))
  }

  ghost predicate EntryFaithful(payload: seq<byte>, commands: seq<Captured>, e: Entry, l: Logged, sealed: bool) {
    match e
    case CommandEntry(index) => index < |commands| && Faithful(payload, commands[index], l, sealed)
    case ReleaseEntry(base, size) => l == LoggedRelease(base, size)
    case ReportEntry => l == LoggedReport
  }

  /** Every span is inside the payload, with at least one word of its own. */
  ghost predicate IndexOk(payload: seq<byte>, spans: set<Span>) {
    forall s :: s in spans ==> 8 * (s.word + WordsFor(s.size)) <= |payload|
  }

  /** A stored span of that address has what is there now. */
  predicate Matches(payload: seq<byte>, s: Span, source: nat, bytes: seq<byte>) {
    s.source == source && s.size == |bytes| && Lies(payload, s.word, bytes)
  }

  lemma MatchesMeans(payload: seq<byte>, s: Span, source: nat, bytes: seq<byte>)
    ensures Matches(payload, s, source, bytes) <==>
      && s.source == source && s.size == |bytes| && 8 * s.word + |bytes| <= |payload|
      && forall i :: 0 <= i < |bytes| ==> payload[8 * s.word + i] == bytes[i]
  {
    if 8 * s.word + |bytes| <= |payload| {
      var stored := payload[8 * s.word..8 * s.word + |bytes|];
      assert stored == bytes <==> forall i :: 0 <= i < |bytes| ==> stored[i] == bytes[i];
      assert forall i :: 0 <= i < |bytes| ==> stored[i] == payload[8 * s.word + i];
    }
  }

  /** Some span stored for that address has what is there now. */
  ghost predicate Shared(payload: seq<byte>, spans: set<Span>, source: nat, bytes: seq<byte>) {
    exists s :: s in spans && Matches(payload, s, source, bytes)
  }

  /** What a consumer reads through a pointer of a sealed packet. */
  function Read(payload: seq<byte>, p: Pointer, size: nat): View {
    match p
    case NullPointer => Null
    case Guest(address) => Alias(address)
    case Payload(word) => if 8 * word + size <= |payload| then Copy(payload[8 * word..8 * word + size]) else Null
  }

  // ------------------------------------------------------------ frame lemmas

  /** The first i fields of a draw are captured. */
  ghost predicate FieldsDone(payload: seq<byte>, pointers: seq<Pointer>, offsets: seq<Offset>, views: seq<View>, i: nat) {
    && |pointers| == |offsets| == i <= |views|
    && (forall k :: 0 <= k < i ==> Stands(payload, offsets[k], views[k]))
    && (forall k :: 0 <= k < i ==> pointers[k] == if views[k].Alias? then Guest(views[k].pointer) else NullPointer)
  }

  lemma FieldsStand(payload: seq<byte>, payload': seq<byte>, pointers: seq<Pointer>, offsets: seq<Offset>, views: seq<View>, i: nat)
    requires FieldsDone(payload, pointers, offsets, views, i) && payload <= payload'
    ensures FieldsDone(payload', pointers, offsets, views, i)
  {
    forall k | 0 <= k < i ensures Stands(payload', offsets[k], views[k]) {
      assert Stands(payload, offsets[k], views[k]);
    }
  }

  /** What was captured stays captured when the payload and the commands grow. */
  lemma EntryStands(payload: seq<byte>, payload': seq<byte>, commands: seq<Captured>, commands': seq<Captured>,
                    e: Entry, l: Logged, sealed: bool)
    requires EntryFaithful(payload, commands, e, l, sealed) && payload <= payload' && commands <= commands'
    ensures EntryFaithful(payload', commands', e, l, sealed)
  {
    if e.CommandEntry? && l.command.DrawCommand? {
      var c := commands[e.index];
      forall i | 0 <= i < FIELDS ensures Stands(payload', c.offsets[i], l.views[i]) {
        assert Stands(payload, c.offsets[i], l.views[i]);
      }
    }
  }

  ghost predicate LogFaithful(payload: seq<byte>, commands: seq<Captured>, entries: seq<Entry>, log: seq<Logged>, sealed: bool) {
    |entries| == |log| && forall i :: 0 <= i < |log| ==> EntryFaithful(payload, commands, entries[i], log[i], sealed)
  }

  lemma LogStands(payload: seq<byte>, payload': seq<byte>, commands: seq<Captured>, commands': seq<Captured>,
                  entries: seq<Entry>, log: seq<Logged>, sealed: bool)
    requires LogFaithful(payload, commands, entries, log, sealed) && payload <= payload' && commands <= commands'
    ensures LogFaithful(payload', commands', entries, log, sealed)
  {
    forall i | 0 <= i < |log| ensures EntryFaithful(payload', commands', entries[i], log[i], sealed) {
      EntryStands(payload, payload', commands, commands', entries[i], log[i], sealed);
    }
  }

  /** Which spans a failed call must drop: those past the old payload. */
  lemma RolledBack(spans: set<Span>, before: set<Span>, payload: seq<byte>, sources: set<nat>)
    requires IndexOk(payload, before) && |payload| % 8 == 0 && before <= spans
    requires forall s :: s in spans - before ==> s.source in sources && s.word >= |payload| / 8
    ensures (set s | s in spans && !(s.source in sources && s.word >= |payload| / 8)) == before
  {
    forall s | s in before ensures s.word < |payload| / 8 {
      assert 8 * (s.word + WordsFor(s.size)) <= |payload|;
    }
  }

  /** Sealing turns payload offsets into pointers. */
  function Resolve(c: Captured): (r: Captured)
    ensures r.command == c.command && r.offsets == c.offsets && |r.pointers| == |c.pointers|
  {
    if c.command.DrawCommand? && |c.offsets| == |c.pointers| then
      c.(pointers := seq(|c.pointers|, i requires 0 <= i < |c.pointers| =>
        match c.offsets[i]
        case BorrowedOffset => c.pointers[i]
        case NullOffset => NullPointer
        case At(word) => Payload(word)))
    else c
  }

  lemma ResolveSeals(payload: seq<byte>, c: Captured, l: Logged)
    requires Faithful(payload, c, l, false)
    ensures Faithful(payload, Resolve(c), l, true)
  {
    if c.command.DrawCommand? {
      var r := Resolve(c);
      forall i | 0 <= i < FIELDS
        ensures Stands(payload, r.offsets[i], l.views[i])
        ensures l.views[i].Alias? ==> r.pointers[i] == Guest(l.views[i].pointer)
        ensures !l.views[i].Alias? ==> r.pointers[i] == if r.offsets[i].At? then Payload(r.offsets[i].word) else NullPointer
      {
        assert Stands(payload, c.offsets[i], l.views[i]);
      }
    }
  }

  /** A sealed command is read back as its call saw it: copies hold the bytes of
      that moment, null is null, borrowed pointers are the guest's. */
  lemma ReadsBack(payload: seq<byte>, c: Captured, mem: Memory, i: nat)
    requires c.command.DrawCommand? && WellShaped(c.command) && i < FIELDS
    requires Faithful(payload, c, LoggedCommand(c.command, Views(mem, c.command)), true)
    ensures |c.pointers| == FIELDS
    ensures Read(payload, c.pointers[i], c.command.draw.sizes[i]) == ViewOf(mem, c.command.draw, i)
    ensures DrawSeen(mem, c.command.draw, Views(mem, c.command))
  {
    var d := c.command.draw;
    var v := Views(mem, c.command)[i];
    ViewsSeen(mem, c.command);
    assert Stands(payload, c.offsets[i], v);
    assert v.Copy? ==> |v.bytes| == d.sizes[i];
  }

  class Packet {
    var entries: seq<Entry>
    var commands: seq<Captured>
    var payload: seq<byte>
    var spans: set<Span>
    var sealed: bool
    ghost var log: seq<Logged>

    ghost predicate Valid()
      reads this
    {
      && |payload| % 8 == 0
      && LogFaithful(payload, commands, entries, log, sealed)
      && IndexOk(payload, spans)
    }

    constructor ()
      ensures Valid() && log == [] && !sealed && entries == []
    {
      entries, commands, payload, spans, sealed, log := [], [], [], {}, false, [];
    }

    method Clear()
      modifies this
      ensures Valid() && log == [] && !sealed && entries == []
    {
      entries, commands, payload, spans, sealed, log := [], [], [], {}, false, [];
    }

    /** How the span of one pointer is looked up and, if need be, stored. */
    method StoreSpan(source: nat, bytes: seq<byte>, payloadGrows: bool, indexGrows: bool)
      returns (ok: bool, word: nat, inserted: bool)
      requires |payload| % 8 == 0 && IndexOk(payload, spans)
      modifies this`payload, this`spans
      ensures |payload| % 8 == 0 && IndexOk(payload, spans) && old(payload) <= payload
      ensures ok ==> Lies(payload, word, bytes)
      ensures if Shared(old(payload), old(spans), source, bytes) then ok && !inserted && payload == old(payload)
              else inserted == ok == (payloadGrows && indexGrows)
      ensures inserted ==> word == |old(payload)| / 8 && payload == old(payload) + Stored(bytes)
      ensures inserted ==> ok && spans == old(spans) + {Span(source, |bytes|, |old(payload)| / 8)}
      ensures !inserted ==> spans == old(spans)
    {
      var range := set s | s in spans && s.source == source;
      while range != {}
        invariant range <= spans
        invariant forall s :: s in spans && Matches(payload, s, source, bytes) ==> s in range
        decreases range
      {
        var s :| s in range;
        if Matches(payload, s, source, bytes) {
          return true, s.word, false;
        }
        range := range - {s};
      }
      word := |payload| / 8;
      if !payloadGrows { return false, word, false; }
      payload := payload + Stored(bytes);
      if !indexGrows { return false, word, false; }
      spans := spans + {Span(source, |bytes|, word)};
      return true, word, true;
    }

    /** Undo a failed call: drop its spans, its command and its payload. */
    method RollBack(sources: set<nat>, oldWords: nat, oldCommands: nat)
      requires oldCommands <= |commands| && 8 * oldWords <= |payload|
      modifies this`commands, this`payload, this`spans
      ensures commands == old(commands)[..oldCommands] && payload == old(payload)[..8 * oldWords]
      ensures spans == set s | s in old(spans) && !(s.source in sources && s.word >= oldWords)
    {
      var left := sources;
      while left != {}
        invariant left <= sources
        invariant spans == set s | s in old(spans) && !(s.source in sources - left && s.word >= oldWords)
        invariant commands == old(commands) && payload == old(payload)
      {
        var source :| source in left;
        spans := set s | s in spans && !(s.source == source && s.word >= oldWords);
        left := left - {source};
      }
      commands := commands[..oldCommands];
      payload := payload[..8 * oldWords];
    }

    method CaptureField(d: Draw, i: nat, mem: Memory, payloadGrows: bool, indexGrows: bool)
      returns (ok: bool, pointer: Pointer, offset: Offset, inserted: set<nat>)
      requires i < |d.pointers| && i < |d.sizes| && |payload| % 8 == 0 && IndexOk(payload, spans)
      modifies this`payload, this`spans
      ensures |payload| % 8 == 0 && IndexOk(payload, spans) && old(payload) <= payload && old(spans) <= spans
      ensures forall s :: s in spans - old(spans) ==> s.source in inserted && s.word >= |old(payload)| / 8
      ensures ok ==> Stands(payload, offset, ViewOf(mem, d, i))
      ensures ok ==> pointer == if ViewOf(mem, d, i).Alias? then Guest(d.pointers[i]) else NullPointer
      ensures payloadGrows && indexGrows ==> ok
    {
      var source := d.pointers[i];
      if source != 0 && Borrowed(d, i) { return true, Guest(source), BorrowedOffset, {}; }
      if source == 0 { return true, NullPointer, NullOffset, {}; }
      var stored, word, isNew := StoreSpan(source, BytesAt(mem, source, d.sizes[i]), payloadGrows, indexGrows);
      return stored, NullPointer, At(word), if isNew then {source} else {};
    }

    /** Capture the memory behind a draw's pointers, field by field, into the
        last command. */
    method CaptureFields(c: Command, mem: Memory, alloc: Allocator) returns (ok: bool, inserted: set<nat>)
      requires c.DrawCommand? && WellShaped(c) && |commands| > 0
      requires |payload| % 8 == 0 && IndexOk(payload, spans)
      modifies this`commands, this`payload, this`spans
      ensures |commands| == |old(commands)| && commands[..|commands| - 1] == old(commands)[..|commands| - 1]
      ensures |payload| % 8 == 0 && IndexOk(payload, spans) && old(payload) <= payload && old(spans) <= spans
      ensures forall s :: s in spans - old(spans) ==> s.source in inserted && s.word >= |old(payload)| / 8
      ensures ok ==> Faithful(payload, commands[|commands| - 1], LoggedCommand(c, Views(mem, c)), false)
      ensures NeverFails(alloc) ==> ok
    {
      var d, at := c.draw, |commands| - 1;
      ghost var views := Views(mem, c);
      var pointers: seq<Pointer>, offsets: seq<Offset> := [], [];
      inserted := {};
      var i := 0;
      while i < FIELDS
        invariant 0 <= i <= FIELDS
        invariant FieldsDone(payload, pointers, offsets, views, i)
        invariant |commands| == |old(commands)| && commands[..at] == old(commands)[..at]
        invariant |payload| % 8 == 0 && IndexOk(payload, spans) && old(payload) <= payload && old(spans) <= spans
        invariant forall s :: s in spans - old(spans) ==> s.source in inserted && s.word >= |old(payload)| / 8
      {
        ghost var was := payload;
        var stored, pointer, offset, sources := CaptureField(d, i, mem, alloc(2 + 2 * i), alloc(3 + 2 * i));
        inserted := inserted + sources;
        if !stored { return false, inserted; }
        FieldsStand(was, payload, pointers, offsets, views, i);
        pointers, offsets := pointers + [pointer], offsets + [offset];
        assert views[i] == ViewOf(mem, d, i);
        i := i + 1;
      }
      commands := commands[at := Captured(c, pointers, offsets)];
      ok := true;
    }

    static method Fits(c: Command) returns (ok: bool)
      requires WellShaped(c)
      ensures ok <==> Acceptable(c)
    {
      if KindOf(c) > GAMMA_KIND { return false; }
      if c.DrawCommand? {
        var i := 0;
        while i < FIELDS
          invariant 0 <= i <= FIELDS
          invariant forall k :: 0 <= k < i ==> c.draw.sizes[k] <= MAX_SPAN
        {
          if c.draw.sizes[i] > MAX_SPAN { return false; }
          i := i + 1;
        }
      }
      return true;
    }

    /** Append the command and the memory it names; any step may fail. */
    method Append(c: Command, mem: Memory, alloc: Allocator) returns (ok: bool, inserted: set<nat>)
      requires WellShaped(c) && |payload| % 8 == 0 && IndexOk(payload, spans)
      modifies this`commands, this`payload, this`spans
      ensures old(commands) <= commands && |payload| % 8 == 0 && IndexOk(payload, spans)
      ensures old(payload) <= payload && old(spans) <= spans
      ensures forall s :: s in spans - old(spans) ==> s.source in inserted && s.word >= |old(payload)| / 8
      ensures ok ==> |commands| == |old(commands)| + 1
      ensures ok ==> Faithful(payload, commands[|commands| - 1], LoggedCommand(c, Views(mem, c)), false)
      ensures NeverFails(alloc) ==> ok
    {
      if !alloc(0) { return false, {}; }    // the commands cannot grow
      commands := commands + [Captured(c, [], [])];
      ok, inserted := true, {};
      if c.DrawCommand? {
        ok, inserted := CaptureFields(c, mem, alloc);
      }
      assert commands[..|commands| - 1] == old(commands);
      if ok {
        if !alloc(1) { ok := false; }       // the entries cannot grow
      }
    }

    /** Enter an acceptable command, or leave everything as it was. */
    method Enter(c: Command, mem: Memory, alloc: Allocator) returns (error: Error)
      requires Valid() && WellShaped(c) && !sealed
      modifies this
      ensures Valid() && sealed == old(sealed)
      ensures error != InvalidArgument
      ensures error == Ok ==> log == old(log) + [LoggedCommand(c, Views(mem, c))] && old(entries) <= entries
      ensures error != Ok ==>
        && log == old(log) && entries == old(entries) && commands == old(commands)
        && payload == old(payload) && spans == old(spans)
      ensures NeverFails(alloc) ==> error != OutOfMemory
    {
      var oldWords, oldCommands := |payload| / 8, |commands|;
      var ok, inserted := Append(c, mem, alloc);
      if !ok {
        RolledBack(spans, old(spans), old(payload), inserted);
        RollBack(inserted, oldWords, oldCommands);
        return OutOfMemory;
      }
      ghost var l := LoggedCommand(c, Views(mem, c));
      LogStands(old(payload), payload, old(commands), commands, entries, log, sealed);
      entries := entries + [CommandEntry(oldCommands)];
      log := log + [l];
      assert EntryFaithful(payload, commands, CommandEntry(oldCommands), l, sealed);
      return Ok;
    }

    method Add(c: Command, mem: Memory, alloc: Allocator) returns (error: Error)
      requires Valid() && WellShaped(c)
      modifies this
      ensures Valid() && sealed == old(sealed)
      ensures error == InvalidArgument <==> old(sealed) || !Acceptable(c)
      ensures error == Ok ==> log == old(log) + [LoggedCommand(c, Views(mem, c))] && old(entries) <= entries
      ensures error == Ok && c.DrawCommand? ==> DrawSeen(mem, c.draw, log[|log| - 1].views)
      ensures error != Ok ==>
        && log == old(log) && entries == old(entries) && commands == old(commands)
        && payload == old(payload) && spans == old(spans)
      ensures NeverFails(alloc) ==> error != OutOfMemory
    {
      var fits := Fits(c);
      if sealed || !fits { return InvalidArgument; }
      error := Enter(c, mem, alloc);
      if c.DrawCommand? { ViewsSeen(mem, c); }
    }

    method AddRecord(e: Entry, ghost l: Logged, alloc: Allocator) returns (error: Error)
      requires Valid() && EntryFaithful(payload, commands, e, l, false)
      modifies this`entries, this`log
      ensures Valid()
      ensures error == InvalidArgument <==> sealed
      ensures error == Ok ==> log == old(log) + [l] && entries == old(entries) + [e]
      ensures error != Ok ==> log == old(log) && entries == old(entries)
      ensures error == OutOfMemory <==> !sealed && !alloc(0)
    {
      if sealed { return InvalidArgument; }
      if !alloc(0) { return OutOfMemory; }
      entries, log := entries + [e], log + [l];
      return Ok;
    }

    method AddRelease(base: nat, size: nat, alloc: Allocator) returns (error: Error)
      requires Valid()
      modifies this`entries, this`log
      ensures Valid()
      ensures error == InvalidArgument <==> sealed
      ensures error == Ok ==> log == old(log) + [LoggedRelease(base, size)]
      ensures error != Ok ==> log == old(log) && entries == old(entries)
      ensures error == OutOfMemory <==> !sealed && !alloc(0)
    {
      error := AddRecord(ReleaseEntry(base, size), LoggedRelease(base, size), alloc);
    }

    method AddReport(alloc: Allocator) returns (error: Error)
      requires Valid()
      modifies this`entries, this`log
      ensures Valid()
      ensures error == InvalidArgument <==> sealed
      ensures error == Ok ==> log == old(log) + [LoggedReport]
      ensures error != Ok ==> log == old(log) && entries == old(entries)
      ensures error == OutOfMemory <==> !sealed && !alloc(0)
    {
      error := AddRecord(ReportEntry, LoggedReport, alloc);
    }

    method Seal()
      requires Valid()
      modifies this`commands, this`sealed
      ensures Valid() && sealed
      ensures old(sealed) ==> commands == old(commands)
    {
      if sealed { return; }
      var k := 0;
      while k < |commands|
        invariant 0 <= k <= |commands| == |old(commands)|
        invariant forall j :: 0 <= j < k ==> commands[j] == Resolve(old(commands)[j])
        invariant forall j :: k <= j < |commands| ==> commands[j] == old(commands)[j]
      {
        commands := commands[k := Resolve(commands[k])];
        k := k + 1;
      }
      sealed := true;
      forall i | 0 <= i < |log| ensures EntryFaithful(payload, commands, entries[i], log[i], sealed) {
        assert EntryFaithful(payload, old(commands), entries[i], log[i], false);
        if entries[i].CommandEntry? {
          ResolveSeals(payload, old(commands)[entries[i].index], log[i]);
        }
      }
    }

    /** The command of one entry of a sealed packet, all pointers resolved. */
    method Command(index: nat) returns (c: Captured)
      requires Valid() && sealed && index < |entries| && entries[index].CommandEntry?
      ensures Faithful(payload, c, log[index], true)
    {
      assert EntryFaithful(payload, commands, entries[index], log[index], sealed);
      c := commands[entries[index].index];
    }
  }

  // -------------------------------------------------------------- whole packets

  datatype Call = AddCall(command: Command, mem: Memory, alloc: Allocator)
    | ReleaseCall(base: nat, size: nat, alloc: Allocator) | ReportCall(alloc: Allocator)

  function Entered(call: Call): Logged
    requires call.AddCall? ==> WellShaped(call.command)
  {
    match call
    case AddCall(c, mem, _) => LoggedCommand(c, Views(mem, c))
    case ReleaseCall(base, size, _) => LoggedRelease(base, size)
    case ReportCall(_) => LoggedReport
  }

  /** What a call is logged as: its own command, and for a draw what its pointers name. */
  lemma EnteredAs(call: Call)
    requires call.AddCall? ==> WellShaped(call.command)
    ensures call.AddCall? ==> Entered(call).LoggedCommand? && Entered(call).command == call.command
    ensures call.AddCall? && call.command.DrawCommand? ==> DrawSeen(call.mem, call.command.draw, Entered(call).views)
    ensures call.ReleaseCall? ==> Entered(call) == LoggedRelease(call.base, call.size)
    ensures call.ReportCall? ==> Entered(call) == LoggedReport
  {
    if call.AddCall? && call.command.DrawCommand? { ViewsSeen(call.mem, call.command); }
  }

  predicate Callable(calls: seq<Call>) {
    forall k :: 0 <= k < |calls| && calls[k].AddCall? ==> WellShaped(calls[k].command)
  }

  /** What the successful calls saw, in their order. */
  function Kept(calls: seq<Call>, results: seq<Error>): seq<Logged>
    requires Callable(calls) && |results| == |calls|
  {
    if calls == [] then []
    else
      var last := |calls| - 1;
      Kept(calls[..last], results[..last]) + if results[last] == Ok then [Entered(calls[last])] else []
  }

  lemma KeptNext(calls: seq<Call>, k: nat, results: seq<Error>, result: Error)
    requires Callable(calls) && |results| == k < |calls|
    ensures Kept(calls[..k + 1], results + [result])
      == Kept(calls[..k], results) + if result == Ok then [Entered(calls[k])] else []
  {
    assert calls[..k + 1][..k] == calls[..k] && (results + [result])[..k] == results;
  }

  method Perform(packet: Packet, call: Call) returns (result: Error)
    requires packet.Valid() && !packet.sealed && (call.AddCall? ==> WellShaped(call.command))
    modifies packet
    ensures packet.Valid() && !packet.sealed
    ensures packet.log == old(packet.log) + if result == Ok then [Entered(call)] else []
    ensures result == InvalidArgument <==> call.AddCall? && !Acceptable(call.command)
    ensures NeverFails(call.alloc) ==> result != OutOfMemory
  {
    match call {
      case AddCall(c, mem, alloc) => result := packet.Add(c, mem, alloc);
      case ReleaseCall(base, size, alloc) => result := packet.AddRelease(base, size, alloc);
      case ReportCall(alloc) => result := packet.AddReport(alloc);
    }
  }

  /** A call is refused exactly if it is not acceptable, and runs out of memory only if
      an allocation fails. */
  ghost predicate Answered(call: Call, result: Error) {
    && (result == InvalidArgument <==> call.AddCall? && !Acceptable(call.command))
    && (NeverFails(call.alloc) ==> result != OutOfMemory)
  }

  /** Any run of calls, the memory changing in between, some of them failing:
      the sealed packet holds the successful ones in order, each as it was seen. */
  method Collect(calls: seq<Call>) returns (packet: Packet, results: seq<Error>)
    requires Callable(calls)
    ensures packet.Valid() && packet.sealed && |results| == |calls|
    ensures packet.log == Kept(calls, results)
    ensures forall k :: 0 <= k < |calls| ==> Answered(calls[k], results[k])
  {
    packet := new Packet();
    results := [];
    for k := 0 to |calls|
      invariant fresh(packet) && packet.Valid() && !packet.sealed && |results| == k
      invariant packet.log == Kept(calls[..k], results)
      invariant forall j :: 0 <= j < k ==> Answered(calls[j], results[j])
    {
      var result := Perform(packet, calls[k]);
      assert Answered(calls[k], result);
      KeptNext(calls, k, results, result);
      results := results + [result];
    }
    assert calls[..|calls|] == calls;
    packet.Seal();
  }
}
