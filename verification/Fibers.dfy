/**
 Guest fibers (recomp-runtime/fiber_adapter.c, fiber_model.c): a table of guest
 contexts, a table of host fibers with the guest stacks they keep, and the
 processor state that a switch exchanges.  The ghost map says what every fiber
 that is not running left behind.
 */
module Fibers {
  import opened MachineWords

  const SLOTS := 32
  const MINIMUM_STACK := 0x3000
  const NO_HANDLERS: u32 := 0xffff_ffff

  function Plus(a: u32, b: u32): u32 { (a + b) % 0x1_0000_0000 }

  datatype Registers = Registers(eax: u32, esp: u32, others: seq<u32>)

  datatype Fpu = Fpu(control: u32, contents: seq<u32>)

  const ZERO_REGISTERS: Registers := Registers(0, 0, [])
  const FRESH_FPU: Fpu := Fpu(0x037f, [])

  /** What a fiber sees when it runs. */
  datatype Context = Context(registers: Registers, fpu: Fpu, exceptionList: u32)

  datatype Fiber = Fiber(active: bool, handle: u32, entry: u32, parameter: u32, context: Context)

  /** Where a host fiber continues: at its entry, or in a switch that is to
      return a result. */
  datatype Resume = AtEntry | InSwitch(result: u32)

  datatype Host = Host(active: bool, handle: u32, stackBase: u32, stackSize: u32, resume: Resume)

  const NO_CONTEXT: Context := Context(ZERO_REGISTERS, Fpu(0, []), 0)
  const NO_FIBER: Fiber := Fiber(false, 0, 0, 0, NO_CONTEXT)
  const NO_HOST: Host := Host(false, 0, 0, 0, AtEntry)

  datatype Result = Ok | Stop(reason: string)

  // ----------------------------------------------------------------- tables

  predicate Holds(f: Fiber, handle: u32) { f.active && f.handle == handle }

  /** There is a fiber of that handle. */
  predicate Known(f: seq<Fiber>, handle: u32) {
    exists i :: 0 <= i < |f| && Holds(f[i], handle)
  }

  /** One slot holds something else now. */
  predicate Put(before: seq<Fiber>, after: seq<Fiber>, i: nat, fiber: Fiber) {
    i < |before| && after == before[i := fiber]
  }

  /** Nobody's handle, entry or parameter has changed. */
  predicate SameFibers(before: seq<Fiber>, after: seq<Fiber>) {
    |after| == |before| && forall i :: 0 <= i < |before| ==> after[i] == before[i].(context := after[i].context)
  }

  predicate DistinctAt(f: seq<Fiber>, i: nat, j: nat)
    requires i < |f| && j < |f|
  {
    f[i].active && f[j].active ==> f[i].handle != f[j].handle
  }

  /** Both tables hold the same handles, each once. */
  ghost predicate InStep(f: seq<Fiber>, h: seq<Host>) {
    && |f| == |h| == SLOTS
    && (forall i :: 0 <= i < SLOTS ==> f[i].active == h[i].active)
    && (forall i :: 0 <= i < SLOTS && f[i].active ==> f[i].handle == h[i].handle && f[i].handle != 0)
    && (forall i, j :: 0 <= i < j < SLOTS ==> DistinctAt(f, i, j))
  }

  predicate Apart(base: nat, size: nat, other: nat, otherSize: nat) {
    base + size <= other || other + otherSize <= base
  }

  predicate Inside(address: nat, base: nat, size: nat) { base <= address < base + size }

  predicate Stack(h: Host) {
    && MINIMUM_STACK <= h.stackSize && h.stackSize % 0x1000 == 0
    && 0 < h.stackBase && h.stackBase + h.stackSize < 0x1_0000_0000
  }

  function HandleFor(base: nat, size: nat): int { base + size - 0x10 }

  predicate ApartAt(h: seq<Host>, i: nat, j: nat)
    requires i < |h| && j < |h|
  {
    h[i].stackSize > 0 && h[j].stackSize > 0 ==> Apart(h[i].stackBase, h[i].stackSize, h[j].stackBase, h[j].stackSize)
  }

  /** Every slot keeps at most one stack, all of them apart, clear of the main
      fiber; a handle lies on the stack of its slot. */
  ghost predicate StacksApart(h: seq<Host>, main: u32) {
    && (forall i :: 0 <= i < |h| && h[i].stackSize > 0 ==> Stack(h[i]) && !Inside(main, h[i].stackBase, h[i].stackSize))
    && (forall i :: 0 <= i < |h| && h[i].stackSize == 0 ==> h[i].stackBase == 0)
    && (forall i, j :: 0 <= i < j < |h| ==> ApartAt(h, i, j))
    && (forall i :: 0 <= i < |h| && h[i].active ==>
          h[i].handle == if h[i].stackSize > 0 then HandleFor(h[i].stackBase, h[i].stackSize) else main)
  }

  /** Every block the guest heap has given out so far is below or equal to these. */
  ghost predicate Covers(blocks: seq<(nat, nat)>, h: seq<Host>) {
    forall i :: 0 <= i < |h| && h[i].stackSize > 0 ==> (h[i].stackBase, h[i].stackSize) in blocks
  }

  /** A heap block apart from all earlier ones, and from the main fiber's data. */
  ghost predicate FreshBlock(blocks: seq<(nat, nat)>, main: u32, base: nat, size: nat) {
    (forall b :: b in blocks ==> Apart(base, size, b.0, b.1)) && !Inside(main, base, size)
  }

  /** What the fibers that are not running left is what the tables hold. */
  ghost predicate Kept(f: seq<Fiber>, h: seq<Host>, current: nat, saved: map<u32, Context>)
    requires |f| == |h|
  {
    forall i :: 0 <= i < |f| && f[i].active && i != current ==>
      && f[i].handle in saved && saved[f[i].handle] == f[i].context
      && (h[i].resume.InSwitch? ==> h[i].resume.result == f[i].context.registers.eax)
  }

  /** The size a requested stack is given: at least the minimum, in whole pages.
      A request near the top of the address range wraps to nothing. */
  function StackFor(request: u32): u32 {
    (if request < MINIMUM_STACK then MINIMUM_STACK else request + 0xfff) % 0x1_0000_0000 / 0x1000 * 0x1000
  }

  /** The largest request that does not wrap. */
  const LARGEST_REQUEST := 0xffff_f000

  /** What a slot keeps serves the request as rounded, or a new block does. */
  predicate Serves(h: Host, request: u32, block: u32) {
    if h.stackSize >= StackFor(request) then h.stackSize > 0
    else block != 0 && block + StackFor(request) < 0x1_0000_0000
  }

  predicate FirstFree(h: seq<Host>, i: nat) {
    i < |h| && !h[i].active && forall j :: 0 <= j < i ==> h[j].active
  }

  lemma OneFirst(h: seq<Host>, i: nat, j: nat)
    requires FirstFree(h, i) && FirstFree(h, j)
    ensures i == j
  {
  }

  /** A stack of this size is enough exactly for a request that does not wrap. */
  predicate Suffices(size: u32, request: u32) { size >= request <==> request <= LARGEST_REQUEST }

  /** The slot's own stack, or the new block. */
  predicate OneOf(base: u32, size: u32, h: Host, request: u32, block: u32) {
    if h.stackSize >= StackFor(request) then base == h.stackBase && size == h.stackSize
    else base == block && size == StackFor(request)
  }

  /** A new host fiber in the first free slot, on its own stack or a new block. */
  predicate Entered(before: seq<Host>, after: seq<Host>, i: nat, handle: u32, request: u32, block: u32) {
    && FirstFree(before, i) && |after| == |before|
    && after == before[i := Host(true, handle, after[i].stackBase, after[i].stackSize, AtEntry)]
    && handle == HandleFor(after[i].stackBase, after[i].stackSize)
    && OneOf(after[i].stackBase, after[i].stackSize, before[i], request, block)
    && Suffices(after[i].stackSize, request)
  }

  /** The host fiber of a handle is gone; its slot keeps the stack. */
  predicate GivenUp(before: seq<Host>, after: seq<Host>, i: nat, handle: u32) {
    && i < |before| && before[i].active && before[i].handle == handle
    && after == before[i := NO_HOST.(stackBase := before[i].stackBase, stackSize := before[i].stackSize)]
  }

  /** Before there are fibers. */
  ghost predicate Unused(f: seq<Fiber>, h: seq<Host>, blocks: seq<(nat, nat)>, current: nat) {
    && |f| == |h| == SLOTS && current == SLOTS && blocks == []
    && forall i :: 0 <= i < SLOTS ==> f[i] == NO_FIBER && h[i] == NO_HOST
  }

  /** The running fiber is in both tables, and what the others left is kept. */
  ghost predicate Running(f: seq<Fiber>, h: seq<Host>, main: u32, blocks: seq<(nat, nat)>, current: nat, handle: u32,
                          saved: map<u32, Context>) {
    && InStep(f, h) && StacksApart(h, main) && Covers(blocks, h)
    && current < SLOTS && Holds(f[current], handle)
    && Kept(f, h, current, saved)
  }

  /** A new fiber starts as a fresh thread does, with its stack below its data. */
  function Initial(handle: u32): Context
    requires handle >= 8
  {
    Context(ZERO_REGISTERS.(esp := handle - 8), FRESH_FPU, NO_HANDLERS)
  }

  function NewFiber(handle: u32, entry: u32, parameter: u32): Fiber
    requires handle >= 8
  {
    Fiber(true, handle, entry, parameter, Initial(handle))
  }

  // ------------------------------------------------------ what operations do

  /** Slots that are not touched stay distinct and apart; the touched one is if
      its new contents are. */
  lemma Untouched(f: seq<Fiber>, h: seq<Host>, f': seq<Fiber>, h': seq<Host>, i: nat)
    requires |f| == |h| == |f'| == |h'| == SLOTS && i < SLOTS
    requires forall j, k :: 0 <= j < k < SLOTS ==> DistinctAt(f, j, k)
    requires forall j, k :: 0 <= j < k < SLOTS ==> ApartAt(h, j, k)
    requires forall j :: 0 <= j < SLOTS && j != i ==> f'[j] == f[j] && h'[j] == h[j]
    requires forall j :: 0 <= j < SLOTS && j != i && f[j].active ==>
      f'[i].active ==> f[j].handle != f'[i].handle || (f[i].active && f'[i].handle == f[i].handle)
    requires (h'[i].stackBase == h[i].stackBase && h'[i].stackSize == h[i].stackSize) ||
      forall j :: 0 <= j < SLOTS && j != i && h[j].stackSize > 0 ==>
        Apart(h'[i].stackBase, h'[i].stackSize, h[j].stackBase, h[j].stackSize)
    ensures forall j, k :: 0 <= j < k < SLOTS ==> DistinctAt(f', j, k)
    ensures forall j, k :: 0 <= j < k < SLOTS ==> ApartAt(h', j, k)
  {
    forall j, k | 0 <= j < k < SLOTS ensures DistinctAt(f', j, k) && ApartAt(h', j, k) {
      assert DistinctAt(f, j, k) && ApartAt(h, j, k);
    }
  }

  /** Which handles there are when one slot changes. */
  lemma KnownAfter(f: seq<Fiber>, i: nat, fiber: Fiber)
    requires |f| == SLOTS && i < SLOTS
    requires forall j, k :: 0 <= j < k < SLOTS ==> DistinctAt(f, j, k)
    ensures forall h :: Known(f[i := fiber], h) <==> (Known(f, h) && !Holds(f[i], h)) || Holds(fiber, h)
  {
    var f' := f[i := fiber];
    forall h ensures Known(f', h) <==> (Known(f, h) && !Holds(f[i], h)) || Holds(fiber, h) {
      if Known(f', h) {
        var j :| 0 <= j < SLOTS && Holds(f'[j], h);
        if j != i {
          assert Holds(f[j], h);
          assert if i < j then DistinctAt(f, i, j) else DistinctAt(f, j, i);
        }
      }
      if Known(f, h) && !Holds(f[i], h) {
        var j :| 0 <= j < SLOTS && Holds(f[j], h);
        assert Holds(f'[j], h);
      }
      if Holds(fiber, h) { assert Holds(f'[i], h); }
    }
  }

  lemma SameKnown(f: seq<Fiber>, i: nat, left: Context)
    requires |f| == SLOTS && i < SLOTS && f[i].active
    requires forall j, k :: 0 <= j < k < SLOTS ==> DistinctAt(f, j, k)
    ensures forall h :: Known(f[i := f[i].(context := left)], h) <==> Known(f, h)
  {
    KnownAfter(f, i, f[i].(context := left));
    assert Known(f, f[i].handle);
  }

  lemma Converted(f: seq<Fiber>, h: seq<Host>, fiber: Fiber, host: Host, saved: map<u32, Context>)
    requires Unused(f, h, [], SLOTS)
    requires fiber.active && fiber.handle != 0 && host == NO_HOST.(active := true, handle := fiber.handle)
    ensures Running(f[0 := fiber], h[0 := host], fiber.handle, [], 0, fiber.handle, saved)
  {
    assert forall i :: 0 < i < SLOTS ==> !f[i].active && h[i].stackSize == 0;
  }

  /** A new fiber in a free slot of both tables, on a stack of its own. */
  lemma Added(f: seq<Fiber>, h: seq<Host>, main: u32, blocks: seq<(nat, nat)>, current: nat, handle: u32,
              saved: map<u32, Context>, i: nat, fiber: Fiber, host: Host)
    requires Running(f, h, main, blocks, current, handle, saved) && i < SLOTS && !f[i].active
    requires fiber.active && host.active && fiber.handle == host.handle && Stack(host) && host.resume == AtEntry
    requires host.handle == HandleFor(host.stackBase, host.stackSize)
    requires !Inside(main, host.stackBase, host.stackSize)
    requires forall j :: 0 <= j < SLOTS && j != i && h[j].stackSize > 0 ==>
      Apart(host.stackBase, host.stackSize, h[j].stackBase, h[j].stackSize)
    ensures forall j :: 0 <= j < SLOTS && f[j].active ==> f[j].handle != fiber.handle
    ensures Running(f[i := fiber], h[i := host], main, blocks + [(host.stackBase as nat, host.stackSize as nat)], current, handle,
                    saved[fiber.handle := fiber.context])
  {
    forall j | 0 <= j < SLOTS && f[j].active ensures f[j].handle != fiber.handle {
      if h[j].stackSize > 0 {
        assert Apart(host.stackBase, host.stackSize, h[j].stackBase, h[j].stackSize);
      } else {
        assert h[j].handle == main;
      }
    }
    Untouched(f, h, f[i := fiber], h[i := host], i);
  }

  /** Some other fiber's slot given up; its stack stays with it. */
  lemma Freed(f: seq<Fiber>, h: seq<Host>, main: u32, blocks: seq<(nat, nat)>, current: nat, handle: u32,
              saved: map<u32, Context>, i: nat, host: Host)
    requires Running(f, h, main, blocks, current, handle, saved) && i < SLOTS && f[i].active && i != current
    requires !host.active && host.stackBase == h[i].stackBase && host.stackSize == h[i].stackSize
    ensures Running(f[i := NO_FIBER], h[i := host], main, blocks, current, handle, saved - {f[i].handle})
  {
    Untouched(f, h, f[i := NO_FIBER], h[i := host], i);
    forall j | 0 <= j < SLOTS && f[j].active && j != i ensures f[j].handle != f[i].handle {
      assert if i < j then DistinctAt(f, i, j) else DistinctAt(f, j, i);
    }
  }

  /** From one fiber to another: the first leaves its context, the other's is no
      longer kept. */
  lemma Switched(f: seq<Fiber>, h: seq<Host>, main: u32, blocks: seq<(nat, nat)>, current: nat, handle: u32,
                 saved: map<u32, Context>, to: nat, left: Context)
    requires Running(f, h, main, blocks, current, handle, saved) && to < SLOTS && f[to].active && to != current
    ensures Running(f[current := f[current].(context := left)],
                    h[current := h[current].(resume := InSwitch(left.registers.eax))],
                    main, blocks, to, f[to].handle, saved[handle := left])
  {
    Untouched(f, h, f[current := f[current].(context := left)],
              h[current := h[current].(resume := InSwitch(left.registers.eax))], current);
    forall j | 0 <= j < SLOTS && f[j].active && j != current ensures f[j].handle != handle {
      assert if current < j then DistinctAt(f, current, j) else DistinctAt(f, j, current);
    }
  }

  lemma LeftBehind(f: seq<Fiber>, h: seq<Host>, current: nat, saved: map<u32, Context>, i: nat)
    requires |f| == |h| && Kept(f, h, current, saved) && i < |f| && f[i].active && i != current
    ensures f[i].handle in saved && saved[f[i].handle] == f[i].context
    ensures h[i].resume.InSwitch? ==> h[i].resume.result == f[i].context.registers.eax
  {
  }

  class Process {
    var fibers: seq<Fiber>
    var hosts: seq<Host>
    var currentHandle: u32
    var currentHost: nat
    var converted: bool
    var registers: Registers
    var fpu: Fpu
    var exceptionList: u32
    ghost var saved: map<u32, Context>
    ghost var blocks: seq<(nat, nat)>
    ghost var main: u32

    ghost predicate Valid()
      reads this
    {
      && (if converted then Running(fibers, hosts, main, blocks, currentHost, currentHandle, saved)
          else Unused(fibers, hosts, blocks, currentHost))
    }

    /** What the processor holds now. */
    function Now(): Context
      reads this
    {
      Context(registers, fpu, exceptionList)
    }

    constructor (registers: Registers, fpu: Fpu, exceptionList: u32)
      ensures Valid() && !converted
      ensures Now() == Context(registers, fpu, exceptionList)
    {
      fibers := seq(SLOTS, _ => NO_FIBER);
      hosts := seq(SLOTS, _ => NO_HOST);
      currentHandle, currentHost, converted := 0, SLOTS, false;
      this.registers, this.fpu, this.exceptionList := registers, fpu, exceptionList;
      saved, blocks, main := map[], [], 0;
    }

    method Find(handle: u32) returns (slot: nat)
      requires |fibers| == SLOTS
      ensures slot <= SLOTS && (slot < SLOTS ==> handle != 0 && Holds(fibers[slot], handle))
      ensures slot == SLOTS ==> handle == 0 || forall i :: 0 <= i < SLOTS ==> !Holds(fibers[i], handle)
    {
      if handle == 0 { return SLOTS; }
      slot := 0;
      while slot < SLOTS
        invariant slot <= SLOTS && forall i :: 0 <= i < slot ==> !Holds(fibers[i], handle)
      {
        if Holds(fibers[slot], handle) { return; }
        slot := slot + 1;
      }
    }

    method FindHost(handle: u32) returns (slot: nat)
      requires |hosts| == SLOTS
      ensures slot <= SLOTS && (slot < SLOTS ==> hosts[slot].active && hosts[slot].handle == handle)
      ensures slot == SLOTS ==> forall i :: 0 <= i < SLOTS ==> !(hosts[i].active && hosts[i].handle == handle)
    {
      slot := 0;
      while slot < SLOTS
        invariant slot <= SLOTS && forall i :: 0 <= i < slot ==> !(hosts[i].active && hosts[i].handle == handle)
      {
        if hosts[slot].active && hosts[slot].handle == handle { return; }
        slot := slot + 1;
      }
    }

    /** The first free slot of the guest table. */
    method FreeFiber() returns (slot: nat)
      requires |fibers| == SLOTS
      ensures slot <= SLOTS && (slot < SLOTS ==> !fibers[slot].active) && forall i :: 0 <= i < slot ==> fibers[i].active
    {
      slot := 0;
      while slot < SLOTS && fibers[slot].active
        invariant slot <= SLOTS && forall i :: 0 <= i < slot ==> fibers[i].active
      {
        slot := slot + 1;
      }
    }

    /** The first free slot of the host table. */
    method FreeHost() returns (slot: nat)
      requires |hosts| == SLOTS
      ensures slot <= SLOTS && (slot < SLOTS ==> !hosts[slot].active) && forall i :: 0 <= i < slot ==> hosts[i].active
    {
      slot := 0;
      while slot < SLOTS && hosts[slot].active
        invariant slot <= SLOTS && forall i :: 0 <= i < slot ==> hosts[i].active
      {
        slot := slot + 1;
      }
    }

    method AddFiber(handle: u32, entry: u32, parameter: u32, initial: Registers, handlers: u32) returns (slot: nat)
      requires |fibers| == SLOTS
      modifies this`fibers
      ensures slot <= SLOTS
      ensures slot == SLOTS <==>
        handle == 0 || (exists i :: 0 <= i < SLOTS && old(Holds(fibers[i], handle))) || (forall i :: 0 <= i < SLOTS ==> old(fibers[i]).active)
      ensures slot == SLOTS ==> fibers == old(fibers)
      ensures slot < SLOTS ==> !old(fibers)[slot].active
      ensures forall i :: 0 <= i < slot && slot < SLOTS ==> old(fibers)[i].active
      ensures slot < SLOTS ==>
        fibers == old(fibers)[slot := Fiber(true, handle, entry, parameter, Context(initial, FRESH_FPU, handlers))]
    {
      if handle == 0 { return SLOTS; }
      var found := Find(handle);
      if found < SLOTS { return SLOTS; }
      slot := FreeFiber();
      if slot == SLOTS { return; }
      fibers := fibers[slot := Fiber(true, handle, entry, parameter, Context(initial, FRESH_FPU, handlers))];
    }

    /** Return to the guest with a result, past the arguments. */
    method Finish(arguments: nat, result: u32)
      requires arguments <= 3
      modifies this`registers
      ensures registers == old(registers).(eax := result, esp := Plus(old(registers).esp, 4 + 4 * arguments))
    {
      registers := registers.(eax := result, esp := Plus(registers.esp, 4 + 4 * arguments));
    }

    /** Make the running thread the first fiber. */
    method Convert(data: u32, handle: u32, native: bool) returns (result: Result)
      requires Valid()
      modifies this
      ensures result.Ok? <==> !old(converted) && native && handle != 0
      ensures result.Ok? ==>
        && Valid() && converted && currentHandle == handle && main == handle
        && registers == old(registers).(eax := handle, esp := Plus(old(registers).esp, 8))
        && fpu == old(fpu) && exceptionList == old(exceptionList)
        && Put(old(fibers), fibers, 0, Fiber(true, handle, 0, data, Context(old(registers), FRESH_FPU, old(exceptionList))))
        && hosts == old(hosts)[0 := NO_HOST.(active := true, handle := handle)] && blocks == old(blocks)
    {
      if converted || currentHost != SLOTS { return Stop("duplicate-convert"); }
      assert !fibers[0].active && !hosts[0].active;
      if !native { return Stop("convert-failed"); }
      ghost var f, h := fibers, hosts;
      var slot := AddFiber(handle, 0, data, registers, exceptionList);
      var found := FindHost(handle);
      var host := FreeHost();
      if slot == SLOTS || found < SLOTS || host == SLOTS { return Stop("convert-state"); }
      hosts := hosts[host := NO_HOST.(active := true, handle := handle)];
      Converted(f, h, fibers[slot], hosts[host], saved);
      currentHandle, converted, currentHost, main := handle, true, host, handle;
      Finish(1, handle);
      return Ok;
    }

    /** Clear of whatever stacks the other slots keep. */
    lemma SlotBlock(i: nat, base: nat, size: nat)
      requires Valid() && converted && i < SLOTS
      requires FreshBlock(blocks, main, base, size) || (size > 0 && base == hosts[i].stackBase && size == hosts[i].stackSize)
      ensures forall j :: 0 <= j < SLOTS && j != i && hosts[j].stackSize > 0 ==>
        Apart(base, size, hosts[j].stackBase, hosts[j].stackSize)
    {
      if FreshBlock(blocks, main, base, size) {
        forall j | 0 <= j < SLOTS && j != i && hosts[j].stackSize > 0
          ensures Apart(base, size, hosts[j].stackBase, hosts[j].stackSize)
        {
          assert (hosts[j].stackBase as nat, hosts[j].stackSize as nat) in blocks;
        }
      } else {
        forall j | 0 <= j < SLOTS && j != i && hosts[j].stackSize > 0
          ensures Apart(base, size, hosts[j].stackBase, hosts[j].stackSize)
        {
          assert if i < j then ApartAt(hosts, i, j) else ApartAt(hosts, j, i);
        }
      }
    }

    /** The stack for a new fiber in a slot: the one the slot keeps, if it is
        large enough, or a new block.  None if there is none. */
    method ChooseStack(request: u32, block: u32, slot: nat) returns (base: u32, size: u32)
      requires Valid() && converted && slot < SLOTS
      requires block != 0 ==> FreshBlock(blocks, main, block, StackFor(request))
      ensures base != 0 ==>
        && Stack(Host(true, 0, base, size, AtEntry)) && !Inside(main, base, size)
        && (forall j :: 0 <= j < SLOTS && j != slot && hosts[j].stackSize > 0 ==>
              Apart(base, size, hosts[j].stackBase, hosts[j].stackSize))
      ensures base != 0 <==> Serves(hosts[slot], request, block)
      ensures base != 0 ==> OneOf(base, size, hosts[slot], request, block) && Suffices(size, request)
      ensures base != 0 ==> (base as nat, size as nat) in blocks || (base == block && size == StackFor(request))
    {
      size := StackFor(request);
      base := block;
      if hosts[slot].stackSize >= size {
        base, size := hosts[slot].stackBase, hosts[slot].stackSize;
      }
      if base == 0 || base > 0xffff_ffff - size { return 0, 0; }
      SlotBlock(slot, base, size);
    }

    /** Enter a new fiber, on its stack, in a free slot. */
    method Enter(slot: nat, base: u32, size: u32, entry: u32, parameter: u32, native: bool) returns (result: Result, handle: u32)
      requires Valid() && converted && slot < SLOTS && !hosts[slot].active && (forall i :: 0 <= i < slot ==> hosts[i].active)
      requires Stack(Host(true, 0, base, size, AtEntry)) && !Inside(main, base, size)
      requires forall j :: 0 <= j < SLOTS && j != slot && hosts[j].stackSize > 0 ==>
        Apart(base, size, hosts[j].stackBase, hosts[j].stackSize)
      modifies this`fibers, this`hosts, this`saved, this`blocks
      ensures result.Ok? <==> native
      ensures handle == HandleFor(base, size) && handle >= 8
      ensures !Known(old(fibers), handle)
      ensures result.Ok? ==> Valid()
      ensures result.Ok? ==> forall h :: Known(fibers, h) <==> Known(old(fibers), h) || h == handle
      ensures result.Ok? ==> blocks == old(blocks) + [(base as nat, size as nat)]
      ensures result.Ok? ==> Put(old(fibers), fibers, slot,
        NewFiber(handle, entry, parameter))
      ensures result.Ok? ==>
        saved == old(saved)[handle := Initial(handle)]
      ensures result.Ok? ==> hosts == old(hosts)[slot := Host(true, handle, base, size, AtEntry)]
    {
      handle := base + size - 0x10;
      var initial := ZERO_REGISTERS.(esp := handle - 8);
      var host := Host(true, handle, base, size, AtEntry);
      ghost var fiber := Fiber(true, handle, entry, parameter, Context(initial, FRESH_FPU, NO_HANDLERS));
      Added(fibers, hosts, main, blocks, currentHost, currentHandle, saved, slot, fiber, host);
      var added := AddFiber(handle, entry, parameter, initial, NO_HANDLERS);
      if added == SLOTS { return Stop("create-state"), handle; }
      if !native { return Stop("create-host"), handle; }
      hosts := hosts[slot := host];
      saved := saved[handle := fiber.context];
      blocks := blocks + [(base as nat, size as nat)];
      KnownAfter(old(fibers), slot, fiber);
      return Ok, handle;
    }

    /** Choose a stack for a free slot, and enter the fiber there. */
    method CreateIn(slot: nat, request: u32, entry: u32, parameter: u32, block: u32, native: bool)
      returns (result: Result, handle: u32)
      requires Valid() && converted && FirstFree(hosts, slot)
      requires block != 0 ==> FreshBlock(blocks, main, block, StackFor(request))
      modifies this`fibers, this`hosts, this`saved, this`blocks
      ensures result.Ok? <==> native && Serves(old(hosts)[slot], request, block)
      ensures result.Ok? ==>
        && Valid() && handle >= 8 && !Known(old(fibers), handle)
        && Entered(old(hosts), hosts, slot, handle, request, block)
        && Put(old(fibers), fibers, slot, NewFiber(handle, entry, parameter))
        && (forall h :: Known(fibers, h) <==> Known(old(fibers), h) || h == handle)
        && (forall b :: b in blocks ==> b in old(blocks) || b == (block as nat, StackFor(request) as nat))
        && saved == old(saved)[handle := Initial(handle)]
    {
      var base, size := ChooseStack(request, block, slot);
      if base == 0 { return Stop("guest-stack"), 0; }
      result, handle := Enter(slot, base, size, entry, parameter, native);
    }

    /** Make a fiber.  `block` is what the guest heap would give for its stack. */
    method Create(request: u32, entry: u32, parameter: u32, block: u32, native: bool) returns (result: Result)
      requires Valid()
      requires block != 0 ==> FreshBlock(blocks, main, block, StackFor(request))
      modifies this
      ensures result.Ok? ==>
        && Valid() && converted && currentHandle == old(currentHandle) && currentHost == old(currentHost)
        && registers == old(registers).(eax := registers.eax, esp := Plus(old(registers).esp, 16))
        && fpu == old(fpu) && exceptionList == old(exceptionList)
        && !Known(old(fibers), registers.eax)
        && registers.eax >= 8 && main == old(main)
        && (exists i: nat :: Entered(old(hosts), hosts, i, registers.eax, request, block)
              && Put(old(fibers), fibers, i, NewFiber(registers.eax, entry, parameter)))
        && (forall h :: Known(fibers, h) <==> Known(old(fibers), h) || h == registers.eax)
        && (forall b :: b in blocks ==> b in old(blocks) || b == (block as nat, StackFor(request) as nat))
        && saved == old(saved)[registers.eax := Initial(registers.eax)]
      ensures result.Ok? <==>
        old(converted) && entry != 0 && native && (exists i: nat :: FirstFree(old(hosts), i) && Serves(old(hosts)[i], request, block))
    {
      if !converted || entry == 0 { return Stop("create-context"); }
      var slot := FreeHost();
      if slot == SLOTS { return Stop("create-host-capacity"); }
      assert FirstFree(hosts, slot);
      forall i | FirstFree(hosts, i) ensures i == slot { OneFirst(hosts, i, slot); }
      var handle;
      result, handle := CreateIn(slot, request, entry, parameter, block, native);
      if result.Ok? { Finish(3, handle); }
    }

    /** A handle's place in both tables; they agree. */
    method Locate(handle: u32) returns (slot: nat, host: nat)
      requires Valid()
      ensures slot <= SLOTS && host <= SLOTS
      ensures slot == SLOTS || host == SLOTS <==>
        !converted || handle == 0 || !Known(fibers, handle)
      ensures slot < SLOTS && host < SLOTS ==> slot == host && Holds(fibers[slot], handle)
      ensures slot < SLOTS && host < SLOTS ==> (slot == currentHost <==> handle == currentHandle)
    {
      slot := Find(handle);
      host := FindHost(handle);
      if converted && slot < SLOTS {
        ghost var h := hosts;
        assert h[slot].active && h[slot].handle == handle;
        if host < SLOTS {
          assert Holds(fibers[host], handle);
          assert if slot < host then DistinctAt(fibers, slot, host) else host == slot || DistinctAt(fibers, host, slot);
        }
        assert if slot < currentHost then DistinctAt(fibers, slot, currentHost)
               else slot == currentHost || DistinctAt(fibers, currentHost, slot);
        assert Holds(fibers[currentHost], currentHandle);
      }
    }

    /** Leave a context behind for the running fiber, and take up another's. */
    method Exchange(to: nat, left: Context)
      requires Valid() && converted && to < SLOTS && fibers[to].active && to != currentHost
      modifies this
      ensures Valid() && converted && main == old(main) && blocks == old(blocks)
      ensures currentHost == to && currentHandle == old(fibers)[to].handle
      ensures Now() == fibers[to].context && currentHandle in old(saved) && old(saved)[currentHandle] == fibers[to].context
      ensures saved == old(saved)[old(currentHandle) := left]
      ensures hosts[to].resume.InSwitch? ==> hosts[to].resume.result == registers.eax
      ensures fibers == old(fibers)[old(currentHost) := old(fibers)[old(currentHost)].(context := left)]
    {
      Switched(fibers, hosts, main, blocks, currentHost, currentHandle, saved, to, left);
      LeftBehind(fibers, hosts, currentHost, saved, to);
      saved := saved[currentHandle := left];
      fibers := fibers[currentHost := fibers[currentHost].(context := left)];
      hosts := hosts[currentHost := hosts[currentHost].(resume := InSwitch(left.registers.eax))];
      var there := fibers[to].context;
      currentHandle := fibers[to].handle;
      registers, fpu, exceptionList := there.registers, there.fpu, there.exceptionList;
      currentHost := to;
    }

    /** How a host fiber goes on: into its entry, or out of the switch it is in. */
    method Continue(host: nat) returns (result: Result)
      requires Valid() && converted && host == currentHost
      requires hosts[host].resume.InSwitch? ==> hosts[host].resume.result == registers.eax
      requires fibers[currentHost].context == Now()
      modifies this`registers, this`exceptionList
      ensures result == Ok && Now() == old(Now())
    {
      match hosts[host].resume {
        case AtEntry =>
          var slot := Find(hosts[host].handle);
          if slot == SLOTS || currentHost != host || currentHandle != hosts[host].handle { return Stop("entry-context"); }
          assert if slot < host then DistinctAt(fibers, slot, host) else slot == host || DistinctAt(fibers, host, slot);
          registers, exceptionList := fibers[slot].context.registers, fibers[slot].context.exceptionList;
        case InSwitch(value) =>
          if currentHost != host || currentHandle != hosts[host].handle { return Stop("resume-context"); }
          registers := registers.(eax := value);
      }
      return Ok;
    }

    /** Leave the running fiber for another one. */
    method Leave(to: nat, toHost: nat) returns (result: Result)
      requires Valid() && converted && to == toHost < SLOTS && fibers[to].active && to != currentHost
      modifies this
      ensures result == Ok && Valid() && converted && main == old(main) && blocks == old(blocks)
      ensures currentHandle == old(fibers)[to].handle && SameFibers(old(fibers), fibers)
      ensures forall h :: Known(fibers, h) <==> Known(old(fibers), h)
      ensures currentHandle in old(saved) && Now() == old(saved)[currentHandle]
      ensures saved == old(saved)[old(currentHandle) :=
        old(Now()).(registers := old(registers).(esp := Plus(old(registers).esp, 8)))]
    {
      var left := Context(registers.(esp := Plus(registers.esp, 8)), fpu, exceptionList);
      SameKnown(fibers, currentHost, left);
      Exchange(to, left);
      result := Continue(toHost);
    }

    /** Run another fiber.  The caller goes on when something switches back to it;
        what runs after this call is the target. */
    method Switch(target: u32) returns (result: Result)
      requires Valid()
      modifies this
      ensures result.Ok? <==> old(converted) && target != 0 && Known(old(fibers), target)
      ensures result.Ok? ==>
        && Valid() && converted && currentHandle == target && main == old(main) && blocks == old(blocks)
        && SameFibers(old(fibers), fibers)
        && (forall h :: Known(fibers, h) <==> Known(old(fibers), h))
      // to itself: only the return from the call
      ensures result.Ok? && target == old(currentHandle) ==>
        && Now() == old(Now()).(registers := old(registers).(esp := Plus(old(registers).esp, 8)))
        && saved == old(saved)
      // to another: it sees what it left, and the caller leaves the same
      ensures result.Ok? && target != old(currentHandle) ==>
        && target in old(saved) && Now() == old(saved)[target]
        && saved == old(saved)[old(currentHandle) :=
             old(Now()).(registers := old(registers).(esp := Plus(old(registers).esp, 8)))]
    {
      var value := registers.eax;
      var out, outHost := Locate(currentHandle);
      var to, toHost := Locate(target);
      if out == SLOTS || outHost == SLOTS || to == SLOTS || toHost == SLOTS {
        return Stop("unknown-switch");
      }
      if target == fibers[out].handle {
        Finish(1, value);
        return Ok;
      }
      result := Leave(to, toHost);
    }

    /** Free a slot in both tables. */
    method GiveUp(slot: nat)
      requires Valid() && converted && slot < SLOTS && fibers[slot].active && slot != currentHost
      modifies this`fibers, this`hosts, this`saved
      ensures Valid() && saved == old(saved) - {old(fibers)[slot].handle} && fibers == old(fibers)[slot := NO_FIBER]
      ensures var host := old(hosts)[slot];
        hosts == old(hosts)[slot := NO_HOST.(stackBase := host.stackBase, stackSize := host.stackSize)]
      ensures forall h :: Known(fibers, h) <==> Known(old(fibers), h) && !Holds(old(fibers)[slot], h)
    {
      var empty := NO_HOST.(stackBase := hosts[slot].stackBase, stackSize := hosts[slot].stackSize);
      KnownAfter(fibers, slot, NO_FIBER);
      Freed(fibers, hosts, main, blocks, currentHost, currentHandle, saved, slot, empty);
      saved := saved - {fibers[slot].handle};
      hosts := hosts[slot := empty];
      fibers := fibers[slot := NO_FIBER];
    }

    /** Give a fiber up; its slot keeps the stack. */
    method Delete(handle: u32) returns (result: Result)
      requires Valid()
      modifies this
      ensures result.Ok? <==>
        old(converted) && handle != 0 && handle != old(currentHandle) && Known(old(fibers), handle)
      ensures result.Ok? ==>
        && Valid() && converted && currentHandle == old(currentHandle) && saved == old(saved) - {handle}
        && registers == old(registers).(eax := 0, esp := Plus(old(registers).esp, 8))
        && fpu == old(fpu) && exceptionList == old(exceptionList)
        && main == old(main) && blocks == old(blocks)
        && (exists i: nat :: Put(old(fibers), fibers, i, NO_FIBER) && GivenUp(old(hosts), hosts, i, handle))
        && (forall h :: Known(fibers, h) <==> Known(old(fibers), h) && h != handle)
    {
      var slot, host := Locate(handle);
      if slot == SLOTS || host == SLOTS || host == currentHost { return Stop("invalid-delete"); }
      if currentHandle == handle { return Stop("delete-state"); }
      GiveUp(slot);
      assert Put(old(fibers), fibers, slot, NO_FIBER) && GivenUp(old(hosts), hosts, slot, handle);
      Finish(1, 0);
      return Ok;
    }
  }

  // ------------------------------------------------------------- whole runs

  /** What running fibers do: compute, or call one of the operations. */
  datatype Step = Compute(now: Context) | SwitchTo(handle: u32) | DeleteFiber(handle: u32)
    | CreateFiber(request: u32, entry: u32, parameter: u32, native: bool)

  /** The guest heap only ever gives out what lies beyond what it gave before. */
  ghost predicate Beyond(p: Process, heap: nat)
    reads p
  {
    p.main < heap && forall b :: b in p.blocks ==> b.0 + b.1 <= heap
  }

  /** What the guest heap gives next, if it lies in the address range. */
  function BlockAt(heap: nat): u32 { if 0 < heap < 0x1_0000_0000 then heap else 0 }

  /** A step that does not stop the program. */
  predicate Possible(p: Process, step: Step, heap: nat)
    reads p
  {
    match step
    case Compute(_) => true
    case SwitchTo(handle) => handle != 0 && Known(p.fibers, handle)
    case DeleteFiber(handle) => handle != 0 && handle != p.currentHandle && Known(p.fibers, handle)
    case CreateFiber(request, entry, _, native) =>
      && entry != 0 && native
      && exists i :: 0 <= i < |p.hosts| && FirstFree(p.hosts, i) && Serves(p.hosts[i], request, BlockAt(heap))
  }

  /** A fiber that is not running and not touched keeps its handle and what it left. */
  ghost predicate Undisturbed(fibers: seq<Fiber>, current: u32, saved: map<u32, Context>,
                              fibers': seq<Fiber>, current': u32, saved': map<u32, Context>, step: Step) {
    forall h :: Known(fibers, h) && h != current && h in saved && !Touches(step, h) ==>
      Known(fibers', h) && h != current' && h in saved' && saved'[h] == saved[h]
  }

  method ComputeOn(p: Process, now: Context, ghost heap: nat)
    requires p.Valid() && p.converted && Beyond(p, heap)
    modifies p
    ensures p.Valid() && p.converted && Beyond(p, heap)
    ensures Undisturbed(old(p.fibers), old(p.currentHandle), old(p.saved), p.fibers, p.currentHandle, p.saved, Compute(now))
    ensures p.registers == now.registers && p.fpu == now.fpu && p.exceptionList == now.exceptionList
  {
    p.registers, p.fpu, p.exceptionList := now.registers, now.fpu, now.exceptionList;
  }

  /** Switch to a fiber. */
  method SwitchOn(p: Process, handle: u32, ghost heap: nat) returns (result: Result)
    requires p.Valid() && p.converted && Beyond(p, heap)
    modifies p
    ensures result.Ok? <==> old(Possible(p, SwitchTo(handle), heap))
    ensures result.Ok? ==> p.Valid() && p.converted && Beyond(p, heap)
    ensures result.Ok? ==>
      Undisturbed(old(p.fibers), old(p.currentHandle), old(p.saved), p.fibers, p.currentHandle, p.saved, SwitchTo(handle))
  {
    result := p.Switch(handle);
  }

  /** Delete a fiber. */
  method DeleteOn(p: Process, handle: u32, ghost heap: nat) returns (result: Result)
    requires p.Valid() && p.converted && Beyond(p, heap)
    modifies p
    ensures result.Ok? <==> old(Possible(p, DeleteFiber(handle), heap))
    ensures result.Ok? ==> p.Valid() && p.converted && Beyond(p, heap)
    ensures result.Ok? ==>
      Undisturbed(old(p.fibers), old(p.currentHandle), old(p.saved), p.fibers, p.currentHandle, p.saved, DeleteFiber(handle))
  {
    result := p.Delete(handle);
  }

  /** Create a fiber on what the heap gives. */
  method CreateOn(p: Process, request: u32, entry: u32, parameter: u32, native: bool, heap: nat)
    returns (result: Result, next: nat)
    requires p.Valid() && p.converted && Beyond(p, heap)
    modifies p
    ensures result.Ok? <==> old(Possible(p, CreateFiber(request, entry, parameter, native), heap))
    ensures result.Ok? ==> p.Valid() && p.converted && Beyond(p, next)
    ensures result.Ok? ==>
      Undisturbed(old(p.fibers), old(p.currentHandle), old(p.saved), p.fibers, p.currentHandle, p.saved,
                  CreateFiber(request, entry, parameter, native))
  {
    var block := BlockAt(heap);
    next := if block != 0 then heap + StackFor(request) else heap;
    result := p.Create(request, entry, parameter, block, native);
  }

  method Perform(p: Process, step: Step, heap: nat) returns (result: Result, next: nat)
    requires p.Valid() && p.converted && Beyond(p, heap)
    modifies p
    ensures result.Ok? <==> old(Possible(p, step, heap))
    ensures result.Ok? ==> p.Valid() && p.converted && Beyond(p, next)
    ensures result.Ok? ==>
      Undisturbed(old(p.fibers), old(p.currentHandle), old(p.saved), p.fibers, p.currentHandle, p.saved, step)
  {
    next := heap;
    match step {
      case Compute(now) =>
        ComputeOn(p, now, heap);
        result := Ok;
      case SwitchTo(handle) => result := SwitchOn(p, handle, heap);
      case DeleteFiber(handle) => result := DeleteOn(p, handle, heap);
      case CreateFiber(request, entry, parameter, native) =>
        result, next := CreateOn(p, request, entry, parameter, native, heap);
    }
  }

  predicate Touches(step: Step, handle: u32) {
    (step.SwitchTo? || step.DeleteFiber?) && step.handle == handle
  }

  /** A fiber that switches away comes back, whatever all the others did in
      between, to the registers, floating point and handlers it left, past its
      one argument: just as if it had switched to itself. */
  method AwayAndBack(p: Process, other: u32, steps: seq<Step>, heap: nat) returns (result: Result, done: nat)
    requires p.Valid() && p.converted && Beyond(p, heap) && other != p.currentHandle
    requires forall k :: 0 <= k < |steps| ==> !Touches(steps[k], p.currentHandle)
    modifies p
    // it comes back if nothing in between stops the program: coming back does not
    ensures done <= |steps|
    ensures result.Ok? <==> other != 0 && old(Known(p.fibers, other)) && done == |steps|
    ensures result.Ok? ==>
      && p.Valid() && p.currentHandle == old(p.currentHandle)
      && p.Now() == old(p.Now()).(registers := old(p.registers).(esp := Plus(old(p.registers).esp, 8)))
  {
    var me := p.currentHandle;
    assert Holds(p.fibers[p.currentHost], me);
    done := 0;
    result := p.Switch(other);
    if result.Stop? { return; }
    ghost var left := p.saved[me];
    var next := heap;
    while done < |steps|
      invariant p.Valid() && p.converted && Beyond(p, next) && done <= |steps|
      invariant Known(p.fibers, me) && me != p.currentHandle && me in p.saved && p.saved[me] == left
    {
      result, next := Perform(p, steps[done], next);
      if result.Stop? { return; }
      done := done + 1;
    }
    result := p.Switch(me);
  }

  /** A request that wraps is met by the smallest stack a slot can keep: asked for
      nearly the whole address range, the fiber gets 0x3000 bytes. */
  method WrappedRequest(registers: Registers, fpu: Fpu, exceptionList: u32) returns (p: Process, result: Result)
    ensures result.Ok? && p.Valid() && p.hosts[1] == Host(true, 0x1_2ff0, 0x1_0000, 0x3000, AtEntry)
    ensures p.registers.eax == 0x1_2ff0
  {
    p := new Process(registers, fpu, exceptionList);
    result := p.Convert(0, 0x8000, true);
    FirstTwo(p.hosts);
    result := p.Create(0x3000, 0x1000, 0, 0x1_0000, true);
    result := p.Delete(0x1_2ff0);
    FirstTwo(p.hosts);
    result := p.Create(0xffff_f001, 0x1000, 0, 0, true);
  }

  lemma FirstTwo(h: seq<Host>)
    requires |h| == SLOTS && h[0].active && !h[1].active
    ensures FirstFree(h, 1) && forall i: nat :: FirstFree(h, i) ==> i == 1
  {
    assert FirstFree(h, 1);
  }
}
