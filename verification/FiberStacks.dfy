/**
 The stacks of recomp-runtime/fiber_adapter.c: how large a fiber's stack is made,
 when one that a slot keeps is used again, where its handle lies, and what a new
 fiber starts with.
 */
module FiberStacks {
  import opened MachineWords
  import opened Fibers

  /** A sum of two words, once the carry is dropped. */
  lemma PlusMeans(a: u32, b: u32)
    ensures Plus(a, b) == a + b || Plus(a, b) == a + b - 0x1_0000_0000
  {
  }

  /** A request is rounded up to whole pages of 4096 bytes, three at least: the fewest
      that hold it.  Above the largest one it comes to nothing. */
  lemma StackMeans(request: u32, pages: nat)
    ensures request <= 0xffff_f000 ==>
      (4096 * pages >= StackFor(request) <==> 4096 * pages >= request && pages >= 3)
    ensures request > 0xffff_f000 ==> StackFor(request) == 0
    ensures StackFor(request) % 4096 == 0
  {
  }

  /** No address lies on the stacks of two slots, and none of them holds the first
      fiber's handle. */
  lemma StacksShareNothing(h: seq<Host>, main: u32, i: nat, j: nat, address: nat)
    requires StacksApart(h, main) && i < j < |h|
    ensures !(h[i].stackBase <= address < h[i].stackBase + h[i].stackSize
              && h[j].stackBase <= address < h[j].stackBase + h[j].stackSize)
    ensures h[i].stackSize > 0 ==> !(h[i].stackBase <= main < h[i].stackBase + h[i].stackSize)
  {
    assert ApartAt(h, i, j);
  }

  /** A stack that a slot keeps is whole pages, three at least, within 32 bits; the
      handle of a fiber on it is sixteen bytes below its end. */
  lemma KeptStack(h: seq<Host>, main: u32, i: nat)
    requires StacksApart(h, main) && i < |h| && h[i].stackSize > 0
    ensures h[i].stackSize >= 3 * 4096 && h[i].stackSize % 4096 == 0 && h[i].stackBase > 0
    ensures h[i].stackBase + h[i].stackSize <= 0xffff_ffff
    ensures h[i].active ==> h[i].handle + 16 == h[i].stackBase + h[i].stackSize
  {
  }

  /** A slot's own stack is used again if it is large enough; otherwise a block must be
      given that ends within 32 bits, and it is used as far as was asked. */
  lemma ServesMeans(h: Host, request: u32, block: u32)
    requires request <= 0xffff_f000
    ensures h.stackSize >= StackFor(request) ==> Serves(h, request, block)
    ensures h.stackSize < StackFor(request) ==>
      (Serves(h, request, block) <==> block > 0 && block + StackFor(request) <= 0xffff_ffff)
  {
    StackMeans(request, 3);
  }

  lemma ChosenMeans(base: u32, size: u32, h: Host, request: u32, block: u32)
    requires OneOf(base, size, h, request, block) && request <= 0xffff_f000
    ensures size >= request && size >= 3 * 4096
    ensures h.stackSize >= StackFor(request) ==> base == h.stackBase && size == h.stackSize
    ensures h.stackSize < StackFor(request) ==> base == block && size == StackFor(request)
  {
    StackMeans(request, size / 4096);
  }

  /** A new fiber has an empty floating-point unit with the reset control word, no
      handlers, and its stack below what lies at its handle. */
  lemma NewFiberMeans(handle: u32, entry: u32, parameter: u32)
    requires handle >= 8
    ensures var f := NewFiber(handle, entry, parameter);
      && f.active && f.handle == handle && f.entry == entry && f.parameter == parameter
      && f.context.fpu == Fpu(0x037f, []) && f.context.exceptionList == 0xffff_ffff
      && f.context.registers.eax == 0 && f.context.registers.esp + 8 == handle
  {
  }

  /** Handle, entry and parameter of every fiber stay what they were, but not its context. */
  lemma SameFibersMeans(before: seq<Fiber>, after: seq<Fiber>, i: nat)
    requires SameFibers(before, after) && i < |before|
    ensures |after| == |before| && after[i].active == before[i].active && after[i].handle == before[i].handle
    ensures after[i].entry == before[i].entry && after[i].parameter == before[i].parameter
  {
  }

  /** A fiber that is given up leaves its slot free, with the stack in it. */
  lemma GivenUpMeans(before: seq<Host>, after: seq<Host>, i: nat, handle: u32)
    requires GivenUp(before, after, i, handle)
    ensures |after| == |before| && i < |before| && before[i].active && before[i].handle == handle
    ensures !after[i].active && after[i].stackBase == before[i].stackBase && after[i].stackSize == before[i].stackSize
    ensures forall j :: 0 <= j < |before| && j != i ==> after[j] == before[j]
  {
  }
}
