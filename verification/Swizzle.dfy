/**
 The swizzling code of recomp-runtime/d3d_texture_model.c: lowest set bit, bit
 scatter, mask construction and the copy that rewrites a Morton-ordered surface
 into rows.
 */
module Swizzle {
  import opened MachineWords
  import Arith
  import opened Bits
  import opened Morton

  // ------------------------------------------------------- the lowest set bit

  /** The place of the lowest set bit. */
  function LowIndex(mask: nat): nat
    requires mask != 0
  {
    if mask % 2 == 1 then 0 else 1 + LowIndex(mask / 2)
  }

  lemma {:induction false} LowIndexBelow(mask: nat, n: nat)
    requires 0 < mask < Pow2(n)
    ensures LowIndex(mask) < n && Pow2(LowIndex(mask)) <= mask
  {
    if mask % 2 == 0 { LowIndexBelow(mask / 2, n - 1); }
  }

  lemma {:induction false} AndNotSelf(a: nat, n: nat)
    requires a < Pow2(n)
    ensures And(a, Not(a, n)) == 0
  {
    if n != 0 {
      AndHalves(a, Not(a, n));
      assert Not(a, n) / 2 == Not(a / 2, n - 1);
      AndNotSelf(a / 2, n - 1);
    }
  }

  lemma LowestOfOdd(mask: nat, n: nat)
    requires mask % 2 == 1 && mask < Pow2(n)
    ensures And(mask, Pow2(n) - mask) == 1
  {
    var negated := Pow2(n) - mask;
    AndHalves(mask, negated);
    assert negated / 2 == Not(mask / 2, n - 1);
    AndNotSelf(mask / 2, n - 1);
  }

  lemma AndOfEvens(a: nat, b: nat, c: nat, d: nat)
    requires a == 2 * c && b == 2 * d
    ensures And(a, b) == 2 * And(c, d)
  {
    assert a / 2 == c && b / 2 == d && a % 2 == 0;
    AndHalves(a, b);
  }

  /** mask & -mask. */
  lemma {:induction false} LowestBitIs(mask: nat, n: nat)
    requires 0 < mask < Pow2(n)
    ensures And(mask, Pow2(n) - mask) == Pow2(LowIndex(mask))
  {
    if mask % 2 == 1 {
      LowestOfOdd(mask, n);
    } else {
      LowestBitIs(mask / 2, n - 1);
      AndOfEvens(mask, Pow2(n) - mask, mask / 2, Pow2(n - 1) - mask / 2);
    }
  }

  /** mask & ~low. */
  lemma {:induction false} ClearLowest(mask: nat, n: nat)
    requires 0 < mask < Pow2(n)
    ensures Pow2(LowIndex(mask)) < Pow2(n)
    ensures And(mask, Not(Pow2(LowIndex(mask)), n)) == mask - Pow2(LowIndex(mask))
  {
    LowIndexBelow(mask, n);
    var keep := Not(Pow2(LowIndex(mask)), n);
    AndHalves(mask, keep);
    if mask % 2 == 1 {
      assert keep / 2 == Pow2(n - 1) - 1;
      AndAllOnes(mask / 2, n - 1);
    } else {
      LowIndexBelow(mask / 2, n - 1);
      assert keep / 2 == Not(Pow2(LowIndex(mask / 2)), n - 1);
      ClearLowest(mask / 2, n - 1);
    }
  }

  lemma {:induction false} AndAllOnes(a: nat, n: nat)
    requires a < Pow2(n)
    ensures And(a, Pow2(n) - 1) == a
  {
    if n != 0 {
      AndHalves(a, Pow2(n) - 1);
      assert (Pow2(n) - 1) / 2 == Pow2(n - 1) - 1;
      AndAllOnes(a / 2, n - 1);
    }
  }

  /** What is left of a mask starts higher up. */
  lemma {:induction false} NextLowIndex(mask: nat)
    requires mask != 0
    ensures Pow2(LowIndex(mask)) <= mask
    ensures var rest := mask - Pow2(LowIndex(mask)); rest != 0 ==> LowIndex(rest) > LowIndex(mask)
  {
    if mask % 2 == 0 {
      NextLowIndex(mask / 2);
      assert (mask - Pow2(LowIndex(mask))) / 2 == mask / 2 - Pow2(LowIndex(mask / 2));
    }
  }

  /** Scattering one bit and going on with the rest of the mask. */
  lemma {:induction false} SpreadStep(v: nat, mask: nat)
    requires mask != 0
    ensures Pow2(LowIndex(mask)) <= mask
    ensures Spread(v, mask) ==
      (if v % 2 == 1 then Pow2(LowIndex(mask)) else 0) + Spread(v / 2, mask - Pow2(LowIndex(mask)))
  {
    SpreadHalves(v, mask);
    if mask % 2 == 1 {
      SpreadHalves(v / 2, mask - 1);
    } else {
      SpreadStep(v, mask / 2);
      SpreadHalves(v / 2, mask - Pow2(LowIndex(mask)));
      assert (mask - Pow2(LowIndex(mask))) / 2 == mask / 2 - Pow2(LowIndex(mask / 2));
    }
  }

  // ------------------------------------------------------------- bit scatter

  /** The two tricks on 32-bit words. */
  lemma LowestBitOf32(mask: u32, n: nat)
    requires mask != 0 && n == 32
    ensures LowIndex(mask) < 32 && Pow2(LowIndex(mask)) <= mask
    ensures And32(mask, (Not32(mask) + 1) % TWO32) == Pow2(LowIndex(mask))
    ensures And32(mask, Not32(Pow2(LowIndex(mask)))) == mask - Pow2(LowIndex(mask))
  {
    Pow2Of32();
    assert Pow2(n) == TWO32 && (Not32(mask) + 1) % TWO32 == TWO32 - mask;
    LowIndexBelow(mask, n);
    LowestBitIs(mask, n);
    ClearLowest(mask, n);
  }

  method LowestBit(mask: u32) returns (low: u32)
    requires mask != 0
    ensures low == Pow2(LowIndex(mask))
  {
    LowestBitOf32(mask, 32);
    low := And32(mask, (Not32(mask) + 1) % TWO32);
  }

  lemma {:induction false} ShrNext(a: nat, n: nat)
    ensures Shr(a, n + 1) == Shr(a, n) / 2
  {
    if n != 0 { ShrNext(a / 2, n - 1); }
  }

  lemma SlotFits(k: nat)
    requires k < 32
    ensures Pow2(k) < TWO32
  {
    Pow2Of32();
    Pow2Monotone(k, 32);
  }

  lemma NextBit(rest: u32, j: nat)
    requires rest != 0 && j <= LowIndex(rest)
    ensures Pow2(LowIndex(rest)) <= rest
    ensures var next := rest - Pow2(LowIndex(rest));
      next != 0 ==> j + 1 <= LowIndex(next) < 32 && Pow2(j) * 2 < TWO32 && 2 * Pow2(LowIndex(rest)) <= Pow2(LowIndex(next))
  {
    NextLowIndex(rest);
    var next := rest - Pow2(LowIndex(rest));
    if next != 0 {
      LowestBitOf32(next, 32);
      Pow2Monotone(LowIndex(rest), LowIndex(next));
      SlotFits(j + 1);
    }
  }

  /** The lowest slot takes the next bit. */
  method ScatterBit(value: u32, result: u32, bit: u32, low: u32, ghost j: nat, ghost k: nat) returns (result': u32)
    requires bit == Pow2(j) && low == Pow2(k) && result < low
    ensures result' == result + if BitAt(value, j) then low else 0
    ensures low > 0
  {
    AndBit(value, j);
    result' := result;
    if And32(value, bit) != 0 {
      AndAbove(result, k);
      DisjointSum(result, low);
      result' := Or32(result, low);
    }
  }

  lemma ScatterStep(value: nat, rest: nat, j: nat)
    requires rest != 0
    ensures Pow2(LowIndex(rest)) <= rest
    ensures Spread(Shr(value, j), rest) ==
      (if BitAt(value, j) then Pow2(LowIndex(rest)) else 0) + Spread(Shr(value, j + 1), rest - Pow2(LowIndex(rest)))
  {
    SpreadStep(Shr(value, j), rest);
    ShrNext(value, j);
  }

  /** Take the lowest bit out of the mask. */
  method WithoutLowest(rest: u32, low: u32) returns (rest': u32)
    requires rest != 0 && low == Pow2(LowIndex(rest))
    ensures low <= rest && rest' == rest - low
  {
    LowestBitOf32(rest, 32);
    rest' := And32(rest, Not32(low));
  }

  /** The scatter loop stands at bit j of the value, all slots taken lie below those left. */
  ghost predicate Scattering(result: nat, rest: nat, bit: nat, j: nat) {
    rest != 0 ==> j <= LowIndex(rest) && bit == Pow2(j) && result < Pow2(LowIndex(rest))
  }

  lemma StillScattering(result: nat, rest: u32, bit: nat, j: nat, low: nat, more: nat)
    requires rest != 0 && Scattering(result, rest, bit, j) && low == Pow2(LowIndex(rest)) <= rest && more <= low
    ensures Scattering(result + more, rest - low, bit * 2 % TWO32, j + 1)
  {
    NextBit(rest, j);
  }

  /** One turn of the scatter loop. */
  method ScatterOne(value: u32, result: u32, rest: u32, bit: u32, ghost j: nat)
    returns (result': u32, rest': u32, bit': u32)
    requires rest != 0 && Scattering(result, rest, bit, j)
    ensures rest' < rest && Scattering(result', rest', bit', j + 1)
    ensures result' + Spread(Shr(value, j + 1), rest') == result + Spread(Shr(value, j), rest)
  {
    var low := LowestBit(rest);
    ScatterStep(value, rest, j);
    result' := ScatterBit(value, result, bit, low, j, LowIndex(rest));
    StillScattering(result, rest, bit, j, low, result' - result);
    rest' := WithoutLowest(rest, low);
    bit' := bit * 2 % TWO32;
  }

  method SpreadBits(value: u32, mask: u32) returns (result: u32)
    ensures result == Spread(value, mask)
  {
    result := 0;
    var bit: u32 := 1;
    var rest: u32 := mask;
    ghost var j := 0;
    while rest != 0
      invariant Scattering(result, rest, bit, j)
      invariant Spread(value, mask) == result + Spread(Shr(value, j), rest)
      decreases rest
    {
      result, rest, bit := ScatterOne(value, result, rest, bit, j);
      j := j + 1;
    }
  }

  // ---------------------------------------------------------- the two masks

  /** v * 2^k. */
  function Shl(v: nat, k: nat): nat
    decreases k
  {
    if k == 0 then v else Shl(2 * v, k - 1)
  }

  lemma {:induction false} ShlAdds(u: nat, v: nat, k: nat)
    ensures Shl(u + v, k) == Shl(u, k) + Shl(v, k)
    decreases k
  {
    if k != 0 { ShlAdds(2 * u, 2 * v, k - 1); }
  }

  lemma {:induction false} ShlOne(k: nat)
    ensures Shl(1, k) == Pow2(k)
  {
    if k != 0 {
      ShlOne(k - 1);
      ShlAdds(1, 1, k - 1);
    }
  }

  lemma {:induction false} ShlZero(k: nat)
    ensures Shl(0, k) == 0
  {
    if k != 0 { ShlZero(k - 1); }
  }

  /** The lowest bit of what is to come, and the rest one slot up. */
  lemma PeelSlot(v: nat, k: nat)
    ensures Shl(1 + 2 * v, k) == Pow2(k) + Shl(v, k + 1)
  {
    ShlAdds(1, 2 * v, k);
    ShlOne(k);
  }

  lemma SmallRemainder(a: nat)
    requires a < TWO32
    ensures a % TWO32 == a
  {
  }

  lemma TwiceNothing(a: nat)
    requires a % TWO32 == 0
    ensures 2 * a % TWO32 == 0
  {
  }

  lemma {:induction false} SlotGone(k: nat)
    requires k >= 32
    ensures Pow2(k) % TWO32 == 0
  {
    Pow2Of32();
    if k > 32 {
      SlotGone(k - 1);
      TwiceNothing(Pow2(k - 1));
    }
  }

  /** A slot past the word is shifted out of it. */
  lemma SlotWraps(k: nat)
    ensures Pow2(k) % TWO32 == if k < 32 then Pow2(k) else 0
  {
    if k < 32 {
      SlotFits(k);
      SmallRemainder(Pow2(k));
    } else {
      SlotGone(k);
    }
  }

  /** A mask that has its share of the first k slots, while this is to come of it,
      k slots up; only the low word is kept. */
  ghost predicate Owes(mask: nat, rest: nat, k: nat, full: nat) {
    mask < Pow2(k) && mask < TWO32 && (mask + Shl(rest, k)) % TWO32 == full % TWO32
  }

  lemma SlotAdds(mask: nat, slot: nat, rest: nat)
    ensures ((mask + slot) % TWO32 + rest) % TWO32 == (mask + (slot + rest)) % TWO32
  {
  }

  /** A slot above a mask, and room for the mask and the slot. */
  lemma OrAbove(mask: nat, k: nat)
    requires mask < Pow2(k)
    ensures Or(mask, Pow2(k)) == mask + Pow2(k) < Pow2(k + 1)
    ensures k < 32 ==> Pow2(k + 1) <= TWO32
  {
    AndAbove(mask, k);
    DisjointSum(mask, Pow2(k));
    if k < 32 {
      Pow2Of32();
      Pow2Monotone(k + 1, 32);
    }
  }

  /** A whole that leaves nothing in the word does not change it. */
  lemma NothingAdded(mask: u32, whole: nat)
    requires whole % TWO32 == 0
    ensures (mask + whole) % TWO32 == mask
  {
  }

  lemma OrLow(mask: nat, k: nat)
    requires k < 32 && mask < Pow2(k)
    ensures Or(mask, Pow2(k)) == (mask + Pow2(k)) % TWO32 < Pow2(k + 1)
  {
    OrAbove(mask, k);
    SmallRemainder(mask + Pow2(k));
  }

  lemma OrHigh(mask: u32, slot: u32, k: nat)
    requires slot == 0 && Pow2(k) % TWO32 == 0 && mask < Pow2(k)
    ensures Or(mask, slot) == (mask + Pow2(k)) % TWO32 < Pow2(k + 1)
  {
    NothingAdded(mask, Pow2(k));
  }

  lemma OrSlot(mask: u32, slot: u32, k: nat)
    requires slot == Pow2(k) % TWO32 && mask < Pow2(k)
    ensures Or32(mask, slot) == (mask + Pow2(k)) % TWO32 < Pow2(k + 1)
  {
    SlotWraps(k);
    if k < 32 { OrLow(mask, k); } else { OrHigh(mask, slot, k); }
  }

  lemma SlotOwed(mask: nat, rest: nat, k: nat, full: nat)
    requires Owes(mask, 1 + 2 * rest, k, full)
    ensures Owes((mask + Pow2(k)) % TWO32, rest, k + 1, full)
  {
    PeelSlot(rest, k);
    SlotAdds(mask, Pow2(k), Shl(rest, k + 1));
  }

  lemma NextSlot(slot: u32, whole: nat)
    requires slot == whole % TWO32
    ensures slot * 2 % TWO32 == 2 * whole % TWO32
  {
    var q, carry := whole / TWO32, if 2 * slot < TWO32 then 0 else 1;
    Arith.DivisionIs(2 * whole, TWO32, 2 * q + carry, 2 * slot - carry * TWO32);
    Arith.DivisionIs(slot * 2, TWO32, carry, 2 * slot - carry * TWO32);
  }

  /** Nothing is to come. */
  lemma Settled(mask: nat, k: nat, full: nat)
    requires Owes(mask, 0, k, full)
    ensures mask == full % TWO32
  {
    ShlZero(k);
  }

  /** One axis takes one slot. */
  method TakeSlot(mask: u32, slot: u32, ghost k: nat, ghost rest: nat, ghost full: nat) returns (mask': u32, slot': u32)
    requires slot == Pow2(k) % TWO32 && Owes(mask, 1 + 2 * rest, k, full)
    ensures slot' == Pow2(k + 1) % TWO32 && Owes(mask', rest, k + 1, full)
  {
    OrSlot(mask, slot, k);
    SlotOwed(mask, rest, k, full);
    NextSlot(slot, Pow2(k));
    mask' := Or32(mask, slot);
    slot' := slot * 2 % TWO32;
  }

  /** The other axis takes a slot. */
  lemma SkipSlot(mask: nat, rest: nat, k: nat, full: nat)
    requires Owes(mask, 2 * rest, k, full)
    ensures Owes(mask, rest, k + 1, full)
  {
  }

  /** Both axes take a slot. */
  method BothTake(x: u32, y: u32, slot: u32, ghost k: nat, ghost p: nat, ghost q: nat, ghost fullX: nat, ghost fullY: nat)
    returns (x': u32, y': u32, slot': u32)
    requires slot == Pow2(k) % TWO32 && Owes(x, 1 + 4 * p, k, fullX) && Owes(y, 2 + 4 * q, k, fullY)
    ensures slot' == Pow2(k + 2) % TWO32 && Owes(x', p, k + 2, fullX) && Owes(y', q, k + 2, fullY)
  {
    x', slot' := TakeSlot(x, slot, k, 2 * p, fullX);
    SkipSlot(x', p, k + 1, fullX);
    SkipSlot(y, 1 + 2 * q, k, fullY);
    y', slot' := TakeSlot(y, slot', k + 1, q, fullY);
  }

  /** The state of the mask loop: k slots are taken, a bits of x and b bits of y
      are still to come. */
  ghost predicate MaskState(x: nat, y: nat, k: nat, a: nat, b: nat, fullX: nat, fullY: nat) {
    Owes(x, MaskX(a, b), k, fullX) && Owes(y, MaskY(a, b), k, fullY)
  }

  lemma FullRest(n: nat)
    requires n > 0
    ensures Pow2(n) - 1 == 1 + 2 * (Pow2(n - 1) - 1)
  {
  }

  /** One turn of the mask loop. */
  method MaskRound(x: u32, y: u32, slot: u32, takeX: bool, takeY: bool,
                   ghost k: nat, ghost a: nat, ghost b: nat, ghost fullX: nat, ghost fullY: nat)
    returns (x': u32, y': u32, slot': u32)
    requires takeX == (a > 0) && takeY == (b > 0) && a + b > 0
    requires slot == Pow2(k) % TWO32 && MaskState(x, y, k, a, b, fullX, fullY)
    ensures var k' := k + (if a > 0 then 1 else 0) + (if b > 0 then 1 else 0);
      && slot' == Pow2(k') % TWO32
      && MaskState(x', y', k', if a > 0 then a - 1 else 0, if b > 0 then b - 1 else 0, fullX, fullY)
  {
    x', y', slot' := x, y, slot;
    if takeX && takeY {
      x', y', slot' := BothTake(x, y, slot, k, MaskX(a - 1, b - 1), MaskY(a - 1, b - 1), fullX, fullY);
    } else if takeX {
      FullRest(a);
      x', slot' := TakeSlot(x, slot, k, Pow2(a - 1) - 1, fullX);
      SkipSlot(y, 0, k, fullY);
    } else {
      FullRest(b);
      y', slot' := TakeSlot(y, slot, k, Pow2(b - 1) - 1, fullY);
      SkipSlot(x, 0, k, fullX);
    }
  }

  /** n bits of an axis, i of them dealt with. */
  function Left(n: nat, i: nat): nat { if n > i then n - i else 0 }

  /** An axis of this size has n bits. */
  ghost predicate HasBits(size: u32, n: nat) { forall i: nat :: BitOf(size, i, n) }

  predicate BitOf(size: u32, i: nat, n: nat) { Pow2(i) < size <==> i < n }

  /** After i rounds, k slots are taken. */
  ghost predicate LoopState(maskX: nat, maskY: nat, bit: nat, slot: nat, i: nat, k: nat, a: nat, b: nat,
                            fullX: nat, fullY: nat) {
    && i <= 31 && bit == Pow2(i) && slot == Pow2(k) % TWO32
    && MaskState(maskX, maskY, k, Left(a, i), Left(b, i), fullX, fullY)
  }

  function Taken(i: nat, k: nat, a: nat, b: nat): nat { k + (if a > i then 1 else 0) + (if b > i then 1 else 0) }

  /** The coordinate bit after n turns of the mask loop, and whether it goes on. */
  function BitAfter(n: nat): u32 { if n == 0 then 1 else BitAfter(n - 1) * 2 % TWO32 }

  predicate GoesOn(width: u32, height: u32, n: nat) { BitAfter(n) < width || BitAfter(n) < height }

  lemma {:induction false} BitAfterIs(n: nat)
    ensures BitAfter(n) == Pow2(n) % TWO32
  {
    if n != 0 {
      BitAfterIs(n - 1);
      NextSlot(BitAfter(n - 1), Pow2(n - 1));
    }
  }

  /** The mask loop ends exactly if no axis is longer than 2^31: past that, the bit
      is shifted out before it reaches the size, and zero is below every size. */
  lemma MaskLoopEnds(width: u32, height: u32)
    ensures (exists n: nat :: !GoesOn(width, height, n)) <==> width <= Pow2(31) && height <= Pow2(31)
  {
    if width <= Pow2(31) && height <= Pow2(31) {
      BitAfterIs(31);
      SlotWraps(31);
      assert !GoesOn(width, height, 31);
    }
    forall n: nat | !GoesOn(width, height, n)
      ensures width <= Pow2(31) && height <= Pow2(31)
    {
      BitAfterIs(n);
      SlotWraps(n);
      if n < 32 { Pow2Monotone(n, 31); }
    }
  }

  /** The coordinate bit of the following turn. */
  method NextBitOf(bit: u32, ghost i: nat) returns (bit': u32)
    requires bit == Pow2(i) && i < 31
    ensures bit' == Pow2(i + 1)
  {
    SlotFits(i + 1);
    bit' := bit * 2 % TWO32;
  }

  /** Whether an axis takes part in this turn. */
  lemma TakesPart(size: u32, bit: u32, i: nat, n: nat)
    requires HasBits(size, n) && bit == Pow2(i)
    ensures bit < size <==> i < n
  {
    assert BitOf(size, i, n);
  }

  method LoopTurn(maskX: u32, maskY: u32, bit: u32, slot: u32, takeX: bool, takeY: bool,
                  ghost i: nat, ghost k: nat, ghost a: nat, ghost b: nat, ghost fullX: nat, ghost fullY: nat)
    returns (maskX': u32, maskY': u32, bit': u32, slot': u32)
    requires a <= 31 && b <= 31 && takeX == (i < a) && takeY == (i < b) && (takeX || takeY)
    requires LoopState(maskX, maskY, bit, slot, i, k, a, b, fullX, fullY)
    ensures LoopState(maskX', maskY', bit', slot', i + 1, Taken(i, k, a, b), a, b, fullX, fullY)
  {
    maskX', maskY', slot' := MaskRound(maskX, maskY, slot, takeX, takeY, k, Left(a, i), Left(b, i), fullX, fullY);
    bit' := NextBitOf(bit, i);
  }

  lemma LoopBegins(a: nat, b: nat)
    ensures LoopState(0, 0, 1, 1, 0, 0, a, b, MaskX(a, b), MaskY(a, b))
  {
  }

  lemma LoopEnds(maskX: nat, maskY: nat, bit: nat, slot: nat, i: nat, k: nat, a: nat, b: nat, fullX: nat, fullY: nat)
    requires LoopState(maskX, maskY, bit, slot, i, k, a, b, fullX, fullY) && i >= a && i >= b
    ensures maskX == fullX % TWO32 && maskY == fullY % TWO32
  {
    Settled(maskX, k, fullX);
    Settled(maskY, k, fullY);
  }

  method MaskLoop(width: u32, height: u32, ghost a: nat, ghost b: nat) returns (maskX: u32, maskY: u32)
    requires HasBits(width, a) && HasBits(height, b) && a <= 31 && b <= 31
    ensures maskX == MaskX(a, b) % TWO32 && maskY == MaskY(a, b) % TWO32
  {
    maskX, maskY := 0, 0;
    var bit: u32, slot: u32 := 1, 1;
    ghost var i, k := 0, 0;
    ghost var fullX, fullY := MaskX(a, b), MaskY(a, b);
    LoopBegins(a, b);
    TakesPart(width, bit, i, a);
    TakesPart(height, bit, i, b);
    while bit < width || bit < height
      invariant LoopState(maskX, maskY, bit, slot, i, k, a, b, fullX, fullY)
      invariant (bit < width <==> i < a) && (bit < height <==> i < b)
      decreases Left(a, i) + Left(b, i)
    {
      maskX, maskY, bit, slot := LoopTurn(maskX, maskY, bit, slot, bit < width, bit < height, i, k, a, b, fullX, fullY);
      i, k := i + 1, Taken(i, k, a, b);
      TakesPart(width, bit, i, a);
      TakesPart(height, bit, i, b);
    }
    LoopEnds(maskX, maskY, bit, slot, i, k, a, b, fullX, fullY);
  }

  lemma CeilLogHasBits(size: u32)
    ensures HasBits(size, CeilLog(size))
  {
    forall i: nat ensures BitOf(size, i, CeilLog(size)) {
      CeilLogBelow(size, i);
    }
  }

  /** The masks of a surface, as far as they fit a word; past 2^32 texels the slot
      is shifted out, and the high bits are lost. */
  method SwizzleMasks(width: u32, height: u32) returns (maskX: u32, maskY: u32)
    requires CeilLog(width) <= 31 && CeilLog(height) <= 31
    ensures maskX == MaskX(CeilLog(width), CeilLog(height)) % TWO32
    ensures maskY == MaskY(CeilLog(width), CeilLog(height)) % TWO32
  {
    CeilLogHasBits(width);
    CeilLogHasBits(height);
    maskX, maskY := MaskLoop(width, height, CeilLog(width), CeilLog(height));
  }

  /** The whole masks fit exactly up to 2^32 texels. */
  lemma MasksFit(a: nat, b: nat)
    ensures MaskX(a, b) < TWO32 && MaskY(a, b) < TWO32 <== a + b <= 32
    ensures MaskX(a, b) + MaskY(a, b) < TWO32 <==> a + b <= 32
  {
    MasksShare(a, b);
    ShareIsPartition(MaskX(a, b), MaskY(a, b), a + b);
    Pow2Of32();
    if a + b <= 32 { Pow2Monotone(a + b, 32); } else { Pow2Monotone(33, a + b); Pow2Monotone(32, 33); }
  }

  method FullMasks(width: u32, height: u32, ghost a: nat, ghost b: nat) returns (maskX: u32, maskY: u32)
    requires a == CeilLog(width) <= 31 && b == CeilLog(height) <= 31 && a + b <= 32
    ensures maskX == MaskX(a, b) && maskY == MaskY(a, b)
  {
    MasksFit(a, b);
    maskX, maskY := SwizzleMasks(width, height);
  }

  method SwizzleOffset(x: u32, y: u32, maskX: u32, maskY: u32) returns (offset: u32)
    ensures offset == Offset(x, y, maskX, maskY)
  {
    var sx := SpreadBits(x, maskX);
    var sy := SpreadBits(y, maskY);
    offset := Or32(sx, sy);
  }
}
