/**
 The mathematics of Morton order.  A mask names the slots of an offset that
 belong to one axis; Spread scatters a coordinate over them and Collect gathers
 it back.  Two masks that share out the low n slots make (x, y) -> offset a
 bijection from all pairs of coordinates onto [0, 2^n).
 */
module Morton {
  import opened Bits

  /** The bits of v, in order, on the set bits of mask. */
  function Spread(v: nat, mask: nat): (r: nat)
    ensures r <= mask
  {
    if mask == 0 then 0
    else if mask % 2 == 1 then v % 2 + 2 * Spread(v / 2, mask / 2)
    else 2 * Spread(v, mask / 2)
  }

  /** The bits of an offset that lie on mask, in order. */
  function Collect(offset: nat, mask: nat): nat {
    if mask == 0 then 0
    else if mask % 2 == 1 then offset % 2 + 2 * Collect(offset / 2, mask / 2)
    else Collect(offset / 2, mask / 2)
  }

  /** How many bits a mask has. */
  function Count(mask: nat): nat {
    if mask == 0 then 0 else mask % 2 + Count(mask / 2)
  }

  /** Every one of the low n slots belongs to exactly one of the two masks, and
      no other slot to either. */
  ghost predicate Share(maskX: nat, maskY: nat, n: nat) {
    if n == 0 then maskX == 0 && maskY == 0
    else maskX % 2 + maskY % 2 == 1 && Share(maskX / 2, maskY / 2, n - 1)
  }

  /** The offset of a texel. */
  function Offset(x: nat, y: nat, maskX: nat, maskY: nat): nat {
    Or(Spread(x, maskX), Spread(y, maskY))
  }

  /** Shared-out masks are disjoint and their union is all n slots. */
  lemma {:induction false} ShareIsPartition(maskX: nat, maskY: nat, n: nat)
    requires Share(maskX, maskY, n)
    ensures And(maskX, maskY) == 0
    ensures Or(maskX, maskY) == maskX + maskY == Pow2(n) - 1
    ensures Count(maskX) + Count(maskY) == n
  {
    if n != 0 {
      ShareIsPartition(maskX / 2, maskY / 2, n - 1);
      AndHalves(maskX, maskY);
    }
    DisjointSum(maskX, maskY);
  }

  lemma SpreadHalves(v: nat, mask: nat)
    ensures Spread(v, mask) ==
      if mask % 2 == 1 then v % 2 + 2 * Spread(v / 2, mask / 2) else 2 * Spread(v, mask / 2)
  {
  }

  lemma HalvesOf(r: nat, b: nat, h: nat)
    requires r == b + 2 * h && b < 2
    ensures r % 2 == b && r / 2 == h
  {
  }

  lemma SameHalves(a: nat, b: nat)
    requires a / 2 == b / 2 && a % 2 == b % 2
    ensures a == b
  {
  }

  /** The two halves of an offset never collide, so or is plus. */
  lemma {:induction false} OffsetIsSum(x: nat, y: nat, maskX: nat, maskY: nat, n: nat)
    requires Share(maskX, maskY, n)
    ensures And(Spread(x, maskX), Spread(y, maskY)) == 0
    ensures Offset(x, y, maskX, maskY) == Spread(x, maskX) + Spread(y, maskY) < Pow2(n)
  {
    if n != 0 {
      var p, q := Spread(x, maskX), Spread(y, maskY);
      SpreadHalves(x, maskX);
      SpreadHalves(y, maskY);
      if maskX % 2 == 1 {
        OffsetIsSum(x / 2, y, maskX / 2, maskY / 2, n - 1);
        HalvesOf(p, x % 2, Spread(x / 2, maskX / 2));
        HalvesOf(q, 0, Spread(y, maskY / 2));
      } else {
        OffsetIsSum(x, y / 2, maskX / 2, maskY / 2, n - 1);
        HalvesOf(p, 0, Spread(x, maskX / 2));
        HalvesOf(q, y % 2, Spread(y / 2, maskY / 2));
      }
      ApartByHalves(p, q, n);
    }
    DisjointSum(Spread(x, maskX), Spread(y, maskY));
  }

  lemma ApartByHalves(p: nat, q: nat, n: nat)
    requires n > 0 && And(p / 2, q / 2) == 0 && (p % 2 == 0 || q % 2 == 0) && p / 2 + q / 2 < Pow2(n - 1)
    ensures And(p, q) == 0 && p + q < Pow2(n)
  {
    AndHalves(p, q);
  }

  lemma OffsetHalves(x: nat, y: nat, maskX: nat, maskY: nat, n: nat)
    requires n > 0 && Share(maskX, maskY, n)
    ensures maskX % 2 == 1 ==>
      && Offset(x, y, maskX, maskY) % 2 == x % 2
      && Offset(x, y, maskX, maskY) / 2 == Offset(x / 2, y, maskX / 2, maskY / 2)
    ensures maskX % 2 == 0 ==>
      && Offset(x, y, maskX, maskY) % 2 == y % 2
      && Offset(x, y, maskX, maskY) / 2 == Offset(x, y / 2, maskX / 2, maskY / 2)
  {
    OffsetIsSum(x, y, maskX, maskY, n);
    SpreadHalves(x, maskX);
    SpreadHalves(y, maskY);
    if maskX % 2 == 1 {
      OffsetIsSum(x / 2, y, maskX / 2, maskY / 2, n - 1);
      HalvesOf(Offset(x, y, maskX, maskY), x % 2, Offset(x / 2, y, maskX / 2, maskY / 2));
    } else {
      OffsetIsSum(x, y / 2, maskX / 2, maskY / 2, n - 1);
      HalvesOf(Offset(x, y, maskX, maskY), y % 2, Offset(x, y / 2, maskX / 2, maskY / 2));
    }
  }

  /** From the offset back to the coordinates. */
  lemma {:induction false} CollectOffset(x: nat, y: nat, maskX: nat, maskY: nat, n: nat)
    requires Share(maskX, maskY, n)
    requires x < Pow2(Count(maskX)) && y < Pow2(Count(maskY))
    ensures Collect(Offset(x, y, maskX, maskY), maskX) == x
    ensures Collect(Offset(x, y, maskX, maskY), maskY) == y
  {
    if n != 0 {
      OffsetHalves(x, y, maskX, maskY, n);
      if maskX % 2 == 1 {
        CollectOffset(x / 2, y, maskX / 2, maskY / 2, n - 1);
      } else {
        CollectOffset(x, y / 2, maskX / 2, maskY / 2, n - 1);
      }
    }
  }

  lemma CollectHalves(offset: nat, mask: nat)
    ensures mask % 2 == 1 ==>
      Collect(offset, mask) % 2 == offset % 2 && Collect(offset, mask) / 2 == Collect(offset / 2, mask / 2)
    ensures mask % 2 == 0 ==> Collect(offset, mask) == Collect(offset / 2, mask / 2)
    ensures Count(mask) == mask % 2 + Count(mask / 2)
  {
    if mask % 2 == 1 {
      HalvesOf(Collect(offset, mask), offset % 2, Collect(offset / 2, mask / 2));
    }
  }

  /** From coordinates gathered out of an offset back to the offset. */
  lemma {:induction false} OffsetCollect(offset: nat, maskX: nat, maskY: nat, n: nat)
    requires Share(maskX, maskY, n) && offset < Pow2(n)
    ensures Offset(Collect(offset, maskX), Collect(offset, maskY), maskX, maskY) == offset
    ensures Collect(offset, maskX) < Pow2(Count(maskX)) && Collect(offset, maskY) < Pow2(Count(maskY))
  {
    CollectBelow(offset, maskX);
    CollectBelow(offset, maskY);
    if n != 0 {
      OffsetCollect(offset / 2, maskX / 2, maskY / 2, n - 1);
      OneMoreSlot(offset, maskX, maskY, n);
    }
  }

  lemma {:induction false} CollectBelow(offset: nat, mask: nat)
    ensures Collect(offset, mask) < Pow2(Count(mask))
  {
    if mask != 0 {
      CollectBelow(offset / 2, mask / 2);
      CollectHalves(offset, mask);
    }
  }

  lemma OneMoreSlot(offset: nat, maskX: nat, maskY: nat, n: nat)
    requires n > 0 && Share(maskX, maskY, n)
    requires Offset(Collect(offset / 2, maskX / 2), Collect(offset / 2, maskY / 2), maskX / 2, maskY / 2) == offset / 2
    ensures Offset(Collect(offset, maskX), Collect(offset, maskY), maskX, maskY) == offset
  {
    var x, y := Collect(offset, maskX), Collect(offset, maskY);
    CollectHalves(offset, maskX);
    CollectHalves(offset, maskY);
    OffsetHalves(x, y, maskX, maskY, n);
    SameHalves(Offset(x, y, maskX, maskY), offset);
  }

  // ------------------------------------------- the masks of one surface size

  /** The x mask of a surface with a bits of x and b bits of y: the axes take
      slots in turn, x first, and the longer axis keeps the high slots. */
  function MaskX(a: nat, b: nat): nat {
    if a == 0 then 0 else if b == 0 then Pow2(a) - 1 else 1 + 4 * MaskX(a - 1, b - 1)
  }

  function MaskY(a: nat, b: nat): nat {
    if b == 0 then 0 else if a == 0 then Pow2(b) - 1 else 2 + 4 * MaskY(a - 1, b - 1)
  }

  lemma {:induction false} FullMask(n: nat)
    ensures Share(Pow2(n) - 1, 0, n) && Share(0, Pow2(n) - 1, n)
    ensures Count(Pow2(n) - 1) == n
  {
    if n != 0 {
      FullMask(n - 1);
      assert (Pow2(n) - 1) / 2 == Pow2(n - 1) - 1;
    }
  }

  /** Two more slots, one for each. */
  lemma ShareRound(maskX: nat, maskY: nat, x: nat, y: nat, n: nat)
    requires maskX == 1 + 4 * x && maskY == 2 + 4 * y && n >= 2 && Share(x, y, n - 2)
    ensures Share(maskX, maskY, n)
    ensures Count(maskX) == 1 + Count(x) && Count(maskY) == 1 + Count(y)
  {
    HalvesOf(maskX, 1, 2 * x);
    HalvesOf(2 * x, 0, x);
    HalvesOf(maskY, 0, 1 + 2 * y);
    HalvesOf(1 + 2 * y, 1, y);
    assert Share(2 * x, 1 + 2 * y, n - 1);
    assert Count(2 * x) == Count(x) && Count(1 + 2 * y) == 1 + Count(y);
  }

  lemma {:induction false} MasksShare(a: nat, b: nat)
    ensures Share(MaskX(a, b), MaskY(a, b), a + b)
    ensures Count(MaskX(a, b)) == a && Count(MaskY(a, b)) == b
  {
    if a == 0 {
      FullMask(b);
    } else if b == 0 {
      FullMask(a);
    } else {
      MasksShare(a - 1, b - 1);
      ShareRound(MaskX(a, b), MaskY(a, b), MaskX(a - 1, b - 1), MaskY(a - 1, b - 1), a + b);
    }
  }

  function Min(i: nat, j: nat): nat { if i < j then i else j }

  lemma {:induction false} SpreadFull(v: nat, n: nat, i: nat)
    requires i < n
    ensures BitAt(Spread(v, Pow2(n) - 1), i) == BitAt(v, i)
  {
    var mask, half := Pow2(n) - 1, Pow2(n - 1) - 1;
    SpreadHalves(v, mask);
    HalvesOf(mask, 1, half);
    HalvesOf(Spread(v, mask), v % 2, Spread(v / 2, half));
    if i != 0 { SpreadFull(v / 2, n - 1, i - 1); }
  }

  /** One round of the interleave uses up two slots: x takes the first ... */
  lemma SpreadFirst(x: nat, mask: nat, p: nat)
    requires mask == 1 + 4 * p
    ensures Spread(x, mask) == x % 2 + 4 * Spread(x / 2, p)
  {
    SpreadHalves(x, mask);
    HalvesOf(mask, 1, 2 * p);
    SpreadHalves(x / 2, 2 * p);
    HalvesOf(2 * p, 0, p);
  }

  /** ... and y the second. */
  lemma SpreadSecond(y: nat, mask: nat, q: nat)
    requires mask == 2 + 4 * q
    ensures Spread(y, mask) == 2 * (y % 2) + 4 * Spread(y / 2, q)
  {
    SpreadHalves(y, mask);
    HalvesOf(mask, 0, 1 + 2 * q);
    SpreadHalves(y, 1 + 2 * q);
    HalvesOf(1 + 2 * q, 1, q);
  }

  /** The bits of two low ones and the rest. */
  lemma LowBits(v: nat, first: nat, second: nat, w: nat)
    requires first < 2 && second < 2 && v == first + 2 * second + 4 * w
    ensures BitAt(v, 0) <==> first == 1
    ensures BitAt(v, 1) <==> second == 1
    ensures forall n: nat :: n >= 2 ==> BitAt(v, n) == BitAt(w, n - 2)
  {
    HalvesOf(v, first, second + 2 * w);
    HalvesOf(v / 2, second, w);
    assert Shr(v, 1) == Shr(v / 2, 0);
    forall n: nat | n >= 2 ensures BitAt(v, n) == BitAt(w, n - 2) {
      assert Shr(v, n) == Shr(v / 2, n - 1) == Shr(v / 2 / 2, n - 2);
    }
  }

  /** The stated order of the format: bits of x and y alternate while both last,
      x first, then the longer axis goes on alone. */
  lemma {:induction false} MortonPlacesX(x: nat, a: nat, b: nat, i: nat)
    requires i < a
    ensures BitAt(Spread(x, MaskX(a, b)), i + Min(i, b)) == BitAt(x, i)
  {
    if b == 0 {
      SpreadFull(x, a, i);
    } else {
      var v, w := Spread(x, MaskX(a, b)), Spread(x / 2, MaskX(a - 1, b - 1));
      SpreadFirst(x, MaskX(a, b), MaskX(a - 1, b - 1));
      LowBits(v, x % 2, 0, w);
      if i != 0 {
        MortonPlacesX(x / 2, a - 1, b - 1, i - 1);
        assert i + Min(i, b) - 2 == i - 1 + Min(i - 1, b - 1);
      }
    }
  }

  lemma {:induction false} MortonPlacesY(y: nat, a: nat, b: nat, i: nat)
    requires i < b
    ensures BitAt(Spread(y, MaskY(a, b)), Min(i + 1, a) + i) == BitAt(y, i)
  {
    if a == 0 {
      SpreadFull(y, b, i);
    } else {
      var v, w := Spread(y, MaskY(a, b)), Spread(y / 2, MaskY(a - 1, b - 1));
      SpreadSecond(y, MaskY(a, b), MaskY(a - 1, b - 1));
      LowBits(v, 0, y % 2, w);
      if i != 0 {
        MortonPlacesY(y / 2, a - 1, b - 1, i - 1);
        assert Min(i + 1, a) + i - 2 == Min(i, a - 1) + (i - 1);
      }
    }
  }
}
