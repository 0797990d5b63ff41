/**
 What swizzling means for the bytes of a texture, in the bits of the coordinates: the
 bits of x and y alternate in an offset while both last, x first, and the longer axis
 goes on alone.
 */
module MortonLayout {
  import opened MachineWords
  import opened Bits
  import opened Morton
  import opened Unswizzle
  import Arith

  /** Where bit i of x lies in an offset, for y of b bits; and bit i of y, for x of a bits. */
  function PlaceX(i: nat, b: nat): nat { if i < b then 2 * i else i + b }
  function PlaceY(i: nat, a: nat): nat { if i < a then 2 * i + 1 else i + a }

  predicate BitOfX(o: nat, x: nat, b: nat, i: nat) { BitAt(o, PlaceX(i, b)) <==> BitAt(x, i) }
  predicate BitOfY(o: nat, y: nat, a: nat, i: nat) { BitAt(o, PlaceY(i, a)) <==> BitAt(y, i) }

  /** o has a + b bits: those of x and those of y, at their places. */
  ghost predicate Interleaves(o: nat, x: nat, y: nat, a: nat, b: nat) {
    && o < Pow2(a + b)
    && (forall i: nat :: i < a ==> BitOfX(o, x, b, i)) && (forall i: nat :: i < b ==> BitOfY(o, y, a, i))
  }

  /** Every place belongs to a bit of x or to one of y. */
  lemma PlacesFill(m: nat, a: nat, b: nat)
    requires m < a + b
    ensures exists i: nat :: (i < a && PlaceX(i, b) == m) || (i < b && PlaceY(i, a) == m)
  {
    var least := if a < b then a else b;
    if m < 2 * least {
      assert if m % 2 == 0 then PlaceX(m / 2, b) == m && m / 2 < a else PlaceY(m / 2, a) == m && m / 2 < b;
    } else if b <= a {
      assert PlaceX(m - b, b) == m;
    } else {
      assert PlaceY(m - a, a) == m;
    }
  }

  /** There is one such number at most. */
  lemma OneInterleaving(o: nat, p: nat, x: nat, y: nat, a: nat, b: nat)
    requires Interleaves(o, x, y, a, b) && Interleaves(p, x, y, a, b)
    ensures o == p
  {
    forall m: nat | m < a + b ensures BitAt(o, m) <==> BitAt(p, m) {
      PlacesFill(m, a, b);
      var i: nat :| (i < a && PlaceX(i, b) == m) || (i < b && PlaceY(i, a) == m);
      if i < a && PlaceX(i, b) == m {
        assert BitOfX(o, x, b, i) && BitOfX(p, x, b, i);
      } else {
        assert BitOfY(o, y, a, i) && BitOfY(p, y, a, i);
      }
    }
    BitsTell(o, p, a + b);
  }

  lemma {:induction false} AllOnes(n: nat, i: nat)
    requires i < n
    ensures BitAt(Pow2(n) - 1, i)
  {
    assert (Pow2(n) - 1) / 2 == Pow2(n - 1) - 1 && (Pow2(n) - 1) % 2 == 1;
    if i > 0 { AllOnes(n - 1, i - 1); }
  }

  /** Where x has its bits, y has none, and the other way round. */
  lemma PlacesApart(x: nat, y: nat, a: nat, b: nat, i: nat)
    ensures i < a ==> !BitAt(Spread(y, MaskY(a, b)), PlaceX(i, b))
    ensures i < b ==> !BitAt(Spread(x, MaskX(a, b)), PlaceY(i, a))
  {
    MasksShare(a, b);
    if i < a {
      var ones := Pow2(a) - 1;
      AllOnes(a, i);
      MortonPlacesX(ones, a, b, i);
      OffsetIsSum(ones, y, MaskX(a, b), MaskY(a, b), a + b);
      AndBits(Spread(ones, MaskX(a, b)), Spread(y, MaskY(a, b)), PlaceX(i, b));
      NoBits(PlaceX(i, b));
    }
    if i < b {
      var ones := Pow2(b) - 1;
      AllOnes(b, i);
      MortonPlacesY(ones, a, b, i);
      OffsetIsSum(x, ones, MaskX(a, b), MaskY(a, b), a + b);
      AndBits(Spread(x, MaskX(a, b)), Spread(ones, MaskY(a, b)), PlaceY(i, a));
      NoBits(PlaceY(i, a));
    }
  }

  /** The offset of a texel is the one number that interleaves its coordinates. */
  lemma OffsetInterleaves(x: nat, y: nat, a: nat, b: nat)
    ensures Interleaves(Offset(x, y, MaskX(a, b), MaskY(a, b)), x, y, a, b)
  {
    var p, q := Spread(x, MaskX(a, b)), Spread(y, MaskY(a, b));
    var o := Offset(x, y, MaskX(a, b), MaskY(a, b));
    MasksShare(a, b);
    OffsetIsSum(x, y, MaskX(a, b), MaskY(a, b), a + b);
    forall i: nat | i < a ensures BitOfX(o, x, b, i) {
      MortonPlacesX(x, a, b, i);
      PlacesApart(x, y, a, b, i);
      OrBits(p, q, PlaceX(i, b));
    }
    forall i: nat | i < b ensures BitOfY(o, y, a, i) {
      MortonPlacesY(y, a, b, i);
      PlacesApart(x, y, a, b, i);
      OrBits(p, q, PlaceY(i, a));
    }
  }

  // ------------------------------------------------- the bytes of the surface

  lemma {:induction false} GridRowSize(f: (nat, nat) -> seq<byte>, y: nat, x: nat, size: nat)
    requires forall i: nat :: i < x ==> |f(i, y)| == size
    ensures |GridRow(f, y, x)| == x * size
  {
    if x != 0 {
      GridRowSize(f, y, x - 1, size);
      Arith.OneMore(x - 1, size);
    }
  }

  lemma {:induction false} InGridRow(f: (nat, nat) -> seq<byte>, y: nat, w: nat, size: nat, x: nat, k: nat)
    requires forall i: nat :: i < w ==> |f(i, y)| == size
    requires x < w && k < size
    ensures x * size + k < |GridRow(f, y, w)| && GridRow(f, y, w)[x * size + k] == f(x, y)[k]
  {
    GridRowSize(f, y, w - 1, size);
    Arith.OneMore(w - 1, size);
    if x < w - 1 {
      InGridRow(f, y, w - 1, size, x, k);
    }
  }

  lemma {:induction false} GridSize(f: (nat, nat) -> seq<byte>, w: nat, h: nat, size: nat, row: nat)
    requires forall i: nat, j: nat :: i < w && j < h ==> |f(i, j)| == size
    requires row == w * size
    ensures |Grid(f, w, h)| == h * row
  {
    if h != 0 {
      GridSize(f, w, h - 1, size, row);
      GridRowSize(f, h - 1, w, size);
      Arith.OneMore(h - 1, row);
    }
  }

  /** Byte k of a cell lies so far within its row, and that many rows down. */
  lemma {:induction false} InGrid(f: (nat, nat) -> seq<byte>, w: nat, h: nat, size: nat, row: nat, x: nat, y: nat, k: nat,
                                  within: nat, at: nat)
    requires forall i: nat, j: nat :: i < w && j < h ==> |f(i, j)| == size
    requires x < w && y < h && k < size && row == w * size && within == x * size + k && at == y * row + within
    ensures at < |Grid(f, w, h)| && Grid(f, w, h)[at] == f(x, y)[k]
  {
    GridSize(f, w, h - 1, size, row);
    if y < h - 1 {
      InGrid(f, w, h - 1, size, row, x, y, k, within, at);
    } else {
      InGridRow(f, y, w, size, x, k);
    }
  }

  lemma CellsSized(source: seq<byte>, shape: Shape)
    requires Holds(source, shape)
    ensures forall i: nat, j: nat :: i < shape.Width() && j < shape.Height() ==> |MortonCell(source, shape)(i, j)| == shape.bytes
  {
  }

  lemma CellBytes(source: seq<byte>, shape: Shape, x: nat, y: nat, k: nat, o: nat, from: nat)
    requires Holds(source, shape) && x < shape.Width() && y < shape.Height() && k < shape.bytes
    requires Interleaves(o, x, y, shape.a, shape.b) && from == o * shape.bytes + k
    ensures from < |source| && |MortonCell(source, shape)(x, y)| == shape.bytes
    ensures MortonCell(source, shape)(x, y)[k] == source[from]
  {
    OffsetInterleaves(x, y, shape.a, shape.b);
    OneInterleaving(o, shape.At(x, y), x, y, shape.a, shape.b);
    SourceFits(source, shape, x, y, o * shape.bytes);
  }

  /** Where byte k of a cell lies in the surface in rows. */
  lemma InRowMajor(source: seq<byte>, shape: Shape, x: nat, y: nat, k: nat, row: nat, within: nat, to: nat)
    requires Holds(source, shape) && x < shape.Width() && y < shape.Height() && k < shape.bytes
    requires row == shape.Width() * shape.bytes && within == x * shape.bytes + k && to == y * row + within
    ensures |MortonCell(source, shape)(x, y)| == shape.bytes
    ensures to < |RowMajor(source, shape)| && RowMajor(source, shape)[to] == MortonCell(source, shape)(x, y)[k]
  {
    var f, w, h := MortonCell(source, shape), shape.Width(), shape.Height();
    CellsSized(source, shape);
    InGrid(f, w, h, shape.bytes, row, x, y, k, within, to);
  }

  /** Byte k of the texel at (x, y) of the surface in rows is byte k of the texel at the
      offset that interleaves x and y. */
  lemma RowMajorBytes(source: seq<byte>, shape: Shape, x: nat, y: nat, k: nat, o: nat, row: nat, from: nat,
                      within: nat, to: nat)
    requires Holds(source, shape) && x < Pow2(shape.a) && y < Pow2(shape.b) && k < shape.bytes
    requires Interleaves(o, x, y, shape.a, shape.b) && from == o * shape.bytes + k
    requires row == Pow2(shape.a) * shape.bytes && within == x * shape.bytes + k && to == y * row + within
    ensures from < |source| && to < |RowMajor(source, shape)| && RowMajor(source, shape)[to] == source[from]
  {
    CellBytes(source, shape, x, y, k, o, from);
    InRowMajor(source, shape, x, y, k, row, within, to);
  }

  /** Every texel has such an offset. */
  lemma HasInterleaving(x: nat, y: nat, a: nat, b: nat)
    ensures exists o: nat :: Interleaves(o, x, y, a, b)
  {
    OffsetInterleaves(x, y, a, b);
  }
}
