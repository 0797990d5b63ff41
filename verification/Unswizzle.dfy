/**
 recomp_d3d_texture_unswizzle: the copy from Morton order to rows, texel by
 texel, and the proof that it visits every source texel exactly once and undoes
 swizzling.
 */
module Unswizzle {
  import opened MachineWords
  import opened Bits
  import opened Morton
  import opened Swizzle
  import Arith

  // ------------------------------------------------------ the texel mapping

  /** Within a surface of 2^a by 2^b texels, coordinates and Morton offsets
      determine each other. */
  lemma MortonBijection(a: nat, b: nat, x: nat, y: nat, offset: nat)
    ensures x < Pow2(a) && y < Pow2(b) ==>
      var o := Offset(x, y, MaskX(a, b), MaskY(a, b));
      o < Pow2(a + b) && Collect(o, MaskX(a, b)) == x && Collect(o, MaskY(a, b)) == y
    ensures offset < Pow2(a + b) ==>
      var cx, cy := Collect(offset, MaskX(a, b)), Collect(offset, MaskY(a, b));
      cx < Pow2(a) && cy < Pow2(b) && Offset(cx, cy, MaskX(a, b), MaskY(a, b)) == offset
  {
    MasksShare(a, b);
    if x < Pow2(a) && y < Pow2(b) {
      OffsetIsSum(x, y, MaskX(a, b), MaskY(a, b), a + b);
      CollectOffset(x, y, MaskX(a, b), MaskY(a, b), a + b);
    }
    if offset < Pow2(a + b) {
      OffsetCollect(offset, MaskX(a, b), MaskY(a, b), a + b);
    }
  }

  /** The size of a surface: its axes, its texels and their bytes. */
  datatype Shape = Shape(a: nat, b: nat, bytes: nat) {
    function Width(): nat { Pow2(a) }
    function Height(): nat { Pow2(b) }
    function Texels(): nat { Pow2(a + b) }
    function At(x: nat, y: nat): nat { Offset(x, y, MaskX(a, b), MaskY(a, b)) }
    function X(offset: nat): nat { Collect(offset, MaskX(a, b)) }
    function Y(offset: nat): nat { Collect(offset, MaskY(a, b)) }
  }

  /** s holds the given number of texels. */
  predicate Holds(s: seq<byte>, shape: Shape) { |s| == shape.Texels() * shape.bytes }

  lemma {:induction false} Pow2Adds(a: nat, b: nat)
    ensures Pow2(a + b) == Pow2(a) * Pow2(b)
  {
    if a != 0 {
      Pow2Adds(a - 1, b);
      assert 2 * (Pow2(a - 1) * Pow2(b)) == (2 * Pow2(a - 1)) * Pow2(b);
    }
  }

  /** The bytes of texel i of n. */
  function Texel(s: seq<byte>, i: nat, n: nat, bytes: nat): (t: seq<byte>)
    requires i < n && |s| == n * bytes
    ensures |t| == bytes
  {
    Arith.ItemFits(i, n, bytes);
    s[i * bytes..i * bytes + bytes]
  }

  lemma CellInShape(x: nat, y: nat, shape: Shape)
    requires x < shape.Width() && y < shape.Height()
    ensures y * shape.Width() + x < shape.Texels()
  {
    Pow2Adds(shape.a, shape.b);
    Arith.CellBound(x, y, shape.Width(), shape.Height());
  }

  /** The texel at (x, y) of a surface kept in rows. */
  function RowTexel(image: seq<byte>, shape: Shape, x: nat, y: nat): (t: seq<byte>)
    requires Holds(image, shape) && x < shape.Width() && y < shape.Height()
    ensures |t| == shape.bytes
  {
    CellInShape(x, y, shape);
    Texel(image, y * shape.Width() + x, shape.Texels(), shape.bytes)
  }

  lemma SourceInShape(shape: Shape, x: nat, y: nat)
    requires x < shape.Width() && y < shape.Height()
    ensures shape.At(x, y) < shape.Texels()
  {
    MortonBijection(shape.a, shape.b, x, y, 0);
  }

  /** The texel at (x, y) of a surface kept in Morton order. */
  function MortonTexel(source: seq<byte>, shape: Shape, x: nat, y: nat): (t: seq<byte>)
    requires Holds(source, shape) && x < shape.Width() && y < shape.Height()
    ensures |t| == shape.bytes
  {
    SourceInShape(shape, x, y);
    Texel(source, shape.At(x, y), shape.Texels(), shape.bytes)
  }

  // Cells of a grid, laid out row by row.

  function GridRow(f: (nat, nat) -> seq<byte>, y: nat, x: nat): seq<byte> {
    if x == 0 then [] else GridRow(f, y, x - 1) + f(x - 1, y)
  }

  function Grid(f: (nat, nat) -> seq<byte>, w: nat, y: nat): seq<byte> {
    if y == 0 then [] else Grid(f, w, y - 1) + GridRow(f, y - 1, w)
  }

  lemma {:induction false} GridRowSame(f: (nat, nat) -> seq<byte>, g: (nat, nat) -> seq<byte>, y: nat, x: nat)
    requires forall i: nat :: i < x ==> f(i, y) == g(i, y)
    ensures GridRow(f, y, x) == GridRow(g, y, x)
  {
    if x != 0 { GridRowSame(f, g, y, x - 1); }
  }

  lemma {:induction false} GridSame(f: (nat, nat) -> seq<byte>, g: (nat, nat) -> seq<byte>, w: nat, y: nat)
    requires forall i: nat, j: nat :: i < w && j < y ==> f(i, j) == g(i, j)
    ensures Grid(f, w, y) == Grid(g, w, y)
  {
    if y != 0 {
      GridSame(f, g, w, y - 1);
      GridRowSame(f, g, y - 1, w);
    }
  }

  ghost predicate CellAt(f: (nat, nat) -> seq<byte>, s: seq<byte>, w: nat, size: nat, x: nat, y: nat) {
    var from := (y * w + x) * size;
    from + size <= |s| && f(x, y) == s[from..from + size]
  }

  /** f(x, y) is the cell at (x, y) of a sequence of cells. */
  ghost predicate CellsOf(f: (nat, nat) -> seq<byte>, s: seq<byte>, w: nat, h: nat, size: nat) {
    forall x: nat, y: nat :: x < w && y < h ==> CellAt(f, s, w, size, x, y)
  }

  lemma Extend(s: seq<byte>, front: seq<byte>, at: nat, cell: seq<byte>)
    requires at + |cell| <= |s| && front == s[..at] && cell == s[at..at + |cell|]
    ensures front + cell == s[..at + |cell|]
  {
  }

  lemma {:induction false} RowOfCells(f: (nat, nat) -> seq<byte>, s: seq<byte>, w: nat, h: nat, size: nat, y: nat, x: nat)
    requires CellsOf(f, s, w, h, size) && y < h && x <= w && (y * w) * size <= |s|
    ensures (y * w + x) * size <= |s|
    ensures s[..(y * w) * size] + GridRow(f, y, x) == s[..(y * w + x) * size]
  {
    if x != 0 {
      RowOfCells(f, s, w, h, size, y, x - 1);
      Arith.OneMore(y * w + x - 1, size);
      assert CellAt(f, s, w, size, x - 1, y);
      Extend(s, s[..(y * w) * size] + GridRow(f, y, x - 1), (y * w + x - 1) * size, f(x - 1, y));
    }
  }

  lemma {:induction false} GridOfCells(f: (nat, nat) -> seq<byte>, s: seq<byte>, w: nat, h: nat, size: nat, y: nat)
    requires CellsOf(f, s, w, h, size) && y <= h
    ensures (y * w) * size <= |s| && Grid(f, w, y) == s[..(y * w) * size]
  {
    if y != 0 {
      GridOfCells(f, s, w, h, size, y - 1);
      RowOfCells(f, s, w, h, size, y - 1, w);
      Arith.OneMore(y - 1, w);
    }
  }

  /** The whole surface in rows, fetched from Morton order. */
  function MortonCell(source: seq<byte>, shape: Shape): (nat, nat) -> seq<byte>
    requires Holds(source, shape)
  {
    (x: nat, y: nat) =>
      if Holds(source, shape) && x < shape.Width() && y < shape.Height() then MortonTexel(source, shape, x, y) else []
  }

  /** The cells of a surface that is already in rows. */
  function RowCell(image: seq<byte>, shape: Shape): (nat, nat) -> seq<byte>
    requires Holds(image, shape)
  {
    (x: nat, y: nat) =>
      if Holds(image, shape) && x < shape.Width() && y < shape.Height() then RowTexel(image, shape, x, y) else []
  }

  function RowMajor(source: seq<byte>, shape: Shape): seq<byte>
    requires Holds(source, shape)
  {
    Grid(MortonCell(source, shape), shape.Width(), shape.Height())
  }

  lemma OffsetInShape(offset: nat, shape: Shape)
    requires offset < shape.Texels()
    ensures shape.X(offset) < shape.Width() && shape.Y(offset) < shape.Height()
    ensures shape.At(shape.X(offset), shape.Y(offset)) == offset
  {
    MortonBijection(shape.a, shape.b, 0, 0, offset);
  }

  /** The texel of a surface in rows that belongs at a Morton offset. */
  function TexelFor(image: seq<byte>, shape: Shape, offset: nat): (t: seq<byte>)
    requires Holds(image, shape) && offset < shape.Texels()
    ensures |t| == shape.bytes
  {
    OffsetInShape(offset, shape);
    RowTexel(image, shape, shape.X(offset), shape.Y(offset))
  }

  /** The first n texels, in Morton order, of a surface kept in rows. */
  function SwizzledTexels(image: seq<byte>, shape: Shape, n: nat): seq<byte>
    requires Holds(image, shape) && n <= shape.Texels()
  {
    if n == 0 then [] else SwizzledTexels(image, shape, n - 1) + TexelFor(image, shape, n - 1)
  }

  function Swizzled(image: seq<byte>, shape: Shape): seq<byte>
    requires Holds(image, shape)
  {
    SwizzledTexels(image, shape, shape.Texels())
  }

  lemma {:induction false} SwizzledLength(image: seq<byte>, shape: Shape, n: nat)
    requires Holds(image, shape) && n <= shape.Texels()
    ensures |SwizzledTexels(image, shape, n)| == n * shape.bytes
  {
    if n != 0 {
      SwizzledLength(image, shape, n - 1);
      Arith.OneMore(n - 1, shape.bytes);
    }
  }

  lemma SliceOfFront(s: seq<byte>, t: seq<byte>, from: nat, size: nat)
    requires from + size <= |s|
    ensures (s + t)[from..from + size] == s[from..from + size]
  {
  }

  lemma SliceOfBack(s: seq<byte>, t: seq<byte>)
    ensures (s + t)[|s|..|s| + |t|] == t
  {
  }

  lemma TexelOfPrefix(s: seq<byte>, t: seq<byte>, i: nat, n: nat, bytes: nat)
    requires i <= n && |s| == n * bytes && |t| == bytes
    ensures |s + t| == (n + 1) * bytes
    ensures Texel(s + t, i, n + 1, bytes) == if i == n then t else Texel(s, i, n, bytes)
  {
    Arith.OneMore(n, bytes);
    if i < n {
      Arith.ItemFits(i, n, bytes);
      SliceOfFront(s, t, i * bytes, bytes);
    } else {
      SliceOfBack(s, t);
    }
  }

  lemma {:induction false} SwizzledTexelAt(image: seq<byte>, shape: Shape, n: nat, i: nat)
    requires Holds(image, shape) && i < n <= shape.Texels()
    requires |SwizzledTexels(image, shape, n)| == n * shape.bytes
    ensures Texel(SwizzledTexels(image, shape, n), i, n, shape.bytes) == TexelFor(image, shape, i)
  {
    SwizzledLength(image, shape, n - 1);
    TexelOfPrefix(SwizzledTexels(image, shape, n - 1), TexelFor(image, shape, n - 1), i, n - 1, shape.bytes);
    if i < n - 1 {
      SwizzledTexelAt(image, shape, n - 1, i);
    }
  }

  /** A Morton texel of the swizzled surface is the row texel of the surface. */
  lemma MortonTexelOfSwizzled(image: seq<byte>, shape: Shape, x: nat, y: nat)
    requires Holds(image, shape) && x < shape.Width() && y < shape.Height()
    ensures Holds(Swizzled(image, shape), shape)
    ensures MortonTexel(Swizzled(image, shape), shape, x, y) == RowTexel(image, shape, x, y)
  {
    MortonBijection(shape.a, shape.b, x, y, 0);
    SwizzledLength(image, shape, shape.Texels());
    SwizzledTexelAt(image, shape, shape.Texels(), shape.At(x, y));
  }

  lemma RowCells(image: seq<byte>, shape: Shape)
    requires Holds(image, shape)
    ensures CellsOf(RowCell(image, shape), image, shape.Width(), shape.Height(), shape.bytes)
  {
    forall x: nat, y: nat | x < shape.Width() && y < shape.Height()
      ensures CellAt(RowCell(image, shape), image, shape.Width(), shape.bytes, x, y)
    {
      CellInShape(x, y, shape);
      Arith.ItemFits(y * shape.Width() + x, shape.Texels(), shape.bytes);
    }
  }

  lemma SwizzledCells(image: seq<byte>, shape: Shape)
    requires Holds(image, shape)
    ensures Holds(Swizzled(image, shape), shape)
    ensures RowMajor(Swizzled(image, shape), shape) == Grid(RowCell(image, shape), shape.Width(), shape.Height())
  {
    var source := Swizzled(image, shape);
    SwizzledLength(image, shape, shape.Texels());
    var f, g := MortonCell(source, shape), RowCell(image, shape);
    forall x: nat, y: nat | x < shape.Width() && y < shape.Height()
      ensures f(x, y) == g(x, y)
    {
      MortonTexelOfSwizzled(image, shape, x, y);
    }
    GridSame(f, g, shape.Width(), shape.Height());
  }

  /** The bytes of all rows together. */
  lemma SurfaceSize(shape: Shape)
    ensures (shape.Height() * shape.Width() + 0) * shape.bytes == shape.Texels() * shape.bytes
  {
    Pow2Adds(shape.a, shape.b);
    Arith.SameTimes(shape.Height() * shape.Width() + 0, shape.Texels(), shape.bytes);
  }

  lemma GridOfRows(image: seq<byte>, shape: Shape)
    requires Holds(image, shape)
    ensures Grid(RowCell(image, shape), shape.Width(), shape.Height()) == image
  {
    var w, h := shape.Width(), shape.Height();
    RowCells(image, shape);
    GridOfCells(RowCell(image, shape), image, w, h, shape.bytes, h);
    SurfaceSize(shape);
  }

  /** Unswizzling undoes swizzling. */
  lemma RowMajorOfSwizzled(image: seq<byte>, shape: Shape)
    requires Holds(image, shape)
    ensures Holds(Swizzled(image, shape), shape)
    ensures RowMajor(Swizzled(image, shape), shape) == image
  {
    SwizzledCells(image, shape);
    GridOfRows(image, shape);
  }

  // ---------------------------------------------------------------- the copy

  /** A piece put over what was there. */
  function Replaced(s: seq<byte>, at: nat, piece: seq<byte>): seq<byte>
    requires at + |piece| <= |s|
  {
    s[..at] + piece + s[at + |piece|..]
  }

  /** Byte j of a sequence that a piece is being put over, k bytes of it so far. */
  predicate PutSoFar(now: seq<byte>, was: seq<byte>, at: nat, source: seq<byte>, from: nat, k: nat, j: nat)
    requires j < |now| == |was| && from + k <= |source|
  {
    now[j] == if at <= j < at + k then source[from + (j - at)] else was[j]
  }

  predicate Put(now: seq<byte>, was: seq<byte>, at: nat, source: seq<byte>, from: nat, k: nat) {
    && |now| == |was| && at + k <= |was| && from + k <= |source|
    && forall j: nat :: j < |now| ==> PutSoFar(now, was, at, source, from, k, j)
  }

  lemma OnePut(now: seq<byte>, was: seq<byte>, at: nat, source: seq<byte>, from: nat, k: nat)
    requires Put(now, was, at, source, from, k) && at + k < |was| && from + k < |source|
    ensures Put(now[at + k := source[from + k]], was, at, source, from, k + 1)
  {
    var now', more := now[at + k := source[from + k]], k + 1;
    forall j: nat | j < |now'| ensures PutSoFar(now', was, at, source, from, more, j) {
      assert PutSoFar(now, was, at, source, from, k, j);
    }
  }

  lemma AllPut(now: seq<byte>, was: seq<byte>, at: nat, source: seq<byte>, from: nat, k: nat)
    requires Put(now, was, at, source, from, k)
    ensures now == Replaced(was, at, source[from..from + k])
  {
    var r := Replaced(was, at, source[from..from + k]);
    forall j: nat | j < |now| ensures now[j] == r[j] { assert PutSoFar(now, was, at, source, from, k, j); }
  }

  /** Copies one texel. */
  method CopyTexel(source: seq<byte>, from: u32, destination: array<byte>, to: u32, bytes: u32)
    requires from + bytes <= |source| && to + bytes <= destination.Length
    modifies destination
    ensures destination[..] == Replaced(old(destination[..]), to, source[from..from + bytes])
  {
    ghost var was := destination[..];
    for k := 0 to bytes
      invariant Put(destination[..], was, to, source, from, k)
    {
      ghost var now := destination[..];
      destination[to + k] := source[from + k];
      assert destination[..] == now[to + k := source[from + k]];
      OnePut(now, was, to, source, from, k);
    }
    AllPut(destination[..], was, to, source, from, bytes);
  }

  /** Row y up to texel x is in place, as far as byte `to`; the rest is as it was. */
  ghost predicate CopiedTo(now: seq<byte>, before: seq<byte>, f: (nat, nat) -> seq<byte>, width: nat, y: nat, x: nat, to: nat) {
    && |now| == |before| && to <= |now|
    && now[..to] == Grid(f, width, y) + GridRow(f, y, x) && now[to..] == before[to..]
  }

  /** The byte at which a cell of a grid begins, counted cell by cell. */
  function CellByte(width: nat, y: nat, x: nat, size: nat): nat
    decreases y, x
  {
    if x > 0 then CellByte(width, y, x - 1, size) + size else if y > 0 then CellByte(width, y - 1, width, size) else 0
  }

  lemma {:induction false} CellByteIs(width: nat, y: nat, x: nat, size: nat)
    ensures CellByte(width, y, x, size) == (y * width + x) * size
    decreases y, x
  {
    if x > 0 {
      CellByteIs(width, y, x - 1, size);
      Arith.OneMore(y * width + (x - 1), size);
    } else if y > 0 {
      CellByteIs(width, y - 1, width, size);
      Arith.OneMore(y - 1, width);
    }
  }

  lemma CopiedOn(now: seq<byte>, now': seq<byte>, before: seq<byte>, f: (nat, nat) -> seq<byte>, width: nat, y: nat, x: nat,
                 to: nat, size: nat)
    requires CopiedTo(now, before, f, width, y, x, to) && |f(x, y)| == size
    requires to + size <= |now| && now' == Replaced(now, to, f(x, y))
    ensures CopiedTo(now', before, f, width, y, x + 1, to + size)
  {
  }

  lemma CopiedRow(now: seq<byte>, before: seq<byte>, f: (nat, nat) -> seq<byte>, width: nat, y: nat, to: nat)
    requires CopiedTo(now, before, f, width, y, width, to)
    ensures CopiedTo(now, before, f, width, y + 1, 0, to)
  {
  }

  /** Where the texel at (x, y) comes from. */
  lemma SourceFits(source: seq<byte>, shape: Shape, x: nat, y: nat, from: nat)
    requires Holds(source, shape) && x < shape.Width() && y < shape.Height() && from == shape.At(x, y) * shape.bytes
    ensures from + shape.bytes <= |source|
    ensures MortonCell(source, shape)(x, y) == source[from..from + shape.bytes]
  {
    SourceInShape(shape, x, y);
    TexelAt(source, shape.At(x, y), shape.Texels(), shape.bytes, from);
    assert MortonCell(source, shape)(x, y) == MortonTexel(source, shape, x, y);
  }

  lemma TexelAt(source: seq<byte>, at: nat, texels: nat, bytes: nat, from: nat)
    requires at < texels && |source| == texels * bytes && from == at * bytes
    ensures from + bytes <= |source| && Texel(source, at, texels, bytes) == source[from..from + bytes]
  {
    Arith.ItemFits(at, texels, bytes);
  }

  /** Where it goes. */
  lemma TargetFits(shape: Shape, x: nat, y: nat, to: nat)
    requires x < shape.Width() && y < shape.Height() && to == (y * shape.Width() + x) * shape.bytes
    ensures to + shape.bytes <= shape.Texels() * shape.bytes
  {
    CellInShape(x, y, shape);
    Arith.ItemFits(y * shape.Width() + x, shape.Texels(), shape.bytes);
  }

  /** The position a texel is read from. */
  method SourceTexel(x: u32, y: u32, maskX: u32, row: u32, ghost shape: Shape) returns (at: u32)
    requires maskX == MaskX(shape.a, shape.b) && row == Spread(y, MaskY(shape.a, shape.b))
    ensures at == shape.At(x, y)
  {
    var sx := SpreadBits(x, maskX);
    at := Or32(sx, row);
  }

  lemma TimesLess(i: nat, size: nat, bound: nat)
    requires size > 0 && i * size + size <= bound
    ensures i < bound && i * size < bound
  {
    Arith.TimesAtLeast(i, size);
  }

  method CopyOne(source: seq<byte>, destination: array<byte>, at: u32, target: u32, bytes: u32,
                 ghost from: nat, ghost to: nat)
    requires bytes > 0 && from == at * bytes && to == target * bytes
    requires from + bytes <= |source| <= TWO32 && to + bytes <= destination.Length && to + bytes <= TWO32
    modifies destination
    ensures destination[..] == Replaced(old(destination[..]), to, source[from..from + bytes])
  {
    CopyTexel(source, at * bytes, destination, target * bytes, bytes);
  }

  /** Where the bytes of a texel come from and go to. */
  lemma TexelBytes(at: nat, target: nat, texels: nat, bytes: nat) returns (from: nat, to: nat)
    requires at < texels && target < texels
    ensures from == at * bytes && to == target * bytes
    ensures from + bytes <= texels * bytes && to + bytes <= texels * bytes
  {
    from, to := at * bytes, target * bytes;
    Arith.ItemFits(at, texels, bytes);
    Arith.ItemFits(target, texels, bytes);
  }

  /** Where a texel comes from, and where it goes. */
  lemma TexelPlaces(source: seq<byte>, shape: Shape, at: nat, target: nat, x: nat, y: nat, to: nat) returns (from: nat)
    requires Holds(source, shape) && x < shape.Width() && y < shape.Height()
    requires at == shape.At(x, y) && target == y * shape.Width() + x && to == CellByte(shape.Width(), y, x, shape.bytes)
    ensures from == at * shape.bytes && to == target * shape.bytes
    ensures from + shape.bytes <= |source| && to + shape.bytes <= |source|
    ensures MortonCell(source, shape)(x, y) == source[from..from + shape.bytes]
  {
    SourceInShape(shape, x, y);
    CellInShape(x, y, shape);
    var there;
    from, there := TexelBytes(at, target, shape.Texels(), shape.bytes);
    CellByteIs(shape.Width(), y, x, shape.bytes);
    SourceFits(source, shape, x, y, from);
  }

  /** One texel more. */
  method CopyNext(source: seq<byte>, destination: array<byte>, at: u32, target: u32, bytes: u32,
                  ghost f: (nat, nat) -> seq<byte>, ghost before: seq<byte>, ghost width: nat, ghost x: nat, ghost y: nat,
                  ghost from: nat, ghost to: nat)
    requires bytes > 0 && from == at * bytes && to == target * bytes
    requires from + bytes <= |source| <= TWO32 && to + bytes <= |source| <= destination.Length
    requires f(x, y) == source[from..from + bytes] && CopiedTo(destination[..], before, f, width, y, x, to)
    modifies destination
    ensures CopiedTo(destination[..], before, f, width, y, x + 1, to + bytes)
  {
    ghost var now := destination[..];
    CopyOne(source, destination, at, target, bytes, from, to);
    CopiedOn(now, destination[..], before, f, width, y, x, to, bytes);
  }

  /** The position a texel is written to. */
  method TargetTexel(x: u32, y: u32, width: u32, ghost shape: Shape, ghost size: nat) returns (target: u32)
    requires x < width == shape.Width() && y < shape.Height() && shape.bytes > 0
    requires size == shape.Texels() * shape.bytes <= TWO32
    ensures target == y * shape.Width() + x
  {
    ghost var cell := y * shape.Width() + x;
    TargetFits(shape, x, y, cell * shape.bytes);
    TimesLess(cell, shape.bytes, TWO32);
    target := y * width + x;
  }

  /** One turn of the inner loop. */
  method CopyTurn(source: seq<byte>, destination: array<byte>, maskX: u32, row: u32, width: u32, x: u32, y: u32,
                  bytes: u32, ghost shape: Shape, ghost before: seq<byte>, ghost to: nat)
    requires Holds(source, shape) && |source| <= TWO32 && |source| <= destination.Length
    requires x < width == shape.Width() && y < shape.Height() && bytes == shape.bytes > 0
    requires maskX == MaskX(shape.a, shape.b) && row == Spread(y, MaskY(shape.a, shape.b))
    requires CopiedTo(destination[..], before, MortonCell(source, shape), width, y, x, to) && to == CellByte(width, y, x, bytes)
    modifies destination
    ensures CopiedTo(destination[..], before, MortonCell(source, shape), width, y, x + 1, to + bytes)
  {
    var at := SourceTexel(x, y, maskX, row, shape);
    var target := TargetTexel(x, y, width, shape, |source|);
    ghost var from := TexelPlaces(source, shape, at, target, x, y, to);
    CopyNext(source, destination, at, target, bytes, MortonCell(source, shape), before, width, x, y, from, to);
  }

  method CopyRow(source: seq<byte>, destination: array<byte>, maskX: u32, maskY: u32, width: u32, y: u32, bytes: u32,
                 ghost shape: Shape, ghost before: seq<byte>)
    requires Holds(source, shape) && |source| <= TWO32 && |source| <= destination.Length
    requires width == shape.Width() && y < shape.Height() && bytes == shape.bytes > 0
    requires maskX == MaskX(shape.a, shape.b) && maskY == MaskY(shape.a, shape.b)
    requires CopiedTo(destination[..], before, MortonCell(source, shape), width, y, 0, CellByte(width, y, 0, bytes))
    modifies destination
    ensures CopiedTo(destination[..], before, MortonCell(source, shape), width, y + 1, 0, CellByte(width, y + 1, 0, bytes))
  {
    var row := SpreadBits(y, maskY);
    ghost var to: nat := CellByte(width, y, 0, bytes);
    for x := 0 to width
      invariant CopiedTo(destination[..], before, MortonCell(source, shape), width, y, x, to)
      invariant to == CellByte(width, y, x, bytes)
    {
      CopyTurn(source, destination, maskX, row, width, x, y, bytes, shape, before, to);
      to := to + bytes;
    }
    CopiedRow(destination[..], before, MortonCell(source, shape), width, y, to);
  }

  method CopyRows(source: seq<byte>, destination: array<byte>, width: u32, height: u32, bytes: u32, ghost shape: Shape)
    requires Holds(source, shape) && |source| <= TWO32 && |source| <= destination.Length
    requires width == shape.Width() && height == shape.Height() && bytes == shape.bytes > 0
    requires CeilLog(width) == shape.a && CeilLog(height) == shape.b
    modifies destination
    ensures destination[..] == RowMajor(source, shape) + old(destination[|source|..])
  {
    ShapeBits(shape, |source|);
    var maskX, maskY := FullMasks(width, height, shape.a, shape.b);
    ghost var before := destination[..];
    for y := 0 to height
      invariant CopiedTo(destination[..], before, MortonCell(source, shape), width, y, 0, CellByte(width, y, 0, bytes))
    {
      CopyRow(source, destination, maskX, maskY, width, y, bytes, shape, before);
    }
    WholeCopied(destination[..], before, source, shape);
  }

  lemma WholeCopied(now: seq<byte>, before: seq<byte>, source: seq<byte>, shape: Shape)
    requires Holds(source, shape) && |source| <= |before|
    requires CopiedTo(now, before, MortonCell(source, shape), shape.Width(), shape.Height(), 0,
                      CellByte(shape.Width(), shape.Height(), 0, shape.bytes))
    ensures now == RowMajor(source, shape) + before[|source|..]
  {
    SurfaceSize(shape);
    CellByteIs(shape.Width(), shape.Height(), 0, shape.bytes);
    Rejoin(now, before, |source|, RowMajor(source, shape));
  }

  lemma Rejoin(now: seq<byte>, before: seq<byte>, to: nat, front: seq<byte>)
    requires |now| == |before| && to <= |now| && now[..to] == front + [] && now[to..] == before[to..]
    ensures now == front + before[to..]
  {
    assert now == now[..to] + now[to..];
  }

  /** Surfaces that fit 32-bit sizes. */
  lemma ShapeBits(shape: Shape, size: nat)
    requires size == shape.Texels() * shape.bytes <= TWO32 && shape.bytes > 0
    requires shape.Width() < TWO32 && shape.Height() < TWO32
    ensures shape.a <= 31 && shape.b <= 31 && shape.a + shape.b <= 32
  {
    Arith.TimesAtLeast(shape.Texels(), shape.bytes);
    BitsBelow(shape.a, 31);
    BitsBelow(shape.b, 31);
    BitsBelow(shape.a + shape.b, 32);
  }

  /** The texture upload's conversion: exactly the supported sizes succeed, and
      then the destination is the surface in rows. */
  method UnswizzleSurface(source: seq<byte>, destination: array<byte>, width: u32, height: u32, bytes: u32)
    returns (ok: bool)
    requires |source| == width * height * bytes <= TWO32 && |source| <= destination.Length
    modifies destination
    ensures ok <==> 1 <= bytes <= 4 && width == Pow2(CeilLog(width)) && height == Pow2(CeilLog(height))
    ensures !ok ==> destination[..] == old(destination[..])
    ensures ok ==> var shape := Shape(CeilLog(width), CeilLog(height), bytes);
      Holds(source, shape) && destination[..] == RowMajor(source, shape) + old(destination[|source|..])
  {
    PowerOfTwoTest(width);
    PowerOfTwoTest(height);
    if bytes == 0 || bytes > 4 || !IsPowerOfTwo(width) || !IsPowerOfTwo(height) {
      return false;
    }
    ghost var shape := Shape(CeilLog(width), CeilLog(height), bytes);
    Pow2Adds(shape.a, shape.b);
    CopyRows(source, destination, width, height, bytes, shape);
    return true;
  }
}
