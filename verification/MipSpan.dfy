/**
 Block-compressed mip chains: the size computed by
 recomp_d3d_texture_compressed_mip_span (recomp-runtime/d3d_texture_model.c) and
 the level placement of the uploader (recomp-runtime/d3d_presenter_d3d11.cpp).
 The two walk the chain differently, one shifting and one halving, in 64 and in
 32 bits; they agree level by level.
 */
module MipSpan {
  import opened MachineWords
  import Arith
  import opened Bits

  const DXT1: u32 := 0x0c
  const DXT3: u32 := 0x0e
  const DXT5: u32 := 0x0f

  datatype Desc = Desc(format: u32, width: u32, height: u32, mipLevels: u32)

  /** Bytes of a 4 by 4 block; 0 for formats that are not block-compressed. */
  function BlockBytes(format: u32): nat {
    if format == DXT1 then 8 else if format == DXT3 || format == DXT5 then 16 else 0
  }

  /** The size of one axis at level k: halved k times, but never zero. */
  function LevelDim(size: nat, k: nat): (d: nat)
    ensures d >= 1
  {
    if Shr(size, k) == 0 then 1 else Shr(size, k)
  }

  /** Blocks covering d texels. */
  function BlocksOf(d: nat): nat { (d + 3) / 4 }

  /** As few blocks of four as cover them. */
  lemma BlocksCover(d: nat)
    requires d >= 1
    ensures 4 * (BlocksOf(d) - 1) < d <= 4 * BlocksOf(d)
  {
  }

  /** A block has sixteen texels, of half a byte each in DXT1 and of one in DXT3 and DXT5. */
  lemma BlockSizes(format: u32)
    ensures format == 0x0c ==> 2 * BlockBytes(format) == 16
    ensures format == 0x0e || format == 0x0f ==> BlockBytes(format) == 16
    ensures format !in {0x0c, 0x0e, 0x0f} ==> BlockBytes(format) == 0
  {
  }

  function LevelBytes(desc: Desc, k: nat): nat {
    BlocksOf(LevelDim(desc.width, k)) * BlocksOf(LevelDim(desc.height, k)) * BlockBytes(desc.format)
  }

  /** Bytes of the first n levels. */
  function ChainBytes(desc: Desc, n: nat): nat {
    if n == 0 then 0 else ChainBytes(desc, n - 1) + LevelBytes(desc, n - 1)
  }

  function Levels(desc: Desc): nat { if desc.mipLevels == 0 then 1 else desc.mipLevels }

  function Larger(a: nat, b: nat): nat { if a > b then a else b }

  /** The chains the size function accepts: power-of-two axes, a compressed
      format, no more levels than halvings down to one texel, and 32-bit size. */
  predicate Acceptable(desc: Desc) {
    && IsPowerOfTwo(desc.width) && IsPowerOfTwo(desc.height)
    && BlockBytes(desc.format) != 0
    && Levels(desc) <= CeilLog(Larger(desc.width, desc.height)) + 1
    && ChainBytes(desc, Levels(desc)) < TWO32
  }

  /** A chain is accepted exactly if both axes are powers of two, the format is one of
      the three, one of the axes can be halved often enough, and the size is a word. */
  lemma AcceptableMeans(desc: Desc, a: nat, b: nat, levels: nat)
    requires levels == if desc.mipLevels == 0 then 1 else desc.mipLevels
    ensures Acceptable(desc) ==> desc.width == Pow2(CeilLog(desc.width)) && desc.height == Pow2(CeilLog(desc.height))
    ensures desc.width == Pow2(a) && desc.height == Pow2(b) ==>
      (Acceptable(desc) <==> desc.format in {0x0c, 0x0e, 0x0f} && (levels <= a + 1 || levels <= b + 1)
                             && ChainBytes(desc, levels) < TWO32)
  {
    PowerOfTwoTest(desc.width);
    PowerOfTwoTest(desc.height);
    if desc.width == Pow2(a) && desc.height == Pow2(b) { LargerLog(desc.width, desc.height, a, b); }
  }

  lemma LargerLog(width: nat, height: nat, a: nat, b: nat)
    requires width == Pow2(a) && height == Pow2(b)
    ensures CeilLog(width) == a && CeilLog(height) == b && CeilLog(Larger(width, height)) == if a > b then a else b
  {
    LogOfPower(a);
    LogOfPower(b);
    if width <= height { LogsOrder(width, height); } else { LogsOrder(height, width); }
  }

  lemma {:induction false} LogsOrder(m: nat, n: nat)
    requires m <= n
    ensures CeilLog(m) <= CeilLog(n)
  {
    if m > 1 { LogsOrder((m + 1) / 2, (n + 1) / 2); }
  }

  /** Level k of an axis of 2^a texels has 2^(a - k) of them, and one from level a on. */
  lemma {:induction false} LevelOfPower(a: nat, k: nat)
    ensures LevelDim(Pow2(a), k) == if k <= a then Pow2(a - k) else 1
  {
    if k > 0 {
      if a == 0 {
        ShrShrinks(0, k - 1);
      } else {
        assert Pow2(a) / 2 == Pow2(a - 1);
        LevelOfPower(a - 1, k - 1);
      }
    }
  }

  lemma SmallPowers(n: nat)
    requires n <= 8
    ensures Pow2(n) == [1, 2, 4, 8, 16, 32, 64, 128, 256][n]
  {
    if n > 0 { SmallPowers(n - 1); }
  }

  lemma NamedLevel(desc: Desc, k: nat, bytes: nat)
    requires desc.format == DXT1 && desc.width == 128 && desc.height == 256 && k < 9
    requires bytes == [16384, 4096, 1024, 256, 64, 16, 8, 8, 8][k]
    ensures LevelBytes(desc, k) == bytes
  {
    var a, b := 7, 8;
    SmallPowers(a);
    SmallPowers(b);
    LevelOfPower(a, k);
    LevelOfPower(b, k);
    SmallPowers(b - k);
    if k < 8 { SmallPowers(a - k); }
  }

  /** The chains of the repository's own test: eight levels of a DXT1 texture of 128 by
      256 texels take 21856 bytes, and the ninth one block more. */
  lemma NamedChain(desc: Desc)
    requires desc.format == DXT1 && desc.width == 128 && desc.height == 256
    ensures ChainBytes(desc, 1) == 16384 && ChainBytes(desc, 8) == 21856 && ChainBytes(desc, 9) == 21864
  {
    var sizes := [16384, 4096, 1024, 256, 64, 16, 8, 8, 8];
    var sums := [0, 16384, 20480, 21504, 21760, 21824, 21840, 21848, 21856, 21864];
    for k := 0 to 9
      invariant ChainBytes(desc, k) == sums[k]
      invariant k >= 1 ==> ChainBytes(desc, 1) == 16384
      invariant k >= 8 ==> ChainBytes(desc, 8) == 21856
    {
      NamedLevel(desc, k, sizes[k]);
    }
  }

  lemma {:induction false} ChainGrows(desc: Desc, m: nat, n: nat)
    requires m <= n
    ensures ChainBytes(desc, m) <= ChainBytes(desc, n)
  {
    if m < n { ChainGrows(desc, m, n - 1); }
  }

  lemma {:induction false} ShrShrinks(a: nat, k: nat)
    ensures Shr(a, k) <= a
  {
    if k != 0 { ShrShrinks(a / 2, k - 1); }
  }

  /** The 64-bit sum of the size loop cannot wrap around. */
  lemma LevelFits64(desc: Desc, k: nat)
    requires desc.width <= 0x8000_0000 && desc.height <= 0x8000_0000
    ensures LevelBytes(desc, k) <= 0x4000_0000_0000_0000
  {
    ShrShrinks(desc.width, k);
    ShrShrinks(desc.height, k);
    var w, h := BlocksOf(LevelDim(desc.width, k)), BlocksOf(LevelDim(desc.height, k));
    Arith.TimesMonotone(w, 0x2000_0000, h, 0x2000_0000);
    Arith.TimesMonotone(w * h, 0x400_0000_0000_0000, BlockBytes(desc.format), 16);
  }

  lemma PowerBelow(n: nat)
    requires Pow2(n) < TWO32
    ensures Pow2(n) <= 0x8000_0000
  {
    BitsBelow(n, 31);
    Pow2Monotone(n, 31);
    Pow2Of32();
  }

  /** How often the larger axis can be halved, plus one. */
  method MaxLevels(size: u32) returns (levels: nat)
    requires size == Pow2(CeilLog(size))
    ensures levels == CeilLog(size) + 1
  {
    var d := size;
    levels := 1;
    while d > 1
      invariant d >= 1 && d == Pow2(CeilLog(d)) && levels + CeilLog(d) == CeilLog(size) + 1
      decreases d
    {
      assert (d + 1) / 2 == d / 2;
      d := d / 2;
      levels := levels + 1;
    }
  }

  /** The size of a whole chain, or 0 for a chain that is not acceptable. */
  method CompressedMipSpan(desc: Desc) returns (span: u32)
    ensures span == if Acceptable(desc) then ChainBytes(desc, Levels(desc)) else 0
  {
    if !IsPowerOfTwo(desc.width) || !IsPowerOfTwo(desc.height) { return 0; }
    var block := BlockBytes(desc.format);
    if block == 0 { return 0; }
    PowerOfTwoTest(desc.width);
    PowerOfTwoTest(desc.height);
    var levels := Levels(desc);
    var maxLevels := MaxLevels(Larger(desc.width, desc.height));
    if levels > maxLevels { return 0; }
    PowerBelow(CeilLog(desc.width));
    PowerBelow(CeilLog(desc.height));
    var fits, total := SumLevels(desc, levels);
    span := if fits then total else 0;
  }

  /** One level in the size loop's 64-bit arithmetic. */
  method AddLevel(desc: Desc, total: u32, level: nat) returns (total': nat)
    requires desc.width <= 0x8000_0000 && desc.height <= 0x8000_0000
    ensures total' == total + LevelBytes(desc, level)
  {
    LevelFits64(desc, level);
    var width := LevelDim(desc.width, level);
    var height := LevelDim(desc.height, level);
    var wide, high := (width - 1) / 4 + 1, (height - 1) / 4 + 1;
    assert wide == BlocksOf(width) && high == BlocksOf(height);
    total' := (total + wide * high * BlockBytes(desc.format)) % 0x1_0000_0000_0000_0000;
  }

  /** The size loop, with its early exit. */
  method SumLevels(desc: Desc, levels: nat) returns (fits: bool, total: nat)
    requires desc.width <= 0x8000_0000 && desc.height <= 0x8000_0000
    ensures fits <==> ChainBytes(desc, levels) < TWO32
    ensures fits ==> total == ChainBytes(desc, levels)
  {
    total := 0;
    for level := 0 to levels
      invariant total == ChainBytes(desc, level) < TWO32
    {
      total := AddLevel(desc, total, level);
      if total > 0xffff_ffff {
        ChainGrows(desc, level + 1, levels);
        return false, total;
      }
    }
    fits := true;
  }

  // ---------------------------------------------------------------- uploading

  datatype Place = Place(offset: u32, pitch: u32)

  lemma {:induction false} ShrNextHalves(a: nat, k: nat)
    ensures Shr(a, k + 1) == Shr(a, k) / 2
  {
    if k != 0 { ShrNextHalves(a / 2, k - 1); }
  }

  /** Halving with a floor of one is the next level's size. */
  lemma LevelDimHalves(size: nat, k: nat)
    ensures LevelDim(size, k + 1) == if LevelDim(size, k) > 1 then LevelDim(size, k) / 2 else 1
  {
    ShrNextHalves(size, k);
  }

  function PitchOf(desc: Desc, k: nat): nat { BlocksOf(LevelDim(desc.width, k)) * BlockBytes(desc.format) }

  /** A 32-bit result that did not wrap. */
  function Wrapped(result: nat, ghost exact: nat): (r: u32)
    requires result == exact < TWO32
    ensures r == exact
  {
    result % TWO32
  }

  /** Bytes of a row of blocks, and of all rows, in 32-bit arithmetic. */
  method LevelSizes(wide: u32, high: u32, block: nat, ghost row: nat, ghost bytes: nat) returns (pitch: u32, size: u32)
    requires row == wide * block && bytes == row * high && row <= bytes < TWO32
    ensures pitch == row && size == bytes
  {
    pitch := Wrapped(wide * block, row);
    Arith.SameTimes(pitch, row, high);
    size := Wrapped(pitch * high, bytes);
  }

  /** The blocks along an axis, in 32-bit arithmetic. */
  method AxisBlocks(d: u32) returns (blocks: u32)
    requires 0 < d < TWO32 - 3
    ensures blocks == BlocksOf(d)
  {
    blocks := (d + 3) % TWO32 / 4;
  }

  /** One turn of the upload loop, in 32-bit arithmetic. */
  method PlaceLevel(width: u32, height: u32, offset: u32, block: nat, ghost row: nat, ghost bytes: nat)
    returns (place: Place, offset': u32)
    requires 0 < width < TWO32 - 3 && 0 < height < TWO32 - 3
    requires row == BlocksOf(width) * block && bytes == row * BlocksOf(height) && row <= bytes
    requires offset + bytes < TWO32
    ensures place == Place(offset, row) && offset' == offset + bytes
  {
    var wide := AxisBlocks(width);
    var high := AxisBlocks(height);
    var pitch, size := LevelSizes(wide, high, block, row, bytes);
    place := Place(offset, pitch);
    offset' := Wrapped(offset + size, offset + bytes);
  }

  /** Level k of a chain as the uploader should place it. */
  ghost predicate PlacedRight(desc: Desc, k: nat, place: Place) {
    place.offset == ChainBytes(desc, k) && place.pitch == PitchOf(desc, k)
  }

  lemma LevelWithin(desc: Desc, k: nat)
    requires ChainBytes(desc, Levels(desc)) < TWO32 && k < Levels(desc)
    ensures ChainBytes(desc, k) + LevelBytes(desc, k) == ChainBytes(desc, k + 1) <= ChainBytes(desc, Levels(desc))
    ensures LevelBytes(desc, k) == PitchOf(desc, k) * BlocksOf(LevelDim(desc.height, k)) >= PitchOf(desc, k)
  {
    ChainGrows(desc, k + 1, Levels(desc));
    Arith.Regroup(BlocksOf(LevelDim(desc.width, k)), BlocksOf(LevelDim(desc.height, k)), BlockBytes(desc.format));
  }

  /** The loop's place within the chain. */
  ghost predicate Placing(desc: Desc, k: nat, width: nat, height: nat, offset: nat) {
    && width == LevelDim(desc.width, k) <= desc.width
    && height == LevelDim(desc.height, k) <= desc.height
    && offset == ChainBytes(desc, k)
  }

  method PlaceNext(desc: Desc, ghost k: nat, width: u32, height: u32, offset: u32)
    returns (place: Place, width': u32, height': u32, offset': u32)
    requires ChainBytes(desc, Levels(desc)) < TWO32 && k < Levels(desc)
    requires desc.width < TWO32 - 3 && desc.height < TWO32 - 3 && Placing(desc, k, width, height, offset)
    ensures PlacedRight(desc, k, place) && Placing(desc, k + 1, width', height', offset')
  {
    LevelWithin(desc, k);
    place, offset' := PlaceLevel(width, height, offset, BlockBytes(desc.format), PitchOf(desc, k), LevelBytes(desc, k));
    LevelDimHalves(desc.width, k);
    LevelDimHalves(desc.height, k);
    width' := if width > 1 then width / 2 else 1;
    height' := if height > 1 then height / 2 else 1;
  }

  /** Consecutive places leave no gap and none passes the end. */
  ghost predicate Contiguous(desc: Desc, places: seq<Place>, end: nat, k: nat)
    requires k < |places|
  {
    places[k].offset + LevelBytes(desc, k) == (if k + 1 < |places| then places[k + 1].offset else end) <= end
  }

  /** The uploader's loop places every level of an acceptable chain where the
      size function counts it, and ends at the computed span. */
  method PlaceLevels(desc: Desc) returns (places: seq<Place>, end: u32)
    requires Acceptable(desc) && desc.width < TWO32 - 3 && desc.height < TWO32 - 3
    ensures |places| == Levels(desc) && end == ChainBytes(desc, Levels(desc))
    ensures forall k :: 0 <= k < |places| ==> PlacedRight(desc, k, places[k]) && Contiguous(desc, places, end, k)
  {
    var width: u32, height: u32 := desc.width, desc.height;
    end := 0;
    places := [];
    for level := 0 to Levels(desc)
      invariant |places| == level && Placing(desc, level, width, height, end)
      invariant forall k :: 0 <= k < level ==> PlacedRight(desc, k, places[k])
    {
      var place;
      place, width, height, end := PlaceNext(desc, level, width, height, end);
      places := places + [place];
    }
    forall k | 0 <= k < |places|
      ensures Contiguous(desc, places, end, k)
    {
      LevelWithin(desc, k);
      assert PlacedRight(desc, k, places[k]);
      if k + 1 < |places| { assert PlacedRight(desc, k + 1, places[k + 1]); }
    }
  }
}
