/**
 Vertex formats and vertex declarations bit by bit: a format is the sum of its parts
 in their places, the declaration has a word for the place and a word for the type of
 every component, and both agree with the formats named in
 recomp-runtime/d3d_draw_model_test.c and d3d_vertex_shader_model_test.c.
 */
module FvfLayout {
  import opened MachineWords
  import opened Fvf
  import Bits
  import Arith

  function Bit(b: bool): nat { if b then 1 else 0 }

  /** What the decoders do not look at, and the two bits that mark indexed weights. */
  datatype Spare = Spare(five: bool, twelve: bool, middle: nat, fifteen: bool)

  predicate LowByte(low: nat, f: Format, s: Spare) {
    low == f.position + 0x10 * Bit(f.normal) + 0x20 * Bit(s.five) + 0x40 * Bit(f.diffuse) + 0x80 * Bit(f.specular)
  }

  predicate HighBits(high: nat, f: Format, s: Spare) {
    s.middle < 4 && (f.indexed <==> s.twelve || s.fifteen)
    && high == Bit(s.twelve) + 2 * s.middle + 8 * Bit(s.fifteen) + 16 * f.formats
  }

  /** A format is the sum of its parts: the position in four bits, three flags, the
      number of coordinate sets from bit 8 and their sizes from bit 16. */
  predicate Composes(fvf: u32, f: Format, s: Spare, low: nat, high: nat) {
    LowByte(low, f, s) && HighBits(high, f, s) && fvf == low + 0x100 * f.count + 0x1000 * high
  }

  lemma LowReads(low: nat, f: Format, s: Spare)
    requires LowByte(low, f, s)
    ensures low < 0x100 && low % 16 == f.position
    ensures low / 0x10 % 2 == Bit(f.normal) && low / 0x40 % 2 == Bit(f.diffuse) && low / 0x80 % 2 == Bit(f.specular)
  {
    var top := Bit(f.diffuse) + 2 * Bit(f.specular);
    Arith.DivisionIs(low, 16, Bit(f.normal) + 2 * Bit(s.five) + 4 * top, f.position);
    Arith.DivisionIs(low, 0x40, top, f.position + 0x10 * Bit(f.normal) + 0x20 * Bit(s.five));
  }

  lemma HighReads(high: nat, f: Format, s: Spare)
    requires HighBits(high, f, s)
    ensures high / 16 == f.formats && high % 2 == Bit(s.twelve) && high / 8 % 2 == Bit(s.fifteen)
  {
    Arith.DivisionIs(high, 16, f.formats, Bit(s.twelve) + 2 * s.middle + 8 * Bit(s.fifteen));
    Arith.DivisionIs(high, 8, Bit(s.fifteen) + 2 * f.formats, Bit(s.twelve) + 2 * s.middle);
  }

  lemma FieldsRead(fvf: u32, f: Format, s: Spare, low: nat, high: nat)
    requires Composes(fvf, f, s, low, high)
    ensures Fields(fvf) == f
  {
    LowReads(low, f, s);
    HighReads(high, f, s);
    var sets := f.count + 16 * high;
    Arith.DivisionIs(fvf, 0x100, sets, low);
    Arith.DivisionIs(sets, 16, high, f.count);
  }

  lemma LowComposes(low: nat)
    requires low < 0x100
    ensures low == low % 16 + 0x10 * (low / 0x10 % 2) + 0x20 * (low / 0x20 % 2) + 0x40 * (low / 0x40 % 2)
                   + 0x80 * (low / 0x80 % 2)
  {
    var a := low / 16;
    var b := a / 2;
    var c := b / 2;
    Arith.DivisionIs(low, 0x20, b, 16 * (a % 2) + low % 16);
    Arith.DivisionIs(low, 0x40, c, 0x20 * (b % 2) + 16 * (a % 2) + low % 16);
    Arith.DivisionIs(low, 0x80, c / 2, 0x40 * (c % 2) + 0x20 * (b % 2) + 16 * (a % 2) + low % 16);
  }

  lemma HighComposes(high: nat)
    ensures high == high % 2 + 2 * (high / 2 % 4) + 8 * (high / 8 % 2) + 16 * (high / 16)
  {
    var a := high / 2;
    var b := a / 4;
    Arith.DivisionIs(high, 8, b, 2 * (a % 4) + high % 2);
    Arith.DivisionIs(high, 16, b / 2, 8 * (b % 2) + 2 * (a % 4) + high % 2);
  }

  /** Every word is such a sum, of the parts the decoders take from it. */
  lemma EveryFormatComposes(fvf: u32)
    ensures var low, high := fvf % 0x100, fvf / 0x1000;
      Composes(fvf, Fields(fvf), Spare(low / 0x20 % 2 == 1, high % 2 == 1, high / 2 % 4, high / 8 % 2 == 1), low, high)
  {
    var low, sets := fvf % 0x100, fvf / 0x100;
    Arith.DivisionIs(fvf, 0x1000, sets / 16, low + 0x100 * (sets % 16));
    LowComposes(low);
    HighComposes(fvf / 0x1000);
  }

  // -------------------------------------------------------- coordinate sets

  /** Code 3 stands for one float, any other one for two more than it says. */
  lemma SetSizes(format: nat)
    requires format < 4
    ensures Floats(format) == if format == 3 then 1 else format + 2
  {
  }

  /** There is nothing behind the sets that a format counts. */
  lemma NoMoreSets(f: Format, k: nat)
    requires k >= TEX
    ensures Width(f, k) > 0 <==> k < TEX + f.count
    ensures k < TEX + f.count ==> Width(f, k) == 4 * Floats(FormatAt(f.formats, k - TEX))
  {
  }

  /** The code of set i is the two bits above the lower 2 * i. */
  lemma {:induction false} CodeOf(formats: nat, i: nat, low: nat, code: nat, rest: nat)
    requires low < Bits.Pow2(2 * i) && code < 4 && formats == low + Bits.Pow2(2 * i) * (code + 4 * rest)
    ensures FormatAt(formats, i) == code
  {
    if i == 0 {
      Arith.DivisionIs(formats, 4, rest, code);
    } else {
      var w := Bits.Pow2(2 * (i - 1));
      assert Bits.Pow2(2 * i) == 2 * Bits.Pow2(2 * i - 1) == 4 * w;
      var above := w * (code + 4 * rest);
      assert formats == 4 * above + low;
      Arith.DivisionIs(formats, 4, above + low / 4, low % 4);
      CodeOf(formats / 4, i - 1, low / 4, code, rest);
    }
  }

  /** The sizes of up to four sets, the first in the lowest byte. */
  lemma SizesInBytes(f: Format)
    requires f.count <= 4
    ensures var size := (i: nat) => if i < f.count then Floats(FormatAt(f.formats, i)) else 0;
      Lanes(f.formats, f.count) == size(0) + 0x100 * size(1) + 0x1_0000 * size(2) + 0x100_0000 * size(3)
  {
    var formats := f.formats;
    if f.count >= 1 { assert Lanes(formats, 1) == Floats(FormatAt(formats, 0)); }
    if f.count >= 2 { assert Lanes(formats, 2) == Lanes(formats, 1) + 0x100 * Floats(FormatAt(formats, 1)); }
    if f.count >= 3 { assert Lanes(formats, 3) == Lanes(formats, 2) + 0x1_0000 * Floats(FormatAt(formats, 2)); }
    if f.count >= 4 { assert Lanes(formats, 4) == Lanes(formats, 3) + 0x100_0000 * Floats(FormatAt(formats, 3)); }
  }

  // --------------------------------------------------------- the declaration

  /** A type word is sixteen times the number of floats, and 2; a color is 0x40. */
  lemma TypeTellsSize(f: Format, k: nat)
    ensures k != DIFFUSE && k != SPECULAR ==> TypeOf(f, k) == 4 * Width(f, k) + 2
    ensures k == DIFFUSE || k == SPECULAR ==> TypeOf(f, k) == if Width(f, k) == 4 then 0x40 else 2
    ensures k == DIFFUSE || k == SPECULAR ==> Width(f, k) in {0, 4}
    ensures Width(f, k) % 4 == 0
  {
  }

  /** The offset and the type of a component that is there. */
  predicate Says(words: seq<u32>, word: nat, offset: nat, kind: nat) {
    word + 1 < |words| && words[word] == offset && words[word + 1] == kind
  }

  predicate SaysAbsent(words: seq<u32>, word: nat) {
    word + 1 < |words| && words[word + 1] == 2
  }

  /** A finished declaration in its own words: where normal and colors are. */
  lemma DeclarationSays(words: seq<u32>, f: Format)
    requires |words| == WORDS && Declared(words, f, Components(f))
    ensures var normal := Place(f, NORMAL);
      var diffuse := normal + 12 * Bit(f.normal);
      var specular := diffuse + 4 * Bit(f.diffuse);
      && (if f.normal then Says(words, 14, normal, 0x32) else SaysAbsent(words, 14))
      && (if f.diffuse then Says(words, 18, diffuse, 0x40) else SaysAbsent(words, 18))
      && (if f.specular then Says(words, 22, specular, 0x40) else SaysAbsent(words, 22))
      && Place(f, TEX) == specular + 4 * Bit(f.specular)
  {
    FirstPlaces(f);
    assert Declares(words, f, NORMAL) && Declares(words, f, DIFFUSE) && Declares(words, f, SPECULAR);
  }

  /** The position and its weights. */
  lemma DeclarationStarts(words: seq<u32>, f: Format)
    requires |words| == WORDS && Declared(words, f, Components(f))
    ensures var p := f.position / 2;
      var weights := if p >= 3 then p - 2 else 0;
      && words[7] == (if p == 0 then 2 else if p == 2 then 0x42 else 0x32)
      && (if weights > 0 then Says(words, 10, 12, 16 * weights + 2) else SaysAbsent(words, 10))
      && Place(f, NORMAL) == (if p == 0 then 0 else if p == 2 then 16 else 12) + 4 * weights
  {
    FirstPlaces(f);
    assert Declares(words, f, POSITION) && Declares(words, f, WEIGHTS);
  }

  /** And every coordinate set, after the floats of the sets before it. */
  lemma SetsSay(words: seq<u32>, f: Format, i: nat)
    requires |words| == WORDS && Declared(words, f, Components(f)) && i < f.count
    ensures Says(words, 42 + 4 * i, Place(f, TEX) + 4 * FloatsOf(f, i), 16 * Floats(FormatAt(f.formats, i)) + 2)
  {
    assert Declares(words, f, TEX + i);
    SetPlaces(f, i);
  }

  // -------------------------------------------------------- the formats named

  function Plain(position: Nibble, normal: bool, diffuse: bool, count: Nibble): Format {
    Format(position, normal, diffuse, false, count, false, 0)
  }

  lemma PlainRead(fvf: u32, position: Nibble, normal: bool, diffuse: bool, count: Nibble)
    requires fvf == position + 0x10 * Bit(normal) + 0x40 * Bit(diffuse) + 0x100 * count
    ensures Fields(fvf) == Plain(position, normal, diffuse, count)
  {
    FieldsRead(fvf, Plain(position, normal, diffuse, count), Spare(false, false, 0, false), fvf - 0x100 * count, 0);
  }

  /** Without weights: the formats of the tests and all others of their kind.  A
      transformed position cannot carry a normal. */
  lemma PlainStrides(fvf: u32, position: Nibble, normal: bool, diffuse: bool, count: Nibble)
    requires position in {2, 4} && count <= 4
    requires fvf == position + 0x10 * Bit(normal) + 0x40 * Bit(diffuse) + 0x100 * count
    ensures Stride(Fields(fvf)) ==
      if position == 4 && normal then 0 else 8 + 2 * position + 12 * Bit(normal) + 4 * Bit(diffuse) + 8 * count
  {
    PlainRead(fvf, position, normal, diffuse, count);
  }

  /** One to three weights widen a vertex by a float each; indexed ones are refused. */
  lemma WeightedStrides(fvf: u32, weights: nat, sets: Nibble, indexed: nat)
    requires 1 <= weights <= 3 && sets <= 4 && indexed in {0, 0x1000, 0x8000}
    requires fvf == 4 + 2 * weights + 0x10 + 0x100 * sets + indexed
    ensures Stride(Fields(fvf)) == if indexed == 0 then 24 + 4 * weights + 8 * sets else 0
  {
    var f := Format(4 + 2 * weights, true, false, false, sets, indexed != 0, 0);
    FieldsRead(fvf, f, Spare(false, indexed == 0x1000, 0, indexed == 0x8000), 0x14 + 2 * weights, indexed / 0x1000);
  }

  /** The layouts of three formats whose coordinates lie at different places. */
  method NamedLayout(fvf: u32) returns (layout: Option<Layout>)
    ensures fvf == 0x112 ==> layout == Some(Layout(32, false, 0, Some(12), None, None, Some(24), 1))
    ensures fvf == 0x142 ==> layout == Some(Layout(24, false, 0, None, Some(12), None, Some(16), 1))
    ensures fvf == 0x144 ==> layout == Some(Layout(28, true, 0, None, Some(16), None, Some(20), 1))
  {
    FirstPlaces(Fields(fvf));
    if fvf == 0x112 { PlainRead(fvf, 2, true, false, 1); }
    if fvf == 0x142 { PlainRead(fvf, 2, false, true, 1); }
    if fvf == 0x144 { PlainRead(fvf, 4, false, true, 1); }
    layout := DecodeLayout(Fields(fvf));
  }
}
