/**
 The two decoders of a fixed-function vertex format: the host's vertex layout
 (recomp-runtime/d3d_draw_model.c) and the guest's vertex declaration
 (recomp-runtime/d3d_vertex_shader_model.c).  The format itself says which
 components a vertex has, in a fixed order; a component begins where the earlier
 ones end.
 */
module Fvf {
  import opened MachineWords
  import Arith

  const XYZ := 2
  const XYZRHW := 4
  const XYZB1 := 6
  const XYZB2 := 8
  const XYZB3 := 10

  // ------------------------------------------------------- fields of a format

  type Nibble = x: int | 0 <= x < 16

  /** What a format says, taken apart. */
  datatype Format = Format(position: Nibble, normal: bool, diffuse: bool, specular: bool, count: Nibble, indexed: bool, formats: nat)

  function Fields(fvf: u32): Format {
    var low, sets := fvf % 0x100, fvf / 0x100;
    var high := sets / 16;
    Format(low % 16, low / 0x10 % 2 == 1, low / 0x40 % 2 == 1, low / 0x80 % 2 == 1,
           sets % 16, high % 2 == 1 || high / 8 % 2 == 1, high / 16)
  }

  /** Taking one from the number of sets touches nothing else. */
  lemma OneSetLess(fvf: u32)
    requires Fields(fvf).count > 0
    ensures fvf >= 0x100 && Fields(fvf - 0x100) == Fields(fvf).(count := Fields(fvf).count - 1)
  {
    var sets := fvf / 0x100;
    Arith.DivisionIs(fvf - 0x100, 0x100, sets - 1, fvf % 0x100);
    Arith.DivisionIs(sets - 1, 16, sets / 16, sets % 16 - 1);
  }

  /** How many floats a two-bit texture format stands for. */
  function Floats(format: nat): nat {
    if format == 0 then 2 else if format == 1 then 3 else if format == 2 then 4 else 1
  }

  /** The two bits for coordinate set i. */
  function FormatAt(formats: nat, i: nat): nat {
    if i == 0 then formats % 4 else FormatAt(formats / 4, i - 1)
  }

  // --------------------------------------------------------------- components

  /** The components in their order; coordinate set i is component TEX + i. */
  const POSITION: nat := 0
  const WEIGHTS: nat := 1
  const NORMAL: nat := 2
  const DIFFUSE: nat := 3
  const SPECULAR: nat := 4
  const TEX: nat := 5

  /** The position the declaration reads, without the lowest bit. */
  function Base(f: Format): nat { f.position / 2 * 2 }

  /** How many bytes a component takes; none if it is absent. */
  function Width(f: Format, k: nat): nat {
    if k == POSITION then (if Base(f) == XYZRHW then 16 else if Base(f) == 0 then 0 else 12)
    else if k == WEIGHTS then (if Base(f) >= XYZB1 then (Base(f) - XYZB1) / 2 * 4 + 4 else 0)
    else if k == NORMAL then (if f.normal then 12 else 0)
    else if k == DIFFUSE then (if f.diffuse then 4 else 0)
    else if k == SPECULAR then (if f.specular then 4 else 0)
    else if k < TEX + f.count then 4 * Floats(FormatAt(f.formats, k - TEX))
    else 0
  }

  /** Where a component begins. */
  function Place(f: Format, k: nat): nat {
    if k == 0 then 0 else Place(f, k - 1) + Width(f, k - 1)
  }

  function Components(f: Format): nat { TEX + f.count }

  /** Every byte of a vertex belongs to one component, and only to one. */
  lemma {:induction false} EveryByteOnce(f: Format, n: nat, byte: nat)
    requires byte < Place(f, n)
    ensures exists k: nat :: k < n && Holds(f, k, byte)
    ensures forall j: nat, k: nat :: j < n && k < n && Holds(f, j, byte) && Holds(f, k, byte) ==> j == k
  {
    if byte >= Place(f, n - 1) {
      assert Holds(f, n - 1, byte);
      forall k: nat | k < n - 1 ensures !Holds(f, k, byte) {
        PlacesRise(f, k + 1, n - 1);
      }
    } else {
      EveryByteOnce(f, n - 1, byte);
    }
  }

  predicate Holds(f: Format, k: nat, byte: nat) {
    Place(f, k) <= byte < Place(f, k) + Width(f, k)
  }

  lemma {:induction false} PlacesRise(f: Format, j: nat, k: nat)
    requires j <= k
    ensures Place(f, j) <= Place(f, k)
  {
    if j < k { PlacesRise(f, j, k - 1); }
  }

  // ------------------------------------------------------------ the host's side

  /** Formats the host decodes. */
  predicate Supported(f: Format) {
    && !f.indexed && f.position in {XYZ, XYZRHW, XYZB1, XYZB2, XYZB3}
    && !(f.position == XYZRHW && f.normal) && f.count <= 4
  }

  /** The size of a vertex, or 0 for a format the host does not decode. */
  function Stride(f: Format): (r: nat)
    ensures r == 0 <==> !Supported(f)
  {
    var position := f.position;
    if f.indexed || (position != XYZ && position != XYZRHW && position != XYZB1 && position != XYZB2 && position != XYZB3) then 0
    else if position == XYZRHW && f.normal then 0
    else if f.count > 4 then 0
    else
      var weights := if position == XYZ || position == XYZRHW then 0 else (position - 4) / 2;
      var size := if position == XYZRHW then 16 else 12 + weights * 4;
      size + (if f.normal then 12 else 0) + (if f.diffuse then 4 else 0)
           + (if f.specular then 4 else 0) + f.count * 8
  }

  /** All coordinate sets are pairs, as the host assumes. */
  predicate PairsOnly(f: Format) {
    forall i: nat :: i < f.count ==> FormatAt(f.formats, i) == 0
  }

  datatype Layout = Layout(stride: nat, pretransformed: bool, weights: nat, normal: Option<nat>, diffuse: Option<nat>,
                           specular: Option<nat>, texcoord: Option<nat>, texcoords: nat)

  lemma FirstPlaces(f: Format)
    ensures Place(f, WEIGHTS) == Width(f, POSITION)
    ensures Place(f, NORMAL) == Width(f, POSITION) + Width(f, WEIGHTS)
    ensures Place(f, DIFFUSE) == Place(f, NORMAL) + Width(f, NORMAL)
    ensures Place(f, SPECULAR) == Place(f, DIFFUSE) + Width(f, DIFFUSE)
    ensures Place(f, TEX) == Place(f, SPECULAR) + Width(f, SPECULAR)
  {
  }

  lemma {:induction false} PairPlaces(f: Format, i: nat)
    requires PairsOnly(f) && i <= f.count
    ensures Place(f, TEX + i) == Place(f, TEX) + 8 * i
  {
    if i > 0 { PairPlaces(f, i - 1); }
  }

  /** The floats of the first i coordinate sets. */
  function FloatsOf(f: Format, i: nat): nat {
    if i == 0 then 0 else FloatsOf(f, i - 1) + Floats(FormatAt(f.formats, i - 1))
  }

  lemma {:induction false} SetPlaces(f: Format, i: nat)
    requires i <= f.count
    ensures Place(f, TEX + i) == Place(f, TEX) + 4 * FloatsOf(f, i)
  {
    if i > 0 { SetPlaces(f, i - 1); }
  }

  /** Where the first components of a format the host decodes begin. */
  lemma HostPlaces(f: Format)
    requires Supported(f)
    ensures Place(f, NORMAL) == if f.position == XYZRHW then 16 else if f.position == XYZ then 12 else 4 + 2 * f.position
    ensures Width(f, WEIGHTS) == if f.position in {XYZ, XYZRHW} then 0 else 2 * f.position - 8
    ensures Base(f) == f.position
    ensures Place(f, DIFFUSE) == Place(f, NORMAL) + if f.normal then 12 else 0
    ensures Place(f, SPECULAR) == Place(f, DIFFUSE) + if f.diffuse then 4 else 0
    ensures Place(f, TEX) == Place(f, SPECULAR) + if f.specular then 4 else 0
    ensures Stride(f) == Place(f, TEX) + 8 * f.count
  {
    FirstPlaces(f);
  }

  lemma StrideEnds(f: Format)
    requires Supported(f)
    ensures Stride(f) == Place(f, Components(f)) <==> FloatsOf(f, f.count) == 2 * f.count
    ensures PairsOnly(f) ==> Stride(f) == Place(f, Components(f))
  {
    HostPlaces(f);
    SetPlaces(f, f.count);
    if PairsOnly(f) { PairPlaces(f, f.count); }
  }

  /** A component at the running offset, if there is one. */
  method Next(present: bool, offset: nat, size: nat) returns (place: Option<nat>, next: nat)
    ensures place == (if present then Some(offset) else None) && next == offset + if present then size else 0
  {
    if present { return Some(offset), offset + size; }
    return None, offset;
  }

  /** The layout is the components': where each begins, and, exactly if the sets have
      two floats each on average, where the last one ends. */
  method DecodeLayout(f: Format) returns (layout: Option<Layout>)
    ensures layout.Some? <==> Supported(f)
    ensures layout.Some? ==>
      var l := layout.value;
      && l.stride == Stride(f)
      && (l.pretransformed <==> Base(f) == XYZRHW) && 4 * l.weights == Width(f, WEIGHTS)
      && l.normal == (if f.normal then Some(Place(f, NORMAL)) else None)
      && l.diffuse == (if f.diffuse then Some(Place(f, DIFFUSE)) else None)
      && l.specular == (if f.specular then Some(Place(f, SPECULAR)) else None)
      && l.texcoord == (if f.count != 0 then Some(Place(f, TEX)) else None) && l.texcoords == f.count
      && (l.stride == Place(f, Components(f)) <==> FloatsOf(f, f.count) == 2 * f.count)
      && (PairsOnly(f) ==> l.stride == Place(f, Components(f)))
  {
    if Stride(f) == 0 { return None; }
    HostPlaces(f);
    StrideEnds(f);
    var count: nat, position: nat := f.count, f.position;
    var pretransformed := position == XYZRHW;
    var weights: nat := if pretransformed || position == XYZ then 0 else (position - 4) / 2;
    var offset: nat := if pretransformed then 16 else 12 + weights * 4;
    var normal, diffuse, specular, texcoord: Option<nat>;
    assert offset == Place(f, NORMAL);
    normal, offset := Next(f.normal, offset, 12);
    diffuse, offset := Next(f.diffuse, offset, 4);
    specular, offset := Next(f.specular, offset, 4);
    assert offset == Place(f, TEX);
    texcoord := if count != 0 then Some(offset) else None;
    return Some(Layout(offset + count * 8, pretransformed, weights, normal, diffuse, specular, texcoord, count));
  }

  // ---------------------------------------------------- dropping coordinate sets

  function WithCount(f: Format, count: Nibble): Format { f.(count := count) }

  predicate TooWide(f: Format, count: Nibble, vertexStride: nat) {
    Stride(WithCount(f, count)) > vertexStride
  }

  /** Some sets of a format are dropped, because with them a vertex was too wide. */
  ghost predicate Narrowed(f: Format, g: Format, vertexStride: nat) {
    && g == WithCount(f, g.count) && g.count <= f.count && (Supported(g) <==> Supported(f))
    && forall c: Nibble :: g.count < c <= f.count ==> TooWide(f, c, vertexStride)
  }

  lemma NarrowedOnce(f: Format, g: Format, vertexStride: nat)
    requires Narrowed(f, g, vertexStride) && Stride(g) > vertexStride && g.count != 0
    ensures Supported(f) && Narrowed(f, WithCount(f, g.count - 1), vertexStride)
  {
    assert TooWide(f, g.count, vertexStride);
  }

  /** Drop coordinate sets until a vertex fits the stream: as many as must go, and
      no more.  A format the host does not decode is left alone, and so is one with
      more than four sets, although it might be decoded with fewer. */
  method ForStream(fvf: u32, vertexStride: nat) returns (r: u32)
    ensures var f, g := Fields(fvf), Fields(r);
      && g == f.(count := g.count) && g.count <= f.count
      && (Supported(g) <==> Supported(f)) && (!Supported(f) ==> r == fvf)
      && (Supported(f) ==> Stride(g) <= vertexStride || g.count == 0)
      && (Supported(f) ==> forall c: Nibble :: g.count < c <= f.count ==> Stride(WithCount(f, c)) > vertexStride)
  {
    r := fvf;
    ghost var f := Fields(fvf);
    var g := Fields(r);
    while Stride(g) > vertexStride && g.count != 0
      invariant g == Fields(r) && Narrowed(f, g, vertexStride) && (!Supported(f) ==> r == fvf)
      decreases g.count
    {
      NarrowedOnce(f, g, vertexStride);
      OneSetLess(r);
      r := r - 0x100;
      g := Fields(r);
    }
    forall c: Nibble | g.count < c <= f.count ensures Stride(WithCount(f, c)) > vertexStride {
      assert TooWide(f, c, vertexStride);
    }
  }

  /** Five to fifteen sets: not decoded, and not reduced to what could be. */
  lemma TooManySets(f: Format, count: Nibble)
    requires f.count > 4 >= count && Supported(WithCount(f, count))
    ensures !Supported(f) && Stride(f) == 0
  {
  }

  // ----------------------------------------------------------- the guest's side

  const WORDS := 74
  const MAX_SETS := 8

  /** The word of the declaration that holds the offset of a component; the next
      one holds its type. */
  function WordOf(k: nat): nat {
    if k < TEX then 6 + 4 * k else 42 + 4 * (k - TEX)
  }

  function TypeOf(f: Format, k: nat): nat {
    if Width(f, k) == 0 then 2
    else if k == POSITION then (if Base(f) == XYZRHW then 0x42 else 0x32)
    else if k == NORMAL then 0x32
    else if k == DIFFUSE || k == SPECULAR then 0x40
    else Width(f, k) / 4 * 0x10 + 2
  }

  /** What the declaration says of a component. */
  predicate Declares(words: seq<u32>, f: Format, k: nat)
    requires |words| == WORDS
  {
    && WordOf(k) + 1 < WORDS && words[WordOf(k) + 1] == TypeOf(f, k)
    && (Width(f, k) > 0 && k != POSITION ==> words[WordOf(k)] == Place(f, k))
  }

  lemma {:induction false} SmallPlaces(f: Format, k: nat)
    ensures Place(f, k) <= 20 * k && Width(f, k) <= 20
  {
    if k > 0 { SmallPlaces(f, k - 1); }
  }

  /** Components before k are declared; later ones are marked absent.  (The last
      coordinate set has no such mark: its word keeps what it held.) */
  predicate Declared(words: seq<u32>, f: Format, k: nat)
    requires |words| == WORDS
  {
    && (forall j: nat :: j < k ==> Declares(words, f, j))
    && (forall j: nat :: k <= j < 12 ==> words[WordOf(j) + 1] == 2)
  }

  lemma AbsentDeclared(words: seq<u32>, f: Format, k: nat)
    requires |words| == WORDS && k < 12 && Declared(words, f, k) && Width(f, k) == 0
    ensures Declared(words, f, k + 1)
  {
  }

  lemma StillDeclares(words: seq<u32>, f: Format, j: nat, k: nat, offset: u32, kind: u32)
    requires |words| == WORDS && j < k < 13 && Declares(words, f, j)
    ensures Declares(words[WordOf(k) := offset][WordOf(k) + 1 := kind], f, j)
  {
  }

  lemma OneDeclared(words: seq<u32>, f: Format, k: nat, offset: u32, kind: u32)
    requires |words| == WORDS && k < 13 && Declared(words, f, k)
    requires offset == Place(f, k) && kind == TypeOf(f, k)
    ensures Declared(words[WordOf(k) := offset][WordOf(k) + 1 := kind], f, k + 1)
  {
    var w := words[WordOf(k) := offset][WordOf(k) + 1 := kind];
    forall j: nat | j < k ensures Declares(w, f, j) {
      StillDeclares(words, f, j, k, offset, kind);
    }
  }

  /** Enter a component, if it is there, at the running offset. */
  method Declare(declaration: array<u32>, f: Format, k: nat, offset: nat, present: bool, kind: u32, size: nat) returns (next: nat)
    requires declaration.Length == WORDS && 0 < k < 13 && Declared(declaration[..], f, k)
    requires offset == Place(f, k) && (present <==> Width(f, k) > 0) && (present ==> kind == TypeOf(f, k) && size == Width(f, k))
    requires k == 12 ==> present
    modifies declaration
    ensures next == Place(f, k + 1) && Declared(declaration[..], f, k + 1)
    ensures forall w :: 0 <= w < WORDS && w != WordOf(k) && w != WordOf(k) + 1 ==> declaration[w] == old(declaration[w])
    ensures !present ==> declaration[..] == old(declaration[..])
  {
    if !present {
      AbsentDeclared(declaration[..], f, k);
      return offset;
    }
    SmallPlaces(f, k);
    var begins: u32 := offset;
    OneDeclared(declaration[..], f, k, begins, kind);
    ghost var was: seq<u32> := declaration[..];
    declaration[WordOf(k)] := begins;
    declaration[WordOf(k) + 1] := kind;
    assert declaration[..] == was[WordOf(k) := begins][WordOf(k) + 1 := kind];
    return offset + size;
  }

  /** The sizes of the first coordinate sets, a byte each. */
  function Lanes(formats: nat, n: nat): (r: nat)
    requires n <= 4
    ensures r < Lane(n)
  {
    if n == 0 then 0 else Lanes(formats, n - 1) + Floats(FormatAt(formats, n - 1)) * Lane(n - 1)
  }

  function Lane(i: nat): nat
    requires i <= 4
  {
    if i == 0 then 1 else if i == 1 then 0x100 else if i == 2 then 0x1_0000 else if i == 3 then 0x100_0000 else 0x1_0000_0000
  }

  lemma {:induction false} ShiftedFormats(formats: nat, i: nat)
    ensures FormatAt(formats, i) == Shifted(formats, i) % 4 && Shifted(formats, i + 1) == Shifted(formats, i) / 4
  {
    if i > 0 { ShiftedFormats(formats / 4, i - 1); }
  }

  function Shifted(formats: nat, i: nat): nat {
    if i == 0 then formats else Shifted(formats / 4, i - 1)
  }

  method SetLanes(declaration: array<u32>, ghost f: Format, ghost k: nat, lanes: u32)
    requires declaration.Length == WORDS && k <= 13 && Declared(declaration[..], f, k)
    modifies declaration
    ensures Declared(declaration[..], f, k) && declaration[..] == old(declaration[..])[4 := lanes]
  {
    ghost var was: seq<u32> := declaration[..];
    declaration[4] := lanes;
    assert declaration[..] == was[4 := lanes];
    forall j: nat | j < k ensures Declares(declaration[..], f, j) {
      assert Declares(was, f, j);
    }
  }

  /** The size of a set goes into its lane. */
  method EnterLane(declaration: array<u32>, f: Format, i: nat, size: nat)
    requires declaration.Length == WORDS && i < f.count <= MAX_SETS && size == Floats(FormatAt(f.formats, i))
    requires Declared(declaration[..], f, TEX + i + 1) && (i <= 4 ==> declaration[4] == Lanes(f.formats, i))
    modifies declaration
    ensures Declared(declaration[..], f, TEX + i + 1) && (i < 4 ==> declaration[4] == Lanes(f.formats, i + 1))
    ensures forall w :: 0 <= w < WORDS && w != 4 ==> declaration[w] == old(declaration[w])
  {
    var lanes: u32;
    if i < 4 { lanes := declaration[4] + size * Lane(i); }
    else { lanes := *; }
    SetLanes(declaration, f, TEX + i + 1, lanes);
  }

  /** The coordinate sets, one after another.  Their sizes also go into a word of
      their own, a byte lane each; C says nothing about that word past four sets. */
  method DeclareSets(declaration: array<u32>, f: Format, start: nat)
    requires declaration.Length == WORDS && f.count <= MAX_SETS && start == Place(f, TEX)
    requires Declared(declaration[..], f, TEX) && declaration[4] == 0
    modifies declaration
    ensures Declared(declaration[..], f, Components(f))
    ensures f.count <= 4 ==> declaration[4] == Lanes(f.formats, f.count)
    ensures forall w :: 0 <= w < 42 && w != 4 ==> declaration[w] == old(declaration[w])
  {
    var offset, formats := start, f.formats;
    for i := 0 to f.count
      invariant offset == Place(f, TEX + i) && formats == Shifted(f.formats, i)
      invariant Declared(declaration[..], f, TEX + i)
      invariant i <= 4 ==> declaration[4] == Lanes(f.formats, i)
      invariant forall w :: 0 <= w < 42 && w != 4 ==> declaration[w] == old(declaration[w])
    {
      ShiftedFormats(f.formats, i);
      var size := Floats(formats % 4);
      offset := Declare(declaration, f, TEX + i, offset, true, size * 0x10 + 2, size * 4);
      EnterLane(declaration, f, i, size);
      formats := formats / 4;
    }
  }

  /** Everything absent, then the position. */
  method StartDeclaration(f: Format, declaration: array<u32>) returns (offset: nat, weights: nat)
    requires declaration.Length == WORDS
    modifies declaration
    ensures Declared(declaration[..], f, 1) && offset == Place(f, 1)
    ensures declaration[4] == 0 && declaration[1] == if Base(f) == XYZRHW then 2 else 0
    ensures Width(f, WEIGHTS) == 4 * weights && weights <= 5
  {
    var position := Base(f);
    declaration[1] := 0;
    declaration[4] := 0;
    for i := 0 to 16
      invariant declaration[1] == 0 && declaration[4] == 0
      invariant forall j: nat :: j < i ==> Marked(declaration[..], j)
    {
      ghost var was: seq<u32> := declaration[..];
      declaration[7 + 4 * i] := 2;
      forall j: nat | j <= i ensures Marked(declaration[..], j) {
        assert j < i ==> Marked(was, j);
      }
    }
    offset, weights := 0, 0;
    forall j: nat | 1 <= j < 12 ensures declaration[WordOf(j) + 1] == 2 {
      assert Marked(declaration[..], if j < TEX then j else j + 4);
    }
    assert Marked(declaration[..], 0);
    if position == XYZRHW {
      declaration[1] := 2;
      declaration[7] := 0x42;
      offset := 0x10;
    } else if position != 0 {
      declaration[7] := 0x32;
      offset := 0x0c;
      if position >= 6 { weights := (position - 6) / 2 + 1; }
    }
  }

  predicate Marked(words: seq<u32>, j: nat)
    requires |words| == WORDS
  {
    j < 16 && words[7 + 4 * j] == 2
  }

  /** The declaration says of every component where it begins and what it is. */
  method BuildDeclaration(f: Format, declaration: array<u32>) returns (ok: bool)
    requires declaration.Length == WORDS
    modifies declaration
    ensures ok <==> f.count <= MAX_SETS
    ensures !ok ==> declaration[..] == old(declaration[..])
    ensures ok ==> Declared(declaration[..], f, Components(f))
    ensures ok ==> declaration[1] == (if Base(f) == XYZRHW then 2 else 0) + (if f.diffuse then 0x400 else 0)
                                     + (if f.specular then 0x800 else 0)
    ensures ok && f.count <= 4 ==> declaration[4] == Lanes(f.formats, f.count)
  {
    if f.count > MAX_SETS { return false; }
    var offset, weights := StartDeclaration(f, declaration);
    offset := Declare(declaration, f, WEIGHTS, offset, weights > 0, weights * 0x10 + 2, weights * 4);
    offset := Declare(declaration, f, NORMAL, offset, f.normal, 0x32, 0x0c);
    offset := Declare(declaration, f, DIFFUSE, offset, f.diffuse, 0x40, 4);
    offset := Declare(declaration, f, SPECULAR, offset, f.specular, 0x40, 4);
    var flags: u32 := declaration[1] + (if f.diffuse then 0x400 else 0) + (if f.specular then 0x800 else 0);
    SetFlags(declaration, f, flags);
    DeclareSets(declaration, f, offset);
    return true;
  }

  method SetFlags(declaration: array<u32>, ghost f: Format, flags: u32)
    requires declaration.Length == WORDS && Declared(declaration[..], f, TEX)
    modifies declaration
    ensures Declared(declaration[..], f, TEX) && declaration[..] == old(declaration[..])[1 := flags]
  {
    ghost var was: seq<u32> := declaration[..];
    declaration[1] := flags;
    assert declaration[..] == was[1 := flags];
    forall j: nat | j < TEX ensures Declares(declaration[..], f, j) {
      assert Declares(was, f, j);
    }
  }

  // ------------------------------------------------------------- both together

  /** The host's coordinate sets, eight bytes each from the first on, are the
      declared ones exactly when the format asks for nothing but pairs. */
  lemma SetsAgree(f: Format)
    ensures PairsOnly(f) <==>
      forall i: nat :: i < f.count ==> SetAgrees(f, i)
  {
    if PairsOnly(f) {
      forall i: nat | i < f.count ensures SetAgrees(f, i) { PairPlaces(f, i); }
    } else {
      var i: nat :| i < f.count && FormatAt(f.formats, i) != 0;
      assert !SetAgrees(f, i);
    }
  }

  predicate SetAgrees(f: Format, i: nat) {
    Place(f, TEX + i) == Place(f, TEX) + 8 * i && Width(f, TEX + i) == 8
  }

  /** Wherever both decoders place a component, they place it alike. */
  method DecodeBoth(f: Format, declaration: array<u32>) returns (l: Layout)
    requires Supported(f) && PairsOnly(f) && declaration.Length == WORDS
    modifies declaration
    ensures l.stride == Place(f, Components(f))
    ensures l.weights > 0 ==> declaration[10] == 12
    ensures l.normal.Some? ==> declaration[14] == l.normal.value
    ensures l.diffuse.Some? ==> declaration[18] == l.diffuse.value
    ensures l.specular.Some? ==> declaration[22] == l.specular.value
    ensures forall i: nat :: i < l.texcoords ==> SetPlacedAt(declaration[..], l, i)
  {
    var layout := DecodeLayout(f);
    l := layout.value;
    var _ := BuildDeclaration(f, declaration);
    ghost var words: seq<u32> := declaration[..];
    assert Declares(words, f, WEIGHTS) && Declares(words, f, NORMAL) && Declares(words, f, DIFFUSE) && Declares(words, f, SPECULAR);
    FirstPlaces(f);
    forall i: nat | i < l.texcoords ensures SetPlacedAt(words, l, i) {
      PairPlaces(f, i);
      assert Declares(words, f, TEX + i);
      assert FormatAt(f.formats, i) == 0;
    }
  }

  predicate SetPlacedAt(words: seq<u32>, l: Layout, i: nat)
    requires |words| == WORDS
  {
    l.texcoord.Some? && 42 + 4 * i < WORDS && words[42 + 4 * i] == l.texcoord.value + 8 * i
  }
}
