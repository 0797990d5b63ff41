/**
 The off-screen targets of recomp-runtime/d3d_presenter_d3d11.cpp: color and depth
 targets kept until the memory behind them is released, under a byte budget.
 */
module TargetBudget {
  import opened MachineWords

  const LIMIT: nat := 64 * 1024 * 1024
  const MAX_DIMENSION := 16384
  const A8R8G8B8 := 0x06
  const LINEAR_BGRA := 0x12
  const D24S8 := 0x2a
  const LINEAR_D24S8 := 0x2e

  datatype Desc = Desc(data: u32, format: u32, width: u32, height: u32, depth: bool)

  datatype Error = Ok | Unsupported | OutOfMemory | HostFailure | InvalidArgument

  /** A target that exists, the bytes it is charged for, and for depth targets
      whether it goes with the main target. */
  datatype Target = Target(desc: Desc, hostMain: bool, bytes: nat)

  function Charged(targets: seq<Target>): nat {
    if targets == [] then 0 else Charged(targets[..|targets| - 1]) + targets[|targets| - 1].bytes
  }

  predicate SameKey(a: Target, b: Target) {
    && a.desc.data == b.desc.data && a.desc.format == b.desc.format
    && a.desc.width == b.desc.width && a.desc.height == b.desc.height && a.hostMain == b.hostMain
  }

  predicate Differ(targets: seq<Target>, i: nat, j: nat)
    requires i < |targets| && j < |targets|
  {
    !SameKey(targets[i], targets[j])
  }

  predicate Unique(targets: seq<Target>) {
    forall i, j :: 0 <= i < j < |targets| ==> Differ(targets, i, j)
  }

  /** Four bytes a texel, row by row. */
  function Rows(width: nat, height: nat): nat {
    if height == 0 then 0 else Rows(width, height - 1) + 4 * width
  }

  function Area(desc: Desc): nat { Rows(desc.width, desc.height) }

  predicate Dimensions(width: nat, height: nat) {
    0 < width <= MAX_DIMENSION && 0 < height <= MAX_DIMENSION
  }

  lemma {:induction false} RowsAre(width: nat, height: nat)
    ensures Rows(width, height) == width * height * 4
  {
    if height > 0 {
      RowsAre(width, height - 1);
      assert width * height == width * (height - 1) + width;
    }
  }

  lemma {:induction false} RowsAtMost(width: nat, height: nat)
    requires width <= MAX_DIMENSION
    ensures Rows(width, height) <= 4 * MAX_DIMENSION * height
  {
    if height > 0 { RowsAtMost(width, height - 1); }
  }

  /** What a texture takes, computed in 64 bits. */
  method TexelBytes(desc: Desc) returns (bytes: u64)
    requires Dimensions(desc.width, desc.height)
    ensures bytes == Area(desc)
  {
    RowsAre(desc.width, desc.height);
    RowsAtMost(desc.width, desc.height);
    return desc.width * desc.height * 4;
  }

  /** Color targets are charged what they take. */
  predicate PaidColor(t: Target) {
    Dimensions(t.desc.width, t.desc.height) && !t.hostMain && t.bytes == Area(t.desc)
  }

  /** Depth targets too, except beside the main target. */
  predicate PaidDepth(t: Target) {
    Dimensions(t.desc.width, t.desc.height) && t.bytes == if t.hostMain then 0 else Area(t.desc)
  }

  // ------------------------------------------------------------------ sums

  lemma {:induction false} ChargedJoins(a: seq<Target>, b: seq<Target>)
    ensures Charged(a + b) == Charged(a) + Charged(b)
  {
    if b == [] {
      assert a + b == a;
    } else {
      var last := |b| - 1;
      assert (a + b)[..|a + b| - 1] == a + b[..last];
      ChargedJoins(a, b[..last]);
    }
  }

  lemma ChargedOne(t: Target)
    ensures Charged([t]) == t.bytes
  {
    assert [t][..0] == [];
  }

  lemma ChargedMore(targets: seq<Target>, t: Target)
    ensures Charged(targets + [t]) == Charged(targets) + t.bytes
  {
    ChargedJoins(targets, [t]);
    ChargedOne(t);
  }

  predicate Has(targets: seq<Target>, desc: Desc, hostMain: bool) {
    exists i :: 0 <= i < |targets| && SameKey(targets[i], Target(desc, hostMain, 0))
  }

  lemma StillUnique(targets: seq<Target>, t: Target)
    requires Unique(targets) && !Has(targets, t.desc, t.hostMain)
    ensures Unique(targets + [t])
  {
    var more := targets + [t];
    forall i, j | 0 <= i < j < |more| ensures Differ(more, i, j) {
      if j < |targets| {
        assert Differ(targets, i, j);
      } else {
        assert !SameKey(targets[i], Target(t.desc, t.hostMain, 0));
      }
    }
  }

  /** What making one more target of this size comes to. */
  function Making(charged: nat, bytes: nat, made: bool, grows: bool): Error {
    if charged + bytes > LIMIT then OutOfMemory else if !made then HostFailure else if !grows then OutOfMemory else Ok
  }

  /** A description that a color target can have. */
  predicate Bindable(desc: Desc) {
    !desc.depth && desc.data != 0 && Dimensions(desc.width, desc.height) && desc.format in {A8R8G8B8, LINEAR_BGRA}
  }

  function DepthCharge(desc: Desc, hostMain: bool): nat { if hostMain then 0 else Area(desc) }

  method DepthBytes(desc: Desc, hostMain: bool) returns (bytes: u64)
    requires Dimensions(desc.width, desc.height)
    ensures bytes == DepthCharge(desc, hostMain)
  {
    if hostMain { return 0; }
    bytes := TexelBytes(desc);
  }

  /** Replace an entry by the last one and shorten: that entry is gone. */
  function Swapped(targets: seq<Target>, i: nat): (r: seq<Target>)
    requires i < |targets|
  {
    targets[i := targets[|targets| - 1]][..|targets| - 1]
  }

  /** The parts of a sequence around an entry and before the last. */
  lemma SwapParts(targets: seq<Target>, i: nat) returns (front: seq<Target>, middle: seq<Target>)
    requires i < |targets| - 1
    ensures targets == front + [targets[i]] + middle + [targets[|targets| - 1]]
    ensures Swapped(targets, i) == front + [targets[|targets| - 1]] + middle
  {
    front, middle := targets[..i], targets[i + 1..|targets| - 1];
  }

  lemma ThreeCharges(a: seq<Target>, b: seq<Target>, c: seq<Target>)
    ensures Charged(a + b + c) == Charged(a) + Charged(b) + Charged(c)
  {
    ChargedJoins(a + b, c);
    ChargedJoins(a, b);
  }

  lemma SwapCharge(targets: seq<Target>, i: nat)
    requires i < |targets|
    ensures Charged(Swapped(targets, i)) == Charged(targets) - targets[i].bytes
  {
    var last := |targets| - 1;
    if i == last {
      assert Swapped(targets, i) == targets[..last];
    } else {
      var front, middle := SwapParts(targets, i);
      var x, y := [targets[i]], [targets[last]];
      ChargedOne(targets[i]);
      ChargedOne(targets[last]);
      ThreeCharges(front, x, middle);
      ThreeCharges(front, y, middle);
      ChargedJoins(front + x + middle, y);
    }
  }

  lemma SwapContents(targets: seq<Target>, i: nat)
    requires i < |targets|
    ensures multiset(Swapped(targets, i)) == multiset(targets) - multiset{targets[i]}
  {
    var last := |targets| - 1;
    if i == last {
      assert Swapped(targets, i) == targets[..last] && targets == targets[..last] + [targets[last]];
    } else {
      var front, middle := SwapParts(targets, i);
    }
  }

  predicate Outside(t: Target, base: nat, end: nat) { !(base <= t.desc.data < end) }

  /** What is left of a collection when a range is released. */
  ghost predicate OnlyOutside(before: multiset<Target>, after: multiset<Target>, base: nat, end: nat) {
    forall t: Target :: after[t] == if Outside(t, base, end) then before[t] else 0
  }

  /** Nothing that begins in a range is left, and everything else is. */
  ghost predicate Spared(before: seq<Target>, after: seq<Target>, base: nat, end: nat) {
    && (forall t :: t in after ==> t.desc.data < base || t.desc.data >= end)
    && (forall t: Target :: t.desc.data < base || t.desc.data >= end ==> multiset(after)[t] == multiset(before)[t])
  }

  lemma LeftOutside(before: seq<Target>, after: seq<Target>, base: nat, end: nat)
    requires OnlyOutside(multiset(before), multiset(after), base, end)
    ensures Spared(before, after, base, end)
  {
    forall t | t in after ensures t.desc.data < base || t.desc.data >= end {
      assert multiset(after)[t] > 0;
    }
  }

  /** The bytes charged are those of the targets there are, and within the limit;
      every target is charged what it should be, and none is there twice. */
  ghost predicate Held(colors: seq<Target>, depths: seq<Target>, bytes: nat) {
    && bytes == Charged(colors) + Charged(depths) <= LIMIT
    && (forall i :: 0 <= i < |colors| ==> PaidColor(colors[i]))
    && (forall i :: 0 <= i < |depths| ==> PaidDepth(depths[i]))
    && Unique(colors) && Unique(depths)
  }

  lemma HeldColor(colors: seq<Target>, depths: seq<Target>, bytes: nat, t: Target)
    requires Held(colors, depths, bytes) && PaidColor(t) && !Has(colors, t.desc, t.hostMain) && bytes + t.bytes <= LIMIT
    ensures Held(colors + [t], depths, bytes + t.bytes)
  {
    ChargedMore(colors, t);
    StillUnique(colors, t);
  }

  lemma HeldDepth(colors: seq<Target>, depths: seq<Target>, bytes: nat, t: Target)
    requires Held(colors, depths, bytes) && PaidDepth(t) && !Has(depths, t.desc, t.hostMain) && bytes + t.bytes <= LIMIT
    ensures Held(colors, depths + [t], bytes + t.bytes)
  {
    ChargedMore(depths, t);
    StillUnique(depths, t);
  }

  class Targets {
    var colors: seq<Target>
    var depths: seq<Target>
    var targetBytes: u64

    ghost predicate Valid()
      reads this
    {
      Held(colors, depths, targetBytes)
    }

    constructor ()
      ensures Valid() && colors == [] && depths == []
    {
      colors, depths, targetBytes := [], [], 0;
    }

    static method Find(targets: seq<Target>, desc: Desc, hostMain: bool) returns (found: nat)
      ensures found <= |targets|
      ensures found < |targets| ==> SameKey(targets[found], Target(desc, hostMain, 0))
      ensures found == |targets| ==> forall i :: 0 <= i < |targets| ==> !SameKey(targets[i], Target(desc, hostMain, 0))
    {
      found := 0;
      while found < |targets|
        invariant found <= |targets|
        invariant forall i :: 0 <= i < found ==> !SameKey(targets[i], Target(desc, hostMain, 0))
      {
        if SameKey(targets[found], Target(desc, hostMain, 0)) { return; }
        found := found + 1;
      }
    }

    /** Find or make a color target.  The host may refuse (`made`), the list may
        fail to grow (`grows`). */
    method BindColor(desc: Desc, made: bool, grows: bool) returns (error: Error, at: nat)
      requires Valid()
      modifies this`colors, this`targetBytes
      ensures Valid()
      ensures error == if !Bindable(desc) then Unsupported else if Has(old(colors), desc, false) then Ok
                       else Making(old(targetBytes), Area(desc), made, grows)
      ensures colors == if error == Ok && !Has(old(colors), desc, false) then old(colors) + [Target(desc, false, Area(desc))]
                        else old(colors)
      ensures error == Ok ==> at < |colors| && SameKey(colors[at], Target(desc, false, 0))
      ensures error != Ok ==> targetBytes == old(targetBytes)
    {
      if desc.depth || desc.data == 0 || !Dimensions(desc.width, desc.height)
         || (desc.format != A8R8G8B8 && desc.format != LINEAR_BGRA) {
        return Unsupported, 0;
      }
      at := Find(colors, desc, false);
      if at < |colors| { return Ok, at; }
      error := AddColor(desc, made, grows);
    }

    /** Make a color target that there is none of. */
    method AddColor(desc: Desc, made: bool, grows: bool) returns (error: Error)
      requires Valid() && Dimensions(desc.width, desc.height) && !Has(colors, desc, false)
      modifies this`colors, this`targetBytes
      ensures Valid() && error == Making(old(targetBytes), Area(desc), made, grows)
      ensures colors == if error == Ok then old(colors) + [Target(desc, false, Area(desc))] else old(colors)
      ensures error != Ok ==> targetBytes == old(targetBytes)
    {
      var bytes := TexelBytes(desc);
      var free: u64 := LIMIT - targetBytes;
      if bytes > free { return OutOfMemory; }
      if !made { return HostFailure; }
      if !grows { return OutOfMemory; }
      EnterColor(Target(desc, false, bytes));
      return Ok;
    }

    method EnterColor(t: Target)
      requires Valid() && PaidColor(t) && !Has(colors, t.desc, t.hostMain) && targetBytes + t.bytes <= LIMIT
      modifies this`colors, this`targetBytes
      ensures Valid() && colors == old(colors) + [t]
    {
      HeldColor(colors, depths, targetBytes, t);
      colors := colors + [t];
      targetBytes := targetBytes + t.bytes;
    }

    /** Find or make a depth target. */
    method CustomDepth(desc: Desc, hostMain: bool, made: bool, grows: bool) returns (error: Error, at: nat)
      requires Valid() && Dimensions(desc.width, desc.height)
      modifies this`depths, this`targetBytes
      ensures Valid()
      ensures error == if Has(old(depths), desc, hostMain) then Ok
                       else Making(old(targetBytes), DepthCharge(desc, hostMain), made, grows)
      ensures depths == if error == Ok && !Has(old(depths), desc, hostMain)
                        then old(depths) + [Target(desc, hostMain, DepthCharge(desc, hostMain))] else old(depths)
      ensures error == Ok ==> at < |depths| && SameKey(depths[at], Target(desc, hostMain, 0))
      ensures error != Ok ==> targetBytes == old(targetBytes)
    {
      at := Find(depths, desc, hostMain);
      if at < |depths| { return Ok, at; }
      error := AddDepth(desc, hostMain, made, grows);
    }

    /** Make a depth target that there is none of. */
    method AddDepth(desc: Desc, hostMain: bool, made: bool, grows: bool) returns (error: Error)
      requires Valid() && Dimensions(desc.width, desc.height) && !Has(depths, desc, hostMain)
      modifies this`depths, this`targetBytes
      ensures Valid() && error == Making(old(targetBytes), DepthCharge(desc, hostMain), made, grows)
      ensures depths == if error == Ok then old(depths) + [Target(desc, hostMain, DepthCharge(desc, hostMain))] else old(depths)
      ensures error != Ok ==> targetBytes == old(targetBytes)
    {
      var bytes := DepthBytes(desc, hostMain);
      var free: u64 := LIMIT - targetBytes;
      if bytes > free { return OutOfMemory; }
      if !made { return HostFailure; }
      if !grows { return OutOfMemory; }
      EnterDepth(Target(desc, hostMain, bytes));
      return Ok;
    }

    /** Enter a depth target that there is room for. */
    method EnterDepth(t: Target)
      requires Valid() && PaidDepth(t) && !Has(depths, t.desc, t.hostMain) && targetBytes + t.bytes <= LIMIT
      modifies this`depths, this`targetBytes
      ensures Valid() && depths == old(depths) + [t]
    {
      HeldDepth(colors, depths, targetBytes, t);
      depths := depths + [t];
      targetBytes := targetBytes + t.bytes;
    }

    /** The depth target that goes with a color target of a given size. */
    method LookupDepth(request: Request, colorWidth: u32, colorHeight: u32, made: bool, grows: bool)
      returns (error: Error, view: DepthView)
      requires Valid()
      modifies this`depths, this`targetBytes
      ensures Valid()
      ensures error == if request.noDepth then Ok
                       else if !Matching(request, colorWidth, colorHeight) then Unsupported
                       else if !request.customDepth || Has(old(depths), request.depth, HostMain(request)) then Ok
                       else Making(old(targetBytes), DepthCharge(request.depth, HostMain(request)), made, grows)
      ensures error == Ok <==> !view.Failed?
      ensures view == NoView <==> error == Ok && request.noDepth
      ensures view == MainView <==> error == Ok && !request.noDepth && !request.customDepth
      ensures view.Custom? ==>
        view.at < |depths| && SameKey(depths[view.at], Target(request.depth, HostMain(request), 0))
      ensures depths == if view.Custom? && !Has(old(depths), request.depth, HostMain(request))
                        then old(depths) + [Target(request.depth, HostMain(request), DepthCharge(request.depth, HostMain(request)))]
                        else old(depths)
      ensures error != Ok ==> targetBytes == old(targetBytes)
    {
      if request.noDepth { return Ok, NoView; }
      var desc := request.depth;
      var width := if request.customDepth then desc.width else request.mainWidth;
      var height := if request.customDepth then desc.height else request.mainHeight;
      if width != colorWidth || height != colorHeight { return Unsupported, Failed; }
      if !request.customDepth { return Ok, MainView; }
      if !desc.depth || desc.data == 0 || !Dimensions(width, height)
         || (desc.format != D24S8 && desc.format != LINEAR_D24S8) {
        return Unsupported, Failed;
      }
      var at;
      error, at := CustomDepth(desc, HostMain(request), made, grows);
      view := if error == Ok then Custom(at) else Failed;
    }

    /** Give a color target up, putting the last one in its place. */
    method RemoveColor(i: nat)
      requires Valid() && i < |colors|
      modifies this`colors, this`targetBytes
      ensures Valid() && colors == Swapped(old(colors), i)
    {
      SwapKeeps(colors, i);
      var freed := TexelBytes(colors[i].desc);
      targetBytes := targetBytes - freed;
      colors := Swapped(colors, i);
    }

    method RemoveDepth(i: nat)
      requires Valid() && i < |depths|
      modifies this`depths, this`targetBytes
      ensures Valid() && depths == Swapped(old(depths), i)
    {
      SwapKeeps(depths, i);
      var freed: u64 := depths[i].bytes;
      var left := Swapped(depths, i);
      assert forall k :: 0 <= k < |left| ==> PaidDepth(left[k]);
      targetBytes := targetBytes - freed;
      depths := left;
    }

    method ReleaseColors(base: nat, end: nat)
      requires Valid()
      modifies this`colors, this`targetBytes
      ensures Valid() && OnlyOutside(multiset(old(colors)), multiset(colors), base, end) && Spared(old(colors), colors, base, end)
    {
      var i := 0;
      while i < |colors|
        invariant Valid() && Swept(old(colors), colors, i, base, end)
        decreases |colors| - i
      {
        if Outside(colors[i], base, end) {
          i := i + 1;
        } else {
          SweptSwap(old(colors), colors, i, base, end);
          RemoveColor(i);
        }
      }
      SweptAll(old(colors), colors, base, end);
      LeftOutside(old(colors), colors, base, end);
    }

    method ReleaseDepths(base: nat, end: nat)
      requires Valid()
      modifies this`depths, this`targetBytes
      ensures Valid() && OnlyOutside(multiset(old(depths)), multiset(depths), base, end) && Spared(old(depths), depths, base, end)
    {
      var i := 0;
      while i < |depths|
        invariant Valid() && Swept(old(depths), depths, i, base, end)
        decreases |depths| - i
      {
        if Outside(depths[i], base, end) {
          i := i + 1;
        } else {
          SweptSwap(old(depths), depths, i, base, end);
          RemoveDepth(i);
        }
      }
      SweptAll(old(depths), depths, base, end);
      LeftOutside(old(depths), depths, base, end);
    }

    method ReleaseBoth(base: nat, end: nat)
      requires Valid()
      modifies this
      ensures Valid() && Spared(old(colors), colors, base, end) && Spared(old(depths), depths, base, end)
    {
      ReleaseColors(base, end);
      ReleaseDepths(base, end);
    }

    /** Release what lies in a range of guest memory, given by either of its two
        addresses. */
    method Release(address: u32, size: u32) returns (error: Error)
      requires Valid()
      modifies this
      ensures Valid()
      ensures error == InvalidArgument <==> size == 0 || Physical(address) + size > TOP
      ensures error == InvalidArgument ==> unchanged(this)
      ensures error != InvalidArgument ==> error == Ok
      ensures error == Ok ==>
        var base := if 0x8000_0000 <= address <= 0x83ff_ffff then address - 0x8000_0000 else address;
        Spared(old(colors), colors, base, base + size) && Spared(old(depths), depths, base, base + size)
    {
      var base := address;
      if base >= 0x8000_0000 && base < 0x8400_0000 { base := base - 0x8000_0000; }
      var end: u64 := base + size;
      if size == 0 || end > TOP { return InvalidArgument; }
      ReleaseBoth(base, end);
      return Ok;
    }
  }

  const TOP := 0x1_0000_0000

  /** Guest memory is seen a second time from 0x80000000 on. */
  function Physical(address: nat): nat {
    if 0x8000_0000 <= address < 0x8400_0000 then address - 0x8000_0000 else address
  }

  /** The depth side of a target, the size of the main target, and whether the
      host scales or samples the main target its own way. */
  datatype Request = Request(noDepth: bool, customDepth: bool, offscreen: bool, depth: Desc,
                             mainWidth: u32, mainHeight: u32, scaled: bool)

  datatype DepthView = NoView | MainView | Custom(at: nat) | Failed

  /** The depth target can go with a color target of this size. */
  predicate Matching(request: Request, width: nat, height: nat) {
    if request.customDepth then
      && request.depth.width == width && request.depth.height == height && Dimensions(width, height)
      && request.depth.depth && request.depth.data != 0 && request.depth.format in {D24S8, LINEAR_D24S8}
    else request.mainWidth == width && request.mainHeight == height
  }

  predicate HostMain(request: Request) { !request.offscreen && request.scaled }

  lemma SwapKeeps(targets: seq<Target>, i: nat)
    requires i < |targets| && Unique(targets)
    ensures Charged(Swapped(targets, i)) == Charged(targets) - targets[i].bytes
    ensures multiset(Swapped(targets, i)) == multiset(targets) - multiset{targets[i]}
    ensures Unique(Swapped(targets, i))
    ensures forall k :: 0 <= k < |targets| - 1 ==> Swapped(targets, i)[k] == targets[if k == i then |targets| - 1 else k]
  {
    SwapCharge(targets, i);
    SwapContents(targets, i);
    SwapUnique(targets, i);
  }

  lemma SwapUnique(targets: seq<Target>, i: nat)
    requires i < |targets| && Unique(targets)
    ensures Unique(Swapped(targets, i))
  {
    var last, left := |targets| - 1, Swapped(targets, i);
    forall j, k | 0 <= j < k < |left| ensures Differ(left, j, k) {
      if k == i {
        assert Differ(targets, j, last);
      } else if j == i {
        assert Differ(targets, k, last);
      } else {
        assert Differ(targets, j, k);
      }
    }
  }

  /** Released entries are gone before i; nothing else is. */
  ghost predicate Swept(before: seq<Target>, now: seq<Target>, i: nat, base: nat, end: nat) {
    && i <= |now|
    && (forall k :: 0 <= k < i ==> Outside(now[k], base, end))
    && (forall t: Target :: Outside(t, base, end) ==> multiset(now)[t] == multiset(before)[t])
  }

  lemma SweptSwap(before: seq<Target>, now: seq<Target>, i: nat, base: nat, end: nat)
    requires Swept(before, now, i, base, end) && i < |now| && !Outside(now[i], base, end)
    ensures Swept(before, Swapped(now, i), i, base, end)
  {
    SwapContents(now, i);
    forall t: Target | Outside(t, base, end) ensures multiset(Swapped(now, i))[t] == multiset(before)[t] {
      assert multiset(now)[t] == multiset(before)[t];
    }
  }

  lemma SweptAll(before: seq<Target>, now: seq<Target>, base: nat, end: nat)
    requires Swept(before, now, |now|, base, end)
    ensures OnlyOutside(multiset(before), multiset(now), base, end)
  {
    forall t: Target ensures multiset(now)[t] == if Outside(t, base, end) then multiset(before)[t] else 0 {
      if !Outside(t, base, end) { assert t !in now; }
    }
  }

  // ------------------------------------------------- the rules in plain numbers

  /** A target takes four bytes a texel, and all of them together 64 megabytes. */
  lemma MakingMeans(desc: Desc, charged: nat, made: bool, grows: bool)
    ensures Making(charged, Area(desc), made, grows) ==
      if charged + desc.width * desc.height * 4 > 0x400_0000 || (made && !grows) then OutOfMemory
      else if !made then HostFailure else Ok
    ensures DepthCharge(desc, false) == desc.width * desc.height * 4 && DepthCharge(desc, true) == 0
  {
    RowsAre(desc.width, desc.height);
  }

  /** What is charged for a target that there is: the main target pays for the depth
      target beside it. */
  lemma PaidMeans(t: Target)
    ensures PaidColor(t) ==> !t.hostMain && t.bytes == t.desc.width * t.desc.height * 4
    ensures PaidDepth(t) ==> t.bytes == if t.hostMain then 0 else t.desc.width * t.desc.height * 4
    ensures PaidColor(t) || PaidDepth(t) ==> 1 <= t.desc.width <= 0x4000 && 1 <= t.desc.height <= 0x4000
  {
    RowsAre(t.desc.width, t.desc.height);
  }

  /** Two targets are one if all but the depth flag of their descriptions agrees. */
  lemma HasMeans(targets: seq<Target>, desc: Desc, hostMain: bool)
    ensures Has(targets, desc, hostMain) <==>
      exists i :: 0 <= i < |targets| && targets[i].desc == desc.(depth := targets[i].desc.depth) && targets[i].hostMain == hostMain
  {
  }

  lemma BindableMeans(desc: Desc)
    ensures Bindable(desc) <==>
      && !desc.depth && desc.data != 0 && (desc.format == 0x06 || desc.format == 0x12)
      && 1 <= desc.width <= 0x4000 && 1 <= desc.height <= 0x4000
  {
  }

  /** A depth target of its own, or the main one, must have the color target's size. */
  lemma MatchingMeans(request: Request, width: nat, height: nat)
    ensures !request.customDepth ==>
      (Matching(request, width, height) <==> request.mainWidth == width && request.mainHeight == height)
    ensures request.customDepth ==>
      var d := request.depth;
      (Matching(request, width, height) <==>
        && d.width == width && d.height == height && d.depth && d.data != 0 && (d.format == 0x2a || d.format == 0x2e)
        && 1 <= width <= 0x4000 && 1 <= height <= 0x4000)
    ensures HostMain(request) <==> !request.offscreen && request.scaled
  {
  }
}
