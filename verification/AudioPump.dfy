/**
 The output pump of recomp-runtime/dsound_service_adapter.c: the span that the
 output clock gives up is copied out of a ring of PCM, or decoded block by block
 from a ring of ADPCM.  Both are one walk over the bytes of the whole sound.
 */
module AudioPump {
  import opened MachineWords
  import opened AudioClock
  import opened AudioBuffer
  import Arith

  const CAPACITY: u32 := 80000
  const BLOCK_BYTES: u32 := 36
  const BLOCK_SAMPLES: u32 := 64

  // -------------------------------------------------------------- the walk

  function Next(at: nat, size: nat, loop: nat): (r: nat)
    requires at < size && loop < size
    ensures r < size
  {
    if at + 1 == size then loop else at + 1
  }

  /** The place n bytes on. */
  function Along(at: nat, size: nat, loop: nat, n: nat): (r: nat)
    requires at < size && loop < size
    ensures r < size
    decreases n
  {
    if n == 0 then at else Along(Next(at, size, loop), size, loop, n - 1)
  }

  /** n items of a ring, from a place on. */
  function Walk<T>(ring: seq<T>, at: nat, loop: nat, n: nat): (r: seq<T>)
    requires at < |ring| && loop < |ring|
    ensures |r| == n
    decreases n
  {
    if n == 0 then [] else [ring[at]] + Walk(ring, Next(at, |ring|, loop), loop, n - 1)
  }

  /** A straight stretch, up to the end of the ring at most. */
  function Beyond(at: nat, size: nat, loop: nat, count: nat): (r: nat)
    requires at < size && loop < size && at + count <= size
    ensures r < size
  {
    if at + count == size then loop else at + count
  }

  lemma {:induction false} WalkStraight<T>(ring: seq<T>, at: nat, loop: nat, count: nat, n: nat)
    requires at < |ring| && loop < |ring| && 0 < count <= n && at + count <= |ring|
    ensures Walk(ring, at, loop, n) == ring[at..at + count] + Walk(ring, Beyond(at, |ring|, loop, count), loop, n - count)
    decreases count
  {
    if count > 1 {
      WalkStraight(ring, at + 1, loop, count - 1, n - 1);
      assert ring[at..at + count] == [ring[at]] + ring[at + 1..at + count];
    }
  }

  lemma {:induction false} AlongStraight(at: nat, size: nat, loop: nat, count: nat, n: nat)
    requires at < size && loop < size && 0 < count <= n && at + count <= size
    ensures Along(at, size, loop, n) == Along(Beyond(at, size, loop, count), size, loop, n - count)
    ensures forall i :: 0 <= i < count ==> Along(at, size, loop, i) == at + i
    decreases count
  {
    if count > 1 {
      AlongStraight(at + 1, size, loop, count - 1, n - 1);
      forall i | 0 <= i < count ensures Along(at, size, loop, i) == at + i {
        if i > 0 { assert Along(at, size, loop, i) == Along(at + 1, size, loop, i - 1); }
      }
    }
  }

  lemma {:induction false} AlongTwice(at: nat, size: nat, loop: nat, a: nat, b: nat)
    requires at < size && loop < size
    ensures Along(Along(at, size, loop, a), size, loop, b) == Along(at, size, loop, a + b)
    decreases a
  {
    if a > 0 { AlongTwice(Next(at, size, loop), size, loop, a - 1, b); }
  }

  /** Walks that follow one another are one walk. */
  lemma {:induction false} WalkTwice<T>(ring: seq<T>, at: nat, loop: nat, a: nat, b: nat)
    requires at < |ring| && loop < |ring|
    ensures Walk(ring, at, loop, a) + Walk(ring, Along(at, |ring|, loop, a), loop, b) == Walk(ring, at, loop, a + b)
    decreases a
  {
    if a > 0 { WalkTwice(ring, Next(at, |ring|, loop), loop, a - 1, b); }
  }

  // ------------------------------------------------------------- span and head

  /** Bytes walked and frames played lead to the same place. */
  lemma {:induction false} FramesAreBytes(d: Deck, align: nat, n: nat)
    requires OnTape(d) && d.playing && d.looping && align > 0
    ensures d.position * align < d.frames * align && d.loop * align < d.frames * align
    ensures Along(d.position * align, d.frames * align, d.loop * align, n * align) == Steps(d, n).position * align
    decreases n
  {
    Arith.ItemFits(d.position, d.frames, align);
    Arith.ItemFits(d.loop, d.frames, align);
    var at, size, loop := d.position * align, d.frames * align, d.loop * align;
    if n > 0 {
      Arith.OneMore(n - 1, align);
      Arith.OneMore(d.position, align);
      if d.position + 1 < d.frames { Arith.ItemFits(d.position + 1, d.frames, align); }
      AlongStraight(at, size, loop, align, n * align);
      FramesAreBytes(Frame(d), align, n - 1);
    }
  }

  /** A span taken from a looping buffer, walked from its offset, ends where the
      head is now. */
  lemma SpanEndsAtHead(d: Deck, align: nat, now: nat)
    requires OnTape(d) && d.playing && d.looping && d.last < now <= d.last + 100 && align > 0
    ensures d.position * align < d.frames * align && d.loop * align < d.frames * align
    ensures Along(d.position * align, d.frames * align, d.loop * align, Span(d, now) * align)
         == After(d, now).position * align
  {
    var due := Due(d, now - d.last);
    FramesAreBytes(d, align, due / 1000);
    StepsAside(d, due / 1000, due % 1000, now);
    StepsLooping(d, due / 1000);
  }

  /** From a one-shot buffer it ends at the head, or at the end of the buffer
      just when the buffer has stopped. */
  lemma OneShotSpan(d: Deck, now: nat)
    requires OnTape(d) && d.playing && !d.looping && d.last < now <= d.last + 100
    ensures d.position + Span(d, now) == if After(d, now).playing then After(d, now).position else d.frames
  {
    var due := Due(d, now - d.last);
    StepsOneShot(d.(remainder := due % 1000, last := now), due / 1000);
  }

  // ------------------------------------------------------------------ copying

  /** Put a piece behind what is written already. */
  method Put(pcm: array<byte>, written: nat, piece: seq<byte>)
    requires written + |piece| <= pcm.Length
    modifies pcm
    ensures pcm[..written + |piece|] == old(pcm[..written]) + piece
  {
    forall k | 0 <= k < |piece| { pcm[written + k] := piece[k]; }
    assert pcm[..written + |piece|] == pcm[..written] + pcm[written..written + |piece|];
  }

  /** Put the next piece of a walk behind what is written already. */
  method Append(pcm: array<byte>, written: nat, piece: seq<byte>, ghost ring: seq<byte>, ghost loop: nat,
                ghost offset: nat, ghost bytes: nat, ghost all: seq<byte>)
    requires offset < |ring| && loop < |ring| && written <= bytes <= pcm.Length
    requires 0 < |piece| <= bytes - written && offset + |piece| <= |ring| && piece == ring[offset..offset + |piece|]
    requires pcm[..written] + Walk(ring, offset, loop, bytes - written) == all
    modifies pcm
    ensures pcm[..written + |piece|] +
      Walk(ring, Beyond(offset, |ring|, loop, |piece|), loop, bytes - (written + |piece|)) == all
  {
    WalkStraight(ring, offset, loop, |piece|, bytes - written);
    Put(pcm, written, piece);
  }

  method AppendGiven(pcm: array<byte>, written: nat, piece: seq<byte>, ghost ring: seq<Option<byte>>, ghost loop: nat,
                     ghost offset: nat, ghost bytes: nat, ghost all: seq<Option<byte>>)
    requires offset < |ring| && loop < |ring| && written <= bytes <= pcm.Length
    requires 0 < |piece| <= bytes - written && offset + |piece| <= |ring| && Given(piece) == ring[offset..offset + |piece|]
    requires Given(pcm[..written]) + Walk(ring, offset, loop, bytes - written) == all
    modifies pcm
    ensures Given(pcm[..written + |piece|]) +
      Walk(ring, Beyond(offset, |ring|, loop, |piece|), loop, bytes - (written + |piece|)) == all
  {
    WalkStraight(ring, offset, loop, |piece|, bytes - written);
    ghost var before := pcm[..written];
    Put(pcm, written, piece);
    assert Given(before + piece) == Given(before) + Given(piece);
  }

  /** Copy what is left of the ring, or all that is wanted. */
  method CopySegment(ring: seq<byte>, loop: u32, offset: u32, written: nat, bytes: u32, pcm: array<byte>, ghost all: seq<byte>)
    returns (count: nat)
    requires offset < |ring| < TWO32 && loop < |ring| && written < bytes <= pcm.Length
    requires pcm[..written] + Walk(ring, offset, loop, bytes - written) == all
    modifies pcm
    ensures 0 < count <= bytes - written && offset + count <= |ring|
    ensures pcm[..written + count] + Walk(ring, Beyond(offset, |ring|, loop, count), loop, bytes - (written + count)) == all
  {
    count := |ring| - offset;
    if count > bytes - written { count := bytes - written; }
    Append(pcm, written, ring[offset..offset + count], ring, loop, offset, bytes, all);
  }

  method CopyPcm(ring: seq<byte>, loop: u32, start: u32, bytes: u32, pcm: array<byte>)
    requires start < |ring| < TWO32 && loop < |ring| && bytes <= pcm.Length
    modifies pcm
    ensures pcm[..bytes] == Walk(ring, start, loop, bytes)
  {
    ghost var all := Walk(ring, start, loop, bytes);
    var written, offset: u32 := 0, start;
    while written < bytes
      invariant 0 <= written <= bytes && offset < |ring|
      invariant pcm[..written] + Walk(ring, offset, loop, bytes - written) == all
    {
      var count := CopySegment(ring, loop, offset, written, bytes, pcm, all);
      ghost var next := Beyond(offset, |ring|, loop, count);
      written := written + count;
      offset := if offset + count == |ring| then loop else offset + count;
      assert offset == next;
    }
    assert pcm[..bytes] + [] == pcm[..bytes];
  }

  // -------------------------------------------------------------------- ADPCM

  /** The block decoder; it refuses blocks with a bad header. */
  type Decoder = seq<byte> -> Option<seq<byte>>

  /** How large a block is, coded and decoded. */
  datatype Layout = Layout(coded: nat, decoded: nat)

  function LayoutFor(channels: nat): Layout { Layout(BLOCK_BYTES * channels, BLOCK_SAMPLES * channels * 2) }

  /** 36 bytes a channel become 64 samples of two bytes. */
  lemma LayoutMeans(channels: nat)
    ensures LayoutFor(channels).coded == 36 * channels && LayoutFor(channels).decoded == 128 * channels
  {
  }

  predicate Holds(coded: seq<byte>, l: Layout, k: nat) {
    k * l.coded + l.coded <= |coded|
  }

  function CodedBlock(coded: seq<byte>, l: Layout, k: nat): (block: seq<byte>)
    requires Holds(coded, l, k)
    ensures |block| == l.coded
  {
    coded[k * l.coded..k * l.coded + l.coded]
  }

  /** The blocks of a ring, decoded; None where one is refused. */
  type Parts = seq<Option<seq<byte>>>

  function PartsOf(decode: Decoder, l: Layout, coded: seq<byte>, n: nat): (parts: Parts)
    ensures |parts| == n
  {
    seq(n, (k: nat) => if Holds(coded, l, k) then decode(CodedBlock(coded, l, k)) else None)
  }

  ghost predicate Sized(parts: Parts, size: nat) {
    forall k :: 0 <= k < |parts| && parts[k].Some? ==> |parts[k].value| == size
  }

  /** Bytes as a decoded block gives them; a refused block gives none. */
  function Given(bytes: seq<byte>): (r: seq<Option<byte>>)
    ensures |r| == |bytes|
  {
    seq(|bytes|, i requires 0 <= i < |bytes| => Some(bytes[i]))
  }

  function Plain(part: Option<seq<byte>>, size: nat): (r: seq<Option<byte>>)
    requires part.Some? ==> |part.value| == size
    ensures |r| == size
  {
    match part
    case Some(bytes) => Given(bytes)
    case None => seq(size, _ => None)
  }

  /** Where block k begins. */
  function Start(k: nat, size: nat): nat {
    if k == 0 then 0 else Start(k - 1, size) + size
  }

  lemma {:induction false} StartIs(k: nat, size: nat)
    ensures Start(k, size) == k * size
  {
    if k > 0 {
      StartIs(k - 1, size);
      Arith.OneMore(k - 1, size);
    }
  }

  lemma {:induction false} StartMonotone(k: nat, n: nat, size: nat)
    requires k < n
    ensures Start(k, size) + size <= Start(n, size)
  {
    if k < n - 1 { StartMonotone(k, n - 1, size); }
  }

  /** The block a place lies in, and how far in. */
  lemma Located(at: nat, size: nat, blocks: nat)
    requires size > 0 && at < Start(blocks, size)
    ensures at / size < blocks && at == Start(at / size, size) + at % size
  {
    var k := at / size;
    StartIs(k, size);
    StartIs(blocks, size);
    assert at == size * k + at % size;
    if k >= blocks { Arith.TimesMonotone(blocks, k, size, size); }
  }

  lemma SliceOfFront<T>(a: seq<T>, b: seq<T>, from: nat, to: nat)
    requires from <= to <= |a|
    ensures (a + b)[from..to] == a[from..to]
  {
  }

  lemma SliceOfBack<T>(a: seq<T>, b: seq<T>)
    ensures (a + b)[|a|..|a| + |b|] == b
  {
  }

  lemma SliceOfSlice<T>(s: seq<T>, from: nat, size: nat, within: nat, count: nat)
    requires from + size <= |s| && within + count <= size
    ensures s[from..from + size][within..within + count] == s[from + within..from + within + count]
  {
    var part := s[from..from + size];
    forall i | within <= i < within + count ensures part[i] == s[from + i] {
    }
  }

  /** The whole sound: the blocks one after another. */
  ghost function Sound(parts: Parts, size: nat): (s: seq<Option<byte>>)
    requires Sized(parts, size)
    ensures |s| == Start(|parts|, size)
  {
    if parts == [] then []
    else
      var last := |parts| - 1;
      Sound(parts[..last], size) + Plain(parts[last], size)
  }

  /** Block k of the sound is block k decoded. */
  lemma {:induction false} SoundBlock(parts: Parts, size: nat, k: nat)
    requires Sized(parts, size) && k < |parts|
    ensures Start(k, size) + size <= Start(|parts|, size)
    ensures Sound(parts, size)[Start(k, size)..Start(k, size) + size] == Plain(parts[k], size)
    decreases |parts|
  {
    StartMonotone(k, |parts|, size);
    var last := |parts| - 1;
    var front, back := Sound(parts[..last], size), Plain(parts[last], size);
    if k < last {
      SoundBlock(parts[..last], size, k);
      SliceOfFront(front, back, Start(k, size), Start(k, size) + size);
    } else {
      SliceOfBack(front, back);
    }
  }

  /** Block k of the ring, decoded, is block k of this sound. */
  ghost predicate BlockSounds(decode: Decoder, l: Layout, coded: seq<byte>, sound: seq<Option<byte>>, k: nat) {
    && Holds(coded, l, k) && Start(k, l.decoded) + l.decoded <= |sound|
    && var block := decode(CodedBlock(coded, l, k));
       && (block.Some? ==> |block.value| == l.decoded)
       && sound[Start(k, l.decoded)..Start(k, l.decoded) + l.decoded] == Plain(block, l.decoded)
  }

  ghost predicate AllSound(decode: Decoder, l: Layout, coded: seq<byte>, sound: seq<Option<byte>>, n: nat) {
    n == 0 || (BlockSounds(decode, l, coded, sound, n - 1) && AllSound(decode, l, coded, sound, n - 1))
  }

  lemma {:induction false} BlockOf(decode: Decoder, l: Layout, coded: seq<byte>, sound: seq<Option<byte>>, n: nat, k: nat)
    requires AllSound(decode, l, coded, sound, n) && k < n
    ensures BlockSounds(decode, l, coded, sound, k)
  {
    if k < n - 1 { BlockOf(decode, l, coded, sound, n - 1, k); }
  }

  /** The ring holds n whole coded blocks, and this is the sound they make. */
  ghost predicate Makes(decode: Decoder, l: Layout, coded: seq<byte>, n: nat, sound: seq<Option<byte>>) {
    l.decoded > 0 && |sound| == Start(n, l.decoded) && AllSound(decode, l, coded, sound, n)
  }

  lemma GivenPart(bytes: seq<byte>, within: nat, count: nat)
    requires within + count <= |bytes|
    ensures Given(bytes)[within..within + count] == Given(bytes[within..within + count])
  {
  }

  /** What a place of the sound has to do with the block it lies in. */
  lemma PieceOf(sound: seq<Option<byte>>, from: nat, size: nat, block: Option<seq<byte>>, within: nat, count: nat)
    requires from + size <= |sound| && within + count <= size && count > 0
    requires block.Some? ==> |block.value| == size
    requires sound[from..from + size] == Plain(block, size)
    ensures block.None? ==> sound[from + within] == None
    ensures block.Some? ==> Given(block.value[within..within + count]) == sound[from + within..from + within + count]
  {
    SliceOfSlice(sound, from, size, within, count);
    if block.None? {
      assert sound[from..from + size][within] == sound[from + within];
    } else {
      GivenPart(block.value, within, count);
    }
  }

  /** Decode a block, and take a piece out of it. */
  method Take(decode: Decoder, l: Layout, coded: seq<byte>, ghost sound: seq<Option<byte>>, k: nat, within: nat,
              count: nat, ghost from: nat) returns (piece: Option<seq<byte>>)
    requires BlockSounds(decode, l, coded, sound, k) && within + count <= l.decoded && count > 0
    requires from == Start(k, l.decoded)
    ensures from + l.decoded <= |sound|
    ensures piece.None? ==> sound[from + within] == None
    ensures piece.Some? ==> |piece.value| == count
    ensures piece.Some? ==> Given(piece.value) == sound[from + within..from + within + count]
  {
    var block := decode(CodedBlock(coded, l, k));
    PieceOf(sound, from, l.decoded, block, within, count);
    if block.None? { return None; }
    return Some(block.value[within..within + count]);
  }

  /** Decode the block at a place, and take what is left of it there. */
  method DecodeAt(decode: Decoder, l: Layout, coded: seq<byte>, ghost n: nat, ghost sound: seq<Option<byte>>,
                  at: nat, most: nat) returns (piece: Option<seq<byte>>)
    requires Makes(decode, l, coded, n, sound) && at < |sound| && most > 0
    ensures piece.None? ==> sound[at] == None
    ensures piece.Some? ==>
      0 < |piece.value| <= most && at + |piece.value| <= |sound| && Given(piece.value) == sound[at..at + |piece.value|]
  {
    var k, within: nat := at / l.decoded, at % l.decoded;
    var count: nat := l.decoded - within;
    if count > most { count := most; }
    Located(at, l.decoded, n);
    BlockOf(decode, l, coded, sound, n, k);
    piece := Take(decode, l, coded, sound, k, within, count, Start(k, l.decoded));
  }

  /** A gap at the place reached is a gap in the walk. */
  lemma GapInWalk(done: seq<Option<byte>>, ring: seq<Option<byte>>, at: nat, loop: nat, n: nat)
    requires at < |ring| && loop < |ring| && n > 0 && ring[at] == None
    ensures None in done + Walk(ring, at, loop, n)
  {
    assert (done + Walk(ring, at, loop, n))[|done|] == None;
  }

  /** This much is copied, and the rest of the walk goes on from here. */
  ghost predicate Underway(pcm: array<byte>, written: nat, sound: seq<Option<byte>>, offset: nat, loop: nat, bytes: nat,
                           all: seq<Option<byte>>)
    reads pcm
  {
    && written <= bytes <= pcm.Length && offset < |sound| && loop < |sound|
    && Given(pcm[..written]) + Walk(sound, offset, loop, bytes - written) == all
  }

  /** A gap at the place reached is a gap in the whole. */
  lemma GapAhead(pcm: array<byte>, written: nat, sound: seq<Option<byte>>, offset: nat, loop: nat, bytes: nat,
                 all: seq<Option<byte>>)
    requires Underway(pcm, written, sound, offset, loop, bytes, all) && written < bytes && sound[offset] == None
    ensures None in all
  {
    GapInWalk(Given(pcm[..written]), sound, offset, loop, bytes - written);
  }

  /** Put a piece where the copy stands, and go on behind it. */
  method GoOn(piece: seq<byte>, ghost sound: seq<Option<byte>>, size: u32, loop: u32, offset: u32, written: u32,
              ghost bytes: nat, pcm: array<byte>, ghost all: seq<Option<byte>>) returns (next: u32)
    requires Underway(pcm, written, sound, offset, loop, bytes, all) && size == |sound|
    requires 0 < |piece| <= bytes - written && offset + |piece| <= size && Given(piece) == sound[offset..offset + |piece|]
    modifies pcm
    ensures Underway(pcm, written + |piece|, sound, next, loop, bytes, all)
  {
    AppendGiven(pcm, written, piece, sound, loop, offset, bytes, all);
    next := if offset + |piece| == size then loop else offset + |piece|;
  }

  /** Copy from one block, and go on behind it; no bytes if it is refused. */
  method CopyBlock(decode: Decoder, l: Layout, coded: seq<byte>, ghost n: nat, ghost sound: seq<Option<byte>>,
                   size: u32, loop: u32, offset: u32, written: u32, bytes: u32, pcm: array<byte>,
                   ghost all: seq<Option<byte>>)
    returns (count: nat, next: u32)
    requires Makes(decode, l, coded, n, sound) && size == |sound|
    requires written < bytes && Underway(pcm, written, sound, offset, loop, bytes, all)
    modifies pcm
    ensures count == 0 ==> None in all
    ensures count > 0 ==> Underway(pcm, written + count, sound, next, loop, bytes, all)
  {
    var piece := DecodeAt(decode, l, coded, n, sound, offset, bytes - written);
    if piece.None? {
      GapAhead(pcm, written, sound, offset, loop, bytes, all);
      return 0, offset;
    }
    next := GoOn(piece.value, sound, size, loop, offset, written, bytes, pcm, all);
    count := |piece.value|;
  }

  lemma SettingOut(pcm: array<byte>, sound: seq<Option<byte>>, start: nat, loop: nat, bytes: nat)
    requires start < |sound| && loop < |sound| && bytes <= pcm.Length
    ensures Underway(pcm, 0, sound, start, loop, bytes, Walk(sound, start, loop, bytes))
  {
    assert Given(pcm[..0]) == [];
  }

  lemma Arrived(pcm: array<byte>, sound: seq<Option<byte>>, offset: nat, loop: nat, bytes: nat, all: seq<Option<byte>>)
    requires Underway(pcm, bytes, sound, offset, loop, bytes, all)
    ensures None !in all && Given(pcm[..bytes]) == all
  {
    assert Given(pcm[..bytes]) + [] == Given(pcm[..bytes]);
  }

  /** Only a walk without gaps is copied to its end. */
  method CopyAdpcm(decode: Decoder, l: Layout, coded: seq<byte>, ghost n: nat, ghost sound: seq<Option<byte>>,
                   size: u32, loop: u32, start: u32, bytes: u32, pcm: array<byte>) returns (ok: bool)
    requires Makes(decode, l, coded, n, sound) && size == |sound|
    requires start < size && loop < size && bytes <= pcm.Length
    modifies pcm
    ensures ok <==> None !in Walk(sound, start, loop, bytes)
    ensures ok ==> Given(pcm[..bytes]) == Walk(sound, start, loop, bytes)
  {
    ghost var all := Walk(sound, start, loop, bytes);
    var written, offset: u32 := 0, start;
    SettingOut(pcm, sound, start, loop, bytes);
    while written < bytes
      invariant Underway(pcm, written, sound, offset, loop, bytes, all)
    {
      var count: nat;
      count, offset := CopyBlock(decode, l, coded, n, sound, size, loop, offset, written, bytes, pcm, all);
      if count == 0 { return false; }
      written := written + count;
    }
    Arrived(pcm, sound, offset, loop, bytes, all);
    return true;
  }

  // ------------------------------------------------------------------ the pump

  datatype Format = Format(adpcm: bool, channels: nat, bits: nat)

  datatype Submission = Submission(pcm: seq<byte>, rate: u32, channels: nat, bits: nat, volume: int)

  /** A decoder that fills a block whenever it accepts one. */
  ghost predicate Fills(decode: Decoder, l: Layout) {
    forall block :: |block| == l.coded && decode(block).Some? ==> |decode(block).value| == l.decoded
  }

  lemma PartsSized(decode: Decoder, l: Layout, coded: seq<byte>, n: nat)
    requires Fills(decode, l)
    ensures Sized(PartsOf(decode, l, coded, n), l.decoded)
  {
    var parts := PartsOf(decode, l, coded, n);
    forall k | 0 <= k < n && parts[k].Some? ensures |parts[k].value| == l.decoded {
      assert Holds(coded, l, k) && parts[k] == decode(CodedBlock(coded, l, k));
    }
  }

  /** The sound of the decoded blocks is what the ring makes. */
  lemma BlockIsMade(decode: Decoder, l: Layout, coded: seq<byte>, n: nat, k: nat, parts: Parts, sound: seq<Option<byte>>)
    requires |coded| == n * l.coded && k < n
    requires parts == PartsOf(decode, l, coded, n) && Sized(parts, l.decoded) && sound == Sound(parts, l.decoded)
    ensures BlockSounds(decode, l, coded, sound, k)
  {
    Arith.ItemFits(k, n, l.coded);
    assert Holds(coded, l, k);
    SoundBlock(parts, l.decoded, k);
  }

  lemma {:induction false} AllBlocksSound(decode: Decoder, l: Layout, coded: seq<byte>, sound: seq<Option<byte>>, n: nat)
    requires forall k: nat :: k < n ==> BlockSounds(decode, l, coded, sound, k)
    ensures AllSound(decode, l, coded, sound, n)
  {
    if n > 0 { AllBlocksSound(decode, l, coded, sound, n - 1); }
  }

  lemma SoundIsMade(decode: Decoder, l: Layout, coded: seq<byte>, n: nat, parts: Parts, sound: seq<Option<byte>>)
    requires |coded| == n * l.coded
    requires parts == PartsOf(decode, l, coded, n) && Sized(parts, l.decoded) && sound == Sound(parts, l.decoded)
    ensures AllSound(decode, l, coded, sound, n)
  {
    forall k: nat | k < n ensures BlockSounds(decode, l, coded, sound, k) {
      BlockIsMade(decode, l, coded, n, k, parts, sound);
    }
    AllBlocksSound(decode, l, coded, sound, n);
  }

  /** How long the sound of a source is, in bytes. */
  ghost predicate Measures(format: Format, source: seq<byte>, decode: Decoder, n: nat, size: nat) {
    if format.adpcm then
      var l := LayoutFor(format.channels);
      Fills(decode, l) && format.channels > 0 && |source| == n * l.coded && size == n * l.decoded
    else size == |source|
  }

  /** All that a source can sound: its own bytes, or its blocks decoded. */
  ghost function Heard(format: Format, source: seq<byte>, decode: Decoder, n: nat, size: nat): (s: seq<Option<byte>>)
    requires Measures(format, source, decode, n, size)
    ensures |s| == size
  {
    if format.adpcm then
      var l := LayoutFor(format.channels);
      PartsSized(decode, l, source, n);
      StartIs(n, l.decoded);
      Sound(PartsOf(decode, l, source, n), l.decoded)
    else Given(source)
  }

  lemma {:induction false} WalkGiven(ring: seq<byte>, at: nat, loop: nat, n: nat)
    requires at < |ring| && loop < |ring|
    ensures Walk(Given(ring), at, loop, n) == Given(Walk(ring, at, loop, n))
    decreases n
  {
    if n > 0 { WalkGiven(ring, Next(at, |ring|, loop), loop, n - 1); }
  }

  /** Copy a span of the sound, in either format. */
  method Copy(format: Format, source: seq<byte>, decode: Decoder, ghost n: nat, size: u32, loop: u32, start: u32,
              bytes: u32, pcm: array<byte>) returns (ok: bool)
    requires Measures(format, source, decode, n, size) && start < size && loop < size && bytes <= pcm.Length
    modifies pcm
    ensures ok <==> None !in Walk(Heard(format, source, decode, n, size), start, loop, bytes)
    ensures ok ==> Given(pcm[..bytes]) == Walk(Heard(format, source, decode, n, size), start, loop, bytes)
  {
    if format.adpcm {
      ghost var l := LayoutFor(format.channels);
      ghost var parts := PartsOf(decode, l, source, n);
      PartsSized(decode, l, source, n);
      SoundIsMade(decode, l, source, n, parts, Sound(parts, l.decoded));
      StartIs(n, l.decoded);
      ok := CopyAdpcm(decode, LayoutFor(format.channels), source, n,
                      Heard(format, source, decode, n, size), size, loop, start, bytes, pcm);
    } else {
      CopyPcm(source, loop, start, bytes, pcm);
      WalkGiven(source, start, loop, bytes);
      ok := true;
    }
  }

  method Pump(output: Buffer, source: Option<seq<byte>>, format: Format, volume: int, decode: Decoder, ghost n: nat,
              now: u64) returns (sent: Option<Submission>)
    requires output.Valid() && output.Configured()
    requires source.Some? ==> Measures(format, source.value, decode, n, output.size)
    modifies output`cursor, output`remainder, output`playing, output`lastMs
    ensures output.Valid() && output.Configured()
    ensures !old(output.playing) || source.None? || now < old(output.lastMs) + 10 ==> sent == None && unchanged(output)
    ensures old(output.playing) && source.Some? && now >= old(output.lastMs) + 10 ==>
      var bytes := Span(old(output.Deck()), now) * output.blockAlign;
      var walked := Walk(Heard(format, source.value, decode, n, output.size), old(output.cursor), output.loopStart, bytes);
      && (sent.Some? <==> 0 < bytes <= CAPACITY && None !in walked)
      && (sent.Some? ==>
           Given(sent.value.pcm) == walked &&
           sent.value == Submission(sent.value.pcm, output.rate, format.channels,
                                    if format.adpcm then 16 else format.bits, volume))
      && (if 0 < bytes <= CAPACITY && None in walked then
            output.Deck() == After(old(output.Deck()), now).(playing := false)
          else output.Deck() == After(old(output.Deck()), now))
  {
    if !output.playing || source.None? || now <= output.lastMs || now - output.lastMs < 10 { return None; }
    var bytes, offset := output.Consume(now);
    if bytes == 0 { return None; }
    var pcm := new byte[CAPACITY](_ => 0);
    if bytes > CAPACITY { return None; }
    var ok := Copy(format, source.value, decode, n, output.size, output.loopStart, offset, bytes, pcm);
    if !ok {
      output.playing := false;
      return None;
    }
    var bits := if format.adpcm then 16 else format.bits;
    return Some(Submission(pcm[..bytes], output.rate, format.channels, bits, volume));
  }
}
