/**
 The streaming SHA-1 of recomp-runtime/kernel_crypto.c: a context of five state
 words, a bit count and a 64-byte block buffer, updated in place.  Represents
 relates a context to the whole message it has been fed; Update extends that
 message by its input, however the message is split, and Final delivers the
 digest that FIPS 180-4 defines for it.
 */
module ShaStream {
  import opened MachineWords
  import Arith
  import opened Bits
  import opened Sha1

  /** f is SHA-1's compression function.  The streaming proofs know it by this
      predicate alone, which spares the solver its eighty rounds. */
  ghost predicate IsSha1(f: Compression) {
    forall h, block {:trigger Compress(h, block)} :: f(h, block) == Compress(h, block)
  }

  /** The contents of a context. */
  datatype Value = Value(state: seq<word>, bitCount: nat, buffer: seq<byte>) {
    ghost predicate WellFormed() { |state| == 5 && bitCount < TWO64 && |buffer| == BLOCK }
  }

  function Words(h: Hash): seq<word> { [h.a, h.b, h.c, h.d, h.e] }

  function HashOf(words: seq<word>): Hash
    requires |words| == 5
  {
    Hash(words[0], words[1], words[2], words[3], words[4])
  }

  /** A context that has absorbed exactly this message: the state covers the
      whole blocks, the buffer holds the rest. */
  ghost predicate Represents(f: Compression, v: Value, message: seq<byte>) {
    var whole := |message| / BLOCK;
    && v.WellFormed()
    && v.bitCount == 8 * |message| % TWO64
    && v.state == Words(Absorb(f, message, whole))
    && v.buffer[..|message| % BLOCK] == message[BLOCK * whole..]
  }

  /** The code's count of buffered bytes, however long the message. */
  lemma BufferedCount(length: nat)
    ensures (8 * length % TWO64) / 8 % BLOCK == length % BLOCK
  {
    var q := 8 * length / TWO64;
    assert 8 * length % TWO64 == 8 * (length - 0x2000_0000_0000_0000 * q);
  }

  lemma CountAdds(length: nat, more: nat)
    ensures (8 * length % TWO64 + more * 8) % TWO64 == 8 * (length + more) % TWO64
  {
  }

  /** The state words cover the first n blocks of the message. */
  ghost predicate Covers(f: Compression, state: seq<word>, message: seq<byte>, n: nat) {
    BLOCK * n <= |message| && state == Words(Absorb(f, message, n))
  }

  lemma CoversNext(f: Compression, state: seq<word>, state': seq<word>, message: seq<byte>, n: nat)
    requires Covers(f, state, message, n) && BLOCK * (n + 1) <= |message|
    requires state' == Words(f(HashOf(state), BlockAt(message, n)))
    ensures Covers(f, state', message, n + 1)
  {
    AbsorbNext(f, message, n);
    assert HashOf(state) == Absorb(f, message, n);
  }

  /** The message schedule, expanded in place: the block's own words first. */
  method LoadWords(w: array<word>, block: Block)
    requires w.Length == 80
    modifies w
    ensures forall t :: 0 <= t < 16 ==> w[t] == W(block, t)
  {
    for i := 0 to 16
      invariant forall t :: 0 <= t < i ==> w[t] == W(block, t)
    {
      w[i] := Word(block[4 * i], block[4 * i + 1], block[4 * i + 2], block[4 * i + 3]);
    }
  }

  /** Word t follows from four earlier ones. */
  predicate Follows(words: seq<word>, t: nat) {
    16 <= t < |words| ==> words[t] == Mix(words[t - 3], words[t - 8], words[t - 14], words[t - 16])
  }

  lemma ScheduleNext(block: Block, t: nat)
    ensures Follows(Schedule(block), t)
  {
  }

  /** Then each word from four earlier ones. */
  method ExpandSchedule(w: array<word>, ghost words: seq<word>)
    requires w.Length == 80 == |words| && forall t :: 0 <= t < 16 ==> w[t] == words[t]
    requires forall t: nat :: Follows(words, t)
    modifies w
    ensures w[..] == words
  {
    for i := 16 to 80
      invariant forall t :: 0 <= t < i ==> w[t] == words[t]
    {
      assert Follows(words, i);
      w[i] := RotateLeft(Xor32(Xor32(Xor32(w[i - 3], w[i - 8]), w[i - 14]), w[i - 16]), 2);
    }
  }

  /** The branch of the round loop: its function value and its constant. */
  method RoundFunction(i: nat, b: word, c: word, d: word) returns (f: word, k: word)
    ensures f == F(i, b, c, d) && k == K(i)
  {
    if i < 20 {
      f, k := Or32(And32(b, c), And32(Not32(b), d)), 0x5a827999;
      ChooseOr(b, c, d);
    } else if i < 40 {
      f, k := Xor32(Xor32(b, c), d), 0x6ed9eba1;
    } else if i < 60 {
      f, k := Or32(Or32(And32(b, c), And32(b, d)), And32(c, d)), 0x8f1bbcdc;
      MajorityOr(b, c, d);
    } else {
      f, k := Xor32(Xor32(b, c), d), 0xca62c1d6;
    }
  }

  /** One turn of the round loop. */
  method OneRound(i: nat, h: Hash, word: word) returns (h': Hash)
    ensures h' == Round(h, i, word)
  {
    var f, k := RoundFunction(i, h.b, h.c, h.d);
    var temp := (RotateLeft(h.a, 0x20) + f + h.e + k + word) % TWO32;
    h' := Hash(temp, h.a, RotateLeft(h.b, 0x4000_0000), h.c, h.d);
  }

  /** The final addition into the state words. */
  method AddHash(state: array<word>, h: Hash)
    requires state.Length == 5
    modifies state
    ensures state[..] == Words(Plus(old(HashOf(state[..])), h))
  {
    state[0] := (state[0] + h.a) % TWO32;
    state[1] := (state[1] + h.b) % TWO32;
    state[2] := (state[2] + h.c) % TWO32;
    state[3] := (state[3] + h.d) % TWO32;
    state[4] := (state[4] + h.e) % TWO32;
  }

  /** The round loop over an expanded schedule. */
  method RunRounds(first: Hash, w: array<word>) returns (h: Hash)
    requires w.Length == 80
    ensures h == Rounds(first, w[..])
  {
    h := first;
    for i := 0 to 80
      invariant h == Rounds(first, w[..i])
    {
      assert w[..i + 1][..i] == w[..i];
      h := OneRound(i, h, w[i]);
    }
    assert w[..80] == w[..];
  }

  /** One SHA-1 compression over a 64-byte block, on the state words in place. */
  method Sha1Compress(state: array<word>, block: Block)
    requires state.Length == 5
    modifies state
    ensures state[..] == Words(Compress(old(HashOf(state[..])), block))
  {
    var w := new word[80];
    LoadWords(w, block);
    forall t: nat ensures Follows(Schedule(block), t) {
      ScheduleNext(block, t);
    }
    ExpandSchedule(w, Schedule(block));
    var h := RunRounds(Hash(state[0], state[1], state[2], state[3], state[4]), w);
    AddHash(state, h);
  }

  /** What a message still owes after its whole blocks. */
  function Tail(message: seq<byte>): seq<byte> { message[BLOCK * (|message| / BLOCK)..] }

  function LengthOf(message: seq<byte>): seq<byte> { LengthField(8 * |message| % TWO64) }

  /** A block of the whole message lies in the input. */
  lemma InputBlock(message: seq<byte>, input: seq<byte>, consumed: nat, n: nat)
    requires |message| + consumed == BLOCK * n && consumed + BLOCK <= |input|
    ensures input[consumed..consumed + BLOCK] == BlockAt(message + input, n)
  {
    assert (message + input)[|message| + consumed..|message| + consumed + BLOCK] == input[consumed..consumed + BLOCK];
  }

  /** So does what follows the last whole block. */
  lemma InputTail(message: seq<byte>, input: seq<byte>, consumed: nat)
    requires (|message| + consumed) % BLOCK == 0 && consumed <= |input| && |input| - consumed < BLOCK
    ensures |message + input| / BLOCK == (|message| + consumed) / BLOCK
    ensures |message + input| % BLOCK == |input| - consumed
    ensures (message + input)[BLOCK * (|message + input| / BLOCK)..] == input[consumed..]
  {
    assert (message + input)[|message| + consumed..] == input[consumed..];
  }

  lemma PadTail(message: seq<byte>)
    ensures Pad(message)[BLOCK * (|message| / BLOCK)..] ==
      Tail(message) + [0x80] + Zeros(PadZeros(|message|)) + LengthOf(message)
  {
  }

  /** The last block of the padded message. */
  function LastBlock(message: seq<byte>): Block {
    BlockAt(Pad(message), |Pad(message)| / BLOCK - 1)
  }

  /** What a context is left with: the hash of the whole message, the bit count
      as it was, and the last padded block. */
  ghost function Finished(f: Compression, message: seq<byte>): (v: Value)
    ensures v.WellFormed() && DigestWith(f, message) == HashBytes(HashOf(v.state))
  {
    var h := Absorb(f, Pad(message), |Pad(message)| / BLOCK);
    assert HashOf(Words(h)) == h;
    Value(Words(h), 8 * |message| % TWO64, LastBlock(message))
  }

  /** The padding fits after the message's tail. */
  lemma OneBlockPadding(message: seq<byte>)
    requires |message| % BLOCK + 1 <= BLOCK - 8
    ensures |Pad(message)| == BLOCK * (|message| / BLOCK) + BLOCK
    ensures BlockAt(Pad(message), |message| / BLOCK) ==
      Tail(message) + [0x80] + Zeros(BLOCK - 9 - |message| % BLOCK) + LengthOf(message)
  {
    PadTail(message);
  }

  /** The padding needs a block of its own. */
  lemma TwoBlockPadding(message: seq<byte>)
    requires |message| % BLOCK + 1 > BLOCK - 8
    ensures |Pad(message)| == BLOCK * (|message| / BLOCK) + 2 * BLOCK
    ensures BlockAt(Pad(message), |message| / BLOCK) == Tail(message) + [0x80] + Zeros(BLOCK - 1 - |message| % BLOCK)
    ensures BlockAt(Pad(message), |message| / BLOCK + 1) == Zeros(BLOCK - 8) + LengthOf(message)
  {
    PadTail(message);
    var here := BLOCK - 1 - |message| % BLOCK;
    assert Zeros(PadZeros(|message|)) == Zeros(here) + Zeros(BLOCK - 8);
    var rest := Pad(message)[BLOCK * (|message| / BLOCK)..];
    assert rest == (Tail(message) + [0x80] + Zeros(here)) + (Zeros(BLOCK - 8) + LengthOf(message));
    assert BlockAt(Pad(message), |message| / BLOCK) == rest[..BLOCK];
    assert BlockAt(Pad(message), |message| / BLOCK + 1) == rest[BLOCK..];
  }

  /** The bytes of the first n words. */
  function BytesOfFirst(words: seq<word>, n: nat): (s: seq<byte>)
    requires n <= |words|
    ensures |s| == 4 * n
  {
    if n == 0 then [] else BytesOfFirst(words, n - 1) + BytesOf(words[n - 1])
  }

  lemma FiveWords(words: seq<word>)
    requires |words| == 5
    ensures BytesOfFirst(words, 5) == HashBytes(HashOf(words))
  {
    assert BytesOfFirst(words, 1) == [] + BytesOf(words[0]) == BytesOf(words[0]);
    assert BytesOfFirst(words, 2) == BytesOfFirst(words, 1) + BytesOf(words[1]);
    assert BytesOfFirst(words, 3) == BytesOfFirst(words, 2) + BytesOf(words[2]);
    assert BytesOfFirst(words, 4) == BytesOfFirst(words, 3) + BytesOf(words[3]);
  }

  class Context {
    const state: array<word>
    var bitCount: nat
    const buffer: array<byte>

    function Contents(): Value
      reads this, state, buffer
    {
      Value(state[..], bitCount, buffer[..])
    }

    constructor ()
      ensures Contents().WellFormed() && forall f: Compression :: Represents(f, Contents(), [])
      ensures fresh(state) && fresh(buffer)
    {
      state := new word[5] [0x67452301, 0xefcdab89, 0x98badcfe, 0x10325476, 0xc3d2e1f0];
      bitCount := 0;
      buffer := new byte[64](_ => 0);
    }

    /** A context with given contents. */
    constructor Of(v: Value)
      requires v.WellFormed()
      ensures Contents() == v && fresh(state) && fresh(buffer)
    {
      state := new word[5](i requires 0 <= i < 5 => v.state[i]);
      bitCount := v.bitCount;
      buffer := new byte[64](i requires 0 <= i < 64 => v.buffer[i]);
      new;
      assert state[..] == v.state;
      assert buffer[..] == v.buffer;
    }

    /** memcpy into the block buffer. */
    method CopyToBuffer(at: nat, bytes: seq<byte>)
      requires buffer.Length == BLOCK && at + |bytes| <= BLOCK
      modifies buffer
      ensures buffer[..] == old(buffer[..at]) + bytes + old(buffer[at + |bytes|..])
    {
      forall i | 0 <= i < |bytes| {
        buffer[at + i] := bytes[i];
      }
    }

    /** Compresses the next block of the message. */
    method AbsorbBlock(block: Block, ghost f: Compression, ghost message: seq<byte>, ghost n: nat)
      requires IsSha1(f)
      requires state.Length == 5 && Covers(f, state[..], message, n)
      requires BLOCK * (n + 1) <= |message| && block == BlockAt(message, n)
      modifies state
      ensures Covers(f, state[..], message, n + 1)
    {
      ghost var before := state[..];
      Sha1Compress(state, block);
      CoversNext(f, before, state[..], message, n);
    }

    /** The loop over whole blocks of the input, read where they lie. */
    method AbsorbWholeBlocks(input: seq<byte>, start: nat, ghost f: Compression, ghost message: seq<byte>, ghost first: nat)
      returns (consumed: nat)
      requires IsSha1(f)
      requires state.Length == 5 && start <= |input|
      requires |message| + start == BLOCK * first && Covers(f, state[..], message + input, first)
      modifies state
      ensures consumed <= |input| && |input| - consumed < BLOCK
      ensures (|message| + consumed) % BLOCK == 0
      ensures Covers(f, state[..], message + input, (|message| + consumed) / BLOCK)
    {
      consumed := start;
      ghost var n := first;
      while |input| - consumed >= BLOCK
        invariant consumed <= |input|
        invariant |message| + consumed == BLOCK * n
        invariant Covers(f, state[..], message + input, n)
      {
        InputBlock(message, input, consumed, n);
        AbsorbBlock(input[consumed..consumed + BLOCK], f, message + input, n);
        consumed := consumed + BLOCK;
        n := n + 1;
      }
    }

    /** Tops up a partly filled buffer; absorbs it when it is full. */
    method FillBuffer(input: seq<byte>, buffered: nat, ghost f: Compression, ghost message: seq<byte>) returns (take: nat)
      requires IsSha1(f)
      requires state.Length == 5 && buffer.Length == BLOCK
      requires Covers(f, state[..], message, |message| / BLOCK)
      requires buffered == |message| % BLOCK != 0
      requires buffer[..buffered] == message[BLOCK * (|message| / BLOCK)..]
      modifies state, buffer
      ensures take <= |input| && take == (if |input| < BLOCK - buffered then |input| else BLOCK - buffered)
      ensures take < BLOCK - buffered ==>
        && Covers(f, state[..], message + input, |message| / BLOCK)
        && buffer[..buffered + take] == (message + input)[BLOCK * (|message| / BLOCK)..]
      ensures take == BLOCK - buffered ==> Covers(f, state[..], message + input, |message| / BLOCK + 1)
    {
      ghost var whole := |message| / BLOCK;
      var space := BLOCK - buffered;
      take := if |input| < space then |input| else space;
      AbsorbPrefix(f, message, message + input, whole);
      CopyToBuffer(buffered, input[..take]);
      assert buffer[..buffered + take] == (message + input)[BLOCK * whole..BLOCK * whole + buffered + take];
      if take == space {
        assert buffer[..] == BlockAt(message + input, whole);
        AbsorbBlock(buffer[..], f, message + input, whole);
      }
    }

    /** Whole blocks of the input, then the remainder into the empty buffer. */
    method AbsorbRest(input: seq<byte>, start: nat, ghost f: Compression, ghost message: seq<byte>)
      requires IsSha1(f)
      requires state.Length == 5 && buffer.Length == BLOCK && start <= |input|
      requires (|message| + start) % BLOCK == 0
      requires Covers(f, state[..], message + input, (|message| + start) / BLOCK)
      modifies state, buffer
      ensures Covers(f, state[..], message + input, |message + input| / BLOCK)
      ensures buffer[..|message + input| % BLOCK] == (message + input)[BLOCK * (|message + input| / BLOCK)..]
    {
      var consumed := AbsorbWholeBlocks(input, start, f, message, (|message| + start) / BLOCK);
      if consumed < |input| {
        CopyToBuffer(0, input[consumed..]);
      }
      InputTail(message, input, consumed);
    }

    method Update(input: seq<byte>, ghost f: Compression, ghost message: seq<byte>)
      requires IsSha1(f)
      requires Represents(f, Contents(), message) && |input| < TWO32
      modifies this, state, buffer
      ensures Represents(f, Contents(), message + input)
    {
      var buffered := bitCount / 8 % BLOCK;
      BufferedCount(|message|);
      CountAdds(|message|, |input|);
      bitCount := (bitCount + |input| * 8) % TWO64;
      UpdateBlocks(input, buffered, f, message);
    }

    /** The part of Update that moves bytes. */
    method UpdateBlocks(input: seq<byte>, buffered: nat, ghost f: Compression, ghost message: seq<byte>)
      requires IsSha1(f)
      requires state.Length == 5 && buffer.Length == BLOCK && buffered == |message| % BLOCK
      requires Covers(f, state[..], message, |message| / BLOCK)
      requires buffer[..buffered] == message[BLOCK * (|message| / BLOCK)..]
      modifies state, buffer
      ensures Covers(f, state[..], message + input, |message + input| / BLOCK)
      ensures buffer[..|message + input| % BLOCK] == (message + input)[BLOCK * (|message + input| / BLOCK)..]
    {
      if buffered == 0 {
        AbsorbPrefix(f, message, message + input, |message| / BLOCK);
        AbsorbRest(input, 0, f, message);
      } else {
        var take := FillBuffer(input, buffered, f, message);
        if take < BLOCK - buffered {
          Arith.DivisionIs(|message + input|, BLOCK, |message| / BLOCK, buffered + take);
        } else {
          Arith.DivisionIs(|message| + take, BLOCK, |message| / BLOCK + 1, 0);
          AbsorbRest(input, take, f, message);
        }
      }
    }

    /** memset to zero of a stretch of the buffer. */
    method ZeroBuffer(from: nat, to: nat)
      requires buffer.Length == BLOCK && from <= to <= BLOCK
      modifies buffer
      ensures buffer[..] == old(buffer[..from]) + Zeros(to - from) + old(buffer[to..])
    {
      forall i | from <= i < to {
        buffer[i] := 0;
      }
    }

    /** The length loop of Final: the last eight bytes of the buffer. */
    method AppendLength(bits: nat)
      requires buffer.Length == BLOCK
      modifies buffer
      ensures buffer[..] == old(buffer[..BLOCK - 8]) + LengthField(bits)
    {
      for i := 0 to 8
        invariant forall k :: 0 <= k < BLOCK - 8 ==> buffer[k] == old(buffer[k])
        invariant forall j :: 0 <= j < i ==> buffer[BLOCK - 1 - j] == ByteAt(bits, j)
      {
        buffer[BLOCK - 1 - i] := ByteAt(bits, i);
      }
      forall k | 0 <= k < 8
        ensures buffer[BLOCK - 8 + k] == LengthField(bits)[k]
      {
        assert buffer[BLOCK - 1 - (7 - k)] == ByteAt(bits, 7 - k);
      }
    }

    /** One word as big-endian bytes. */
    static method WriteWord(digest: array<byte>, at: nat, w: word)
      requires at + 4 <= digest.Length
      modifies digest
      ensures digest[..at + 4] == old(digest[..at]) + BytesOf(w)
    {
      digest[at] := ByteOf(w / 0x100_0000);
      digest[at + 1] := ByteOf(w / 0x1_0000);
      digest[at + 2] := ByteOf(w / 0x100);
      digest[at + 3] := ByteOf(w);
      assert digest[..at] == old(digest[..at]) && digest[at..at + 4] == BytesOf(w);
      assert digest[..at + 4] == digest[..at] + digest[at..at + 4];
    }

    /** The state words as big-endian bytes. */
    method WriteDigest(digest: array<byte>)
      requires state.Length == 5 && digest.Length == 20 && digest != buffer
      modifies digest
      ensures digest[..] == HashBytes(HashOf(state[..]))
    {
      ghost var words := state[..];
      for i := 0 to 5
        invariant digest[..4 * i] == BytesOfFirst(words, i)
      {
        WriteWord(digest, 4 * i, state[i]);
      }
      FiveWords(words);
      assert digest[..20] == digest[..];
    }

    /** Marks the end of the message and, when the length no longer fits,
        completes and absorbs one more block.  Returns how far the last block
        is filled. */
    method BeginPadding(buffered: nat, ghost f: Compression, ghost message: seq<byte>) returns (filled: nat)
      requires IsSha1(f)
      requires state.Length == 5 && buffer.Length == BLOCK && buffered == |message| % BLOCK
      requires Covers(f, state[..], message, |message| / BLOCK)
      requires buffer[..buffered] == Tail(message)
      modifies state, buffer
      ensures filled == (if buffered + 1 > BLOCK - 8 then 0 else buffered + 1)
      ensures buffer[..filled] == if filled == 0 then [] else Tail(message) + [0x80]
      ensures Covers(f, state[..], Pad(message), |message| / BLOCK + if filled == 0 then 1 else 0)
    {
      AbsorbPrefix(f, message, Pad(message), |message| / BLOCK);
      buffer[buffered] := 0x80;
      filled := buffered + 1;
      assert buffer[..filled] == Tail(message) + [0x80];
      if filled > BLOCK - 8 {
        TwoBlockPadding(message);
        ZeroBuffer(filled, BLOCK);
        AbsorbBlock(buffer[..], f, Pad(message), |message| / BLOCK);
        filled := 0;
      }
    }

    /** Completes the last block with zeros and the length, and absorbs it. */
    method FinishPadding(filled: nat, ghost f: Compression, ghost message: seq<byte>)
      requires IsSha1(f)
      requires state.Length == 5 && buffer.Length == BLOCK && bitCount == 8 * |message| % TWO64
      requires filled == (if |message| % BLOCK + 1 > BLOCK - 8 then 0 else |message| % BLOCK + 1)
      requires buffer[..filled] == if filled == 0 then [] else Tail(message) + [0x80]
      requires Covers(f, state[..], Pad(message), |message| / BLOCK + if filled == 0 then 1 else 0)
      modifies state, buffer
      ensures Covers(f, state[..], Pad(message), |Pad(message)| / BLOCK) && buffer[..] == LastBlock(message)
    {
      ghost var n := |message| / BLOCK + if filled == 0 then 1 else 0;
      if filled == 0 { TwoBlockPadding(message); } else { OneBlockPadding(message); }
      ZeroBuffer(filled, BLOCK - 8);
      AppendLength(bitCount);
      assert buffer[..] == BlockAt(Pad(message), n);
      AbsorbBlock(buffer[..], f, Pad(message), n);
      Arith.DivisionIs(|Pad(message)|, BLOCK, n + 1, 0);
    }

    method Final(digest: array<byte>, ghost f: Compression, ghost message: seq<byte>)
      requires IsSha1(f)
      requires Represents(f, Contents(), message)
      requires digest.Length == 20 && digest != buffer
      modifies state, buffer, digest
      ensures digest[..] == DigestWith(f, message) && Contents() == Finished(f, message)
    {
      var buffered := bitCount / 8 % BLOCK;
      BufferedCount(|message|);
      var filled := BeginPadding(buffered, f, message);
      FinishPadding(filled, f, message);
      WriteDigest(digest);
    }
  }

  function Flatten(chunks: seq<seq<byte>>): seq<byte> {
    if chunks == [] then [] else Flatten(chunks[..|chunks| - 1]) + chunks[|chunks| - 1]
  }

  lemma {:induction false} ChainSame(f: Compression, h: Hash, blocks: seq<Block>)
    requires IsSha1(f)
    ensures Chain(f, h, blocks) == Chain(Compress, h, blocks)
  {
    if blocks != [] {
      ChainSame(f, h, blocks[..|blocks| - 1]);
      assert Chain(Compress, h, blocks) ==
        Compress(Chain(Compress, h, blocks[..|blocks| - 1]), blocks[|blocks| - 1]);
    }
  }

  /** A digest built on SHA-1's compression function is SHA-1. */
  lemma DigestWithIsDigest(f: Compression, message: seq<byte>)
    requires IsSha1(f)
    ensures DigestWith(f, message) == Digest(message)
  {
    ChainSame(f, H0, Blocks(Pad(message), |Pad(message)| / BLOCK));
  }

  lemma CompressIsSha1()
    ensures IsSha1(Compress)
  {
  }

  /** A whole run: initialise, update once per chunk, finish.  Only the
      concatenation of the chunks matters, and the result is its SHA-1. */
  method DigestOfChunks(chunks: seq<seq<byte>>) returns (result: seq<byte>)
    requires forall k :: 0 <= k < |chunks| ==> |chunks[k]| < TWO32
    ensures result == Digest(Flatten(chunks))
  {
    CompressIsSha1();
    ghost var f: Compression := Compress;
    result := DigestOfChunksWith(chunks, f);
  }

  lemma FlattenNext(chunks: seq<seq<byte>>, i: nat)
    requires i < |chunks|
    ensures Flatten(chunks[..i + 1]) == Flatten(chunks[..i]) + chunks[i]
  {
    assert chunks[..i + 1][..i] == chunks[..i];
  }

  method DigestOf(context: Context, ghost f: Compression, ghost message: seq<byte>) returns (result: seq<byte>)
    requires IsSha1(f) && Represents(f, context.Contents(), message)
    modifies context.state, context.buffer
    ensures result == DigestWith(f, message)
  {
    var digest := new byte[20](_ => 0);
    context.Final(digest, f, message);
    result := digest[..];
  }

  method DigestOfChunksWith(chunks: seq<seq<byte>>, ghost f: Compression) returns (result: seq<byte>)
    requires IsSha1(f)
    requires forall k :: 0 <= k < |chunks| ==> |chunks[k]| < TWO32
    ensures result == DigestWith(f, Flatten(chunks))
  {
    var context := new Context();
    for i := 0 to |chunks|
      invariant fresh(context) && fresh(context.state) && fresh(context.buffer)
      invariant Represents(f, context.Contents(), Flatten(chunks[..i]))
    {
      FlattenNext(chunks, i);
      context.Update(chunks[i], f, Flatten(chunks[..i]));
    }
    assert chunks[..|chunks|] == chunks;
    result := DigestOf(context, f, Flatten(chunks));
  }
}
