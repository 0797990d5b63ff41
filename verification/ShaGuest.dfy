/**
 The guest entry points XcSHAInit, XcSHAUpdate and XcSHAFinal of
 recomp-runtime/kernel_crypto.c.  The context lives in guest memory between
 calls, 24 bytes into the structure the guest allocated: five little-endian
 words, a 64-bit bit count and the block buffer.
 */
module ShaGuest {
  import opened MachineWords
  import opened Sha1
  import opened ShaStream

  const PREFIX := 24
  const STATE := PREFIX
  const COUNT := STATE + 20
  const BUFFER := COUNT + 8
  const CONTEXT_BYTES := BUFFER + 64

  function LittleEndian(bytes: seq<byte>): nat {
    if bytes == [] then 0 else bytes[0] as int + 0x100 * LittleEndian(bytes[1..])
  }

  lemma JoinBytes(w: word)
    ensures LittleEndian([ByteAt(w, 0), ByteAt(w, 1), ByteAt(w, 2), ByteAt(w, 3)]) == w
  {
    var w1 := w / 0x100;
    var w2 := w1 / 0x100;
    var w3 := w2 / 0x100;
    var b := [ByteAt(w, 0), ByteAt(w, 1), ByteAt(w, 2), ByteAt(w, 3)];
    assert ByteAt(w, 1) == ByteAt(w1, 0) == ByteOf(w1);
    assert ByteAt(w, 2) == ByteAt(w1, 1) == ByteAt(w2, 0) == ByteOf(w2);
    assert ByteAt(w, 3) == ByteAt(w1, 2) == ByteAt(w2, 1) == ByteAt(w3, 0) == w3;
    assert b[1..][1..] == b[2..] && b[2..][1..] == b[3..] && b[3..][1..] == [];
    assert LittleEndian(b[3..]) == w3;
    assert LittleEndian(b[2..]) == w2;
    assert LittleEndian(b[1..]) == w1;
  }

  /** A little-endian word of memory. */
  function U32At(mem: seq<byte>, at: nat): nat
    requires at + 4 <= |mem|
  {
    LittleEndian(mem[at..at + 4])
  }

  lemma U32Bound(mem: seq<byte>, at: nat)
    requires at + 4 <= |mem|
    ensures U32At(mem, at) < TWO32
  {
    var b := mem[at..at + 4];
    assert b[1..][1..] == b[2..] && b[2..][1..] == b[3..] && b[3..][1..] == [];
    assert LittleEndian(b[3..]) == b[3];
    assert LittleEndian(b[2..]) == b[2] as int + 0x100 * LittleEndian(b[3..]);
    assert LittleEndian(b[1..]) == b[1] as int + 0x100 * LittleEndian(b[2..]);
  }

  function WordAt(mem: seq<byte>, at: nat): word
    requires at + 4 <= |mem|
  {
    U32Bound(mem, at);
    U32At(mem, at)
  }

  lemma TakeByte(b: byte, bytes: seq<byte>)
    ensures LittleEndian([b] + bytes) == b as int + 0x100 * LittleEndian(bytes)
  {
    assert ([b] + bytes)[1..] == bytes;
  }

  /** The bit count is kept as two words, the low one first. */
  lemma TwoWords(mem: seq<byte>, at: nat)
    requires at + 8 <= |mem|
    ensures LittleEndian(mem[at..at + 8]) == U32At(mem, at) + TWO32 * U32At(mem, at + 4)
    ensures LittleEndian(mem[at..at + 8]) < TWO64
  {
    var a, b := mem[at..at + 4], mem[at + 4..at + 8];
    assert mem[at..at + 8] == [a[0]] + ([a[1]] + ([a[2]] + ([a[3]] + b)));
    assert a == [a[0]] + ([a[1]] + ([a[2]] + ([a[3]] + [])));
    TakeByte(a[3], b);
    TakeByte(a[2], [a[3]] + b);
    TakeByte(a[1], [a[2]] + ([a[3]] + b));
    TakeByte(a[0], [a[1]] + ([a[2]] + ([a[3]] + b)));
    TakeByte(a[3], []);
    TakeByte(a[2], [a[3]] + []);
    TakeByte(a[1], [a[2]] + ([a[3]] + []));
    TakeByte(a[0], [a[1]] + ([a[2]] + ([a[3]] + [])));
    U32Bound(mem, at);
    U32Bound(mem, at + 4);
  }

  /** The context that guest memory holds. */
  function ContextAt(mem: seq<byte>, at: nat): Value
    requires at + CONTEXT_BYTES <= |mem|
  {
    Value(seq(5, i requires 0 <= i < 5 => WordAt(mem, at + STATE + 4 * i)),
          LittleEndian(mem[at + COUNT..at + BUFFER]),
          mem[at + BUFFER..at + BUFFER + 64])
  }

  /** Memory holds the context of this message. */
  ghost predicate Holds(f: Compression, mem: seq<byte>, at: nat, message: seq<byte>) {
    at + CONTEXT_BYTES <= |mem| && Represents(f, ContextAt(mem, at), message)
  }

  /** Nothing outside [from, to) differs. */
  ghost predicate SameOutside(mem: seq<byte>, mem': seq<byte>, from: nat, to: nat) {
    |mem| == |mem'| && forall k :: 0 <= k < |mem| && !(from <= k < to) ==> mem'[k] == mem[k]
  }

  method StoreU32(mem: array<byte>, at: nat, w: word)
    requires at + 4 <= mem.Length
    modifies mem
    ensures U32At(mem[..], at) == w
    ensures SameOutside(old(mem[..]), mem[..], at, at + 4)
  {
    mem[at] := ByteAt(w, 0);
    mem[at + 1] := ByteAt(w, 1);
    mem[at + 2] := ByteAt(w, 2);
    mem[at + 3] := ByteAt(w, 3);
    JoinBytes(w);
    assert mem[at..at + 4] == [ByteAt(w, 0), ByteAt(w, 1), ByteAt(w, 2), ByteAt(w, 3)];
  }

  lemma SameSlice(mem: seq<byte>, mem': seq<byte>, from: nat, to: nat, at: nat, length: nat)
    requires SameOutside(mem, mem', from, to) && at + length <= |mem|
    requires at + length <= from || to <= at
    ensures mem'[at..at + length] == mem[at..at + length]
  {
  }

  method LoadContext(mem: array<byte>, at: nat) returns (context: Context)
    requires at + CONTEXT_BYTES <= mem.Length
    ensures fresh(context) && fresh(context.state) && fresh(context.buffer)
    ensures context.Contents() == ContextAt(mem[..], at)
  {
    var m := mem[..];
    var state := seq(5, i requires 0 <= i < 5 => WordAt(m, at + STATE + 4 * i));
    var bitCount := U32At(m, at + COUNT) + TWO32 * U32At(m, at + COUNT + 4);
    TwoWords(m, at + COUNT);
    context := new Context.Of(Value(state, bitCount, m[at + BUFFER..at + BUFFER + 64]));
  }

  method StoreState(mem: array<byte>, at: nat, state: array<word>)
    requires at + CONTEXT_BYTES <= mem.Length && state.Length == 5
    modifies mem
    ensures forall j :: 0 <= j < 5 ==> U32At(mem[..], at + STATE + 4 * j) == state[j]
    ensures SameOutside(old(mem[..]), mem[..], at + STATE, at + COUNT)
  {
    for i := 0 to 5
      invariant forall j :: 0 <= j < i ==> U32At(mem[..], at + STATE + 4 * j) == state[j]
      invariant SameOutside(old(mem[..]), mem[..], at + STATE, at + STATE + 4 * i)
    {
      ghost var before := mem[..];
      StoreU32(mem, at + STATE + 4 * i, state[i]);
      forall j | 0 <= j < i
        ensures U32At(mem[..], at + STATE + 4 * j) == U32At(before, at + STATE + 4 * j)
      {
        SameSlice(before, mem[..], at + STATE + 4 * i, at + STATE + 4 * i + 4, at + STATE + 4 * j, 4);
      }
    }
  }

  method StoreCount(mem: array<byte>, at: nat, bitCount: nat)
    requires at + CONTEXT_BYTES <= mem.Length && bitCount < TWO64
    modifies mem
    ensures LittleEndian(mem[at + COUNT..at + BUFFER]) == bitCount
    ensures SameOutside(old(mem[..]), mem[..], at + COUNT, at + BUFFER)
  {
    StoreU32(mem, at + COUNT, bitCount % TWO32);
    ghost var before := mem[..];
    StoreU32(mem, at + COUNT + 4, bitCount / TWO32);
    SameSlice(before, mem[..], at + COUNT + 4, at + BUFFER, at + COUNT, 4);
    TwoWords(mem[..], at + COUNT);
    assert mem[..][at + COUNT..at + BUFFER] == mem[at + COUNT..at + BUFFER];
  }

  method StoreBuffer(mem: array<byte>, at: nat, buffer: array<byte>)
    requires at + CONTEXT_BYTES <= mem.Length && buffer.Length == 64 && buffer != mem
    modifies mem
    ensures mem[at + BUFFER..at + CONTEXT_BYTES] == buffer[..]
    ensures SameOutside(old(mem[..]), mem[..], at + BUFFER, at + CONTEXT_BYTES)
  {
    forall i | 0 <= i < 64 {
      mem[at + BUFFER + i] := buffer[i];
    }
  }

  method StoreContext(mem: array<byte>, at: nat, context: Context)
    requires at + CONTEXT_BYTES <= mem.Length && mem != context.buffer
    requires context.Contents().WellFormed()
    modifies mem
    ensures ContextAt(mem[..], at) == context.Contents()
    ensures SameOutside(old(mem[..]), mem[..], at + PREFIX, at + CONTEXT_BYTES)
  {
    StoreState(mem, at, context.state);
    ghost var m1 := mem[..];
    StoreCount(mem, at, context.bitCount);
    ghost var m2 := mem[..];
    StoreBuffer(mem, at, context.buffer);
    ghost var m3 := mem[..];
    assert m2[at + COUNT..at + BUFFER] == mem[..][at + COUNT..at + BUFFER] by {
      SameSlice(m2, m3, at + BUFFER, at + CONTEXT_BYTES, at + COUNT, 8);
    }
    forall j | 0 <= j < 5
      ensures WordAt(m3, at + STATE + 4 * j) == context.state[j]
    {
      SameSlice(m1, m2, at + COUNT, at + BUFFER, at + STATE + 4 * j, 4);
      SameSlice(m2, m3, at + BUFFER, at + CONTEXT_BYTES, at + STATE + 4 * j, 4);
    }
    assert ContextAt(m3, at).state == context.state[..];
  }

  /** XcSHAInit.  A null context is ignored. */
  method XcShaInit(mem: array<byte>, at: nat, ghost f: Compression)
    requires at + CONTEXT_BYTES <= mem.Length
    modifies mem
    ensures at == 0 ==> mem[..] == old(mem[..])
    ensures at != 0 ==> Holds(f, mem[..], at, [])
    ensures SameOutside(old(mem[..]), mem[..], at + PREFIX, at + CONTEXT_BYTES)
  {
    if at != 0 {
      var context := new Context();
      StoreContext(mem, at, context);
    }
  }

  /** XcSHAUpdate.  The input may lie anywhere in memory, even inside the
      context: its bytes are taken before the context is written back. */
  method XcShaUpdate(mem: array<byte>, at: nat, input: nat, length: nat,
                     ghost f: Compression, ghost message: seq<byte>)
    requires at + CONTEXT_BYTES <= mem.Length && input + length <= mem.Length && length < TWO32
    requires IsSha1(f) && (at != 0 ==> Holds(f, mem[..], at, message))
    modifies mem
    ensures at == 0 || (input == 0 && length != 0) ==> mem[..] == old(mem[..])
    ensures at != 0 && (input != 0 || length == 0) ==>
      Holds(f, mem[..], at, message + old(mem[input..input + length]))
    ensures SameOutside(old(mem[..]), mem[..], at + PREFIX, at + CONTEXT_BYTES)
  {
    if at != 0 && (input != 0 || length == 0) {
      var context := LoadContext(mem, at);
      if length != 0 {
        context.Update(mem[input..input + length], f, message);
      } else {
        assert message + mem[input..input + length] == message;
      }
      StoreContext(mem, at, context);
    }
  }

  ghost predicate Apart(from: nat, length: nat, from': nat, length': nat) {
    from + length <= from' || from' + length' <= from
  }

  predicate Within(address: nat, from: nat, length: nat) { from <= address < from + length }

  /** Two stretches are apart exactly if they share no address. */
  lemma ApartMeans(from: nat, length: nat, from': nat, length': nat)
    requires length > 0 && length' > 0
    ensures Apart(from, length, from', length') <==>
      forall address: nat :: !(Within(address, from, length) && Within(address, from', length'))
  {
    if !Apart(from, length, from', length') {
      var shared := if from < from' then from' else from;
      assert Within(shared, from, length) && Within(shared, from', length');
    }
  }

  /** Byte i of a little-endian number is its i-th byte from the low end. */
  lemma {:induction false} LowByte(bytes: seq<byte>, i: nat)
    requires i < |bytes|
    ensures ByteAt(LittleEndian(bytes), i) == bytes[i]
  {
    if i != 0 { LowByte(bytes[1..], i - 1); }
  }

  const LIVE := CONTEXT_BYTES - PREFIX

  /** Byte k of a context as guest memory holds it, from the state on. */
  function LiveByte(v: Value, k: nat): byte
    requires |v.state| == 5 && |v.buffer| == BLOCK && k < LIVE
  {
    if k < 20 then ByteAt(v.state[k / 4], k % 4) else if k < 28 then ByteAt(v.bitCount, k - 20) else v.buffer[k - 28]
  }

  lemma LiveByteAt(mem: seq<byte>, at: nat, k: nat)
    requires at + CONTEXT_BYTES <= |mem| && k < LIVE
    ensures mem[at + PREFIX + k] == LiveByte(ContextAt(mem, at), k)
  {
    if k < 20 {
      var word := at + STATE + 4 * (k / 4);
      LowByte(mem[word..word + 4], k % 4);
      assert word + k % 4 == at + PREFIX + k && mem[word..word + 4][k % 4] == mem[word + k % 4];
    } else if k < 28 {
      LowByte(mem[at + COUNT..at + BUFFER], k - 20);
      assert mem[at + COUNT..at + BUFFER][k - 20] == mem[at + PREFIX + k];
    } else {
      assert mem[at + BUFFER..at + BUFFER + 64][k - 28] == mem[at + PREFIX + k];
    }
  }

  predicate IsLive(at: nat, k: nat) { at + PREFIX <= k < at + CONTEXT_BYTES }

  predicate IsDigest(digest: nat, k: nat) { digest <= k < digest + 20 }

  /** What byte k of memory is after the digest and then the context are written. */
  ghost function FinalByte(before: seq<byte>, at: nat, digest: nat, f: Compression, message: seq<byte>, k: nat): byte
    requires k < |before|
  {
    if IsLive(at, k) then LiveByte(Finished(f, message), k - (at + PREFIX))
    else if IsDigest(digest, k) then DigestWith(f, message)[k - digest]
    else before[k]
  }

  /** Byte k of memory, which both cover, is the same in both. */
  ghost predicate Alike(f: Compression, message: seq<byte>, at: nat, digest: nat, k: nat)
    requires IsDigest(digest, k) && IsLive(at, k)
  {
    LiveByte(Finished(f, message), k - (at + PREFIX)) == DigestWith(f, message)[k - digest]
  }

  /** A digest reads as such although the context is written after it: wherever
      the two overlap, the context's byte happens to be the digest's. */
  ghost predicate Stands(f: Compression, message: seq<byte>, at: nat, digest: nat) {
    forall k: nat :: IsDigest(digest, k) && IsLive(at, k) ==> Alike(f, message, at, digest, k)
  }

  /** XcSHAFinal writes the digest first and the context after it, so the live part
      of the context covers whatever of the digest lies in it. */
  method XcShaFinal(mem: array<byte>, at: nat, digest: nat, ghost f: Compression, ghost message: seq<byte>)
    requires at + CONTEXT_BYTES <= mem.Length && digest + 20 <= mem.Length
    requires IsSha1(f) && (at != 0 ==> Holds(f, mem[..], at, message))
    modifies mem
    ensures at == 0 || digest == 0 ==> mem[..] == old(mem[..])
    ensures at != 0 && digest != 0 ==>
      forall k :: 0 <= k < mem.Length ==> mem[k] == FinalByte(old(mem[..]), at, digest, f, message, k)
    ensures at != 0 && digest != 0 ==>
      (mem[digest..digest + 20] == DigestWith(f, message) <==> Stands(f, message, at, digest))
  {
    if at != 0 && digest != 0 {
      var context := LoadContext(mem, at);
      var bytes := new byte[20](_ => 0);
      context.Final(bytes, f, message);
      forall i | 0 <= i < 20 {
        mem[digest + i] := bytes[i];
      }
      StoreContext(mem, at, context);
      forall k | 0 <= k < LIVE
        ensures mem[at + PREFIX + k] == LiveByte(Finished(f, message), k)
      {
        LiveByteAt(mem[..], at, k);
      }
      FinalBytes(old(mem[..]), mem[..], at, digest, f, message);
      DigestReads(old(mem[..]), mem[..], at, digest, f, message);
    }
  }

  ghost predicate Ended(before: seq<byte>, after: seq<byte>, at: nat, digest: nat, f: Compression, message: seq<byte>) {
    |after| == |before| && forall k :: 0 <= k < |before| ==> after[k] == FinalByte(before, at, digest, f, message, k)
  }

  lemma FinalBytes(before: seq<byte>, after: seq<byte>, at: nat, digest: nat, f: Compression, message: seq<byte>)
    requires at + CONTEXT_BYTES <= |before| && |after| == |before|
    requires forall k :: 0 <= k < LIVE ==> after[at + PREFIX + k] == LiveByte(Finished(f, message), k)
    requires forall k :: 0 <= k < |before| && !IsLive(at, k) ==>
      after[k] == if IsDigest(digest, k) then DigestWith(f, message)[k - digest] else before[k]
    ensures Ended(before, after, at, digest, f, message)
  {
    forall k | 0 <= k < |before|
      ensures after[k] == FinalByte(before, at, digest, f, message, k)
    {
      if IsLive(at, k) { assert after[at + PREFIX + (k - at - PREFIX)] == after[k]; }
    }
  }

  lemma DigestReads(before: seq<byte>, after: seq<byte>, at: nat, digest: nat, f: Compression, message: seq<byte>)
    requires digest + 20 <= |before| && Ended(before, after, at, digest, f, message)
    ensures after[digest..digest + 20] == DigestWith(f, message) <==> Stands(f, message, at, digest)
  {
    var read := after[digest..digest + 20];
    assert forall k: nat :: IsDigest(digest, k) ==> after[k] == read[k - digest];
    if Stands(f, message, at, digest) {
      forall i | 0 <= i < 20 ensures read[i] == DigestWith(f, message)[i] {
        assert IsDigest(digest, digest + i);
      }
    }
  }

  lemma StandsApart(f: Compression, message: seq<byte>, at: nat, digest: nat)
    requires Apart(digest, 20, at + PREFIX, LIVE)
    ensures Stands(f, message, at, digest)
  {
  }

  /** The same bytes from either end. */
  predicate Palindrome(w: word) { forall i: nat :: i < 4 ==> ByteAt(w, i) == ByteAt(w, 3 - i) }

  /** Byte i of the stored state words is byte i of the digest. */
  ghost predicate Agrees(f: Compression, message: seq<byte>, i: nat) {
    i < 20 && LiveByte(Finished(f, message), i) == DigestWith(f, message)[i]
  }

  /** Put where the state words go, a digest reads as one exactly if every word of
      it is the same in both byte orders. */
  lemma StandsAtState(f: Compression, message: seq<byte>, at: nat)
    ensures Stands(f, message, at, at + STATE) <==>
      forall j :: 0 <= j < 5 ==> Palindrome(Finished(f, message).state[j])
  {
    StandsIfAgrees(f, message, at);
    if forall j :: 0 <= j < 5 ==> Palindrome(Finished(f, message).state[j]) {
      forall i: nat | i < 20 ensures Agrees(f, message, i) {
        assert Palindrome(Finished(f, message).state[i / 4]);
        StateByte(f, message, i);
      }
    }
    if forall i: nat :: i < 20 ==> Agrees(f, message, i) {
      forall j | 0 <= j < 5 ensures Palindrome(Finished(f, message).state[j]) {
        WordAgrees(f, message, j);
      }
    }
  }

  lemma StandsIfAgrees(f: Compression, message: seq<byte>, at: nat)
    ensures Stands(f, message, at, at + STATE) <==> forall i: nat :: i < 20 ==> Agrees(f, message, i)
  {
    if Stands(f, message, at, at + STATE) {
      forall i: nat | i < 20 ensures Agrees(f, message, i) {
        assert Alike(f, message, at, at + STATE, at + STATE + i);
      }
    }
    if forall i: nat :: i < 20 ==> Agrees(f, message, i) {
      var digest := at + STATE;
      forall k: nat | IsDigest(digest, k) ensures Alike(f, message, at, digest, k) {
        assert Agrees(f, message, k - digest);
      }
    }
  }

  lemma WordAgrees(f: Compression, message: seq<byte>, j: nat)
    requires j < 5 && forall i: nat :: i < 20 ==> Agrees(f, message, i)
    ensures Palindrome(Finished(f, message).state[j])
  {
    var w := Finished(f, message).state[j];
    forall i: nat | i < 4 ensures ByteAt(w, i) == ByteAt(w, 3 - i) {
      ByteAgrees(f, message, j, i, 4 * j + i);
    }
  }

  lemma ByteAgrees(f: Compression, message: seq<byte>, j: nat, i: nat, at: nat)
    requires j < 5 && i < 4 && at == 4 * j + i && Agrees(f, message, at)
    ensures var w := Finished(f, message).state[j]; ByteAt(w, i) == ByteAt(w, 3 - i)
  {
    StateByte(f, message, at);
  }

  lemma StateByte(f: Compression, message: seq<byte>, i: nat)
    requires i < 20
    ensures var w := Finished(f, message).state[i / 4];
      Agrees(f, message, i) <==> ByteAt(w, i % 4) == ByteAt(w, 3 - i % 4)
  {
    HashByte(HashOf(Finished(f, message).state), i);
  }

  lemma ByteShifts(n: nat)
    ensures n / 0x1_0000 == n / 0x100 / 0x100 && n / 0x100_0000 == n / 0x100 / 0x100 / 0x100
  {
  }

  lemma WordBytes(w: word)
    ensures BytesOf(w) == [ByteAt(w, 3), ByteAt(w, 2), ByteAt(w, 1), ByteAt(w, 0)]
  {
    ByteShifts(w);
    var w1: nat := w / 0x100;
    var w2: nat := w1 / 0x100;
    assert ByteAt(w1, 0) == ByteOf(w1) && ByteAt(w2, 0) == ByteOf(w2);
    assert ByteAt(w, 1) == ByteAt(w1, 0) && ByteAt(w, 2) == ByteAt(w1, 1) == ByteAt(w2, 0);
    assert ByteAt(w, 3) == ByteAt(w1, 2) == ByteAt(w2, 1) == ByteOf(w2 / 0x100);
  }

  lemma HashByte(h: Hash, i: nat)
    requires i < 20
    ensures HashBytes(h)[i] == ByteAt(Words(h)[i / 4], 3 - i % 4)
  {
    var j := i / 4;
    WordBytes(Words(h)[j]);
    assert HashBytes(h)[4 * j..4 * j + 4] == BytesOf(Words(h)[j]);
    assert HashBytes(h)[i] == HashBytes(h)[4 * j..4 * j + 4][i % 4];
  }

  /** Put on the block buffer, a digest reads as one exactly if it is what the last
      padded block has there. */
  lemma StandsInBuffer(f: Compression, message: seq<byte>, at: nat, d: nat)
    requires d <= BLOCK - 20
    ensures Stands(f, message, at, at + BUFFER + d) <==> DigestWith(f, message) == LastBlock(message)[d..d + 20]
  {
    var digest, sum, there := at + BUFFER + d, DigestWith(f, message), LastBlock(message)[d..d + 20];
    forall k: nat | IsDigest(digest, k) ensures IsLive(at, k) && (Alike(f, message, at, digest, k) <==> Same(sum, there, k - digest)) {
      BufferByte(f, message, at, d, k);
    }
    SameThroughout(sum, there);
    if Stands(f, message, at, digest) {
      forall i: nat | i < 20 ensures Same(sum, there, i) {
        assert Alike(f, message, at, digest, digest + i);
      }
    }
  }

  predicate Same(a: seq<byte>, b: seq<byte>, i: nat) { i < |a| && i < |b| && a[i] == b[i] }

  lemma SameThroughout(a: seq<byte>, b: seq<byte>)
    requires |a| == |b|
    ensures a == b <==> forall i: nat :: i < |a| ==> Same(a, b, i)
  {
    if forall i: nat :: i < |a| ==> Same(a, b, i) {
      forall i: nat | i < |a| ensures a[i] == b[i] { assert Same(a, b, i); }
    }
  }

  /** A byte of the block buffer as the context leaves it. */
  lemma BufferByte(f: Compression, message: seq<byte>, at: nat, d: nat, k: nat)
    requires d <= BLOCK - 20 && IsDigest(at + BUFFER + d, k)
    ensures IsLive(at, k)
    ensures Alike(f, message, at, at + BUFFER + d, k) <==>
      Same(DigestWith(f, message), LastBlock(message)[d..d + 20], k - (at + BUFFER + d))
  {
    assert Finished(f, message).buffer == LastBlock(message);
  }

  /** The digest of the empty message would have to be all zeros to survive behind
      the first byte of the block buffer, and something else to survive at it: so it
      is lost at the 44 places, or at that one. */
  lemma EmptyMessageLoses(f: Compression, at: nat, d: nat)
    requires 0 < d <= BLOCK - 20
    ensures Stands(f, [], at, at + BUFFER + d) <==> DigestWith(f, []) == Zeros(20)
    ensures !Stands(f, [], at, at + BUFFER + d) || !Stands(f, [], at, at + BUFFER + 0)
  {
    var here, there := LastBlock([])[0..20], LastBlock([])[d..d + 20];
    StandsInBuffer(f, [], at, d);
    StandsInBuffer(f, [], at, 0);
    EmptyBlock(d);
    EmptyBlock(0);
    assert there == Zeros(20) && there[0] == 0 && here[0] == 0x80;
  }

  /** The padded empty message: its mark, and zeros. */
  lemma EmptyBlock(d: nat)
    requires d <= BLOCK - 20
    ensures var piece := LastBlock([])[d..d + 20];
      (d > 0 ==> piece == Zeros(20)) && piece[0] == if d == 0 then 0x80 else 0
  {
    var block := Pad([]);
    assert |block| == BLOCK && LastBlock([]) == block;
    assert block[0] == 0x80;
    forall k | 0 < k < BLOCK ensures block[k] == 0 {
      if k >= 56 { ZeroByte(7 - (k - 56)); }
    }
  }

  lemma {:induction false} ZeroByte(k: nat)
    ensures ByteAt(0, k) == 0
  {
    if k != 0 { ZeroByte(k - 1); }
  }

  /** The bytes of the given guest ranges, one after the other. */
  function Gather(mem: seq<byte>, ranges: seq<(nat, nat)>): seq<byte>
    requires forall k :: 0 <= k < |ranges| ==> ranges[k].0 + ranges[k].1 <= |mem|
  {
    if ranges == [] then []
    else
      var r := ranges[|ranges| - 1];
      Gather(mem, ranges[..|ranges| - 1]) + mem[r.0..r.0 + r.1]
  }

  /** Non-null, in memory and apart from the live part of the context. */
  ghost predicate RangeOk(size: nat, at: nat, r: (nat, nat)) {
    r.0 != 0 && r.0 + r.1 <= size && r.1 < TWO32 && Apart(r.0, r.1, at + PREFIX, CONTEXT_BYTES - PREFIX)
  }

  /** The live part of a context is its bytes 24 to 115. */
  lemma RangeMeans(size: nat, at: nat, r: (nat, nat))
    ensures RangeOk(size, at, r) <==>
      && 1 <= r.0 && r.0 + r.1 <= size && r.1 <= 0xffff_ffff && (r.0 + r.1 <= at + 24 || r.0 >= at + 116)
  {
  }

  ghost predicate RangesOk(size: nat, at: nat, ranges: seq<(nat, nat)>) {
    forall k :: 0 <= k < |ranges| ==> RangeOk(size, at, ranges[k])
  }

  /** Says of memory and a message whether Holds does, without its definition. */
  type Keeps = (seq<byte>, seq<byte>) -> bool

  ghost predicate AreHeld(keeps: Keeps, f: Compression, at: nat) {
    forall mem, message {:trigger Holds(f, mem, at, message)} :: keeps(mem, message) == Holds(f, mem, at, message)
  }

  /** One update, seen through `keeps`. */
  method UpdateKept(mem: array<byte>, at: nat, r: (nat, nat), ghost f: Compression, ghost keeps: Keeps,
                    ghost message: seq<byte>)
    requires at != 0 && at + CONTEXT_BYTES <= mem.Length && RangeOk(mem.Length, at, r)
    requires IsSha1(f) && AreHeld(keeps, f, at) && keeps(mem[..], message)
    modifies mem
    ensures keeps(mem[..], message + old(mem[r.0..r.0 + r.1]))
    ensures SameOutside(old(mem[..]), mem[..], at + PREFIX, at + CONTEXT_BYTES)
  {
    ghost var piece := mem[r.0..r.0 + r.1];
    assert Holds(f, mem[..], at, message);
    XcShaUpdate(mem, at, r.0, r.1, f, message);
    assert Holds(f, mem[..], at, message + piece);
  }

  /** One update, from a range apart from the context. */
  method GuestUpdate(mem: array<byte>, at: nat, r: (nat, nat), ghost f: Compression, ghost keeps: Keeps,
                     ghost start: seq<byte>, ghost message: seq<byte>)
    requires at != 0 && at + CONTEXT_BYTES <= mem.Length && RangeOk(mem.Length, at, r)
    requires |start| == mem.Length && SameOutside(start, mem[..], at + PREFIX, at + CONTEXT_BYTES)
    requires IsSha1(f) && AreHeld(keeps, f, at) && keeps(mem[..], message)
    modifies mem
    ensures keeps(mem[..], message + start[r.0..r.0 + r.1])
    ensures SameOutside(start, mem[..], at + PREFIX, at + CONTEXT_BYTES)
  {
    SameSlice(start, mem[..], at + PREFIX, at + CONTEXT_BYTES, r.0, r.1);
    assert mem[r.0..r.0 + r.1] == mem[..][r.0..r.0 + r.1];
    UpdateKept(mem, at, r, f, keeps, message);
  }

  /** One update per range, in order. */
  method GuestUpdates(mem: array<byte>, at: nat, ranges: seq<(nat, nat)>, ghost f: Compression, ghost keeps: Keeps)
    requires at != 0 && at + CONTEXT_BYTES <= mem.Length && RangesOk(mem.Length, at, ranges)
    requires IsSha1(f) && AreHeld(keeps, f, at) && keeps(mem[..], [])
    modifies mem
    ensures keeps(mem[..], Gather(old(mem[..]), ranges))
    ensures SameOutside(old(mem[..]), mem[..], at + PREFIX, at + CONTEXT_BYTES)
  {
    ghost var start := mem[..];
    for i := 0 to |ranges|
      invariant keeps(mem[..], Gather(start, ranges[..i]))
      invariant SameOutside(start, mem[..], at + PREFIX, at + CONTEXT_BYTES)
    {
      assert ranges[..i + 1][..i] == ranges[..i];
      GuestUpdate(mem, at, ranges[i], f, keeps, start, Gather(start, ranges[..i]));
    }
    assert ranges[..|ranges|] == ranges;
  }

  lemma {:induction false} GatherSame(mem: seq<byte>, mem': seq<byte>, at: nat, ranges: seq<(nat, nat)>)
    requires RangesOk(|mem|, at, ranges)
    requires SameOutside(mem, mem', at + PREFIX, at + CONTEXT_BYTES)
    ensures Gather(mem', ranges) == Gather(mem, ranges)
  {
    if ranges != [] {
      var r := ranges[|ranges| - 1];
      GatherSame(mem, mem', at, ranges[..|ranges| - 1]);
      SameSlice(mem, mem', at + PREFIX, at + CONTEXT_BYTES, r.0, r.1);
    }
  }

  /** A fresh context, fed every range. */
  method GuestFeed(mem: array<byte>, at: nat, ranges: seq<(nat, nat)>, ghost f: Compression)
    requires at != 0 && at + CONTEXT_BYTES <= mem.Length && RangesOk(mem.Length, at, ranges)
    requires IsSha1(f)
    modifies mem
    ensures Holds(f, mem[..], at, Gather(old(mem[..]), ranges))
    ensures SameOutside(old(mem[..]), mem[..], at + PREFIX, at + CONTEXT_BYTES)
  {
    ghost var start := mem[..];
    XcShaInit(mem, at, f);
    ghost var begun := mem[..];
    GatherSame(start, begun, at, ranges);
    ghost var keeps: Keeps := (m, message) => Holds(f, m, at, message);
    GuestUpdates(mem, at, ranges, f, keeps);
    assert Holds(f, mem[..], at, Gather(begun, ranges));
  }

  /** A whole guest run, its input apart from the live part of the context.  The
      digest reads as the SHA-1 of the gathered input whenever it is apart from
      that part too, and exactly if it stands; and the 24 bytes before the state
      keep whatever the guest stored there, unless the digest is put on them. */
  method GuestDigest(mem: array<byte>, at: nat, ranges: seq<(nat, nat)>, digest: nat)
    requires at != 0 && digest != 0 && at + CONTEXT_BYTES <= mem.Length && digest + 20 <= mem.Length
    requires RangesOk(mem.Length, at, ranges)
    modifies mem
    ensures Apart(digest, 20, at + PREFIX, LIVE) ==> mem[digest..digest + 20] == Digest(Gather(old(mem[..]), ranges))
    ensures mem[digest..digest + 20] == Digest(Gather(old(mem[..]), ranges)) <==>
      Stands(Compress, Gather(old(mem[..]), ranges), at, digest)
    ensures Apart(digest, 20, at, PREFIX) ==> mem[at..at + PREFIX] == old(mem[at..at + PREFIX])
  {
    CompressIsSha1();
    ghost var f: Compression := Compress;
    ghost var message := Gather(mem[..], ranges);
    GuestDigestWith(mem, at, ranges, digest, f);
    DigestWithIsDigest(f, message);
  }

  method GuestDigestWith(mem: array<byte>, at: nat, ranges: seq<(nat, nat)>, digest: nat, ghost f: Compression)
    requires at != 0 && digest != 0 && at + CONTEXT_BYTES <= mem.Length && digest + 20 <= mem.Length
    requires RangesOk(mem.Length, at, ranges) && IsSha1(f)
    modifies mem
    ensures Apart(digest, 20, at + PREFIX, LIVE) ==> Stands(f, Gather(old(mem[..]), ranges), at, digest)
    ensures mem[digest..digest + 20] == DigestWith(f, Gather(old(mem[..]), ranges)) <==>
      Stands(f, Gather(old(mem[..]), ranges), at, digest)
    ensures Apart(digest, 20, at, PREFIX) ==> mem[at..at + PREFIX] == old(mem[at..at + PREFIX])
  {
    ghost var start := mem[..];
    GuestFeed(mem, at, ranges, f);
    ghost var fed := mem[..];
    XcShaFinal(mem, at, digest, f, Gather(start, ranges));
    if Apart(digest, 20, at + PREFIX, LIVE) { StandsApart(f, Gather(start, ranges), at, digest); }
    if Apart(digest, 20, at, PREFIX) { PrefixKept(start, fed, mem[..], at, digest, f, Gather(start, ranges)); }
  }

  lemma PrefixKept(start: seq<byte>, fed: seq<byte>, done: seq<byte>, at: nat, digest: nat,
                   f: Compression, message: seq<byte>)
    requires at + CONTEXT_BYTES <= |start|
    requires SameOutside(start, fed, at + PREFIX, at + CONTEXT_BYTES)
    requires Ended(fed, done, at, digest, f, message) && Apart(digest, 20, at, PREFIX)
    ensures done[at..at + PREFIX] == start[at..at + PREFIX]
  {
    forall k | at <= k < at + PREFIX
      ensures done[k] == fed[k]
    {
      assert done[k] == FinalByte(fed, at, digest, f, message, k);
    }
  }
}
