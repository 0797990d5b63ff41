/**
 SHA-1 as FIPS 180-4 defines it: the functions of section 4.1.1, the padding of
 section 5.1.1 and the computation of section 6.1.2.  This is the one-shot
 definition that the streaming code is proved against.
 */
module Sha1 {
  import opened MachineWords
  import opened Bits

  type word = u32

  const BLOCK := 64

  type Block = b: seq<byte> | |b| == BLOCK witness seq(BLOCK, _ => 0)

  datatype Hash = Hash(a: word, b: word, c: word, d: word, e: word)

  const H0: Hash := Hash(0x67452301, 0xefcdab89, 0x98badcfe, 0x10325476, 0xc3d2e1f0)

  function Ch(x: word, y: word, z: word): word { Xor32(And32(x, y), And32(Not32(x), z)) }

  function Parity(x: word, y: word, z: word): word { Xor32(Xor32(x, y), z) }

  function Maj(x: word, y: word, z: word): word { Xor32(Xor32(And32(x, y), And32(x, z)), And32(y, z)) }

  function F(t: nat, x: word, y: word, z: word): word {
    if t < 20 then Ch(x, y, z) else if t < 40 then Parity(x, y, z) else if t < 60 then Maj(x, y, z) else Parity(x, y, z)
  }

  function K(t: nat): word {
    if t < 20 then 0x5a827999 else if t < 40 then 0x6ed9eba1 else if t < 60 then 0x8f1bbcdc else 0xca62c1d6
  }

  /** A big-endian word. */
  function Word(b0: byte, b1: byte, b2: byte, b3: byte): word {
    0x100_0000 * b0 + 0x1_0000 * b1 + 0x100 * b2 + b3
  }

  function Mix(p: word, q: word, r: word, s: word): word { RotateLeft(Xor32(Xor32(Xor32(p, q), r), s), 2) }

  /** The message schedule of one block. */
  function W(block: Block, t: nat): word
  {
    if t < 16 then Word(block[4 * t], block[4 * t + 1], block[4 * t + 2], block[4 * t + 3])
    else Mix(W(block, t - 3), W(block, t - 8), W(block, t - 14), W(block, t - 16))
  }

  function Round(h: Hash, t: nat, w: word): Hash {
    Hash((RotateLeft(h.a, 0x20) + F(t, h.b, h.c, h.d) + h.e + K(t) + w) % TWO32, h.a, RotateLeft(h.b, 0x4000_0000), h.c, h.d)
  }

  /** The rounds driven by the words of a schedule, in order. */
  function Rounds(h: Hash, words: seq<word>): Hash {
    if words == [] then h
    else Round(Rounds(h, words[..|words| - 1]), |words| - 1, words[|words| - 1])
  }

  function Schedule(block: Block): (words: seq<word>)
    ensures |words| == 80
  {
    seq(80, t requires 0 <= t < 80 => W(block, t))
  }

  function Plus(h: Hash, g: Hash): Hash {
    Hash((h.a + g.a) % TWO32, (h.b + g.b) % TWO32, (h.c + g.c) % TWO32, (h.d + g.d) % TWO32, (h.e + g.e) % TWO32)
  }

  function Compress(h: Hash, block: Block): Hash
  {
    Plus(h, Rounds(h, Schedule(block)))
  }

  /** f chained over blocks, from h. */
  function Chain<H, B>(f: (H, B) -> H, h: H, blocks: seq<B>): H {
    if blocks == [] then h else f(Chain(f, h, blocks[..|blocks| - 1]), blocks[|blocks| - 1])
  }

  function BlockAt(bytes: seq<byte>, k: nat): Block
    requires BLOCK * (k + 1) <= |bytes|
  {
    bytes[BLOCK * k..BLOCK * k + BLOCK]
  }

  /** The first n blocks. */
  function Blocks(bytes: seq<byte>, n: nat): (blocks: seq<Block>)
    requires BLOCK * n <= |bytes|
    ensures |blocks| == n
  {
    seq(n, k requires 0 <= k < n => BlockAt(bytes, k))
  }

  /** A compression function. */
  type Compression = (Hash, Block) -> Hash

  /** The hash after n blocks of the given bytes. */
  function Absorb(f: Compression, bytes: seq<byte>, n: nat): Hash
    requires BLOCK * n <= |bytes|
  {
    Chain(f, H0, Blocks(bytes, n))
  }

  function ByteOf(n: nat): byte { n % 256 }

  /** Byte k of a number, from the low end. */
  function ByteAt(n: nat, k: nat): byte { if k == 0 then ByteOf(n) else ByteAt(n / 0x100, k - 1) }

  /** The 64-bit big-endian message length in bits.  A message of 2^61 bytes or
      more, for which the standard defines no digest, has its length taken
      modulo 2^64. */
  function LengthField(bits: nat): (s: seq<byte>)
    ensures |s| == 8
  {
    seq(8, k requires 0 <= k < 8 => ByteAt(bits, 7 - k))
  }

  /** The number k of zero bytes: the least one for which the padded message
      fills whole blocks. */
  function PadZeros(length: nat): (k: nat)
    ensures k < BLOCK && (length + 1 + k + 8) % BLOCK == 0
  {
    (119 - length % BLOCK) % BLOCK
  }

  function Pad(message: seq<byte>): (p: seq<byte>)
    ensures |p| % BLOCK == 0
  {
    message + [0x80] + Zeros(PadZeros(|message|)) + LengthField(8 * |message| % 0x1_0000_0000_0000_0000)
  }

  function BytesOf(w: word): (s: seq<byte>)
    ensures |s| == 4
  {
    [ByteOf(w / 0x100_0000), ByteOf(w / 0x1_0000), ByteOf(w / 0x100), ByteOf(w)]
  }

  function HashBytes(h: Hash): (s: seq<byte>)
    ensures |s| == 20
  {
    BytesOf(h.a) + BytesOf(h.b) + BytesOf(h.c) + BytesOf(h.d) + BytesOf(h.e)
  }

  /** The digest built on a compression function: padding, then the chain. */
  function DigestWith(f: Compression, message: seq<byte>): (s: seq<byte>)
    ensures |s| == 20
  {
    HashBytes(Absorb(f, Pad(message), |Pad(message)| / BLOCK))
  }

  /** SHA-1. */
  function Digest(message: seq<byte>): (s: seq<byte>)
    ensures |s| == 20
  {
    DigestWith(Compress, message)
  }

  /** Blocks beyond the n-th do not matter. */
  lemma AbsorbPrefix(f: Compression, bytes: seq<byte>, more: seq<byte>, n: nat)
    requires BLOCK * n <= |bytes| && bytes <= more
    ensures Absorb(f, more, n) == Absorb(f, bytes, n)
  {
    forall k | 0 <= k < n
      ensures BlockAt(more, k) == BlockAt(bytes, k)
    {
    }
    assert Blocks(more, n) == Blocks(bytes, n);
  }

  lemma AbsorbNext(f: Compression, bytes: seq<byte>, n: nat)
    requires BLOCK * (n + 1) <= |bytes|
    ensures Absorb(f, bytes, n + 1) == f(Absorb(f, bytes, n), BlockAt(bytes, n))
  {
    assert Blocks(bytes, n + 1)[..n] == Blocks(bytes, n);
  }
}
