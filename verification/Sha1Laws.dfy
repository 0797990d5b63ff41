/**
 What the functions of SHA-1 do, bit by bit and number by number, said without their
 definitions: sections 3.2, 4.1.1, 4.2.1, 5.3.1 and 6.1.2 of FIPS 180-4.
 */
module Sha1Laws {
  import opened MachineWords
  import Arith
  import opened Bits
  import opened Sha1

  // ------------------------------------------------------------------- bits

  lemma {:induction false} NotBits(a: nat, m: nat, n: nat)
    requires a < Pow2(m) && n < m
    ensures BitAt(Not(a, m), n) <==> !BitAt(a, n)
  {
    NotHalves(a, m);
    if n > 0 { NotBits(a / 2, m - 1, n - 1); }
  }

  lemma {:induction false} ShiftedBits(a: nat, k: nat, n: nat)
    ensures BitAt(a * Pow2(k), n) <==> n >= k && BitAt(a, n - k)
  {
    if k > 0 {
      var half := a * Pow2(k - 1);
      assert a * Pow2(k) == 2 * half;
      if n > 0 { ShiftedBits(a, k - 1, n - 1); }
    }
  }

  lemma {:induction false} ShrIs(a: nat, k: nat)
    ensures Shr(a, k) == a / Pow2(k)
  {
    if k > 0 {
      ShrIs(a / 2, k - 1);
      HalfThenRest(a, Pow2(k - 1));
    }
  }

  lemma HalfThenRest(a: nat, d: nat)
    requires d > 0
    ensures a / 2 / d == a / (2 * d)
  {
    var h := a / 2;
    assert 2 * (d * (h / d)) == (2 * d) * (h / d);
    Arith.DivisionIs(a, 2 * d, h / d, 2 * (h % d) + a % 2);
  }

  lemma {:induction false} ShrTwice(a: nat, k: nat, n: nat)
    ensures Shr(Shr(a, k), n) == Shr(a, k + n)
  {
    if k > 0 { ShrTwice(a / 2, k - 1, n); }
  }

  lemma {:induction false} LowBits(a: nat, m: nat, n: nat)
    ensures BitAt(a % Pow2(m), n) <==> n < m && BitAt(a, n)
  {
    if m == 0 {
      NoBits(n);
    } else {
      LowHalves(a, Pow2(m - 1));
      if n > 0 { LowBits(a / 2, m - 1, n - 1); }
    }
  }

  lemma LowHalves(a: nat, d: nat)
    requires d > 0
    ensures a % (2 * d) / 2 == a / 2 % d && a % (2 * d) % 2 == a % 2
  {
    var h := a / 2;
    assert 2 * (d * (h / d)) == (2 * d) * (h / d);
    Arith.DivisionIs(a, 2 * d, h / d, 2 * (h % d) + a % 2);
  }

  lemma {:induction false} PowersMeet(k: nat, j: nat)
    ensures Pow2(k) * Pow2(j) == Pow2(k + j)
  {
    if k > 0 {
      PowersMeet(k - 1, j);
      assert Pow2(k) * Pow2(j) == 2 * (Pow2(k - 1) * Pow2(j));
    }
  }

  /** What is shifted up, and what comes round. */
  lemma UpperPart(x: nat, k: nat, w: nat, m: nat)
    requires m < w
    ensures BitAt(x * Pow2(k) % Pow2(w), m) <==> m >= k && BitAt(x, m - k)
  {
    LowBits(x * Pow2(k), w, m);
    ShiftedBits(x, k, m);
  }

  lemma LowerPart(x: nat, k: nat, w: nat, m: nat, high: nat)
    requires k <= w && x < Pow2(w) && high == Shr(x, w - k)
    ensures BitAt(high, m) <==> m < k && BitAt(x, m + w - k)
  {
    ShrTwice(x, w - k, m);
    if m >= k { HighBits(x, w, m + w - k); }
  }

  lemma UpAndDown(k: nat, w: nat, up: nat, down: nat)
    requires Pow2(w) == TWO32 && k <= w && up == Pow2(k) && down == Pow2(w - k)
    ensures up <= TWO32 && TWO32 / up == down
  {
    Pow2Monotone(k, w);
    PowersMeet(k, w - k);
    Arith.DivisionIs(TWO32, up, down, 0);
  }

  /** The two parts of a rotated word. */
  lemma RotateParts(x: u32, k: nat, w: nat, up: nat, m: nat) returns (low: nat, high: nat)
    requires Pow2(w) == TWO32 && k <= w && up == Pow2(k) && m < w
    ensures up <= TWO32 && RotateLeft(x, up) == Or(low, high)
    ensures BitAt(low, m) <==> m >= k && BitAt(x, m - k)
    ensures BitAt(high, m) <==> m < k && BitAt(x, m + w - k)
  {
    UpAndDown(k, w, up, Pow2(w - k));
    low, high := x * up % TWO32, x / (TWO32 / up);
    UpperPart(x, k, w, m);
    ShrIs(x, w - k);
    LowerPart(x, k, w, m, high);
  }

  /** Rotating by k moves every bit k places up, around the end. */
  lemma RotateBits(x: u32, k: nat, n: nat, w: nat, up: nat)
    requires Pow2(w) == TWO32 && k <= w && n < w && up == Pow2(k)
    ensures up <= TWO32
    ensures BitAt(RotateLeft(x, up), if n + k < w then n + k else n + k - w) <==> BitAt(x, n)
  {
    var m := if n + k < w then n + k else n + k - w;
    var low, high := RotateParts(x, k, w, up, m);
    OrBits(low, high, m);
  }

  // -------------------------------------------------------------- functions

  function Count(a: bool, b: bool, c: bool): nat { (if a then 1 else 0) + (if b then 1 else 0) + (if c then 1 else 0) }

  /** The first word chooses between the other two. */
  lemma ChBits(x: word, y: word, z: word, n: nat)
    requires n < 32
    ensures BitAt(Ch(x, y, z), n) <==> if BitAt(x, n) then BitAt(y, n) else BitAt(z, n)
  {
    Pow2Of32();
    AndBits(x, y, n);
    NotBits(x, 32, n);
    AndBits(Not32(x), z, n);
    XorBits(And32(x, y), And32(Not32(x), z), n);
  }

  /** An odd number of them. */
  lemma ParityBits(x: word, y: word, z: word, n: nat)
    ensures BitAt(Parity(x, y, z), n) <==> Count(BitAt(x, n), BitAt(y, n), BitAt(z, n)) % 2 == 1
  {
    XorBits(x, y, n);
    XorBits(Xor32(x, y), z, n);
  }

  /** Two of them at least. */
  lemma MajBits(x: word, y: word, z: word, n: nat)
    ensures BitAt(Maj(x, y, z), n) <==> Count(BitAt(x, n), BitAt(y, n), BitAt(z, n)) >= 2
  {
    AndBits(x, y, n);
    AndBits(x, z, n);
    AndBits(y, z, n);
    XorBits(And32(x, y), And32(x, z), n);
    XorBits(Xor32(And32(x, y), And32(x, z)), And32(y, z), n);
  }

  /** Twenty rounds choose, twenty count, twenty take the majority, and twenty count. */
  lemma RoundBits(t: nat, x: word, y: word, z: word, n: nat)
    requires n < 32
    ensures var (a, b, c) := (BitAt(x, n), BitAt(y, n), BitAt(z, n));
      BitAt(F(t, x, y, z), n) <==>
        if t < 20 then (if a then b else c) else if 40 <= t < 60 then Count(a, b, c) >= 2 else Count(a, b, c) % 2 == 1
  {
    ChBits(x, y, z, n);
    ParityBits(x, y, z, n);
    MajBits(x, y, z, n);
  }

  lemma XorFour(p: word, q: word, r: word, s: word, n: nat)
    ensures BitAt(Xor32(Xor32(Xor32(p, q), r), s), n) <==>
      (Count(BitAt(p, n), BitAt(q, n), BitAt(r, n)) + if BitAt(s, n) then 1 else 0) % 2 == 1
  {
    ParityBits(p, q, r, n);
    XorBits(Parity(p, q, r), s, n);
  }

  lemma WordSize() returns (w: nat, k: nat)
    ensures w == 32 && Pow2(w) == TWO32 && k == 1 && Pow2(k) == 2
  {
    Pow2Of32();
    w, k := 32, 1;
    assert Pow2(1) == 2;
  }

  lemma OneUp(x: word, n: nat)
    requires n < 32
    ensures BitAt(RotateLeft(x, 2), (n + 1) % 32) <==> BitAt(x, n)
  {
    var w, k := WordSize();
    RotateBits(x, k, n, w, 2);
  }

  /** The parity of four words, one place up. */
  lemma MixBits(p: word, q: word, r: word, s: word, n: nat)
    requires n < 32
    ensures BitAt(Mix(p, q, r, s), (n + 1) % 32) <==>
      (Count(BitAt(p, n), BitAt(q, n), BitAt(r, n)) + if BitAt(s, n) then 1 else 0) % 2 == 1
  {
    XorFour(p, q, r, s, n);
    OneUp(Xor32(Xor32(Xor32(p, q), r), s), n);
  }

  /** Each word of the schedule past the block's own sixteen comes from those 3, 8, 14
      and 16 before it. */
  lemma ScheduleBits(block: Block, t: nat, n: nat)
    requires t >= 16 && n < 32
    ensures BitAt(W(block, t), (n + 1) % 32) <==>
      (Count(BitAt(W(block, t - 3), n), BitAt(W(block, t - 8), n), BitAt(W(block, t - 14), n))
       + if BitAt(W(block, t - 16), n) then 1 else 0) % 2 == 1
  {
    MixBits(W(block, t - 3), W(block, t - 8), W(block, t - 14), W(block, t - 16), n);
  }

  /** The block's own words are its bytes, the first one highest. */
  lemma BlockWords(block: Block, t: nat)
    requires t < 16
    ensures BytesOf(W(block, t)) == block[4 * t..4 * t + 4]
  {
    var b := block[4 * t..4 * t + 4];
    WordBytes(b[0], b[1], b[2], b[3]);
  }

  lemma WordBytes(b0: byte, b1: byte, b2: byte, b3: byte)
    ensures BytesOf(Word(b0, b1, b2, b3)) == [b0, b1, b2, b3]
  {
    var w := Word(b0, b1, b2, b3);
    Arith.DivisionIs(w, 0x100_0000, b0, 0x1_0000 * b1 + 0x100 * b2 + b3);
    Arith.DivisionIs(w, 0x1_0000, 0x100 * b0 + b1, 0x100 * b2 + b3);
    Arith.DivisionIs(w, 0x100, 0x1_0000 * b0 + 0x100 * b1 + b2, b3);
    Arith.DivisionIs(w / 0x1_0000, 0x100, b0, b1);
    Arith.DivisionIs(w / 0x100, 0x100, 0x100 * b0 + b1, b2);
  }

  // -------------------------------------------------------------- constants

  /** The constants are 2^30 times the square roots of 2, 3, 5 and 10, rounded down. */
  lemma RoundConstants(t: nat)
    requires t < 80
    ensures var n := if t < 20 then 2 else if t < 40 then 3 else if t < 60 then 5 else 10;
      K(t) * K(t) <= n * 0x1000_0000_0000_0000 < (K(t) + 1) * (K(t) + 1)
  {
  }

  /** The first hash, from the low byte of each word on: 01 23 45 .. EF, FE DC .. 10, and
      F0 E1 D2 C3. */
  lemma FirstHash(i: nat)
    requires i < 4
    ensures ByteAt(H0.a, i) == 0x01 + 0x22 * i && ByteAt(H0.b, i) == 0x89 + 0x22 * i
    ensures ByteAt(H0.c, i) == 0xfe - 0x22 * i && ByteAt(H0.d, i) == 0x76 - 0x22 * i
    ensures ByteAt(H0.e, i) == 0xf0 - 0x0f * i
  {
    FourBytes(H0.a, i, 0x01, 0x23, 0x45, 0x67);
    FourBytes(H0.b, i, 0x89, 0xab, 0xcd, 0xef);
    FourBytes(H0.c, i, 0xfe, 0xdc, 0xba, 0x98);
    FourBytes(H0.d, i, 0x76, 0x54, 0x32, 0x10);
    FourBytes(H0.e, i, 0xf0, 0xe1, 0xd2, 0xc3);
  }

  lemma LowByte(w: nat, rest: nat, b: byte, i: nat)
    requires w == b + 0x100 * rest
    ensures ByteAt(w, i) == if i == 0 then b else ByteAt(rest, i - 1)
  {
    Arith.DivisionIs(w, 0x100, rest, b);
  }

  lemma FourBytes(w: nat, i: nat, b0: byte, b1: byte, b2: byte, b3: byte)
    requires w == b0 + 0x100 * (b1 + 0x100 * (b2 + 0x100 * b3)) && i < 4
    ensures ByteAt(w, i) == if i == 0 then b0 else if i == 1 then b1 else if i == 2 then b2 else b3
  {
    var w1, w2: nat := b1 + 0x100 * (b2 + 0x100 * b3), b2 + 0x100 * b3;
    LowByte(w, w1, b0, i);
    if i >= 1 { LowByte(w1, w2, b1, i - 1); }
    if i >= 2 { LowByte(w2, b3, b2, i - 2); }
    if i >= 3 { LowByte(b3, 0, b3, 0); }
  }

  // ------------------------------------------------------------------ rounds

  /** One word is another rotated by k. */
  ghost predicate Rotated(x: word, y: word, k: nat) {
    forall n: nat :: n < 32 ==> MovedBit(x, y, k, n)
  }

  predicate MovedBit(x: word, y: word, k: nat, n: nat) { BitAt(y, if n + k < 32 then n + k else n + k - 32) <==> BitAt(x, n) }

  lemma RotatedIs(x: word, y: word, k: nat, up: nat)
    requires k <= 32 && up == Pow2(k) <= TWO32 && Rotated(x, y, k)
    ensures y == RotateLeft(x, up)
  {
    Pow2Of32();
    var z := RotateLeft(x, up);
    forall m: nat | m < 32 ensures BitAt(y, m) <==> BitAt(z, m) { SameMoved(x, y, k, m, up); }
    BitsTell(y, z, 32);
  }

  lemma SameMoved(x: word, y: word, k: nat, m: nat, up: nat)
    requires k <= 32 && up == Pow2(k) <= TWO32 && Rotated(x, y, k) && m < 32
    ensures BitAt(y, m) <==> BitAt(RotateLeft(x, up), m)
  {
    var n := if m >= k then m - k else m + 32 - k;
    assert MovedBit(x, y, k, n);
    Pow2Of32();
    RotateBits(x, k, n, 32, up);
  }

  lemma RotationIs(x: word, k: nat, up: nat)
    requires k <= 32 && up == Pow2(k) <= TWO32
    ensures Rotated(x, RotateLeft(x, up), k)
  {
    Pow2Of32();
    forall n: nat | n < 32 ensures MovedBit(x, RotateLeft(x, up), k, n) { RotateBits(x, k, n, 32, up); }
  }

  lemma Powers()
    ensures Pow2(5) == 0x20 && Pow2(30) == 0x4000_0000
  {
    Pow2Of32();
    assert Pow2(32) == 4 * Pow2(30);
  }

  /** A round: the first word moves on, the second does so rotated by 30, and the new
      one is a sum with the first rotated by 5. */
  lemma RoundWords(h: Hash, t: nat, w: word, five: word)
    requires Rotated(h.a, five, 5)
    ensures var r := Round(h, t, w);
      && r.b == h.a && Rotated(h.b, r.c, 30) && r.d == h.c && r.e == h.d
      && r.a == (five + F(t, h.b, h.c, h.d) + h.e + K(t) + w) % TWO32
  {
    Powers();
    RotatedIs(h.a, five, 5, 0x20);
    RotationIs(h.b, 30, 0x4000_0000);
  }

  /** The rounds take the words of a schedule in order, the first one first. */
  lemma RoundsInOrder(h: Hash, words: seq<word>, w: word)
    ensures Rounds(h, []) == h && Rounds(h, words + [w]) == Round(Rounds(h, words), |words|, w)
  {
    assert (words + [w])[..|words|] == words;
  }

  /** What the rounds make of a hash is added to it, word by word. */
  lemma CompressAdds(h: Hash, block: Block)
    ensures var g, r := Rounds(h, Schedule(block)), Compress(h, block);
      && r.a == (h.a + g.a) % TWO32 && r.b == (h.b + g.b) % TWO32 && r.c == (h.c + g.c) % TWO32
      && r.d == (h.d + g.d) % TWO32 && r.e == (h.e + g.e) % TWO32
  {
  }

  lemma ScheduleWords(block: Block, t: nat)
    requires t < 80
    ensures |Schedule(block)| == 80 && Schedule(block)[t] == W(block, t)
  {
  }

  // -------------------------------------------------- the padding, and the digest

  /** The number that bytes are, the first one highest. */
  function BigEndian(s: seq<byte>): nat {
    if s == [] then 0 else 0x100 * BigEndian(s[..|s| - 1]) + s[|s| - 1]
  }

  lemma BigEndianNext(s: seq<byte>, b: byte)
    ensures BigEndian(s + [b]) == 0x100 * BigEndian(s) + b
  {
    assert (s + [b])[..|s|] == s;
  }

  lemma FourBigEndian(b0: byte, b1: byte, b2: byte, b3: byte)
    ensures BigEndian([b0, b1, b2, b3]) == (b3 as int) + 0x100 * b2 + 0x1_0000 * b1 + 0x100_0000 * b0
  {
    BigEndianNext([], b0);
    BigEndianNext([b0], b1);
    BigEndianNext([b0, b1], b2);
    BigEndianNext([b0, b1, b2], b3);
    assert [] + [b0] == [b0] && [b0] + [b1] == [b0, b1] && [b0, b1] + [b2] == [b0, b1, b2];
    assert [b0, b1, b2] + [b3] == [b0, b1, b2, b3];
  }

  /** A word is the number that its bytes are. */
  lemma WordOfBytes(w: word)
    ensures BigEndian(BytesOf(w)) == w
  {
    var s := BytesOf(w);
    FourBigEndian(s[0], s[1], s[2], s[3]);
    ByteSum(w);
  }

  lemma ByteSum(w: word)
    ensures 0x100_0000 * ByteOf(w / 0x100_0000) + 0x1_0000 * ByteOf(w / 0x1_0000) + 0x100 * ByteOf(w / 0x100) + ByteOf(w) == w
  {
    HalfThenRest256(w, 0x100);
    HalfThenRest256(w, 0x1_0000);
  }

  lemma HalfThenRest256(a: nat, d: nat)
    requires d > 0
    ensures a / d / 0x100 == a / (0x100 * d)
  {
    var q := a / d;
    assert d * (0x100 * (q / 0x100)) == (0x100 * d) * (q / 0x100);
    assert d * q == d * (0x100 * (q / 0x100)) + d * (q % 0x100);
    Arith.TimesMonotone(d, d, q % 0x100 + 1, 0x100);
    Arith.DivisionIs(a, 0x100 * d, q / 0x100, d * (q % 0x100) + a % d);
  }

  /** The digest is the five words of the hash, in order, each with its high byte
      first. */
  lemma HashInOrder(h: Hash)
    ensures var s := HashBytes(h);
      && BigEndian(s[0..4]) == h.a && BigEndian(s[4..8]) == h.b && BigEndian(s[8..12]) == h.c
      && BigEndian(s[12..16]) == h.d && BigEndian(s[16..20]) == h.e
  {
    var s := HashBytes(h);
    assert s[0..4] == BytesOf(h.a) && s[4..8] == BytesOf(h.b) && s[8..12] == BytesOf(h.c);
    assert s[12..16] == BytesOf(h.d) && s[16..20] == BytesOf(h.e);
    WordOfBytes(h.a);
    WordOfBytes(h.b);
    WordOfBytes(h.c);
    WordOfBytes(h.d);
    WordOfBytes(h.e);
  }

  lemma {:induction false} LowBytes(n: nat, k: nat)
    ensures n / 0x100 == 0 && k > 0 ==> ByteAt(n, k) == 0
  {
    if n / 0x100 == 0 && k > 1 { LowBytes(n / 0x100, k - 1); }
  }

  /** The first k + 1 bytes of a number written with its high byte first, w bytes in all. */
  lemma {:induction false} WrittenNumber(n: nat, w: nat, s: seq<byte>)
    requires |s| == w && n < Pow2(8 * w)
    requires forall k :: 0 <= k < w ==> s[k] == ByteAt(n, w - 1 - k)
    ensures BigEndian(s) == n
    decreases w
  {
    if w > 0 {
      var front := s[..w - 1];
      forall k | 0 <= k < w - 1 ensures front[k] == ByteAt(n / 0x100, w - 2 - k) {
        assert s[k] == ByteAt(n, w - 1 - k);
      }
      assert s[w - 1] == ByteAt(n, 0);
      ByteShorter(n, w);
      WrittenNumber(n / 0x100, w - 1, front);
    }
  }

  lemma ByteShorter(n: nat, w: nat)
    requires w > 0 && n < Pow2(8 * w)
    ensures n / 0x100 < Pow2(8 * (w - 1))
  {
    PowersMeet(8, 8 * (w - 1));
    assert Pow2(8) == 0x100;
    assert 8 + 8 * (w - 1) == 8 * w;
  }

  /** The length is written with its high byte first. */
  lemma LengthWritten(bits: nat)
    requires bits < TWO64
    ensures BigEndian(LengthField(bits)) == bits
  {
    Pow2Of32();
    PowersMeet(32, 32);
    WrittenNumber(bits, 8, LengthField(bits));
  }

  /** The padded message: the message, a one bit, as few zeros as fill whole blocks, and
      the length of the message in bits. */
  lemma PaddedMessage(message: seq<byte>)
    ensures var p := Pad(message);
      && message <= p && |p| % BLOCK == 0 && |message| + 9 <= |p| < |message| + 9 + BLOCK && p[|message|] == 0x80
      && (forall k :: |message| < k < |p| - 8 ==> p[k] == 0)
      && BigEndian(p[|p| - 8..]) == 8 * |message| % TWO64
  {
    var p := Pad(message);
    LengthWritten(8 * |message| % TWO64);
    assert p[|p| - 8..] == LengthField(8 * |message| % TWO64);
  }
}
