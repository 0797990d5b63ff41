/**
 The bit operations of C's unsigned integers, on natural numbers.  Every
 definition goes bit by bit from the low end, so proofs are inductions on the
 halves of the operands.  Complement and left shift say which width they are for.
 */
module Bits {
  import opened MachineWords

  function Pow2(n: nat): (r: nat)
    ensures r >= 1
  {
    if n == 0 then 1 else 2 * Pow2(n - 1)
  }

  function And(a: nat, b: nat): (r: nat)
    ensures r <= a && r <= b
  {
    if a == 0 || b == 0 then 0 else 2 * And(a / 2, b / 2) + (if a % 2 == 1 && b % 2 == 1 then 1 else 0)
  }

  function Or(a: nat, b: nat): (r: nat)
    ensures r >= a && r >= b && r <= a + b
  {
    if a == 0 then b else if b == 0 then a
    else 2 * Or(a / 2, b / 2) + (if a % 2 == 1 || b % 2 == 1 then 1 else 0)
  }

  function Xor(a: nat, b: nat): (r: nat)
    ensures r <= a + b
  {
    if a == 0 then b else if b == 0 then a
    else 2 * Xor(a / 2, b / 2) + (if a % 2 != b % 2 then 1 else 0)
  }

  /** The complement of a within n bits. */
  function Not(a: nat, n: nat): (r: nat)
    requires a < Pow2(n)
    ensures r < Pow2(n)
  {
    Pow2(n) - 1 - a
  }

  lemma AndHalves(a: nat, b: nat)
    ensures And(a, b) / 2 == And(a / 2, b / 2)
    ensures And(a, b) % 2 == if a % 2 == 1 && b % 2 == 1 then 1 else 0
  {
  }

  lemma OrHalves(a: nat, b: nat)
    ensures Or(a, b) / 2 == Or(a / 2, b / 2)
    ensures Or(a, b) % 2 == if a % 2 == 1 || b % 2 == 1 then 1 else 0
  {
  }

  lemma XorHalves(a: nat, b: nat)
    ensures Xor(a, b) / 2 == Xor(a / 2, b / 2)
    ensures Xor(a, b) % 2 == if a % 2 != b % 2 then 1 else 0
  {
  }

  lemma {:induction false} OrBound(a: nat, b: nat, n: nat)
    requires a < Pow2(n) && b < Pow2(n)
    ensures Or(a, b) < Pow2(n)
  {
    if a != 0 && b != 0 { OrBound(a / 2, b / 2, n - 1); }
  }

  lemma {:induction false} XorBound(a: nat, b: nat, n: nat)
    requires a < Pow2(n) && b < Pow2(n)
    ensures Xor(a, b) < Pow2(n)
  {
    if a != 0 && b != 0 { XorBound(a / 2, b / 2, n - 1); }
  }

  /** Numbers without a common bit: or, exclusive or and sum coincide. */
  lemma {:induction false} DisjointSum(a: nat, b: nat)
    requires And(a, b) == 0
    ensures Or(a, b) == Xor(a, b) == a + b
  {
    if a != 0 && b != 0 { DisjointSum(a / 2, b / 2); }
  }

  lemma {:induction false} AndCommutes(a: nat, b: nat)
    ensures And(a, b) == And(b, a)
  {
    if a != 0 && b != 0 { AndCommutes(a / 2, b / 2); }
  }

  /** A bit above everything in a is not in a. */
  lemma {:induction false} AndAbove(a: nat, n: nat)
    requires a < Pow2(n)
    ensures And(a, Pow2(n)) == 0
  {
    if a != 0 { AndAbove(a / 2, n - 1); }
  }

  function Shr(a: nat, n: nat): nat { if n == 0 then a else Shr(a / 2, n - 1) }

  predicate BitAt(a: nat, n: nat) { Shr(a, n) % 2 == 1 }

  /** Testing one bit. */
  lemma {:induction false} AndBit(a: nat, n: nat)
    ensures And(a, Pow2(n)) == if BitAt(a, n) then Pow2(n) else 0
  {
    AndHalves(a, Pow2(n));
    if n != 0 {
      AndBit(a / 2, n - 1);
    }
  }

  lemma Pow2Of32()
    ensures Pow2(32) == TWO32
  {
    assert Pow2(8) == 0x100;
    assert Pow2(16) == 0x1_0000;
    assert Pow2(24) == 0x100_0000;
  }

  // The operators of uint32_t.

  function And32(a: u32, b: u32): u32 { And(a, b) }

  function Or32(a: u32, b: u32): u32 { Pow2Of32(); OrBound(a, b, 32); Or(a, b) }

  function Xor32(a: u32, b: u32): u32 { Pow2Of32(); XorBound(a, b, 32); Xor(a, b) }

  function Not32(a: u32): u32 { 0xffff_ffff - a }

  /** (x << n) | (x >> 32 - n), for up = 2^n. */
  function RotateLeft(x: u32, up: nat): u32
    requires 0 < up <= TWO32
  {
    Or32(x * up % TWO32, x / (TWO32 / up))
  }

  lemma NotHalves(a: nat, n: nat)
    requires n > 0 && a < Pow2(n)
    ensures Not(a, n) / 2 == Not(a / 2, n - 1) && Not(a, n) % 2 == 1 - a % 2
  {
  }

  /** Complementary operands share no bit. */
  lemma {:induction false} AndWithNot(a: nat, b: nat, c: nat, n: nat)
    requires a < Pow2(n)
    ensures And(And(a, b), And(Not(a, n), c)) == 0
    decreases n
  {
    if n != 0 {
      var p, q := And(a, b), And(Not(a, n), c);
      NotHalves(a, n);
      AndHalves(a, b);
      AndHalves(Not(a, n), c);
      AndHalves(p, q);
      AndWithNot(a / 2, b / 2, c / 2, n - 1);
      assert And(p / 2, q / 2) == 0;
    }
  }

  /** The branch function and its usual rewriting agree. */
  lemma ChooseOr(b: u32, c: u32, d: u32)
    ensures Or32(And32(b, c), And32(Not32(b), d)) == Xor32(And32(b, c), And32(Not32(b), d))
  {
    Pow2Of32();
    AndWithNot(b, c, d, 32);
    DisjointSum(And(b, c), And(Not32(b), d));
  }

  /** So do the two forms of the majority. */
  lemma {:induction false} MajorityOr(b: nat, c: nat, d: nat)
    ensures Or(Or(And(b, c), And(b, d)), And(c, d)) == Xor(Xor(And(b, c), And(b, d)), And(c, d))
    decreases b + c + d
  {
    var p, q, r := And(b, c), And(b, d), And(c, d);
    AndHalves(b, c);
    AndHalves(b, d);
    AndHalves(c, d);
    OrHalves(p, q);
    OrHalves(Or(p, q), r);
    XorHalves(p, q);
    XorHalves(Xor(p, q), r);
    if b + c + d != 0 { MajorityOr(b / 2, c / 2, d / 2); }
  }

  // ---------------------------------------------------------- powers of two

  lemma {:induction false} Pow2Monotone(m: nat, n: nat)
    requires m <= n
    ensures Pow2(m) <= Pow2(n)
    ensures m < n ==> 2 * Pow2(m) <= Pow2(n)
    decreases n - m
  {
    if m < n { Pow2Monotone(m + 1, n); }
  }

  lemma BitsBelow(n: nat, k: nat)
    requires k <= 32
    ensures k == 31 && Pow2(n) < TWO32 ==> n <= 31
    ensures k == 32 && Pow2(n) <= TWO32 ==> n <= 32
  {
    Pow2Of32();
    if n > k { Pow2Monotone(k + 1, n); }
  }

  /** The number of address bits of an axis: the least a with size <= 2^a. */
  function CeilLog(size: nat): nat { if size <= 1 then 0 else 1 + CeilLog((size + 1) / 2) }

  lemma {:induction false} CeilLogBelow(size: nat, i: nat)
    ensures Pow2(i) < size <==> i < CeilLog(size)
  {
    if size > 1 && i > 0 { CeilLogBelow((size + 1) / 2, i - 1); }
  }

  lemma {:induction false} LogOfPower(a: nat)
    ensures CeilLog(Pow2(a)) == a
  {
    if a > 0 {
      assert Pow2(a) == 2 * Pow2(a - 1);
      assert (2 * Pow2(a - 1) + 1) / 2 == Pow2(a - 1);
      LogOfPower(a - 1);
    }
  }

  predicate IsPowerOfTwo(value: u32) { value != 0 && And32(value, value - 1) == 0 }

  lemma {:induction false} AndWithSelf(a: nat)
    ensures And(a, a) == a
  {
    if a != 0 { AndWithSelf(a / 2); }
  }

  lemma EvenPower(half: u32)
    requires half > 0 && 2 * half < TWO32
    ensures IsPowerOfTwo(2 * half) <==> IsPowerOfTwo(half)
  {
    var even, below: nat := 2 * half, 2 * half - 1;
    AndHalves(even, below);
    assert even / 2 == half && below / 2 == half - 1 && even % 2 == 0;
  }

  lemma EvenLog(half: nat)
    requires half > 0
    ensures Pow2(CeilLog(2 * half)) == 2 * Pow2(CeilLog(half))
  {
    assert (2 * half + 1) / 2 == half;
  }

  lemma OddPower(value: u32)
    requires value > 1 && value % 2 == 1
    ensures !IsPowerOfTwo(value)
  {
    AndHalves(value, value - 1);
    assert (value - 1) / 2 == value / 2;
    AndWithSelf(value / 2);
  }

  lemma OddLog(value: nat)
    requires value > 1 && value % 2 == 1
    ensures value != Pow2(CeilLog(value))
  {
    var k := CeilLog((value + 1) / 2);
    assert CeilLog(value) == 1 + k;
    assert Pow2(1 + k) == 2 * Pow2(k);
    EvenNumber(Pow2(k));
  }

  lemma EvenNumber(m: nat)
    ensures 2 * m % 2 == 0
  {
  }

  /** The test finds exactly the powers of two. */
  lemma {:induction false} PowerOfTwoTest(value: u32)
    ensures IsPowerOfTwo(value) <==> value == Pow2(CeilLog(value))
  {
    if value > 1 {
      var half: u32 := value / 2;
      if value % 2 == 0 {
        PowerOfTwoTest(half);
        EvenPower(half);
        EvenLog(half);
      } else {
        OddPower(value);
        OddLog(value);
      }
    }
  }

  // ------------------------------------------------------------ bit by bit

  lemma {:induction false} AndBits(a: nat, b: nat, n: nat)
    ensures BitAt(And(a, b), n) <==> BitAt(a, n) && BitAt(b, n)
  {
    AndHalves(a, b);
    if n > 0 { AndBits(a / 2, b / 2, n - 1); }
  }

  lemma {:induction false} OrBits(a: nat, b: nat, n: nat)
    ensures BitAt(Or(a, b), n) <==> BitAt(a, n) || BitAt(b, n)
  {
    OrHalves(a, b);
    if n > 0 { OrBits(a / 2, b / 2, n - 1); }
  }

  lemma {:induction false} XorBits(a: nat, b: nat, n: nat)
    ensures BitAt(Xor(a, b), n) <==> BitAt(a, n) != BitAt(b, n)
  {
    XorHalves(a, b);
    if n > 0 { XorBits(a / 2, b / 2, n - 1); }
  }

  lemma {:induction false} NoBits(n: nat)
    ensures !BitAt(0, n)
  {
    if n > 0 { NoBits(n - 1); }
  }

  lemma {:induction false} HighBits(a: nat, m: nat, n: nat)
    requires a < Pow2(m) && n >= m
    ensures !BitAt(a, n)
  {
    if m == 0 { NoBits(n); } else { HighBits(a / 2, m - 1, n - 1); }
  }

  /** Numbers of so many bits are the same if their bits are. */
  lemma {:induction false} BitsTell(a: nat, b: nat, m: nat)
    requires a < Pow2(m) && b < Pow2(m) && forall n: nat :: n < m ==> (BitAt(a, n) <==> BitAt(b, n))
    ensures a == b
  {
    if m > 0 {
      assert BitAt(a, 0) <==> BitAt(b, 0);
      forall n: nat | n < m - 1 ensures BitAt(a / 2, n) <==> BitAt(b / 2, n) {
        assert BitAt(a, n + 1) <==> BitAt(b, n + 1);
      }
      BitsTell(a / 2, b / 2, m - 1);
    }
  }
}
