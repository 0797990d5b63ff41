/**
 The layout of a vertex instruction in its four words: the words are the fields
 times their weights, and Decode reads exactly those fields.
 */
module VertexProgramLayout {
  import opened MachineWords
  import opened VertexProgram
  import opened VertexProgramText
  import Arith

  function Bit(b: bool): nat { if b then 1 else 0 }

  predicate OperandFits(o: Operand) { o.mux < 4 && o.reg < 16 && o.swizzle < 256 }

  /** Every field is as wide as its place. */
  predicate Fits(i: Instr) {
    && i.mac < 16 && i.ilu < 8 && i.attribute < 16 && i.constant < 256
    && OperandFits(i.x) && OperandFits(i.y) && OperandFits(i.z)
    && i.temp < 16 && i.macMask < 16 && i.iluMask < 16 && i.outMask < 16 && i.out < 256
  }

  /** The second word: the first operand's swizzle and sign, what is read, and the two
      operations.  Its highest four bits are not looked at. */
  predicate SecondWord(w: u32, i: Instr, spare: nat) {
    w == i.x.swizzle + 0x100 * Bit(i.x.negate) + 0x200 * i.attribute + 0x2000 * i.constant
         + 0x20_0000 * i.mac + 0x200_0000 * i.ilu + 0x1000_0000 * spare
  }

  /** The third word: the rest of the first operand, the second one, and the first
      part of the third. */
  predicate ThirdWord(w: u32, i: Instr) {
    w == i.z.reg / 4 + 4 * i.z.swizzle + 0x400 * Bit(i.z.negate)
         + 0x800 * i.y.mux + 0x2000 * i.y.reg + 0x2_0000 * i.y.swizzle + 0x200_0000 * Bit(i.y.negate)
         + 0x400_0000 * i.x.mux + 0x1000_0000 * i.x.reg
  }

  /** The fourth word: what is written, and the rest of the third operand. */
  predicate FourthWord(w: u32, i: Instr) {
    w == Bit(i.final) + 2 * Bit(i.relative) + 4 * Bit(i.outFromIlu) + 8 * i.out + 0x800 * Bit(i.toOutput)
         + 0x1000 * i.outMask + 0x1_0000 * i.iluMask + 0x10_0000 * i.temp + 0x100_0000 * i.macMask
         + 0x1000_0000 * i.z.mux + 0x4000_0000 * (i.z.reg % 4)
  }

  predicate Encodes(t: Token, i: Instr, spare: nat) {
    Fits(i) && spare < 16 && SecondWord(t.a, i, spare) && ThirdWord(t.b, i) && FourthWord(t.c, i)
  }

  // ------------------------------------------------- reading what was written

  /** A field between what is below it and what is above. */
  lemma FieldIs(w: u32, divisor: nat, modulus: nat, low: nat, field: nat, rest: nat)
    requires low < divisor && field < modulus && w == divisor * (modulus * rest + field) + low
    ensures Field(w, divisor, modulus) == field
  {
    Arith.DivisionIs(w, divisor, modulus * rest + field, low);
    Arith.DivisionIs(modulus * rest + field, modulus, rest, field);
  }

  lemma FlagIs(w: u32, divisor: nat, low: nat, flag: bool, rest: nat)
    requires low < divisor && w == divisor * (2 * rest + Bit(flag)) + low
    ensures Flag(w, divisor) == flag
  {
    FieldIs(w, divisor, 2, low, Bit(flag), rest);
  }

  lemma SecondReads(w: u32, i: Instr, spare: nat)
    requires Fits(i) && spare < 16 && SecondWord(w, i, spare)
    ensures Field(w, 1, 256) == i.x.swizzle && Flag(w, 0x100) == i.x.negate && Field(w, 0x200, 16) == i.attribute
    ensures Field(w, 0x2000, 256) == i.constant && Field(w, 0x20_0000, 16) == i.mac && Field(w, 0x200_0000, 8) == i.ilu
  {
    var fromIlu := i.ilu + 8 * spare;
    var fromMac := i.mac + 16 * fromIlu;
    var fromConstant := i.constant + 256 * fromMac;
    var fromAttribute := i.attribute + 16 * fromConstant;
    var toSign := i.x.swizzle + 0x100 * Bit(i.x.negate);
    var toAttribute := toSign + 0x200 * i.attribute;
    var toConstant := toAttribute + 0x2000 * i.constant;
    FieldIs(w, 1, 256, 0, i.x.swizzle, Bit(i.x.negate) + 2 * fromAttribute);
    FlagIs(w, 0x100, i.x.swizzle, i.x.negate, fromAttribute);
    FieldIs(w, 0x200, 16, toSign, i.attribute, fromConstant);
    FieldIs(w, 0x2000, 256, toAttribute, i.constant, fromMac);
    FieldIs(w, 0x20_0000, 16, toConstant, i.mac, fromIlu);
    FieldIs(w, 0x200_0000, 8, toConstant + 0x20_0000 * i.mac, i.ilu, spare);
  }

  lemma ThirdReads(w: u32, i: Instr)
    requires Fits(i) && ThirdWord(w, i)
    ensures Field(w, 1, 4) == i.z.reg / 4 && Field(w, 4, 256) == i.z.swizzle && Flag(w, 0x400) == i.z.negate
    ensures Field(w, 0x800, 4) == i.y.mux && Field(w, 0x2000, 16) == i.y.reg
    ensures Field(w, 0x2_0000, 256) == i.y.swizzle && Flag(w, 0x200_0000) == i.y.negate
    ensures Field(w, 0x400_0000, 4) == i.x.mux && Field(w, 0x1000_0000, 16) == i.x.reg
  {
    var fromX := i.x.mux + 4 * i.x.reg;
    var fromSign := Bit(i.y.negate) + 2 * fromX;
    var fromSwizzle := i.y.swizzle + 256 * fromSign;
    var fromReg := i.y.reg + 16 * fromSwizzle;
    var fromMux := i.y.mux + 4 * fromReg;
    var toSwizzle := i.z.reg / 4 + 4 * i.z.swizzle;
    var toSign := toSwizzle + 0x400 * Bit(i.z.negate);
    var toMux := toSign + 0x800 * i.y.mux;
    var toReg := toMux + 0x2000 * i.y.reg;
    var toY := toReg + 0x2_0000 * i.y.swizzle;
    FieldIs(w, 1, 4, 0, i.z.reg / 4, i.z.swizzle + 256 * (Bit(i.z.negate) + 2 * fromMux));
    FieldIs(w, 4, 256, i.z.reg / 4, i.z.swizzle, Bit(i.z.negate) + 2 * fromMux);
    FlagIs(w, 0x400, toSwizzle, i.z.negate, fromMux);
    FieldIs(w, 0x800, 4, toSign, i.y.mux, fromReg);
    FieldIs(w, 0x2000, 16, toMux, i.y.reg, fromSwizzle);
    FieldIs(w, 0x2_0000, 256, toReg, i.y.swizzle, fromSign);
    FlagIs(w, 0x200_0000, toY, i.y.negate, fromX);
    FieldIs(w, 0x400_0000, 4, toY + 0x200_0000 * Bit(i.y.negate), i.x.mux, i.x.reg);
    FieldIs(w, 0x1000_0000, 16, toY + 0x200_0000 * Bit(i.y.negate) + 0x400_0000 * i.x.mux, i.x.reg, 0);
  }

  lemma FlagsRead(w: u32, i: Instr)
    requires Fits(i) && FourthWord(w, i)
    ensures Flag(w, 1) == i.final && Flag(w, 2) == i.relative && Flag(w, 4) == i.outFromIlu
    ensures Field(w, 8, 256) == i.out && Flag(w, 0x800) == i.toOutput
  {
    var fromMask := i.outMask + 16 * i.iluMask + 0x100 * i.temp + 0x1000 * i.macMask + 0x1_0000 * i.z.mux
                    + 0x4_0000 * (i.z.reg % 4);
    var fromTarget := Bit(i.toOutput) + 2 * fromMask;
    var fromOut := i.out + 256 * fromTarget;
    var toOut := Bit(i.final) + 2 * Bit(i.relative) + 4 * Bit(i.outFromIlu);
    FlagIs(w, 1, 0, i.final, Bit(i.relative) + 2 * (Bit(i.outFromIlu) + 2 * fromOut));
    FlagIs(w, 2, Bit(i.final), i.relative, Bit(i.outFromIlu) + 2 * fromOut);
    FlagIs(w, 4, Bit(i.final) + 2 * Bit(i.relative), i.outFromIlu, fromOut);
    FieldIs(w, 8, 256, toOut, i.out, fromTarget);
    FlagIs(w, 0x800, toOut + 8 * i.out, i.toOutput, fromMask);
  }

  lemma FourthReads(w: u32, i: Instr)
    requires Fits(i) && FourthWord(w, i)
    ensures Field(w, 0x1000, 16) == i.outMask && Field(w, 0x1_0000, 16) == i.iluMask
    ensures Field(w, 0x10_0000, 16) == i.temp && Field(w, 0x100_0000, 16) == i.macMask
    ensures Field(w, 0x1000_0000, 4) == i.z.mux && Field(w, 0x4000_0000, 4) == i.z.reg % 4
  {
    var fromZ := i.z.mux + 4 * (i.z.reg % 4);
    var fromMac := i.macMask + 16 * fromZ;
    var fromTemp := i.temp + 16 * fromMac;
    var toMask := Bit(i.final) + 2 * Bit(i.relative) + 4 * Bit(i.outFromIlu) + 8 * i.out + 0x800 * Bit(i.toOutput);
    var toIlu := toMask + 0x1000 * i.outMask;
    var toTemp := toIlu + 0x1_0000 * i.iluMask;
    var toMac := toTemp + 0x10_0000 * i.temp;
    var toZ := toMac + 0x100_0000 * i.macMask;
    FieldIs(w, 0x1000, 16, toMask, i.outMask, i.iluMask + 16 * fromTemp);
    FieldIs(w, 0x1_0000, 16, toIlu, i.iluMask, fromTemp);
    FieldIs(w, 0x10_0000, 16, toTemp, i.temp, fromMac);
    FieldIs(w, 0x100_0000, 16, toMac, i.macMask, fromZ);
    FieldIs(w, 0x1000_0000, 4, toZ, i.z.mux, i.z.reg % 4);
    FieldIs(w, 0x4000_0000, 4, toZ + 0x1000_0000 * i.z.mux, i.z.reg % 4, 0);
  }

  /** An instruction that was laid out is decoded as it was. */
  lemma DecodeReads(t: Token, i: Instr, spare: nat)
    requires Encodes(t, i, spare)
    ensures Decode(t) == i
  {
    SecondReads(t.a, i, spare);
    ThirdReads(t.b, i);
    FlagsRead(t.c, i);
    FourthReads(t.c, i);
    assert i.z.reg == i.z.reg / 4 * 4 + i.z.reg % 4;
  }

  // --------------------------------------------------- every token is laid out

  /** What is above a place is the field there and what is above that. */
  lemma Above(w: u32, divisor: nat, modulus: nat, next: nat)
    requires divisor > 0 && modulus > 0 && next == divisor * modulus
    ensures w / divisor == Field(w, divisor, modulus) + modulus * (w / next)
  {
    var q := w / divisor;
    var high, field := q / modulus, q % modulus;
    assert divisor * q == divisor * (modulus * high) + divisor * field by {
      assert q == modulus * high + field;
    }
    assert divisor * (modulus * high) == next * high;
    FieldRoom(divisor, modulus, field, w % divisor);
    Arith.DivisionIs(w, next, high, divisor * field + w % divisor);
  }

  lemma FieldRoom(divisor: nat, modulus: nat, field: nat, low: nat)
    requires field < modulus && low < divisor
    ensures divisor * field + low < divisor * modulus
  {
    Arith.TimesMonotone(divisor, divisor, field + 1, modulus);
  }

  lemma SecondWritten(t: Token)
    ensures SecondWord(t.a, Decode(t), t.a / 0x1000_0000)
  {
    var w := t.a;
    Above(w, 1, 256, 0x100);
    Above(w, 0x100, 2, 0x200);
    Above(w, 0x200, 16, 0x2000);
    Above(w, 0x2000, 256, 0x20_0000);
    Above(w, 0x20_0000, 16, 0x200_0000);
    Above(w, 0x200_0000, 8, 0x1000_0000);
    FlagField(w, 0x100);
  }

  lemma ThirdSum(w: u32)
    ensures w == Field(w, 1, 4) + 4 * Field(w, 4, 256) + 0x400 * Field(w, 0x400, 2)
                 + 0x800 * Field(w, 0x800, 4) + 0x2000 * (w / 0x2000)
  {
    Above(w, 1, 4, 4);
    Above(w, 4, 256, 0x400);
    Above(w, 0x400, 2, 0x800);
    Above(w, 0x800, 4, 0x2000);
  }

  lemma ThirdRest(w: u32)
    ensures w / 0x2000 == Field(w, 0x2000, 16) + 0x10 * Field(w, 0x2_0000, 256) + 0x1000 * Field(w, 0x200_0000, 2)
                          + 0x2000 * Field(w, 0x400_0000, 4) + 0x8000 * Field(w, 0x1000_0000, 16)
  {
    Above(w, 0x2000, 16, 0x2_0000);
    Above(w, 0x2_0000, 256, 0x200_0000);
    Above(w, 0x200_0000, 2, 0x400_0000);
    Above(w, 0x400_0000, 4, 0x1000_0000);
    Above(w, 0x1000_0000, 16, 0x1_0000_0000);
  }

  lemma FlagField(w: u32, bit: nat)
    requires bit > 0
    ensures Bit(Flag(w, bit)) == Field(w, bit, 2)
  {
  }

  lemma RegisterParts(t: Token)
    ensures Decode(t).z.reg / 4 == Field(t.b, 1, 4) && Decode(t).z.reg % 4 == Field(t.c, 0x4000_0000, 4)
  {
    Arith.DivisionIs(Decode(t).z.reg, 4, Field(t.b, 1, 4), Field(t.c, 0x4000_0000, 4));
  }

  lemma ThirdWritten(t: Token)
    ensures ThirdWord(t.b, Decode(t))
  {
    ThirdSum(t.b);
    ThirdRest(t.b);
    FlagField(t.b, 0x400);
    FlagField(t.b, 0x200_0000);
    RegisterParts(t);
  }

  lemma FourthSum(w: u32)
    ensures w == Field(w, 1, 2) + 2 * Field(w, 2, 2) + 4 * Field(w, 4, 2) + 8 * Field(w, 8, 256) + 0x800 * Field(w, 0x800, 2)
                 + 0x1000 * (w / 0x1000)
  {
    Above(w, 1, 2, 2);
    Above(w, 2, 2, 4);
    Above(w, 4, 2, 8);
    Above(w, 8, 256, 0x800);
    Above(w, 0x800, 2, 0x1000);
  }

  lemma FourthRest(w: u32)
    ensures w / 0x1000 == Field(w, 0x1000, 16) + 0x10 * Field(w, 0x1_0000, 16) + 0x100 * Field(w, 0x10_0000, 16)
                          + 0x1000 * Field(w, 0x100_0000, 16)
                          + 0x1_0000 * Field(w, 0x1000_0000, 4) + 0x4_0000 * Field(w, 0x4000_0000, 4)
  {
    Above(w, 0x1000, 16, 0x1_0000);
    Above(w, 0x1_0000, 16, 0x10_0000);
    Above(w, 0x10_0000, 16, 0x100_0000);
    Above(w, 0x100_0000, 16, 0x1000_0000);
    Above(w, 0x1000_0000, 4, 0x4000_0000);
    Above(w, 0x4000_0000, 4, 0x1_0000_0000);
  }

  lemma FourthWritten(t: Token)
    ensures FourthWord(t.c, Decode(t))
  {
    FourthSum(t.c);
    FourthRest(t.c);
    FlagField(t.c, 1);
    FlagField(t.c, 2);
    FlagField(t.c, 4);
    FlagField(t.c, 0x800);
    RegisterParts(t);
  }

  /** Every token is an instruction laid out in this way, and no other one. */
  lemma EveryTokenEncodes(t: Token)
    ensures Encodes(t, Decode(t), t.a / 0x1000_0000)
    ensures forall i: Instr, spare: nat :: Encodes(t, i, spare) ==> i == Decode(t)
  {
    SecondWritten(t);
    ThirdWritten(t);
    FourthWritten(t);
    forall i: Instr, spare: nat | Encodes(t, i, spare) ensures i == Decode(t) {
      DecodeReads(t, i, spare);
    }
  }

  // ------------------------------------------------ what the fields stand for

  /** A write mask has x in its highest bit and w in its lowest; the components are
      written in that order. */
  lemma MaskBits(mask: nat, x: bool, y: bool, z: bool, w: bool)
    requires mask == 8 * Bit(x) + 4 * Bit(y) + 2 * Bit(z) + Bit(w)
    ensures Selects(mask, 0) == x && Selects(mask, 1) == y && Selects(mask, 2) == z && Selects(mask, 3) == w
    ensures forall c: nat :: c in MaskComps(mask) ==> c < 4 && Selects(mask, c)
    ensures forall j, k :: 0 <= j < k < |MaskComps(mask)| ==> MaskComps(mask)[j] < MaskComps(mask)[k]
  {
  }

  /** A swizzle byte names four components, the first in its highest bits. */
  lemma SwizzleBits(swizzle: nat, x: nat, y: nat, z: nat, w: nat)
    requires x < 4 && y < 4 && z < 4 && w < 4 && swizzle == 64 * x + 16 * y + 4 * z + w
    ensures SwizzleAt(swizzle, 0) == x && SwizzleAt(swizzle, 1) == y && SwizzleAt(swizzle, 2) == z && SwizzleAt(swizzle, 3) == w
  {
    Arith.DivisionIs(swizzle, 4, 16 * x + 4 * y + z, w);
    Arith.DivisionIs(swizzle, 16, 4 * x + y, 4 * z + w);
  }

  /** An operand can be read exactly if there is a register of four components there. */
  lemma ReadableMeans<F>(alu: Alu<F>, inp: Inputs<F>, st: Machine<F>, i: Instr, s: Operand)
    requires inp.Valid() && st.Valid()
    ensures Readable(i, s) <==> IsVec4(Bank(alu, inp, st, i, s))
  {
  }

  /** Which operands the operations take: mov x, mul x y, add x z, mad x y z, dp3 and
      dp4 x y; and every scalar operation z. */
  lemma OperandsTaken(i: Instr)
    requires i.mac in {0, 1, 2, 3, 4, 5, 7} && i.ilu <= 4
    ensures ReadsX(i) <==> i.mac != 0
    ensures ReadsY(i) <==> i.mac != 0 && i.mac != 1 && i.mac != 3
    ensures ReadsZ(i) <==> i.mac == 3 || i.mac == 4 || i.ilu > 0
  {
  }

  lemma SameFetches<F>(alu: Alu<F>, inp: Inputs<F>, st: Machine<F>, i: Instr, j: Instr, s: Operand, n: nat)
    requires n <= 4 && i.attribute == j.attribute && i.constant == j.constant
    ensures Fetches(alu, inp, st, i, s, n) == Fetches(alu, inp, st, j, s, n)
  {
  }

  /** Operands that an instruction does not take do not matter. */
  lemma OthersDoNotMatter<F>(alu: Alu<F>, inp: Inputs<F>, st: Machine<F>, i: Instr, j: Instr, c: nat)
    requires c < 4 && i.mac == j.mac && i.ilu == j.ilu && i.attribute == j.attribute && i.constant == j.constant
    requires (ReadsX(i) ==> i.x == j.x) && (ReadsY(i) ==> i.y == j.y) && (ReadsZ(i) ==> i.z == j.z)
    ensures MacResult(alu, inp, st, i, c) == MacResult(alu, inp, st, j, c)
    ensures i.ilu <= 4 ==> IluResult(alu, inp, st, i, c) == IluResult(alu, inp, st, j, c)
  {
    if i.mac == 5 {
      SameFetches(alu, inp, st, i, j, i.x, 3);
      SameFetches(alu, inp, st, i, j, i.y, 3);
    }
    if i.mac == 7 {
      SameFetches(alu, inp, st, i, j, i.x, 4);
      SameFetches(alu, inp, st, i, j, i.y, 4);
    }
  }

  // ------------------------------------------------------- one known program

  /** The number that decimal digits stand for. */
  function Value(s: string): int {
    if s == "" then 0 else 10 * Value(s[..|s| - 1]) + (s[|s| - 1] as int - '0' as int)
  }

  /** Registers are written in decimal, without leading zeros. */
  lemma {:induction false} DigitsValue(n: nat)
    ensures Value(Digits(n)) == n && Digits(n) != "" && (n > 0 ==> Digits(n)[0] != '0')
    ensures forall k :: 0 <= k < |Digits(n)| ==> '0' <= Digits(n)[k] <= '9'
  {
    if n < 10 {
      assert Digits(n)[..0] == "";
    } else {
      DigitsValue(n / 10);
      assert Digits(n)[..|Digits(n)| - 1] == Digits(n / 10);
    }
  }

  const MOV_POSITION: Token := Token(0, 0x20_001b, 0x800_0000, 0xf801)

  const NO_OPERAND: Operand := Operand(0, 0, 0, false)

  /** mov oPos, v0: the first input goes to the position. */
  predicate IsMov(i: Instr) {
    i == Instr(1, 0, 0, 0, Operand(2, 0, 0x1b, false), NO_OPERAND, NO_OPERAND, 0, 0, 0, 15, 0, true, false, false, true)
  }

  lemma MovDecodes()
    ensures IsMov(Decode(MOV_POSITION))
  {
    var i := Instr(1, 0, 0, 0, Operand(2, 0, 0x1b, false), NO_OPERAND, NO_OPERAND, 0, 0, 0, 15, 0, true, false, false, true);
    DecodeReads(MOV_POSITION, i, 0);
  }

  const READ: Stmt := Declare(Swizzle(Attr(0), [0, 1, 2, 3]), Zero)
  const WRITE: Stmt := Assign(ToTemp(12), [0, 1, 2, 3], false)

  lemma MovStatements(i: Instr)
    requires IsMov(i)
    ensures Supported(i) && InstrStmts(i) == [READ, WRITE, Close]
  {
    SwizzleBits(i.x.swizzle, 0, 1, 2, 3);
    MaskBits(i.outMask, true, true, true, true);
    assert MaskComps(i.outMask) == [0, 1, 2, 3];
    assert WriteStmts(OutDest(i.out), i.outMask, false) == [WRITE];
  }

  lemma MovTranslates(t: Token)
    requires IsMov(Decode(t))
    ensures Accepted([t]) && Translate([t]) == [READ, WRITE, Close]
  {
    var tokens := [t];
    MovStatements(Decode(t));
    assert tokens[..0] == [] && Translate(tokens[..0]) == [];
    assert Translate(tokens) == [READ, WRITE, Close];
  }

  /** The text emitted for a program of this one instruction. */
  lemma MovReads(t: Token)
    requires IsMov(Decode(t))
    ensures Accepted([t]) && Render(Translate([t])) ==
      "{float4 m=v0.xyzw, l=0;\n" + "r12.xyzw = m.xyzw;\n" + "}\n"
  {
    MovTranslates(t);
    MovText(Translate([t]));
  }

  lemma ThreeRender(first: Stmt, second: Stmt, last: Stmt)
    ensures Render([first, second, last]) == RenderStmt(first) + RenderStmt(second) + RenderStmt(last)
  {
    assert [first, second, last] == [first] + [second] + [last];
    RenderBlock(first, [second], last);
    RenderOne(second);
  }

  lemma MovText(body: seq<Stmt>)
    requires body == [READ, WRITE, Close]
    ensures Render(body) == "{float4 m=v0.xyzw, l=0;\n" + "r12.xyzw = m.xyzw;\n" + "}\n"
  {
    ThreeRender(READ, WRITE, Close);
    LinesRead();
  }

  lemma LinesRead()
    ensures RenderStmt(READ) == "{float4 m=v0.xyzw, l=0;\n" && RenderStmt(WRITE) == "r12.xyzw = m.xyzw;\n"
  {
    assert Letters([0, 1, 2, 3]) == "xyzw";
    R12();
  }
}
