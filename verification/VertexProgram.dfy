/**
 The vertex-program translator of recomp-runtime/d3d_vertex_program.cpp.

 An Xbox vertex instruction drives two units at once: MAC (multiply/accumulate)
 and ILU (scalar functions).  Both read the register file as it was before the
 instruction.  The translator turns each instruction into a block of sequential
 HLSL assignments.  Three layers:
   - Instr / Step / RunMicrocode: the parallel meaning of the microcode, given
     component by component, with no reference to the emitted code;
   - Expr / Stmt / Exec: the meaning of the emitted assignments, one at a time;
   - Translate: what the translator emits.
 RunMicrocode and the execution of Translate agree on every accepted program,
 over any arithmetic whatsoever (Alu is a parameter).
 */
module VertexProgram {
  import opened MachineWords

  datatype Token = Token(w0: u32, a: u32, b: u32, c: u32)

  const MAX_PROGRAM := 136
  const TEMP_COUNT := 13   // r0..r12
  const OUT_COUNT := 11    // o0..o10, of which 3, 5, 9 and 10 exist
  const CONSTANT_COUNT := 192
  const POSITION_TEMP := 12

  // ------------------------------------------------------------ arithmetic

  /** The operations of the shader arithmetic, left abstract: nothing below
      depends on what they compute. */
  datatype Alu<!F> = Alu(
    zero: F,
    one: F,
    add: (F, F) -> F,
    mul: (F, F) -> F,
    neg: F -> F,
    dot: (seq<F>, seq<F>) -> F,
    rcp: F -> F,
    abs: F -> F,
    signOf: F -> F,
    clampRcc: F -> F,
    rsqrt: F -> F)

  /** A float4. */
  ghost predicate IsVec4<F>(v: seq<F>) { |v| == 4 }

  /** Read-only data of one shader run. */
  datatype Inputs<F> = Inputs(position: seq<F>, normal: seq<F>, texcoord: seq<F>, constants: seq<seq<F>>) {
    ghost predicate Valid() {
      && |position| == 3 && |normal| == 3 && |texcoord| == 2
      && |constants| == CONSTANT_COUNT && forall k :: 0 <= k < CONSTANT_COUNT ==> IsVec4(constants[k])
    }
  }

  /** Attributes v0, v2 and v9 as the shader prologue declares them. */
  function Attribute<F>(alu: Alu<F>, inp: Inputs<F>, v: nat): seq<F> {
    match v
    case 0 => inp.position + [alu.one]
    case 2 => inp.normal + [alu.one]
    case 9 => inp.texcoord + [alu.zero, alu.one]
    case _ => []
  }

  // ------------------------------------------------------------ microcode

  /** One source operand: which file it reads, the temporary it names, its
      swizzle byte and its sign. */
  datatype Operand = Operand(mux: nat, reg: nat, swizzle: nat, negate: bool)

  datatype Instr = Instr(
    mac: nat, ilu: nat,
    attribute: nat, constant: nat,
    x: Operand, y: Operand, z: Operand,
    temp: nat, macMask: nat, iluMask: nat,
    outMask: nat, out: nat, toOutput: bool, outFromIlu: bool,
    relative: bool, final: bool)

  /** `Field(w, 2^n, 2^k)` is k bits of w starting at bit n. */
  function Field(w: u32, divisor: nat, modulus: nat): (r: nat)
    requires divisor > 0 && modulus > 0
    ensures r < modulus
  {
    w / divisor % modulus
  }

  predicate Flag(w: u32, bit: nat)
    requires bit > 0
  {
    w / bit % 2 == 1
  }

  function Decode(t: Token): Instr {
    Instr(
      mac := Field(t.a, 0x200000, 16),
      ilu := Field(t.a, 0x2000000, 8),
      attribute := Field(t.a, 0x200, 16),
      constant := Field(t.a, 0x2000, 256),
      x := Operand(Field(t.b, 0x4000000, 4), Field(t.b, 0x10000000, 16), Field(t.a, 1, 256), Flag(t.a, 0x100)),
      y := Operand(Field(t.b, 0x800, 4), Field(t.b, 0x2000, 16), Field(t.b, 0x20000, 256), Flag(t.b, 0x2000000)),
      z := Operand(Field(t.c, 0x10000000, 4), Field(t.b, 1, 4) * 4 + Field(t.c, 0x40000000, 4),
                   Field(t.b, 4, 256), Flag(t.b, 0x400)),
      temp := Field(t.c, 0x100000, 16),
      macMask := Field(t.c, 0x1000000, 16),
      iluMask := Field(t.c, 0x10000, 16),
      outMask := Field(t.c, 0x1000, 16),
      out := Field(t.c, 8, 256),
      toOutput := Flag(t.c, 0x800),
      outFromIlu := Flag(t.c, 4),
      relative := Flag(t.c, 2),
      final := Flag(t.c, 1))
  }

  /** Component c (x = 0 .. w = 3) is selected by a write mask. */
  predicate Selects(mask: nat, c: nat)
    requires c < 4
  {
    match c
    case 0 => mask / 8 % 2 == 1
    case 1 => mask / 4 % 2 == 1
    case 2 => mask / 2 % 2 == 1
    case _ => mask % 2 == 1
  }

  /** The component that a swizzle byte puts at position c. */
  function SwizzleAt(swizzle: nat, c: nat): (r: nat)
    requires c < 4
    ensures r < 4
  {
    match c
    case 0 => swizzle / 64 % 4
    case 1 => swizzle / 16 % 4
    case 2 => swizzle / 4 % 4
    case _ => swizzle % 4
  }

  predicate Readable(i: Instr, s: Operand) {
    || (s.mux == 1 && s.reg < TEMP_COUNT)
    || (s.mux == 2 && i.attribute in {0, 2, 9})
    || (s.mux == 3 && i.constant < CONSTANT_COUNT)
  }

  predicate ReadsX(i: Instr) { i.mac != 0 }
  predicate ReadsY(i: Instr) { i.mac in {2, 4, 5, 7} }
  predicate ReadsZ(i: Instr) { i.mac in {3, 4} || i.ilu != 0 }

  /** The instructions the translator accepts. */
  predicate Supported(i: Instr) {
    && i.mac in {0, 1, 2, 3, 4, 5, 7} && i.ilu <= 4
    && !i.relative
    && (ReadsX(i) ==> Readable(i, i.x))
    && (ReadsY(i) ==> Readable(i, i.y))
    && (ReadsZ(i) ==> Readable(i, i.z))
    && (i.macMask != 0 ==> i.mac != 0 && i.temp < TEMP_COUNT)
    && (i.iluMask != 0 ==> i.ilu != 0 && i.temp < TEMP_COUNT)
    && (i.outMask != 0 ==> i.toOutput && i.out in {0, 3, 5, 9, 10})
  }

  predicate SupportedAt(tokens: seq<Token>, k: nat)
    requires k < |tokens|
  {
    Supported(Decode(tokens[k])) && Decode(tokens[k]).final == (k + 1 == |tokens|)
  }

  /** Whole programs: 1 to 136 instructions, the last one and only the last
      one flagged final. */
  predicate Accepted(tokens: seq<Token>) {
    0 < |tokens| <= MAX_PROGRAM && forall k :: 0 <= k < |tokens| ==> SupportedAt(tokens, k)
  }

  // ------------------------------------------------------- parallel meaning

  datatype Machine<F> = Machine(temps: seq<seq<F>>, outs: seq<seq<F>>) {
    ghost predicate Valid() {
      && |temps| == TEMP_COUNT && (forall r :: 0 <= r < TEMP_COUNT ==> IsVec4(temps[r]))
      && |outs| == OUT_COUNT && (forall o :: 0 <= o < OUT_COUNT ==> IsVec4(outs[o]))
    }
  }

  function Zeros<F>(alu: Alu<F>): seq<F> { [alu.zero, alu.zero, alu.zero, alu.zero] }

  function Reset<F>(alu: Alu<F>): Machine<F> {
    Machine(seq(TEMP_COUNT, _ => Zeros(alu)), seq(OUT_COUNT, _ => Zeros(alu)))
  }

  function Bank<F>(alu: Alu<F>, inp: Inputs<F>, st: Machine<F>, i: Instr, s: Operand): seq<F>
  {
    if s.mux == 1 && s.reg < |st.temps| then st.temps[s.reg]
    else if s.mux == 2 then Attribute(alu, inp, i.attribute)
    else if s.mux == 3 && i.constant < |inp.constants| then inp.constants[i.constant]
    else []
  }

  /** Component c of an operand, read from the state before the instruction. */
  function Fetch<F>(alu: Alu<F>, inp: Inputs<F>, st: Machine<F>, i: Instr, s: Operand, c: nat): F
    requires c < 4
  {
    var v := Bank(alu, inp, st, i, s);
    var k := SwizzleAt(s.swizzle, c);
    var raw := if k < |v| then v[k] else alu.zero;
    if s.negate then alu.neg(raw) else raw
  }

  function Fetches<F>(alu: Alu<F>, inp: Inputs<F>, st: Machine<F>, i: Instr, s: Operand, n: nat): seq<F>
    requires n <= 4
  {
    seq(n, c requires 0 <= c < n => Fetch(alu, inp, st, i, s, c))
  }

  /** Component c of the MAC result; an idle unit yields zero. */
  function MacResult<F>(alu: Alu<F>, inp: Inputs<F>, st: Machine<F>, i: Instr, c: nat): F
    requires c < 4
  {
    match i.mac
    case 1 => Fetch(alu, inp, st, i, i.x, c)
    case 2 => alu.mul(Fetch(alu, inp, st, i, i.x, c), Fetch(alu, inp, st, i, i.y, c))
    case 3 => alu.add(Fetch(alu, inp, st, i, i.x, c), Fetch(alu, inp, st, i, i.z, c))
    case 4 => alu.add(alu.mul(Fetch(alu, inp, st, i, i.x, c), Fetch(alu, inp, st, i, i.y, c)),
                      Fetch(alu, inp, st, i, i.z, c))
    case 5 => alu.dot(Fetches(alu, inp, st, i, i.x, 3), Fetches(alu, inp, st, i, i.y, 3))
    case 7 => alu.dot(Fetches(alu, inp, st, i, i.x, 4), Fetches(alu, inp, st, i, i.y, 4))
    case _ => alu.zero
  }

  /** Component c of the ILU result. */
  function IluResult<F>(alu: Alu<F>, inp: Inputs<F>, st: Machine<F>, i: Instr, c: nat): F
    requires c < 4
  {
    var scalar := Fetch(alu, inp, st, i, i.z, 0);
    match i.ilu
    case 1 => Fetch(alu, inp, st, i, i.z, c)
    case 2 => alu.rcp(scalar)
    case 3 => alu.mul(alu.signOf(scalar), alu.clampRcc(alu.abs(alu.rcp(scalar))))
    case 4 => alu.rsqrt(alu.abs(scalar))
    case _ => alu.zero
  }

  predicate Paired(i: Instr) { i.mac != 0 && i.ilu != 0 }

  /** MAC stores into component c of temporary r.  In a paired instruction r1
      belongs to the ILU, whatever the two masks say. */
  predicate MacStores(i: Instr, r: nat, c: nat)
    requires c < 4
  {
    i.mac != 0 && r == i.temp && Selects(i.macMask, c) && !(Paired(i) && r == 1)
  }

  predicate IluStores(i: Instr, r: nat, c: nat)
    requires c < 4
  {
    i.ilu != 0 && r == (if Paired(i) then 1 else i.temp) && Selects(i.iluMask, c)
  }

  predicate OutStores(i: Instr, out: nat, c: nat)
    requires c < 4
  {
    i.toOutput && out == i.out && Selects(i.outMask, c)
  }

  function OutValue<F>(alu: Alu<F>, inp: Inputs<F>, st: Machine<F>, i: Instr, c: nat): F
    requires c < 4
  {
    if i.outFromIlu then IluResult(alu, inp, st, i, c) else MacResult(alu, inp, st, i, c)
  }

  /** Component c of temporary r after the instruction.  r12 is the position
      output (output 0), whose store prevails. */
  function TempAfter<F>(alu: Alu<F>, inp: Inputs<F>, st: Machine<F>, i: Instr, r: nat, c: nat): F
    requires r < |st.temps| && c < |st.temps[r]| && c < 4
  {
    if r == POSITION_TEMP && OutStores(i, 0, c) then OutValue(alu, inp, st, i, c)
    else if IluStores(i, r, c) then IluResult(alu, inp, st, i, c)
    else if MacStores(i, r, c) then MacResult(alu, inp, st, i, c)
    else st.temps[r][c]
  }

  function OutAfter<F>(alu: Alu<F>, inp: Inputs<F>, st: Machine<F>, i: Instr, out: nat, c: nat): F
    requires out < |st.outs| && c < |st.outs[out]| && c < 4
  {
    if out != 0 && OutStores(i, out, c) then OutValue(alu, inp, st, i, c) else st.outs[out][c]
  }

  /** One instruction: every component of every register at once. */
  ghost function Step<F>(alu: Alu<F>, inp: Inputs<F>, st: Machine<F>, i: Instr): (st': Machine<F>)
    requires st.Valid()
    ensures st'.Valid()
  {
    Machine(
      seq(TEMP_COUNT, r requires 0 <= r < TEMP_COUNT =>
        seq(4, c requires 0 <= c < 4 => TempAfter(alu, inp, st, i, r, c))),
      seq(OUT_COUNT, o requires 0 <= o < OUT_COUNT =>
        seq(4, c requires 0 <= c < 4 => OutAfter(alu, inp, st, i, o, c))))
  }

  ghost function RunMicrocode<F>(alu: Alu<F>, inp: Inputs<F>, tokens: seq<Token>): (st: Machine<F>)
    ensures st.Valid()
  {
    if |tokens| == 0 then Reset(alu)
    else Step(alu, inp, RunMicrocode(alu, inp, tokens[..|tokens| - 1]), Decode(tokens[|tokens| - 1]))
  }

  /** No temporary component is claimed by both units. */
  lemma StoresAreExclusive(i: Instr, r: nat, c: nat)
    requires c < 4
    ensures !(MacStores(i, r, c) && IluStores(i, r, c))
  {
  }

  // ------------------------------------------------------- emitted program

  /** The HLSL expressions the translator writes. */
  datatype Expr =
    | Zero
    | Temp(r: nat)
    | Attr(v: nat)
    | Constant(k: nat)
    | Swizzle(base: Expr, comps: seq<nat>)
    | Neg(e: Expr)
    | Mul(e1: Expr, e2: Expr)
    | Add(e1: Expr, e2: Expr)
    | Dot(e1: Expr, e2: Expr)
    | Paren(e: Expr)
    | Rcp(e: Expr)    // 1.0/e
    | Rcc(e: Expr)    // sign(e) * clamp(abs(1.0/e))
    | Rsq(e: Expr)    // rsqrt(abs(e))

  datatype Dest = ToTemp(r: nat) | ToOut(o: nat)

  datatype Stmt =
    | Declare(m: Expr, l: Expr)                       // {float4 m=..., l=...;
    | Assign(dest: Dest, comps: seq<nat>, fromL: bool) // dest.mask = m.mask  or  l.mask
    | Close                                            // }

  /** The variables of the running shader. */
  datatype Env<F> = Env(temps: seq<seq<F>>, outs: seq<seq<F>>, m: seq<F>, l: seq<F>)

  function Pick<F>(alu: Alu<F>, v: seq<F>, k: nat): F { if k < |v| then v[k] else alu.zero }

  function Lift<F>(f: F -> F, v: seq<F>): seq<F> { seq(|v|, k requires 0 <= k < |v| => f(v[k])) }

  function Zip<F>(f: (F, F) -> F, v: seq<F>, w: seq<F>): seq<F> {
    seq(if |v| < |w| then |v| else |w|, k requires 0 <= k < |v| && k < |w| => f(v[k], w[k]))
  }

  function Eval<F>(alu: Alu<F>, inp: Inputs<F>, env: Env<F>, e: Expr): seq<F> {
    match e
    case Zero => Zeros(alu)
    case Temp(r) => if r < |env.temps| then env.temps[r] else []
    case Attr(v) => Attribute(alu, inp, v)
    case Constant(k) => if k < |inp.constants| then inp.constants[k] else []
    case Swizzle(base, comps) =>
      var v := Eval(alu, inp, env, base);
      seq(|comps|, k requires 0 <= k < |comps| => Pick(alu, v, comps[k]))
    case Neg(e) => Lift(alu.neg, Eval(alu, inp, env, e))
    case Mul(e1, e2) => Zip(alu.mul, Eval(alu, inp, env, e1), Eval(alu, inp, env, e2))
    case Add(e1, e2) => Zip(alu.add, Eval(alu, inp, env, e1), Eval(alu, inp, env, e2))
    case Dot(e1, e2) => [alu.dot(Eval(alu, inp, env, e1), Eval(alu, inp, env, e2))]
    case Paren(e) => Eval(alu, inp, env, e)
    case Rcp(e) => Lift(alu.rcp, Eval(alu, inp, env, e))
    case Rcc(e) =>
      var v := Eval(alu, inp, env, e);
      Zip(alu.mul, Lift(alu.signOf, v), Lift(alu.clampRcc, Lift(alu.abs, Lift(alu.rcp, v))))
    case Rsq(e) => Lift(alu.rsqrt, Lift(alu.abs, Eval(alu, inp, env, e)))
  }

  /** dest.mask = value.mask, one component after the other. */
  function Blend<F>(dest: seq<F>, value: seq<F>, comps: seq<nat>): (r: seq<F>)
    ensures |r| == |dest|
    decreases |comps|
  {
    if comps == [] then dest
    else
      var c := comps[0];
      Blend(if c < |dest| && c < |value| then dest[c := value[c]] else dest, value, comps[1..])
  }

  function ExecStmt<F>(alu: Alu<F>, inp: Inputs<F>, env: Env<F>, s: Stmt): Env<F> {
    match s
    case Declare(me, le) =>
      var env1 := env.(m := Eval(alu, inp, env, me));
      env1.(l := Eval(alu, inp, env1, le))
    case Assign(dest, comps, fromL) =>
      var value := if fromL then env.l else env.m;
      (match dest
      case ToTemp(r) =>
        if r < |env.temps| then env.(temps := env.temps[r := Blend(env.temps[r], value, comps)]) else env
      case ToOut(o) =>
        if o < |env.outs| then env.(outs := env.outs[o := Blend(env.outs[o], value, comps)]) else env)
    case Close => env
  }

  function Exec<F>(alu: Alu<F>, inp: Inputs<F>, env: Env<F>, body: seq<Stmt>): Env<F> {
    if body == [] then env
    else ExecStmt(alu, inp, Exec(alu, inp, env, body[..|body| - 1]), body[|body| - 1])
  }

  /** The declarations that open every shader. */
  function Prologue<F>(alu: Alu<F>): Env<F> {
    Env(Reset(alu).temps, Reset(alu).outs, [], [])
  }

  // ------------------------------------------------------------ translation

  function MaskComps(bits: nat): seq<nat> {
    (if Selects(bits, 0) then [0] else []) + (if Selects(bits, 1) then [1] else []) +
    (if Selects(bits, 2) then [2] else []) + (if Selects(bits, 3) then [3] else [])
  }

  function SourceExpr(i: Instr, s: Operand): Expr {
    var base := if s.mux == 1 then Temp(s.reg) else if s.mux == 2 then Attr(i.attribute) else Constant(i.constant);
    var swizzled := Swizzle(base, [SwizzleAt(s.swizzle, 0), SwizzleAt(s.swizzle, 1),
                                   SwizzleAt(s.swizzle, 2), SwizzleAt(s.swizzle, 3)]);
    if s.negate then Neg(swizzled) else swizzled
  }

  const XYZ: seq<nat> := [0, 1, 2]
  const XXXX: seq<nat> := [0, 0, 0, 0]

  function MacExpr(i: Instr): Expr {
    var x, y, z := SourceExpr(i, i.x), SourceExpr(i, i.y), SourceExpr(i, i.z);
    match i.mac
    case 1 => x
    case 2 => Mul(x, y)
    case 3 => Add(x, z)
    case 4 => Add(Mul(x, y), z)
    case 5 => Swizzle(Dot(Swizzle(x, XYZ), Swizzle(y, XYZ)), XXXX)
    case 7 => Swizzle(Dot(x, y), XXXX)
    case _ => Zero
  }

  function IluExpr(i: Instr): Expr {
    var z := SourceExpr(i, i.z);
    match i.ilu
    case 1 => z
    case 2 => Swizzle(Paren(Rcp(Swizzle(Paren(z), [0]))), XXXX)
    case 3 => Swizzle(Rcc(Swizzle(Paren(z), [0])), XXXX)
    case 4 => Swizzle(Rsq(Swizzle(Paren(z), [0])), XXXX)
    case _ => Zero
  }

  function WriteStmts(dest: Dest, bits: nat, fromL: bool): seq<Stmt> {
    if bits == 0 then [] else [Assign(dest, MaskComps(bits), fromL)]
  }

  function OutDest(out: nat): Dest { if out == 0 then ToTemp(POSITION_TEMP) else ToOut(out) }

  function MacBits(i: Instr): nat { if i.ilu != 0 && i.temp == 1 then 0 else i.macMask }

  function IluDest(i: Instr): Dest { ToTemp(if i.mac != 0 then 1 else i.temp) }

  function InstrStmts(i: Instr): seq<Stmt> {
    [Declare(MacExpr(i), IluExpr(i))]
    + WriteStmts(ToTemp(i.temp), MacBits(i), false)
    + WriteStmts(IluDest(i), i.iluMask, true)
    + WriteStmts(OutDest(i.out), i.outMask, i.outFromIlu)
    + [Close]
  }

  /** The body emitted for a whole program. */
  function Translate(tokens: seq<Token>): seq<Stmt> {
    if |tokens| == 0 then []
    else Translate(tokens[..|tokens| - 1]) + InstrStmts(Decode(tokens[|tokens| - 1]))
  }

  // ------------------------------------------------------------ correctness

  /** A masked assignment changes the selected components and no others. */
  lemma {:induction false} BlendAt<F>(dest: seq<F>, value: seq<F>, comps: seq<nat>, c: nat)
    requires c < |dest|
    ensures Blend(dest, value, comps)[c] == if c in comps && c < |value| then value[c] else dest[c]
    decreases |comps|
  {
    if comps != [] {
      var k := comps[0];
      var dest' := if k < |dest| && k < |value| then dest[k := value[k]] else dest;
      BlendAt(dest', value, comps[1..], c);
    }
  }

  lemma MaskSelects(bits: nat, c: nat)
    requires c < 4
    ensures c in MaskComps(bits) <==> Selects(bits, c)
  {
    assert MaskComps(bits) ==
      (if Selects(bits, 0) then [0] else []) + (if Selects(bits, 1) then [1] else []) +
      (if Selects(bits, 2) then [2] else []) + (if Selects(bits, 3) then [3] else []);
  }

  ghost predicate Agrees<F>(env: Env<F>, st: Machine<F>) { env.temps == st.temps && env.outs == st.outs }

  /** The text of an operand evaluates to what the hardware fetches. */
  lemma OperandCorrect<F>(alu: Alu<F>, inp: Inputs<F>, env: Env<F>, st: Machine<F>, i: Instr, s: Operand)
    requires inp.Valid() && st.Valid() && Agrees(env, st) && Readable(i, s)
    ensures Eval(alu, inp, env, SourceExpr(i, s)) == Fetches(alu, inp, st, i, s, 4)
  {
    BaseCorrect(alu, inp, env, st, i, s);
    var base := if s.mux == 1 then Temp(s.reg) else if s.mux == 2 then Attr(i.attribute) else Constant(i.constant);
    var swizzled := Swizzle(base, [SwizzleAt(s.swizzle, 0), SwizzleAt(s.swizzle, 1),
                                   SwizzleAt(s.swizzle, 2), SwizzleAt(s.swizzle, 3)]);
    var v, w := Eval(alu, inp, env, swizzled), Fetches(alu, inp, st, i, s.(negate := false), 4);
    assert |v| == |w| == 4;
    assert v[0] == w[0] && v[1] == w[1] && v[2] == w[2] && v[3] == w[3];
    assert v == w;
    if s.negate {
      assert Eval(alu, inp, env, Neg(swizzled)) == Lift(alu.neg, v);
    }
  }

  lemma BaseCorrect<F>(alu: Alu<F>, inp: Inputs<F>, env: Env<F>, st: Machine<F>, i: Instr, s: Operand)
    requires inp.Valid() && st.Valid() && Agrees(env, st) && Readable(i, s)
    ensures Bank(alu, inp, st, i, s) == Eval(alu, inp, env,
      if s.mux == 1 then Temp(s.reg) else if s.mux == 2 then Attr(i.attribute) else Constant(i.constant))
  {
  }

  ghost function MacVec<F>(alu: Alu<F>, inp: Inputs<F>, st: Machine<F>, i: Instr): seq<F> {
    seq(4, c requires 0 <= c < 4 => MacResult(alu, inp, st, i, c))
  }

  ghost function IluVec<F>(alu: Alu<F>, inp: Inputs<F>, st: Machine<F>, i: Instr): seq<F> {
    seq(4, c requires 0 <= c < 4 => IluResult(alu, inp, st, i, c))
  }

  lemma MacCorrect<F>(alu: Alu<F>, inp: Inputs<F>, env: Env<F>, st: Machine<F>, i: Instr)
    requires inp.Valid() && st.Valid() && Agrees(env, st) && Supported(i)
    ensures Eval(alu, inp, env, MacExpr(i)) == MacVec(alu, inp, st, i)
  {
    if ReadsX(i) { OperandCorrect(alu, inp, env, st, i, i.x); }
    if ReadsY(i) { OperandCorrect(alu, inp, env, st, i, i.y); }
    if ReadsZ(i) { OperandCorrect(alu, inp, env, st, i, i.z); }
    if i.mac == 5 {
      ThreeOf(alu, inp, env, st, i, i.x);
      ThreeOf(alu, inp, env, st, i, i.y);
    }
  }

  lemma ThreeOf<F>(alu: Alu<F>, inp: Inputs<F>, env: Env<F>, st: Machine<F>, i: Instr, s: Operand)
    requires Eval(alu, inp, env, SourceExpr(i, s)) == Fetches(alu, inp, st, i, s, 4)
    ensures Eval(alu, inp, env, Swizzle(SourceExpr(i, s), XYZ)) == Fetches(alu, inp, st, i, s, 3)
  {
    var v := Fetches(alu, inp, st, i, s, 4);
    assert Eval(alu, inp, env, Swizzle(SourceExpr(i, s), XYZ)) == [v[0], v[1], v[2]];
  }

  lemma IluCorrect<F>(alu: Alu<F>, inp: Inputs<F>, env: Env<F>, st: Machine<F>, i: Instr)
    requires inp.Valid() && st.Valid() && Agrees(env, st) && Supported(i)
    ensures Eval(alu, inp, env, IluExpr(i)) == IluVec(alu, inp, st, i)
  {
    if i.ilu != 0 {
      OperandCorrect(alu, inp, env, st, i, i.z);
      var z := SourceExpr(i, i.z);
      var x := Fetch(alu, inp, st, i, i.z, 0);
      FirstComponent(alu, inp, env, z);
      ScalarForms(alu, inp, env, Swizzle(Paren(z), [0]), x);
    }
  }

  /** The three scalar operations, spread to all components. */
  lemma ScalarForms<F>(alu: Alu<F>, inp: Inputs<F>, env: Env<F>, e: Expr, x: F)
    requires Eval(alu, inp, env, e) == [x]
    ensures var r := alu.rcp(x); Eval(alu, inp, env, Swizzle(Paren(Rcp(e)), XXXX)) == [r, r, r, r]
    ensures var c := alu.mul(alu.signOf(x), alu.clampRcc(alu.abs(alu.rcp(x))));
      Eval(alu, inp, env, Swizzle(Rcc(e), XXXX)) == [c, c, c, c]
    ensures var q := alu.rsqrt(alu.abs(x)); Eval(alu, inp, env, Swizzle(Rsq(e), XXXX)) == [q, q, q, q]
  {
    Splat(alu, inp, env, Paren(Rcp(e)), alu.rcp(x));
    Splat(alu, inp, env, Rcc(e), alu.mul(alu.signOf(x), alu.clampRcc(alu.abs(alu.rcp(x)))));
    Splat(alu, inp, env, Rsq(e), alu.rsqrt(alu.abs(x)));
  }

  lemma Splat<F>(alu: Alu<F>, inp: Inputs<F>, env: Env<F>, e: Expr, x: F)
    requires Eval(alu, inp, env, e) == [x]
    ensures Eval(alu, inp, env, Swizzle(e, XXXX)) == [x, x, x, x]
  {
  }

  lemma FirstComponent<F>(alu: Alu<F>, inp: Inputs<F>, env: Env<F>, z: Expr)
    requires |Eval(alu, inp, env, z)| > 0
    ensures Eval(alu, inp, env, Swizzle(Paren(z), [0])) == [Eval(alu, inp, env, z)[0]]
  {
    var v := Eval(alu, inp, env, z);
    assert Eval(alu, inp, env, Paren(z)) == v;
    OneOf(v);
  }

  lemma OneOf<F>(v: seq<F>)
    requires |v| > 0
    ensures [v[0]] == [v[[0][0]]]
  {
  }

  /** Expressions never mention the block's own m and l. */
  lemma {:induction false} EvalFrame<F>(alu: Alu<F>, inp: Inputs<F>, env: Env<F>, env': Env<F>, e: Expr)
    requires env.temps == env'.temps
    ensures Eval(alu, inp, env, e) == Eval(alu, inp, env', e)
  {
    match e
    case Swizzle(base, comps) => EvalFrame(alu, inp, env, env', base);
    case Neg(e1) => EvalFrame(alu, inp, env, env', e1);
    case Mul(e1, e2) => EvalFrame(alu, inp, env, env', e1); EvalFrame(alu, inp, env, env', e2);
    case Add(e1, e2) => EvalFrame(alu, inp, env, env', e1); EvalFrame(alu, inp, env, env', e2);
    case Dot(e1, e2) => EvalFrame(alu, inp, env, env', e1); EvalFrame(alu, inp, env, env', e2);
    case Paren(e1) => EvalFrame(alu, inp, env, env', e1);
    case Rcp(e1) => EvalFrame(alu, inp, env, env', e1);
    case Rcc(e1) => EvalFrame(alu, inp, env, env', e1);
    case Rsq(e1) => EvalFrame(alu, inp, env, env', e1);
    case _ =>
  }

  lemma {:induction false} ExecAppend<F>(alu: Alu<F>, inp: Inputs<F>, env: Env<F>, p: seq<Stmt>, q: seq<Stmt>)
    ensures Exec(alu, inp, env, p + q) == Exec(alu, inp, Exec(alu, inp, env, p), q)
    decreases |q|
  {
    if q == [] {
      assert p + q == p;
    } else {
      var q' := q[..|q| - 1];
      assert (p + q)[..|p + q| - 1] == p + q';
      ExecAppend(alu, inp, env, p, q');
    }
  }

  lemma ExecOne<F>(alu: Alu<F>, inp: Inputs<F>, env: Env<F>, s: Stmt)
    ensures Exec(alu, inp, env, [s]) == ExecStmt(alu, inp, env, s)
  {
    assert [s][..0] == [];
  }

  ghost predicate Shaped<F>(env: Env<F>) {
    Machine(env.temps, env.outs).Valid() && IsVec4(env.m) && IsVec4(env.l)
  }

  /** Component c of register r after a masked write to the target. */
  ghost predicate WroteAt<F>(before: seq<seq<F>>, after: seq<seq<F>>, target: int, bits: nat, value: seq<F>, r: nat, c: nat) {
    && r < |before| && r < |after| && IsVec4(before[r]) && IsVec4(after[r]) && IsVec4(value) && c < 4
    && after[r][c] == if r == target && Selects(bits, c) then value[c] else before[r][c]
  }

  ghost predicate BankWrote<F>(before: seq<seq<F>>, after: seq<seq<F>>, target: int, bits: nat, value: seq<F>) {
    && |before| == |after| && IsVec4(value)
    && (forall r :: 0 <= r < |before| ==> IsVec4(before[r]))
    && (forall r :: 0 <= r < |after| ==> IsVec4(after[r]))
    && forall r: nat, c: nat :: r < |after| && c < 4 ==> WroteAt(before, after, target, bits, value, r, c)
  }

  /** env' is env after a masked write of m or l to dest. */
  ghost predicate Wrote<F>(env: Env<F>, env': Env<F>, dest: Dest, bits: nat, fromL: bool) {
    var value := if fromL then env.l else env.m;
    && Shaped(env) && Shaped(env') && env'.m == env.m && env'.l == env.l
    && BankWrote(env.temps, env'.temps, if dest.ToTemp? then dest.r else -1, bits, value)
    && BankWrote(env.outs, env'.outs, if dest.ToOut? then dest.o else -1, bits, value)
  }

  /** Running one optional masked write. */
  lemma WriteCorrect<F>(alu: Alu<F>, inp: Inputs<F>, env: Env<F>, dest: Dest, bits: nat, fromL: bool)
    requires Shaped(env) && bits < 16
    ensures Wrote(env, Exec(alu, inp, env, WriteStmts(dest, bits, fromL)), dest, bits, fromL)
  {
    var value := if fromL then env.l else env.m;
    BankStays(env.temps, value, bits);
    BankStays(env.outs, value, bits);
    if bits != 0 {
      ExecOne(alu, inp, env, Assign(dest, MaskComps(bits), fromL));
      match dest
      case ToTemp(r) => if r < |env.temps| { BlendBank(env.temps, r, value, bits); }
      case ToOut(o) => if o < |env.outs| { BlendBank(env.outs, o, value, bits); }
    }
  }

  /** A bank that is not written. */
  lemma BankStays<F>(bank: seq<seq<F>>, value: seq<F>, bits: nat)
    requires IsVec4(value) && forall r :: 0 <= r < |bank| ==> IsVec4(bank[r])
    ensures forall target: int :: bits == 0 || !(0 <= target < |bank|) ==> BankWrote(bank, bank, target, bits, value)
  {
  }

  /** One register of a bank blended. */
  lemma BlendBank<F>(bank: seq<seq<F>>, target: nat, value: seq<F>, bits: nat)
    requires bits < 16 && IsVec4(value) && target < |bank| && forall r :: 0 <= r < |bank| ==> IsVec4(bank[r])
    ensures BankWrote(bank, bank[target := Blend(bank[target], value, MaskComps(bits))], target, bits, value)
  {
    var after := bank[target := Blend(bank[target], value, MaskComps(bits))];
    forall r: nat, c: nat | r < |after| && c < 4 ensures WroteAt(bank, after, target, bits, value, r, c) {
      BlendAt(bank[target], value, MaskComps(bits), c);
      MaskSelects(bits, c);
    }
  }

  predicate MasksInRange(i: Instr) { i.macMask < 16 && i.iluMask < 16 && i.outMask < 16 }

  /** The block is a declaration followed by three writes. */
  lemma BlockRuns<F>(alu: Alu<F>, inp: Inputs<F>, env: Env<F>, st: Machine<F>, i: Instr)
    returns (env1: Env<F>, env2: Env<F>, env3: Env<F>)
    requires inp.Valid() && st.Valid() && Agrees(env, st) && Supported(i) && MasksInRange(i)
    ensures Agrees(env1, st) && env1.m == MacVec(alu, inp, st, i) && env1.l == IluVec(alu, inp, st, i)
    ensures Wrote(env1, env2, ToTemp(i.temp), MacBits(i), false)
    ensures Wrote(env2, env3, IluDest(i), i.iluMask, true)
    ensures Wrote(env3, Exec(alu, inp, env, InstrStmts(i)), OutDest(i.out), i.outMask, i.outFromIlu)
  {
    var declare := [Declare(MacExpr(i), IluExpr(i))];
    var macWrite := WriteStmts(ToTemp(i.temp), MacBits(i), false);
    var iluWrite := WriteStmts(IluDest(i), i.iluMask, true);
    var outWrite := WriteStmts(OutDest(i.out), i.outMask, i.outFromIlu);
    ExecAppend(alu, inp, env, declare + macWrite + iluWrite + outWrite, [Close]);
    ExecOne(alu, inp, Exec(alu, inp, env, declare + macWrite + iluWrite + outWrite), Close);
    ExecAppend(alu, inp, env, declare + macWrite + iluWrite, outWrite);
    ExecAppend(alu, inp, env, declare + macWrite, iluWrite);
    ExecAppend(alu, inp, env, declare, macWrite);
    ExecOne(alu, inp, env, declare[0]);
    env1 := Exec(alu, inp, env, declare);
    MacCorrect(alu, inp, env, st, i);
    EvalFrame(alu, inp, env, env.(m := Eval(alu, inp, env, MacExpr(i))), IluExpr(i));
    IluCorrect(alu, inp, env, st, i);
    WriteCorrect(alu, inp, env1, ToTemp(i.temp), MacBits(i), false);
    env2 := Exec(alu, inp, env1, macWrite);
    WriteCorrect(alu, inp, env2, IluDest(i), i.iluMask, true);
    env3 := Exec(alu, inp, env2, iluWrite);
    WriteCorrect(alu, inp, env3, OutDest(i.out), i.outMask, i.outFromIlu);
  }

  lemma WroteTempAt<F>(env: Env<F>, env': Env<F>, dest: Dest, bits: nat, fromL: bool, r: nat, c: nat)
    requires Wrote(env, env', dest, bits, fromL) && r < TEMP_COUNT && c < 4
    ensures env'.temps[r][c] ==
      if dest == ToTemp(r) && Selects(bits, c) then (if fromL then env.l else env.m)[c] else env.temps[r][c]
  {
    assert WroteAt(env.temps, env'.temps, if dest.ToTemp? then dest.r else -1, bits, if fromL then env.l else env.m, r, c);
  }

  lemma WroteOutAt<F>(env: Env<F>, env': Env<F>, dest: Dest, bits: nat, fromL: bool, o: nat, c: nat)
    requires Wrote(env, env', dest, bits, fromL) && o < OUT_COUNT && c < 4
    ensures env'.outs[o][c] ==
      if dest == ToOut(o) && Selects(bits, c) then (if fromL then env.l else env.m)[c] else env.outs[o][c]
  {
    assert WroteAt(env.outs, env'.outs, if dest.ToOut? then dest.o else -1, bits, if fromL then env.l else env.m, o, c);
  }

  lemma NoMaskSelectsNothing(bits: nat, c: nat)
    requires c < 4
    ensures bits == 0 ==> !Selects(bits, c)
  {
  }

  /** The three writes to one temporary component, taken in order. */
  lemma TempCase<F>(alu: Alu<F>, inp: Inputs<F>, st: Machine<F>, i: Instr, r: nat, c: nat, t2: F, t3: F, t4: F)
    requires st.Valid() && Supported(i) && r < TEMP_COUNT && c < 4
    requires t2 == if r == i.temp && Selects(MacBits(i), c) then MacResult(alu, inp, st, i, c) else st.temps[r][c]
    requires t3 == if IluDest(i) == ToTemp(r) && Selects(i.iluMask, c) then IluResult(alu, inp, st, i, c) else t2
    requires t4 == if OutDest(i.out) == ToTemp(r) && Selects(i.outMask, c) then OutValue(alu, inp, st, i, c) else t3
    ensures t4 == TempAfter(alu, inp, st, i, r, c)
  {
    NoMaskSelectsNothing(0, c);
    NoMaskSelectsNothing(i.macMask, c);
    NoMaskSelectsNothing(i.iluMask, c);
    NoMaskSelectsNothing(i.outMask, c);
  }

  /** Three masked writes of the unit results make up the parallel step. */
  lemma WritesMakeStep<F>(alu: Alu<F>, inp: Inputs<F>, st: Machine<F>, i: Instr,
                          env1: Env<F>, env2: Env<F>, env3: Env<F>, env4: Env<F>)
    requires st.Valid() && Supported(i)
    requires Agrees(env1, st) && env1.m == MacVec(alu, inp, st, i) && env1.l == IluVec(alu, inp, st, i)
    requires Wrote(env1, env2, ToTemp(i.temp), MacBits(i), false)
    requires Wrote(env2, env3, IluDest(i), i.iluMask, true)
    requires Wrote(env3, env4, OutDest(i.out), i.outMask, i.outFromIlu)
    ensures Agrees(env4, Step(alu, inp, st, i))
  {
    var st' := Step(alu, inp, st, i);
    forall r: nat, c: nat | r < TEMP_COUNT && c < 4
      ensures env4.temps[r][c] == TempAfter(alu, inp, st, i, r, c)
    {
      WroteTempAt(env1, env2, ToTemp(i.temp), MacBits(i), false, r, c);
      WroteTempAt(env2, env3, IluDest(i), i.iluMask, true, r, c);
      WroteTempAt(env3, env4, OutDest(i.out), i.outMask, i.outFromIlu, r, c);
      TempCase(alu, inp, st, i, r, c, env2.temps[r][c], env3.temps[r][c], env4.temps[r][c]);
    }
    forall o: nat, c: nat | o < OUT_COUNT && c < 4
      ensures env4.outs[o][c] == OutAfter(alu, inp, st, i, o, c)
    {
      WroteOutAt(env1, env2, ToTemp(i.temp), MacBits(i), false, o, c);
      WroteOutAt(env2, env3, IluDest(i), i.iluMask, true, o, c);
      WroteOutAt(env3, env4, OutDest(i.out), i.outMask, i.outFromIlu, o, c);
      NoMaskSelectsNothing(i.outMask, c);
    }
    assert forall r :: 0 <= r < TEMP_COUNT ==> env4.temps[r] == st'.temps[r];
    assert forall o :: 0 <= o < OUT_COUNT ==> env4.outs[o] == st'.outs[o];
  }

  /** The block of one instruction has the instruction's parallel meaning. */
  lemma BlockCorrect<F>(alu: Alu<F>, inp: Inputs<F>, env: Env<F>, st: Machine<F>, i: Instr)
    requires inp.Valid() && st.Valid() && Agrees(env, st) && Supported(i) && MasksInRange(i)
    ensures Agrees(Exec(alu, inp, env, InstrStmts(i)), Step(alu, inp, st, i))
  {
    var env1, env2, env3 := BlockRuns(alu, inp, env, st, i);
    WritesMakeStep(alu, inp, st, i, env1, env2, env3, Exec(alu, inp, env, InstrStmts(i)));
  }

  /** Main theorem: for every accepted program, over every arithmetic and all
      inputs, the emitted assignments compute the parallel meaning. */
  lemma {:induction false} TranslationCorrect<F>(alu: Alu<F>, inp: Inputs<F>, tokens: seq<Token>)
    requires inp.Valid()
    requires forall k :: 0 <= k < |tokens| ==> Supported(Decode(tokens[k]))
    ensures Agrees(Exec(alu, inp, Prologue(alu), Translate(tokens)), RunMicrocode(alu, inp, tokens))
  {
    if |tokens| != 0 {
      var front, last := tokens[..|tokens| - 1], tokens[|tokens| - 1];
      TranslationCorrect(alu, inp, front);
      ExecAppend(alu, inp, Prologue(alu), Translate(front), InstrStmts(Decode(last)));
      BlockCorrect(alu, inp, Exec(alu, inp, Prologue(alu), Translate(front)),
                   RunMicrocode(alu, inp, front), Decode(last));
    }
  }
}
