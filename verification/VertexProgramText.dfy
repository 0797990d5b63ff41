/**
 The text the vertex-program translator appends, statement by statement, and
 the translator loop itself.  The method VertexProgramSource accepts exactly the
 programs of VertexProgram.Accepted and emits the text of Translate.
 */
module VertexProgramText {
  import opened VertexProgram

  function Digits(n: nat): string {
    if n < 10 then [('0' as int + n) as char] else Digits(n / 10) + [('0' as int + n % 10) as char]
  }

  function Letters(comps: seq<nat>): string {
    seq(|comps|, k requires 0 <= k < |comps| => if comps[k] < 4 then "xyzw"[comps[k]] else '?')
  }

  function RenderExpr(e: Expr): string {
    match e
    case Zero => "0"
    case Temp(r) => "r" + Digits(r)
    case Attr(v) => "v" + Digits(v)
    case Constant(k) => "vc[" + Digits(k) + "]"
    case Swizzle(base, comps) => RenderExpr(base) + "." + Letters(comps)
    case Neg(e) => "(-" + RenderExpr(e) + ")"
    case Mul(e1, e2) => RenderExpr(e1) + "*" + RenderExpr(e2)
    case Add(e1, e2) => RenderExpr(e1) + "+" + RenderExpr(e2)
    case Dot(e1, e2) => "dot(" + RenderExpr(e1) + "," + RenderExpr(e2) + ")"
    case Paren(e) => "(" + RenderExpr(e) + ")"
    case Rcp(e) => "1.0/" + RenderExpr(e)
    case Rcc(e) => "((" + RenderExpr(e) + "<0?-1.0:1.0)*clamp(abs(1.0/" + RenderExpr(e) + "),5.42101e-20,1.884467e19))"
    case Rsq(e) => "rsqrt(abs(" + RenderExpr(e) + "))"
  }

  function RenderDest(d: Dest): string {
    match d
    case ToTemp(r) => "r" + Digits(r)
    case ToOut(o) => "o" + Digits(o)
  }

  function RenderStmt(s: Stmt): string {
    match s
    case Declare(m, l) => "{float4 m=" + RenderExpr(m) + ", l=" + RenderExpr(l) + ";\n"
    case Assign(dest, comps, fromL) =>
      RenderDest(dest) + "." + Letters(comps) + " = " + (if fromL then "l" else "m") + "." + Letters(comps) + ";\n"
    case Close => "}\n"
  }

  function Render(body: seq<Stmt>): string {
    if body == [] then "" else Render(body[..|body| - 1]) + RenderStmt(body[|body| - 1])
  }

  lemma ConcatAssociates(a: string, b: string, c: string)
    ensures (a + b) + c == a + (b + c)
  {
  }

  lemma {:induction false} RenderAppend(p: seq<Stmt>, q: seq<Stmt>)
    ensures Render(p + q) == Render(p) + Render(q)
    decreases |q|
  {
    if q == [] {
      assert p + q == p;
    } else {
      var q' := q[..|q| - 1];
      assert (p + q)[..|p + q| - 1] == p + q';
      RenderAppend(p, q');
      var t := RenderStmt(q[|q| - 1]);
      ConcatAssociates(Render(p), Render(q'), t);
      assert Render(p + q) == Render(p + q') + t;
    }
  }

  lemma RenderOne(s: Stmt)
    ensures Render([s]) == RenderStmt(s)
  {
    assert [s][..0] == [];
  }

  method Mask(bits: nat) returns (s: string)
    ensures s == Letters(MaskComps(bits))
  {
    s := "";
    if Selects(bits, 0) { s := s + "x"; }
    if Selects(bits, 1) { s := s + "y"; }
    if Selects(bits, 2) { s := s + "z"; }
    if Selects(bits, 3) { s := s + "w"; }
  }

  /** The text of an operand, empty when the operand cannot be read. */
  method Source(i: Instr, o: Operand) returns (s: string)
    ensures IsSource(i, o, s)
  {
    if o.mux == 1 && o.reg <= 12 {
      s := "r" + Digits(o.reg);
    } else if o.mux == 2 && (i.attribute == 0 || i.attribute == 2 || i.attribute == 9) {
      s := "v" + Digits(i.attribute);
    } else if o.mux == 3 && i.constant < CONSTANT_COUNT {
      s := "vc[" + Digits(i.constant) + "]";
    } else {
      return "";
    }
    s := s + ".";
    var letters := "";
    for k := 0 to 4
      invariant letters == Letters([SwizzleAt(o.swizzle, 0), SwizzleAt(o.swizzle, 1),
                                    SwizzleAt(o.swizzle, 2), SwizzleAt(o.swizzle, 3)][..k])
    {
      letters := letters + ["xyzw"[SwizzleAt(o.swizzle, k)]];
    }
    ghost var all := [SwizzleAt(o.swizzle, 0), SwizzleAt(o.swizzle, 1),
                      SwizzleAt(o.swizzle, 2), SwizzleAt(o.swizzle, 3)];
    assert all[..4] == all;
    ghost var base := if o.mux == 1 then Temp(o.reg) else if o.mux == 2 then Attr(i.attribute) else Constant(i.constant);
    s := s + letters;
    assert s == RenderExpr(Swizzle(base, all));
    if o.negate { s := "(-" + s + ")"; }
  }

  function WriteText(dest: string, bits: nat, value: string): string {
    if bits == 0 then ""
    else dest + "." + Letters(MaskComps(bits)) + " = " + value + "." + Letters(MaskComps(bits)) + ";\n"
  }

  /** Appends one masked write; fails on a missing destination. */
  method Write(s: string, dest: string, bits: nat, value: string) returns (ok: bool, s': string)
    ensures ok <==> bits == 0 || dest != ""
    ensures ok ==> s' == s + WriteText(dest, bits, value)
  {
    if bits == 0 { return true, s; }
    if dest == "" { return false, s; }
    var m := Mask(bits);
    return true, s + (dest + "." + m + " = " + value + "." + m + ";\n");
  }

  predicate MacOk(i: Instr) {
    && i.mac in {0, 1, 2, 3, 4, 5, 7}
    && (ReadsX(i) ==> Readable(i, i.x))
    && (ReadsY(i) ==> Readable(i, i.y))
    && (i.mac in {3, 4} ==> Readable(i, i.z))
  }

  predicate IluOk(i: Instr) { i.ilu <= 4 && (i.ilu != 0 ==> Readable(i, i.z)) }

  lemma SuffixLetters()
    ensures Letters(XYZ) == "xyz" && Letters(XXXX) == "xxxx" && Letters([0]) == "x"
  {
  }

  /** The text of an operand as the loop holds it: empty when unreadable. */
  ghost predicate IsSource(i: Instr, o: Operand, s: string) {
    && (s == "" <==> !Readable(i, o))
    && (Readable(i, o) ==> s == RenderExpr(SourceExpr(i, o)))
  }

  /** The right-hand side of `float4 m=`; fails on unreadable operands and
      unknown operations. */
  method MacText(i: Instr, x: string, y: string, z: string) returns (ok: bool, m: string)
    requires IsSource(i, i.x, x) && IsSource(i, i.y, y) && IsSource(i, i.z, z)
    ensures ok <==> MacOk(i)
    ensures ok ==> m == RenderExpr(MacExpr(i))
  {
    m := "0";
    SuffixLetters();
    ghost var X, Y, Z := SourceExpr(i, i.x), SourceExpr(i, i.y), SourceExpr(i, i.z);
    if i.mac != 0 {
      if x == "" { return false, m; }
      if (i.mac == 2 || i.mac == 4 || i.mac == 5 || i.mac == 7) && y == "" { return false, m; }
      if (i.mac == 3 || i.mac == 4) && z == "" { return false, m; }
      match i.mac {
        case 1 => m := x;
        case 2 => m := x + "*" + y;
        case 3 => m := x + "+" + z;
        case 4 => m := x + "*" + y + "+" + z;
          assert RenderExpr(Mul(X, Y)) == x + "*" + y;
        case 5 => m := "dot(" + (x + "." + "xyz") + "," + (y + "." + "xyz") + ")" + "." + "xxxx";
          assert RenderExpr(Swizzle(X, XYZ)) == x + "." + "xyz" && RenderExpr(Swizzle(Y, XYZ)) == y + "." + "xyz";
          assert RenderExpr(Swizzle(Dot(Swizzle(X, XYZ), Swizzle(Y, XYZ)), XXXX)) == m;
        case 7 => m := "dot(" + x + "," + y + ")" + "." + "xxxx";
          assert RenderExpr(Dot(X, Y)) == "dot(" + x + "," + y + ")";
        case _ => return false, m;
      }
    }
    return true, m;
  }

  /** The right-hand side of `l=`. */
  method IluText(i: Instr, z: string) returns (ok: bool, l: string)
    requires IsSource(i, i.z, z)
    ensures ok <==> IluOk(i)
    ensures ok ==> l == RenderExpr(IluExpr(i))
  {
    l := "0";
    SuffixLetters();
    if i.ilu != 0 {
      if z == "" { return false, l; }
      var scalar := "(" + z + ")" + "." + "x";
      ghost var Z := SourceExpr(i, i.z);
      ghost var S := Swizzle(Paren(Z), [0]);
      assert RenderExpr(Paren(Z)) == "(" + z + ")";
      assert RenderExpr(S) == scalar;
      match i.ilu {
        case 1 => l := z;
        case 2 => l := "(" + ("1.0/" + scalar) + ")" + "." + "xxxx";
          assert RenderExpr(Paren(Rcp(S))) == "(" + ("1.0/" + scalar) + ")";
        case 3 => l := "((" + scalar + "<0?-1.0:1.0)*clamp(abs(1.0/" + scalar + "),5.42101e-20,1.884467e19))" + "." + "xxxx";
        case 4 => l := "rsqrt(abs(" + scalar + "))" + "." + "xxxx";
        case _ => return false, l;
      }
    }
    return true, l;
  }

  lemma RenderWrite(dest: Dest, bits: nat, fromL: bool)
    ensures Render(WriteStmts(dest, bits, fromL)) == WriteText(RenderDest(dest), bits, if fromL then "l" else "m")
  {
    if bits != 0 {
      RenderOne(Assign(dest, MaskComps(bits), fromL));
    }
  }

  function WritesText(i: Instr): string {
    WriteText(RenderDest(ToTemp(i.temp)), MacBits(i), "m")
    + WriteText(RenderDest(IluDest(i)), i.iluMask, "l")
    + WriteText(RenderDest(OutDest(i.out)), i.outMask, if i.outFromIlu then "l" else "m")
  }

  lemma RenderWrites(i: Instr)
    ensures Render(WriteStmts(ToTemp(i.temp), MacBits(i), false) + WriteStmts(IluDest(i), i.iluMask, true)
                   + WriteStmts(OutDest(i.out), i.outMask, i.outFromIlu)) == WritesText(i)
  {
    var mac := WriteStmts(ToTemp(i.temp), MacBits(i), false);
    var ilu := WriteStmts(IluDest(i), i.iluMask, true);
    RenderAppend(mac + ilu, WriteStmts(OutDest(i.out), i.outMask, i.outFromIlu));
    RenderAppend(mac, ilu);
    RenderWrite(ToTemp(i.temp), MacBits(i), false);
    RenderWrite(IluDest(i), i.iluMask, true);
    RenderWrite(OutDest(i.out), i.outMask, i.outFromIlu);
  }

  lemma RenderBlock(first: Stmt, middle: seq<Stmt>, last: Stmt)
    ensures Render([first] + middle + [last]) == RenderStmt(first) + Render(middle) + RenderStmt(last)
  {
    RenderAppend([first] + middle, [last]);
    RenderAppend([first], middle);
    RenderOne(first);
    RenderOne(last);
  }

  lemma RenderInstr(i: Instr)
    ensures Render(InstrStmts(i)) == RenderStmt(Declare(MacExpr(i), IluExpr(i))) + WritesText(i) + RenderStmt(Close)
  {
    var writes := WriteStmts(ToTemp(i.temp), MacBits(i), false) + WriteStmts(IluDest(i), i.iluMask, true)
                  + WriteStmts(OutDest(i.out), i.outMask, i.outFromIlu);
    assert InstrStmts(i) == [Declare(MacExpr(i), IluExpr(i))] + writes + [Close];
    RenderBlock(Declare(MacExpr(i), IluExpr(i)), writes, Close);
    RenderWrites(i);
  }

  predicate WritesOk(i: Instr) {
    && (i.macMask != 0 ==> i.mac != 0 && i.temp < TEMP_COUNT)
    && (i.iluMask != 0 ==> i.ilu != 0 && i.temp < TEMP_COUNT)
    && (i.outMask != 0 ==> i.toOutput && i.out in {0, 3, 5, 9, 10})
  }

  lemma RegroupWrites(s: string, w1: string, w2: string, w3: string)
    ensures ((s + w1) + w2) + w3 == s + ((w1 + w2) + w3)
  {
  }

  lemma R12()
    ensures RenderDest(OutDest(0)) == "r12"
  {
    assert Digits(12) == Digits(1) + ['2'];
  }

  /** The write to an output; position is r12. */
  method EmitOutput(s: string, i: Instr) returns (ok: bool, s': string)
    ensures ok <==> i.outMask != 0 ==> i.toOutput && i.out in {0, 3, 5, 9, 10}
    ensures ok ==> s' == s + WriteText(RenderDest(OutDest(i.out)), i.outMask, if i.outFromIlu then "l" else "m")
  {
    if i.outMask == 0 { return true, s; }
    if !i.toOutput { return false, s; }
    var dest :=
      if i.out == 0 then "r12"
      else if i.out == 3 || i.out == 5 || i.out == 9 || i.out == 10 then "o" + Digits(i.out) else "";
    R12();
    ok, s' := Write(s, dest, i.outMask, if i.outFromIlu then "l" else "m");
  }

  /** The masked writes of one instruction. */
  method EmitWrites(s: string, i: Instr) returns (ok: bool, s': string)
    ensures ok <==> WritesOk(i)
    ensures ok ==> s' == s + WritesText(i)
  {
    s' := s;
    if (i.mac == 0 && i.macMask != 0) || (i.ilu == 0 && i.iluMask != 0) { return false, s'; }
    if i.temp > 12 && (i.macMask != 0 || i.iluMask != 0) { return false, s'; }
    ok, s' := Write(s', "r" + Digits(i.temp), if i.ilu != 0 && i.temp == 1 then 0 else i.macMask, "m");
    if !ok { return; }
    ok, s' := Write(s', "r" + Digits(if i.mac != 0 then 1 else i.temp), i.iluMask, "l");
    if !ok { return; }
    RegroupWrites(s, WriteText(RenderDest(ToTemp(i.temp)), MacBits(i), "m"),
                  WriteText(RenderDest(IluDest(i)), i.iluMask, "l"),
                  WriteText(RenderDest(OutDest(i.out)), i.outMask, if i.outFromIlu then "l" else "m"));
    ok, s' := EmitOutput(s', i);
  }

  /** One turn of the translator loop. */
  method EmitInstr(s: string, i: Instr, last: bool) returns (ok: bool, s': string)
    ensures ok <==> Supported(i) && i.final == last
    ensures ok ==> s' == s + Render(InstrStmts(i))
  {
    s' := s;
    if i.relative || i.final != last { return false, s'; }
    var x := Source(i, i.x);
    var y := Source(i, i.y);
    var z := Source(i, i.z);
    var good, m := MacText(i, x, y, z);
    if !good { return false, s'; }
    var l;
    good, l := IluText(i, z);
    if !good { return false, s'; }
    var opening := "{float4 m=" + m + ", l=" + l + ";\n";
    good, s' := EmitWrites(s' + opening, i);
    if !good { return false, s'; }
    s' := s' + "}\n";
    RenderInstr(i);
    RegroupWrites(s, opening, WritesText(i), RenderStmt(Close));
    return true, s';
  }

  /** The text of the first k instructions. */
  function TextUpTo(tokens: seq<Token>, k: nat): string
    requires k <= |tokens|
  {
    if k == 0 then "" else TextUpTo(tokens, k - 1) + Render(InstrStmts(Decode(tokens[k - 1])))
  }

  lemma TranslateNext(tokens: seq<Token>, k: nat)
    requires 0 < k <= |tokens|
    ensures Translate(tokens[..k]) == Translate(tokens[..k - 1]) + InstrStmts(Decode(tokens[k - 1]))
  {
    var front := tokens[..k];
    assert front[..|front| - 1] == tokens[..k - 1] && front[|front| - 1] == tokens[k - 1];
  }

  lemma RenderNext(tokens: seq<Token>, k: nat, body: seq<Stmt>, block: seq<Stmt>)
    requires 0 < k <= |tokens| && body == Translate(tokens[..k - 1]) && block == InstrStmts(Decode(tokens[k - 1]))
    ensures Render(Translate(tokens[..k])) == Render(body) + Render(block)
  {
    TranslateNext(tokens, k);
    RenderAppend(body, block);
  }

  lemma {:induction false} TextUpToRenders(tokens: seq<Token>, k: nat)
    requires k <= |tokens|
    ensures TextUpTo(tokens, k) == Render(Translate(tokens[..k]))
  {
    if k != 0 {
      TextUpToRenders(tokens, k - 1);
      RenderNext(tokens, k, Translate(tokens[..k - 1]), InstrStmts(Decode(tokens[k - 1])));
    }
  }

  /** The first k instructions are supported, the last of the program and no
      other being final. */
  predicate SupportedUpTo(tokens: seq<Token>, k: nat)
    requires k <= |tokens|
  {
    k == 0 || (SupportedUpTo(tokens, k - 1) && SupportedAt(tokens, k - 1))
  }

  lemma {:induction false} SupportedUpToAll(tokens: seq<Token>, k: nat)
    requires k <= |tokens|
    ensures SupportedUpTo(tokens, k) <==> forall j :: 0 <= j < k ==> SupportedAt(tokens, j)
  {
    if k != 0 {
      SupportedUpToAll(tokens, k - 1);
    }
  }

  lemma {:induction false} SupportedUpToMonotone(tokens: seq<Token>, j: nat, k: nat)
    requires j <= k <= |tokens|
    requires SupportedUpTo(tokens, k)
    ensures SupportedUpTo(tokens, j)
  {
    if j < k {
      SupportedUpToMonotone(tokens, j, k - 1);
    }
  }

  /** One turn of the translator loop, inside a whole program. */
  method EmitNext(tokens: seq<Token>, k: nat, opening: string, s: string) returns (ok: bool, s': string)
    requires k < |tokens| && s == opening + TextUpTo(tokens, k)
    ensures ok <==> SupportedAt(tokens, k)
    ensures SupportedUpTo(tokens, k + 1) <==> SupportedUpTo(tokens, k) && ok
    ensures ok ==> s' == opening + TextUpTo(tokens, k + 1)
  {
    ok, s' := EmitInstr(s, Decode(tokens[k]), k + 1 == |tokens|);
    ConcatAssociates(opening, TextUpTo(tokens, k), Render(InstrStmts(Decode(tokens[k]))));
  }

  lemma WholeText(tokens: seq<Token>)
    ensures TextUpTo(tokens, |tokens|) == Render(Translate(tokens))
  {
    TextUpToRenders(tokens, |tokens|);
    assert tokens[..|tokens|] == tokens;
  }

  /** The translator loop. */
  method EmitAll(tokens: seq<Token>, declarations: string) returns (ok: bool, s: string)
    ensures ok <==> SupportedUpTo(tokens, |tokens|)
    ensures ok ==> s == declarations + TextUpTo(tokens, |tokens|)
  {
    s := declarations;
    for i := 0 to |tokens|
      invariant s == declarations + TextUpTo(tokens, i)
      invariant SupportedUpTo(tokens, i)
    {
      ok, s := EmitNext(tokens, i, declarations, s);
      if !ok {
        if SupportedUpTo(tokens, |tokens|) { SupportedUpToMonotone(tokens, i + 1, |tokens|); }
        return;
      }
    }
    ok := true;
  }

  /** Where the inputs, temporaries and outputs are declared. */
  const INPUT_TEXT :=
    "float4 v0=float4(input.position,1), v2=float4(input.normal,1), v9=float4(input.texcoord,0,1);\n"
  const OUTPUT_TEXT := "float4 o3=0,o5=0,o9=0,o10=0;\n"

  /** Where the results are handed on: r12 is the position. */
  const RESULT_TEXT := "output.position=mul(float4(r12.xyz,1),wvp[0])*r12.w;\n"
    + "output.color=o3; output.texcoord=o9.xy; output.reflection_coord=o10.xy; output.program_q=float2(o9.w,o10.w);\n"

  function TempText(r: nat): string { "float4 r" + Digits(r) + "=0;\n" }

  function TempTexts(n: nat): string {
    if n == 0 then "" else TempTexts(n - 1) + TempText(n - 1)
  }

  function Declarations(temps: nat): string { INPUT_TEXT + TempTexts(temps) + OUTPUT_TEXT }

  method DeclareTemps(before: string, temps: nat) returns (s: string)
    ensures s == before + TempTexts(temps)
  {
    s := before;
    assert before + "" == before;
    for i := 0 to temps
      invariant s == before + TempTexts(i)
    {
      ConcatAssociates(before, TempTexts(i), TempText(i));
      s := s + TempText(i);
    }
  }

  /** The translated program and the results behind what there is. */
  method EmitBody(tokens: seq<Token>, declarations: string) returns (ok: bool, body: string)
    requires 0 < |tokens| <= 136
    ensures ok <==> Accepted(tokens)
    ensures body == if ok then declarations + Render(Translate(tokens)) + RESULT_TEXT else ""
  {
    ok, body := EmitAll(tokens, declarations);
    SupportedUpToAll(tokens, |tokens|);
    WholeText(tokens);
    body := if ok then body + RESULT_TEXT else "";
  }

  /** The translator: a body exactly for the accepted programs, and then the
      text of their translation between the declarations and the results. */
  method VertexProgramSource(tokens: seq<Token>) returns (ok: bool, body: string)
    ensures ok <==> Accepted(tokens)
    ensures body == if ok then Declarations(TEMP_COUNT) + Render(Translate(tokens)) + RESULT_TEXT else ""
  {
    if |tokens| == 0 || |tokens| > 136 { return false, ""; }
    var declarations := DeclareTemps(INPUT_TEXT, TEMP_COUNT);
    ok, body := EmitBody(tokens, declarations + OUTPUT_TEXT);
  }
}
