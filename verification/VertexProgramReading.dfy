/**
 The text of a translation can be read in one way only: programs with the same
 text have the same translation, and with it the same meaning.
 */
module VertexProgramReading {
  import opened VertexProgram
  import opened VertexProgramText

  // ------------------------------------------------- one text behind another

  lemma Cancel(p: string, s: string, q: string, t: string)
    requires p + s == q + t && |p| == |q|
    ensures p == q && s == t
  {
    assert (p + s)[..|p|] == p && (q + t)[..|q|] == q;
    assert (p + s)[|p|..] == s && (q + t)[|q|..] == t;
  }

  const DIGITS := "0123456789"
  const LETTERS := "xyzw"

  predicate Over(alphabet: string, p: string) { forall k :: 0 <= k < |p| ==> p[k] in alphabet }

  predicate Ends(alphabet: string, s: string) { s != "" && s[0] !in alphabet }

  lemma RunGoesOn(alphabet: string, p: string, s: string, q: string, t: string)
    requires Over(alphabet, q) && p + s == q + t && |p| < |q| && s != ""
    ensures s[0] in alphabet
  {
    assert (p + s)[|p|] == s[0] && (q + t)[|p|] == q[|p|];
  }

  /** A run of characters ends where another kind of character comes. */
  lemma SameRun(alphabet: string, p: string, s: string, q: string, t: string)
    requires Over(alphabet, p) && Over(alphabet, q) && Ends(alphabet, s) && Ends(alphabet, t)
    requires p + s == q + t
    ensures p == q && s == t
  {
    if |p| < |q| { RunGoesOn(alphabet, p, s, q, t); }
    if |q| < |p| { RunGoesOn(alphabet, q, t, p, s); }
    Cancel(p, s, q, t);
  }

  lemma {:induction false} DigitsOver(n: nat)
    ensures Over(DIGITS, Digits(n)) && Digits(n) != ""
    ensures n >= 10 ==> |Digits(n)| > 1
  {
    var last := ('0' as int + n % 10) as char;
    assert last == DIGITS[n % 10];
    if n >= 10 { DigitsOver(n / 10); }
  }

  lemma {:induction false} DigitsInjective(m: nat, n: nat)
    requires Digits(m) == Digits(n)
    ensures m == n
  {
    DigitsOver(m);
    DigitsOver(n);
    if m >= 10 {
      Cancel(Digits(m / 10), [('0' as int + m % 10) as char], Digits(n / 10), [('0' as int + n % 10) as char]);
      DigitsInjective(m / 10, n / 10);
    }
  }

  lemma SameNumber(m: nat, s: string, n: nat, t: string)
    requires Digits(m) + s == Digits(n) + t && Ends(DIGITS, s) && Ends(DIGITS, t)
    ensures m == n && s == t
  {
    DigitsOver(m);
    DigitsOver(n);
    SameRun(DIGITS, Digits(m), s, Digits(n), t);
    DigitsInjective(m, n);
  }

  predicate Components(comps: seq<nat>) { forall k :: 0 <= k < |comps| ==> comps[k] < 4 }

  lemma LettersInjective(a: seq<nat>, b: seq<nat>)
    requires Components(a) && Components(b) && Letters(a) == Letters(b)
    ensures a == b
  {
    assert |Letters(a)| == |Letters(b)|;
    forall k | 0 <= k < |a| ensures a[k] == b[k] {
      assert LETTERS[a[k]] == Letters(a)[k] == Letters(b)[k] == LETTERS[b[k]];
    }
  }

  lemma SameLetters(a: seq<nat>, s: string, b: seq<nat>, t: string)
    requires Components(a) && Components(b) && Letters(a) + s == Letters(b) + t
    requires |a| == |b| || (Ends(LETTERS, s) && Ends(LETTERS, t))
    ensures a == b && s == t
  {
    if |a| == |b| {
      Cancel(Letters(a), s, Letters(b), t);
    } else {
      SameRun(LETTERS, Letters(a), s, Letters(b), t);
    }
    LettersInjective(a, b);
  }

  // ------------------------------------------------------------ one operand

  predicate IsPlain(e: Expr) {
    e.Swizzle? && (e.base.Temp? || e.base.Attr? || e.base.Constant?) && |e.comps| == 4 && Components(e.comps)
  }

  predicate IsOperand(e: Expr) { if e.Neg? then IsPlain(e.e) else IsPlain(e) }

  /** The text of a variable, and what comes behind it. */
  function BaseText(b: Expr, rest: string): string {
    match b
    case Temp(r) => "r" + (Digits(r) + rest)
    case Attr(v) => "v" + (Digits(v) + rest)
    case Constant(k) => "vc[" + (Digits(k) + ("]" + rest))
    case _ => rest
  }

  function PlainText(e: Expr, rest: string): string
    requires IsPlain(e)
  {
    BaseText(e.base, "." + (Letters(e.comps) + rest))
  }

  function OperandText(e: Expr, rest: string): string
    requires IsOperand(e)
  {
    if e.Neg? then "(-" + PlainText(e.e, ")" + rest) else PlainText(e, rest)
  }

  lemma BaseReads(b: Expr, rest: string)
    ensures b.Temp? || b.Attr? || b.Constant? ==> RenderExpr(b) + rest == BaseText(b, rest)
  {
    match b
    case Temp(r) => ConcatAssociates("r", Digits(r), rest);
    case Attr(v) => ConcatAssociates("v", Digits(v), rest);
    case Constant(k) =>
      ConcatAssociates("vc[" + Digits(k), "]", rest);
      ConcatAssociates("vc[", Digits(k), "]" + rest);
    case _ =>
  }

  lemma PlainReads(e: Expr, rest: string)
    requires IsPlain(e)
    ensures RenderExpr(e) + rest == PlainText(e, rest)
  {
    var base, letters := RenderExpr(e.base), Letters(e.comps);
    ConcatAssociates(base + ".", letters, rest);
    ConcatAssociates(base, ".", letters + rest);
    BaseReads(e.base, "." + (letters + rest));
  }

  lemma OperandReads(e: Expr, rest: string)
    requires IsOperand(e)
    ensures RenderExpr(e) + rest == OperandText(e, rest)
  {
    if e.Neg? {
      ConcatAssociates("(-" + RenderExpr(e.e), ")", rest);
      ConcatAssociates("(-", RenderExpr(e.e), ")" + rest);
      PlainReads(e.e, ")" + rest);
    } else {
      PlainReads(e, rest);
    }
  }

  /** What the first two characters tell. */
  lemma BaseBegins(b: Expr, rest: string)
    requires b.Temp? || b.Attr? || b.Constant?
    ensures var text := BaseText(b, rest);
      && |text| > 1 && (b.Temp? <==> text[0] == 'r') && (!b.Temp? <==> text[0] == 'v')
      && (b.Constant? <==> text[1] == 'c') && (!b.Constant? <==> text[1] in DIGITS)
  {
    match b
    case Temp(r) => DigitsOver(r);
    case Attr(v) => DigitsOver(v);
    case Constant(k) =>
  }

  lemma SameBase(a: Expr, s: string, b: Expr, t: string)
    requires (a.Temp? || a.Attr? || a.Constant?) && (b.Temp? || b.Attr? || b.Constant?)
    requires BaseText(a, s) == BaseText(b, t) && Ends(DIGITS, s) && Ends(DIGITS, t)
    ensures a == b && s == t
  {
    BaseBegins(a, s);
    BaseBegins(b, t);
    match a
    case Temp(r) =>
      Cancel("r", Digits(r) + s, "r", Digits(b.r) + t);
      SameNumber(r, s, b.r, t);
    case Attr(v) =>
      Cancel("v", Digits(v) + s, "v", Digits(b.v) + t);
      SameNumber(v, s, b.v, t);
    case Constant(k) =>
      Cancel("vc[", Digits(k) + ("]" + s), "vc[", Digits(b.k) + ("]" + t));
      SameNumber(k, "]" + s, b.k, "]" + t);
      Cancel("]", s, "]", t);
  }

  lemma SamePlain(a: Expr, s: string, b: Expr, t: string)
    requires IsPlain(a) && IsPlain(b) && PlainText(a, s) == PlainText(b, t)
    ensures a == b && s == t
  {
    var s', t' := Letters(a.comps) + s, Letters(b.comps) + t;
    assert ("." + s')[0] == '.' && ("." + t')[0] == '.';
    SameBase(a.base, "." + s', b.base, "." + t');
    Cancel(".", s', ".", t');
    SameLetters(a.comps, s, b.comps, t);
  }

  lemma OperandBegins(e: Expr, rest: string)
    requires IsOperand(e)
    ensures var text := OperandText(e, rest);
      && |text| > 1 && (if e.Neg? then text[0] == '(' && text[1] == '-' else text[0] in "rv")
      && (text[0] == 'r' ==> text[1] in DIGITS)
  {
    if !e.Neg? { BaseBegins(e.base, "." + (Letters(e.comps) + rest)); }
  }

  lemma SameOperand(a: Expr, s: string, b: Expr, t: string)
    requires IsOperand(a) && IsOperand(b) && OperandText(a, s) == OperandText(b, t)
    ensures a == b && s == t
  {
    OperandBegins(a, s);
    OperandBegins(b, t);
    if a.Neg? {
      Cancel("(-", PlainText(a.e, ")" + s), "(-", PlainText(b.e, ")" + t));
      SamePlain(a.e, ")" + s, b.e, ")" + t);
      Cancel(")", s, ")", t);
    } else {
      SamePlain(a, s, b, t);
    }
  }

  // ------------------------------------------------------ the multiply unit

  /** What is emitted for the multiply unit. */
  datatype Mac = NoMac | Move(x: Expr) | Product(x: Expr, y: Expr) | Sum(x: Expr, z: Expr)
    | ProductSum(x: Expr, y: Expr, z: Expr) | Dot3(x: Expr, y: Expr) | Dot4(x: Expr, y: Expr)

  predicate MacFits(m: Mac) {
    && (!m.NoMac? ==> IsOperand(m.x))
    && (m.Product? || m.ProductSum? || m.Dot3? || m.Dot4? ==> IsOperand(m.y))
    && (m.Sum? || m.ProductSum? ==> IsOperand(m.z))
  }

  function MacForm(m: Mac): Expr {
    match m
    case NoMac => Zero
    case Move(x) => x
    case Product(x, y) => Mul(x, y)
    case Sum(x, z) => Add(x, z)
    case ProductSum(x, y, z) => Add(Mul(x, y), z)
    case Dot3(x, y) => Swizzle(Dot(Swizzle(x, XYZ), Swizzle(y, XYZ)), XXXX)
    case Dot4(x, y) => Swizzle(Dot(x, y), XXXX)
  }

  function MacLine(m: Mac, rest: string): string
    requires MacFits(m)
  {
    match m
    case NoMac => "0" + rest
    case Dot3(x, y) => "dot(" + OperandText(x, ".xyz," + OperandText(y, ".xyz).xxxx" + rest))
    case Dot4(x, y) => "dot(" + OperandText(x, "," + OperandText(y, ").xxxx" + rest))
    case _ => OperandText(m.x, BehindX(m, rest))
  }

  /** What comes behind the first operand. */
  function BehindX(m: Mac, rest: string): string
    requires MacFits(m)
  {
    match m
    case Product(_, y) => "*" + OperandText(y, rest)
    case Sum(_, z) => "+" + OperandText(z, rest)
    case ProductSum(_, y, z) => "*" + OperandText(y, "+" + OperandText(z, rest))
    case _ => rest
  }

  lemma MacReads(m: Mac, rest: string)
    requires MacFits(m)
    ensures RenderExpr(MacForm(m)) + rest == MacLine(m, rest)
  {
    match m
    case NoMac =>
    case Move(x) => OperandReads(x, rest);
    case Product(x, y) => TwoRead(x, "*", y, rest);
    case Sum(x, z) => TwoRead(x, "+", z, rest);
    case ProductSum(x, y, z) =>
      ProductSumReads(x, y, z, rest);
    case Dot3(x, y) => Dot3Reads(x, y, rest);
    case Dot4(x, y) => Dot4Reads(x, y, rest);
  }

  lemma TwoRead(x: Expr, between: string, y: Expr, rest: string)
    requires IsOperand(x) && IsOperand(y)
    ensures (RenderExpr(x) + between + RenderExpr(y)) + rest == OperandText(x, between + OperandText(y, rest))
  {
    ConcatAssociates(RenderExpr(x) + between, RenderExpr(y), rest);
    ConcatAssociates(RenderExpr(x), between, RenderExpr(y) + rest);
    OperandReads(y, rest);
    OperandReads(x, between + OperandText(y, rest));
  }

  lemma ProductSumReads(x: Expr, y: Expr, z: Expr, rest: string)
    requires IsOperand(x) && IsOperand(y) && IsOperand(z)
    ensures RenderExpr(Add(Mul(x, y), z)) + rest == OperandText(x, "*" + OperandText(y, "+" + OperandText(z, rest)))
  {
    var product := RenderExpr(x) + "*" + RenderExpr(y);
    assert RenderExpr(Mul(x, y)) == product;
    ConcatAssociates(product + "+", RenderExpr(z), rest);
    ConcatAssociates(product, "+", RenderExpr(z) + rest);
    OperandReads(z, rest);
    TwoRead(x, "*", y, "+" + OperandText(z, rest));
  }

  /** Something in a pair of parentheses whose first component is taken. */
  lemma FirstOf(p: string, x: string, q: string, rest: string)
    ensures (p + x + q + "." + "xxxx") + rest == p + (x + ((q + ".xxxx") + rest))
  {
    ConcatAssociates(p + x + q, ".", "xxxx");
    ConcatAssociates(p + x, q, ".xxxx");
    ConcatAssociates(p + x, q + ".xxxx", rest);
    ConcatAssociates(p, x, (q + ".xxxx") + rest);
  }

  lemma DotReads(x: Expr, y: Expr, rest: string)
    ensures RenderExpr(Swizzle(Dot(x, y), XXXX)) + rest == "dot(" + ((RenderExpr(x) + "," + RenderExpr(y)) + (").xxxx" + rest))
  {
    var X, Y := RenderExpr(x), RenderExpr(y);
    ConcatAssociates("dot(", X, ",");
    ConcatAssociates("dot(", X + ",", Y);
    FirstOf("dot(", X + "," + Y, ")", rest);
    assert Letters(XXXX) == "xxxx" && ")" + ".xxxx" == ").xxxx";
  }

  lemma Dot4Reads(x: Expr, y: Expr, rest: string)
    requires IsOperand(x) && IsOperand(y)
    ensures RenderExpr(MacForm(Dot4(x, y))) + rest == MacLine(Dot4(x, y), rest)
  {
    DotReads(x, y, rest);
    TwoRead(x, ",", y, ").xxxx" + rest);
  }

  lemma Dot3Reads(x: Expr, y: Expr, rest: string)
    requires IsOperand(x) && IsOperand(y)
    ensures RenderExpr(MacForm(Dot3(x, y))) + rest == MacLine(Dot3(x, y), rest)
  {
    DotReads(Swizzle(x, XYZ), Swizzle(y, XYZ), rest);
    FirstThree(x);
    FirstThree(y);
    var X, Y, end := RenderExpr(x), RenderExpr(y), ").xxxx" + rest;
    ConcatAssociates(X, ".xyz", ",");
    ConcatAssociates(X + ".xyz,", Y, ".xyz");
    ConcatAssociates(X + ".xyz," + Y, ".xyz", end);
    ConcatAssociates(".xyz", ").xxxx", rest);
    assert ".xyz" + "," == ".xyz," && ".xyz" + ").xxxx" == ".xyz).xxxx";
    TwoRead(x, ".xyz,", y, ".xyz).xxxx" + rest);
  }

  lemma FirstThree(x: Expr)
    ensures RenderExpr(Swizzle(x, XYZ)) == RenderExpr(x) + ".xyz"
  {
    assert Letters(XYZ) == "xyz" && "." + "xyz" == ".xyz";
    ConcatAssociates(RenderExpr(x), ".", "xyz");
  }

  /** The kind of line shows in its first character, or in the one behind the first
      operand. */
  lemma MacBegins(m: Mac, rest: string)
    requires MacFits(m) && rest != "" && rest[0] == ','
    ensures var text := MacLine(m, rest);
      text != "" && (m.NoMac? <==> text[0] == '0') && (m.Dot3? || m.Dot4? <==> text[0] == 'd')
    ensures m.Move? ==> BehindX(m, rest)[0] == ','
    ensures m.Sum? ==> BehindX(m, rest)[0] == '+'
    ensures m.Product? || m.ProductSum? ==> BehindX(m, rest)[0] == '*'
  {
    if !m.NoMac? && !m.Dot3? && !m.Dot4? { OperandBegins(m.x, BehindX(m, rest)); }
  }

  lemma SameDots(a: Mac, s: string, b: Mac, t: string)
    requires MacFits(a) && MacFits(b) && MacLine(a, s) == MacLine(b, t)
    requires (a.Dot3? || a.Dot4?) && (b.Dot3? || b.Dot4?)
    ensures a == b && s == t
  {
    var behindA := if a.Dot3? then ".xyz," + OperandText(a.y, ".xyz).xxxx" + s) else "," + OperandText(a.y, ").xxxx" + s);
    var behindB := if b.Dot3? then ".xyz," + OperandText(b.y, ".xyz).xxxx" + t) else "," + OperandText(b.y, ").xxxx" + t);
    Cancel("dot(", OperandText(a.x, behindA), "dot(", OperandText(b.x, behindB));
    SameOperand(a.x, behindA, b.x, behindB);
    assert behindA[0] == (if a.Dot3? then '.' else ',') && behindB[0] == if b.Dot3? then '.' else ',';
    if a.Dot3? {
      Cancel(".xyz,", OperandText(a.y, ".xyz).xxxx" + s), ".xyz,", OperandText(b.y, ".xyz).xxxx" + t));
      SameOperand(a.y, ".xyz).xxxx" + s, b.y, ".xyz).xxxx" + t);
      Cancel(".xyz).xxxx", s, ".xyz).xxxx", t);
    } else {
      Cancel(",", OperandText(a.y, ").xxxx" + s), ",", OperandText(b.y, ").xxxx" + t));
      SameOperand(a.y, ").xxxx" + s, b.y, ").xxxx" + t);
      Cancel(").xxxx", s, ").xxxx", t);
    }
  }

  /** Products: what comes behind the second factor tells them apart. */
  lemma SameProducts(a: Mac, s: string, b: Mac, t: string)
    requires MacFits(a) && MacFits(b) && (a.Product? || a.ProductSum?) && (b.Product? || b.ProductSum?)
    requires BehindX(a, s) == BehindX(b, t) && s != "" && t != "" && s[0] == t[0] == ','
    ensures s == t && a.y == b.y && (a.Product? <==> b.Product?) && (a.ProductSum? ==> a.z == b.z)
  {
    var behindA := if a.Product? then s else "+" + OperandText(a.z, s);
    var behindB := if b.Product? then t else "+" + OperandText(b.z, t);
    Cancel("*", OperandText(a.y, behindA), "*", OperandText(b.y, behindB));
    SameOperand(a.y, behindA, b.y, behindB);
    assert behindA[0] == (if a.Product? then ',' else '+') && behindB[0] == if b.Product? then ',' else '+';
    if a.ProductSum? {
      Cancel("+", OperandText(a.z, s), "+", OperandText(b.z, t));
      SameOperand(a.z, s, b.z, t);
    }
  }

  lemma SameMac(a: Mac, s: string, b: Mac, t: string)
    requires MacFits(a) && MacFits(b) && MacLine(a, s) == MacLine(b, t)
    requires s != "" && t != "" && s[0] == t[0] == ','
    ensures a == b && s == t
  {
    MacBegins(a, s);
    MacBegins(b, t);
    if a.NoMac? {
      Cancel("0", s, "0", t);
    } else if a.Dot3? || a.Dot4? {
      SameDots(a, s, b, t);
    } else {
      SameOperand(a.x, BehindX(a, s), b.x, BehindX(b, t));
      if a.Sum? {
        Cancel("+", OperandText(a.z, s), "+", OperandText(b.z, t));
        SameOperand(a.z, s, b.z, t);
      } else if !a.Move? {
        SameProducts(a, s, b, t);
      }
    }
  }

  // -------------------------------------------------------- the scalar unit

  /** What is emitted for the scalar unit. */
  datatype Ilu = NoIlu | MoveZ(z: Expr) | Reciprocal(z: Expr) | Clamped(z: Expr) | Root(z: Expr)

  predicate IluFits(u: Ilu) { !u.NoIlu? ==> IsOperand(u.z) }

  function IluForm(u: Ilu): Expr {
    match u
    case NoIlu => Zero
    case MoveZ(z) => z
    case Reciprocal(z) => Swizzle(Paren(Rcp(First(z))), XXXX)
    case Clamped(z) => Swizzle(Rcc(First(z)), XXXX)
    case Root(z) => Swizzle(Rsq(First(z)), XXXX)
  }

  const SIGN := "<0?-1.0:1.0)*clamp(abs(1.0/"
  const LIMITS := "),5.42101e-20,1.884467e19))"
  const CLAMPS := ").x" + SIGN + "("
  const CLAMP_END := ").x" + LIMITS + ".xxxx"

  function IluLine(u: Ilu, rest: string): string
    requires IluFits(u)
  {
    match u
    case NoIlu => "0" + rest
    case MoveZ(z) => OperandText(z, rest)
    case Reciprocal(z) => "(1.0/(" + OperandText(z, ").x).xxxx" + rest)
    case Clamped(z) => "(((" + OperandText(z, CLAMPS + OperandText(z, CLAMP_END + rest))
    case Root(z) => "rsqrt(abs((" + OperandText(z, ").x)).xxxx" + rest)
  }

  /** The scalar that the operations take. */
  function First(z: Expr): Expr { Swizzle(Paren(z), [0]) }

  lemma Scalar(z: Expr)
    ensures RenderExpr(First(z)) == "(" + RenderExpr(z) + ").x"
  {
    assert Letters([0]) == "x" && ")" + "." + "x" == ").x";
    ConcatAssociates("(" + RenderExpr(z), ")", ".");
    ConcatAssociates("(" + RenderExpr(z), ")" + ".", "x");
  }

  lemma Around(a: string, b: string, x: string, c: string, d: string)
    ensures a + (b + x + c) + d == (a + b) + x + (c + d)
  {
    ConcatAssociates(a, b + x, c);
    ConcatAssociates(a, b, x);
    ConcatAssociates((a + b) + x, c, d);
  }

  lemma ReciprocalReads(z: Expr, rest: string)
    ensures RenderExpr(IluForm(Reciprocal(z))) + rest == "(1.0/(" + (RenderExpr(z) + (").x).xxxx" + rest))
  {
    var Z := RenderExpr(z);
    Scalar(z);
    ConcatAssociates("1.0/", "(" + Z, ").x");
    ConcatAssociates("1.0/", "(", Z);
    assert "1.0/" + "(" == "1.0/(";
    assert RenderExpr(Rcp(First(z))) == "1.0/(" + Z + ").x";
    Around("(", "1.0/(", Z, ").x", ")");
    assert "(" + "1.0/(" == "(1.0/(" && ").x" + ")" == ").x)" && ").x)" + ".xxxx" == ").x).xxxx" && Letters(XXXX) == "xxxx";
    FirstOf("(1.0/(", Z, ").x)", rest);
  }

  lemma RootReads(z: Expr, rest: string)
    ensures RenderExpr(IluForm(Root(z))) + rest == "rsqrt(abs((" + (RenderExpr(z) + (").x)).xxxx" + rest))
  {
    var Z := RenderExpr(z);
    Scalar(z);
    Around("rsqrt(abs(", "(", Z, ").x", "))");
    assert "rsqrt(abs(" + "(" == "rsqrt(abs((" && ").x" + "))" == ").x))" && ").x))" + ".xxxx" == ").x)).xxxx";
    assert Letters(XXXX) == "xxxx";
    FirstOf("rsqrt(abs((", Z, ").x))", rest);
  }

  lemma TwiceAround(a: string, b: string, x: string, c: string, d: string, e: string)
    ensures a + (b + x + c) + d + (b + x + c) + e == (a + b) + (x + (c + d + b) + x) + (c + e)
  {
    var f := b + x + c;
    Around(a, b, x, c, d);
    ConcatAssociates((a + b) + x + (c + d), b + x, c);
    ConcatAssociates((a + b) + x + (c + d), b, x);
    ConcatAssociates((a + b) + x, c + d, b);
    ConcatAssociates(a + b, x, c + d + b);
    ConcatAssociates(a + b, x + (c + d + b), x);
    ConcatAssociates((a + b) + (x + (c + d + b) + x), c, e);
  }

  lemma ClampedText(z: Expr)
    ensures RenderExpr(Rcc(First(z))) == "(((" + (RenderExpr(z) + CLAMPS + RenderExpr(z)) + (").x" + LIMITS)
  {
    var Z := RenderExpr(z);
    Scalar(z);
    assert RenderExpr(Rcc(First(z))) == "((" + ("(" + Z + ").x") + SIGN + ("(" + Z + ").x") + LIMITS;
    TwiceAround("((", "(", Z, ").x", SIGN, LIMITS);
    assert "((" + "(" == "(((";
  }

  lemma ClampedReads(z: Expr, rest: string)
    ensures RenderExpr(IluForm(Clamped(z))) + rest ==
      "(((" + ((RenderExpr(z) + CLAMPS + RenderExpr(z)) + (CLAMP_END + rest))
  {
    ClampedText(z);
    FirstOf("(((", RenderExpr(z) + CLAMPS + RenderExpr(z), ").x" + LIMITS, rest);
    assert Letters(XXXX) == "xxxx";
  }

  lemma IluReads(u: Ilu, rest: string)
    requires IluFits(u)
    ensures RenderExpr(IluForm(u)) + rest == IluLine(u, rest)
  {
    match u
    case NoIlu =>
    case MoveZ(z) => OperandReads(z, rest);
    case Reciprocal(z) =>
      ReciprocalReads(z, rest);
      OperandReads(z, ").x).xxxx" + rest);
    case Clamped(z) =>
      ClampedReads(z, rest);
      TwoRead(z, CLAMPS, z, CLAMP_END + rest);
    case Root(z) =>
      RootReads(z, rest);
      OperandReads(z, ").x)).xxxx" + rest);
  }

  lemma IluBegins(u: Ilu, rest: string)
    requires IluFits(u) && rest != ""
    ensures var text := IluLine(u, rest);
      && |text| > 1 && (u.NoIlu? <==> text[0] == '0')
      && (u.Reciprocal? <==> text[0] == '(' && text[1] == '1') && (u.Clamped? <==> text[0] == text[1] == '(')
      && (u.Root? <==> text[0] == 'r' && text[1] == 's')
  {
    if u.MoveZ? { OperandBegins(u.z, rest); }
  }

  lemma SameIlu(a: Ilu, s: string, b: Ilu, t: string)
    requires IluFits(a) && IluFits(b) && IluLine(a, s) == IluLine(b, t) && s != "" && t != ""
    ensures a == b && s == t
  {
    IluBegins(a, s);
    IluBegins(b, t);
    match a
    case NoIlu => Cancel("0", s, "0", t);
    case MoveZ(z) => SameOperand(z, s, b.z, t);
    case Reciprocal(z) =>
      Cancel("(1.0/(", OperandText(z, ").x).xxxx" + s), "(1.0/(", OperandText(b.z, ").x).xxxx" + t));
      SameOperand(z, ").x).xxxx" + s, b.z, ").x).xxxx" + t);
      Cancel(").x).xxxx", s, ").x).xxxx", t);
    case Clamped(z) => SameClamped(z, s, b.z, t);
    case Root(z) =>
      Cancel("rsqrt(abs((", OperandText(z, ").x)).xxxx" + s), "rsqrt(abs((", OperandText(b.z, ").x)).xxxx" + t));
      SameOperand(z, ").x)).xxxx" + s, b.z, ").x)).xxxx" + t);
      Cancel(").x)).xxxx", s, ").x)).xxxx", t);
  }

  lemma SameClamped(y: Expr, s: string, z: Expr, t: string)
    requires IsOperand(y) && IsOperand(z) && IluLine(Clamped(y), s) == IluLine(Clamped(z), t)
    ensures y == z && s == t
  {
    var behindY, behindZ := CLAMPS + OperandText(y, CLAMP_END + s), CLAMPS + OperandText(z, CLAMP_END + t);
    Cancel("(((", OperandText(y, behindY), "(((", OperandText(z, behindZ));
    SameOperand(y, behindY, z, behindZ);
    Cancel(CLAMPS, OperandText(y, CLAMP_END + s), CLAMPS, OperandText(z, CLAMP_END + t));
    SameOperand(y, CLAMP_END + s, z, CLAMP_END + t);
    Cancel(CLAMP_END, s, CLAMP_END, t);
  }

  // -------------------------------------------------------------- statements

  /** A statement of a translation. */
  datatype Line = Open(mac: Mac, ilu: Ilu) | Write(dest: Dest, comps: seq<nat>, fromL: bool) | Shut

  predicate LineFits(l: Line) {
    match l
    case Open(mac, ilu) => MacFits(mac) && IluFits(ilu)
    case Write(_, comps, _) => Components(comps)
    case Shut => true
  }

  function LineForm(l: Line): Stmt {
    match l
    case Open(mac, ilu) => Declare(MacForm(mac), IluForm(ilu))
    case Write(dest, comps, fromL) => Assign(dest, comps, fromL)
    case Shut => Close
  }

  function ValueText(comps: seq<nat>, fromL: bool, rest: string): string {
    (if fromL then "l." else "m.") + (Letters(comps) + (";\n" + rest))
  }

  function LineText(l: Line, rest: string): string
    requires LineFits(l)
  {
    match l
    case Open(mac, ilu) => "{float4 m=" + MacLine(mac, ", l=" + IluLine(ilu, ";\n" + rest))
    case Write(dest, comps, fromL) =>
      (if dest.ToTemp? then "r" else "o") +
      (Digits(Number(dest)) + ("." + (Letters(comps) + (" = " + ValueText(comps, fromL, rest)))))
    case Shut => "}\n" + rest
  }

  function Number(d: Dest): nat { if d.ToTemp? then d.r else d.o }

  lemma OpenReads(mac: Mac, ilu: Ilu, rest: string)
    requires MacFits(mac) && IluFits(ilu)
    ensures RenderStmt(Declare(MacForm(mac), IluForm(ilu))) + rest == LineText(Open(mac, ilu), rest)
  {
    var m, l := RenderExpr(MacForm(mac)), RenderExpr(IluForm(ilu));
    ConcatAssociates("{float4 m=" + m + ", l=" + l, ";\n", rest);
    ConcatAssociates("{float4 m=" + m + ", l=", l, ";\n" + rest);
    ConcatAssociates("{float4 m=" + m, ", l=", l + (";\n" + rest));
    ConcatAssociates("{float4 m=", m, ", l=" + (l + (";\n" + rest)));
    IluReads(ilu, ";\n" + rest);
    MacReads(mac, ", l=" + IluLine(ilu, ";\n" + rest));
  }

  lemma WriteReads(dest: Dest, comps: seq<nat>, fromL: bool, rest: string)
    requires Components(comps)
    ensures RenderStmt(Assign(dest, comps, fromL)) + rest == LineText(Write(dest, comps, fromL), rest)
  {
    var d, c, v := RenderDest(dest), Letters(comps), if fromL then "l" else "m";
    var front := d + "." + c + " = ";
    ConcatAssociates(front + v + "." + c, ";\n", rest);
    ConcatAssociates(front + v + ".", c, ";\n" + rest);
    ConcatAssociates(front, v, ".");
    ConcatAssociates(front, v + ".", c + (";\n" + rest));
    var value := ValueText(comps, fromL, rest);
    assert value == (v + ".") + (c + (";\n" + rest));
    ConcatAssociates(d + "." + c, " = ", value);
    ConcatAssociates(d + ".", c, " = " + value);
    ConcatAssociates(d, ".", c + (" = " + value));
    ConcatAssociates(if dest.ToTemp? then "r" else "o", Digits(Number(dest)), "." + (c + (" = " + value)));
  }

  lemma LineReads(l: Line, rest: string)
    requires LineFits(l)
    ensures RenderStmt(LineForm(l)) + rest == LineText(l, rest)
  {
    match l
    case Open(mac, ilu) => OpenReads(mac, ilu, rest);
    case Write(dest, comps, fromL) => WriteReads(dest, comps, fromL, rest);
    case Shut =>
  }

  lemma SameOpen(a: Line, s: string, b: Line, t: string)
    requires LineFits(a) && LineFits(b) && a.Open? && b.Open? && LineText(a, s) == LineText(b, t)
    ensures a == b && s == t
  {
    var behindA, behindB := IluLine(a.ilu, ";\n" + s), IluLine(b.ilu, ";\n" + t);
    Cancel("{float4 m=", MacLine(a.mac, ", l=" + behindA), "{float4 m=", MacLine(b.mac, ", l=" + behindB));
    SameMac(a.mac, ", l=" + behindA, b.mac, ", l=" + behindB);
    Cancel(", l=", behindA, ", l=", behindB);
    SameIlu(a.ilu, ";\n" + s, b.ilu, ";\n" + t);
    Cancel(";\n", s, ";\n", t);
  }

  lemma SameValue(comps: seq<nat>, fromL: bool, s: string, comps': seq<nat>, fromL': bool, t: string)
    requires comps == comps' && ValueText(comps, fromL, s) == ValueText(comps', fromL', t)
    ensures fromL == fromL' && s == t
  {
    Cancel(if fromL then "l." else "m.", Letters(comps) + (";\n" + s), if fromL' then "l." else "m.", Letters(comps) + (";\n" + t));
    assert (if fromL then "l." else "m.")[0] == if fromL' then 'l' else 'm';
    Cancel(Letters(comps), ";\n" + s, Letters(comps), ";\n" + t);
    Cancel(";\n", s, ";\n", t);
  }

  lemma SameWrite(a: Line, s: string, b: Line, t: string)
    requires LineFits(a) && LineFits(b) && a.Write? && b.Write? && LineText(a, s) == LineText(b, t)
    ensures a == b && s == t
  {
    var valueA, valueB := " = " + ValueText(a.comps, a.fromL, s), " = " + ValueText(b.comps, b.fromL, t);
    var behindA, behindB := "." + (Letters(a.comps) + valueA), "." + (Letters(b.comps) + valueB);
    var bankA, bankB := if a.dest.ToTemp? then "r" else "o", if b.dest.ToTemp? then "r" else "o";
    Cancel(bankA, Digits(Number(a.dest)) + behindA, bankB, Digits(Number(b.dest)) + behindB);
    assert bankA[0] == bankB[0];
    SameNumber(Number(a.dest), behindA, Number(b.dest), behindB);
    Cancel(".", Letters(a.comps) + valueA, ".", Letters(b.comps) + valueB);
    SameLetters(a.comps, valueA, b.comps, valueB);
    Cancel(" = ", ValueText(a.comps, a.fromL, s), " = ", ValueText(b.comps, b.fromL, t));
    SameValue(a.comps, a.fromL, s, b.comps, b.fromL, t);
  }

  lemma LineBegins(l: Line, rest: string)
    requires LineFits(l)
    ensures var text := LineText(l, rest);
      text != "" && text[0] == if l.Open? then '{' else if l.Shut? then '}' else if l.dest.ToTemp? then 'r' else 'o'
  {
  }

  lemma SameLine(a: Line, s: string, b: Line, t: string)
    requires LineFits(a) && LineFits(b) && LineText(a, s) == LineText(b, t)
    ensures a == b && s == t
  {
    LineBegins(a, s);
    LineBegins(b, t);
    match a
    case Open(_, _) => SameOpen(a, s, b, t);
    case Write(_, _, _) => SameWrite(a, s, b, t);
    case Shut => Cancel("}\n", s, "}\n", t);
  }

  // ------------------------------------------------------------- whole bodies

  predicate AllFit(lines: seq<Line>) { forall k :: 0 <= k < |lines| ==> LineFits(lines[k]) }

  function Forms(lines: seq<Line>): (r: seq<Stmt>)
    ensures |r| == |lines|
  {
    seq(|lines|, k requires 0 <= k < |lines| => LineForm(lines[k]))
  }

  function BodyText(lines: seq<Line>): string
    requires AllFit(lines)
  {
    if lines == [] then "" else LineText(lines[0], BodyText(lines[1..]))
  }

  lemma {:induction false} BodyReads(lines: seq<Line>)
    requires AllFit(lines)
    ensures Render(Forms(lines)) == BodyText(lines)
  {
    if lines != [] {
      assert Forms(lines) == [LineForm(lines[0])] + Forms(lines[1..]);
      RenderAppend([LineForm(lines[0])], Forms(lines[1..]));
      RenderOne(LineForm(lines[0]));
      BodyReads(lines[1..]);
      LineReads(lines[0], BodyText(lines[1..]));
    }
  }

  lemma SomeText(lines: seq<Line>)
    requires AllFit(lines) && lines != []
    ensures BodyText(lines) != ""
  {
    LineBegins(lines[0], BodyText(lines[1..]));
  }

  /** A body is read line by line, each in one way only. */
  lemma {:induction false} SameBody(a: seq<Line>, b: seq<Line>)
    requires AllFit(a) && AllFit(b) && BodyText(a) == BodyText(b)
    ensures a == b
    decreases |a|
  {
    if a == [] || b == [] {
      if a != [] { SomeText(a); }
      if b != [] { SomeText(b); }
    } else {
      SameLine(a[0], BodyText(a[1..]), b[0], BodyText(b[1..]));
      SameBody(a[1..], b[1..]);
      assert a == [a[0]] + a[1..] && b == [b[0]] + b[1..];
    }
  }

  // ----------------------------------------------------- what is translated

  function MacOf(i: Instr): Mac {
    var x, y, z := SourceExpr(i, i.x), SourceExpr(i, i.y), SourceExpr(i, i.z);
    match i.mac
    case 1 => Move(x)
    case 2 => Product(x, y)
    case 3 => Sum(x, z)
    case 4 => ProductSum(x, y, z)
    case 5 => Dot3(x, y)
    case 7 => Dot4(x, y)
    case _ => NoMac
  }

  function IluOf(i: Instr): Ilu {
    var z := SourceExpr(i, i.z);
    match i.ilu
    case 1 => MoveZ(z)
    case 2 => Reciprocal(z)
    case 3 => Clamped(z)
    case 4 => Root(z)
    case _ => NoIlu
  }

  function WriteLines(dest: Dest, bits: nat, fromL: bool): seq<Line> {
    if bits == 0 then [] else [Write(dest, MaskComps(bits), fromL)]
  }

  function LinesOf(i: Instr): seq<Line> {
    [Open(MacOf(i), IluOf(i))] + WriteLines(ToTemp(i.temp), MacBits(i), false) + WriteLines(IluDest(i), i.iluMask, true)
    + WriteLines(OutDest(i.out), i.outMask, i.outFromIlu) + [Shut]
  }

  function AllLines(tokens: seq<Token>): seq<Line> {
    if |tokens| == 0 then []
    else AllLines(tokens[..|tokens| - 1]) + LinesOf(Decode(tokens[|tokens| - 1]))
  }

  lemma OperandsFit(i: Instr)
    ensures IsOperand(SourceExpr(i, i.x)) && IsOperand(SourceExpr(i, i.y)) && IsOperand(SourceExpr(i, i.z))
    ensures MacForm(MacOf(i)) == MacExpr(i) && IluForm(IluOf(i)) == IluExpr(i)
  {
  }

  lemma FormsAppend(a: seq<Line>, b: seq<Line>)
    requires AllFit(a) && AllFit(b)
    ensures AllFit(a + b) && Forms(a + b) == Forms(a) + Forms(b)
  {
  }

  lemma OneFits(l: Line)
    requires LineFits(l)
    ensures AllFit([l]) && Forms([l]) == [LineForm(l)]
  {
  }

  lemma WritesFit(dest: Dest, bits: nat, fromL: bool)
    ensures AllFit(WriteLines(dest, bits, fromL)) && Forms(WriteLines(dest, bits, fromL)) == WriteStmts(dest, bits, fromL)
  {
    if bits != 0 { OneFits(Write(dest, MaskComps(bits), fromL)); }
  }

  lemma BlockFits(open: seq<Line>, a: seq<Line>, b: seq<Line>, c: seq<Line>, shut: seq<Line>)
    requires AllFit(open) && AllFit(a) && AllFit(b) && AllFit(c) && AllFit(shut)
    ensures AllFit(open + a + b + c + shut)
    ensures Forms(open + a + b + c + shut) == Forms(open) + Forms(a) + Forms(b) + Forms(c) + Forms(shut)
  {
    FormsAppend(open, a);
    FormsAppend(open + a, b);
    FormsAppend(open + a + b, c);
    FormsAppend(open + a + b + c, shut);
  }

  lemma LinesFit(i: Instr)
    ensures AllFit(LinesOf(i)) && Forms(LinesOf(i)) == InstrStmts(i)
  {
    OperandsFit(i);
    OneFits(Open(MacOf(i), IluOf(i)));
    WritesFit(ToTemp(i.temp), MacBits(i), false);
    WritesFit(IluDest(i), i.iluMask, true);
    WritesFit(OutDest(i.out), i.outMask, i.outFromIlu);
    OneFits(Shut);
    BlockFits([Open(MacOf(i), IluOf(i))], WriteLines(ToTemp(i.temp), MacBits(i), false), WriteLines(IluDest(i), i.iluMask, true),
              WriteLines(OutDest(i.out), i.outMask, i.outFromIlu), [Shut]);
  }

  lemma {:induction false} AllLinesFit(tokens: seq<Token>)
    ensures AllFit(AllLines(tokens)) && Forms(AllLines(tokens)) == Translate(tokens)
  {
    if tokens != [] {
      var front, last := tokens[..|tokens| - 1], Decode(tokens[|tokens| - 1]);
      AllLinesFit(front);
      LinesFit(last);
      FormsAppend(AllLines(front), LinesOf(last));
    }
  }

  lemma BodyTellsTranslation(a: seq<Token>, b: seq<Token>)
    requires Render(Translate(a)) == Render(Translate(b))
    ensures Translate(a) == Translate(b)
  {
    AllLinesFit(a);
    AllLinesFit(b);
    BodyReads(AllLines(a));
    BodyReads(AllLines(b));
    SameBody(AllLines(a), AllLines(b));
  }

  lemma CancelBoth(front: string, s: string, t: string, back: string)
    requires front + s + back == front + t + back
    ensures s == t
  {
    ConcatAssociates(front, s, back);
    ConcatAssociates(front, t, back);
    Cancel(front, s + back, front, t + back);
    assert |s + back| == |s| + |back| && |t + back| == |t| + |back|;
    Cancel(s, back, t, back);
  }

  /** Programs with the same text, whatever stands before and behind the body in
      both, have the same translation. */
  lemma TextTellsTranslation(front: string, a: seq<Token>, b: seq<Token>, back: string)
    requires front + Render(Translate(a)) + back == front + Render(Translate(b)) + back
    ensures Translate(a) == Translate(b)
  {
    CancelBoth(front, Render(Translate(a)), Render(Translate(b)), back);
    BodyTellsTranslation(a, b);
  }

  /** And so the text alone fixes what a program computes, over any arithmetic. */
  lemma TextTellsMeaning<F>(alu: Alu<F>, inp: Inputs<F>, front: string, a: seq<Token>, b: seq<Token>, back: string)
    requires inp.Valid() && Accepted(a) && Accepted(b)
    requires front + Render(Translate(a)) + back == front + Render(Translate(b)) + back
    ensures RunMicrocode(alu, inp, a) == RunMicrocode(alu, inp, b)
  {
    AcceptedSupported(a);
    AcceptedSupported(b);
    TextTellsTranslation(front, a, b, back);
    TranslationCorrect(alu, inp, a);
    TranslationCorrect(alu, inp, b);
  }

  lemma AcceptedSupported(tokens: seq<Token>)
    requires Accepted(tokens)
    ensures forall k :: 0 <= k < |tokens| ==> Supported(Decode(tokens[k]))
  {
    forall k | 0 <= k < |tokens| ensures Supported(Decode(tokens[k])) {
      assert SupportedAt(tokens, k);
    }
  }
}
