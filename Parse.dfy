/** A reader for the text Render produces. It is the inverse that shows the
    fully parenthesised rendering loses nothing: for expressions whose
    variable names are identifiers, reading the rendering back gives the
    expression, so distinct expressions render differently. */
module RenderParse {

  import opened JavaInt
  import opened SimpleExpr
  import opened Rendering

  predicate IsNameStart(c: char) {
    ('a' <= c <= 'z') || ('A' <= c <= 'Z') || c == '_' || c == '$'
  }

  predicate IsNameChar(c: char) {
    IsNameStart(c) || IsDigit(c)
  }

  /** A non-empty identifier: a letter, `_` or `$`, then letters, digits, `_` or `$`. */
  predicate IsIdentifier(x: string) {
    |x| > 0 && IsNameStart(x[0]) && forall k :: 0 < k < |x| ==> IsNameChar(x[k])
  }

  /** Every variable of `e` is named by an identifier. */
  predicate WellNamed(e: Expr) {
    forall x :: x in FreeVars(e) ==> IsIdentifier(x)
  }

  /** Length of the longest prefix of `s` made of digits. */
  function DigitRun(s: string): (n: nat)
    ensures n <= |s| && AllDigits(s[..n])
    ensures n < |s| ==> !IsDigit(s[n])
  {
    if s != [] && IsDigit(s[0]) then 1 + DigitRun(s[1..]) else 0
  }

  /** Length of the longest prefix of `s` made of identifier characters. */
  function NameRun(s: string): (n: nat)
    ensures n <= |s| && forall k :: 0 <= k < n ==> IsNameChar(s[k])
    ensures n < |s| ==> !IsNameChar(s[n])
  {
    if s != [] && IsNameChar(s[0]) then 1 + NameRun(s[1..]) else 0
  }

  function MakeBinop(op: char, a: Expr, b: Expr): Expr
    requires op == '+' || op == '*' || op == '-'
  {
    if op == '+' then Add(a, b) else if op == '*' then Mul(a, b) else Sub(a, b)
  }

  /** Reads one expression from the front of `s` and returns it with the
      unread rest; `None` when `s` does not start with an expression. */
  function ParseExpr(s: string): (r: Option<(Expr, string)>)
    ensures r.Some? ==> |r.value.1| < |s|
    decreases |s|, 0
  {
    if s == [] then None
    else if s[0] == '(' then ParseParen(s[1..])
    else if s[0] == '-' then ParseNegative(s[1..])
    else if IsDigit(s[0]) then ParseNumeral(s)
    else if IsNameStart(s[0]) then ParseName(s)
    else None
  }

  /** After an opening parenthesis: an operand, ` op `, an operand and `)`. */
  function ParseParen(s: string): (r: Option<(Expr, string)>)
    ensures r.Some? ==> |r.value.1| < |s|
    decreases |s|, 1
  {
    match ParseExpr(s)
    case None => None
    case Some((a, t)) =>
      if |t| >= 3 && t[0] == ' ' && t[2] == ' ' && (t[1] == '+' || t[1] == '*' || t[1] == '-') then
        match ParseExpr(t[3..])
        case None => None
        case Some((b, u)) =>
          if |u| > 0 && u[0] == ')' then Some((MakeBinop(t[1], a, b), u[1..])) else None
      else None
  }

  /** After a minus sign: the digits of a negative constant that fits in an `int`. */
  function ParseNegative(s: string): (r: Option<(Expr, string)>)
    ensures r.Some? ==> |r.value.1| < |s|
  {
    var n := DigitRun(s);
    var v := -(ParseNat(s[..n]) as int);
    if n > 0 && MIN_INT <= v then Some((CstI(v as int32), s[n..])) else None
  }

  /** The digits of a non-negative constant that fits in an `int`. */
  function ParseNumeral(s: string): (r: Option<(Expr, string)>)
    requires s != [] && IsDigit(s[0])
    ensures r.Some? ==> |r.value.1| < |s|
  {
    var n := DigitRun(s);
    var v := ParseNat(s[..n]);
    if v <= MAX_INT then Some((CstI(v as int32), s[n..])) else None
  }

  /** A variable name: the longest run of identifier characters. */
  function ParseName(s: string): (r: Option<(Expr, string)>)
    requires s != [] && IsNameStart(s[0])
    ensures r.Some? ==> |r.value.1| < |s|
  {
    var n := NameRun(s);
    Some((Var(s[..n]), s[n..]))
  }

  lemma {:induction false} DigitRunConcat(d: string, rest: string)
    requires AllDigits(d)
    requires rest == [] || !IsDigit(rest[0])
    ensures DigitRun(d + rest) == |d|
  {
    if d == [] {
      assert d + rest == rest;
    } else {
      assert (d + rest)[0] == d[0];
      assert (d + rest)[1..] == d[1..] + rest;
      DigitRunConcat(d[1..], rest);
    }
  }

  lemma {:induction false} NameRunConcat(x: string, rest: string)
    requires forall k :: 0 <= k < |x| ==> IsNameChar(x[k])
    requires rest == [] || !IsNameChar(rest[0])
    ensures NameRun(x + rest) == |x|
  {
    if x == [] {
      assert x + rest == rest;
    } else {
      assert (x + rest)[0] == x[0];
      assert (x + rest)[1..] == x[1..] + rest;
      NameRunConcat(x[1..], rest);
    }
  }

  /** Reading back the digits of a constant. */
  lemma ParseRenderDigits(n: nat, rest: string)
    requires rest == [] || !IsNameChar(rest[0])
    ensures var s := NatToString(n) + rest; var k := DigitRun(s);
      k == |NatToString(n)| && ParseNat(s[..k]) == n && s[k..] == rest
  {
    var d := NatToString(n);
    var s := d + rest;
    DigitRunConcat(d, rest);
    assert s[..|d|] == d;
    ParseNatToString(n);
  }

  /** Reading back the rendering of a constant. */
  lemma ParseRenderConstant(i: int32, rest: string)
    requires rest == [] || !IsNameChar(rest[0])
    ensures ParseExpr(Render(CstI(i)) + rest) == Some((CstI(i), rest))
  {
    if i < 0 {
      ParseRenderNegative(i, rest);
    } else {
      ParseRenderNonNegative(i, rest);
    }
  }

  lemma ParseRenderNegative(i: int32, rest: string)
    requires i < 0
    requires rest == [] || !IsNameChar(rest[0])
    ensures ParseExpr(IntToString(i) + rest) == Some((CstI(i), rest))
  {
    var d := NatToString(-(i as int));
    AppendAssoc("-", d, rest);
    ParseRenderDigits(-(i as int), rest);
    assert ParseNegative(d + rest) == Some((CstI(i), rest));
    var s := "-" + (d + rest);
    assert s[0] == '-' && s[1..] == d + rest;
  }

  lemma ParseRenderNonNegative(i: int32, rest: string)
    requires i >= 0
    requires rest == [] || !IsNameChar(rest[0])
    ensures ParseExpr(IntToString(i) + rest) == Some((CstI(i), rest))
  {
    var d := NatToString(i as nat);
    var s := d + rest;
    assert s[0] == d[0];
    ParseRenderDigits(i as nat, rest);
    assert ParseNumeral(s) == Some((CstI(i), rest));
  }

  /** Reading back the rendering of a variable. */
  lemma ParseRenderVariable(x: string, rest: string)
    requires IsIdentifier(x)
    requires rest == [] || !IsNameChar(rest[0])
    ensures ParseExpr(Render(Var(x)) + rest) == Some((Var(x), rest))
  {
    var s := x + rest;
    assert s[0] == x[0];
    NameRunConcat(x, rest);
    assert s[..|x|] == x && s[|x|..] == rest;
    assert ParseName(s) == Some((Var(x), rest));
  }

  /** Reading back `(ra op rb)` followed by `rest`, given that `ra` and `rb`
      read back as `a` and `b`. */
  lemma ParseRenderBinop(op: char, a: Expr, b: Expr, ra: string, rb: string, rest: string)
    requires op == '+' || op == '*' || op == '-'
    requires ParseExpr(ra + ([' ', op, ' '] + (rb + (")" + rest)))) == Some((a, [' ', op, ' '] + (rb + (")" + rest))))
    requires ParseExpr(rb + (")" + rest)) == Some((b, ")" + rest))
    ensures ParseExpr("(" + (ra + ([' ', op, ' '] + (rb + (")" + rest))))) == Some((MakeBinop(op, a, b), rest))
  {
    var u := ")" + rest;
    var t := [' ', op, ' '] + (rb + u);
    assert |t| >= 3 && t[0] == ' ' && t[1] == op && t[2] == ' ' && t[3..] == rb + u;
    assert u[0] == ')' && u[1..] == rest;
    ParenStep(ra + t, a, t, b, u);
    OpenStep(ra + t);
  }

  lemma ParenStep(s: string, a: Expr, t: string, b: Expr, u: string)
    requires ParseExpr(s) == Some((a, t))
    requires |t| >= 3 && t[0] == ' ' && t[2] == ' ' && (t[1] == '+' || t[1] == '*' || t[1] == '-')
    requires ParseExpr(t[3..]) == Some((b, u))
    requires |u| > 0 && u[0] == ')'
    ensures ParseParen(s) == Some((MakeBinop(t[1], a, b), u[1..]))
  {
  }

  lemma OpenStep(s: string)
    ensures ParseExpr("(" + s) == ParseParen(s)
  {
    assert ("(" + s)[0] == '(' && ("(" + s)[1..] == s;
  }

  lemma AppendAssoc(a: string, b: string, c: string)
    ensures a + b + c == a + (b + c)
  {
  }

  /** The rendering of a binary node, regrouped from the right. */
  lemma RenderShape(ra: string, op: string, rb: string, rest: string)
    ensures "(" + ra + op + rb + ")" + rest == "(" + (ra + (op + (rb + (")" + rest))))
  {
    AppendAssoc("(" + ra + op + rb, ")", rest);
    AppendAssoc("(" + ra + op, rb, ")" + rest);
    AppendAssoc("(" + ra, op, rb + (")" + rest));
    AppendAssoc("(", ra, op + (rb + (")" + rest)));
  }

  /** Reading the rendering of a well-named expression gives the expression
      back, and leaves the text after it unread. */
  lemma {:induction false} ParseRender(e: Expr, rest: string)
    requires WellNamed(e)
    requires rest == [] || !IsNameChar(rest[0])
    ensures ParseExpr(Render(e) + rest) == Some((e, rest))
  {
    match e
    case CstI(i) =>
      ParseRenderConstant(i, rest);
    case Var(x) =>
      ParseRenderVariable(x, rest);
    case Add(a, b) =>
      ParseRender(a, [' ', '+', ' '] + (Render(b) + (")" + rest)));
      ParseRender(b, ")" + rest);
      ParseRenderBinop('+', a, b, Render(a), Render(b), rest);
      RenderShape(Render(a), " + ", Render(b), rest);
    case Mul(a, b) =>
      ParseRender(a, [' ', '*', ' '] + (Render(b) + (")" + rest)));
      ParseRender(b, ")" + rest);
      ParseRenderBinop('*', a, b, Render(a), Render(b), rest);
      RenderShape(Render(a), " * ", Render(b), rest);
    case Sub(a, b) =>
      ParseRender(a, [' ', '-', ' '] + (Render(b) + (")" + rest)));
      ParseRender(b, ")" + rest);
      ParseRenderBinop('-', a, b, Render(a), Render(b), rest);
      RenderShape(Render(a), " - ", Render(b), rest);
  }

  /** Well-named expressions with the same rendering are the same expression. */
  lemma RenderInjective(e1: Expr, e2: Expr)
    requires WellNamed(e1) && WellNamed(e2)
    requires Render(e1) == Render(e2)
    ensures e1 == e2
  {
    ParseRender(e1, []);
    ParseRender(e2, []);
    assert Render(e1) + [] == Render(e1) && Render(e2) + [] == Render(e2);
  }
}
