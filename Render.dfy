/** The `toString` methods of SimpleExpr.java: fully parenthesised infix
    text, with Java's decimal text for `int` constants. */
module Rendering {

  import opened JavaInt
  import opened SimpleExpr

  // ---------------------------------------------------------------------
  // Decimal text of an int (`i + ""`)

  predicate IsDigit(c: char) {
    '0' <= c <= '9'
  }

  predicate AllDigits(s: string) {
    forall k :: 0 <= k < |s| ==> IsDigit(s[k])
  }

  function DigitChar(d: nat): (c: char)
    requires d < 10
    ensures IsDigit(c) && c as int - '0' as int == d
  {
    ('0' as int + d) as char
  }

  /** Decimal digits of `n`, most significant first, with no leading zero
      unless `n` is 0. */
  function NatToString(n: nat): (s: string)
    ensures |s| > 0 && AllDigits(s)
    ensures s[0] == '0' ==> s == "0"
  {
    if n < 10 then [DigitChar(n)] else NatToString(n / 10) + [DigitChar(n % 10)]
  }

  /** The value of a string of decimal digits. */
  function ParseNat(s: string): nat
    requires AllDigits(s)
  {
    if s == [] then 0
    else 10 * ParseNat(s[..|s| - 1]) + (s[|s| - 1] as int - '0' as int)
  }

  /** Reading the digits back gives the number. */
  lemma {:induction false} ParseNatToString(n: nat)
    ensures ParseNat(NatToString(n)) == n
  {
    var s := NatToString(n);
    if n >= 10 {
      ParseNatToString(n / 10);
      assert s[..|s| - 1] == NatToString(n / 10);
    }
  }

  /** Java's decimal text of an `int`: a minus sign before the digits of the
      magnitude when negative. It never contains a parenthesis. */
  function IntToString(i: int32): (s: string)
    ensures |s| > 0 && '(' !in s && ')' !in s
    ensures i >= 0 <==> AllDigits(s)
    ensures i < 0 <==> s[0] == '-'
    ensures i < 0 ==> AllDigits(s[1..])
  {
    if i < 0 then
      var s := "-" + NatToString(-(i as int));
      assert s[0] == '-' && !IsDigit(s[0]) && s[1..] == NatToString(-(i as int));
      s
    else NatToString(i as nat)
  }

  /** The value of Java's decimal text of an `int`. */
  function ParseInt(s: string): int
    requires |s| > 0
    requires if s[0] == '-' then AllDigits(s[1..]) else AllDigits(s)
  {
    if s[0] == '-' then -(ParseNat(s[1..]) as int) else ParseNat(s)
  }

  /** Reading the decimal text back gives the constant. */
  lemma IntToStringRoundTrip(i: int32)
    ensures ParseInt(IntToString(i)) == i as int
  {
    if i < 0 {
      ParseNatToString(-(i as int));
      assert IntToString(i)[1..] == NatToString(-(i as int));
    } else {
      ParseNatToString(i as nat);
    }
  }

  // ---------------------------------------------------------------------
  // Rendering

  /** `e.toString()`: a variable prints its name, a constant its decimal
      text, and every binary node is wrapped in parentheses. */
  function Render(e: Expr): (s: string)
    ensures e.Var? ==> s == e.name
    ensures e.CstI? ==> |s| > 0 && (if s[0] == '-' then AllDigits(s[1..]) else AllDigits(s))
                        && ParseInt(s) == e.i as int
    ensures (e.Add? || e.Mul? || e.Sub?) ==> |s| >= 5 && s[0] == '(' && s[|s| - 1] == ')'
  {
    match e
    case CstI(i) =>
      IntToStringRoundTrip(i);
      IntToString(i)
    case Var(x) => x
    case Add(a, b) => "(" + Render(a) + " + " + Render(b) + ")"
    case Mul(a, b) => "(" + Render(a) + " * " + Render(b) + ")"
    case Sub(a, b) => "(" + Render(a) + " - " + Render(b) + ")"
  }

  // ---------------------------------------------------------------------
  // Balanced parentheses

  /** Opening minus closing parentheses in `s`. */
  function Depth(s: string): int
  {
    if s == [] then 0
    else (if s[0] == '(' then 1 else if s[0] == ')' then -1 else 0) + Depth(s[1..])
  }

  /** Starting at nesting depth `d`, no prefix of `s` closes more than it opened. */
  predicate NeverBelow(s: string, d: int) {
    forall k :: 0 <= k <= |s| ==> d + Depth(s[..k]) >= 0
  }

  predicate Balanced(s: string) {
    Depth(s) == 0 && NeverBelow(s, 0)
  }

  lemma {:induction false} DepthConcat(a: string, b: string)
    ensures Depth(a + b) == Depth(a) + Depth(b)
  {
    if a != [] {
      assert (a + b)[1..] == a[1..] + b;
      DepthConcat(a[1..], b);
    } else {
      assert a + b == b;
    }
  }

  lemma NeverBelowConcat(a: string, b: string, d: int)
    requires NeverBelow(a, d) && NeverBelow(b, d + Depth(a))
    ensures NeverBelow(a + b, d)
  {
    forall k | 0 <= k <= |a + b|
      ensures d + Depth((a + b)[..k]) >= 0
    {
      if k <= |a| {
        assert (a + b)[..k] == a[..k];
      } else {
        assert (a + b)[..k] == a + b[..k - |a|];
        DepthConcat(a, b[..k - |a|]);
        assert d + Depth(a) + Depth(b[..k - |a|]) >= 0;
      }
    }
  }

  lemma {:induction false} ParenFreeDepth(s: string)
    requires '(' !in s && ')' !in s
    ensures Depth(s) == 0
  {
    if s != [] {
      assert s[0] in s;
      assert forall c :: c in s[1..] ==> c in s;
      ParenFreeDepth(s[1..]);
    }
  }

  /** Text without parentheses leaves the depth where it was. */
  lemma ParenFreeNeutral(s: string, d: int)
    requires '(' !in s && ')' !in s && d >= 0
    ensures Depth(s) == 0 && NeverBelow(s, d)
  {
    ParenFreeDepth(s);
    forall k | 0 <= k <= |s| ensures d + Depth(s[..k]) >= 0 {
      assert forall c :: c in s[..k] ==> c in s;
      ParenFreeDepth(s[..k]);
    }
  }

  lemma NeverBelowRaise(s: string, d: int, d': int)
    requires NeverBelow(s, d) && d <= d'
    ensures NeverBelow(s, d')
  {
  }

  /** Wrapping two balanced texts around a parenthesis-free operator, all in
      parentheses, gives a balanced text. */
  lemma BalancedWrap(a: string, op: string, b: string)
    requires Balanced(a) && Balanced(b) && '(' !in op && ')' !in op
    ensures Balanced("(" + a + op + b + ")")
  {
    var open, close := "(", ")";
    assert Depth(open) == 1 && NeverBelow(open, 0) by {
      assert open[..0] == [] && open[..1] == open;
    }
    assert Depth(close) == -1 && NeverBelow(close, 1) by {
      assert close[..0] == [] && close[..1] == close;
    }
    NeverBelowRaise(a, 0, 1);
    NeverBelowRaise(b, 0, 1);
    ParenFreeNeutral(op, 1);
    NeverBelowConcat(b, close, 1);
    DepthConcat(b, close);
    NeverBelowConcat(op, b + close, 1);
    DepthConcat(op, b + close);
    NeverBelowConcat(a, op + (b + close), 1);
    DepthConcat(a, op + (b + close));
    NeverBelowConcat(open, a + (op + (b + close)), 0);
    DepthConcat(open, a + (op + (b + close)));
    assert "(" + a + op + b + ")" == open + (a + (op + (b + close)));
  }

  /** The rendering of an expression whose variable names contain no
      parentheses is balanced. */
  lemma {:induction false} RenderBalanced(e: Expr)
    requires forall x :: x in FreeVars(e) ==> '(' !in x && ')' !in x
    ensures Balanced(Render(e))
  {
    match e
    case CstI(i) =>
      ParenFreeNeutral(IntToString(i), 0);
    case Var(x) =>
      ParenFreeNeutral(x, 0);
    case Add(a, b) =>
      RenderBalanced(a);
      RenderBalanced(b);
      BalancedWrap(Render(a), " + ", Render(b));
    case Mul(a, b) =>
      RenderBalanced(a);
      RenderBalanced(b);
      BalancedWrap(Render(a), " * ", Render(b));
    case Sub(a, b) =>
      RenderBalanced(a);
      RenderBalanced(b);
      BalancedWrap(Render(a), " - ", Render(b));
  }

  /** The rendering of a simplified expression is balanced too. */
  lemma RenderSimplifyBalanced(e: Expr)
    requires forall x :: x in FreeVars(e) ==> '(' !in x && ')' !in x
    ensures Balanced(Render(Simplify(e)))
  {
    RenderBalanced(Simplify(e));
  }
}
