/** The sample expressions built by `SimpleExpr.main`, with the text it
    prints for each, and the evaluation failure on an empty environment. */
module SimpleExprDemo {

  import opened JavaInt
  import opened SimpleExpr
  import opened Rendering

  lemma RenderSeventeen()
    ensures IntToString(17) == "17"
  {
    assert NatToString(17) == NatToString(1) + [DigitChar(7)];
  }

  /** The three expressions printed first. */
  lemma DemoRenderings()
    ensures Render(Add(CstI(17), Var("z"))) == "(17 + z)"
    ensures Render(Mul(Mul(CstI(17), Var("n")), Var("z"))) == "((17 * n) * z)"
    ensures Render(Sub(Add(CstI(17), Var("p")), Var("z"))) == "((17 + p) - z)"
  {
    RenderSeventeen();
  }

  /** `x - x` before and after simplification. */
  lemma DemoSimplify()
    ensures Render(Sub(Var("x"), Var("x"))) == "(x - x)"
    ensures Simplify(Sub(Var("x"), Var("x"))) == CstI(0)
    ensures Render(Simplify(Sub(Var("x"), Var("x")))) == "0"
  {
    assert NatToString(0) == "0";
  }

  /** Further rewrites; the zero test of Mul comes before the one test. */
  lemma DemoMoreCases()
    ensures Simplify(Add(CstI(0), Var("y"))) == Var("y")
    ensures Simplify(Mul(CstI(0), Var("y"))) == CstI(0)
    ensures Simplify(Mul(CstI(1), CstI(0))) == CstI(0)
  {
  }

  /** A variable with no binding in an empty environment fails. */
  lemma DemoUnboundVariable()
    ensures Eval(Var("q"), map[]).None?
    ensures Eval(Add(CstI(1), Var("q")), map["p" := 2]).None?
  {
  }
}
