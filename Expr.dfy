/** The expression tree of SimpleExpr.java: integer constants, variables and
    the three binary operators, with evaluation under an environment and the
    one-pass local simplifier. */
module SimpleExpr {

  import opened JavaInt

  datatype Option<+T> = None | Some(value: T)

  /** The class hierarchy Expr / CstI / Var / Binop (Add, Mul, Sub) as one
      closed datatype; `e1` and `e2` are Binop's two children. */
  datatype Expr =
    | CstI(i: int32)
    | Var(name: string)
    | Add(e1: Expr, e2: Expr)
    | Mul(e1: Expr, e2: Expr)
    | Sub(e1: Expr, e2: Expr)

  /** The `Map<String, Integer>` handed to `eval`. */
  type Env = map<string, int32>

  /** The names of the variables occurring in `e`. */
  function FreeVars(e: Expr): set<string>
  {
    match e
    case CstI(_) => {}
    case Var(x) => {x}
    case Add(a, b) => FreeVars(a) + FreeVars(b)
    case Mul(a, b) => FreeVars(a) + FreeVars(b)
    case Sub(a, b) => FreeVars(a) + FreeVars(b)
  }

  /** The number of nodes of `e`. */
  function Size(e: Expr): nat
  {
    match e
    case CstI(_) => 1
    case Var(_) => 1
    case Add(a, b) => 1 + Size(a) + Size(b)
    case Mul(a, b) => 1 + Size(a) + Size(b)
    case Sub(a, b) => 1 + Size(a) + Size(b)
  }

  /** `e.eval(env)`. `None` stands for the NullPointerException thrown when
      `env.get` finds no binding and the null is unboxed; Java arithmetic
      wraps around. Trees and environments here hold no `null`, so
      evaluation fails exactly when a variable is unbound. */
  function Eval(e: Expr, env: Env): (r: Option<int32>)
    ensures r.Some? <==> FreeVars(e) <= env.Keys
  {
    match e
    case CstI(i) => Some(i)
    case Var(x) => if x in env then Some(env[x]) else None
    case Add(a, b) =>
      var ra, rb := Eval(a, env), Eval(b, env);
      if ra.Some? && rb.Some? then Some(Wrap32(ra.value as int + rb.value as int)) else None
    case Mul(a, b) =>
      var ra, rb := Eval(a, env), Eval(b, env);
      if ra.Some? && rb.Some? then Some(Wrap32(ra.value as int * rb.value as int)) else None
    case Sub(a, b) =>
      var ra, rb := Eval(a, env), Eval(b, env);
      if ra.Some? && rb.Some? then Some(Wrap32(ra.value as int - rb.value as int)) else None
  }

  /** `e.Simplify()`: one bottom-up pass of local rewrites. Add drops a
      literal 0 operand; Mul gives 0 for a literal 0 operand, then drops a
      literal 1 operand; Sub gives 0 for two equal literals or two variables
      of the same name, tested on the children as they are, before they are
      simplified. It never grows the tree and never introduces a variable. */
  function Simplify(e: Expr): (r: Expr)
    ensures Size(r) <= Size(e)
    ensures FreeVars(r) <= FreeVars(e)
  {
    match e
    case CstI(_) => e
    case Var(_) => e
    case Add(a, b) =>
      if a == CstI(0) then Simplify(b)
      else if b == CstI(0) then Simplify(a)
      else Add(Simplify(a), Simplify(b))
    case Mul(a, b) =>
      if a == CstI(0) then CstI(0)
      else if b == CstI(0) then CstI(0)
      else if a == CstI(1) then Simplify(b)
      else if b == CstI(1) then Simplify(a)
      else Mul(Simplify(a), Simplify(b))
    case Sub(a, b) =>
      if a.CstI? && b.CstI? && a.i == b.i then CstI(0)
      else if a.Var? && b.Var? && a.name == b.name then CstI(0)
      else Sub(Simplify(a), Simplify(b))
  }

  // ---------------------------------------------------------------------
  // Evaluation, node by node

  /** A constant evaluates to its value in every environment. */
  lemma EvalConstant(c: int32, env: Env)
    ensures Eval(CstI(c), env) == Some(c)
  {
  }

  /** A variable evaluates to its binding, and fails when it has none. */
  lemma EvalVariable(x: string, env: Env)
    ensures x in env ==> Eval(Var(x), env) == Some(env[x])
    ensures x !in env ==> Eval(Var(x), env).None?
  {
  }

  /** A sum fails when either operand fails; otherwise its value is the
      32-bit value congruent to the exact sum of the operands' values modulo
      2^32, and equal to it when that fits in 32 bits. */
  lemma EvalAdd(a: Expr, b: Expr, env: Env)
    ensures Eval(Add(a, b), env).Some? <==> Eval(a, env).Some? && Eval(b, env).Some?
    ensures Eval(a, env).Some? && Eval(b, env).Some? ==>
      var x, y, r := Eval(a, env).value as int, Eval(b, env).value as int, Eval(Add(a, b), env).value as int;
      && (r - (x + y)) % TWO_32 == 0
      && (MIN_INT <= x + y <= MAX_INT ==> r == x + y)
  {
  }

  /** A product fails when either operand fails; otherwise its value is the
      32-bit value congruent to the exact product of the operands' values modulo
      2^32, and equal to it when that fits in 32 bits. */
  lemma EvalMul(a: Expr, b: Expr, env: Env)
    ensures Eval(Mul(a, b), env).Some? <==> Eval(a, env).Some? && Eval(b, env).Some?
    ensures Eval(a, env).Some? && Eval(b, env).Some? ==>
      var x, y, r := Eval(a, env).value as int, Eval(b, env).value as int, Eval(Mul(a, b), env).value as int;
      && (r - (x * y)) % TWO_32 == 0
      && (MIN_INT <= x * y <= MAX_INT ==> r == x * y)
  {
  }

  /** A difference fails when either operand fails; otherwise its value is the
      32-bit value congruent to the exact difference of the operands' values modulo
      2^32, and equal to it when that fits in 32 bits. */
  lemma EvalSub(a: Expr, b: Expr, env: Env)
    ensures Eval(Sub(a, b), env).Some? <==> Eval(a, env).Some? && Eval(b, env).Some?
    ensures Eval(a, env).Some? && Eval(b, env).Some? ==>
      var x, y, r := Eval(a, env).value as int, Eval(b, env).value as int, Eval(Sub(a, b), env).value as int;
      && (r - (x - y)) % TWO_32 == 0
      && (MIN_INT <= x - y <= MAX_INT ==> r == x - y)
  {
  }

  // ---------------------------------------------------------------------
  // Simplify preserves meaning

  /** Whenever `e` evaluates to a value, its simplification evaluates to the
      same value. (The converse fails: a simplification may drop an unbound
      variable, see SimplifyMasksLookupFailure.) */
  lemma {:induction false} SimplifyRefinesEval(e: Expr, env: Env)
    ensures Eval(e, env).Some? ==> Eval(Simplify(e), env) == Eval(e, env)
  {
    match e
    case CstI(_) =>
    case Var(_) =>
    case Add(a, b) =>
      SimplifyRefinesEval(a, env);
      SimplifyRefinesEval(b, env);
      AddRefinesEval(a, b, env);
    case Mul(a, b) =>
      SimplifyRefinesEval(a, env);
      SimplifyRefinesEval(b, env);
      MulRefinesEval(a, b, env);
    case Sub(a, b) =>
      SimplifyRefinesEval(a, env);
      SimplifyRefinesEval(b, env);
      SubRefinesEval(a, b, env);
  }

  /** The Add rules preserve a defined value, given that simplifying the
      children does. */
  lemma AddRefinesEval(a: Expr, b: Expr, env: Env)
    requires Eval(a, env).Some? ==> Eval(Simplify(a), env) == Eval(a, env)
    requires Eval(b, env).Some? ==> Eval(Simplify(b), env) == Eval(b, env)
    ensures Eval(Add(a, b), env).Some? ==> Eval(Simplify(Add(a, b)), env) == Eval(Add(a, b), env)
  {
    if Eval(Add(a, b), env).Some? {
      WrapIdentities(Eval(a, env).value);
      WrapIdentities(Eval(b, env).value);
    }
  }

  /** The Mul rules preserve a defined value, given that simplifying the
      children does. */
  lemma MulRefinesEval(a: Expr, b: Expr, env: Env)
    requires Eval(a, env).Some? ==> Eval(Simplify(a), env) == Eval(a, env)
    requires Eval(b, env).Some? ==> Eval(Simplify(b), env) == Eval(b, env)
    ensures Eval(Mul(a, b), env).Some? ==> Eval(Simplify(Mul(a, b)), env) == Eval(Mul(a, b), env)
  {
    if Eval(Mul(a, b), env).Some? {
      WrapIdentities(Eval(a, env).value);
      WrapIdentities(Eval(b, env).value);
    }
  }

  /** The Sub rules preserve a defined value, given that simplifying the
      children does. */
  lemma SubRefinesEval(a: Expr, b: Expr, env: Env)
    requires Eval(a, env).Some? ==> Eval(Simplify(a), env) == Eval(a, env)
    requires Eval(b, env).Some? ==> Eval(Simplify(b), env) == Eval(b, env)
    ensures Eval(Sub(a, b), env).Some? ==> Eval(Simplify(Sub(a, b)), env) == Eval(Sub(a, b), env)
  {
    if Eval(Sub(a, b), env).Some? {
      WrapIdentities(Eval(a, env).value);
    }
  }

  /** For every environment binding all free variables of `e`, evaluating the
      simplification gives the same result as evaluating `e`. */
  lemma SimplifyPreservesEval(e: Expr, env: Env)
    requires FreeVars(e) <= env.Keys
    ensures Eval(Simplify(e), env) == Eval(e, env)
    ensures Eval(e, env).Some?
  {
    SimplifyRefinesEval(e, env);
  }

  /** Simplification can remove a lookup failure: `0 * q` with `q` unbound
      throws, but its simplification `0` evaluates to 0; so does `q - q`. */
  lemma SimplifyMasksLookupFailure()
    ensures Eval(Mul(CstI(0), Var("q")), map[]).None?
    ensures Eval(Simplify(Mul(CstI(0), Var("q"))), map[]) == Some(0)
    ensures Eval(Sub(Var("q"), Var("q")), map[]).None?
    ensures Eval(Simplify(Sub(Var("q"), Var("q"))), map[]) == Some(0)
  {
  }

  // ---------------------------------------------------------------------
  // The shape of Simplify's result

  /** Constants and variables are returned unchanged. */
  lemma SimplifyLeaf(e: Expr)
    requires e.CstI? || e.Var?
    ensures Simplify(e) == e
  {
  }

  /** A sum with a literal 0 operand simplifies to the other operand,
      simplified; the left operand is tested first. */
  lemma SimplifyAddZero(a: Expr, b: Expr)
    ensures Simplify(Add(CstI(0), b)) == Simplify(b)
    ensures a != CstI(0) ==> Simplify(Add(a, CstI(0))) == Simplify(a)
  {
  }

  /** A product with a literal 0 operand simplifies to 0, before any test for
      a literal 1: so `1 * 0` gives 0 rather than the simplified `0`. */
  lemma SimplifyMulZero(a: Expr, b: Expr)
    requires a == CstI(0) || b == CstI(0)
    ensures Simplify(Mul(a, b)) == CstI(0)
  {
  }

  /** A product with a literal 1 operand and no literal 0 operand simplifies
      to the other operand, simplified. */
  lemma SimplifyMulOne(a: Expr, b: Expr)
    requires a != CstI(0) && b != CstI(0)
    ensures a == CstI(1) ==> Simplify(Mul(a, b)) == Simplify(b)
    ensures a != CstI(1) && b == CstI(1) ==> Simplify(Mul(a, b)) == Simplify(a)
  {
  }

  /** A difference simplifies to 0 exactly when its unsimplified children are
      equal literals or same-named variables; otherwise both children are
      simplified and the difference rebuilt. */
  lemma SimplifySubZeroIff(a: Expr, b: Expr)
    ensures Simplify(Sub(a, b)) == CstI(0) <==>
      (a.CstI? && b.CstI? && a.i == b.i) || (a.Var? && b.Var? && a.name == b.name)
    ensures Simplify(Sub(a, b)) != CstI(0) ==> Simplify(Sub(a, b)) == Sub(Simplify(a), Simplify(b))
  {
  }

  /** The Sub rule looks at the children before simplifying them:
      `(0 + x) - x` becomes `x - x`, not 0. */
  lemma SubTestsUnsimplifiedChildren()
    ensures Simplify(Sub(Add(CstI(0), Var("x")), Var("x"))) == Sub(Var("x"), Var("x"))
  {
  }

  /** One pass only: Simplify is not idempotent. */
  lemma SimplifyNotIdempotent()
    ensures Simplify(Add(Add(CstI(0), CstI(0)), Var("x"))) == Add(CstI(0), Var("x"))
    ensures Simplify(Simplify(Add(Add(CstI(0), CstI(0)), Var("x")))) == Var("x")
  {
  }

  /** A tree is left as it is exactly when no node shrinks: every rule that
      fires removes at least one node. */
  lemma {:induction false} SimplifyUnchangedIffSameSize(e: Expr)
    ensures Simplify(e) == e <==> Size(Simplify(e)) == Size(e)
  {
    match e
    case CstI(_) =>
    case Var(_) =>
    case Add(a, b) =>
      SimplifyUnchangedIffSameSize(a);
      SimplifyUnchangedIffSameSize(b);
      SizeChildren(e);
    case Mul(a, b) =>
      SimplifyUnchangedIffSameSize(a);
      SimplifyUnchangedIffSameSize(b);
      SizeChildren(e);
    case Sub(a, b) =>
      SimplifyUnchangedIffSameSize(a);
      SimplifyUnchangedIffSameSize(b);
      SizeChildren(e);
  }

  /** A binary node is larger than either of its children. */
  lemma SizeChildren(e: Expr)
    requires e.Add? || e.Mul? || e.Sub?
    ensures Size(e.e1) < Size(e) && Size(e.e2) < Size(e)
  {
  }
}
