# SimpleExpr in Dafny

A model of `SimpleExpr.java`, a small integer-expression tree with three
operations, together with proofs about it:

- **The tree.** `CstI` (an `int` constant), `Var` (a variable name) and the
  binary nodes `Add`, `Mul` and `Sub`. In Java these are an abstract `Expr`/`Binop`
  class hierarchy with `final` fields (SimpleExpr.java:9-148). Here they are
  one datatype, `SimpleExpr.Expr`, whose values can hold no `null`.
- **`eval`.** Evaluates a tree under a `Map<String, Integer>` environment.
  `SimpleExpr.Eval` takes a `map<string, int32>`. It returns `None` where Java
  throws on an unbound variable: `env.get` on an absent name yields `null`,
  and unboxing it throws a NullPointerException. The other `null` cases of the
  Java code cannot arise in the model (see "Left out"). Arithmetic is Java's 32-bit two's-complement `int`
  arithmetic, which wraps on overflow (Java Language Specification, sections
  15.18.2 and 15.17.1). `JavaInt.Wrap32` models that wrap-around.
- **`Simplify`.** One bottom-up pass of local rewrites: it removes `0 + e`,
  `e + 0`, `0 * e`, `e * 0`, `1 * e`, `e * 1`, `c - c` and `x - x`. The `Sub`
  rule tests the children before they are simplified. The pass is not
  repeated until nothing changes.
- **`toString`.** Renders the tree as fully parenthesised infix text.
  `Rendering.Render` models it, and `Rendering.IntToString` gives the decimal
  text of a constant.

The main theorem is `SimpleExpr.SimplifyRefinesEval`. Whenever `e` evaluates
to a value, `Simplify(e)` evaluates to the same value.
`SimpleExpr.SimplifyPreservesEval` restates it for every environment that binds
all free variables. The converse does not hold: simplifying can drop an unbound
variable, as in `0 * q` or `q - q`. Java then throws for the original tree but
not for the simplified one (`SimpleExpr.SimplifyMasksLookupFailure`).

`Rendering.Render` has two partners. The first is balanced parentheses
(`Rendering.RenderBalanced`). The second is a reader, `RenderParse.ParseExpr`.
It is not part of the Java program. It reads the rendered text back into the
tree it came from (`RenderParse.ParseRender`), so two different trees never
render the same (`RenderParse.RenderInjective`).

Files:

- `Int32.dfy`: module `JavaInt`, the `int32` type and wrap-around.
- `Expr.dfy`: module `SimpleExpr`, the tree, `Eval`, `Simplify` and their lemmas.
- `Render.dfy`: module `Rendering`, decimal text, `Render` and balanced parentheses.
- `Parse.dfy`: module `RenderParse`, the reader and the round trip.
- `Demo.dfy`: module `SimpleExprDemo`, the sample expressions of `main`.

## Model

| member | source | states |
|---|---|---|
| `JavaInt.Wrap32` | SimpleExpr.java:85 | the result is a 32-bit value congruent to the mathematical result modulo 2^32, and equal to it when that result fits in an `int` |
| `JavaInt.Wrap32Unique` | SimpleExpr.java:84-86 | any 32-bit value congruent to `x` modulo 2^32 is `Wrap32(x)`, so wrap-around is fully determined |
| `JavaInt.WrapIdentities` | SimpleExpr.java:73-147 | under wrap-around, `x + 0` and `x * 1` give `x`, and `x * 0` and `x - x` give 0, for every `int` `x` |
| `SimpleExpr.Eval` | SimpleExpr.java:21-132 | evaluation succeeds exactly when every variable of the tree is bound in the environment |
| `SimpleExpr.EvalConstant` | SimpleExpr.java:21-23 | a constant evaluates to its value in every environment |
| `SimpleExpr.EvalVariable` | SimpleExpr.java:43-45 | a bound variable evaluates to its binding; an unbound one fails |
| `SimpleExpr.EvalAdd` | SimpleExpr.java:84-86 | a sum fails iff an operand fails; otherwise its value is congruent to the exact sum modulo 2^32, and equals it without overflow |
| `SimpleExpr.EvalMul` | SimpleExpr.java:99-101 | a product fails iff an operand fails; otherwise its value is congruent to the exact product modulo 2^32, and equals it without overflow |
| `SimpleExpr.EvalSub` | SimpleExpr.java:130-132 | a difference fails iff an operand fails; otherwise its value is congruent to the exact difference modulo 2^32, and equals it without overflow |
| `SimpleExpr.Simplify` | SimpleExpr.java:26-147 | the simplified tree has no more nodes than the original and no variable the original lacks |
| `SimpleExpr.SimplifyRefinesEval` | SimpleExpr.java:73-147 | whenever a tree evaluates to a value, its simplification evaluates to the same value |
| `SimpleExpr.AddRefinesEval` | SimpleExpr.java:73-81 | the `Add` rules keep a defined value, given that simplifying the children does |
| `SimpleExpr.MulRefinesEval` | SimpleExpr.java:108-121 | the `Mul` rules keep a defined value, given that simplifying the children does |
| `SimpleExpr.SubRefinesEval` | SimpleExpr.java:138-147 | the `Sub` rules keep a defined value, given that simplifying the children does |
| `SimpleExpr.SimplifyPreservesEval` | SimpleExpr.java:73-147 | in every environment binding all free variables, the original and the simplified tree evaluate to the same value, and both succeed |
| `SimpleExpr.SimplifyMasksLookupFailure` | SimpleExpr.java:109-143 | `0 * q` and `q - q` fail with `q` unbound, yet their simplifications evaluate to 0 |
| `SimpleExpr.SimplifyLeaf` | SimpleExpr.java:26-50 | constants and variables are returned unchanged |
| `SimpleExpr.SimplifyAddZero` | SimpleExpr.java:74-77 | a sum with a literal 0 operand becomes the other operand, simplified, and the left operand is tested first |
| `SimpleExpr.SimplifyMulZero` | SimpleExpr.java:109-112 | a product with a literal 0 operand becomes 0 |
| `SimpleExpr.SimplifyMulOne` | SimpleExpr.java:113-116 | a product with a literal 1 operand and no literal 0 operand becomes the other operand, simplified |
| `SimpleExpr.SimplifySubZeroIff` | SimpleExpr.java:139-146 | a difference becomes 0 exactly when its unsimplified children are equal constants or same-named variables; otherwise it is rebuilt from the simplified children |
| `SimpleExpr.SubTestsUnsimplifiedChildren` | SimpleExpr.java:139-145 | `(0 + x) - x` becomes `x - x`, not 0 |
| `SimpleExpr.SimplifyNotIdempotent` | SimpleExpr.java:73-80 | one pass only: `(0 + 0) + x` becomes `0 + x`, and a second pass gives `x` |
| `SimpleExpr.SimplifyUnchangedIffSameSize` | SimpleExpr.java:73-147 | a tree is left unchanged exactly when simplifying it removes no node, so every rule that fires shrinks the tree |
| `Rendering.NatToString` | SimpleExpr.java:32 | decimal text is non-empty, all digits, and has no leading zero unless it is "0" |
| `Rendering.ParseNatToString` | SimpleExpr.java:32 | reading the decimal text back gives the number |
| `Rendering.IntToString` | SimpleExpr.java:32 | the text of an `int` is non-empty and has no parenthesis; it starts with a minus sign exactly when the value is negative, and is all digits otherwise |
| `Rendering.IntToStringRoundTrip` | SimpleExpr.java:32 | reading the text of an `int` back gives the value |
| `Rendering.Render` | SimpleExpr.java:31-136 | a variable prints its name, a constant prints decimal text that reads back as its value, and a binary node prints fully parenthesised text; balance and read-back of whole trees are stated by `Rendering.RenderBalanced` and `RenderParse.ParseRender` |
| `Rendering.RenderBalanced` | SimpleExpr.java:31-135 | the rendering of a tree whose variable names have no parentheses is balanced: no prefix closes more than it opened, and the whole text closes all it opened |
| `Rendering.RenderSimplifyBalanced` | SimpleExpr.java:73-135 | the rendering of a simplified tree is balanced too |
| `RenderParse.ParseRender` | SimpleExpr.java:31-135 | reading back the rendering of a tree whose variables are identifiers gives that tree and leaves the following text unread |
| `RenderParse.RenderInjective` | SimpleExpr.java:31-135 | two such trees with the same rendering are equal |
| `SimpleExprDemo.RenderSeventeen` | SimpleExpr.java:32 | the constant 17 renders as "17" |
| `SimpleExprDemo.DemoRenderings` | SimpleExpr.java:153-158 | the three sample expressions render as "(17 + z)", "((17 * n) * z)" and "((17 + p) - z)" |
| `SimpleExprDemo.DemoSimplify` | SimpleExpr.java:161-163 | `x - x` renders as "(x - x)" and simplifies to 0, which renders as "0" |
| `SimpleExprDemo.DemoMoreCases` | SimpleExpr.java:74-117 | `0 + y` simplifies to `y`, `0 * y` to 0, and `1 * 0` to 0 because the zero test comes before the one test |
| `SimpleExprDemo.DemoUnboundVariable` | SimpleExpr.java:43-45 | `q` with no binding fails, in an empty environment and inside a sum |

## Left out

- `main` and `System.out.println` (SimpleExpr.java:151-165): console output only. The printed strings are the demo lemmas.
- `java.util.HashMap`/`Map`: the environment is an immutable `map<string, int32>`.
- Object identity: `Simplify` returning `this` rather than a new node cannot be observed on immutable nodes, so it is modelled as equal values.
- Java `null`: the model has no `null`, so three NullPointerExceptions of the Java code are not modelled. They are a name bound to `null` in the map (unboxed at SimpleExpr.java:44), a `Var` whose name is `null` as the left child of a `Sub` of two variables (`.equals` at SimpleExpr.java:142), and a `null` child of a binary node. `SimpleExpr.Eval`'s "fails exactly when a variable is unbound" holds for null-free trees and environments only.
- Exception types: every failing evaluation is `None`. The model does not distinguish the NullPointerException, and does not model which operand Java evaluates first. Evaluation has no side effects, so the order cannot change the outcome.
- `Rendering.RenderBalanced`: stated only for variable names without parentheses. Java accepts any string as a name, and a name such as `"a)"` would unbalance the text.
- `RenderParse.ParseRender`: stated only for names that are identifiers (a letter, `_` or `$`, then letters, digits, `_` or `$`). Other names, such as `"a + b"`, can make two trees render alike.
- Integer width: the model uses exactly the 32 bits of Java's `int`, as the code does, and no wider native integer.
