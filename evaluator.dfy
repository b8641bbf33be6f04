/** Evaluation of condition expressions against a binding of variables to
    values. The source hands condition text to the host interpreter; here a
    condition is a syntax tree over the operators the conditions use, and
    every failure of the interpreter (an unbound name, a division by zero,
    a complex power) is an explicit error that `Evaluate` turns into the
    `-inf` stand-in, so evaluation can never fail. */
module Evaluator {
  import opened Wrappers
  import opened Numeric
  import opened GeneratorBuiltins

  datatype ArithOp = Add | Sub | Mul | Div | Mod | Pow

  datatype CmpOp = Lt | Le | Gt | Ge | Eq | Ne

  /** A condition or formula. `and`/`or` are Python's short-circuit
      operators; `IsIntegerCall(e)` is `(e).is_integer()` and
      `IsSquareCall(e)` is `is_square(e)`. */
  datatype Expr =
    | Num(x: real)
    | Name(id: string)
    | Neg(operand: Expr)
    | Arith(op: ArithOp, left: Expr, right: Expr)
    | Compare(cmp: CmpOp, left: Expr, right: Expr)
    | And(left: Expr, right: Expr)
    | Or(left: Expr, right: Expr)
    | Not(operand: Expr)
    | IsIntegerCall(operand: Expr)
    | IsSquareCall(operand: Expr)

  /** A Python value a condition can produce: a number or a boolean
      (booleans take part in arithmetic as 1 and 0). */
  datatype Value = Number(x: real) | Boolean(b: bool)
  {
    function AsReal(): real {
      match this
      case Number(x) => x
      case Boolean(b) => if b then 1.0 else 0.0
    }

    /** Python truthiness. */
    predicate Truthy() {
      AsReal() != 0.0
    }
  }

  /** What `evaluate` returns: the condition's value, or `float("-inf")`
      when the interpreter raised or produced a complex number. */
  datatype Evaluation = Defined(value: Value) | NegInf
  {
    /** `-inf` is truthy, like every non-zero float. */
    predicate Truthy() {
      NegInf? || value.Truthy()
    }
  }

  /** `a ** b` on floats. `root` gives the power of a positive base to a
      non-integer exponent; a negative base with a non-integer exponent
      has a complex result and fails. */
  function Power(a: real, b: real, root: (real, real) -> real): (r: Option<real>)
    ensures r.None? <==> (a == 0.0 && b < 0.0) || (a < 0.0 && !IsInteger(b))
  {
    if IsInteger(b) then
      var n := b.Floor;
      if n >= 0 then Some(PowNat(a, n))
      else if a == 0.0 then None
      else
        PowNatNonZero(a, -n);
        Some(1.0 / PowNat(a, -n))
    else if a > 0.0 then Some(root(a, b))
    else if a == 0.0 then (if b > 0.0 then Some(0.0) else None)
    else None
  }

  /** One arithmetic operator; division, modulo and power can fail. */
  function ApplyArith(op: ArithOp, a: real, b: real, root: (real, real) -> real): (r: Option<real>)
    ensures (op == Div || op == Mod) ==> (r.None? <==> b == 0.0)
    ensures op == Div && b != 0.0 ==> r == Some(a / b)
    ensures op == Mod && b > 0.0 ==> r.Some? && 0.0 <= r.value < b
    ensures op == Mod && b < 0.0 ==> r.Some? && b < r.value <= 0.0
    ensures op == Mod && b != 0.0 ==> r == Some(FlooredMod(a, b))
    ensures op == Add ==> r == Some(a + b)
    ensures op == Sub ==> r == Some(a - b)
    ensures op == Mul ==> r == Some(a * b)
    ensures op == Pow ==> r == Power(a, b, root)
  {
    match op
    case Add => Some(a + b)
    case Sub => Some(a - b)
    case Mul => Some(a * b)
    case Div => if b == 0.0 then None else Some(a / b)
    case Mod => if b == 0.0 then None else Some(FlooredMod(a, b))
    case Pow => Power(a, b, root)
  }

  function ApplyCompare(cmp: CmpOp, a: real, b: real): bool {
    match cmp
    case Lt => a < b
    case Le => a <= b
    case Gt => a > b
    case Ge => a >= b
    case Eq => a == b
    case Ne => a != b
  }

  /** The interpreter: `None` stands for a raised exception. */
  function Eval(e: Expr, env: map<string, real>, root: (real, real) -> real): Option<Value>
  {
    match e
    case Num(x) => Some(Number(x))
    case Name(id) => if id in env then Some(Number(env[id])) else None
    case Neg(operand) =>
      var v :- Eval(operand, env, root);
      Some(Number(-v.AsReal()))
    case Arith(op, left, right) =>
      var a :- Eval(left, env, root);
      var b :- Eval(right, env, root);
      var r :- ApplyArith(op, a.AsReal(), b.AsReal(), root);
      Some(Number(r))
    case Compare(cmp, left, right) =>
      var a :- Eval(left, env, root);
      var b :- Eval(right, env, root);
      Some(Boolean(ApplyCompare(cmp, a.AsReal(), b.AsReal())))
    case And(left, right) =>
      var a :- Eval(left, env, root);
      if !a.Truthy() then Some(a) else Eval(right, env, root)
    case Or(left, right) =>
      var a :- Eval(left, env, root);
      if a.Truthy() then Some(a) else Eval(right, env, root)
    case Not(operand) =>
      var v :- Eval(operand, env, root);
      Some(Boolean(!v.Truthy()))
    case IsIntegerCall(operand) =>
      var v :- Eval(operand, env, root);
      Some(Boolean(IsInteger(v.AsReal())))
    case IsSquareCall(operand) =>
      var v :- Eval(operand, env, root);
      Some(Boolean(IsSquare(v.AsReal())))
  }

  /** `evaluate(formula, values)`: never fails; every error becomes `-inf`,
      and only an unbound name or a `/`, `%` or `**` can raise one. */
  function Evaluate(e: Expr, env: map<string, real>, root: (real, real) -> real): (r: Evaluation)
    ensures r.NegInf? <==> Eval(e, env, root).None?
    ensures r.Defined? ==> Eval(e, env, root) == Some(r.value)
    ensures r.NegInf? ==> !(FreeVars(e) <= env.Keys) || DividesOrPowers(e)
  {
    BoundAndTotalNeverFails(e, env, root);
    match Eval(e, env, root)
    case None => NegInf
    case Some(v) => Defined(v)
  }

  /** `_is_solution(values, conditions)`: every condition evaluates truthy. */
  function IsSolution(env: map<string, real>, conditions: seq<Expr>, root: (real, real) -> real): (b: bool)
    ensures b <==> forall i :: 0 <= i < |conditions| ==> Evaluate(conditions[i], env, root).Truthy()
  {
    if |conditions| == 0 then true
    else Evaluate(conditions[0], env, root).Truthy() && IsSolution(env, conditions[1..], root)
  }

  /** A condition whose evaluation fails does not reject: `-inf` is truthy,
      so such a condition is as good as absent. */
  lemma FailingConditionDoesNotReject(env: map<string, real>, c: Expr, rest: seq<Expr>, root: (real, real) -> real)
    requires Eval(c, env, root).None?
    ensures IsSolution(env, [c] + rest, root) == IsSolution(env, rest, root)
  {
    assert ([c] + rest)[1..] == rest;
  }

  /** The names an expression mentions. */
  function FreeVars(e: Expr): set<string> {
    match e
    case Num(_) => {}
    case Name(id) => {id}
    case Neg(a) => FreeVars(a)
    case Arith(_, a, b) => FreeVars(a) + FreeVars(b)
    case Compare(_, a, b) => FreeVars(a) + FreeVars(b)
    case And(a, b) => FreeVars(a) + FreeVars(b)
    case Or(a, b) => FreeVars(a) + FreeVars(b)
    case Not(a) => FreeVars(a)
    case IsIntegerCall(a) => FreeVars(a)
    case IsSquareCall(a) => FreeVars(a)
  }

  /** Two bindings agree on the names of `vars`. */
  predicate AgreeOn(vars: set<string>, env1: map<string, real>, env2: map<string, real>) {
    forall x :: x in vars ==> (x in env1 <==> x in env2) && (x in env1 ==> env1[x] == env2[x])
  }

  /** A condition's value depends only on the variables it mentions. */
  lemma {:induction false} EvalDependsOnlyOnFreeVars(e: Expr, env1: map<string, real>, env2: map<string, real>, root: (real, real) -> real)
    requires AgreeOn(FreeVars(e), env1, env2)
    ensures Eval(e, env1, root) == Eval(e, env2, root)
  {
    match e
    case Num(_) =>
    case Name(id) =>
      assert id in FreeVars(e);
    case Neg(a) =>
      EvalDependsOnlyOnFreeVars(a, env1, env2, root);
    case Arith(op, a, b) =>
      EvalDependsOnlyOnFreeVars(a, env1, env2, root);
      EvalDependsOnlyOnFreeVars(b, env1, env2, root);
      ArithCongruence(op, a, b, env1, env2, root);
    case Compare(_, a, b) =>
      EvalDependsOnlyOnFreeVars(a, env1, env2, root);
      EvalDependsOnlyOnFreeVars(b, env1, env2, root);
    case And(a, b) =>
      EvalDependsOnlyOnFreeVars(a, env1, env2, root);
      EvalDependsOnlyOnFreeVars(b, env1, env2, root);
    case Or(a, b) =>
      EvalDependsOnlyOnFreeVars(a, env1, env2, root);
      EvalDependsOnlyOnFreeVars(b, env1, env2, root);
    case Not(a) =>
      EvalDependsOnlyOnFreeVars(a, env1, env2, root);
    case IsIntegerCall(a) =>
      EvalDependsOnlyOnFreeVars(a, env1, env2, root);
    case IsSquareCall(a) =>
      EvalDependsOnlyOnFreeVars(a, env1, env2, root);
  }

  lemma ArithCongruence(op: ArithOp, a: Expr, b: Expr, env1: map<string, real>, env2: map<string, real>, root: (real, real) -> real)
    requires Eval(a, env1, root) == Eval(a, env2, root) && Eval(b, env1, root) == Eval(b, env2, root)
    ensures Eval(Arith(op, a, b), env1, root) == Eval(Arith(op, a, b), env2, root)
  {
  }

  /** With every mentioned name bound, only `/`, `%` and `**` can fail. */
  predicate DividesOrPowers(e: Expr) {
    match e
    case Num(_) => false
    case Name(_) => false
    case Neg(a) => DividesOrPowers(a)
    case Arith(op, a, b) => op == Div || op == Mod || op == Pow || DividesOrPowers(a) || DividesOrPowers(b)
    case Compare(_, a, b) => DividesOrPowers(a) || DividesOrPowers(b)
    case And(a, b) => DividesOrPowers(a) || DividesOrPowers(b)
    case Or(a, b) => DividesOrPowers(a) || DividesOrPowers(b)
    case Not(a) => DividesOrPowers(a)
    case IsIntegerCall(a) => DividesOrPowers(a)
    case IsSquareCall(a) => DividesOrPowers(a)
  }

  lemma {:induction false} BoundAndTotalNeverFails(e: Expr, env: map<string, real>, root: (real, real) -> real)
    ensures FreeVars(e) <= env.Keys && !DividesOrPowers(e) ==> Eval(e, env, root).Some?
  {
    if !(FreeVars(e) <= env.Keys && !DividesOrPowers(e)) {
      return;
    }
    match e
    case Num(_) =>
    case Name(id) =>
    case Neg(a) =>
      BoundAndTotalNeverFails(a, env, root);
    case Arith(_, a, b) =>
      BoundAndTotalNeverFails(a, env, root);
      BoundAndTotalNeverFails(b, env, root);
    case Compare(_, a, b) =>
      BoundAndTotalNeverFails(a, env, root);
      BoundAndTotalNeverFails(b, env, root);
    case And(a, b) =>
      BoundAndTotalNeverFails(a, env, root);
      BoundAndTotalNeverFails(b, env, root);
    case Or(a, b) =>
      BoundAndTotalNeverFails(a, env, root);
      BoundAndTotalNeverFails(b, env, root);
    case Not(a) =>
      BoundAndTotalNeverFails(a, env, root);
    case IsIntegerCall(a) =>
      BoundAndTotalNeverFails(a, env, root);
    case IsSquareCall(a) =>
      BoundAndTotalNeverFails(a, env, root);
  }

  /** `and` does not evaluate its right operand once the left one is falsy,
      so whatever the right operand is (even one that would fail) the
      result is the left operand's value; `or` likewise once it is truthy. */
  lemma ShortCircuit(l: Expr, r1: Expr, r2: Expr, env: map<string, real>, root: (real, real) -> real)
    requires Eval(l, env, root).Some?
    ensures !Eval(l, env, root).value.Truthy() ==> Eval(And(l, r1), env, root) == Eval(l, env, root) == Eval(And(l, r2), env, root)
    ensures Eval(l, env, root).value.Truthy() ==> Eval(Or(l, r1), env, root) == Eval(l, env, root) == Eval(Or(l, r2), env, root)
  {
  }

  // Expressions as they appear in the condition strings.

  function Zero(): Expr {
    Num(0.0)
  }

  /** `b*b - 4*a*c` */
  function Discriminant(): Expr {
    Arith(Sub, Arith(Mul, Name("b"), Name("b")), Arith(Mul, Arith(Mul, Num(4.0), Name("a")), Name("c")))
  }

  /** `(a != 0) and a.is_integer() and (b % a == 0)` */
  function IntegerRootOfIncompleteC(): Expr {
    And(And(Compare(Ne, Name("a"), Zero()), IsIntegerCall(Name("a"))),
        Compare(Eq, Arith(Mod, Name("b"), Name("a")), Zero()))
  }

  /** `(a != 0) and (c/a <= 0) and (c % a == 0) and is_square(a) and is_square(c)` */
  function IntegerRootsOfIncompleteB(): Expr {
    And(And(And(And(Compare(Ne, Name("a"), Zero()),
                    Compare(Le, Arith(Div, Name("c"), Name("a")), Zero())),
                Compare(Eq, Arith(Mod, Name("c"), Name("a")), Zero())),
            IsSquareCall(Name("a"))),
        IsSquareCall(Name("c")))
  }

  /** `(-b + (b*b - 4*a*c) ** 0.5) % (2*a) == 0`, or with `-` for `sign == Sub`. */
  function RootIsMultiple(sign: ArithOp): Expr {
    var twoA := Arith(Mul, Num(2.0), Name("a"));
    var sqrtD := Arith(Pow, Discriminant(), Num(0.5));
    Compare(Eq, Arith(Mod, Arith(sign, Neg(Name("b")), sqrtD), twoA), Zero())
  }

  /** `(a != 0) and (2*a).is_integer() and ((b*b - 4*a*c) >= 0)` */
  function RealRootsGuard(): Expr {
    And(And(Compare(Ne, Name("a"), Zero()), IsIntegerCall(Arith(Mul, Num(2.0), Name("a")))),
        Compare(Ge, Discriminant(), Zero()))
  }

  /** `(a != 0) and (2*a).is_integer() and ((b*b - 4*a*c) >= 0) and
      ((-b + ((b*b - 4*a*c)) ** 0.5) % (2*a) == 0) and
      ((-b - ((b*b - 4*a*c)) ** 0.5) % (2*a) == 0)` */
  function IntegerRootsOfComplete(): Expr {
    And(And(RealRootsGuard(), RootIsMultiple(Add)), RootIsMultiple(Sub))
  }

  /** One arithmetic step on operands that evaluated to numbers. */
  lemma EvalArithStep(op: ArithOp, l: Expr, r: Expr, env: map<string, real>, root: (real, real) -> real, x: real, y: real)
    requires Eval(l, env, root) == Some(Number(x)) && Eval(r, env, root) == Some(Number(y))
    ensures ApplyArith(op, x, y, root).Some? ==> Eval(Arith(op, l, r), env, root) == Some(Number(ApplyArith(op, x, y, root).value))
    ensures ApplyArith(op, x, y, root).None? ==> Eval(Arith(op, l, r), env, root).None?
  {
  }

  /** One comparison on operands that evaluated to numbers. */
  lemma EvalCompareStep(cmp: CmpOp, l: Expr, r: Expr, env: map<string, real>, root: (real, real) -> real, x: real, y: real)
    requires Eval(l, env, root) == Some(Number(x)) && Eval(r, env, root) == Some(Number(y))
    ensures Eval(Compare(cmp, l, r), env, root) == Some(Boolean(ApplyCompare(cmp, x, y)))
  {
  }

  /** The guard `a != 0` keeps `b % a` from dividing by zero, so the
      condition never yields `-inf`; it holds exactly for a non-zero
      integer `a` dividing `b` with a zero floored remainder. */
  lemma IntegerRootOfIncompleteCMeaning(a: real, b: real, root: (real, real) -> real)
    ensures var r := Evaluate(IntegerRootOfIncompleteC(), map["a" := a, "b" := b], root);
      r.Defined? && (r.Truthy() <==> a != 0.0 && IsInteger(a) && FlooredMod(b, a) == 0.0)
  {
    var env := map["a" := a, "b" := b];
    var nonZero := Compare(Ne, Name("a"), Zero());
    var guard := And(nonZero, IsIntegerCall(Name("a")));
    assert Eval(Name("a"), env, root) == Some(Number(a));
    assert Eval(Name("b"), env, root) == Some(Number(b));
    EvalCompareStep(Ne, Name("a"), Zero(), env, root, a, 0.0);
    assert Eval(guard, env, root) == Some(Boolean(a != 0.0 && IsInteger(a)));
    if a != 0.0 {
      EvalArithStep(Mod, Name("b"), Name("a"), env, root, b, a);
      EvalCompareStep(Eq, Arith(Mod, Name("b"), Name("a")), Zero(), env, root, FlooredMod(b, a), 0.0);
    }
  }

  /** The guards make the condition total; it holds exactly when its five
      conjuncts do. */
  lemma IntegerRootsOfIncompleteBMeaning(a: real, c: real, root: (real, real) -> real)
    ensures var r := Evaluate(IntegerRootsOfIncompleteB(), map["a" := a, "c" := c], root);
      && r.Defined?
      && (r.Truthy() <==> a != 0.0 && c / a <= 0.0 && FlooredMod(c, a) == 0.0 && IsSquare(a) && IsSquare(c))
  {
    var env := map["a" := a, "c" := c];
    var nonZero := Compare(Ne, Name("a"), Zero());
    var g1 := And(nonZero, Compare(Le, Arith(Div, Name("c"), Name("a")), Zero()));
    var g2 := And(g1, Compare(Eq, Arith(Mod, Name("c"), Name("a")), Zero()));
    var g3 := And(g2, IsSquareCall(Name("a")));
    assert Eval(Name("a"), env, root) == Some(Number(a));
    assert Eval(Name("c"), env, root) == Some(Number(c));
    EvalCompareStep(Ne, Name("a"), Zero(), env, root, a, 0.0);
    if a == 0.0 {
      assert Eval(g1, env, root) == Some(Boolean(false));
      assert Eval(g2, env, root) == Some(Boolean(false));
      assert Eval(g3, env, root) == Some(Boolean(false));
    } else {
      EvalArithStep(Div, Name("c"), Name("a"), env, root, c, a);
      EvalCompareStep(Le, Arith(Div, Name("c"), Name("a")), Zero(), env, root, c / a, 0.0);
      assert Eval(g1, env, root) == Some(Boolean(c / a <= 0.0));
      EvalArithStep(Mod, Name("c"), Name("a"), env, root, c, a);
      EvalCompareStep(Eq, Arith(Mod, Name("c"), Name("a")), Zero(), env, root, FlooredMod(c, a), 0.0);
      assert Eval(g2, env, root) == Some(Boolean(c / a <= 0.0 && FlooredMod(c, a) == 0.0));
      assert Eval(g3, env, root) == Some(Boolean(c / a <= 0.0 && FlooredMod(c, a) == 0.0 && IsSquare(a)));
      assert Eval(IsSquareCall(Name("c")), env, root) == Some(Boolean(IsSquare(c)));
      assert Eval(IntegerRootsOfIncompleteB(), env, root) == Some(Boolean(c / a <= 0.0 && FlooredMod(c, a) == 0.0 && IsSquare(a) && IsSquare(c)));
    }
  }

  lemma DiscriminantValue(a: real, b: real, c: real, root: (real, real) -> real)
    ensures Eval(Discriminant(), map["a" := a, "b" := b, "c" := c], root) == Some(Number(b * b - 4.0 * a * c))
  {
    var env := map["a" := a, "b" := b, "c" := c];
    assert Eval(Name("a"), env, root) == Some(Number(a));
    assert Eval(Name("b"), env, root) == Some(Number(b));
    assert Eval(Name("c"), env, root) == Some(Number(c));
    var bb := Arith(Mul, Name("b"), Name("b"));
    var fourAC := Arith(Mul, Arith(Mul, Num(4.0), Name("a")), Name("c"));
    ProductValue(Name("b"), Name("b"), env, root, b, b);
    var fourA := 4.0 * a;
    var product := fourA * c;
    ProductValue(Num(4.0), Name("a"), env, root, 4.0, a);
    ProductValue(Arith(Mul, Num(4.0), Name("a")), Name("c"), env, root, fourA, c);
    assert Eval(fourAC, env, root) == Some(Number(product));
    assert ApplyArith(Sub, b * b, product, root) == Some(b * b - product);
    EvalArithStep(Sub, bb, fourAC, env, root, b * b, product);
    assert Discriminant() == Arith(Sub, bb, fourAC);
    assert product == 4.0 * a * c;
  }

  lemma ProductValue(l: Expr, r: Expr, env: map<string, real>, root: (real, real) -> real, x: real, y: real)
    requires Eval(l, env, root) == Some(Number(x)) && Eval(r, env, root) == Some(Number(y))
    ensures Eval(Arith(Mul, l, r), env, root) == Some(Number(x * y))
  {
    assert ApplyArith(Mul, x, y, root) == Some(x * y);
    EvalArithStep(Mul, l, r, env, root, x, y);
  }

  lemma RealRootsGuardValue(a: real, b: real, c: real, root: (real, real) -> real)
    ensures Eval(RealRootsGuard(), map["a" := a, "b" := b, "c" := c], root)
      == Some(Boolean(a != 0.0 && IsInteger(2.0 * a) && b * b - 4.0 * a * c >= 0.0))
  {
    var env := map["a" := a, "b" := b, "c" := c];
    var d := b * b - 4.0 * a * c;
    var twoA := Arith(Mul, Num(2.0), Name("a"));
    var g1 := And(Compare(Ne, Name("a"), Zero()), IsIntegerCall(twoA));
    assert Eval(Name("a"), env, root) == Some(Number(a));
    DiscriminantValue(a, b, c, root);
    assert ApplyArith(Mul, 2.0, a, root) == Some(2.0 * a);
    EvalArithStep(Mul, Num(2.0), Name("a"), env, root, 2.0, a);
    EvalCompareStep(Ne, Name("a"), Zero(), env, root, a, 0.0);
    EvalCompareStep(Ge, Discriminant(), Zero(), env, root, d, 0.0);
    assert Eval(g1, env, root) == Some(Boolean(a != 0.0 && IsInteger(2.0 * a)));
  }

  /** With `a != 0` and a non-negative discriminant the root remainders are
      defined, whatever value the square root has. */
  lemma RootIsMultipleDefined(sign: ArithOp, a: real, b: real, c: real, root: (real, real) -> real)
    requires sign == Add || sign == Sub
    requires a != 0.0 && b * b - 4.0 * a * c >= 0.0
    ensures Eval(RootIsMultiple(sign), map["a" := a, "b" := b, "c" := c], root).Some?
  {
    var env := map["a" := a, "b" := b, "c" := c];
    var d := b * b - 4.0 * a * c;
    var twoA := Arith(Mul, Num(2.0), Name("a"));
    var sqrtD := Arith(Pow, Discriminant(), Num(0.5));
    assert Eval(Name("a"), env, root) == Some(Number(a));
    assert Eval(Name("b"), env, root) == Some(Number(b));
    DiscriminantValue(a, b, c, root);
    assert !IsInteger(0.5);
    var s := Power(d, 0.5, root).value;
    EvalArithStep(Pow, Discriminant(), Num(0.5), env, root, d, 0.5);
    assert Eval(Neg(Name("b")), env, root) == Some(Number(-b));
    var t := ApplyArith(sign, -b, s, root).value;
    EvalArithStep(sign, Neg(Name("b")), sqrtD, env, root, -b, s);
    assert ApplyArith(Mul, 2.0, a, root) == Some(2.0 * a);
    EvalArithStep(Mul, Num(2.0), Name("a"), env, root, 2.0, a);
    EvalArithStep(Mod, Arith(sign, Neg(Name("b")), sqrtD), twoA, env, root, t, 2.0 * a);
  }

  /** The square roots of the discriminant are only taken after the guard
      `b*b - 4*a*c >= 0` held and the remainders only after `a != 0`, so the
      condition never yields `-inf`, whatever the square root is; when it
      holds, `a` is non-zero and the discriminant is not negative. */
  lemma IntegerRootsOfCompleteIsGuarded(a: real, b: real, c: real, root: (real, real) -> real)
    ensures var r := Evaluate(IntegerRootsOfComplete(), map["a" := a, "b" := b, "c" := c], root);
      && r.Defined?
      && (r.Truthy() ==> a != 0.0 && IsInteger(2.0 * a) && b * b - 4.0 * a * c >= 0.0)
  {
    var env := map["a" := a, "b" := b, "c" := c];
    var guard := RealRootsGuard();
    var front := And(guard, RootIsMultiple(Add));
    RealRootsGuardValue(a, b, c, root);
    if a != 0.0 && IsInteger(2.0 * a) && b * b - 4.0 * a * c >= 0.0 {
      RootIsMultipleDefined(Add, a, b, c, root);
      RootIsMultipleDefined(Sub, a, b, c, root);
      assert Eval(front, env, root) == Eval(RootIsMultiple(Add), env, root);
      assert Eval(IntegerRootsOfComplete(), env, root).Some?;
    } else {
      assert Eval(front, env, root) == Eval(guard, env, root);
      assert Eval(IntegerRootsOfComplete(), env, root) == Eval(guard, env, root);
    }
  }

  /** `1/0` is caught and yields `-inf`. */
  lemma DivisionByZeroExample(root: (real, real) -> real)
    ensures Evaluate(Arith(Div, Num(1.0), Num(0.0)), map[], root) == NegInf
  {
  }

  /** `a and b` stops at a false `a` and never looks `b` up. */
  lemma ShortCircuitExample(root: (real, real) -> real)
    ensures Evaluate(And(Name("a"), Name("b")), map["a" := 0.0], root) == Defined(Number(0.0))
  {
  }

  /** A fractional power of a negative number is complex and yields `-inf`. */
  lemma NegativeBasePowerExample(root: (real, real) -> real)
    ensures Evaluate(Arith(Pow, Num(-1.0), Num(0.5)), map[], root) == NegInf
  {
    assert !IsInteger(0.5);
  }

  /** A name missing from the variables yields `-inf`. */
  lemma UnboundNameExample(root: (real, real) -> real)
    ensures Evaluate(Compare(Ne, Name("a"), Zero()), map[], root) == NegInf
  {
  }

  /** `is_square(16)` holds. */
  lemma IsSquareCallExample(root: (real, real) -> real)
    ensures Evaluate(IsSquareCall(Num(16.0)), map[], root) == Defined(Boolean(true))
  {
    IsSquareExamples();
  }
}
