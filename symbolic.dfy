/** Symbolic expressions as the decomposition routines see them: a closed set
    of node kinds, the variables a node references, and a real-valued meaning
    under an assignment of the variables and an interpretation of the opaque
    operators. The arithmetic helpers `Times` and `Plus` stand for the
    expression library's `operator*` and `operator+`. */
module Symbolic {

  /** A variable is identified by its id. */
  type Variable = nat

  /** The opaque, non-polynomial node kinds; all are handled by one rule. */
  datatype OpKind =
    | Division | Abs | Log | Exp | Sqrt
    | Sin | Cos | Tan | Asin | Acos | Atan | Atan2
    | Sinh | Cosh | Tanh
    | Min | Max | Ceil | Floor
    | IfThenElse
    | UninterpretedFunction(name: string)

  datatype Expr =
    | Var(v: Variable)
    | Const(c: real)
      // c0 + sum of c_i * e_i
    | Add(c0: real, terms: seq<(Expr, real)>)
      // c * product of base_i ^ exponent_i
    | Mul(c: real, factors: seq<(Expr, Expr)>)
    | Pow(base: Expr, exponent: Expr)
    | Opaque(kind: OpKind, args: seq<Expr>)

  /** An assignment of real values to the variables. */
  type Env = Variable -> real

  /** The meaning of `pow` and of every opaque operator. Any total choice is
      allowed: the factorization identities hold for all of them. */
  datatype Interp = Interp(power: (real, real) -> real, apply: (OpKind, seq<real>) -> real)

  /** The set of variables that `e` references (`Expression::GetVariables`). */
  function Vars(e: Expr): set<Variable>
    decreases e, 1
  {
    match e
    case Var(v) => {v}
    case Const(_) => {}
    case Add(_, terms) => TermVars(e, |terms|)
    case Mul(_, factors) => FactorVars(e, |factors|)
    case Pow(b, x) => Vars(b) + Vars(x)
    case Opaque(_, args) => ArgumentVars(e, |args|)
  }

  /** The variables of the first `n` terms of an addition. */
  function TermVars(e: Expr, n: nat): set<Variable>
    requires e.Add? && n <= |e.terms|
    decreases e, 0, n
  {
    if n == 0 then {} else TermVars(e, n - 1) + Vars(e.terms[n - 1].0)
  }

  /** The variables of the first `n` factors of a multiplication. */
  function FactorVars(e: Expr, n: nat): set<Variable>
    requires e.Mul? && n <= |e.factors|
    decreases e, 0, n
  {
    if n == 0 then {} else FactorVars(e, n - 1) + Vars(e.factors[n - 1].0) + Vars(e.factors[n - 1].1)
  }

  /** The variables of the first `n` arguments of an opaque node. */
  function ArgumentVars(e: Expr, n: nat): set<Variable>
    requires e.Opaque? && n <= |e.args|
    decreases e, 0, n
  {
    if n == 0 then {} else ArgumentVars(e, n - 1) + Vars(e.args[n - 1])
  }

  predicate IsZero(e: Expr) { e == Const(0.0) }

  predicate IsOne(e: Expr) { e == Const(1.0) }

  /** c * d. A product one of whose factors is a recursively defined value is
      written with it, so that equal factors give equal products by
      congruence alone. */
  function Product(c: real, d: real): real
  {
    c * d
  }

  /** The value of `e`. A multiplication factor whose exponent is the
      constant one is its base; any other factor is a power. */
  function Eval(e: Expr, env: Env, I: Interp): real
    decreases e, 1
  {
    match e
    case Var(v) => env(v)
    case Const(c) => c
    case Add(c0, terms) => c0 + TermsValue(e, |terms|, env, I)
    case Mul(c, factors) => Product(c, FactorsValue(e, |factors|, env, I))
    case Pow(b, x) => I.power(Eval(b, env, I), Eval(x, env, I))
    case Opaque(k, args) => I.apply(k, ArgumentValues(e, |args|, env, I))
  }

  /** sum of c_i * e_i over the first `n` terms of an addition. */
  function TermsValue(e: Expr, n: nat, env: Env, I: Interp): real
    requires e.Add? && n <= |e.terms|
    decreases e, 0, n
  {
    if n == 0 then 0.0
    else TermsValue(e, n - 1, env, I) + Product(e.terms[n - 1].1, Eval(e.terms[n - 1].0, env, I))
  }

  /** product of base_i ^ exponent_i over the first `n` factors of a
      multiplication. */
  function FactorsValue(e: Expr, n: nat, env: Env, I: Interp): real
    requires e.Mul? && n <= |e.factors|
    decreases e, 0, n
  {
    if n == 0 then 1.0
    else Product(FactorsValue(e, n - 1, env, I), FactorValue(e, n - 1, env, I))
  }

  /** The value of factor `k` of a multiplication: its base when the exponent
      is one, the power otherwise. */
  function FactorValue(e: Expr, k: nat, env: Env, I: Interp): real
    requires e.Mul? && k < |e.factors|
    decreases e, 0, k, 0
  {
    var base, exponent := e.factors[k].0, e.factors[k].1;
    if IsOne(exponent) then Eval(base, env, I) else I.power(Eval(base, env, I), Eval(exponent, env, I))
  }

  /** The values of the first `n` arguments of an opaque node. */
  function ArgumentValues(e: Expr, n: nat, env: Env, I: Interp): (r: seq<real>)
    requires e.Opaque? && n <= |e.args|
    decreases e, 0, n
  {
    if n == 0 then [] else ArgumentValues(e, n - 1, env, I) + [Eval(e.args[n - 1], env, I)]
  }

  /** `Vars` of the two-factor product and the sums that `Times` and `Plus` build. */
  lemma VarsOfProduct(a: Expr, b: Expr)
    ensures Vars(Mul(1.0, [(a, Const(1.0)), (b, Const(1.0))])) == Vars(a) + Vars(b)
  {
    var e := Mul(1.0, [(a, Const(1.0)), (b, Const(1.0))]);
    assert FactorVars(e, 1) == Vars(a);
  }

  lemma VarsOfSum(a: Expr, b: Expr)
    ensures Vars(Add(0.0, [(a, 1.0), (b, 1.0)])) == Vars(a) + Vars(b)
  {
    var e := Add(0.0, [(a, 1.0), (b, 1.0)]);
    assert TermVars(e, 1) == Vars(a);
  }

  lemma VarsOfScaled(c: real, a: Expr)
    ensures Vars(Add(c, [(a, 1.0)])) == Vars(a)
  {
    var e := Add(c, [(a, 1.0)]);
    assert TermVars(e, 1) == Vars(a);
  }

  lemma EvalOfProduct(a: Expr, b: Expr, env: Env, I: Interp)
    ensures Eval(Mul(1.0, [(a, Const(1.0)), (b, Const(1.0))]), env, I) == Product(Eval(a, env, I), Eval(b, env, I))
  {
    var e := Mul(1.0, [(a, Const(1.0)), (b, Const(1.0))]);
    assert FactorValue(e, 0, env, I) == Eval(a, env, I);
    assert FactorValue(e, 1, env, I) == Eval(b, env, I);
    assert FactorsValue(e, 1, env, I) == Eval(a, env, I);
  }

  lemma EvalOfSum(a: Expr, b: Expr, env: Env, I: Interp)
    ensures Eval(Add(0.0, [(a, 1.0), (b, 1.0)]), env, I) == Eval(a, env, I) + Eval(b, env, I)
  {
    var e := Add(0.0, [(a, 1.0), (b, 1.0)]);
    assert TermsValue(e, 1, env, I) == Eval(a, env, I);
  }

  lemma EvalOfScaled(c: real, a: Expr, env: Env, I: Interp)
    ensures Eval(Add(c, [(a, 1.0)]), env, I) == c + Eval(a, env, I)
  {
    var e := Add(c, [(a, 1.0)]);
    assert TermsValue(e, 1, env, I) == Eval(a, env, I);
  }

  /** The product of two expressions, with the simplifications the
      expression library applies to zeros, ones and constants. */
  function Times(a: Expr, b: Expr): Expr
  {
    if IsZero(a) || IsZero(b) then Const(0.0)
    else if IsOne(a) then b
    else if IsOne(b) then a
    else if a.Const? && b.Const? then Const(a.c * b.c)
    else Mul(1.0, [(a, Const(1.0)), (b, Const(1.0))])
  }

  /** The sum of two expressions, with the simplifications the expression
      library applies to zeros and constants. */
  function Plus(a: Expr, b: Expr): Expr
  {
    if IsZero(a) then b
    else if IsZero(b) then a
    else if a.Const? && b.Const? then Const(a.c + b.c)
    else if a.Const? then Add(a.c, [(b, 1.0)])
    else if b.Const? then Add(b.c, [(a, 1.0)])
    else Add(0.0, [(a, 1.0), (b, 1.0)])
  }

  /** The simplified product has the value of the product. */
  lemma TimesEval(a: Expr, b: Expr, env: Env, I: Interp)
    ensures Eval(Times(a, b), env, I) == Product(Eval(a, env, I), Eval(b, env, I))
  {
    EvalOfProduct(a, b, env, I);
  }

  /** The simplified sum has the value of the sum. */
  lemma PlusEval(a: Expr, b: Expr, env: Env, I: Interp)
    ensures Eval(Plus(a, b), env, I) == Eval(a, env, I) + Eval(b, env, I)
  {
    EvalOfSum(a, b, env, I);
    EvalOfScaled(if a.Const? then a.c else 0.0, b, env, I);
    EvalOfScaled(if b.Const? then b.c else 0.0, a, env, I);
  }

  /** A product references no variable its operands do not. */
  lemma TimesVars(a: Expr, b: Expr)
    ensures Vars(Times(a, b)) <= Vars(a) + Vars(b)
  {
    VarsOfProduct(a, b);
  }

  /** A sum references no variable its operands do not. */
  lemma PlusVars(a: Expr, b: Expr)
    ensures Vars(Plus(a, b)) <= Vars(a) + Vars(b)
  {
    VarsOfSum(a, b);
    VarsOfScaled(if a.Const? then a.c else 0.0, b);
    VarsOfScaled(if b.Const? then b.c else 0.0, a);
  }

  /** A least element of a nonempty set of ids. */
  lemma {:induction false} Least(s: set<Variable>) returns (m: Variable)
    requires s != {}
    ensures m in s && forall v :: v in s ==> m <= v
    decreases |s|
  {
    var x :| x in s;
    var rest := s - {x};
    if rest == {} {
      assert s == {x};
      m := x;
    } else {
      var k := Least(rest);
      m := if x < k then x else k;
      forall v | v in s ensures m <= v {
        if v != x { assert v in rest; }
      }
    }
  }

  lemma MinExists(s: set<Variable>)
    requires s != {}
    ensures exists m :: m in s && forall v :: v in s ==> m <= v
  {
    var m := Least(s);
  }

  function MinOf(s: set<Variable>): (m: Variable)
    requires s != {}
    ensures m in s && forall v :: v in s ==> m <= v
  {
    MinExists(s);
    var m :| m in s && forall v :: v in s ==> m <= v;
    m
  }

  /** The variables of a set in ascending id order: the order in which a
      `Variables` set is iterated. */
  function SortedVariables(s: set<Variable>): (r: seq<Variable>)
    ensures forall v :: v in r <==> v in s
    ensures forall i, j :: 0 <= i < j < |r| ==> r[i] < r[j]
    decreases |s|
  {
    if s == {} then []
    else
      var m := MinOf(s);
      var rest := SortedVariables(s - {m});
      assert forall i :: 0 <= i < |rest| ==> m < rest[i] by {
        forall i | 0 <= i < |rest| ensures m < rest[i] {
          assert rest[i] in s - {m};
        }
      }
      var r := [m] + rest;
      assert forall i, j :: 0 <= i < j < |r| ==> r[i] < r[j] by {
        forall i, j | 0 <= i < j < |r| ensures r[i] < r[j] {
          assert r[j] == rest[j - 1];
          if i > 0 { assert r[i] == rest[i - 1]; }
        }
      }
      assert forall v :: v in r <==> v in s by {
        forall v ensures v in r <==> v in s {
          assert v in r <==> v == m || v in rest;
        }
      }
      r
  }

  /** The variables of `e` in iteration order. */
  function GetVariables(e: Expr): (r: seq<Variable>)
    ensures forall v :: v in r <==> v in Vars(e)
    ensures forall i, j :: 0 <= i < j < |r| ==> r[i] < r[j]
  {
    SortedVariables(Vars(e))
  }
}
