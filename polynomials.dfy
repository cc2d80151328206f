/** The polynomial view of an expression that the coefficient extractors
    read: whether the expression is a polynomial and, when it is, its
    monomial-to-coefficient map. The view is an input of the model; how the
    expression library computes it is not part of it. */
module Polynomials {
  import opened Symbolic

  /** A monomial as its powers by ascending variable id
      (`Monomial::get_powers`). */
  type Monomial = seq<(Variable, nat)>

  /** Every power is positive and the variables ascend. */
  predicate Canonical(m: Monomial)
  {
    && (forall k :: 0 <= k < |m| ==> m[k].1 >= 1)
    && (forall k :: 0 < k < |m| ==> m[k - 1].0 < m[k].0)
  }

  /** The total degree: the sum of the powers. */
  function Degree(m: Monomial): nat
  {
    if |m| == 0 then 0 else Degree(m[..|m| - 1]) + m[|m| - 1].1
  }

  /** The constant monomial (`Monomial{}`). */
  const One: Monomial := []

  /** The monomial x_v (`Monomial{v}`). */
  function Single(v: Variable): Monomial
  {
    [(v, 1)]
  }

  /** A monomial-to-coefficient map, listed in its iteration order. */
  type Terms = seq<(Monomial, Expr)>

  /** Canonical monomials, each at most once. */
  predicate WellFormed(p: Terms)
  {
    && (forall k :: 0 <= k < |p| ==> Canonical(p[k].0))
    && (forall k, l :: 0 <= k < l < |p| ==> p[k].0 != p[l].0)
  }

  /** What `is_polynomial` and the `Polynomial` constructor report. */
  datatype View = NonPolynomial | Polynomial(terms: Terms)

  datatype Option<T> = None | Some(value: T)

  /** `map.find(m)`. */
  function Lookup(p: Terms, m: Monomial): Option<Expr>
  {
    if |p| == 0 then None
    else if p[|p| - 1].0 == m then Some(p[|p| - 1].1)
    else Lookup(p[..|p| - 1], m)
  }

  /** `TotalDegree`: the largest degree of a monomial, 0 for no monomial. */
  function TotalDegree(p: Terms): nat
  {
    if |p| == 0 then 0
    else
      var d := TotalDegree(p[..|p| - 1]);
      if Degree(p[|p| - 1].0) > d then Degree(p[|p| - 1].0) else d
  }

  // Values

  /** x^k. */
  function Power(x: real, k: nat): real
  {
    if k == 0 then 1.0 else Product(x, Power(x, k - 1))
  }

  /** The value of a monomial: the product of env(v)^k. */
  function MonomialValue(m: Monomial, env: Env): real
  {
    if |m| == 0 then 1.0
    else Product(MonomialValue(m[..|m| - 1], env), Power(env(m[|m| - 1].0), m[|m| - 1].1))
  }

  /** The value of a polynomial: the sum of coefficient times monomial. */
  function PolyValue(p: Terms, env: Env, I: Interp): real
  {
    if |p| == 0 then 0.0
    else PolyValue(p[..|p| - 1], env, I) + Product(Eval(p[|p| - 1].1, env, I), MonomialValue(p[|p| - 1].0, env))
  }

  /** The value of the first n terms is that of the first n - 1 plus the
      n-th term's, for a numeric coefficient c. */
  lemma PolyValueStep(p: Terms, n: nat, c: real, env: Env, I: Interp)
    requires 0 < n <= |p| && p[n - 1].1 == Const(c)
    ensures PolyValue(p[..n], env, I) == PolyValue(p[..n - 1], env, I) + Product(c, MonomialValue(p[n - 1].0, env))
  {
    assert p[..n][..n - 1] == p[..n - 1];
  }

  // Lookup

  /** A listed monomial is found with its coefficient. */
  lemma {:induction false} LookupAt(p: Terms, k: nat)
    requires WellFormed(p) && k < |p|
    ensures Lookup(p, p[k].0) == Some(p[k].1)
    decreases |p|
  {
    if k < |p| - 1 {
      LookupAt(p[..|p| - 1], k);
    }
  }

  /** A monomial that is not listed is not found. */
  lemma {:induction false} LookupAbsent(p: Terms, m: Monomial)
    requires forall k :: 0 <= k < |p| ==> p[k].0 != m
    ensures Lookup(p, m) == None
    decreases |p|
  {
    if |p| > 0 {
      LookupAbsent(p[..|p| - 1], m);
    }
  }

  /** Whatever is found is listed. */
  lemma {:induction false} LookupFound(p: Terms, m: Monomial) returns (k: nat)
    requires Lookup(p, m).Some?
    ensures k < |p| && p[k] == (m, Lookup(p, m).value)
    decreases |p|
  {
    if p[|p| - 1].0 == m {
      k := |p| - 1;
    } else {
      k := LookupFound(p[..|p| - 1], m);
    }
  }

  // Degrees

  /** The total degree is at most d exactly when every monomial's degree is. */
  lemma {:induction false} TotalDegreeBound(p: Terms, d: nat)
    ensures TotalDegree(p) <= d <==> forall k :: 0 <= k < |p| ==> Degree(p[k].0) <= d
    decreases |p|
  {
    if |p| > 0 {
      TotalDegreeBound(p[..|p| - 1], d);
      assert forall k :: 0 <= k < |p| - 1 ==> p[..|p| - 1][k] == p[k];
    }
  }

  lemma {:induction false} DegreeAtLeastLength(m: Monomial)
    requires Canonical(m)
    ensures Degree(m) >= |m|
    decreases |m|
  {
    if |m| > 0 {
      DegreeAtLeastLength(m[..|m| - 1]);
    }
  }

  /** A monomial of degree zero is the constant monomial. */
  lemma DegreeZero(m: Monomial)
    requires Canonical(m) && Degree(m) == 0
    ensures m == One
  {
    DegreeAtLeastLength(m);
  }

  /** A monomial of degree one is a single variable to the first power. */
  lemma DegreeOne(m: Monomial)
    requires Canonical(m) && Degree(m) == 1
    ensures m == Single(m[0].0)
  {
    DegreeAtLeastLength(m);
    assert |m| == 1;
    assert Degree(m) == Degree(m[..0]) + m[0].1;
  }

  /** A monomial of degree two is a square or a product of two distinct
      variables. */
  lemma DegreeTwo(m: Monomial)
    requires Canonical(m) && Degree(m) == 2
    ensures || (|m| == 1 && m[0].1 == 2)
            || (|m| == 2 && m[0].1 == 1 && m[1].1 == 1 && m[0].0 < m[1].0)
  {
    DegreeAtLeastLength(m);
    if |m| == 1 {
      assert Degree(m) == Degree(m[..0]) + m[0].1;
    } else {
      assert |m| == 2;
      assert Degree(m[..1]) == Degree(m[..1][..0]) + m[0].1;
    }
  }

  // Values of the low-degree monomials

  lemma PowerOne(x: real)
    ensures Power(x, 1) == x
  {
    assert Power(x, 0) == 1.0;
  }

  lemma PowerTwo(x: real)
    ensures Power(x, 2) == x * x
  {
    PowerOne(x);
  }

  lemma ValueOfSingle(v: Variable, env: Env)
    ensures MonomialValue(Single(v), env) == env(v)
  {
    assert Single(v)[..0] == [];
    PowerOne(env(v));
  }

  lemma ValueOfSquare(m: Monomial, env: Env)
    requires |m| == 1 && m[0].1 == 2
    ensures MonomialValue(m, env) == env(m[0].0) * env(m[0].0)
  {
    assert m[..0] == [];
    PowerTwo(env(m[0].0));
  }

  lemma ValueOfCross(m: Monomial, env: Env)
    requires |m| == 2 && m[0].1 == 1 && m[1].1 == 1
    ensures MonomialValue(m, env) == env(m[0].0) * env(m[1].0)
  {
    assert m[..1][..0] == [];
    PowerOne(env(m[0].0));
    PowerOne(env(m[1].0));
    assert MonomialValue(m[..1], env) == env(m[0].0);
  }
}
