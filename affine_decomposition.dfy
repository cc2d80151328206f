/** `DecomposeAffineExpression` against a variable-to-position map, and the
    `DecomposeAffineExpressions` overload that finds the variables itself:
    each expression becomes a row of coefficients and a constant term, and
    the number of nonzero coefficients is counted. */
module AffineDecomposition {
  import opened Results
  import opened Symbolic
  import opened Polynomials
  import opened Vectors
  import VI = VariableIndexer

  /** The numeric value of a coefficient (`get_constant_value`). */
  function Value(e: Expr): real
  {
    if e.Const? then e.c else 0.0
  }

  /** Every coefficient is a number. */
  predicate Numeric(p: Terms)
  {
    forall k :: 0 <= k < |p| ==> p[k].1.Const?
  }

  /** `coeffs(a) = c`, leaving the vector alone for a position it lacks. */
  function Assign(v: seq<real>, a: nat, c: real): (r: seq<real>)
    ensures |r| == |v|
  {
    if a < |v| then v[a := c] else v
  }

  /** What `DecomposeAffineExpression` produces: the coefficient row, the
      constant term and the count of nonzero coefficients. */
  datatype Row = Row(coeffs: seq<real>, constant: real, count: nat)

  /** The loop over the first `n` monomials, from a zeroed row. */
  function RowTerms(p: Terms, index: map<Variable, nat>, dim: nat, n: nat): (r: Result<Row>)
    requires n <= |p|
    ensures r.Ok? ==> |r.value.coeffs| == dim
    decreases n
  {
    if n == 0 then Ok(Row(ZeroVector(dim), 0.0, 0))
    else
      match RowTerms(p, index, dim, n - 1)
      case Err(e) => Err(e)
      case Ok(row) =>
        var m, c := p[n - 1].0, Value(p[n - 1].1);
        if Degree(m) > 1 then Err(NonLinear)
        else if Degree(m) == 1 then
          if m[0].0 !in index then Err(UnknownVariable)
          else Ok(Row(Assign(row.coeffs, index[m[0].0], c), row.constant, row.count + if c != 0.0 then 1 else 0))
        else Ok(row.(constant := c))
  }

  /** `DecomposeAffineExpression(e, map_var_to_index, coeffs, constant_term)`
      for an expression with the given polynomial view. */
  function AffineExpression(view: View, index: map<Variable, nat>, dim: nat): (r: Result<Row>)
    ensures r.Ok? ==> |r.value.coeffs| == dim
  {
    match view
    case NonPolynomial => Err(Error.NonPolynomial)
    case Polynomial(p) => RowTerms(p, index, dim, |p|)
  }

  // Conditions on the map

  /** Distinct variables have distinct positions. */
  predicate Injective(index: map<Variable, nat>)
  {
    forall u, v :: u in index && v in index && u != v ==> index[u] != index[v]
  }

  /** Every position is inside the row. */
  predicate Bounded(index: map<Variable, nat>, dim: nat)
  {
    forall v :: v in index ==> index[v] < dim
  }

  /** The point `x` gives each indexed variable its value under `env`. */
  predicate Matches(x: seq<real>, index: map<Variable, nat>, env: Env)
  {
    forall v :: v in index ==> index[v] < |x| && x[index[v]] == env(v)
  }

  /** The position a degree-one monomial writes to, -1 for no position. */
  function Target(m: Monomial, index: map<Variable, nat>): int
  {
    if |m| > 0 && m[0].0 in index then index[m[0].0] else -1
  }

  // When the row fails

  /** The row succeeds exactly when every monomial has degree at most one
      and the variable of each degree-one monomial has a position; it fails
      with NonLinear or UnknownVariable. */
  lemma {:induction false} RowTermsOk(p: Terms, index: map<Variable, nat>, dim: nat, n: nat)
    requires n <= |p|
    ensures RowTerms(p, index, dim, n).Ok? <==>
      forall k :: 0 <= k < n ==> Degree(p[k].0) <= 1 && (Degree(p[k].0) == 1 ==> |p[k].0| > 0 && p[k].0[0].0 in index)
    ensures RowTerms(p, index, dim, n).Err? ==> RowTerms(p, index, dim, n).error in {NonLinear, UnknownVariable}
    decreases n
  {
    if n > 0 {
      RowTermsOk(p, index, dim, n - 1);
    }
  }

  /** The whole expression succeeds exactly when it is a polynomial whose
      monomials meet the conditions of `RowTermsOk`. */
  lemma AffineExpressionOk(view: View, index: map<Variable, nat>, dim: nat)
    ensures view.NonPolynomial? ==> AffineExpression(view, index, dim) == Err(Error.NonPolynomial)
    ensures view.Polynomial? ==> var p := view.terms;
      (AffineExpression(view, index, dim).Ok? <==>
        forall k :: 0 <= k < |p| ==> Degree(p[k].0) <= 1 && (Degree(p[k].0) == 1 ==> |p[k].0| > 0 && p[k].0[0].0 in index))
  {
    if view.Polynomial? {
      RowTermsOk(view.terms, index, dim, |view.terms|);
    }
  }

  // What the row holds

  /** A position no monomial so far writes to still holds 0. */
  lemma {:induction false} RowTermsUnwritten(p: Terms, index: map<Variable, nat>, dim: nat, n: nat, a: nat)
    requires n <= |p| && RowTerms(p, index, dim, n).Ok? && a < dim
    requires forall k :: 0 <= k < n ==> Target(p[k].0, index) != a
    ensures RowTerms(p, index, dim, n).value.coeffs[a] == 0.0
    decreases n
  {
    if n > 0 {
      RowTermsUnwritten(p, index, dim, n - 1, a);
      var m := p[n - 1].0;
      var row := RowTerms(p, index, dim, n - 1).value;
      assert Target(m, index) != a;
      if Degree(m) == 1 {
        assert |m| > 0 && m[0].0 in index;
        assert index[m[0].0] != a;
        assert RowTerms(p, index, dim, n).value.coeffs == Assign(row.coeffs, index[m[0].0], Value(p[n - 1].1));
      } else {
        assert RowTerms(p, index, dim, n).value.coeffs == row.coeffs;
      }
    }
  }

  /** Each degree-one monomial's coefficient sits at the position of its
      variable, and the constant monomial's coefficient is the constant
      term. */
  lemma {:induction false} RowTermsEntries(p: Terms, index: map<Variable, nat>, dim: nat, n: nat, k: nat)
    requires WellFormed(p) && Injective(index) && Bounded(index, dim)
    requires k < n <= |p| && RowTerms(p, index, dim, n).Ok?
    ensures Degree(p[k].0) == 1 ==>
      && p[k].0 == Single(p[k].0[0].0) && p[k].0[0].0 in index
      && RowTerms(p, index, dim, n).value.coeffs[index[p[k].0[0].0]] == Value(p[k].1)
    ensures p[k].0 == One ==> RowTerms(p, index, dim, n).value.constant == Value(p[k].1)
    decreases n
  {
    RowTermsOk(p, index, dim, n);
    if Degree(p[k].0) == 1 {
      DegreeOne(p[k].0);
    }
    if k < n - 1 {
      RowTermsEntries(p, index, dim, n - 1, k);
      if Degree(p[n - 1].0) == 1 {
        FreshTarget(p, index, dim, n);
        assert Target(p[k].0, index) != Target(p[n - 1].0, index);
      } else {
        DegreeZero(p[n - 1].0);
        assert p[k].0 != p[n - 1].0;
      }
    }
  }

  /** Without the constant monomial so far the constant term is still 0. */
  lemma {:induction false} RowTermsNoConstant(p: Terms, index: map<Variable, nat>, dim: nat, n: nat)
    requires WellFormed(p) && n <= |p| && RowTerms(p, index, dim, n).Ok?
    requires forall k :: 0 <= k < n ==> p[k].0 != One
    ensures RowTerms(p, index, dim, n).value.constant == 0.0
    decreases n
  {
    if n > 0 {
      RowTermsNoConstant(p, index, dim, n - 1);
    }
  }

  /** The last monomial of x_v writes to a position nothing before wrote. */
  lemma FreshTarget(p: Terms, index: map<Variable, nat>, dim: nat, n: nat)
    requires WellFormed(p) && Injective(index) && 0 < n <= |p|
    requires RowTerms(p, index, dim, n).Ok?
    requires Degree(p[n - 1].0) == 1
    ensures forall k :: 0 <= k < n - 1 ==> Target(p[k].0, index) != Target(p[n - 1].0, index)
  {
    RowTermsOk(p, index, dim, n);
    DegreeOne(p[n - 1].0);
    forall k | 0 <= k < n - 1 ensures Target(p[k].0, index) != Target(p[n - 1].0, index) {
      if Degree(p[k].0) == 1 {
        DegreeOne(p[k].0);
        assert p[k].0 != p[n - 1].0;
      } else {
        DegreeZero(p[k].0);
      }
    }
  }

  /** The constant monomial comes at most once. */
  lemma FreshConstant(p: Terms, n: nat)
    requires WellFormed(p) && 0 < n <= |p| && p[n - 1].0 == One
    ensures forall k :: 0 <= k < n - 1 ==> p[k].0 != One
  {
  }

  /** The row's meaning, monomial by monomial: the value of the polynomial
      so far is coeffs . x + constant, where x gives each indexed variable
      its value, and count is the number of nonzero coefficients. */
  lemma {:induction false} RowTermsValue(p: Terms, index: map<Variable, nat>, dim: nat, n: nat,
                                         env: Env, I: Interp, x: seq<real>)
    requires WellFormed(p) && Numeric(p) && Injective(index) && Bounded(index, dim)
    requires n <= |p| && RowTerms(p, index, dim, n).Ok?
    requires |x| == dim && Matches(x, index, env)
    ensures PolyValue(p[..n], env, I) == Dot(RowTerms(p, index, dim, n).value.coeffs, x) + RowTerms(p, index, dim, n).value.constant
    ensures RowTerms(p, index, dim, n).value.count == Nonzeros(RowTerms(p, index, dim, n).value.coeffs)
    decreases n
  {
    if n == 0 {
      DotZero(dim, x);
      NonzerosOfZeros(dim);
    } else {
      RowTermsValue(p, index, dim, n - 1, env, I, x);
      if Degree(p[n - 1].0) == 1 {
        StepSingle(p, index, dim, n, env, I, x);
      } else {
        StepConstant(p, index, dim, n, env, I);
      }
    }
  }

  /** A monomial x_v adds c x_v to the value and sets a position that held
      0 to c. */
  lemma StepSingle(p: Terms, index: map<Variable, nat>, dim: nat, n: nat, env: Env, I: Interp, x: seq<real>)
    requires WellFormed(p) && Numeric(p) && Injective(index) && Bounded(index, dim)
    requires 0 < n <= |p| && RowTerms(p, index, dim, n).Ok? && Degree(p[n - 1].0) == 1
    requires |x| == dim && Matches(x, index, env)
    ensures var row, row' := RowTerms(p, index, dim, n - 1).value, RowTerms(p, index, dim, n).value;
      && PolyValue(p[..n], env, I) - PolyValue(p[..n - 1], env, I) == Dot(row'.coeffs, x) - Dot(row.coeffs, x)
      && row'.constant == row.constant
      && row'.count + Nonzeros(row.coeffs) == row.count + Nonzeros(row'.coeffs)
  {
    var row := RowTerms(p, index, dim, n - 1).value;
    var m, c := p[n - 1].0, p[n - 1].1.c;
    assert p[n - 1].1 == Const(c);
    PolyValueStep(p, n, c, env, I);
    DegreeOne(m);
    var v := m[0].0;
    FreshTarget(p, index, dim, n);
    RowTermsUnwritten(p, index, dim, n - 1, index[v]);
    DotUpdate(row.coeffs, x, index[v], c);
    NonzerosUpdate(row.coeffs, index[v], c);
    ValueOfSingle(v, env);
  }

  /** The constant monomial adds its coefficient to the value and sets the
      constant term, which held 0. */
  lemma StepConstant(p: Terms, index: map<Variable, nat>, dim: nat, n: nat, env: Env, I: Interp)
    requires WellFormed(p) && Numeric(p)
    requires 0 < n <= |p| && RowTerms(p, index, dim, n).Ok? && Degree(p[n - 1].0) != 1
    ensures var row, row' := RowTerms(p, index, dim, n - 1).value, RowTerms(p, index, dim, n).value;
      && PolyValue(p[..n], env, I) - PolyValue(p[..n - 1], env, I) == row'.constant - row.constant
      && row'.coeffs == row.coeffs && row'.count == row.count
  {
    var m, c := p[n - 1].0, p[n - 1].1.c;
    assert p[n - 1].1 == Const(c);
    PolyValueStep(p, n, c, env, I);
    assert Degree(m) == 0;
    DegreeZero(m);
    FreshConstant(p, n);
    RowTermsNoConstant(p, index, dim, n - 1);
  }

  /** `DecomposeAffineExpression`'s identity: e(x) = coeffs . x +
      constant_term, and it returns the number of nonzero coefficients. */
  lemma AffineExpressionValue(view: View, index: map<Variable, nat>, dim: nat, env: Env, I: Interp, x: seq<real>)
    requires view.Polynomial? && WellFormed(view.terms) && Numeric(view.terms)
    requires Injective(index) && Bounded(index, dim) && AffineExpression(view, index, dim).Ok?
    requires |x| == dim && Matches(x, index, env)
    ensures PolyValue(view.terms, env, I) ==
      Dot(AffineExpression(view, index, dim).value.coeffs, x) + AffineExpression(view, index, dim).value.constant
    ensures AffineExpression(view, index, dim).value.count == Nonzeros(AffineExpression(view, index, dim).value.coeffs)
  {
    var p := view.terms;
    RowTermsValue(p, index, dim, |p|, env, I, x);
    assert p[..|p|] == p;
  }

  // The implementation's loop

  lemma {:induction false} RowTermsStuck(p: Terms, index: map<Variable, nat>, dim: nat, k: nat, n: nat)
    requires k <= n <= |p| && RowTerms(p, index, dim, k).Err?
    ensures RowTerms(p, index, dim, n) == RowTerms(p, index, dim, k)
    decreases n
  {
    if k < n {
      RowTermsStuck(p, index, dim, k, n - 1);
    }
  }

  /** `DecomposeAffineExpression`: zeroes `coeffs`, then fills it and returns
      the constant term and the count; fails on a non-polynomial, a
      monomial of degree above one, or a variable missing from the map. */
  method DecomposeAffineExpression(view: View, index: map<Variable, nat>, coeffs: array<real>)
    returns (r: Result<(real, nat)>)
    requires coeffs.Length == |index| && Bounded(index, coeffs.Length)
    requires view.Polynomial? ==> Numeric(view.terms)
    modifies coeffs
    ensures r.Ok? <==> AffineExpression(view, index, coeffs.Length).Ok?
    ensures r.Err? ==> r.error == AffineExpression(view, index, coeffs.Length).error
    ensures r.Ok? ==>
      && coeffs[..] == AffineExpression(view, index, coeffs.Length).value.coeffs
      && r.value == (AffineExpression(view, index, coeffs.Length).value.constant,
                     AffineExpression(view, index, coeffs.Length).value.count)
  {
    var a := 0;
    while a < coeffs.Length
      invariant 0 <= a <= coeffs.Length
      invariant forall b :: 0 <= b < a ==> coeffs[b] == 0.0
    {
      coeffs[a] := 0.0;
      a := a + 1;
    }
    assert coeffs[..] == ZeroVector(coeffs.Length);
    var constant := 0.0;
    if view.NonPolynomial? {
      return Err(Error.NonPolynomial);
    }
    var p := view.terms;
    var count := 0;
    var k := 0;
    while k < |p|
      invariant 0 <= k <= |p|
      invariant RowTerms(p, index, coeffs.Length, k) == Ok(Row(coeffs[..], constant, count))
    {
      var m, c := p[k].0, p[k].1.c;
      if Degree(m) > 1 {
        RowTermsStuck(p, index, coeffs.Length, k + 1, |p|);
        return Err(NonLinear);
      } else if Degree(m) == 1 {
        if m[0].0 !in index {
          RowTermsStuck(p, index, coeffs.Length, k + 1, |p|);
          return Err(UnknownVariable);
        }
        coeffs[index[m[0].0]] := c;
        if c != 0.0 {
          count := count + 1;
        }
      } else {
        constant := c;
      }
      k := k + 1;
    }
    assert p[..|p|] == p;
    r := Ok((constant, count));
  }

  // All the expressions, over the variables they contain

  /** The rows of the first `n` expressions, or the first row's error. */
  function AffineRows(views: seq<View>, index: map<Variable, nat>, dim: nat, n: nat): (r: Result<seq<Row>>)
    requires n <= |views|
    ensures r.Ok? ==> |r.value| == n
    decreases n
  {
    if n == 0 then Ok([])
    else
      match AffineRows(views, index, dim, n - 1)
      case Err(e) => Err(e)
      case Ok(rows) =>
        match AffineExpression(views[n - 1], index, dim)
        case Err(e) => Err(e)
        case Ok(row) => Ok(rows + [row])
  }

  lemma {:induction false} AffineRowsMeaning(views: seq<View>, index: map<Variable, nat>, dim: nat, n: nat)
    requires n <= |views|
    ensures AffineRows(views, index, dim, n).Ok? <==> forall i :: 0 <= i < n ==> AffineExpression(views[i], index, dim).Ok?
    ensures AffineRows(views, index, dim, n).Ok? ==>
      forall i :: 0 <= i < n ==> AffineRows(views, index, dim, n).value[i] == AffineExpression(views[i], index, dim).value
    decreases n
  {
    if n > 0 {
      AffineRowsMeaning(views, index, dim, n - 1);
    }
  }

  lemma {:induction false} AffineRowsStuck(views: seq<View>, index: map<Variable, nat>, dim: nat, i: nat, n: nat)
    requires i <= n <= |views| && AffineRows(views, index, dim, i).Err?
    ensures AffineRows(views, index, dim, n) == AffineRows(views, index, dim, i)
    decreases n
  {
    if i < n {
      AffineRowsStuck(views, index, dim, i, n - 1);
    }
  }

  /** A row whose monomials mention only positioned variables can fail only
      for a degree above one. */
  lemma {:induction false} RowTermsKnown(p: Terms, index: map<Variable, nat>, dim: nat, n: nat)
    requires n <= |p|
    requires forall k, l :: 0 <= k < n && 0 <= l < |p[k].0| ==> p[k].0[l].0 in index
    ensures RowTerms(p, index, dim, n).Err? ==> RowTerms(p, index, dim, n).error == NonLinear
    decreases n
  {
    if n > 0 {
      RowTermsKnown(p, index, dim, n - 1);
    }
  }

  /** Rows whose monomials mention only positioned variables fail only for a
      non-polynomial entry or a degree above one. */
  lemma {:induction false} AffineRowsKnown(views: seq<View>, index: map<Variable, nat>, dim: nat, n: nat)
    requires n <= |views|
    requires forall i, k, l ::
      0 <= i < n && views[i].Polynomial? && 0 <= k < |views[i].terms| && 0 <= l < |views[i].terms[k].0| ==>
        views[i].terms[k].0[l].0 in index
    ensures AffineRows(views, index, dim, n).Err? ==> AffineRows(views, index, dim, n).error in {NonLinear, Error.NonPolynomial}
    decreases n
  {
    if n > 0 {
      AffineRowsKnown(views, index, dim, n - 1);
      var view := views[n - 1];
      if view.Polynomial? {
        RowTermsKnown(view.terms, index, dim, |view.terms|);
      }
    }
  }

  /** Each view is the polynomial of its own expression: its monomials
      mention only that expression's variables. */
  predicate ViewsOf(es: seq<Expr>, views: seq<View>)
    requires |views| == |es|
  {
    forall i, k, l ::
      0 <= i < |views| && views[i].Polynomial? && 0 <= k < |views[i].terms| && 0 <= l < |views[i].terms[k].0| ==>
        views[i].terms[k].0[l].0 in Vars(es[i])
  }

  /** With the variables taken from the expressions themselves, no row can
      fail with UnknownVariable. */
  lemma SystemKnown(es: seq<Expr>, views: seq<View>)
    requires |views| == |es| && ViewsOf(es, views)
    ensures var x := VI.ExtendAll(es, |es|);
      AffineRows(views, x.index, |x.vars|, |es|).Err? ==> AffineRows(views, x.index, |x.vars|, |es|).error != UnknownVariable
  {
    var x := VI.ExtendAll(es, |es|);
    forall i | 0 <= i < |es| ensures forall v :: v in Vars(es[i]) ==> v in x.index {
      VI.ExtendAllCovers(es, i);
    }
    AffineRowsKnown(views, x.index, |x.vars|, |es|);
  }

  /** `DecomposeAffineExpressions(v, A, b, vars)`'s identity: with vars the
      variables of all the expressions and x their values, every expression
      is row i of A times x plus b(i). */
  lemma SystemValue(es: seq<Expr>, views: seq<View>, env: Env, I: Interp)
    requires |views| == |es|
    requires forall i :: 0 <= i < |views| ==> views[i].Polynomial? && WellFormed(views[i].terms) && Numeric(views[i].terms)
    requires var x := VI.ExtendAll(es, |es|);
      AffineRows(views, x.index, |x.vars|, |views|).Ok?
    ensures var x := VI.ExtendAll(es, |es|);
      forall i :: 0 <= i < |views| ==>
        && AffineExpression(views[i], x.index, |x.vars|).Ok?
        && PolyValue(views[i].terms, env, I) ==
          Dot(AffineExpression(views[i], x.index, |x.vars|).value.coeffs, Point(x.vars, env))
          + AffineExpression(views[i], x.index, |x.vars|).value.constant
  {
    var x := VI.ExtendAll(es, |es|);
    VI.ExtendAllIndexed(es, |es|);
    AffineRowsMeaning(views, x.index, |x.vars|, |views|);
    var pt := Point(x.vars, env);
    assert Matches(pt, x.index, env);
    forall i | 0 <= i < |views|
      ensures AffineExpression(views[i], x.index, |x.vars|).Ok?
      ensures PolyValue(views[i].terms, env, I) ==
          Dot(AffineExpression(views[i], x.index, |x.vars|).value.coeffs, pt)
          + AffineExpression(views[i], x.index, |x.vars|).value.constant
    {
      AffineExpressionValue(views[i], x.index, |x.vars|, env, I, pt);
    }
  }

  /** The free-variable `DecomposeAffineExpressions(v, A, b, vars)`: lists
      the variables of all the expressions, then fills a fresh A and b row
      by row with `DecomposeAffineExpression`. */
  method DecomposeAffineExpressions(es: seq<Expr>, views: seq<View>)
    returns (r: Outcome, A: array2<real>, b: array<real>, vars: seq<Variable>)
    requires |views| == |es|
    requires forall i :: 0 <= i < |views| && views[i].Polynomial? ==> Numeric(views[i].terms)
    ensures fresh(A) && fresh(b)
    ensures vars == VI.ExtendAll(es, |es|).vars && vars == VI.Appended([], VI.Occurrences(es, |es|))
    ensures A.Length0 == |es| && A.Length1 == |vars| && b.Length == |es|
    ensures var x := VI.ExtendAll(es, |es|);
      r == if AffineRows(views, x.index, |vars|, |es|).Ok? then Pass else Fail(AffineRows(views, x.index, |vars|, |es|).error)
    ensures var x := VI.ExtendAll(es, |es|);
      r.Pass? ==> forall i :: 0 <= i < |es| ==>
        && AffineExpression(views[i], x.index, |vars|).Ok?
        && b[i] == AffineExpression(views[i], x.index, |vars|).value.constant
        && forall j :: 0 <= j < |vars| ==> A[i, j] == AffineExpression(views[i], x.index, |vars|).value.coeffs[j]
    ensures ViewsOf(es, views) ==> r != Fail(UnknownVariable)
  {
    var index;
    vars, index := VI.ExtractVariablesFromExpressions(es);
    VI.IndexedSize(vars, index);
    A := new real[|es|, |vars|]((_, _) => 0.0);
    b := new real[|es|](_ => 0.0);
    r := FillSystem(views, index, A, b);
    if ViewsOf(es, views) {
      SystemKnown(es, views);
    }
  }

  /** The loop of `DecomposeAffineExpressions` over the rows. */
  method FillSystem(views: seq<View>, index: map<Variable, nat>, A: array2<real>, b: array<real>) returns (r: Outcome)
    requires A.Length0 == |views| == b.Length && A.Length1 == |index| && Bounded(index, |index|)
    requires forall i :: 0 <= i < |views| && views[i].Polynomial? ==> Numeric(views[i].terms)
    modifies A, b
    ensures r == if AffineRows(views, index, |index|, |views|).Ok? then Pass else Fail(AffineRows(views, index, |index|, |views|).error)
    ensures r.Pass? ==> forall i :: 0 <= i < |views| ==>
      && AffineExpression(views[i], index, |index|).Ok?
      && b[i] == AffineExpression(views[i], index, |index|).value.constant
      && forall j :: 0 <= j < |index| ==> A[i, j] == AffineExpression(views[i], index, |index|).value.coeffs[j]
  {
    var Ai := new real[|index|];
    var i := 0;
    while i < |views|
      invariant 0 <= i <= |views| && AffineRows(views, index, |index|, i).Ok?
      invariant forall i' :: 0 <= i' < i ==>
        && AffineExpression(views[i'], index, |index|).Ok?
        && b[i'] == AffineExpression(views[i'], index, |index|).value.constant
        && forall j :: 0 <= j < |index| ==> A[i', j] == AffineExpression(views[i'], index, |index|).value.coeffs[j]
    {
      var o := SystemRow(views, index, i, Ai, A, b);
      if o.Fail? {
        AffineRowsStuck(views, index, |index|, i + 1, |views|);
        return o;
      }
      i := i + 1;
    }
    r := Pass;
  }

  /** One pass of the loop: row i of A and entry i of b, through the
      scratch row Ai. */
  method SystemRow(views: seq<View>, index: map<Variable, nat>, i: nat, Ai: array<real>, A: array2<real>, b: array<real>)
    returns (o: Outcome)
    requires i < |views| && i < A.Length0 && i < b.Length && Ai != b
    requires Ai.Length == A.Length1 == |index| && Bounded(index, Ai.Length)
    requires views[i].Polynomial? ==> Numeric(views[i].terms)
    modifies Ai, A, b
    ensures var row := AffineExpression(views[i], index, Ai.Length);
      && o == (if row.Ok? then Pass else Fail(row.error))
      && (forall i' :: 0 <= i' < b.Length && i' != i ==> b[i'] == old(b[i']))
      && (forall i', j :: 0 <= i' < A.Length0 && i' != i && 0 <= j < A.Length1 ==> A[i', j] == old(A[i', j]))
      && (row.Ok? ==> b[i] == row.value.constant && forall j :: 0 <= j < A.Length1 ==> A[i, j] == row.value.coeffs[j])
  {
    var row := DecomposeAffineExpression(views[i], index, Ai);
    if row.Err? {
      return Fail(row.error);
    }
    b[i] := row.value.0;
    CopyRow(Ai, A, i);
    o := Pass;
  }

  /** `A->row(i) = Ai`. */
  method CopyRow(Ai: array<real>, A: array2<real>, i: nat)
    requires i < A.Length0 && A.Length1 == Ai.Length
    modifies A
    ensures forall i', j :: 0 <= i' < A.Length0 && 0 <= j < A.Length1 ==>
      A[i', j] == if i' == i then Ai[j] else old(A[i', j])
  {
    var j := 0;
    while j < Ai.Length
      invariant 0 <= j <= Ai.Length
      invariant forall i', j' :: 0 <= i' < A.Length0 && 0 <= j' < A.Length1 ==>
        A[i', j'] == if i' == i && j' < j then Ai[j'] else old(A[i', j'])
    {
      A[i, j] := Ai[j];
      j := j + 1;
    }
  }
}
