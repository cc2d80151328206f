/** `DecomposeLinearExpressions` and `DecomposeAffineExpressions` over a
    given variable vector: row i of M holds the numeric coefficients of
    x_vars[0], ..., x_vars[n-1] in expression i (0 where a monomial is
    absent), and for the affine form v(i) holds its constant term. */
module LinearForms {
  import opened Results
  import opened Symbolic
  import opened Polynomials
  import opened Vectors
  import VariableIndexer

  /** `FindCoefficientAndFill`: the coefficient of `m`, 0 when `m` is absent;
      a coefficient that is not a number is an error. */
  function FindCoefficient(p: Terms, m: Monomial): Result<real>
  {
    match Lookup(p, m)
    case None => Ok(0.0)
    case Some(c) => if c.Const? then Ok(c.c) else Err(NonConstantCoefficient)
  }

  /** The coefficients of x_vars[0], ..., x_vars[n-1], or the first error. */
  function Coefficients(p: Terms, vars: seq<Variable>, n: nat): (r: Result<seq<real>>)
    requires n <= |vars|
    ensures r.Ok? ==> |r.value| == n
    decreases n
  {
    if n == 0 then Ok([])
    else
      match Coefficients(p, vars, n - 1)
      case Err(e) => Err(e)
      case Ok(row) =>
        match FindCoefficient(p, Single(vars[n - 1]))
        case Err(e) => Err(e)
        case Ok(c) => Ok(row + [c])
  }

  /** One row of `DecomposeLinearExpressions`. */
  function LinearRow(view: View, vars: seq<Variable>): (r: Result<seq<real>>)
    ensures r.Ok? ==> |r.value| == |vars|
  {
    match view
    case NonPolynomial => Err(Error.NonPolynomial)
    case Polynomial(p) =>
      if TotalDegree(p) > 1 then Err(NonLinear)
      else if Lookup(p, One).Some? then Err(ConstantInLinear)
      else Coefficients(p, vars, |vars|)
  }

  /** One row of `DecomposeAffineExpressions`: M's row and v's entry. */
  function AffineRow(view: View, vars: seq<Variable>): (r: Result<(seq<real>, real)>)
    ensures r.Ok? ==> |r.value.0| == |vars|
  {
    match view
    case NonPolynomial => Err(Error.NonPolynomial)
    case Polynomial(p) =>
      if TotalDegree(p) > 1 then Err(NonLinear)
      else
        match Coefficients(p, vars, |vars|)
        case Err(e) => Err(e)
        case Ok(row) =>
          match FindCoefficient(p, One)
          case Err(e) => Err(e)
          case Ok(c) => Ok((row, c))
  }

  /** The rows of the first `n` expressions, or the first row's error. */
  function LinearRows(views: seq<View>, vars: seq<Variable>, n: nat): (r: Result<seq<seq<real>>>)
    requires n <= |views|
    ensures r.Ok? ==> |r.value| == n
    decreases n
  {
    if n == 0 then Ok([])
    else
      match LinearRows(views, vars, n - 1)
      case Err(e) => Err(e)
      case Ok(rows) =>
        match LinearRow(views[n - 1], vars)
        case Err(e) => Err(e)
        case Ok(row) => Ok(rows + [row])
  }

  function AffineRows(views: seq<View>, vars: seq<Variable>, n: nat): (r: Result<seq<(seq<real>, real)>>)
    requires n <= |views|
    ensures r.Ok? ==> |r.value| == n
    decreases n
  {
    if n == 0 then Ok([])
    else
      match AffineRows(views, vars, n - 1)
      case Err(e) => Err(e)
      case Ok(rows) =>
        match AffineRow(views[n - 1], vars)
        case Err(e) => Err(e)
        case Ok(row) => Ok(rows + [row])
  }

  // What the rows hold

  /** The coefficient found is the listed one, or 0 for an unlisted
      monomial; a listed symbolic coefficient is the error. */
  lemma FindCoefficientMeaning(p: Terms, m: Monomial)
    requires WellFormed(p)
    ensures (forall k :: 0 <= k < |p| ==> p[k].0 != m) ==> FindCoefficient(p, m) == Ok(0.0)
    ensures forall k :: 0 <= k < |p| && p[k].0 == m ==>
      FindCoefficient(p, m) == if p[k].1.Const? then Ok(p[k].1.c) else Err(NonConstantCoefficient)
  {
    if forall k :: 0 <= k < |p| ==> p[k].0 != m {
      LookupAbsent(p, m);
    }
    forall k | 0 <= k < |p| && p[k].0 == m
      ensures FindCoefficient(p, m) == if p[k].1.Const? then Ok(p[k].1.c) else Err(NonConstantCoefficient)
    {
      LookupAt(p, k);
    }
  }

  /** The coefficient list succeeds exactly when every coefficient looked up
      is a number, and then holds those numbers in order. */
  lemma {:induction false} CoefficientsMeaning(p: Terms, vars: seq<Variable>, n: nat)
    requires n <= |vars|
    ensures Coefficients(p, vars, n).Ok? <==> forall j :: 0 <= j < n ==> FindCoefficient(p, Single(vars[j])).Ok?
    ensures Coefficients(p, vars, n).Ok? ==>
      forall j :: 0 <= j < n ==> Coefficients(p, vars, n).value[j] == FindCoefficient(p, Single(vars[j])).value
    ensures Coefficients(p, vars, n).Err? ==> Coefficients(p, vars, n).error == NonConstantCoefficient
    decreases n
  {
    if n > 0 {
      CoefficientsMeaning(p, vars, n - 1);
    }
  }

  /** The value of a coefficient that is a number, 0 otherwise. */
  function Numeric(p: Terms, m: Monomial): real
  {
    match Lookup(p, m)
    case Some(Const(c)) => c
    case _ => 0.0
  }

  /** The numeric coefficients of x_vars[j]. */
  function CoefficientRow(p: Terms, vars: seq<Variable>): (r: seq<real>)
    ensures |r| == |vars|
  {
    seq(|vars|, j requires 0 <= j < |vars| => Numeric(p, Single(vars[j])))
  }

  /** Every variable of every monomial is one of `vars`: the polynomial is
      taken with `vars` as its indeterminates. */
  predicate Over(p: Terms, vars: seq<Variable>)
  {
    forall k, l :: 0 <= k < |p| && 0 <= l < |p[k].0| ==> p[k].0[l].0 in vars
  }

  /** A polynomial of degree at most one with numeric coefficients is the
      affine function x -> CoefficientRow . x + constant term. */
  lemma {:induction false} AffineValue(p: Terms, vars: seq<Variable>, env: Env, I: Interp)
    requires WellFormed(p) && VariableIndexer.Distinct(vars) && Over(p, vars)
    requires forall k :: 0 <= k < |p| ==> Degree(p[k].0) <= 1 && p[k].1.Const?
    ensures PolyValue(p, env, I) == Dot(CoefficientRow(p, vars), Point(vars, env)) + Numeric(p, One)
    decreases |p|
  {
    if |p| > 0 {
      var n := |p| - 1;
      var q := p[..n];
      assert forall k :: 0 <= k < n ==> q[k] == p[k];
      AffineValue(q, vars, env, I);
      if Degree(p[n].0) == 0 {
        DegreeZero(p[n].0);
        LastConstant(p, vars, env, I);
      } else {
        DegreeOne(p[n].0);
        assert p[n].0[0].0 in vars;
        var j :| 0 <= j < |vars| && vars[j] == p[n].0[0].0;
        LastSingle(p, vars, env, I, j);
        var x := Point(vars, env);
        DotUpdate(CoefficientRow(q, vars), x, j, p[n].1.c);
        assert Dot(CoefficientRow(p, vars), x) == Dot(CoefficientRow(q, vars), x) + Product(p[n].1.c, x[j]);
      }
    } else {
      DotOfZeros(CoefficientRow(p, vars), Point(vars, env));
    }
  }

  /** Adding the constant monomial last adds its coefficient to the
      constant term and leaves the row alone. */
  lemma LastConstant(p: Terms, vars: seq<Variable>, env: Env, I: Interp)
    requires WellFormed(p) && |p| > 0 && p[|p| - 1].0 == One && p[|p| - 1].1.Const?
    ensures CoefficientRow(p, vars) == CoefficientRow(p[..|p| - 1], vars)
    ensures Numeric(p, One) == Numeric(p[..|p| - 1], One) + p[|p| - 1].1.c
    ensures PolyValue(p, env, I) == PolyValue(p[..|p| - 1], env, I) + p[|p| - 1].1.c
  {
    var q := p[..|p| - 1];
    assert forall k :: 0 <= k < |q| ==> q[k].0 != p[|p| - 1].0;
    LookupAbsent(q, One);
    assert p[|p| - 1].1 == Const(p[|p| - 1].1.c);
  }

  /** Adding x_vars[j] last sets entry j of the row, which was 0, and leaves
      the constant term alone. */
  lemma LastSingle(p: Terms, vars: seq<Variable>, env: Env, I: Interp, j: nat)
    requires WellFormed(p) && VariableIndexer.Distinct(vars) && j < |vars|
    requires |p| > 0 && p[|p| - 1].0 == Single(vars[j]) && p[|p| - 1].1.Const?
    ensures CoefficientRow(p[..|p| - 1], vars)[j] == 0.0
    ensures CoefficientRow(p, vars) == CoefficientRow(p[..|p| - 1], vars)[j := p[|p| - 1].1.c]
    ensures Numeric(p, One) == Numeric(p[..|p| - 1], One)
    ensures PolyValue(p, env, I) == PolyValue(p[..|p| - 1], env, I) + Product(p[|p| - 1].1.c, Point(vars, env)[j])
  {
    var q := p[..|p| - 1];
    assert forall k :: 0 <= k < |q| ==> q[k].0 != p[|p| - 1].0;
    LookupAbsent(q, Single(vars[j]));
    assert p[|p| - 1].1 == Const(p[|p| - 1].1.c);
    ValueOfSingle(vars[j], env);
  }

  /** A successful lookup of every variable's monomial leaves no symbolic
      coefficient on a degree-one monomial. */
  lemma NumericRow(p: Terms, vars: seq<Variable>)
    requires WellFormed(p) && Coefficients(p, vars, |vars|).Ok?
    ensures Coefficients(p, vars, |vars|).value == CoefficientRow(p, vars)
    ensures forall k, j :: 0 <= k < |p| && 0 <= j < |vars| && p[k].0 == Single(vars[j]) ==> p[k].1.Const?
  {
    CoefficientsMeaning(p, vars, |vars|);
    forall k, j | 0 <= k < |p| && 0 <= j < |vars| && p[k].0 == Single(vars[j]) ensures p[k].1.Const? {
      LookupAt(p, k);
    }
  }

  /** Every monomial of a polynomial of degree at most one over `vars` is
      the constant monomial or some x_vars[j]. */
  lemma LowDegreeShape(p: Terms, vars: seq<Variable>, k: nat) returns (j: nat)
    requires WellFormed(p) && Over(p, vars) && TotalDegree(p) <= 1 && k < |p|
    ensures p[k].0 == One || (j < |vars| && p[k].0 == Single(vars[j]))
  {
    TotalDegreeBound(p, 1);
    j := 0;
    if Degree(p[k].0) == 0 {
      DegreeZero(p[k].0);
    } else {
      DegreeOne(p[k].0);
      assert p[k].0[0].0 in vars;
      j :| 0 <= j < |vars| && vars[j] == p[k].0[0].0;
    }
  }

  /** The linear form's identity: row i of M reproduces expression i,
      f_i(x) = sum_j M(i, j) x_vars[j]. */
  lemma LinearRowValue(view: View, vars: seq<Variable>, env: Env, I: Interp)
    requires view.Polynomial? && WellFormed(view.terms) && Over(view.terms, vars)
    requires VariableIndexer.Distinct(vars) && LinearRow(view, vars).Ok?
    ensures PolyValue(view.terms, env, I) == Dot(LinearRow(view, vars).value, Point(vars, env))
  {
    var p := view.terms;
    NumericRow(p, vars);
    forall k | 0 <= k < |p| ensures Degree(p[k].0) <= 1 && p[k].1.Const? {
      var j := LowDegreeShape(p, vars, k);
      if p[k].0 == One {
        LookupAt(p, k);
        assert false;
      }
      TotalDegreeBound(p, 1);
    }
    AffineValue(p, vars, env, I);
  }

  /** The affine form's identity: f_i(x) = sum_j M(i, j) x_vars[j] + v(i). */
  lemma AffineRowValue(view: View, vars: seq<Variable>, env: Env, I: Interp)
    requires view.Polynomial? && WellFormed(view.terms) && Over(view.terms, vars)
    requires VariableIndexer.Distinct(vars) && AffineRow(view, vars).Ok?
    ensures PolyValue(view.terms, env, I) == Dot(AffineRow(view, vars).value.0, Point(vars, env)) + AffineRow(view, vars).value.1
  {
    var p := view.terms;
    NumericRow(p, vars);
    forall k | 0 <= k < |p| ensures Degree(p[k].0) <= 1 && p[k].1.Const? {
      var j := LowDegreeShape(p, vars, k);
      if p[k].0 == One {
        FindCoefficientMeaning(p, One);
      }
      TotalDegreeBound(p, 1);
    }
    AffineValue(p, vars, env, I);
  }

  /** When a row of the linear form fails, and with which error: a
      non-polynomial, a monomial of degree above one, a constant term, or a
      symbolic coefficient of some x_vars[j], checked in that order. */
  lemma LinearRowErrors(view: View, vars: seq<Variable>)
    requires view.Polynomial? ==> WellFormed(view.terms)
    ensures view.NonPolynomial? ==> LinearRow(view, vars) == Err(Error.NonPolynomial)
    ensures view.Polynomial? ==> var p := view.terms;
      && ((exists k :: 0 <= k < |p| && Degree(p[k].0) > 1) ==> LinearRow(view, vars) == Err(NonLinear))
      && ((forall k :: 0 <= k < |p| ==> Degree(p[k].0) <= 1) && (exists k :: 0 <= k < |p| && p[k].0 == One) ==>
            LinearRow(view, vars) == Err(ConstantInLinear))
      && (LinearRow(view, vars).Ok? <==>
            && (forall k :: 0 <= k < |p| ==> Degree(p[k].0) <= 1 && p[k].0 != One)
            && (forall k, j :: 0 <= k < |p| && 0 <= j < |vars| && p[k].0 == Single(vars[j]) ==> p[k].1.Const?))
  {
    if view.Polynomial? {
      var p := view.terms;
      TotalDegreeBound(p, 1);
      if exists k :: 0 <= k < |p| && p[k].0 == One {
        var k :| 0 <= k < |p| && p[k].0 == One;
        LookupAt(p, k);
      } else {
        LookupAbsent(p, One);
      }
      if LinearRow(view, vars).Ok? {
        NumericRow(p, vars);
      }
      if && (forall k :: 0 <= k < |p| ==> Degree(p[k].0) <= 1 && p[k].0 != One)
         && (forall k, j :: 0 <= k < |p| && 0 <= j < |vars| && p[k].0 == Single(vars[j]) ==> p[k].1.Const?) {
        CoefficientsMeaning(p, vars, |vars|);
        forall j | 0 <= j < |vars| ensures FindCoefficient(p, Single(vars[j])).Ok? {
          FindCoefficientMeaning(p, Single(vars[j]));
        }
      }
    }
  }

  // The rows together

  lemma LinearRowsNext(views: seq<View>, vars: seq<Variable>, i: nat)
    requires i < |views| && LinearRows(views, vars, i).Ok?
    ensures LinearRows(views, vars, i + 1) ==
      if LinearRow(views[i], vars).Err? then Err(LinearRow(views[i], vars).error)
      else Ok(LinearRows(views, vars, i).value + [LinearRow(views[i], vars).value])
  {
  }

  lemma {:induction false} LinearRowsStuck(views: seq<View>, vars: seq<Variable>, i: nat, n: nat)
    requires i <= n <= |views| && LinearRows(views, vars, i).Err?
    ensures LinearRows(views, vars, n) == LinearRows(views, vars, i)
    decreases n
  {
    if i < n {
      LinearRowsStuck(views, vars, i, n - 1);
    }
  }

  lemma AffineRowsNext(views: seq<View>, vars: seq<Variable>, i: nat)
    requires i < |views| && AffineRows(views, vars, i).Ok?
    ensures AffineRows(views, vars, i + 1) ==
      if AffineRow(views[i], vars).Err? then Err(AffineRow(views[i], vars).error)
      else Ok(AffineRows(views, vars, i).value + [AffineRow(views[i], vars).value])
  {
  }

  lemma {:induction false} AffineRowsStuck(views: seq<View>, vars: seq<Variable>, i: nat, n: nat)
    requires i <= n <= |views| && AffineRows(views, vars, i).Err?
    ensures AffineRows(views, vars, n) == AffineRows(views, vars, i)
    decreases n
  {
    if i < n {
      AffineRowsStuck(views, vars, i, n - 1);
    }
  }

  /** The matrix holds every expression's row exactly when every row
      succeeds. */
  lemma {:induction false} LinearRowsMeaning(views: seq<View>, vars: seq<Variable>, n: nat)
    requires n <= |views|
    ensures LinearRows(views, vars, n).Ok? <==> forall i :: 0 <= i < n ==> LinearRow(views[i], vars).Ok?
    ensures LinearRows(views, vars, n).Ok? ==>
      forall i :: 0 <= i < n ==> LinearRows(views, vars, n).value[i] == LinearRow(views[i], vars).value
    decreases n
  {
    if n > 0 {
      LinearRowsMeaning(views, vars, n - 1);
    }
  }

  lemma {:induction false} AffineRowsMeaning(views: seq<View>, vars: seq<Variable>, n: nat)
    requires n <= |views|
    ensures AffineRows(views, vars, n).Ok? <==> forall i :: 0 <= i < n ==> AffineRow(views[i], vars).Ok?
    ensures AffineRows(views, vars, n).Ok? ==>
      forall i :: 0 <= i < n ==> AffineRows(views, vars, n).value[i] == AffineRow(views[i], vars).value
    decreases n
  {
    if n > 0 {
      AffineRowsMeaning(views, vars, n - 1);
    }
  }

  // The implementation's loops

  /** The `FindCoefficientAndFill` loop over the variables for row i of M. */
  method FillRow(p: Terms, vars: seq<Variable>, M: array2<real>, i: nat) returns (r: Outcome)
    requires i < M.Length0 && M.Length1 == |vars|
    modifies M
    ensures r == if Coefficients(p, vars, |vars|).Ok? then Pass else Fail(Coefficients(p, vars, |vars|).error)
    ensures forall i', j :: 0 <= i' < M.Length0 && i' != i && 0 <= j < M.Length1 ==> M[i', j] == old(M[i', j])
    ensures r.Pass? ==> forall j :: 0 <= j < |vars| ==> M[i, j] == Coefficients(p, vars, |vars|).value[j]
  {
    var j := 0;
    while j < |vars|
      invariant 0 <= j <= |vars| && Coefficients(p, vars, j).Ok?
      invariant forall i', j' :: 0 <= i' < M.Length0 && i' != i && 0 <= j' < M.Length1 ==> M[i', j'] == old(M[i', j'])
      invariant forall j' :: 0 <= j' < j ==> M[i, j'] == Coefficients(p, vars, j).value[j']
    {
      var c := FindCoefficient(p, Single(vars[j]));
      if c.Err? {
        CoefficientsStuck(p, vars, j + 1, |vars|);
        return Fail(c.error);
      }
      M[i, j] := c.value;
      j := j + 1;
    }
    r := Pass;
  }

  lemma {:induction false} CoefficientsStuck(p: Terms, vars: seq<Variable>, j: nat, n: nat)
    requires j <= n <= |vars| && Coefficients(p, vars, j).Err?
    ensures Coefficients(p, vars, n) == Coefficients(p, vars, j)
    decreases n
  {
    if j < n {
      CoefficientsStuck(p, vars, j, n - 1);
    }
  }

  /** `DecomposeLinearExpressions(expressions, vars, M)`: fills M row by row,
      stopping at the first row that fails. */
  method DecomposeLinearExpressions(views: seq<View>, vars: seq<Variable>, M: array2<real>) returns (r: Outcome)
    requires M.Length0 == |views| && M.Length1 == |vars|
    modifies M
    ensures r == if LinearRows(views, vars, |views|).Ok? then Pass else Fail(LinearRows(views, vars, |views|).error)
    ensures r.Pass? ==> forall i :: 0 <= i < |views| ==>
      && LinearRow(views[i], vars).Ok?
      && forall j :: 0 <= j < |vars| ==> M[i, j] == LinearRow(views[i], vars).value[j]
  {
    var i := 0;
    while i < |views|
      invariant 0 <= i <= |views| && LinearRows(views, vars, i).Ok?
      invariant forall i' :: 0 <= i' < i ==>
        && LinearRow(views[i'], vars).Ok?
        && forall j :: 0 <= j < |vars| ==> M[i', j] == LinearRow(views[i'], vars).value[j]
    {
      LinearRowsNext(views, vars, i);
      var view := views[i];
      if view.NonPolynomial? {
        LinearRowsStuck(views, vars, i + 1, |views|);
        return Fail(Error.NonPolynomial);
      }
      var p := view.terms;
      if TotalDegree(p) > 1 {
        LinearRowsStuck(views, vars, i + 1, |views|);
        return Fail(NonLinear);
      }
      if Lookup(p, One).Some? {
        LinearRowsStuck(views, vars, i + 1, |views|);
        return Fail(ConstantInLinear);
      }
      var o := FillRow(p, vars, M, i);
      if o.Fail? {
        LinearRowsStuck(views, vars, i + 1, |views|);
        return o;
      }
      i := i + 1;
    }
    r := Pass;
  }

  /** `DecomposeAffineExpressions(expressions, vars, M, v)`: fills row i of M
      and v(i) for each expression, stopping at the first row that fails. */
  method DecomposeAffineExpressions(views: seq<View>, vars: seq<Variable>, M: array2<real>, v: array<real>)
    returns (r: Outcome)
    requires M.Length0 == |views| && M.Length1 == |vars| && v.Length == |views|
    modifies M, v
    ensures r == if AffineRows(views, vars, |views|).Ok? then Pass else Fail(AffineRows(views, vars, |views|).error)
    ensures r.Pass? ==> forall i :: 0 <= i < |views| ==>
      && AffineRow(views[i], vars).Ok?
      && v[i] == AffineRow(views[i], vars).value.1
      && forall j :: 0 <= j < |vars| ==> M[i, j] == AffineRow(views[i], vars).value.0[j]
  {
    var i := 0;
    while i < |views|
      invariant 0 <= i <= |views| && AffineRows(views, vars, i).Ok?
      invariant forall i' :: 0 <= i' < i ==>
        && AffineRow(views[i'], vars).Ok?
        && v[i'] == AffineRow(views[i'], vars).value.1
        && forall j :: 0 <= j < |vars| ==> M[i', j] == AffineRow(views[i'], vars).value.0[j]
    {
      AffineRowsNext(views, vars, i);
      var view := views[i];
      if view.NonPolynomial? {
        AffineRowsStuck(views, vars, i + 1, |views|);
        return Fail(Error.NonPolynomial);
      }
      var p := view.terms;
      if TotalDegree(p) > 1 {
        AffineRowsStuck(views, vars, i + 1, |views|);
        return Fail(NonLinear);
      }
      var o := FillRow(p, vars, M, i);
      if o.Fail? {
        AffineRowsStuck(views, vars, i + 1, |views|);
        return o;
      }
      var c := FindCoefficient(p, One);
      if c.Err? {
        AffineRowsStuck(views, vars, i + 1, |views|);
        return Fail(c.error);
      }
      v[i] := c.value;
      i := i + 1;
    }
    r := Pass;
  }
}
