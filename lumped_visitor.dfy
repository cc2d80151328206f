/** The visitor's recursive traversal as the loops the implementation runs:
    each method returns exactly the factorization that `LumpedParameters`
    defines, including which error is raised. */
module LumpedVisitor {
  import opened Results
  import opened Symbolic
  import opened Factorizations
  import LP = LumpedParameters

  /** Dispatch on the kind of the node (`Visit` / `VisitExpression`). */
  method Visit(e: Expr, theta: set<Variable>) returns (r: Result<Factorization>)
    ensures r == LP.Visit(e, theta)
    decreases e, 1
  {
    match e
    case Var(_) => r := Ok(LP.VisitVariable(e, theta));
    case Const(_) => r := Ok(LP.VisitConstant(e, theta));
    case Add(_, _) => r := VisitAddition(e, theta);
    case Mul(_, _) => r := VisitMultiplication(e, theta);
    case Pow(_, _) => r := LP.VisitPow(e, theta);
    case Opaque(_, _) => r := LP.VisitNonPolynomialTerm(e, theta);
  }

  /** Factors c0 + sum c_i e_i: w0 accumulates c0 + sum c_i w0_i while the
      pairs (c_i W_i[j], alpha_i[j]) are merged into a keyed table held as
      the two parallel sequences `w` and `alpha`. */
  method VisitAddition(e: Expr, theta: set<Variable>) returns (r: Result<Factorization>)
    requires e.Add?
    ensures r == LP.Visit(e, theta)
    decreases e, 0
  {
    LP.VisitOfAddition(e, theta);
    var w0 := Const(e.c0);
    var w: seq<Expr> := [];
    var alpha: seq<Expr> := [];
    var i := 0;
    while i < |e.terms|
      invariant 0 <= i <= |e.terms|
      invariant LP.AdditionPrefix(e, theta, i) == Ok(Factorization(w, alpha, w0))
    {
      var ei, ci := e.terms[i].0, e.terms[i].1;
      var sub := Visit(ei, theta);
      LP.AdditionPrefixNext(e, theta, i);
      if sub.Err? {
        LP.AdditionPrefixStuck(e, theta, i + 1, |e.terms|);
        return Err(sub.error);
      }
      var fi := sub.value;
      ghost var f := Factorization(w, alpha, w0);
      w0 := Plus(w0, Times(Const(ci), fi.w0));
      w, alpha := Merge(w, alpha, w0, Const(ci), fi.w, fi.alpha);
      assert Factorization(w, alpha, w0) == LP.AddTerm(f, ci, fi);
      i := i + 1;
    }
    r := Ok(Factorization(w, alpha, w0));
  }

  /** The inner loop of `VisitAddition`: merges the pairs (c W_i[j],
      alpha_i[j]) into the keyed table (`w`, `alpha`). */
  method Merge(w: seq<Expr>, alpha: seq<Expr>, w0: Expr, c: Expr, wi: seq<Expr>, alphai: seq<Expr>)
    returns (w': seq<Expr>, alpha': seq<Expr>)
    requires |w| == |alpha| && |wi| == |alphai|
    ensures Factorization(w', alpha', w0) == LP.EmplaceAll(Factorization(w, alpha, w0), Row(c, wi), alphai, |wi|)
  {
    ghost var start := Factorization(w, alpha, w0);
    ghost var keys := Row(c, wi);
    w', alpha' := w, alpha;
    var j := 0;
    while j < |wi|
      invariant 0 <= j <= |wi|
      invariant Factorization(w', alpha', w0) == LP.EmplaceAll(start, keys, alphai, j)
    {
      ghost var before := Factorization(w', alpha', w0);
      var key := Times(c, wi[j]);
      RowAt(c, wi, j);
      var p := IndexOf(w', key);
      if p < 0 {
        w' := w' + [key];
        alpha' := alpha' + [Plus(Const(0.0), alphai[j])];
        assert Factorization(w', alpha', w0) == LP.EmplaceTerm(before, key, alphai[j]);
      } else {
        alpha' := alpha'[p := Plus(alpha'[p], alphai[j])];
        assert Factorization(w', alpha', w0) == LP.EmplaceTerm(before, key, alphai[j]);
      }
      LP.EmplaceAllNext(start, keys, alphai, j);
      j := j + 1;
    }
  }

  /** Factors c * prod base_i^exponent_i by multiplying the running
      factorization, which starts as w0 = c, by each factor's in turn. */
  method VisitMultiplication(e: Expr, theta: set<Variable>) returns (r: Result<Factorization>)
    requires e.Mul?
    ensures r == LP.Visit(e, theta)
    decreases e, 0
  {
    LP.VisitOfMultiplication(e, theta);
    var f := Factorization([], [], Const(e.c));
    var i := 0;
    while i < |e.factors|
      invariant 0 <= i <= |e.factors|
      invariant LP.MultiplicationPrefix(e, theta, i) == Ok(f)
    {
      var base, exponent := e.factors[i].0, e.factors[i].1;
      var sub;
      if IsOne(exponent) {
        sub := Visit(base, theta);
      } else {
        sub := LP.VisitPow(Pow(base, exponent), theta);
      }
      assert sub == LP.VisitFactor(e, theta, i);
      LP.MultiplicationPrefixNext(e, theta, i);
      if sub.Err? {
        LP.MultiplicationPrefixStuck(e, theta, i + 1, |e.factors|);
        return Err(sub.error);
      }
      f := LP.SimpleMultiplication(f, sub.value);
      i := i + 1;
    }
    r := Ok(f);
  }
}
