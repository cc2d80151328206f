/** The visitor behind `DecomposeLumpedParameters`: it rewrites one
    expression e as W(n) * alpha(theta) + w0(n), where the parameters theta
    appear only in alpha and the other variables n only in W and w0. */
module LumpedParameters {
  import opened Results
  import opened Symbolic
  import opened Factorizations

  /** The triple for a node that references parameters only: W = [1],
      alpha = [e], w0 = 0. */
  function Lumped(e: Expr): Factorization
  {
    Factorization([Const(1.0)], [e], Const(0.0))
  }

  /** The triple for a node that references no parameter: all of it is w0. */
  function Free(e: Expr): Factorization
  {
    Factorization([], [], e)
  }

  /** A variable is a lumped parameter exactly when it is one of `theta`. */
  function VisitVariable(e: Expr, theta: set<Variable>): (r: Factorization)
    requires e.Var?
    ensures Separated(r, theta)
    ensures |r.w| == 1 <==> e.v in theta
    ensures |r.w| == 0 <==> e.v !in theta
  {
    if e.v in theta then Lumped(e) else Free(e)
  }

  /** A constant is all w0. */
  function VisitConstant(e: Expr, theta: set<Variable>): (r: Factorization)
    requires e.Const?
    ensures Separated(r, theta) && r.w == [] && r.w0 == e
  {
    Free(e)
  }

  /** A power is kept whole: lumped when its variables are all parameters,
      w0 when none is, and refused otherwise. */
  function VisitPow(e: Expr, theta: set<Variable>): (r: Result<Factorization>)
    requires e.Pow?
    ensures r.Ok? ==> Separated(r.value, theta)
    ensures r.Ok? <==> Vars(e) <= theta || Vars(e) !! theta
    ensures r == Err(UnimplementedFactorablePower) <==>
      !(Vars(e) <= theta) && !(Vars(e) !! theta) && e.exponent.Const?
    ensures r == Err(UnfactorableMixedTerm) <==>
      !(Vars(e) <= theta) && !(Vars(e) !! theta) && !e.exponent.Const?
  {
    var vars := Vars(e);
    if vars <= theta then Ok(Lumped(e))
    else if vars !! theta then Ok(Free(e))
    else if e.exponent.Const? then Err(UnimplementedFactorablePower)
    else Err(UnfactorableMixedTerm)
  }

  /** Every non-polynomial node: kept whole, and mixed ones are refused. */
  function VisitNonPolynomialTerm(e: Expr, theta: set<Variable>): (r: Result<Factorization>)
    ensures r.Ok? ==> Separated(r.value, theta)
    ensures r.Ok? <==> Vars(e) <= theta || Vars(e) !! theta
    ensures r.Err? ==> r.error == UnfactorableMixedTerm
  {
    var vars := Vars(e);
    if vars <= theta then Ok(Lumped(e))
    else if vars !! theta then Ok(Free(e))
    else Err(UnfactorableMixedTerm)
  }

  /** The `w_map.emplace(key, 0)` then `+= a` step: a new key is appended with
      coefficient 0 + a, an existing one has `a` added to its coefficient. */
  function EmplaceTerm(f: Factorization, key: Expr, a: Expr): (r: Factorization)
    requires Paired(f)
    ensures Paired(r) && r.w0 == f.w0
  {
    var p := IndexOf(f.w, key);
    if p < 0 then Factorization(f.w + [key], f.alpha + [Plus(Const(0.0), a)], f.w0)
    else Factorization(f.w, f.alpha[p := Plus(f.alpha[p], a)], f.w0)
  }

  /** The first `n` emplace steps of one summand, keyed by `keys`. */
  function EmplaceAll(f: Factorization, keys: seq<Expr>, alpha: seq<Expr>, n: nat): (r: Factorization)
    requires Paired(f) && |keys| == |alpha| && n <= |keys|
    ensures Paired(r) && r.w0 == f.w0
    decreases n
  {
    if n == 0 then f else EmplaceTerm(EmplaceAll(f, keys, alpha, n - 1), keys[n - 1], alpha[n - 1])
  }

  lemma EmplaceAllNext(f: Factorization, keys: seq<Expr>, alpha: seq<Expr>, j: nat)
    requires Paired(f) && |keys| == |alpha| && j < |keys|
    ensures EmplaceAll(f, keys, alpha, j + 1) == EmplaceTerm(EmplaceAll(f, keys, alpha, j), keys[j], alpha[j])
  {
  }

  /** One summand c * e_i of an addition, with e_i factored as `fi`: w0 gains
      c * w0_i, and every pair (W_i[j], alpha_i[j]) is merged under the key
      c * W_i[j]. */
  function AddTerm(f: Factorization, c: real, fi: Factorization): (r: Factorization)
    requires Paired(f) && Paired(fi)
    ensures Paired(r)
  {
    var g := f.(w0 := Plus(f.w0, Times(Const(c), fi.w0)));
    EmplaceAll(g, Row(Const(c), fi.w), fi.alpha, |fi.w|)
  }

  /** The product of two factorizations:
      (Wa alpha_a + w0a)(Wb alpha_b + w0b) = w0a w0b + sum_ij Wa_i Wb_j alpha_a_i alpha_b_j
      + sum_j w0a Wb_j alpha_b_j + sum_i w0b Wa_i alpha_a_i, where a block
      whose w0 is zero is dropped. */
  function SimpleMultiplication(a: Factorization, b: Factorization): (r: Factorization)
    requires Paired(a) && Paired(b)
    ensures Paired(r)
  {
    CrossPaired(a.w, a.alpha, b.w, b.alpha);
    Factorization(
      Cross(a.w, b.w)
        + (if IsZero(a.w0) then [] else Row(a.w0, b.w))
        + (if IsZero(b.w0) then [] else Row(b.w0, a.w)),
      Cross(a.alpha, b.alpha)
        + (if IsZero(a.w0) then [] else b.alpha)
        + (if IsZero(b.w0) then [] else a.alpha),
      Times(a.w0, b.w0))
  }

  /** The size of a product: |Wa| |Wb| cross terms, plus |Wb| terms when
      w0a is not zero and |Wa| terms when w0b is not zero. */
  lemma SimpleMultiplicationLength(a: Factorization, b: Factorization)
    requires Paired(a) && Paired(b)
    ensures |SimpleMultiplication(a, b).w| ==
      |a.w| * |b.w| + (if IsZero(a.w0) then 0 else |b.w|) + (if IsZero(b.w0) then 0 else |a.w|)
    ensures SimpleMultiplication(a, b).w0 == Times(a.w0, b.w0)
  {
    CrossLength(a.w, b.w);
  }

  /** Cross term (i, j) of a product pairs Wa_i Wb_j with alpha_a_i alpha_b_j. */
  lemma SimpleMultiplicationCrossTerm(a: Factorization, b: Factorization, i: nat, j: nat)
    requires Paired(a) && Paired(b) && i < |a.w| && j < |b.w|
    ensures i * |b.w| + j < |SimpleMultiplication(a, b).w|
    ensures SimpleMultiplication(a, b).w[i * |b.w| + j] == Times(a.w[i], b.w[j])
    ensures SimpleMultiplication(a, b).alpha[i * |b.w| + j] == Times(a.alpha[i], b.alpha[j])
  {
    var r := SimpleMultiplication(a, b);
    CrossAt(a.w, b.w, i, j);
    CrossAt(a.alpha, b.alpha, i, j);
    CrossLength(a.w, b.w);
    CrossPaired(a.w, a.alpha, b.w, b.alpha);
    var k := i * |b.w| + j;
    assert r.w[k] == Cross(a.w, b.w)[k];
    assert r.alpha[k] == Cross(a.alpha, b.alpha)[k];
  }

  /** After the |Wa| |Wb| cross terms come w0a Wb_j paired with alpha_b_j,
      when w0a is not zero. */
  lemma SimpleMultiplicationLeftBlock(a: Factorization, b: Factorization, j: nat)
    requires Paired(a) && Paired(b) && !IsZero(a.w0) && j < |b.w|
    ensures |a.w| * |b.w| + j < |SimpleMultiplication(a, b).w|
    ensures SimpleMultiplication(a, b).w[|a.w| * |b.w| + j] == Times(a.w0, b.w[j])
    ensures SimpleMultiplication(a, b).alpha[|a.w| * |b.w| + j] == b.alpha[j]
  {
    var r := SimpleMultiplication(a, b);
    CrossLength(a.w, b.w);
    CrossPaired(a.w, a.alpha, b.w, b.alpha);
    var k := |a.w| * |b.w| + j;
    assert r.w[k] == (Cross(a.w, b.w) + Row(a.w0, b.w))[k];
    assert r.alpha[k] == (Cross(a.alpha, b.alpha) + b.alpha)[k];
  }

  /** The last |Wa| terms are w0b Wa_i paired with alpha_a_i, when w0b is
      not zero. */
  lemma SimpleMultiplicationRightBlock(a: Factorization, b: Factorization, i: nat)
    requires Paired(a) && Paired(b) && !IsZero(b.w0) && i < |a.w|
    ensures |a.w| <= |SimpleMultiplication(a, b).w|
    ensures var r := SimpleMultiplication(a, b);
      r.w[|r.w| - |a.w| + i] == Times(b.w0, a.w[i]) && r.alpha[|r.w| - |a.w| + i] == a.alpha[i]
  {
  }

  /** The factorization of an expression (`Visit`), dispatched on its kind. */
  function Visit(e: Expr, theta: set<Variable>): (r: Result<Factorization>)
    ensures r.Ok? ==> Paired(r.value)
    decreases e, 2
  {
    match e
    case Var(_) => Ok(VisitVariable(e, theta))
    case Const(_) => Ok(VisitConstant(e, theta))
    case Add(_, terms) => AdditionPrefix(e, theta, |terms|)
    case Mul(_, factors) => MultiplicationPrefix(e, theta, |factors|)
    case Pow(_, _) => VisitPow(e, theta)
    case Opaque(_, _) => VisitNonPolynomialTerm(e, theta)
  }

  /** An addition c0 + sum c_i e_i, after its first `n` summands: w0 starts
      at c0 and the W/alpha pairs are merged by key. The first failing
      summand decides the error. */
  function AdditionPrefix(e: Expr, theta: set<Variable>, n: nat): (r: Result<Factorization>)
    requires e.Add? && n <= |e.terms|
    ensures r.Ok? ==> Paired(r.value)
    decreases e, 1, n
  {
    if n == 0 then Ok(Free(Const(e.c0)))
    else
      match AdditionPrefix(e, theta, n - 1)
      case Err(k) => Err(k)
      case Ok(f) =>
        match Visit(e.terms[n - 1].0, theta)
        case Err(k) => Err(k)
        case Ok(fi) =>
          Ok(AddTerm(f, e.terms[n - 1].1, fi))
  }

  /** The factor a multiplication multiplies by for base^exponent: the
      base's own factorization when the exponent is one, the power kept
      whole otherwise. */
  function VisitFactor(e: Expr, theta: set<Variable>, k: nat): (r: Result<Factorization>)
    requires e.Mul? && k < |e.factors|
    ensures r.Ok? ==> Paired(r.value)
    decreases e, 0, k
  {
    var base, exponent := e.factors[k].0, e.factors[k].1;
    if IsOne(exponent) then Visit(base, theta) else VisitPow(Pow(base, exponent), theta)
  }

  /** A multiplication c * prod base_i^exponent_i, after its first `n`
      factors: the product of the factorizations, starting from w0 = c. */
  function MultiplicationPrefix(e: Expr, theta: set<Variable>, n: nat): (r: Result<Factorization>)
    requires e.Mul? && n <= |e.factors|
    ensures r.Ok? ==> Paired(r.value)
    decreases e, 1, n
  {
    if n == 0 then Ok(Free(Const(e.c)))
    else
      match MultiplicationPrefix(e, theta, n - 1)
      case Err(k) => Err(k)
      case Ok(f) =>
        match VisitFactor(e, theta, n - 1)
        case Err(k) => Err(k)
        case Ok(g) =>
          Ok(SimpleMultiplication(f, g))
  }

  lemma VisitOfAddition(e: Expr, theta: set<Variable>)
    requires e.Add?
    ensures Visit(e, theta) == AdditionPrefix(e, theta, |e.terms|)
  {
  }

  lemma VisitOfMultiplication(e: Expr, theta: set<Variable>)
    requires e.Mul?
    ensures Visit(e, theta) == MultiplicationPrefix(e, theta, |e.factors|)
  {
  }

  /** One more summand is merged in, or fails. */
  lemma AdditionPrefixNext(e: Expr, theta: set<Variable>, i: nat)
    requires e.Add? && i < |e.terms| && AdditionPrefix(e, theta, i).Ok?
    ensures AdditionPrefix(e, theta, i + 1) ==
      if Visit(e.terms[i].0, theta).Err? then Err(Visit(e.terms[i].0, theta).error)
      else Ok(AddTerm(AdditionPrefix(e, theta, i).value, e.terms[i].1, Visit(e.terms[i].0, theta).value))
  {
  }

  /** One more factor multiplies in its factorization, or fails. */
  lemma MultiplicationPrefixNext(e: Expr, theta: set<Variable>, i: nat)
    requires e.Mul? && i < |e.factors| && MultiplicationPrefix(e, theta, i).Ok?
    ensures MultiplicationPrefix(e, theta, i + 1) ==
      if VisitFactor(e, theta, i).Err? then Err(VisitFactor(e, theta, i).error)
      else Ok(SimpleMultiplication(MultiplicationPrefix(e, theta, i).value, VisitFactor(e, theta, i).value))
  {
  }

  /** Once a summand fails, the addition fails with that error. */
  lemma {:induction false} AdditionPrefixStuck(e: Expr, theta: set<Variable>, i: nat, n: nat)
    requires e.Add? && i <= n <= |e.terms| && AdditionPrefix(e, theta, i).Err?
    ensures AdditionPrefix(e, theta, n) == AdditionPrefix(e, theta, i)
    decreases n
  {
    if i < n {
      AdditionPrefixStuck(e, theta, i, n - 1);
    }
  }

  /** Once a factor fails, the multiplication fails with that error. */
  lemma {:induction false} MultiplicationPrefixStuck(e: Expr, theta: set<Variable>, i: nat, n: nat)
    requires e.Mul? && i <= n <= |e.factors| && MultiplicationPrefix(e, theta, i).Err?
    ensures MultiplicationPrefix(e, theta, n) == MultiplicationPrefix(e, theta, i)
    decreases n
  {
    if i < n {
      MultiplicationPrefixStuck(e, theta, i, n - 1);
    }
  }

  // Separation

  lemma {:induction false} EmplaceAllSeparated(f: Factorization, keys: seq<Expr>, alpha: seq<Expr>, n: nat, theta: set<Variable>)
    requires Separated(f, theta) && |keys| == |alpha| && n <= |keys|
    requires AllFree(keys, theta) && AllParams(alpha, theta)
    ensures Separated(EmplaceAll(f, keys, alpha, n), theta)
    decreases n
  {
    if n > 0 {
      EmplaceAllSeparated(f, keys, alpha, n - 1, theta);
      var g := EmplaceAll(f, keys, alpha, n - 1);
      var a := alpha[n - 1];
      var p := IndexOf(g.w, keys[n - 1]);
      assert Vars(keys[n - 1]) !! theta;
      assert Vars(a) <= theta;
      if p < 0 {
        PlusVars(Const(0.0), a);
        assert AllParams(g.alpha + [Plus(Const(0.0), a)], theta) by {
          AppendParams(g.alpha, [Plus(Const(0.0), a)], theta);
        }
        AppendFree(g.w, [keys[n - 1]], theta);
      } else {
        PlusVars(g.alpha[p], a);
        assert AllParams(g.alpha[p := Plus(g.alpha[p], a)], theta);
      }
    }
  }

  lemma AddTermSeparated(f: Factorization, c: real, fi: Factorization, theta: set<Variable>)
    requires Separated(f, theta) && Separated(fi, theta)
    ensures Separated(AddTerm(f, c, fi), theta)
  {
    TimesVars(Const(c), fi.w0);
    PlusVars(f.w0, Times(Const(c), fi.w0));
    RowFree(Const(c), fi.w, theta);
    EmplaceAllSeparated(f.(w0 := Plus(f.w0, Times(Const(c), fi.w0))), Row(Const(c), fi.w), fi.alpha, |fi.w|, theta);
  }

  lemma SimpleMultiplicationSeparated(a: Factorization, b: Factorization, theta: set<Variable>)
    requires Separated(a, theta) && Separated(b, theta)
    ensures Separated(SimpleMultiplication(a, b), theta)
  {
    CrossPaired(a.w, a.alpha, b.w, b.alpha);
    CrossFree(a.w, b.w, theta);
    CrossParams(a.alpha, b.alpha, theta);
    RowFree(a.w0, b.w, theta);
    RowFree(b.w0, a.w, theta);
    var wa := if IsZero(a.w0) then [] else Row(a.w0, b.w);
    var wb := if IsZero(b.w0) then [] else Row(b.w0, a.w);
    var aa := if IsZero(a.w0) then [] else b.alpha;
    var ab := if IsZero(b.w0) then [] else a.alpha;
    AppendFree(Cross(a.w, b.w), wa, theta);
    AppendFree(Cross(a.w, b.w) + wa, wb, theta);
    AppendParams(Cross(a.alpha, b.alpha), aa, theta);
    AppendParams(Cross(a.alpha, b.alpha) + aa, ab, theta);
    TimesVars(a.w0, b.w0);
  }

  /** Mutual induction over the visitor: every successful result is separated. */
  lemma {:induction false} VisitSeparated(e: Expr, theta: set<Variable>)
    requires Visit(e, theta).Ok?
    ensures Separated(Visit(e, theta).value, theta)
    decreases e, 2
  {
    match e
    case Add(_, terms) => AdditionPrefixSeparated(e, theta, |terms|);
    case Mul(_, factors) => MultiplicationPrefixSeparated(e, theta, |factors|);
    case _ =>
  }

  lemma {:induction false} AdditionPrefixSeparated(e: Expr, theta: set<Variable>, n: nat)
    requires e.Add? && n <= |e.terms| && AdditionPrefix(e, theta, n).Ok?
    ensures Separated(AdditionPrefix(e, theta, n).value, theta)
    decreases e, 1, n
  {
    if n > 0 {
      AdditionPrefixSeparated(e, theta, n - 1);
      VisitSeparated(e.terms[n - 1].0, theta);
      AddTermSeparated(AdditionPrefix(e, theta, n - 1).value, e.terms[n - 1].1, Visit(e.terms[n - 1].0, theta).value, theta);
    }
  }

  lemma {:induction false} VisitFactorSeparated(e: Expr, theta: set<Variable>, k: nat)
    requires e.Mul? && k < |e.factors| && VisitFactor(e, theta, k).Ok?
    ensures Separated(VisitFactor(e, theta, k).value, theta)
    decreases e, 0, k
  {
    if IsOne(e.factors[k].1) {
      VisitSeparated(e.factors[k].0, theta);
    }
  }

  lemma {:induction false} MultiplicationPrefixSeparated(e: Expr, theta: set<Variable>, n: nat)
    requires e.Mul? && n <= |e.factors| && MultiplicationPrefix(e, theta, n).Ok?
    ensures Separated(MultiplicationPrefix(e, theta, n).value, theta)
    decreases e, 1, n
  {
    if n > 0 {
      MultiplicationPrefixSeparated(e, theta, n - 1);
      VisitFactorSeparated(e, theta, n - 1);
      SimpleMultiplicationSeparated(MultiplicationPrefix(e, theta, n - 1).value, VisitFactor(e, theta, n - 1).value, theta);
    }
  }

  // Merging by key

  /** Emplacing adds its key to the key set and keeps the keys distinct. */
  lemma EmplaceTermKeys(f: Factorization, key: Expr, a: Expr)
    requires Paired(f)
    ensures forall k :: k in EmplaceTerm(f, key, a).w <==> k in f.w || k == key
    ensures Distinct(f.w) ==> Distinct(EmplaceTerm(f, key, a).w)
    ensures |EmplaceTerm(f, key, a).w| == if key in f.w then |f.w| else |f.w| + 1
  {
  }

  lemma {:induction false} EmplaceAllKeys(f: Factorization, keys: seq<Expr>, alpha: seq<Expr>, n: nat)
    requires Paired(f) && |keys| == |alpha| && n <= |keys|
    ensures forall k :: k in EmplaceAll(f, keys, alpha, n).w <==> k in f.w || k in keys[..n]
    ensures Distinct(f.w) ==> Distinct(EmplaceAll(f, keys, alpha, n).w)
    decreases n
  {
    if n > 0 {
      EmplaceAllKeys(f, keys, alpha, n - 1);
      EmplaceTermKeys(EmplaceAll(f, keys, alpha, n - 1), keys[n - 1], alpha[n - 1]);
      assert keys[..n] == keys[..n - 1] + [keys[n - 1]];
    }
  }

  /** A summand c * e_i contributes exactly the keys c * W_i[j], and the
      keys stay distinct. */
  lemma AddTermKeys(f: Factorization, c: real, fi: Factorization)
    requires Paired(f) && Paired(fi)
    ensures forall k :: k in AddTerm(f, c, fi).w <==> k in f.w || k in Row(Const(c), fi.w)
    ensures Distinct(f.w) ==> Distinct(AddTerm(f, c, fi).w)
  {
    var keys := Row(Const(c), fi.w);
    EmplaceAllKeys(f.(w0 := Plus(f.w0, Times(Const(c), fi.w0))), keys, fi.alpha, |fi.w|);
    assert keys[..|fi.w|] == keys;
  }

  /** The W of a factored addition has no duplicate entry. */
  lemma {:induction false} AdditionPrefixDistinct(e: Expr, theta: set<Variable>, n: nat)
    requires e.Add? && n <= |e.terms| && AdditionPrefix(e, theta, n).Ok?
    ensures Distinct(AdditionPrefix(e, theta, n).value.w)
    decreases n
  {
    if n > 0 {
      AdditionPrefixDistinct(e, theta, n - 1);
      AddTermKeys(AdditionPrefix(e, theta, n - 1).value, e.terms[n - 1].1, Visit(e.terms[n - 1].0, theta).value);
    }
  }

  /** The alpha merged under `key`, or 0 when `key` is not in W: the
      lookup `w_map[key]` with `emplace(key, 0)` as its default. */
  function Coefficient(f: Factorization, key: Expr): Expr
    requires Paired(f)
  {
    var p := IndexOf(f.w, key);
    if p < 0 then Const(0.0) else f.alpha[p]
  }

  /** Emplacing adds `a` to the coefficient of its key, starting from 0 for a
      new key, and leaves the other keys' coefficients alone. */
  lemma EmplaceTermCoefficient(f: Factorization, key: Expr, a: Expr, k: Expr)
    requires Paired(f)
    ensures Coefficient(EmplaceTerm(f, key, a), k) ==
      if k == key then Plus(Coefficient(f, k), a) else Coefficient(f, k)
  {
    IndexOfPush(f.w, key, k);
  }

  lemma EmplaceAllCoefficientNext(f: Factorization, keys: seq<Expr>, alpha: seq<Expr>, n: nat, k: Expr, start: Expr)
    requires Paired(f) && |keys| == |alpha| && 0 < n <= |keys|
    requires Coefficient(EmplaceAll(f, keys, alpha, n - 1), k) == Gather(start, keys, alpha, k, n - 1)
    ensures Coefficient(EmplaceAll(f, keys, alpha, n), k) == Gather(start, keys, alpha, k, n)
  {
    EmplaceTermCoefficient(EmplaceAll(f, keys, alpha, n - 1), keys[n - 1], alpha[n - 1], k);
  }

  /** After n emplace steps the coefficient of k is its old one plus, in
      order, the alpha of every step keyed by k. */
  lemma {:induction false} EmplaceAllCoefficient(f: Factorization, keys: seq<Expr>, alpha: seq<Expr>, n: nat)
    requires Paired(f) && |keys| == |alpha| && n <= |keys|
    ensures forall k :: Coefficient(EmplaceAll(f, keys, alpha, n), k) == Gather(Coefficient(f, k), keys, alpha, k, n)
    decreases n
  {
    if n > 0 {
      EmplaceAllCoefficient(f, keys, alpha, n - 1);
      forall k ensures Coefficient(EmplaceAll(f, keys, alpha, n), k) == Gather(Coefficient(f, k), keys, alpha, k, n) {
        EmplaceAllCoefficientNext(f, keys, alpha, n, k, Coefficient(f, k));
      }
    }
  }

  /** A summand c * e_i adds to the alpha of key k the alpha of every pair
      of e_i whose scaled entry c * W_i[j] is k; a factored addition starts
      with no pair. */
  lemma AdditionPrefixCoefficient(e: Expr, theta: set<Variable>, n: nat, k: Expr)
    requires e.Add? && n <= |e.terms| && AdditionPrefix(e, theta, n).Ok?
    ensures n == 0 ==> Coefficient(AdditionPrefix(e, theta, n).value, k) == Const(0.0)
    ensures n > 0 ==> AdditionPrefix(e, theta, n - 1).Ok? && Visit(e.terms[n - 1].0, theta).Ok?
    ensures n > 0 ==>
      var f := AdditionPrefix(e, theta, n - 1).value;
      var fi := Visit(e.terms[n - 1].0, theta).value;
      Coefficient(AdditionPrefix(e, theta, n).value, k) ==
        Gather(Coefficient(f, k), Row(Const(e.terms[n - 1].1), fi.w), fi.alpha, k, |fi.w|)
  {
    if n > 0 {
      var f := AdditionPrefix(e, theta, n - 1).value;
      var fi := Visit(e.terms[n - 1].0, theta).value;
      var c := e.terms[n - 1].1;
      var g := f.(w0 := Plus(f.w0, Times(Const(c), fi.w0)));
      EmplaceAllCoefficient(g, Row(Const(c), fi.w), fi.alpha, |fi.w|);
      assert Coefficient(g, k) == Coefficient(f, k);
    }
  }

  // Values

  lemma LumpedValue(e: Expr, val: Expr -> real)
    requires Constants(val)
    ensures Value(Lumped(e), val) == val(e)
  {
    DotPush([], [], Const(1.0), e, val);
  }

  lemma FreeValue(e: Expr, val: Expr -> real)
    ensures Value(Free(e), val) == val(e)
  {
  }

  /** Multiplication distributes over the coefficient sum of a merged key. */
  lemma TermPlus(k: Expr, x: Expr, a: Expr, val: Expr -> real)
    requires Additive(val)
    ensures Term(k, Plus(x, a), val) == Term(k, x, val) + Term(k, a, val)
  {
  }

  /** Merging one pair adds its product, whether the key is new or not. */
  lemma EmplaceTermValue(f: Factorization, key: Expr, a: Expr, val: Expr -> real)
    requires Paired(f) && Additive(val)
    ensures var r := EmplaceTerm(f, key, a);
      Dot(r.w, r.alpha, val) == Dot(f.w, f.alpha, val) + Term(key, a, val)
  {
    var p := IndexOf(f.w, key);
    if p < 0 {
      assert Plus(Const(0.0), a) == a;
      DotPush(f.w, f.alpha, key, a, val);
    } else {
      assert f.w[p := f.w[p]] == f.w;
      DotUpdate(f.w, f.alpha, p, f.w[p], Plus(f.alpha[p], a), val);
      TermPlus(f.w[p], f.alpha[p], a, val);
    }
  }

  lemma {:induction false} EmplaceAllValue(f: Factorization, keys: seq<Expr>, alpha: seq<Expr>, n: nat, val: Expr -> real)
    requires Paired(f) && |keys| == |alpha| && n <= |keys| && Additive(val)
    ensures var r := EmplaceAll(f, keys, alpha, n);
      Dot(r.w, r.alpha, val) == Dot(f.w, f.alpha, val) + Dot(keys[..n], alpha[..n], val)
    decreases n
  {
    if n > 0 {
      var g := EmplaceAll(f, keys, alpha, n - 1);
      EmplaceAllValue(f, keys, alpha, n - 1, val);
      EmplaceTermValue(g, keys[n - 1], alpha[n - 1], val);
      DotPrefix(keys, alpha, n, val);
    }
  }

  lemma Distribute(c: real, x: real, y: real, s: real)
    requires s == x + y
    ensures Product(c, s) == Product(c, x) + Product(c, y)
  {
  }

  /** A summand c * e_i adds c times the value of its factorization. */
  lemma AddTermValue(f: Factorization, c: real, fi: Factorization, val: Expr -> real)
    requires Paired(f) && Paired(fi) && Arithmetic(val)
    ensures Value(AddTerm(f, c, fi), val) == Value(f, val) + Product(c, Value(fi, val))
  {
    var g := f.(w0 := Plus(f.w0, Times(Const(c), fi.w0)));
    var keys := Row(Const(c), fi.w);
    EmplaceAllValue(g, keys, fi.alpha, |fi.w|, val);
    assert keys[..|fi.w|] == keys && fi.alpha[..|fi.w|] == fi.alpha;
    DotScaled(Const(c), fi.w, fi.alpha, val);
    Distribute(c, Dot(fi.w, fi.alpha, val), val(fi.w0), Value(fi, val));
  }

  /** A block of W scaled by `x` and dropped when `x` is zero is worth
      val(x) times the block. */
  lemma BlockValue(x: Expr, w: seq<Expr>, alpha: seq<Expr>, val: Expr -> real)
    requires |w| == |alpha| && Multiplicative(val) && Constants(val)
    ensures var bw := if IsZero(x) then [] else Row(x, w);
      var ba := if IsZero(x) then [] else alpha;
      |bw| == |ba| && Dot(bw, ba, val) == Product(val(x), Dot(w, alpha, val))
  {
    if !IsZero(x) {
      DotScaled(x, w, alpha, val);
    }
  }

  lemma ExpandProduct(l: real, x: real, a: real, b: real, w: real, da: real, va: real, db: real, vb: real, pa: real, pb: real)
    requires l == x + a + b + w
    requires x == Product(db, da) && a == Product(va, db) && b == Product(vb, da) && w == Product(va, vb)
    requires pa == da + va && pb == db + vb
    ensures l == Product(pa, pb)
  {
  }

  /** The W/alpha pairs of a product are the three blocks in turn. */
  lemma SimpleMultiplicationDot(a: Factorization, b: Factorization, val: Expr -> real)
    requires Paired(a) && Paired(b)
    ensures Paired(SimpleMultiplication(a, b))
    ensures var r := SimpleMultiplication(a, b);
      Dot(r.w, r.alpha, val) ==
        Dot(Cross(a.w, b.w), Cross(a.alpha, b.alpha), val)
        + Dot(if IsZero(a.w0) then [] else Row(a.w0, b.w), if IsZero(a.w0) then [] else b.alpha, val)
        + Dot(if IsZero(b.w0) then [] else Row(b.w0, a.w), if IsZero(b.w0) then [] else a.alpha, val)
  {
    var cw, ca := Cross(a.w, b.w), Cross(a.alpha, b.alpha);
    var aw, aa := if IsZero(a.w0) then [] else Row(a.w0, b.w), if IsZero(a.w0) then [] else b.alpha;
    var bw, ba := if IsZero(b.w0) then [] else Row(b.w0, a.w), if IsZero(b.w0) then [] else a.alpha;
    CrossPaired(a.w, a.alpha, b.w, b.alpha);
    DotAppend(cw, ca, aw, aa, val);
    DotAppend(cw + aw, ca + aa, bw, ba, val);
  }

  /** The product rule: the factorization of a product is worth the product
      of the values. */
  lemma SimpleMultiplicationValue(a: Factorization, b: Factorization, val: Expr -> real)
    requires Paired(a) && Paired(b) && Multiplicative(val) && Constants(val)
    ensures Paired(SimpleMultiplication(a, b))
    ensures Value(SimpleMultiplication(a, b), val) == Product(Value(a, val), Value(b, val))
  {
    var r := SimpleMultiplication(a, b);
    CrossPaired(a.w, a.alpha, b.w, b.alpha);
    var X := Dot(Cross(a.w, b.w), Cross(a.alpha, b.alpha), val);
    var A := Dot(if IsZero(a.w0) then [] else Row(a.w0, b.w), if IsZero(a.w0) then [] else b.alpha, val);
    var B := Dot(if IsZero(b.w0) then [] else Row(b.w0, a.w), if IsZero(b.w0) then [] else a.alpha, val);
    SimpleMultiplicationDot(a, b, val);
    assert Value(r, val) == X + A + B + val(r.w0);
    DotCross(a.w, a.alpha, b.w, b.alpha, val);
    assert X == Product(Dot(b.w, b.alpha, val), Dot(a.w, a.alpha, val));
    BlockValue(a.w0, b.w, b.alpha, val);
    assert A == Product(val(a.w0), Dot(b.w, b.alpha, val));
    BlockValue(b.w0, a.w, a.alpha, val);
    assert B == Product(val(b.w0), Dot(a.w, a.alpha, val));
    assert val(r.w0) == Product(val(a.w0), val(b.w0));
    ExpandProduct(Value(r, val), X, A, B,
      val(r.w0), Dot(a.w, a.alpha, val), val(a.w0), Dot(b.w, b.alpha, val), val(b.w0), Value(a, val), Value(b, val));
  }

  lemma VisitPowValue(e: Expr, theta: set<Variable>, val: Expr -> real)
    requires e.Pow? && VisitPow(e, theta).Ok? && Constants(val)
    ensures Value(VisitPow(e, theta).value, val) == val(e)
  {
    LumpedValue(e, val);
  }

  lemma VisitNonPolynomialTermValue(e: Expr, theta: set<Variable>, val: Expr -> real)
    requires VisitNonPolynomialTerm(e, theta).Ok? && Constants(val)
    ensures Value(VisitNonPolynomialTerm(e, theta).value, val) == val(e)
  {
    LumpedValue(e, val);
  }

  /** The factorization of an expression has its value, under every
      assignment and interpretation. */
  lemma {:induction false} VisitValue(e: Expr, theta: set<Variable>, env: Env, I: Interp)
    requires Visit(e, theta).Ok?
    ensures Value(Visit(e, theta).value, EvalAt(env, I)) == Eval(e, env, I)
    decreases e, 2
  {
    var val := EvalAt(env, I);
    EvalAtArithmetic(env, I);
    match e
    case Var(_) => LumpedValue(e, val);
    case Const(_) =>
    case Add(_, terms) => AdditionPrefixValue(e, theta, |terms|, env, I);
    case Mul(_, factors) => MultiplicationPrefixValue(e, theta, |factors|, env, I);
    case Pow(_, _) => VisitPowValue(e, theta, val);
    case Opaque(_, _) => VisitNonPolynomialTermValue(e, theta, val);
  }

  lemma SumStep(l: real, vf: real, p: real, c0: real, tp: real, t: real)
    requires l == vf + p && vf == c0 + tp && t == tp + p
    ensures l == c0 + t
  {
  }

  /** `AddTermValue` under evaluation, with the arithmetic facts kept local. */
  lemma AddTermEval(f: Factorization, c: real, fi: Factorization, env: Env, I: Interp)
    requires Paired(f) && Paired(fi)
    ensures Value(AddTerm(f, c, fi), EvalAt(env, I)) == Value(f, EvalAt(env, I)) + Product(c, Value(fi, EvalAt(env, I)))
  {
    EvalAtArithmetic(env, I);
    AddTermValue(f, c, fi, EvalAt(env, I));
  }

  lemma {:induction false} AdditionPrefixValue(e: Expr, theta: set<Variable>, n: nat, env: Env, I: Interp)
    requires e.Add? && n <= |e.terms| && AdditionPrefix(e, theta, n).Ok?
    ensures Value(AdditionPrefix(e, theta, n).value, EvalAt(env, I)) == e.c0 + TermsValue(e, n, env, I)
    decreases e, 1, n
  {
    if n > 0 {
      var val := EvalAt(env, I);
      var f := AdditionPrefix(e, theta, n - 1).value;
      var ei, c := e.terms[n - 1].0, e.terms[n - 1].1;
      var fi := Visit(ei, theta).value;
      AdditionPrefixValue(e, theta, n - 1, env, I);
      VisitValue(ei, theta, env, I);
      AddTermEval(f, c, fi, env, I);
      SumStep(Value(AddTerm(f, c, fi), val), Value(f, val), Product(c, Eval(ei, env, I)),
        e.c0, TermsValue(e, n - 1, env, I), TermsValue(e, n, env, I));
    }
  }

  lemma VisitFactorValue(e: Expr, theta: set<Variable>, k: nat, env: Env, I: Interp)
    requires e.Mul? && k < |e.factors| && VisitFactor(e, theta, k).Ok?
    ensures Value(VisitFactor(e, theta, k).value, EvalAt(env, I)) == FactorValue(e, k, env, I)
    decreases e, 0, k
  {
    var base, exponent := e.factors[k].0, e.factors[k].1;
    if IsOne(exponent) {
      VisitValue(base, theta, env, I);
    } else {
      VisitPowValue(Pow(base, exponent), theta, EvalAt(env, I));
    }
  }

  lemma Associate(l: real, c: real, p: real, q: real, x: real)
    requires l == Product(Product(c, p), q) && x == Product(p, q)
    ensures l == Product(c, x)
  {
  }

  lemma {:induction false} MultiplicationPrefixValue(e: Expr, theta: set<Variable>, n: nat, env: Env, I: Interp)
    requires e.Mul? && n <= |e.factors| && MultiplicationPrefix(e, theta, n).Ok?
    ensures Value(MultiplicationPrefix(e, theta, n).value, EvalAt(env, I)) == Product(e.c, FactorsValue(e, n, env, I))
    decreases e, 1, n
  {
    if n > 0 {
      var val := EvalAt(env, I);
      EvalAtArithmetic(env, I);
      var f := MultiplicationPrefix(e, theta, n - 1).value;
      var g := VisitFactor(e, theta, n - 1).value;
      MultiplicationPrefixValue(e, theta, n - 1, env, I);
      VisitFactorValue(e, theta, n - 1, env, I);
      SimpleMultiplicationValue(f, g, val);
      Associate(Value(SimpleMultiplication(f, g), val), e.c, FactorsValue(e, n - 1, env, I),
        FactorValue(e, n - 1, env, I), FactorsValue(e, n, env, I));
    }
  }

  /** The main property: a successful factorization is separated and has the
      value of the expression everywhere. */
  lemma VisitFactors(e: Expr, theta: set<Variable>)
    requires Visit(e, theta).Ok?
    ensures Factors(Visit(e, theta).value, e, theta)
  {
    VisitSeparated(e, theta);
    forall env: Env, I: Interp ensures Value(Visit(e, theta).value, EvalAt(env, I)) == Eval(e, env, I) {
      VisitValue(e, theta, env, I);
    }
  }
}
