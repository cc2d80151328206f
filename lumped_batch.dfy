/** `DecomposeLumpedParameters` over a vector f of expressions: every entry
    is factored by the visitor, and the pairs of all rows are merged into one
    matrix and one vector, f = W(n) alpha(theta) + w0(n), keyed by the alpha
    entry so that alpha has no duplicate. */
module LumpedBatch {
  import opened Results
  import opened Symbolic
  import opened Factorizations
  import LP = LumpedParameters
  import LumpedVisitor

  /** The merge table: the distinct alpha entries found so far, the column of
      W that belongs to each, and the w0 entries of the rows done. */
  datatype Table = Table(alpha: seq<Expr>, cols: seq<seq<Expr>>, w0: seq<Expr>)

  /** Every alpha entry owns one column of length `m`. */
  predicate Shaped(t: Table, m: nat)
  {
    |t.alpha| == |t.cols| && forall j :: 0 <= j < |t.cols| ==> |t.cols[j]| == m
  }

  /** A zero column (`VectorX<Expression>::Zero(m)`). */
  function Zeros(m: nat): (r: seq<Expr>)
    ensures |r| == m
  {
    seq(m, _ => Const(0.0))
  }

  /** Entry k of a column (zero past its end). */
  function At(col: seq<Expr>, k: nat): Expr
  {
    if k < |col| then col[k] else Const(0.0)
  }

  /** `column[i] += x`. */
  function Bump(col: seq<Expr>, i: nat, x: Expr): (r: seq<Expr>)
    ensures |r| == |col|
  {
    if i < |col| then col[i := Plus(col[i], x)] else col
  }

  /** `alpha_map.emplace(key, Zero(m))` then `column[i] += x`: a new key gets a
      zero column first, and entry i of the key's column gains x. */
  function EmplaceColumn(t: Table, m: nat, i: nat, key: Expr, x: Expr): (r: Table)
    requires |t.alpha| == |t.cols|
    ensures |r.alpha| == |r.cols| && r.w0 == t.w0 && |t.cols| <= |r.cols|
  {
    var p := IndexOf(t.alpha, key);
    if p < 0 then Table(t.alpha + [key], t.cols + [Bump(Zeros(m), i, x)], t.w0)
    else Table(t.alpha, t.cols[p := Bump(t.cols[p], i, x)], t.w0)
  }

  /** The first `n` pairs (w[j], alpha[j]) of row i merged into the table. */
  function EmplaceRow(t: Table, m: nat, i: nat, w: seq<Expr>, alpha: seq<Expr>, n: nat): (r: Table)
    requires |t.alpha| == |t.cols| && |w| == |alpha| && n <= |w|
    ensures |r.alpha| == |r.cols| && r.w0 == t.w0 && |t.cols| <= |r.cols|
    decreases n
  {
    if n == 0 then t else EmplaceColumn(EmplaceRow(t, m, i, w, alpha, n - 1), m, i, alpha[n - 1], w[n - 1])
  }

  /** Row i of the table: the factorization of f[i] stored in it. */
  function AddRow(t: Table, m: nat, i: nat, g: Factorization): (r: Table)
    requires |t.alpha| == |t.cols| && Paired(g)
    ensures |r.alpha| == |r.cols| && r.w0 == t.w0 + [g.w0]
  {
    EmplaceRow(t.(w0 := t.w0 + [g.w0]), m, i, g.w, g.alpha, |g.w|)
  }

  /** The table after the first `n` rows of `fs`, or the first row's error. */
  function BatchPrefix(fs: seq<Expr>, theta: set<Variable>, n: nat): (r: Result<Table>)
    requires n <= |fs|
    ensures r.Ok? ==> |r.value.alpha| == |r.value.cols| && |r.value.w0| == n
    decreases n
  {
    if n == 0 then Ok(Table([], [], []))
    else
      match BatchPrefix(fs, theta, n - 1)
      case Err(k) => Err(k)
      case Ok(t) =>
        match LP.Visit(fs[n - 1], theta)
        case Err(k) => Err(k)
        case Ok(g) => Ok(AddRow(t, |fs|, n - 1, g))
  }

  /** The lumped decomposition of a vector: W by its columns (W(i, j) is
      `W[j][i]`), alpha, and w0. */
  datatype Lumped = Lumped(W: seq<seq<Expr>>, alpha: seq<Expr>, w0: seq<Expr>)

  function Decomposition(fs: seq<Expr>, theta: set<Variable>): Result<Lumped>
  {
    match BatchPrefix(fs, theta, |fs|)
    case Err(k) => Err(k)
    case Ok(t) => Ok(Lumped(t.cols, t.alpha, t.w0))
  }

  /** Row k of W. */
  function RowOf(cols: seq<seq<Expr>>, k: nat): (r: seq<Expr>)
    ensures |r| == |cols|
  {
    seq(|cols|, j requires 0 <= j < |cols| => At(cols[j], k))
  }

  /** A table that was built has had every row it covers decomposed and
      stored. */
  lemma BatchPrefixLast(fs: seq<Expr>, theta: set<Variable>, n: nat)
    requires 0 < n <= |fs| && BatchPrefix(fs, theta, n).Ok?
    ensures BatchPrefix(fs, theta, n - 1).Ok? && LP.Visit(fs[n - 1], theta).Ok?
    ensures BatchPrefix(fs, theta, n).value ==
      AddRow(BatchPrefix(fs, theta, n - 1).value, |fs|, n - 1, LP.Visit(fs[n - 1], theta).value)
  {
  }

  // Shape

  lemma EmplaceColumnShaped(t: Table, m: nat, i: nat, key: Expr, x: Expr)
    requires Shaped(t, m)
    ensures Shaped(EmplaceColumn(t, m, i, key, x), m)
  {
  }

  lemma {:induction false} EmplaceRowShaped(t: Table, m: nat, i: nat, w: seq<Expr>, alpha: seq<Expr>, n: nat)
    requires Shaped(t, m) && |w| == |alpha| && n <= |w|
    ensures Shaped(EmplaceRow(t, m, i, w, alpha, n), m)
    decreases n
  {
    if n > 0 {
      EmplaceRowShaped(t, m, i, w, alpha, n - 1);
      EmplaceColumnShaped(EmplaceRow(t, m, i, w, alpha, n - 1), m, i, alpha[n - 1], w[n - 1]);
    }
  }

  /** Every column of W has one entry per row of f. */
  lemma {:induction false} BatchShaped(fs: seq<Expr>, theta: set<Variable>, n: nat)
    requires n <= |fs| && BatchPrefix(fs, theta, n).Ok?
    ensures Shaped(BatchPrefix(fs, theta, n).value, |fs|)
    decreases n
  {
    if n > 0 {
      var t := BatchPrefix(fs, theta, n - 1).value;
      var g := LP.Visit(fs[n - 1], theta).value;
      BatchPrefixLast(fs, theta, n);
      BatchShaped(fs, theta, n - 1);
      EmplaceRowShaped(t.(w0 := t.w0 + [g.w0]), |fs|, n - 1, g.w, g.alpha, |g.w|);
    }
  }

  // Keys

  /** Merging keeps the alpha entries distinct and adds exactly the row's. */
  lemma EmplaceColumnKeys(t: Table, m: nat, i: nat, key: Expr, x: Expr)
    requires |t.alpha| == |t.cols|
    ensures forall a :: a in EmplaceColumn(t, m, i, key, x).alpha <==> a in t.alpha || a == key
    ensures Distinct(t.alpha) ==> Distinct(EmplaceColumn(t, m, i, key, x).alpha)
  {
  }

  lemma {:induction false} EmplaceRowKeys(t: Table, m: nat, i: nat, w: seq<Expr>, alpha: seq<Expr>, n: nat)
    requires |t.alpha| == |t.cols| && |w| == |alpha| && n <= |w|
    ensures forall a :: a in EmplaceRow(t, m, i, w, alpha, n).alpha <==> a in t.alpha || a in alpha[..n]
    ensures Distinct(t.alpha) ==> Distinct(EmplaceRow(t, m, i, w, alpha, n).alpha)
    decreases n
  {
    if n > 0 {
      EmplaceRowKeys(t, m, i, w, alpha, n - 1);
      EmplaceColumnKeys(EmplaceRow(t, m, i, w, alpha, n - 1), m, i, alpha[n - 1], w[n - 1]);
      assert alpha[..n] == alpha[..n - 1] + [alpha[n - 1]];
    }
  }

  /** The alpha of the first `n` rows has no duplicate, and holds exactly the
      alpha entries of those rows' factorizations. */
  lemma {:induction false} BatchKeys(fs: seq<Expr>, theta: set<Variable>, n: nat)
    requires 0 < n <= |fs| && BatchPrefix(fs, theta, n).Ok?
    ensures Distinct(BatchPrefix(fs, theta, n).value.alpha)
    ensures LP.Visit(fs[n - 1], theta).Ok? && BatchPrefix(fs, theta, n - 1).Ok?
    ensures forall a :: a in BatchPrefix(fs, theta, n).value.alpha <==>
      a in BatchPrefix(fs, theta, n - 1).value.alpha || a in LP.Visit(fs[n - 1], theta).value.alpha
    decreases n
  {
    var t := BatchPrefix(fs, theta, n - 1).value;
    var g := LP.Visit(fs[n - 1], theta).value;
    if n > 1 {
      BatchKeys(fs, theta, n - 1);
    }
    EmplaceRowKeys(t.(w0 := t.w0 + [g.w0]), |fs|, n - 1, g.w, g.alpha, |g.w|);
    assert g.alpha[..|g.w|] == g.alpha;
  }

  // Separation

  /** Every column references no parameter. */
  predicate ColumnsFree(cols: seq<seq<Expr>>, theta: set<Variable>)
  {
    forall j :: 0 <= j < |cols| ==> AllFree(cols[j], theta)
  }

  lemma EmplaceColumnSeparated(t: Table, m: nat, i: nat, key: Expr, x: Expr, theta: set<Variable>)
    requires |t.alpha| == |t.cols|
    requires ColumnsFree(t.cols, theta) && AllParams(t.alpha, theta)
    requires Vars(key) <= theta && Vars(x) !! theta
    ensures ColumnsFree(EmplaceColumn(t, m, i, key, x).cols, theta)
    ensures AllParams(EmplaceColumn(t, m, i, key, x).alpha, theta)
  {
    var p := IndexOf(t.alpha, key);
    if p < 0 {
      PlusVars(Const(0.0), x);
      AppendParams(t.alpha, [key], theta);
    } else if i < |t.cols[p]| {
      PlusVars(t.cols[p][i], x);
      assert AllFree(t.cols[p][i := Plus(t.cols[p][i], x)], theta);
    }
  }

  lemma {:induction false} EmplaceRowSeparated(t: Table, m: nat, i: nat, w: seq<Expr>, alpha: seq<Expr>, n: nat, theta: set<Variable>)
    requires |t.alpha| == |t.cols| && |w| == |alpha| && n <= |w|
    requires ColumnsFree(t.cols, theta) && AllParams(t.alpha, theta)
    requires AllFree(w, theta) && AllParams(alpha, theta)
    ensures ColumnsFree(EmplaceRow(t, m, i, w, alpha, n).cols, theta)
    ensures AllParams(EmplaceRow(t, m, i, w, alpha, n).alpha, theta)
    decreases n
  {
    if n > 0 {
      EmplaceRowSeparated(t, m, i, w, alpha, n - 1, theta);
      EmplaceColumnSeparated(EmplaceRow(t, m, i, w, alpha, n - 1), m, i, alpha[n - 1], w[n - 1], theta);
    }
  }

  /** W and w0 reference no parameter, alpha references parameters only. */
  /** Adding a separated row keeps the table separated. */
  lemma AddRowSeparated(t: Table, m: nat, i: nat, g: Factorization, theta: set<Variable>)
    requires |t.alpha| == |t.cols| && Separated(g, theta)
    requires ColumnsFree(t.cols, theta) && AllParams(t.alpha, theta) && AllFree(t.w0, theta)
    ensures ColumnsFree(AddRow(t, m, i, g).cols, theta)
    ensures AllParams(AddRow(t, m, i, g).alpha, theta)
    ensures AllFree(AddRow(t, m, i, g).w0, theta)
  {
    AppendFree(t.w0, [g.w0], theta);
    EmplaceRowSeparated(t.(w0 := t.w0 + [g.w0]), m, i, g.w, g.alpha, |g.w|, theta);
  }

  /** W and w0 reference no parameter, alpha references parameters only. */
  lemma {:induction false} BatchSeparated(fs: seq<Expr>, theta: set<Variable>, n: nat)
    requires n <= |fs| && BatchPrefix(fs, theta, n).Ok?
    ensures ColumnsFree(BatchPrefix(fs, theta, n).value.cols, theta)
    ensures AllParams(BatchPrefix(fs, theta, n).value.alpha, theta)
    ensures AllFree(BatchPrefix(fs, theta, n).value.w0, theta)
    decreases n
  {
    if n > 0 {
      var t := BatchPrefix(fs, theta, n - 1).value;
      var g := LP.Visit(fs[n - 1], theta).value;
      BatchPrefixLast(fs, theta, n);
      BatchSeparated(fs, theta, n - 1);
      LP.VisitSeparated(fs[n - 1], theta);
      AddRowSeparated(t, |fs|, n - 1, g, theta);
    }
  }

  // Values

  lemma TermZero(key: Expr, val: Expr -> real)
    requires Constants(val)
    ensures Term(Const(0.0), key, val) == 0.0
  {
  }

  lemma TermPlusLeft(y: Expr, x: Expr, key: Expr, val: Expr -> real)
    requires Additive(val)
    ensures Term(Plus(y, x), key, val) == Term(y, key, val) + Term(x, key, val)
  {
  }

  /** A row of zeros is worth nothing. */
  lemma {:induction false} DotZeros(w: seq<Expr>, alpha: seq<Expr>, val: Expr -> real)
    requires |w| == |alpha| && Constants(val)
    requires forall j :: 0 <= j < |w| ==> w[j] == Const(0.0)
    ensures Dot(w, alpha, val) == 0.0
    decreases |w|
  {
    if |w| > 0 {
      DotZeros(w[..|w| - 1], alpha[..|w| - 1], val);
      TermZero(alpha[|w| - 1], val);
    }
  }

  /** Merging (key, x) into row i adds x * key to row i. */
  lemma EmplaceColumnSame(t: Table, m: nat, i: nat, key: Expr, x: Expr, val: Expr -> real)
    requires Shaped(t, m) && i < m && Additive(val) && Constants(val)
    ensures var r := EmplaceColumn(t, m, i, key, x);
      Dot(RowOf(r.cols, i), r.alpha, val) == Dot(RowOf(t.cols, i), t.alpha, val) + Term(x, key, val)
  {
    var r := EmplaceColumn(t, m, i, key, x);
    var p := IndexOf(t.alpha, key);
    var row := RowOf(t.cols, i);
    if p < 0 {
      assert RowOf(r.cols, i) == row + [Plus(Const(0.0), x)];
      DotPush(row, t.alpha, Plus(Const(0.0), x), key, val);
    } else {
      assert RowOf(r.cols, i) == row[p := Plus(t.cols[p][i], x)];
      assert t.alpha[p := t.alpha[p]] == t.alpha;
      DotUpdate(row, t.alpha, p, Plus(t.cols[p][i], x), t.alpha[p], val);
      TermPlusLeft(t.cols[p][i], x, key, val);
    }
  }

  /** Merging into row i leaves the entries of row k != i as they were, and
      zero in a new column. */
  lemma EmplaceColumnOther(t: Table, m: nat, i: nat, key: Expr, x: Expr, k: nat, j: nat)
    requires |t.alpha| == |t.cols| && k != i
    requires j < |EmplaceColumn(t, m, i, key, x).cols|
    ensures At(EmplaceColumn(t, m, i, key, x).cols[j], k) == if j < |t.cols| then At(t.cols[j], k) else Const(0.0)
  {
  }

  lemma {:induction false} EmplaceRowSame(t: Table, m: nat, i: nat, w: seq<Expr>, alpha: seq<Expr>, n: nat, val: Expr -> real)
    requires Shaped(t, m) && i < m && |w| == |alpha| && n <= |w| && Additive(val) && Constants(val)
    ensures var r := EmplaceRow(t, m, i, w, alpha, n);
      Dot(RowOf(r.cols, i), r.alpha, val) == Dot(RowOf(t.cols, i), t.alpha, val) + Dot(w[..n], alpha[..n], val)
    decreases n
  {
    if n > 0 {
      var s := EmplaceRow(t, m, i, w, alpha, n - 1);
      var r := EmplaceColumn(s, m, i, alpha[n - 1], w[n - 1]);
      EmplaceRowShaped(t, m, i, w, alpha, n - 1);
      EmplaceRowSame(t, m, i, w, alpha, n - 1, val);
      EmplaceColumnSame(s, m, i, alpha[n - 1], w[n - 1], val);
      DotPrefix(w, alpha, n, val);
      LP.SumStep(Dot(RowOf(r.cols, i), r.alpha, val), Dot(RowOf(s.cols, i), s.alpha, val),
        Term(w[n - 1], alpha[n - 1], val), Dot(RowOf(t.cols, i), t.alpha, val),
        Dot(w[..n - 1], alpha[..n - 1], val), Dot(w[..n], alpha[..n], val));
    }
  }

  /** Merging into row i leaves the entries of the other rows as they were,
      zero in the new columns. */
  lemma {:induction false} EmplaceRowOther(t: Table, m: nat, i: nat, w: seq<Expr>, alpha: seq<Expr>, n: nat, k: nat, j: nat)
    requires |t.alpha| == |t.cols| && k != i && |w| == |alpha| && n <= |w|
    requires j < |EmplaceRow(t, m, i, w, alpha, n).cols|
    ensures At(EmplaceRow(t, m, i, w, alpha, n).cols[j], k) == if j < |t.cols| then At(t.cols[j], k) else Const(0.0)
    decreases n
  {
    if n > 0 {
      var s := EmplaceRow(t, m, i, w, alpha, n - 1);
      EmplaceColumnOther(s, m, i, alpha[n - 1], w[n - 1], k, j);
      if j < |s.cols| {
        EmplaceRowOther(t, m, i, w, alpha, n - 1, k, j);
      }
    }
  }

  /** A row k other than i keeps its value: it only gains zero entries. */
  lemma EmplaceRowKeep(t: Table, m: nat, i: nat, w: seq<Expr>, alpha: seq<Expr>, k: nat, val: Expr -> real)
    requires |t.alpha| == |t.cols| && k != i && |w| == |alpha| && Constants(val)
    ensures var r := EmplaceRow(t, m, i, w, alpha, |w|);
      Dot(RowOf(r.cols, k), r.alpha, val) == Dot(RowOf(t.cols, k), t.alpha, val)
  {
    var r := EmplaceRow(t, m, i, w, alpha, |w|);
    var n := |t.cols|;
    var row := RowOf(r.cols, k);
    forall j | 0 <= j < |row| ensures row[j] == if j < n then At(t.cols[j], k) else Const(0.0) {
      EmplaceRowOther(t, m, i, w, alpha, |w|, k, j);
    }
    EmplaceRowPrefix(t, m, i, w, alpha, |w|);
    assert row[..n] == RowOf(t.cols, k);
    DotExtend(RowOf(t.cols, k), t.alpha, row, r.alpha, val);
  }

  /** Extending a sum by zero entries keeps its value. */
  lemma {:induction false} DotExtend(w: seq<Expr>, a: seq<Expr>, w': seq<Expr>, a': seq<Expr>, val: Expr -> real)
    requires |w| == |a| && |w'| == |a'| && |w| <= |w'| && Constants(val)
    requires w'[..|w|] == w && a'[..|w|] == a
    requires forall j :: |w| <= j < |w'| ==> w'[j] == Const(0.0)
    ensures Dot(w', a', val) == Dot(w, a, val)
    decreases |w'|
  {
    var n := |w'|;
    if n == |w| {
      assert w' == w'[..n] && a' == a'[..n];
    } else {
      var v, b := w'[..n - 1], a'[..n - 1];
      assert v[..|w|] == w && b[..|w|] == a;
      DotExtend(w, a, v, b, val);
      assert w' == v + [w'[n - 1]] && a' == b + [a'[n - 1]];
      DotPush(v, b, w'[n - 1], a'[n - 1], val);
      TermZero(a'[n - 1], val);
    }
  }

  /** Merging only appends alpha entries. */
  lemma {:induction false} EmplaceRowPrefix(t: Table, m: nat, i: nat, w: seq<Expr>, alpha: seq<Expr>, n: nat)
    requires |t.alpha| == |t.cols| && |w| == |alpha| && n <= |w|
    ensures EmplaceRow(t, m, i, w, alpha, n).alpha[..|t.alpha|] == t.alpha
    decreases n
  {
    if n > 0 {
      EmplaceRowPrefix(t, m, i, w, alpha, n - 1);
      var s := EmplaceRow(t, m, i, w, alpha, n - 1);
      assert EmplaceColumn(s, m, i, alpha[n - 1], w[n - 1]).alpha[..|s.alpha|] == s.alpha;
    }
  }

  /** The rows not yet done are zero. */
  lemma {:induction false} BatchZero(fs: seq<Expr>, theta: set<Variable>, n: nat, k: nat, j: nat)
    requires n <= k && n <= |fs| && BatchPrefix(fs, theta, n).Ok?
    requires j < |BatchPrefix(fs, theta, n).value.cols|
    ensures At(BatchPrefix(fs, theta, n).value.cols[j], k) == Const(0.0)
    decreases n
  {
    if n > 0 {
      var t := BatchPrefix(fs, theta, n - 1).value;
      var g := LP.Visit(fs[n - 1], theta).value;
      var t' := t.(w0 := t.w0 + [g.w0]);
      EmplaceRowOther(t', |fs|, n - 1, g.w, g.alpha, |g.w|, k, j);
      if j < |t.cols| {
        BatchZero(fs, theta, n - 1, k, j);
      }
    }
  }

  /** Storing a factorization in a row that was zero makes the row worth
      the factorization's pairs. */
  lemma AddRowSame(t: Table, m: nat, i: nat, g: Factorization, val: Expr -> real)
    requires Shaped(t, m) && i < m && Paired(g) && Additive(val) && Constants(val)
    requires forall j :: 0 <= j < |t.cols| ==> At(t.cols[j], i) == Const(0.0)
    ensures var r := AddRow(t, m, i, g);
      Dot(RowOf(r.cols, i), r.alpha, val) == Dot(g.w, g.alpha, val)
  {
    var t' := t.(w0 := t.w0 + [g.w0]);
    EmplaceRowSame(t', m, i, g.w, g.alpha, |g.w|, val);
    forall j | 0 <= j < |t.cols| ensures RowOf(t.cols, i)[j] == Const(0.0) {
    }
    DotZeros(RowOf(t.cols, i), t.alpha, val);
    assert g.w[..|g.w|] == g.w && g.alpha[..|g.w|] == g.alpha;
  }

  /** The row just added is worth its entry of f. */
  lemma BatchRowLast(fs: seq<Expr>, theta: set<Variable>, n: nat, env: Env, I: Interp)
    requires 0 < n <= |fs| && BatchPrefix(fs, theta, n).Ok?
    ensures var t := BatchPrefix(fs, theta, n).value;
      Dot(RowOf(t.cols, n - 1), t.alpha, EvalAt(env, I)) + Eval(t.w0[n - 1], env, I) == Eval(fs[n - 1], env, I)
  {
    var k := n - 1;
    var val := EvalAt(env, I);
    EvalAtArithmetic(env, I);
    var t := BatchPrefix(fs, theta, k).value;
    var g := LP.Visit(fs[k], theta).value;
    var r := AddRow(t, |fs|, k, g);
    assert r == BatchPrefix(fs, theta, n).value;
    BatchShaped(fs, theta, k);
    forall j | 0 <= j < |t.cols| ensures At(t.cols[j], k) == Const(0.0) {
      BatchZero(fs, theta, k, k, j);
    }
    AddRowSame(t, |fs|, k, g, val);
    LP.VisitValue(fs[k], theta, env, I);
    assert r.w0[k] == g.w0;
  }

  /** Row k of the table, done, is worth f[k]:
      sum_j W(k, j) alpha[j] + w0[k] == f[k] for every assignment. */
  lemma {:induction false} BatchRow(fs: seq<Expr>, theta: set<Variable>, n: nat, k: nat, env: Env, I: Interp)
    requires k < n <= |fs| && BatchPrefix(fs, theta, n).Ok?
    ensures var t := BatchPrefix(fs, theta, n).value;
      Dot(RowOf(t.cols, k), t.alpha, EvalAt(env, I)) + Eval(t.w0[k], env, I) == Eval(fs[k], env, I)
    decreases n
  {
    if k < n - 1 {
      var val := EvalAt(env, I);
      EvalAtArithmetic(env, I);
      var t := BatchPrefix(fs, theta, n - 1).value;
      var g := LP.Visit(fs[n - 1], theta).value;
      var t' := t.(w0 := t.w0 + [g.w0]);
      var r := EmplaceRow(t', |fs|, n - 1, g.w, g.alpha, |g.w|);
      assert r == BatchPrefix(fs, theta, n).value;
      EmplaceRowKeep(t', |fs|, n - 1, g.w, g.alpha, k, val);
      assert r.w0[k] == t.w0[k];
      BatchRow(fs, theta, n - 1, k, env, I);
    } else {
      BatchRowLast(fs, theta, n, env, I);
    }
  }

  /** The main property of the batch: W alpha + w0 reproduces f row by row,
      alpha has no duplicate, and the parameters appear in alpha only. */
  lemma DecompositionCorrect(fs: seq<Expr>, theta: set<Variable>)
    requires Decomposition(fs, theta).Ok?
    ensures var d := Decomposition(fs, theta).value;
      && |d.alpha| == |d.W| && |d.w0| == |fs|
      && (forall j :: 0 <= j < |d.W| ==> |d.W[j]| == |fs|)
      && Distinct(d.alpha)
      && ColumnsFree(d.W, theta) && AllParams(d.alpha, theta) && AllFree(d.w0, theta)
      && forall k, env: Env, I: Interp :: 0 <= k < |fs| ==>
           Dot(RowOf(d.W, k), d.alpha, EvalAt(env, I)) + Eval(d.w0[k], env, I) == Eval(fs[k], env, I)
  {
    var n := |fs|;
    BatchShaped(fs, theta, n);
    BatchSeparated(fs, theta, n);
    if n > 0 {
      BatchKeys(fs, theta, n);
    }
    forall k, env: Env, I: Interp | 0 <= k < n
      ensures Dot(RowOf(BatchPrefix(fs, theta, n).value.cols, k), BatchPrefix(fs, theta, n).value.alpha, EvalAt(env, I))
        + Eval(BatchPrefix(fs, theta, n).value.w0[k], env, I) == Eval(fs[k], env, I)
    {
      BatchRow(fs, theta, n, k, env, I);
    }
  }

  // Entries

  /** Entry k of the column that belongs to `key`, or 0 when `key` has no
      column yet: `alpha_map[key][k]` with a zero column as default. */
  function Entry(t: Table, key: Expr, k: nat): Expr
    requires |t.alpha| == |t.cols|
  {
    var p := IndexOf(t.alpha, key);
    if p < 0 then Const(0.0) else At(t.cols[p], k)
  }

  /** One `+=` adds x to entry i of its key's column, starting from zero for
      a new key, and leaves every other entry alone. */
  lemma EmplaceColumnEntry(t: Table, m: nat, i: nat, key: Expr, x: Expr, a: Expr, k: nat)
    requires Shaped(t, m) && i < m
    ensures Entry(EmplaceColumn(t, m, i, key, x), a, k) ==
      if a == key && k == i then Plus(Entry(t, a, k), x) else Entry(t, a, k)
  {
    IndexOfPush(t.alpha, key, a);
  }

  lemma EmplaceRowEntryNext(t: Table, m: nat, i: nat, w: seq<Expr>, alpha: seq<Expr>, n: nat, a: Expr, k: nat, start: Expr)
    requires Shaped(t, m) && i < m && |w| == |alpha| && 0 < n <= |w|
    requires Entry(EmplaceRow(t, m, i, w, alpha, n - 1), a, k) == if k == i then Gather(start, alpha, w, a, n - 1) else start
    ensures Entry(EmplaceRow(t, m, i, w, alpha, n), a, k) == if k == i then Gather(start, alpha, w, a, n) else start
  {
    EmplaceRowShaped(t, m, i, w, alpha, n - 1);
    EmplaceColumnEntry(EmplaceRow(t, m, i, w, alpha, n - 1), m, i, alpha[n - 1], w[n - 1], a, k);
  }

  /** Merging the pairs of row i adds to entry i of each key's column the W
      entries whose alpha is that key, in order; the other rows keep their
      entries. */
  lemma {:induction false} EmplaceRowEntry(t: Table, m: nat, i: nat, w: seq<Expr>, alpha: seq<Expr>, n: nat)
    requires Shaped(t, m) && i < m && |w| == |alpha| && n <= |w|
    ensures forall a, k ::
      Entry(EmplaceRow(t, m, i, w, alpha, n), a, k) == if k == i then Gather(Entry(t, a, k), alpha, w, a, n) else Entry(t, a, k)
    decreases n
  {
    if n > 0 {
      EmplaceRowEntry(t, m, i, w, alpha, n - 1);
      forall a, k ensures Entry(EmplaceRow(t, m, i, w, alpha, n), a, k) ==
        (if k == i then Gather(Entry(t, a, k), alpha, w, a, n) else Entry(t, a, k))
      {
        EmplaceRowEntryNext(t, m, i, w, alpha, n, a, k, Entry(t, a, k));
      }
    }
  }

  /** The sum, from zero, of the W entries of `g` whose alpha is `key`. */
  function Merged(g: Factorization, key: Expr): Expr
    requires Paired(g)
  {
    Gather(Const(0.0), g.alpha, g.w, key, |g.w|)
  }

  /** Storing row i adds `Merged(g, a)` to entry i under each key a and
      leaves every other row alone. */
  lemma AddRowEntry(t: Table, m: nat, i: nat, g: Factorization, a: Expr, k: nat)
    requires Shaped(t, m) && i < m && Paired(g)
    requires k == i ==> Entry(t, a, k) == Const(0.0)
    ensures Entry(AddRow(t, m, i, g), a, k) == if k == i then Merged(g, a) else Entry(t, a, k)
  {
    var t' := t.(w0 := t.w0 + [g.w0]);
    EmplaceRowEntry(t', m, i, g.w, g.alpha, |g.w|);
    assert Entry(t', a, k) == Entry(t, a, k);
  }

  /** A row not yet done has zero entries under every key. */
  lemma BatchZeroEntry(fs: seq<Expr>, theta: set<Variable>, n: nat, a: Expr, k: nat)
    requires n <= k && n <= |fs| && BatchPrefix(fs, theta, n).Ok?
    ensures Entry(BatchPrefix(fs, theta, n).value, a, k) == Const(0.0)
  {
    var p := IndexOf(BatchPrefix(fs, theta, n).value.alpha, a);
    if p >= 0 {
      BatchZero(fs, theta, n, k, p);
    }
  }

  /** Row k of the table holds, under each key, the merged W entries of
      f[k]'s own factorization. */
  lemma {:induction false} BatchEntry(fs: seq<Expr>, theta: set<Variable>, n: nat, a: Expr, k: nat)
    requires k < n <= |fs| && BatchPrefix(fs, theta, n).Ok?
    ensures LP.Visit(fs[k], theta).Ok?
    ensures Entry(BatchPrefix(fs, theta, n).value, a, k) == Merged(LP.Visit(fs[k], theta).value, a)
    decreases n
  {
    var t := BatchPrefix(fs, theta, n - 1).value;
    var g := LP.Visit(fs[n - 1], theta).value;
    BatchPrefixLast(fs, theta, n);
    BatchShaped(fs, theta, n - 1);
    if k == n - 1 {
      BatchZeroEntry(fs, theta, n - 1, a, k);
    } else {
      BatchEntry(fs, theta, n - 1, a, k);
    }
    AddRowEntry(t, |fs|, n - 1, g, a, k);
  }

  /** Row k of w0 is the w0 of f[k]'s own factorization. */
  lemma {:induction false} BatchResidual(fs: seq<Expr>, theta: set<Variable>, n: nat, k: nat)
    requires k < n <= |fs| && BatchPrefix(fs, theta, n).Ok?
    ensures LP.Visit(fs[k], theta).Ok?
    ensures BatchPrefix(fs, theta, n).value.w0[k] == LP.Visit(fs[k], theta).value.w0
    decreases n
  {
    BatchPrefixLast(fs, theta, n);
    if k < n - 1 {
      BatchResidual(fs, theta, n - 1, k);
    }
  }

  /** The batch merge entry by entry: W(k, j) is the sum of the W entries of
      f[k]'s own factorization whose alpha is alpha[j] (zero when there is
      none), and w0[k] is that factorization's w0. */
  lemma DecompositionEntries(fs: seq<Expr>, theta: set<Variable>)
    requires Decomposition(fs, theta).Ok?
    ensures forall k :: 0 <= k < |fs| ==> LP.Visit(fs[k], theta).Ok?
    ensures var d := Decomposition(fs, theta).value;
      && (forall j, k :: 0 <= j < |d.W| && 0 <= k < |fs| ==>
           k < |d.W[j]| && d.W[j][k] == Merged(LP.Visit(fs[k], theta).value, d.alpha[j]))
      && forall k :: 0 <= k < |fs| ==> d.w0[k] == LP.Visit(fs[k], theta).value.w0
  {
    var n := |fs|;
    var t := BatchPrefix(fs, theta, n).value;
    BatchShaped(fs, theta, n);
    forall k | 0 <= k < n
      ensures LP.Visit(fs[k], theta).Ok? && t.w0[k] == LP.Visit(fs[k], theta).value.w0
    {
      BatchResidual(fs, theta, n, k);
    }
    if n > 0 {
      BatchKeys(fs, theta, n);
    }
    forall j, k | 0 <= j < |t.cols| && 0 <= k < n
      ensures t.cols[j][k] == Merged(LP.Visit(fs[k], theta).value, t.alpha[j])
    {
      IndexOfDistinct(t.alpha, j);
      BatchEntry(fs, theta, n, t.alpha[j], k);
    }
  }

  // The implementation's loops

  /** One more row is decomposed and merged, or fails. */
  lemma BatchPrefixNext(fs: seq<Expr>, theta: set<Variable>, i: nat)
    requires i < |fs| && BatchPrefix(fs, theta, i).Ok?
    ensures BatchPrefix(fs, theta, i + 1) ==
      if LP.Visit(fs[i], theta).Err? then Err(LP.Visit(fs[i], theta).error)
      else Ok(AddRow(BatchPrefix(fs, theta, i).value, |fs|, i, LP.Visit(fs[i], theta).value))
  {
  }

  /** Once a row fails, the whole decomposition fails with that error. */
  lemma {:induction false} BatchPrefixStuck(fs: seq<Expr>, theta: set<Variable>, i: nat, n: nat)
    requires i <= n <= |fs| && BatchPrefix(fs, theta, i).Err?
    ensures BatchPrefix(fs, theta, n) == BatchPrefix(fs, theta, i)
    decreases n
  {
    if i < n {
      BatchPrefixStuck(fs, theta, i, n - 1);
    }
  }

  /** `DecomposeLumpedParameters(f, parameters)`: decomposes each f[i]
      in turn, records its w0 and merges its pairs into the columns keyed by
      alpha; the first failing row's error is raised. */
  method DecomposeLumpedParameters(fs: seq<Expr>, theta: set<Variable>) returns (r: Result<Lumped>)
    ensures r == Decomposition(fs, theta)
  {
    var m := |fs|;
    var alpha: seq<Expr> := [];
    var cols: seq<seq<Expr>> := [];
    var w0: seq<Expr> := [];
    var i := 0;
    while i < m
      invariant 0 <= i <= m
      invariant BatchPrefix(fs, theta, i) == Ok(Table(alpha, cols, w0))
    {
      var sub := LumpedVisitor.Visit(fs[i], theta);
      BatchPrefixNext(fs, theta, i);
      if sub.Err? {
        BatchPrefixStuck(fs, theta, i + 1, m);
        return Err(sub.error);
      }
      var g := sub.value;
      ghost var t := Table(alpha, cols, w0);
      w0 := w0 + [g.w0];
      alpha, cols := MergeRow(alpha, cols, w0, m, i, g.w, g.alpha);
      assert Table(alpha, cols, w0) == AddRow(t, m, i, g);
      i := i + 1;
    }
    r := Ok(Lumped(cols, alpha, w0));
  }

  /** The inner loop: `alpha_map.emplace(alpha[j], Zero(m))->second[i] +=
      w[j]` for each pair of row i. */
  method MergeRow(alpha: seq<Expr>, cols: seq<seq<Expr>>, w0: seq<Expr>, m: nat, i: nat, w: seq<Expr>, a: seq<Expr>)
    returns (alpha': seq<Expr>, cols': seq<seq<Expr>>)
    requires |alpha| == |cols| && |w| == |a|
    ensures Table(alpha', cols', w0) == EmplaceRow(Table(alpha, cols, w0), m, i, w, a, |w|)
  {
    ghost var start := Table(alpha, cols, w0);
    alpha', cols' := alpha, cols;
    var j := 0;
    while j < |w|
      invariant 0 <= j <= |w|
      invariant Table(alpha', cols', w0) == EmplaceRow(start, m, i, w, a, j)
    {
      ghost var before := Table(alpha', cols', w0);
      var p := IndexOf(alpha', a[j]);
      if p < 0 {
        alpha' := alpha' + [a[j]];
        cols' := cols' + [Bump(Zeros(m), i, w[j])];
        assert Table(alpha', cols', w0) == EmplaceColumn(before, m, i, a[j], w[j]);
      } else {
        cols' := cols'[p := Bump(cols'[p], i, w[j])];
        assert Table(alpha', cols', w0) == EmplaceColumn(before, m, i, a[j], w[j]);
      }
      j := j + 1;
    }
  }
}
