/** `DecomposeQuadraticPolynomial`: a polynomial of degree at most two
    over indexed variables, written as 0.5 x'Qx + b'x + c with Q
    symmetric. */
module QuadraticForms {
  import opened Results
  import opened Symbolic
  import opened Polynomials
  import opened Vectors
  import opened AffineDecomposition

  /** `Q(a, b) += d`. */
  function Increase(Q: seq<seq<real>>, a: nat, b: nat, d: real): (r: seq<seq<real>>)
    ensures |r| == |Q|
  {
    if a < |Q| && b < |Q[a]| then Q[a := Q[a][b := Q[a][b] + d]] else Q
  }

  /** `Q(b, a) = Q(a, b)`. */
  function Mirror(Q: seq<seq<real>>, a: nat, b: nat): (r: seq<seq<real>>)
    ensures |r| == |Q|
  {
    if a < |Q| && b < |Q[a]| && b < |Q| && a < |Q[b]| then Q[b := Q[b][a := Q[a][b]]] else Q
  }

  /** `v(a) += d`. */
  function Add(v: seq<real>, a: nat, d: real): (r: seq<real>)
    ensures |r| == |v|
  {
    if a < |v| then v[a := v[a] + d] else v
  }

  /** The matrix, vector and constant being built. */
  datatype Quadratic = Quadratic(Q: seq<seq<real>>, b: seq<real>, c: real)

  /** One pass of the loop: the monomial m with numeric coefficient coef
      added where it belongs. */
  function Accumulate(q: Quadratic, m: Monomial, coef: real, index: map<Variable, nat>): (r: Result<Quadratic>)
    ensures r.Ok? ==> |r.value.Q| == |q.Q| && |r.value.b| == |q.b|
  {
    if Degree(m) > 2 then Err(DegreeAboveTwo)
    else if |m| == 2 then
      if m[0].0 !in index || m[1].0 !in index then Err(UnknownVariable)
      else
        var i1, i2 := index[m[0].0], index[m[1].0];
        Ok(q.(Q := Mirror(Increase(q.Q, i1, i2, coef), i1, i2)))
    else if |m| == 1 then
      if m[0].0 !in index then Err(UnknownVariable)
      else if m[0].1 == 2 then Ok(q.(Q := Increase(q.Q, index[m[0].0], index[m[0].0], 2.0 * coef)))
      else Ok(q.(b := Add(q.b, index[m[0].0], coef)))
    else Ok(q.(c := q.c + coef))
  }

  /** The loop over the first `n` monomials, from zero. */
  function QuadTerms(p: Terms, index: map<Variable, nat>, dim: nat, n: nat): (r: Result<Quadratic>)
    requires n <= |p|
    ensures r.Ok? ==> |r.value.Q| == dim && |r.value.b| == dim
    decreases n
  {
    if n == 0 then Ok(Quadratic(ZeroMatrix(dim), ZeroVector(dim), 0.0))
    else
      match QuadTerms(p, index, dim, n - 1)
      case Err(e) => Err(e)
      case Ok(q) => Accumulate(q, p[n - 1].0, Value(p[n - 1].1), index)
  }

  // When the decomposition fails

  /** The decomposition succeeds exactly when every monomial has degree at
      most two and all its variables have positions; it fails with
      DegreeAboveTwo or UnknownVariable. */
  lemma {:induction false} QuadTermsOk(p: Terms, index: map<Variable, nat>, dim: nat, n: nat)
    requires WellFormed(p) && n <= |p|
    ensures QuadTerms(p, index, dim, n).Ok? <==>
      forall k :: 0 <= k < n ==> Degree(p[k].0) <= 2 && forall l :: 0 <= l < |p[k].0| ==> p[k].0[l].0 in index
    ensures QuadTerms(p, index, dim, n).Err? ==> QuadTerms(p, index, dim, n).error in {DegreeAboveTwo, UnknownVariable}
    decreases n
  {
    if n > 0 {
      QuadTermsOk(p, index, dim, n - 1);
      if QuadTerms(p, index, dim, n - 1).Ok? {
        AccumulateOk(QuadTerms(p, index, dim, n - 1).value, p[n - 1].0, Value(p[n - 1].1), index);
      }
    }
  }

  /** One monomial is accepted exactly when its degree is at most two and
      its variables have positions. */
  lemma AccumulateOk(q: Quadratic, m: Monomial, coef: real, index: map<Variable, nat>)
    requires Canonical(m)
    ensures Accumulate(q, m, coef, index).Ok? <==> Degree(m) <= 2 && forall l :: 0 <= l < |m| ==> m[l].0 in index
    ensures Accumulate(q, m, coef, index).Err? ==> Accumulate(q, m, coef, index).error in {DegreeAboveTwo, UnknownVariable}
  {
    DegreeAtLeastLength(m);
  }

  lemma {:induction false} QuadTermsStuck(p: Terms, index: map<Variable, nat>, dim: nat, k: nat, n: nat)
    requires k <= n <= |p| && QuadTerms(p, index, dim, k).Err?
    ensures QuadTerms(p, index, dim, n) == QuadTerms(p, index, dim, k)
    decreases n
  {
    if k < n {
      QuadTermsStuck(p, index, dim, k, n - 1);
    }
  }

  // Symmetry

  /** A change on the diagonal keeps Q symmetric. */
  lemma DiagonalSymmetric(Q: seq<seq<real>>, a: nat, d: real)
    requires Square(Q, |Q|) && Symmetric(Q)
    ensures Square(Increase(Q, a, a, d), |Q|) && Symmetric(Increase(Q, a, a, d))
  {
    var Q1 := Increase(Q, a, a, d);
    forall i, j | 0 <= i < |Q1| && 0 <= j < |Q1| ensures Q1[i][j] == Q1[j][i] {
      if !(i == a && j == a) {
        assert Q1[i][j] == Q[i][j] && Q1[j][i] == Q[j][i];
      }
    }
  }

  /** Each pass keeps Q square and symmetric, whatever the positions: a
      cross term is mirrored, a square term lands on the diagonal, and a
      position outside Q changes nothing. */
  lemma AccumulateSymmetric(q: Quadratic, m: Monomial, coef: real, index: map<Variable, nat>)
    requires Square(q.Q, |q.Q|) && Symmetric(q.Q) && Accumulate(q, m, coef, index).Ok?
    ensures Square(Accumulate(q, m, coef, index).value.Q, |q.Q|)
    ensures Symmetric(Accumulate(q, m, coef, index).value.Q)
  {
    if |m| == 2 && Degree(m) <= 2 {
      var i1, i2 := index[m[0].0], index[m[1].0];
      var Q := q.Q;
      if i1 < |Q| && i2 < |Q| {
        if i1 == i2 {
          DiagonalSymmetric(Q, i1, coef);
          var Q1 := Increase(Q, i1, i1, coef);
          assert Q1[i1][i1 := Q1[i1][i1]] == Q1[i1];
          assert Q1[i1 := Q1[i1]] == Q1;
        } else {
          CrossSymmetric(Q, i1, i2, coef);
        }
      }
    } else if |m| == 1 && Degree(m) <= 2 && m[0].1 == 2 {
      DiagonalSymmetric(q.Q, index[m[0].0], 2.0 * coef);
    }
  }

  /** Q is square and symmetric after every pass of the loop; this needs
      nothing of the polynomial or of the positions. */
  lemma {:induction false} QuadTermsSymmetric(p: Terms, index: map<Variable, nat>, dim: nat, n: nat)
    requires n <= |p| && QuadTerms(p, index, dim, n).Ok?
    ensures Square(QuadTerms(p, index, dim, n).value.Q, dim)
    ensures Symmetric(QuadTerms(p, index, dim, n).value.Q)
    decreases n
  {
    if n > 0 {
      QuadTermsSymmetric(p, index, dim, n - 1);
      AccumulateSymmetric(QuadTerms(p, index, dim, n - 1).value, p[n - 1].0, Value(p[n - 1].1), index);
    }
  }

  // The updates on the form

  /** Setting one entry of Q changes x'Qx by x[a] times the change times x[b]. */
  lemma SetForm(Q: seq<seq<real>>, x: seq<real>, a: nat, b: nat, y: real)
    requires Square(Q, |x|) && a < |x| && b < |x|
    ensures Square(Q[a := Q[a][b := y]], |x|)
    ensures Form(Q[a := Q[a][b := y]], x, |x|) == Form(Q, x, |x|) + Product(x[a], Product(y - Q[a][b], x[b]))
  {
    var row := Q[a][b := y];
    FormUpdate(Q, x, |x|, a, row);
    DotUpdate(Q[a], x, b, y);
    Difference(y, Q[a][b], x[b]);
    Scale(x[a], Dot(Q[a], x), Dot(row, x), Product(y - Q[a][b], x[b]));
  }

  lemma Difference(y: real, z: real, w: real)
    ensures Product(y, w) - Product(z, w) == Product(y - z, w)
  {
  }

  lemma Scale(s: real, u: real, u': real, e: real)
    requires u' == u + e
    ensures Product(s, u') - Product(s, u) == Product(s, e)
  {
  }

  /** A cross term on two distinct positions keeps Q symmetric and adds
      2 d x[a] x[b] to x'Qx. */
  lemma CrossForm(Q: seq<seq<real>>, x: seq<real>, a: nat, b: nat, d: real)
    requires Square(Q, |x|) && Symmetric(Q) && a < |x| && b < |x| && a != b
    ensures Square(Mirror(Increase(Q, a, b, d), a, b), |x|)
    ensures Symmetric(Mirror(Increase(Q, a, b, d), a, b))
    ensures Form(Mirror(Increase(Q, a, b, d), a, b), x, |x|) == Form(Q, x, |x|) + 2.0 * Product(d, Product(x[a], x[b]))
  {
    var Q1 := Q[a := Q[a][b := Q[a][b] + d]];
    assert Increase(Q, a, b, d) == Q1;
    SetForm(Q, x, a, b, Q[a][b] + d);
    assert Q1[b][a] == Q[a][b];
    var Q2 := Q1[b := Q1[b][a := Q1[a][b]]];
    assert Mirror(Q1, a, b) == Q2;
    SetForm(Q1, x, b, a, Q1[a][b]);
    CrossSymmetric(Q, a, b, d);
    assert (Q[a][b] + d) - Q[a][b] == d && Q1[a][b] - Q1[b][a] == d;
    Twice(x[a], x[b], d);
    CrossSum(Form(Q, x, |x|), Form(Q1, x, |x|), Form(Q2, x, |x|),
      Product(x[a], Product(d, x[b])), Product(x[b], Product(d, x[a])), Product(d, Product(x[a], x[b])));
  }

  lemma CrossSum(f0: real, f1: real, f2: real, t1: real, t2: real, t: real)
    requires f1 == f0 + t1 && f2 == f1 + t2 && t1 + t2 == 2.0 * t
    ensures f2 == f0 + 2.0 * t
  {
  }

  lemma CrossSymmetric(Q: seq<seq<real>>, a: nat, b: nat, d: real)
    requires Square(Q, |Q|) && Symmetric(Q) && a < |Q| && b < |Q| && a != b
    ensures var Q1 := Q[a := Q[a][b := Q[a][b] + d]];
      var Q2 := Q1[b := Q1[b][a := Q1[a][b]]];
      Square(Q2, |Q|) && Symmetric(Q2)
  {
    var Q1 := Q[a := Q[a][b := Q[a][b] + d]];
    var Q2 := Q1[b := Q1[b][a := Q1[a][b]]];
    assert Square(Q2, |Q|);
    forall i, j | 0 <= i < |Q| && 0 <= j < |Q| ensures Q2[i][j] == Q2[j][i] {
      if (i == a && j == b) || (i == b && j == a) {
        assert Q2[a][b] == Q[a][b] + d == Q2[b][a];
      } else {
        assert Q2[i][j] == Q[i][j] && Q2[j][i] == Q[j][i];
      }
    }
  }

  lemma Twice(u: real, w: real, d: real)
    ensures Product(u, Product(d, w)) + Product(w, Product(d, u)) == 2.0 * Product(d, Product(u, w))
  {
  }

  /** A square term keeps Q symmetric and adds x[a] d x[a] to x'Qx. */
  lemma DiagonalForm(Q: seq<seq<real>>, x: seq<real>, a: nat, c: real)
    requires Square(Q, |x|) && Symmetric(Q) && a < |x|
    ensures Square(Increase(Q, a, a, 2.0 * c), |x|)
    ensures Symmetric(Increase(Q, a, a, 2.0 * c))
    ensures Form(Increase(Q, a, a, 2.0 * c), x, |x|) == Form(Q, x, |x|) + 2.0 * Product(c, x[a] * x[a])
  {
    var Q1 := Q[a := Q[a][a := Q[a][a] + 2.0 * c]];
    assert Increase(Q, a, a, 2.0 * c) == Q1;
    SetForm(Q, x, a, a, Q[a][a] + 2.0 * c);
    assert (Q[a][a] + 2.0 * c) - Q[a][a] == 2.0 * c;
    DoubleSquare(x[a], c);
    forall i, j | 0 <= i < |Q1| && 0 <= j < |Q1| ensures Q1[i][j] == Q1[j][i] {
      if !(i == a && j == a) {
        assert Q1[i][j] == Q[i][j] && Q1[j][i] == Q[j][i];
      }
    }
  }

  /** Adding d to entry a adds d x[a] to b'x. */
  lemma AddDot(v: seq<real>, x: seq<real>, a: nat, d: real)
    requires |v| == |x| && a < |v|
    ensures Dot(Add(v, a, d), x) == Dot(v, x) + d * x[a]
  {
    var v' := v[a := v[a] + d];
    assert Add(v, a, d) == v';
    DotUpdate(v, x, a, v[a] + d);
    Distribute(v[a], d, x[a]);
    assert Dot(v', x) == Dot(v, x) - Product(v[a], x[a]) + Product(v[a] + d, x[a]);
  }

  lemma Distribute(u: real, w: real, y: real)
    ensures Product(u + w, y) == Product(u, y) + w * y
  {
  }

  // What the decomposition means

  /** The value of 0.5 x'Qx + b'x + c. */
  function QuadValue(q: Quadratic, x: seq<real>): real
    requires Square(q.Q, |x|) && |q.b| == |x|
  {
    0.5 * Form(q.Q, x, |x|) + Dot(q.b, x) + q.c
  }

  /** Invariant of the loop: Q stays square and symmetric, and the value of
      the monomials so far is 0.5 x'Qx + b'x + c at every point x giving
      each indexed variable its value. */
  lemma {:induction false} QuadTermsValue(p: Terms, index: map<Variable, nat>, dim: nat, n: nat,
                                          env: Env, I: Interp, x: seq<real>)
    requires WellFormed(p) && Numeric(p) && Injective(index) && Bounded(index, dim)
    requires n <= |p| && QuadTerms(p, index, dim, n).Ok?
    requires |x| == dim && Matches(x, index, env)
    ensures Square(QuadTerms(p, index, dim, n).value.Q, dim)
    ensures Symmetric(QuadTerms(p, index, dim, n).value.Q)
    ensures PolyValue(p[..n], env, I) == QuadValue(QuadTerms(p, index, dim, n).value, x)
    decreases n
  {
    if n == 0 {
      FormOfZeros(dim, x, dim);
      DotZero(dim, x);
    } else {
      QuadTermsValue(p, index, dim, n - 1, env, I, x);
      QuadStep(p, index, dim, n, env, I, x);
    }
  }

  /** One monomial's step: Q stays square and symmetric and 0.5 x'Qx +
      b'x + c grows by the monomial's value. */
  lemma QuadStep(p: Terms, index: map<Variable, nat>, dim: nat, n: nat, env: Env, I: Interp, x: seq<real>)
    requires WellFormed(p) && Numeric(p) && Injective(index) && Bounded(index, dim)
    requires 0 < n <= |p| && QuadTerms(p, index, dim, n).Ok?
    requires |x| == dim && Matches(x, index, env)
    requires Square(QuadTerms(p, index, dim, n - 1).value.Q, dim) && Symmetric(QuadTerms(p, index, dim, n - 1).value.Q)
    ensures Square(QuadTerms(p, index, dim, n).value.Q, dim) && Symmetric(QuadTerms(p, index, dim, n).value.Q)
    ensures QuadValue(QuadTerms(p, index, dim, n).value, x) - QuadValue(QuadTerms(p, index, dim, n - 1).value, x)
         == PolyValue(p[..n], env, I) - PolyValue(p[..n - 1], env, I)
  {
    var coef := p[n - 1].1.c;
    assert p[n - 1].1 == Const(coef);
    PolyValueStep(p, n, coef, env, I);
    AccumulateValue(QuadTerms(p, index, dim, n - 1).value, p[n - 1].0, coef, index, env, x);
  }

  /** One pass of the loop adds the value of coef times m to
      0.5 x'Qx + b'x + c and keeps Q symmetric. */
  lemma AccumulateValue(q: Quadratic, m: Monomial, coef: real, index: map<Variable, nat>, env: Env, x: seq<real>)
    requires Canonical(m) && Injective(index) && Bounded(index, |x|) && Matches(x, index, env)
    requires Square(q.Q, |x|) && Symmetric(q.Q) && |q.b| == |x|
    requires Accumulate(q, m, coef, index).Ok?
    ensures Square(Accumulate(q, m, coef, index).value.Q, |x|) && Symmetric(Accumulate(q, m, coef, index).value.Q)
    ensures QuadValue(Accumulate(q, m, coef, index).value, x) - QuadValue(q, x) == Product(coef, MonomialValue(m, env))
  {
    if Degree(m) == 0 {
      DegreeZero(m);
      ConstantStep(q, x, coef, m, env);
    } else if Degree(m) == 1 {
      DegreeOne(m);
      assert m[0].1 == 1;
      LinearStep(q, x, coef, m, index, env);
    } else {
      DegreeTwo(m);
      if |m| == 1 {
        DiagonalStep(q, x, coef, m, index, env);
      } else {
        CrossStep(q, x, coef, m, index, env);
      }
    }
  }

  /** The value of x_u x_v at the point. */
  lemma CrossValue(m: Monomial, index: map<Variable, nat>, env: Env, x: seq<real>)
    requires |m| == 2 && m[0].1 == 1 && m[1].1 == 1 && m[0].0 in index && m[1].0 in index
    requires Matches(x, index, env)
    ensures MonomialValue(m, env) == x[index[m[0].0]] * x[index[m[1].0]]
  {
    ValueOfCross(m, env);
  }

  lemma ConstantStep(q: Quadratic, x: seq<real>, coef: real, m: Monomial, env: Env)
    requires Square(q.Q, |x|) && |q.b| == |x| && m == One
    ensures QuadValue(q.(c := q.c + coef), x) - QuadValue(q, x) == Product(coef, MonomialValue(m, env))
  {
  }

  lemma LinearStep(q: Quadratic, x: seq<real>, coef: real, m: Monomial, index: map<Variable, nat>, env: Env)
    requires Square(q.Q, |x|) && |q.b| == |x| && Matches(x, index, env)
    requires |m| == 1 && m[0].1 == 1 && m[0].0 in index
    ensures QuadValue(q.(b := Add(q.b, index[m[0].0], coef)), x) - QuadValue(q, x) == Product(coef, MonomialValue(m, env))
  {
    var i := index[m[0].0];
    AddDot(q.b, x, i, coef);
    ValueOfSingle(m[0].0, env);
    assert MonomialValue(m, env) == x[i];
  }

  lemma DiagonalStep(q: Quadratic, x: seq<real>, coef: real, m: Monomial, index: map<Variable, nat>, env: Env)
    requires Square(q.Q, |x|) && Symmetric(q.Q) && |q.b| == |x| && Matches(x, index, env)
    requires |m| == 1 && m[0].1 == 2 && m[0].0 in index
    ensures var i := index[m[0].0];
      Square(Increase(q.Q, i, i, 2.0 * coef), |x|) && Symmetric(Increase(q.Q, i, i, 2.0 * coef))
    ensures var i := index[m[0].0];
      QuadValue(q.(Q := Increase(q.Q, i, i, 2.0 * coef)), x) - QuadValue(q, x) == Product(coef, MonomialValue(m, env))
  {
    var i := index[m[0].0];
    SquareValue(m, index, env, x);
    DiagonalForm(q.Q, x, i, coef);
    HalfStep(q, Increase(q.Q, i, i, 2.0 * coef), x, Product(coef, MonomialValue(m, env)));
  }

  /** The value of x_v^2 at the point. */
  lemma SquareValue(m: Monomial, index: map<Variable, nat>, env: Env, x: seq<real>)
    requires |m| == 1 && m[0].1 == 2 && m[0].0 in index
    requires Matches(x, index, env)
    ensures MonomialValue(m, env) == x[index[m[0].0]] * x[index[m[0].0]]
  {
    ValueOfSquare(m, env);
  }

  /** Raising x'Qx by 2P raises 0.5 x'Qx + b'x + c by P. */
  lemma HalfStep(q: Quadratic, Q': seq<seq<real>>, x: seq<real>, P: real)
    requires Square(q.Q, |x|) && Square(Q', |x|) && |q.b| == |x|
    requires Form(Q', x, |x|) == Form(q.Q, x, |x|) + 2.0 * P
    ensures QuadValue(q.(Q := Q'), x) - QuadValue(q, x) == P
  {
  }

  lemma DoubleSquare(u: real, c: real)
    ensures Product(u, Product(2.0 * c, u)) == 2.0 * Product(c, u * u)
  {
  }

  lemma CrossStep(q: Quadratic, x: seq<real>, coef: real, m: Monomial, index: map<Variable, nat>, env: Env)
    requires Square(q.Q, |x|) && Symmetric(q.Q) && |q.b| == |x| && Matches(x, index, env) && Injective(index)
    requires |m| == 2 && m[0].1 == 1 && m[1].1 == 1 && m[0].0 < m[1].0 && m[0].0 in index && m[1].0 in index
    ensures var i1, i2 := index[m[0].0], index[m[1].0];
      Square(Mirror(Increase(q.Q, i1, i2, coef), i1, i2), |x|) && Symmetric(Mirror(Increase(q.Q, i1, i2, coef), i1, i2))
    ensures var i1, i2 := index[m[0].0], index[m[1].0];
      QuadValue(q.(Q := Mirror(Increase(q.Q, i1, i2, coef), i1, i2)), x) - QuadValue(q, x) == Product(coef, MonomialValue(m, env))
  {
    var i1, i2 := index[m[0].0], index[m[1].0];
    CrossForm(q.Q, x, i1, i2, coef);
    CrossValue(m, index, env, x);
  }

  /** `DecomposeQuadraticPolynomial`'s identity: with Q symmetric, the
      polynomial equals 0.5 x'Qx + b'x + c. */
  lemma QuadraticValue(p: Terms, index: map<Variable, nat>, env: Env, I: Interp, x: seq<real>)
    requires WellFormed(p) && Numeric(p) && Injective(index) && Bounded(index, |index|)
    requires QuadTerms(p, index, |index|, |p|).Ok?
    requires |x| == |index| && Matches(x, index, env)
    ensures Square(QuadTerms(p, index, |index|, |p|).value.Q, |index|)
    ensures Symmetric(QuadTerms(p, index, |index|, |p|).value.Q)
    ensures PolyValue(p, env, I) == QuadValue(QuadTerms(p, index, |index|, |p|).value, x)
  {
    QuadTermsValue(p, index, |index|, |p|, env, I, x);
    assert p[..|p|] == p;
  }

  // The implementation

  /** The entries of a matrix, row by row. */
  function Matrix(Q: array2<real>): (r: seq<seq<real>>)
    reads Q
    ensures |r| == Q.Length0 && forall i :: 0 <= i < Q.Length0 ==> |r[i]| == Q.Length1
  {
    seq(Q.Length0, i requires 0 <= i < Q.Length0 reads Q => seq(Q.Length1, j requires 0 <= j < Q.Length1 reads Q => Q[i, j]))
  }

  method AddEntry(Q: array2<real>, a: nat, b: nat, d: real)
    requires a < Q.Length0 && b < Q.Length1
    modifies Q
    ensures Matrix(Q) == Increase(old(Matrix(Q)), a, b, d)
  {
    ghost var M := Matrix(Q);
    Q[a, b] := Q[a, b] + d;
    ghost var R := Increase(M, a, b, d);
    forall i | 0 <= i < Q.Length0 ensures Matrix(Q)[i] == R[i] {
      assert forall j :: 0 <= j < Q.Length1 ==> Matrix(Q)[i][j] == R[i][j];
    }
  }

  method MirrorEntry(Q: array2<real>, a: nat, b: nat)
    requires a < Q.Length0 && b < Q.Length1 && b < Q.Length0 && a < Q.Length1
    modifies Q
    ensures Matrix(Q) == Mirror(old(Matrix(Q)), a, b)
  {
    ghost var M := Matrix(Q);
    Q[b, a] := Q[a, b];
    ghost var R := Mirror(M, a, b);
    forall i | 0 <= i < Q.Length0 ensures Matrix(Q)[i] == R[i] {
      assert forall j :: 0 <= j < Q.Length1 ==> Matrix(Q)[i][j] == R[i][j];
    }
  }

  /** `Q.setZero(); b.setZero();` */
  method Clear(Q: array2<real>, b: array<real>)
    requires Q.Length0 == Q.Length1
    modifies Q, b
    ensures Matrix(Q) == ZeroMatrix(Q.Length0) && b[..] == ZeroVector(b.Length)
  {
    forall i, j | 0 <= i < Q.Length0 && 0 <= j < Q.Length1 {
      Q[i, j] := 0.0;
    }
    forall i | 0 <= i < b.Length {
      b[i] := 0.0;
    }
    forall i | 0 <= i < Q.Length0 ensures Matrix(Q)[i] == ZeroMatrix(Q.Length0)[i] {
      assert forall j :: 0 <= j < Q.Length1 ==> Matrix(Q)[i][j] == ZeroMatrix(Q.Length0)[i][j];
    }
    assert b[..] == ZeroVector(b.Length);
  }

  /** One pass of the loop on the arrays: fails where `Accumulate` fails and
      otherwise leaves Q, b and c as `Accumulate` computes them. */
  method AccumulateInto(Q: array2<real>, b: array<real>, c: real, m: Monomial, coef: real, index: map<Variable, nat>)
    returns (r: Result<real>)
    requires Q.Length0 == b.Length && Q.Length1 == b.Length && Bounded(index, b.Length)
    modifies Q, b
    ensures r.Ok? <==> Accumulate(Quadratic(old(Matrix(Q)), old(b[..]), c), m, coef, index).Ok?
    ensures r.Err? ==> r.error == Accumulate(Quadratic(old(Matrix(Q)), old(b[..]), c), m, coef, index).error
    ensures r.Ok? ==> Accumulate(Quadratic(old(Matrix(Q)), old(b[..]), c), m, coef, index) == Ok(Quadratic(Matrix(Q), b[..], r.value))
  {
    if Degree(m) > 2 {
      return Err(DegreeAboveTwo);
    }
    if |m| == 2 {
      if m[0].0 !in index || m[1].0 !in index {
        return Err(UnknownVariable);
      }
      var i1, i2 := index[m[0].0], index[m[1].0];
      AddEntry(Q, i1, i2, coef);
      MirrorEntry(Q, i1, i2);
      r := Ok(c);
    } else if |m| == 1 {
      if m[0].0 !in index {
        return Err(UnknownVariable);
      }
      var i := index[m[0].0];
      if m[0].1 == 2 {
        AddEntry(Q, i, i, 2.0 * coef);
      } else {
        b[i] := b[i] + coef;
      }
      r := Ok(c);
    } else {
      r := Ok(c + coef);
    }
  }

  /** `DecomposeQuadraticPolynomial(poly, map_var_to_index, Q, b, c)`:
      zeroes Q, b and c, then adds each monomial's coefficient where it
      belongs; fails on a monomial of degree above two or a variable missing
      from the map. */
  method DecomposeQuadraticPolynomial(p: Terms, index: map<Variable, nat>, Q: array2<real>, b: array<real>)
    returns (r: Result<real>)
    requires Q.Length0 == |index| && Q.Length1 == |index| && b.Length == |index|
    requires Bounded(index, |index|) && WellFormed(p)
    requires forall k :: 0 <= k < |p| ==> p[k].1.Const? && p[k].1.c != 0.0
    modifies Q, b
    ensures r.Ok? <==> QuadTerms(p, index, |index|, |p|).Ok?
    ensures r.Err? ==> r.error == QuadTerms(p, index, |index|, |p|).error
    ensures r.Ok? ==> Quadratic(Matrix(Q), b[..], r.value) == QuadTerms(p, index, |index|, |p|).value
  {
    var dim := |index|;
    Clear(Q, b);
    var c := 0.0;
    var k := 0;
    while k < |p|
      invariant 0 <= k <= |p|
      invariant QuadTerms(p, index, dim, k) == Ok(Quadratic(Matrix(Q), b[..], c))
    {
      var s := AccumulateInto(Q, b, c, p[k].0, p[k].1.c, index);
      if s.Err? {
        QuadTermsStuck(p, index, dim, k + 1, |p|);
        return Err(s.error);
      }
      c := s.value;
      k := k + 1;
    }
    r := Ok(c);
  }
}
