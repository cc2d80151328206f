/** What the entries of Q, b and c hold after `DecomposeQuadraticPolynomial`:
    each entry holds the coefficient of the one monomial that writes it
    (twice the coefficient on the diagonal), and an entry that no monomial
    writes holds 0. */
module QuadraticEntries {
  import opened Results
  import opened Symbolic
  import opened Polynomials
  import opened Vectors
  import opened AffineDecomposition
  import opened QuadraticForms

  /** Monomial m writes Q(a, a2): x_u x_v writes (i_u, i_v) and (i_v, i_u),
      x_v^2 writes (i_v, i_v). */
  predicate WritesEntry(m: Monomial, index: map<Variable, nat>, a: nat, a2: nat)
  {
    if |m| == 2 then
      && m[0].0 in index && m[1].0 in index
      && ((index[m[0].0] == a && index[m[1].0] == a2) || (index[m[0].0] == a2 && index[m[1].0] == a))
    else |m| == 1 && m[0].1 == 2 && m[0].0 in index && index[m[0].0] == a && a == a2
  }

  /** Monomial m writes b(a): x_v writes b(i_v). */
  predicate WritesLinear(m: Monomial, index: map<Variable, nat>, a: nat)
  {
    |m| == 1 && m[0].1 != 2 && m[0].0 in index && index[m[0].0] == a
  }

  // One pass of the loop

  /** `Q(a, b) += d` keeps Q square and changes entry (a, b) only. */
  lemma IncreaseAt(Q: seq<seq<real>>, dim: nat, a: nat, b: nat, d: real, x: nat, y: nat)
    requires Square(Q, dim) && x < dim && y < dim
    ensures Square(Increase(Q, a, b, d), dim)
    ensures Increase(Q, a, b, d)[x][y] == if x == a && y == b then Q[a][b] + d else Q[x][y]
  {
  }

  /** `Q(b, a) = Q(a, b)` keeps Q square and changes entry (b, a) only. */
  lemma MirrorAt(Q: seq<seq<real>>, dim: nat, a: nat, b: nat, x: nat, y: nat)
    requires Square(Q, dim) && a < dim && b < dim && x < dim && y < dim
    ensures Square(Mirror(Q, a, b), dim)
    ensures Mirror(Q, a, b)[x][y] == if x == b && y == a then Q[a][b] else Q[x][y]
  {
  }

  /** A pass keeps Q square and b as long as it was. */
  lemma AccumulateSquare(q: Quadratic, m: Monomial, coef: real, index: map<Variable, nat>, dim: nat)
    requires Square(q.Q, dim) && Accumulate(q, m, coef, index).Ok?
    ensures Square(Accumulate(q, m, coef, index).value.Q, dim)
  {
    if |m| == 2 {
      var i1, i2 := index[m[0].0], index[m[1].0];
      forall a | 0 <= a < dim ensures |Mirror(Increase(q.Q, i1, i2, coef), i1, i2)[a]| == dim {
      }
    }
  }

  /** A pass changes only the entries of Q and b its monomial writes. */
  lemma AccumulateOther(q: Quadratic, m: Monomial, coef: real, index: map<Variable, nat>, dim: nat, a: nat, a2: nat)
    requires Square(q.Q, dim) && |q.b| == dim && a < dim && a2 < dim && Bounded(index, dim)
    requires Accumulate(q, m, coef, index).Ok?
    ensures Square(Accumulate(q, m, coef, index).value.Q, dim)
    ensures !WritesEntry(m, index, a, a2) ==> Accumulate(q, m, coef, index).value.Q[a][a2] == q.Q[a][a2]
    ensures !WritesLinear(m, index, a) ==> Accumulate(q, m, coef, index).value.b[a] == q.b[a]
  {
    AccumulateSquare(q, m, coef, index, dim);
    if |m| == 2 {
      var i1, i2 := index[m[0].0], index[m[1].0];
      IncreaseAt(q.Q, dim, i1, i2, coef, a, a2);
      MirrorAt(Increase(q.Q, i1, i2, coef), dim, i1, i2, a, a2);
    } else if |m| == 1 && m[0].1 == 2 {
      var i := index[m[0].0];
      IncreaseAt(q.Q, dim, i, i, 2.0 * coef, a, a2);
    }
  }

  /** A pass adds to c only for the constant monomial. */
  lemma AccumulateConstant(q: Quadratic, m: Monomial, coef: real, index: map<Variable, nat>)
    requires Canonical(m) && Accumulate(q, m, coef, index).Ok?
    ensures Accumulate(q, m, coef, index).value.c == if |m| == 0 then q.c + coef else q.c
  {
    DegreeAtLeastLength(m);
  }

  /** Two different monomials of degree at most two over indexed variables
      never write the same entry. */
  lemma DistinctWrites(m: Monomial, m': Monomial, index: map<Variable, nat>)
    requires Canonical(m) && Canonical(m') && Degree(m) <= 2 && Degree(m') <= 2
    requires Injective(index) && m != m'
    requires forall l :: 0 <= l < |m| ==> m[l].0 in index
    ensures |m| == 2 ==>
      && !WritesEntry(m', index, index[m[0].0], index[m[1].0])
      && !WritesEntry(m', index, index[m[1].0], index[m[0].0])
    ensures |m| == 1 && m[0].1 == 2 ==> !WritesEntry(m', index, index[m[0].0], index[m[0].0])
    ensures |m| == 1 && m[0].1 != 2 ==> !WritesLinear(m', index, index[m[0].0])
  {
    Powers(m);
    Powers(m');
  }

  /** The powers of a monomial of degree at most two: x_u x_v with u < v,
      x_v^2 or x_v. */
  lemma Powers(m: Monomial)
    requires Canonical(m) && Degree(m) <= 2
    ensures |m| <= 2
    ensures |m| == 2 ==> m == [(m[0].0, 1), (m[1].0, 1)] && m[0].0 < m[1].0
    ensures |m| == 1 ==> m == [(m[0].0, m[0].1)] && (m[0].1 == 1 || m[0].1 == 2)
  {
    DegreeAtLeastLength(m);
    if |m| == 2 {
      DegreeTwo(m);
    } else if |m| == 1 {
      assert Degree(m) == Degree(m[..0]) + m[0].1;
    }
  }

  // The loop

  lemma {:induction false} QuadTermsSquare(p: Terms, index: map<Variable, nat>, dim: nat, n: nat)
    requires n <= |p| && QuadTerms(p, index, dim, n).Ok?
    ensures Square(QuadTerms(p, index, dim, n).value.Q, dim)
    decreases n
  {
    if n > 0 {
      QuadTermsSquare(p, index, dim, n - 1);
      AccumulateSquare(QuadTerms(p, index, dim, n - 1).value, p[n - 1].0, Value(p[n - 1].1), index, dim);
    }
  }

  /** An entry of Q that no monomial so far writes still holds 0. */
  lemma {:induction false} QuadTermsUnwritten(p: Terms, index: map<Variable, nat>, dim: nat, n: nat, a: nat, a2: nat)
    requires Bounded(index, dim) && n <= |p| && QuadTerms(p, index, dim, n).Ok? && a < dim && a2 < dim
    requires forall k :: 0 <= k < n ==> !WritesEntry(p[k].0, index, a, a2)
    ensures Square(QuadTerms(p, index, dim, n).value.Q, dim)
    ensures QuadTerms(p, index, dim, n).value.Q[a][a2] == 0.0
    decreases n
  {
    if n > 0 {
      QuadTermsUnwritten(p, index, dim, n - 1, a, a2);
      AccumulateOther(QuadTerms(p, index, dim, n - 1).value, p[n - 1].0, Value(p[n - 1].1), index, dim, a, a2);
    } else {
      assert ZeroMatrix(dim)[a] == ZeroVector(dim);
    }
  }

  /** An entry of b that no monomial so far writes still holds 0. */
  lemma {:induction false} QuadTermsUnwrittenLinear(p: Terms, index: map<Variable, nat>, dim: nat, n: nat, a: nat)
    requires Bounded(index, dim) && n <= |p| && QuadTerms(p, index, dim, n).Ok? && a < dim
    requires forall k :: 0 <= k < n ==> !WritesLinear(p[k].0, index, a)
    ensures QuadTerms(p, index, dim, n).value.b[a] == 0.0
    decreases n
  {
    if n > 0 {
      QuadTermsUnwrittenLinear(p, index, dim, n - 1, a);
      QuadTermsSquare(p, index, dim, n - 1);
      AccumulateOther(QuadTerms(p, index, dim, n - 1).value, p[n - 1].0, Value(p[n - 1].1), index, dim, a, a);
    }
  }

  /** Without the constant monomial so far c is still 0. */
  lemma {:induction false} QuadTermsNoConstant(p: Terms, index: map<Variable, nat>, dim: nat, n: nat)
    requires WellFormed(p) && n <= |p| && QuadTerms(p, index, dim, n).Ok?
    requires forall k :: 0 <= k < n ==> p[k].0 != One
    ensures QuadTerms(p, index, dim, n).value.c == 0.0
    decreases n
  {
    if n > 0 {
      QuadTermsNoConstant(p, index, dim, n - 1);
      AccumulateConstant(QuadTerms(p, index, dim, n - 1).value, p[n - 1].0, Value(p[n - 1].1), index);
    }
  }

  // What the entries hold

  /** Where m writes, Q, b and c hold its coefficient: Q(i_u, i_v) = Q(i_v,
      i_u) = coef for x_u x_v, Q(i_v, i_v) = 2 coef for x_v^2, b(i_v) = coef
      for x_v, and c = coef for the constant monomial. */
  predicate Holds(q: Quadratic, m: Monomial, coef: real, index: map<Variable, nat>, dim: nat)
    requires Square(q.Q, dim) && |q.b| == dim && Bounded(index, dim)
  {
    && (|m| == 2 ==>
          && m[0].0 in index && m[1].0 in index
          && q.Q[index[m[0].0]][index[m[1].0]] == coef && q.Q[index[m[1].0]][index[m[0].0]] == coef)
    && (|m| == 1 && m[0].1 == 2 ==> m[0].0 in index && q.Q[index[m[0].0]][index[m[0].0]] == 2.0 * coef)
    && (|m| == 1 && m[0].1 != 2 ==> m[0].0 in index && q.b[index[m[0].0]] == coef)
    && (|m| == 0 ==> q.c == coef)
  }

  /** Every monomial's coefficient is where that monomial writes, once the
      loop is past it. */
  lemma {:induction false} QuadTermsEntries(p: Terms, index: map<Variable, nat>, dim: nat, n: nat, k: nat)
    requires WellFormed(p) && Injective(index) && Bounded(index, dim)
    requires k < n <= |p| && QuadTerms(p, index, dim, n).Ok?
    ensures Square(QuadTerms(p, index, dim, n).value.Q, dim)
    ensures Holds(QuadTerms(p, index, dim, n).value, p[k].0, Value(p[k].1), index, dim)
    decreases n
  {
    QuadTermsSquare(p, index, dim, n);
    if k == n - 1 {
      EntriesFresh(p, index, dim, k);
    } else {
      QuadTermsEntries(p, index, dim, n - 1, k);
      EntriesKept(p, index, dim, n, k);
    }
  }

  /** Where m writes, Q, b and c still hold 0. */
  predicate Unset(q: Quadratic, m: Monomial, index: map<Variable, nat>, dim: nat)
    requires Square(q.Q, dim) && |q.b| == dim && Bounded(index, dim)
  {
    && (|m| == 2 && m[0].0 in index && m[1].0 in index ==> q.Q[index[m[0].0]][index[m[1].0]] == 0.0)
    && (|m| == 1 && m[0].1 == 2 && m[0].0 in index ==> q.Q[index[m[0].0]][index[m[0].0]] == 0.0)
    && (|m| == 1 && m[0].1 != 2 && m[0].0 in index ==> q.b[index[m[0].0]] == 0.0)
    && (|m| == 0 ==> q.c == 0.0)
  }

  /** A pass over entries that hold 0 leaves its coefficient there. */
  lemma AccumulateWrites(q: Quadratic, m: Monomial, coef: real, index: map<Variable, nat>, dim: nat)
    requires Canonical(m) && Injective(index) && Bounded(index, dim)
    requires Square(q.Q, dim) && |q.b| == dim && Unset(q, m, index, dim)
    requires Accumulate(q, m, coef, index).Ok?
    ensures Square(Accumulate(q, m, coef, index).value.Q, dim) && |Accumulate(q, m, coef, index).value.b| == dim
    ensures Holds(Accumulate(q, m, coef, index).value, m, coef, index, dim)
  {
    AccumulateSquare(q, m, coef, index, dim);
    DegreeAtLeastLength(m);
    if |m| == 2 {
      var i1, i2 := index[m[0].0], index[m[1].0];
      assert i1 != i2;
      IncreaseAt(q.Q, dim, i1, i2, coef, i1, i2);
      MirrorAt(Increase(q.Q, i1, i2, coef), dim, i1, i2, i1, i2);
      MirrorAt(Increase(q.Q, i1, i2, coef), dim, i1, i2, i2, i1);
    } else if |m| == 1 && m[0].1 == 2 {
      var i := index[m[0].0];
      IncreaseAt(q.Q, dim, i, i, 2.0 * coef, i, i);
    }
  }

  /** The pass over monomial k writes its coefficient onto entries that
      held 0. */
  lemma EntriesFresh(p: Terms, index: map<Variable, nat>, dim: nat, k: nat)
    requires WellFormed(p) && Injective(index) && Bounded(index, dim)
    requires k < |p| && QuadTerms(p, index, dim, k + 1).Ok?
    ensures Square(QuadTerms(p, index, dim, k + 1).value.Q, dim)
    ensures Holds(QuadTerms(p, index, dim, k + 1).value, p[k].0, Value(p[k].1), index, dim)
  {
    QuadTermsSquare(p, index, dim, k);
    UnsetBefore(p, index, dim, k);
    AccumulateWrites(QuadTerms(p, index, dim, k).value, p[k].0, Value(p[k].1), index, dim);
  }

  /** Before the pass over monomial k, its entries hold 0. */
  lemma UnsetBefore(p: Terms, index: map<Variable, nat>, dim: nat, k: nat)
    requires WellFormed(p) && Injective(index) && Bounded(index, dim)
    requires k < |p| && QuadTerms(p, index, dim, k + 1).Ok?
    ensures Square(QuadTerms(p, index, dim, k).value.Q, dim)
    ensures Unset(QuadTerms(p, index, dim, k).value, p[k].0, index, dim)
  {
    QuadTermsOk(p, index, dim, k + 1);
    QuadTermsSquare(p, index, dim, k);
    var m := p[k].0;
    assert forall j :: 0 <= j < k ==> p[j].0 != m;
    if |m| == 2 {
      UnsetQ(p, index, dim, k, index[m[0].0], index[m[1].0]);
    } else if |m| == 1 && m[0].1 == 2 {
      UnsetQ(p, index, dim, k, index[m[0].0], index[m[0].0]);
    } else if |m| == 1 {
      UnsetB(p, index, dim, k);
    } else if |m| == 0 {
      QuadTermsNoConstant(p, index, dim, k);
    }
  }

  /** No monomial before k writes an entry of Q that monomial k writes. */
  lemma UnsetQ(p: Terms, index: map<Variable, nat>, dim: nat, k: nat, a: nat, a2: nat)
    requires WellFormed(p) && Injective(index) && Bounded(index, dim)
    requires k < |p| && QuadTerms(p, index, dim, k).Ok? && a < dim && a2 < dim
    requires forall j :: 0 <= j <= k ==> Degree(p[j].0) <= 2
    requires forall l :: 0 <= l < |p[k].0| ==> p[k].0[l].0 in index
    requires var m := p[k].0;
      || (|m| == 2 && a == index[m[0].0] && a2 == index[m[1].0])
      || (|m| == 1 && m[0].1 == 2 && a == a2 == index[m[0].0])
    ensures Square(QuadTerms(p, index, dim, k).value.Q, dim)
    ensures QuadTerms(p, index, dim, k).value.Q[a][a2] == 0.0
  {
    forall j | 0 <= j < k ensures !WritesEntry(p[j].0, index, a, a2) {
      DistinctWrites(p[k].0, p[j].0, index);
    }
    QuadTermsUnwritten(p, index, dim, k, a, a2);
  }

  /** No monomial before k writes the entry of b that monomial k writes. */
  lemma UnsetB(p: Terms, index: map<Variable, nat>, dim: nat, k: nat)
    requires WellFormed(p) && Injective(index) && Bounded(index, dim)
    requires k < |p| && QuadTerms(p, index, dim, k).Ok?
    requires forall j :: 0 <= j <= k ==> Degree(p[j].0) <= 2
    requires |p[k].0| == 1 && p[k].0[0].1 != 2 && p[k].0[0].0 in index
    ensures QuadTerms(p, index, dim, k).value.b[index[p[k].0[0].0]] == 0.0
  {
    forall j | 0 <= j < k ensures !WritesLinear(p[j].0, index, index[p[k].0[0].0]) {
      DistinctWrites(p[k].0, p[j].0, index);
    }
    QuadTermsUnwrittenLinear(p, index, dim, k, index[p[k].0[0].0]);
  }

  /** A later pass leaves the entries of monomial k alone. */
  lemma EntriesKept(p: Terms, index: map<Variable, nat>, dim: nat, n: nat, k: nat)
    requires WellFormed(p) && Injective(index) && Bounded(index, dim)
    requires k < n - 1 && n <= |p| && QuadTerms(p, index, dim, n).Ok?
    requires Square(QuadTerms(p, index, dim, n - 1).value.Q, dim)
    requires Holds(QuadTerms(p, index, dim, n - 1).value, p[k].0, Value(p[k].1), index, dim)
    ensures Square(QuadTerms(p, index, dim, n).value.Q, dim)
    ensures Holds(QuadTerms(p, index, dim, n).value, p[k].0, Value(p[k].1), index, dim)
  {
    QuadTermsOk(p, index, dim, n);
    var q0 := QuadTerms(p, index, dim, n - 1).value;
    var m, m' := p[k].0, p[n - 1].0;
    DistinctWrites(m, m', index);
    AccumulateConstant(q0, m', Value(p[n - 1].1), index);
    if |m| == 2 {
      var i1, i2 := index[m[0].0], index[m[1].0];
      AccumulateOther(q0, m', Value(p[n - 1].1), index, dim, i1, i2);
      AccumulateOther(q0, m', Value(p[n - 1].1), index, dim, i2, i1);
    } else if |m| == 1 {
      var i := index[m[0].0];
      AccumulateOther(q0, m', Value(p[n - 1].1), index, dim, i, i);
    } else {
      AccumulateSquare(q0, m', Value(p[n - 1].1), index, dim);
    }
  }
}
