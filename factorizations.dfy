/** The lumped factorization triple (W, alpha, w0) standing for
    sum_j W[j] * alpha[j] + w0, its value, the partition property it must
    satisfy, and the algebra of the operations the factorizer builds it with. */
module Factorizations {
  import opened Symbolic

  datatype Factorization = Factorization(w: seq<Expr>, alpha: seq<Expr>, w0: Expr)

  /** W and alpha are paired by position. */
  predicate Paired(f: Factorization) { |f.w| == |f.alpha| }

  /** The product of the values of one W entry and its alpha entry. */
  function Term(w: Expr, alpha: Expr, val: Expr -> real): real
  {
    val(w) * val(alpha)
  }

  /** sum_j val(w[j]) * val(alpha[j]). */
  function Dot(w: seq<Expr>, alpha: seq<Expr>, val: Expr -> real): real
    requires |w| == |alpha|
    decreases |w|
  {
    if |w| == 0 then 0.0
    else Dot(w[..|w| - 1], alpha[..|w| - 1], val) + Term(w[|w| - 1], alpha[|w| - 1], val)
  }

  /** The value the triple stands for. */
  function Value(f: Factorization, val: Expr -> real): real
    requires Paired(f)
  {
    Dot(f.w, f.alpha, val) + val(f.w0)
  }

  /** No entry references a parameter. */
  predicate AllFree(s: seq<Expr>, theta: set<Variable>)
  {
    forall j :: 0 <= j < |s| ==> Vars(s[j]) !! theta
  }

  /** Every entry references parameters only. */
  predicate AllParams(s: seq<Expr>, theta: set<Variable>)
  {
    forall j :: 0 <= j < |s| ==> Vars(s[j]) <= theta
  }

  /** The partition the factorization promises: every W[j] and w0 reference
      no parameter, and every alpha[j] references parameters only. */
  predicate Separated(f: Factorization, theta: set<Variable>)
  {
    && Paired(f)
    && AllFree(f.w, theta)
    && AllParams(f.alpha, theta)
    && Vars(f.w0) !! theta
  }

  /** The value of an expression under one assignment and interpretation. */
  function EvalAt(env: Env, I: Interp): Expr -> real
  {
    x => Eval(x, env, I)
  }

  /** `val` gives the simplified product the value of the product. */
  ghost predicate Multiplicative(val: Expr -> real)
  {
    forall a, b :: val(Times(a, b)) == Product(val(a), val(b))
  }

  /** `val` gives the simplified sum the value of the sum. */
  ghost predicate Additive(val: Expr -> real)
  {
    forall a, b :: val(Plus(a, b)) == val(a) + val(b)
  }

  /** `val` gives every constant its own value. */
  ghost predicate Constants(val: Expr -> real)
  {
    forall c :: val(Const(c)) == c
  }

  ghost predicate Arithmetic(val: Expr -> real)
  {
    Multiplicative(val) && Additive(val) && Constants(val)
  }

  /** Evaluation respects the arithmetic the factorizer builds with. */
  lemma EvalAtArithmetic(env: Env, I: Interp)
    ensures Arithmetic(EvalAt(env, I))
  {
    var val := EvalAt(env, I);
    forall a, b ensures val(Times(a, b)) == Product(val(a), val(b)) {
      TimesEval(a, b, env, I);
    }
    forall a, b ensures val(Plus(a, b)) == val(a) + val(b) {
      PlusEval(a, b, env, I);
    }
  }

  /** `f` is a lumped factorization of `e` under the parameter set `theta`:
      it is separated, and for every assignment and interpretation its value
      is the value of `e`. */
  ghost predicate Factors(f: Factorization, e: Expr, theta: set<Variable>)
  {
    && Separated(f, theta)
    && forall env: Env, I: Interp :: Value(f, EvalAt(env, I)) == Eval(e, env, I)
  }

  /** Keys of a map-like sequence are pairwise distinct. */
  predicate Distinct(s: seq<Expr>)
  {
    forall i, j :: 0 <= i < j < |s| ==> s[i] != s[j]
  }

  /** Appending one pair adds its product. */
  lemma DotPush(w: seq<Expr>, a: seq<Expr>, x: Expr, y: Expr, val: Expr -> real)
    requires |w| == |a|
    ensures Dot(w + [x], a + [y], val) == Dot(w, a, val) + Term(x, y, val)
  {
    assert (w + [x])[..|w|] == w && (a + [y])[..|w|] == a;
  }

  /** The sum over a prefix one longer adds the next pair. */
  lemma DotPrefix(w: seq<Expr>, a: seq<Expr>, n: nat, val: Expr -> real)
    requires |w| == |a| && 0 < n <= |w|
    ensures Dot(w[..n], a[..n], val) == Dot(w[..n - 1], a[..n - 1], val) + Term(w[n - 1], a[n - 1], val)
  {
    assert w[..n][..n - 1] == w[..n - 1] && a[..n][..n - 1] == a[..n - 1];
  }

  lemma {:induction false} DotAppend(w1: seq<Expr>, a1: seq<Expr>, w2: seq<Expr>, a2: seq<Expr>, val: Expr -> real)
    requires |w1| == |a1| && |w2| == |a2|
    ensures Dot(w1 + w2, a1 + a2, val) == Dot(w1, a1, val) + Dot(w2, a2, val)
    decreases |w2|
  {
    if |w2| == 0 {
      assert w1 + w2 == w1 && a1 + a2 == a1;
    } else {
      var n := |w2| - 1;
      assert (w1 + w2)[..|w1| + n] == w1 + w2[..n];
      assert (a1 + a2)[..|w1| + n] == a1 + a2[..n];
      assert (w1 + w2)[|w1| + n] == w2[n] && (a1 + a2)[|w1| + n] == a2[n];
      DotAppend(w1, a1, w2[..n], a2[..n], val);
    }
  }

  /** Replacing one pair changes the sum by the difference of the products. */
  lemma {:induction false} DotUpdate(w: seq<Expr>, a: seq<Expr>, p: nat, x: Expr, y: Expr, val: Expr -> real)
    requires |w| == |a| && p < |w|
    ensures Dot(w[p := x], a[p := y], val) == Dot(w, a, val) - Term(w[p], a[p], val) + Term(x, y, val)
    decreases |w|
  {
    var n := |w| - 1;
    if p < n {
      assert w[p := x][..n] == w[..n][p := x] && a[p := y][..n] == a[..n][p := y];
      DotUpdate(w[..n], a[..n], p, x, y, val);
    } else {
      assert w[p := x][..n] == w[..n] && a[p := y][..n] == a[..n];
    }
  }

  /** Each entry x * s[j]. */
  function Row(x: Expr, s: seq<Expr>): (r: seq<Expr>)
    ensures |r| == |s|
  {
    seq(|s|, j requires 0 <= j < |s| => Times(x, s[j]))
  }

  lemma RowAt(x: Expr, s: seq<Expr>, j: nat)
    requires j < |s|
    ensures Row(x, s)[j] == Times(x, s[j])
  {
  }

  /** The row-major outer product: entry i * |b| + j is a[i] * b[j]. */
  function Cross(a: seq<Expr>, b: seq<Expr>): seq<Expr>
  {
    if |a| == 0 then [] else Cross(a[..|a| - 1], b) + Row(a[|a| - 1], b)
  }

  lemma {:induction false} CrossLength(a: seq<Expr>, b: seq<Expr>)
    ensures |Cross(a, b)| == |a| * |b|
    decreases |a|
  {
    if |a| > 0 {
      var n := |a| - 1;
      CrossLength(a[..n], b);
      assert (n + 1) * |b| == n * |b| + |b|;
    }
  }

  /** Outer products of equally long sequences are equally long. */
  lemma {:induction false} CrossPaired(wa: seq<Expr>, aa: seq<Expr>, wb: seq<Expr>, ab: seq<Expr>)
    requires |wa| == |aa| && |wb| == |ab|
    ensures |Cross(wa, wb)| == |Cross(aa, ab)|
    decreases |wa|
  {
    if |wa| > 0 {
      CrossPaired(wa[..|wa| - 1], aa[..|wa| - 1], wb, ab);
    }
  }

  lemma {:induction false} MulMonotone(a: nat, b: nat, m: nat)
    requires a <= b
    ensures a * m <= b * m
    decreases b - a
  {
    if a < b {
      MulMonotone(a, b - 1, m);
      assert (b - 1) * m + m == b * m;
    }
  }

  lemma RowMajorBound(i: nat, j: nat, n: nat, m: nat)
    requires i < n && j < m
    ensures i * m + j < n * m
    ensures i + 1 < n ==> i * m + j < (n - 1) * m
    ensures i + 1 == n ==> i * m + j - (n - 1) * m == j
  {
    assert i * m + m == (i + 1) * m;
    MulMonotone(i + 1, n, m);
    if i + 1 < n {
      MulMonotone(i + 1, n - 1, m);
    }
  }

  lemma {:induction false} CrossAt(a: seq<Expr>, b: seq<Expr>, i: nat, j: nat)
    requires i < |a| && j < |b|
    ensures i * |b| + j < |Cross(a, b)|
    ensures Cross(a, b)[i * |b| + j] == Times(a[i], b[j])
    decreases |a|
  {
    var n := |a| - 1;
    RowMajorBound(i, j, |a|, |b|);
    CrossLength(a, b);
    CrossLength(a[..n], b);
    var prefix := Cross(a[..n], b);
    assert Cross(a, b) == prefix + Row(a[n], b);
    if i < n {
      CrossAt(a[..n], b, i, j);
      assert Cross(a, b)[i * |b| + j] == prefix[i * |b| + j];
    } else {
      assert |prefix| == n * |b|;
      assert Cross(a, b)[i * |b| + j] == Row(a[n], b)[j];
    }
  }

  lemma ScaleStep(l: real, lp: real, r: real, c: real, dp: real, s: real, d: real)
    requires l == lp + r && lp == Product(c, dp) && r == Product(c, s) && d == dp + s
    ensures l == Product(c, d)
  {
  }

  lemma TermScaled(x: Expr, w: Expr, a: Expr, val: Expr -> real)
    requires Multiplicative(val)
    ensures Term(Times(x, w), a, val) == Product(val(x), Term(w, a, val))
  {
  }

  lemma TermScaledAlpha(y: Expr, w: Expr, a: Expr, val: Expr -> real)
    requires Multiplicative(val)
    ensures Term(w, Times(y, a), val) == Product(val(y), Term(w, a, val))
  {
  }

  /** Scaling every W entry by `x` scales the sum by the value of `x`. */
  lemma {:induction false} DotScaled(x: Expr, w: seq<Expr>, a: seq<Expr>, val: Expr -> real)
    requires Multiplicative(val)
    requires |w| == |a|
    ensures Dot(Row(x, w), a, val) == Product(val(x), Dot(w, a, val))
    decreases |w|
  {
    if |w| > 0 {
      var n := |w| - 1;
      assert Row(x, w)[..n] == Row(x, w[..n]);
      assert Row(x, w)[n] == Times(x, w[n]);
      DotScaled(x, w[..n], a[..n], val);
      TermScaled(x, w[n], a[n], val);
      ScaleStep(Dot(Row(x, w), a, val), Dot(Row(x, w[..n]), a[..n], val), Term(Times(x, w[n]), a[n], val),
        val(x), Dot(w[..n], a[..n], val), Term(w[n], a[n], val), Dot(w, a, val));
    }
  }

  /** Scaling every alpha entry by `y` scales the sum by the value of `y`. */
  lemma {:induction false} DotScaledAlpha(y: Expr, w: seq<Expr>, a: seq<Expr>, val: Expr -> real)
    requires Multiplicative(val)
    requires |w| == |a|
    ensures Dot(w, Row(y, a), val) == Product(val(y), Dot(w, a, val))
    decreases |w|
  {
    if |w| > 0 {
      var n := |w| - 1;
      assert Row(y, a)[..n] == Row(y, a[..n]);
      assert Row(y, a)[n] == Times(y, a[n]);
      DotScaledAlpha(y, w[..n], a[..n], val);
      TermScaledAlpha(y, w[n], a[n], val);
      ScaleStep(Dot(w, Row(y, a), val), Dot(w[..n], Row(y, a[..n]), val), Term(w[n], Times(y, a[n]), val),
        val(y), Dot(w[..n], a[..n], val), Term(w[n], a[n], val), Dot(w, a, val));
    }
  }

  lemma Rearrange(l: real, m: real, d: real, x: Expr, y: Expr, val: Expr -> real)
    requires l == Product(val(x), m)
    requires m == Product(val(y), d)
    ensures l == Product(d, Term(x, y, val))
  {
  }

  /** Scaling W entries by `x` and alpha entries by `y`. */
  lemma DotScaledBoth(x: Expr, y: Expr, w: seq<Expr>, a: seq<Expr>, val: Expr -> real)
    requires Multiplicative(val)
    requires |w| == |a|
    ensures Dot(Row(x, w), Row(y, a), val) == Product(val(x), Product(val(y), Dot(w, a, val)))
  {
    DotScaled(x, w, Row(y, a), val);
    DotScaledAlpha(y, w, a, val);
  }

  /** The same, with the two scale factors combined into one product term. */
  lemma DotRows(x: Expr, y: Expr, w: seq<Expr>, a: seq<Expr>, val: Expr -> real)
    requires Multiplicative(val)
    requires |w| == |a|
    ensures Dot(Row(x, w), Row(y, a), val) == Product(Dot(w, a, val), Term(x, y, val))
  {
    DotScaledBoth(x, y, w, a, val);
    Rearrange(Dot(Row(x, w), Row(y, a), val), Product(val(y), Dot(w, a, val)), Dot(w, a, val), x, y, val);
  }

  lemma CrossStep(l: real, p: real, q: real, b: real, dp: real, t: real, d: real)
    requires l == p + q && p == Product(b, dp) && q == Product(b, t) && d == dp + t
    ensures l == Product(b, d)
  {
  }

  /** The outer products distribute: (sum_i wa_i aa_i) (sum_j wb_j ab_j). */
  lemma {:induction false} DotCross(wa: seq<Expr>, aa: seq<Expr>, wb: seq<Expr>, ab: seq<Expr>, val: Expr -> real)
    requires Multiplicative(val)
    requires |wa| == |aa| && |wb| == |ab|
    ensures |Cross(wa, wb)| == |Cross(aa, ab)|
    ensures Dot(Cross(wa, wb), Cross(aa, ab), val) == Product(Dot(wb, ab, val), Dot(wa, aa, val))
    decreases |wa|
  {
    CrossPaired(wa, aa, wb, ab);
    if |wa| > 0 {
      var n := |wa| - 1;
      DotCross(wa[..n], aa[..n], wb, ab, val);
      DotAppend(Cross(wa[..n], wb), Cross(aa[..n], ab), Row(wa[n], wb), Row(aa[n], ab), val);
      DotRows(wa[n], aa[n], wb, ab, val);
      CrossStep(Dot(Cross(wa, wb), Cross(aa, ab), val), Dot(Cross(wa[..n], wb), Cross(aa[..n], ab), val),
        Dot(Row(wa[n], wb), Row(aa[n], ab), val), Dot(wb, ab, val), Dot(wa[..n], aa[..n], val),
        Term(wa[n], aa[n], val), Dot(wa, aa, val));
    }
  }

  /** Scaling by a parameter-free expression keeps the entries parameter-free. */
  lemma RowFree(x: Expr, s: seq<Expr>, theta: set<Variable>)
    requires Vars(x) !! theta && AllFree(s, theta)
    ensures AllFree(Row(x, s), theta)
  {
    forall j | 0 <= j < |s| ensures Vars(Row(x, s)[j]) !! theta {
      TimesVars(x, s[j]);
    }
  }

  /** Scaling by a parameter-only expression keeps the entries parameter-only. */
  lemma RowParams(x: Expr, s: seq<Expr>, theta: set<Variable>)
    requires Vars(x) <= theta && AllParams(s, theta)
    ensures AllParams(Row(x, s), theta)
  {
    forall j | 0 <= j < |s| ensures Vars(Row(x, s)[j]) <= theta {
      TimesVars(x, s[j]);
    }
  }

  lemma AppendFree(s: seq<Expr>, t: seq<Expr>, theta: set<Variable>)
    requires AllFree(s, theta) && AllFree(t, theta)
    ensures AllFree(s + t, theta)
  {
    forall j | 0 <= j < |s + t| ensures Vars((s + t)[j]) !! theta {
      if j >= |s| { assert (s + t)[j] == t[j - |s|]; }
    }
  }

  lemma AppendParams(s: seq<Expr>, t: seq<Expr>, theta: set<Variable>)
    requires AllParams(s, theta) && AllParams(t, theta)
    ensures AllParams(s + t, theta)
  {
    forall j | 0 <= j < |s + t| ensures Vars((s + t)[j]) <= theta {
      if j >= |s| { assert (s + t)[j] == t[j - |s|]; }
    }
  }

  /** The outer product of parameter-free entries is parameter-free. */
  lemma {:induction false} CrossFree(a: seq<Expr>, b: seq<Expr>, theta: set<Variable>)
    requires AllFree(a, theta) && AllFree(b, theta)
    ensures AllFree(Cross(a, b), theta)
    decreases |a|
  {
    if |a| > 0 {
      var n := |a| - 1;
      CrossFree(a[..n], b, theta);
      RowFree(a[n], b, theta);
      AppendFree(Cross(a[..n], b), Row(a[n], b), theta);
    }
  }

  /** The outer product of parameter-only entries is parameter-only. */
  lemma {:induction false} CrossParams(a: seq<Expr>, b: seq<Expr>, theta: set<Variable>)
    requires AllParams(a, theta) && AllParams(b, theta)
    ensures AllParams(Cross(a, b), theta)
    decreases |a|
  {
    if |a| > 0 {
      var n := |a| - 1;
      CrossParams(a[..n], b, theta);
      RowParams(a[n], b, theta);
      AppendParams(Cross(a[..n], b), Row(a[n], b), theta);
    }
  }

  /** Position of `k` in `keys`, or -1 when absent (a map lookup). */
  function IndexOf(keys: seq<Expr>, k: Expr): (p: int)
    ensures -1 <= p < |keys|
    ensures p >= 0 ==> keys[p] == k
    ensures p == -1 <==> k !in keys
  {
    if |keys| == 0 then -1
    else if keys[|keys| - 1] == k then |keys| - 1
    else
      var p := IndexOf(keys[..|keys| - 1], k);
      assert k in keys[..|keys| - 1] ==> k in keys;
      assert p == -1 ==> forall i :: 0 <= i < |keys| ==> keys[i] != k by {
        if p == -1 {
          forall i | 0 <= i < |keys| ensures keys[i] != k {
            if i < |keys| - 1 { assert keys[i] == keys[..|keys| - 1][i]; }
          }
        }
      }
      p
  }

  /** Appending a key makes it the one found; other keys are found where
      they were. */
  lemma IndexOfPush(keys: seq<Expr>, key: Expr, k: Expr)
    ensures IndexOf(keys + [key], k) == if k == key then |keys| else IndexOf(keys, k)
  {
    assert (keys + [key])[..|keys|] == keys;
  }

  /** In a key sequence without duplicates, each key is found at its own
      position. */
  lemma IndexOfDistinct(keys: seq<Expr>, j: nat)
    requires Distinct(keys) && j < |keys|
    ensures IndexOf(keys, keys[j]) == j
  {
  }

  /** `start` followed by `+ vals[l]`, in order, for every l < n whose key
      is `key`: what repeated `map[key] += vals[l]` accumulates. */
  function Gather(start: Expr, keys: seq<Expr>, vals: seq<Expr>, key: Expr, n: nat): (r: Expr)
    requires n <= |keys| && n <= |vals|
    ensures key !in keys[..n] ==> r == start
    decreases n
  {
    if n == 0 then start
    else
      assert keys[..n] == keys[..n - 1] + [keys[n - 1]];
      if keys[n - 1] == key then Plus(Gather(start, keys, vals, key, n - 1), vals[n - 1])
      else Gather(start, keys, vals, key, n - 1)
  }

  lemma GatherNext(start: Expr, keys: seq<Expr>, vals: seq<Expr>, key: Expr, n: nat)
    requires 0 < n <= |keys| && n <= |vals|
    ensures Gather(start, keys, vals, key, n) ==
      if keys[n - 1] == key then Plus(Gather(start, keys, vals, key, n - 1), vals[n - 1])
      else Gather(start, keys, vals, key, n - 1)
  {
  }
}
