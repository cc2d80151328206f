/** Real vectors and square matrices as the coefficient extractors fill
    them, with the sums that give them meaning: x'v, x'Qx, and the number
    of nonzero entries. */
module Vectors {
  import opened Symbolic

  /** `setZero()` on a vector of n entries. */
  function ZeroVector(n: nat): (r: seq<real>)
    ensures |r| == n
  {
    seq(n, _ => 0.0)
  }

  /** `setZero()` on an n x n matrix, as its rows. */
  function ZeroMatrix(n: nat): (r: seq<seq<real>>)
    ensures |r| == n
  {
    seq(n, _ => ZeroVector(n))
  }

  /** Every row of `Q` has `n` entries. */
  predicate Square(Q: seq<seq<real>>, n: nat)
  {
    |Q| == n && forall a :: 0 <= a < n ==> |Q[a]| == n
  }

  predicate Symmetric(Q: seq<seq<real>>)
    requires Square(Q, |Q|)
  {
    forall a, b :: 0 <= a < |Q| && 0 <= b < |Q| ==> Q[a][b] == Q[b][a]
  }

  /** sum_k v[k] x[k]. */
  function Dot(v: seq<real>, x: seq<real>): real
    requires |v| == |x|
  {
    if |v| == 0 then 0.0 else Dot(v[..|v| - 1], x[..|v| - 1]) + Product(v[|v| - 1], x[|v| - 1])
  }

  /** sum_a x[a] (sum_b Q[a][b] x[b]). */
  function Form(Q: seq<seq<real>>, x: seq<real>, n: nat): real
    requires n <= |Q| <= |x| && forall a :: 0 <= a < |Q| ==> |Q[a]| == |x|
  {
    if n == 0 then 0.0 else Form(Q, x, n - 1) + Product(x[n - 1], Dot(Q[n - 1], x))
  }

  /** The point (env(vars[0]), ..., env(vars[n-1])). */
  function Point(vars: seq<Variable>, env: Env): (r: seq<real>)
    ensures |r| == |vars|
  {
    seq(|vars|, j requires 0 <= j < |vars| => env(vars[j]))
  }

  /** The number of nonzero entries. */
  function Nonzeros(v: seq<real>): nat
  {
    if |v| == 0 then 0 else Nonzeros(v[..|v| - 1]) + if v[|v| - 1] != 0.0 then 1 else 0
  }

  // Updates

  lemma DotZero(n: nat, x: seq<real>)
    requires |x| == n
    ensures Dot(ZeroVector(n), x) == 0.0
  {
    DotOfZeros(ZeroVector(n), x);
  }

  lemma {:induction false} DotOfZeros(v: seq<real>, x: seq<real>)
    requires |v| == |x| && forall k :: 0 <= k < |v| ==> v[k] == 0.0
    ensures Dot(v, x) == 0.0
    decreases |v|
  {
    if |v| > 0 {
      DotOfZeros(v[..|v| - 1], x[..|v| - 1]);
    }
  }

  /** Replacing entry a changes the sum by the change of its term. */
  lemma {:induction false} DotUpdate(v: seq<real>, x: seq<real>, a: nat, c: real)
    requires |v| == |x| && a < |v|
    ensures Dot(v[a := c], x) == Dot(v, x) - Product(v[a], x[a]) + Product(c, x[a])
    decreases |v|
  {
    var n := |v| - 1;
    if a < n {
      assert v[a := c][..n] == v[..n][a := c];
      DotUpdate(v[..n], x[..n], a, c);
    } else {
      assert v[a := c][..n] == v[..n];
    }
  }

  /** Replacing row a changes the form by x[a] times the change of its sum. */
  lemma {:induction false} FormUpdate(Q: seq<seq<real>>, x: seq<real>, n: nat, a: nat, row: seq<real>)
    requires n <= |Q| == |x| && forall b :: 0 <= b < |Q| ==> |Q[b]| == |x|
    requires a < |Q| && |row| == |x|
    ensures Form(Q[a := row], x, n) ==
      Form(Q, x, n) + if a < n then Product(x[a], Dot(row, x)) - Product(x[a], Dot(Q[a], x)) else 0.0
    decreases n
  {
    if n > 0 {
      FormUpdate(Q, x, n - 1, a, row);
    }
  }

  /** Replacing a zero entry by c adds one nonzero entry when c is nonzero. */
  lemma {:induction false} NonzerosUpdate(v: seq<real>, a: nat, c: real)
    requires a < |v| && v[a] == 0.0
    ensures Nonzeros(v[a := c]) == Nonzeros(v) + if c != 0.0 then 1 else 0
    decreases |v|
  {
    var n := |v| - 1;
    if a < n {
      assert v[a := c][..n] == v[..n][a := c];
      NonzerosUpdate(v[..n], a, c);
    } else {
      assert v[a := c][..n] == v[..n];
    }
  }

  lemma {:induction false} NonzerosOfZeros(n: nat)
    ensures Nonzeros(ZeroVector(n)) == 0
    decreases n
  {
    if n > 0 {
      assert ZeroVector(n)[..n - 1] == ZeroVector(n - 1);
      NonzerosOfZeros(n - 1);
    }
  }

  lemma {:induction false} FormOfZeros(n: nat, x: seq<real>, k: nat)
    requires |x| == n && k <= n
    ensures Form(ZeroMatrix(n), x, k) == 0.0
    decreases k
  {
    if k > 0 {
      FormOfZeros(n, x, k - 1);
      DotZero(n, x);
    }
  }
}
