/** The variable indexer: the variables of one or more expressions listed
    without duplicates in order of first occurrence, together with the map
    from each variable's id to its position in that list. */
module VariableIndexer {
  import opened Results
  import opened Symbolic

  predicate Distinct(vs: seq<Variable>)
  {
    forall i, j :: 0 <= i < j < |vs| ==> vs[i] != vs[j]
  }

  /** `map_var_to_index` describes `vars`: its keys are exactly the listed
      variables, and each maps to its own position. */
  predicate Indexed(vars: seq<Variable>, index: map<Variable, nat>)
  {
    && Distinct(vars)
    && (forall i :: 0 <= i < |vars| ==> vars[i] in index)
    && (forall v :: v in index ==> index[v] < |vars| && vars[index[v]] == v)
  }

  /** The pair of containers the indexer fills. */
  datatype Indexing = Indexing(vars: seq<Variable>, index: map<Variable, nat>)

  /** `vars` followed by the entries of `vs` not seen before, each once, in
      the order in which they first occur. */
  function Appended(vars: seq<Variable>, vs: seq<Variable>): seq<Variable>
    decreases |vs|
  {
    if |vs| == 0 then vars
    else
      var r := Appended(vars, vs[..|vs| - 1]);
      if vs[|vs| - 1] in r then r else r + [vs[|vs| - 1]]
  }

  /** The indexer's loop over the first `n` entries of `vs`: an id missing
      from the map is given the next position and its variable is pushed. */
  function Extend(x: Indexing, vs: seq<Variable>, n: nat): Indexing
    requires n <= |vs|
    decreases n
  {
    if n == 0 then x
    else
      var y := Extend(x, vs, n - 1);
      var v := vs[n - 1];
      if v in y.index then y else Indexing(y.vars + [v], y.index[v := |y.vars|])
  }

  /** The variables of the expressions, concatenated in the order in which
      each expression's `GetVariables` is iterated. */
  function Occurrences(es: seq<Expr>, n: nat): seq<Variable>
    requires n <= |es|
  {
    if n == 0 then [] else Occurrences(es, n - 1) + GetVariables(es[n - 1])
  }

  // Properties of the listing

  lemma AppendedNext(vars: seq<Variable>, vs: seq<Variable>, v: Variable)
    ensures Appended(vars, vs + [v]) ==
      if v in Appended(vars, vs) then Appended(vars, vs) else Appended(vars, vs) + [v]
  {
    assert (vs + [v])[..|vs|] == vs;
  }

  /** The existing list is kept as the prefix. */
  lemma {:induction false} AppendedPrefix(vars: seq<Variable>, vs: seq<Variable>)
    ensures |vars| <= |Appended(vars, vs)| && Appended(vars, vs)[..|vars|] == vars
    decreases |vs|
  {
    if |vs| > 0 {
      AppendedPrefix(vars, vs[..|vs| - 1]);
      var r := Appended(vars, vs[..|vs| - 1]);
      assert (r + [vs[|vs| - 1]])[..|vars|] == r[..|vars|];
    }
  }

  /** Exactly the variables of the old list and of `vs` are listed. */
  lemma {:induction false} AppendedElements(vars: seq<Variable>, vs: seq<Variable>)
    ensures forall v :: v in Appended(vars, vs) <==> v in vars || v in vs
    decreases |vs|
  {
    if |vs| > 0 {
      AppendedElements(vars, vs[..|vs| - 1]);
      assert vs == vs[..|vs| - 1] + [vs[|vs| - 1]];
    }
  }

  /** No variable is listed twice. */
  lemma {:induction false} AppendedDistinct(vars: seq<Variable>, vs: seq<Variable>)
    requires Distinct(vars)
    ensures Distinct(Appended(vars, vs))
    decreases |vs|
  {
    if |vs| > 0 {
      AppendedDistinct(vars, vs[..|vs| - 1]);
    }
  }

  /** The new entries are the variables of `vs` absent from the old list,
      in first-occurrence order: an entry listed before another occurs in
      `vs` before every occurrence of the other. */
  lemma {:induction false} AppendedOrder(vars: seq<Variable>, vs: seq<Variable>)
    ensures var r := Appended(vars, vs);
      && (forall i :: |vars| <= i < |r| ==> r[i] !in vars && r[i] in vs)
      && (forall i, j, k :: |vars| <= i < j < |r| && 0 <= k < |vs| && vs[k] == r[j] ==> r[i] in vs[..k])
    decreases |vs|
  {
    var r := Appended(vars, vs);
    AppendedPrefix(vars, vs);
    if |vs| > 0 {
      var n := |vs| - 1;
      var s := Appended(vars, vs[..n]);
      var x := vs[n];
      AppendedOrder(vars, vs[..n]);
      AppendedPrefix(vars, vs[..n]);
      assert forall i :: |vars| <= i < |s| ==> s[i] in vs[..n];
      forall i | |vars| <= i < |r| ensures r[i] !in vars && r[i] in vs {
        if i < |s| {
          assert r[i] == s[i] && s[i] in vs[..n];
        } else {
          AppendedElements(vars, vs[..n]);
        }
      }
      forall i, j, k | |vars| <= i < j < |r| && 0 <= k < |vs| && vs[k] == r[j] ensures r[i] in vs[..k] {
        assert r[i] == s[i];
        if k < n {
          if j < |s| {
            assert r[j] == s[j] && vs[..n][k] == vs[k];
            assert s[i] in vs[..n][..k];
            assert vs[..n][..k] == vs[..k];
          } else {
            AppendedElements(vars, vs[..n]);
            assert false;
          }
        } else {
          assert vs[..k] == vs[..n];
        }
      }
    }
  }

  // The map kept beside the list

  /** Pushing a variable that is not listed keeps the map describing the list. */
  lemma IndexedPush(vars: seq<Variable>, index: map<Variable, nat>, v: Variable)
    requires Indexed(vars, index) && v !in index
    ensures Indexed(vars + [v], index[v := |vars|])
  {
    var vars', index' := vars + [v], index[v := |vars|];
    forall u | u in index' ensures index'[u] < |vars'| && vars'[index'[u]] == u {
      if u != v {
        assert vars'[index[u]] == vars[index[u]];
      }
    }
  }

  /** Over a map that describes the list, the loop lists `Appended` and the
      map still describes the list. */
  lemma {:induction false} ExtendIndexed(x: Indexing, vs: seq<Variable>, n: nat)
    requires n <= |vs| && Indexed(x.vars, x.index)
    ensures Extend(x, vs, n).vars == Appended(x.vars, vs[..n])
    ensures Indexed(Extend(x, vs, n).vars, Extend(x, vs, n).index)
    decreases n
  {
    if n > 0 {
      ExtendIndexed(x, vs, n - 1);
      var y := Extend(x, vs, n - 1);
      AppendedNext(x.vars, vs[..n - 1], vs[n - 1]);
      assert vs[..n] == vs[..n - 1] + [vs[n - 1]];
      if vs[n - 1] !in y.index {
        IndexedPush(y.vars, y.index, vs[n - 1]);
      }
    }
  }

  /** A list without duplicates is listed unchanged. */
  lemma {:induction false} AppendedOfDistinct(vs: seq<Variable>)
    requires Distinct(vs)
    ensures Appended([], vs) == vs
    decreases |vs|
  {
    if |vs| > 0 {
      var n := |vs| - 1;
      AppendedOfDistinct(vs[..n]);
      assert vs[n] !in vs[..n];
      assert vs[..n] + [vs[n]] == vs;
    }
  }

  /** The set of listed variables. */
  function Elements(vs: seq<Variable>): set<Variable>
  {
    if |vs| == 0 then {} else Elements(vs[..|vs| - 1]) + {vs[|vs| - 1]}
  }

  lemma {:induction false} ElementsOf(vs: seq<Variable>)
    ensures forall v :: v in Elements(vs) <==> v in vs
    decreases |vs|
  {
    if |vs| > 0 {
      ElementsOf(vs[..|vs| - 1]);
      assert vs == vs[..|vs| - 1] + [vs[|vs| - 1]];
    }
  }

  /** A list without duplicates has as many elements as entries. */
  lemma {:induction false} DistinctSize(vs: seq<Variable>)
    requires Distinct(vs)
    ensures |Elements(vs)| == |vs|
    decreases |vs|
  {
    if |vs| > 0 {
      var n := |vs| - 1;
      DistinctSize(vs[..n]);
      ElementsOf(vs[..n]);
      assert vs[n] !in vs[..n];
    }
  }

  /** A map describing a list has as many entries as the list: the size
      check of the appending form holds for it. */
  lemma IndexedSize(vars: seq<Variable>, index: map<Variable, nat>)
    requires Indexed(vars, index)
    ensures |index| == |vars|
  {
    ElementsOf(vars);
    assert index.Keys == Elements(vars);
    DistinctSize(vars);
  }

  // The implementation's loops

  /** `ExtractAndAppendVariablesFromExpression`: appends the variables of `e`
      not yet in the map; the sizes of the two containers must agree. */
  method ExtractAndAppendVariablesFromExpression(e: Expr, vars: seq<Variable>, index: map<Variable, nat>)
    returns (r: Result<Indexing>)
    ensures r == if |index| != |vars| then Err(SizeMismatch)
                 else Ok(Extend(Indexing(vars, index), GetVariables(e), |GetVariables(e)|))
    ensures Indexed(vars, index) ==>
      && r.Ok?
      && r.value.vars == Appended(vars, GetVariables(e))
      && Indexed(r.value.vars, r.value.index)
  {
    if Indexed(vars, index) {
      IndexedSize(vars, index);
      ExtendIndexed(Indexing(vars, index), GetVariables(e), |GetVariables(e)|);
      assert GetVariables(e)[..|GetVariables(e)|] == GetVariables(e);
    }
    if |index| != |vars| {
      return Err(SizeMismatch);
    }
    var x := AppendNew(Indexing(vars, index), GetVariables(e));
    r := Ok(x);
  }

  /** `ExtractVariablesFromExpression(e)`: the variables of `e` in the order
      their set is iterated, each at its position in the map. */
  method ExtractVariablesFromExpression(e: Expr) returns (vars: seq<Variable>, index: map<Variable, nat>)
    ensures vars == GetVariables(e) && Indexed(vars, index)
  {
    var vs := GetVariables(e);
    var a := new Variable[|vs|];
    index := map[];
    var count := 0;
    while count < |vs|
      invariant 0 <= count <= |vs|
      invariant a[..count] == vs[..count]
      invariant Indexed(vs[..count], index)
    {
      var v := vs[count];
      assert v !in vs[..count];
      IndexedPush(vs[..count], index, v);
      assert vs[..count] + [v] == vs[..count + 1];
      index := index[v := count];
      a[count] := v;
      count := count + 1;
    }
    assert vs[..count] == vs;
    vars := a[..];
  }

  /** The loop of the indexer over one list of variables. */
  method AppendNew(x: Indexing, vs: seq<Variable>) returns (y: Indexing)
    ensures y == Extend(x, vs, |vs|)
  {
    y := x;
    var k := 0;
    while k < |vs|
      invariant 0 <= k <= |vs|
      invariant y == Extend(x, vs, k)
    {
      var v := vs[k];
      if v !in y.index {
        y := Indexing(y.vars + [v], y.index[v := |y.vars|]);
      }
      k := k + 1;
    }
  }

  /** The multi-expression indexer after the first `n` expressions. */
  function ExtendAll(es: seq<Expr>, n: nat): Indexing
    requires n <= |es|
  {
    if n == 0 then Indexing([], map[])
    else Extend(ExtendAll(es, n - 1), GetVariables(es[n - 1]), |GetVariables(es[n - 1])|)
  }

  /** Listing a concatenation lists the second part after the first. */
  lemma {:induction false} AppendedConcat(vars: seq<Variable>, a: seq<Variable>, b: seq<Variable>)
    ensures Appended(vars, a + b) == Appended(Appended(vars, a), b)
    decreases |b|
  {
    if |b| == 0 {
      assert a + b == a;
    } else {
      var b' := b[..|b| - 1];
      var y := b[|b| - 1];
      AppendedConcat(vars, a, b');
      assert a + b == (a + b') + [y] && b == b' + [y];
      AppendedNext(vars, a + b', y);
      AppendedNext(Appended(vars, a), b', y);
    }
  }

  /** The multi-expression indexer lists the occurrences without duplicates
      and keeps the map describing the list. */
  lemma {:induction false} ExtendAllIndexed(es: seq<Expr>, n: nat)
    requires n <= |es|
    ensures ExtendAll(es, n).vars == Appended([], Occurrences(es, n))
    ensures Indexed(ExtendAll(es, n).vars, ExtendAll(es, n).index)
    decreases n
  {
    if n > 0 {
      var vs := GetVariables(es[n - 1]);
      ExtendAllIndexed(es, n - 1);
      ExtendIndexed(ExtendAll(es, n - 1), vs, |vs|);
      assert vs[..|vs|] == vs;
      AppendedConcat([], Occurrences(es, n - 1), vs);
    }
  }

  /** `ExtractVariablesFromExpression(expressions)`: the variables of all the
      expressions, each once, in order of first occurrence, with their
      positions. */
  method ExtractVariablesFromExpressions(es: seq<Expr>) returns (vars: seq<Variable>, index: map<Variable, nat>)
    ensures vars == Appended([], Occurrences(es, |es|)) && Indexed(vars, index)
    ensures Indexing(vars, index) == ExtendAll(es, |es|)
  {
    var x := Indexing([], map[]);
    var i := 0;
    while i < |es|
      invariant 0 <= i <= |es|
      invariant x == ExtendAll(es, i)
    {
      x := AppendNew(x, GetVariables(es[i]));
      i := i + 1;
    }
    ExtendAllIndexed(es, |es|);
    vars, index := x.vars, x.index;
  }

  /** On one expression the two forms of the indexer agree. */
  lemma ExtractionsAgree(e: Expr)
    ensures Appended([], Occurrences([e], 1)) == GetVariables(e)
  {
    var vs := GetVariables(e);
    assert Occurrences([e], 1) == vs;
    AppendedOfDistinct(vs);
  }

  /** Every variable of every expression is among the occurrences. */
  lemma {:induction false} OccurrencesCover(es: seq<Expr>, n: nat, i: nat)
    requires i < n <= |es|
    ensures forall v :: v in Vars(es[i]) ==> v in Occurrences(es, n)
    decreases n
  {
    if i < n - 1 {
      OccurrencesCover(es, n - 1, i);
    }
  }

  /** The map of the multi-expression indexer has a position for every
      variable of every expression. */
  lemma ExtendAllCovers(es: seq<Expr>, i: nat)
    requires i < |es|
    ensures forall v :: v in Vars(es[i]) ==> v in ExtendAll(es, |es|).index
  {
    ExtendAllIndexed(es, |es|);
    AppendedElements([], Occurrences(es, |es|));
    OccurrencesCover(es, |es|, i);
  }
}
