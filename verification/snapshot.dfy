/** Substitution, evaluation, truth tables and equivalence in the older
    snapshot pyreasoner/expressions/__init__.py. Its `reify` follows chains of
    bindings, its `|`/`&` have no reflected forms, and its
    `is_logically_equivalent` compares free variables only. The snapshot has no
    relational nodes: its functions report `Unsupported` on one. */
module SnapshotEval {
  import opened ExprTree
  import opened Combinators
  import opened Names
  import opened Substitution
  import opened TruthTables

  /** The snapshot's `Var.reify`: a bound value that differs from the variable
      is reified again, so chains of bindings are followed to their end (one
      unit of `fuel` per link; a cycle such as `{x: y, y: x}` recurses until the
      fuel runs out). Operations are rebuilt from their reified children. */
  function SnapReify(e: Expr, ns: Namespace, fuel: nat): Result<Expr>
    decreases fuel, e
  {
    match e
    case Var(n) =>
      var bound := if n in ns then ns[n] else e;
      if bound == e || !IsNode(bound) then Ok(bound)
      else if fuel == 0 then Err(RecursionLimit)
      else SnapReify(bound, ns, fuel - 1)
    case Not(c) =>
      var r := SnapReify(c, ns, fuel);
      if r.Err? then r else Ok(Not(r.value))
    case Or(cs) =>
      var rs := SnapReifyAll(cs, ns, fuel);
      if rs.Err? then Err(rs.error) else Ok(Or(rs.value))
    case And(cs) =>
      var rs := SnapReifyAll(cs, ns, fuel);
      if rs.Err? then Err(rs.error) else Ok(And(rs.value))
    case Rel(_, _, _) => Err(Unsupported)  // this version has no relational nodes
    case _ => Ok(e)
  }

  function SnapReifyAll(cs: seq<Expr>, ns: Namespace, fuel: nat): (r: Result<seq<Expr>>)
    ensures r.Ok? ==> |r.value| == |cs|
    decreases fuel, cs
  {
    if cs == [] then Ok([])
    else
      var h := SnapReify(cs[0], ns, fuel);
      if h.Err? then Err(h.error)
      else
        var t := SnapReifyAll(cs[1..], ns, fuel);
        if t.Err? then Err(t.error) else Ok([h.value] + t.value)
  }

  /** A name is resolved when it is unbound or bound to its own variable. */
  predicate Resolved(n: string, ns: Namespace)
  {
    n !in ns || ns[n] == Var(n)
  }

  /** A chained reification that succeeds leaves no variable that the
      namespace could still replace. */
  lemma {:induction false} SnapReifyResolves(e: Expr, ns: Namespace, fuel: nat)
    requires SnapReify(e, ns, fuel).Ok?
    ensures forall n :: n in FreeVars(SnapReify(e, ns, fuel).value) ==> Resolved(n, ns)
    decreases fuel, e
  {
    match e
    case Var(n) =>
      var bound := if n in ns then ns[n] else e;
      if bound != e && IsNode(bound) {
        SnapReifyResolves(bound, ns, fuel - 1);
      }
    case Not(c) =>
      SnapReifyResolves(c, ns, fuel);
    case Or(cs) =>
      SnapReifyAllResolves(cs, ns, fuel);
    case And(cs) =>
      SnapReifyAllResolves(cs, ns, fuel);
    case _ =>
  }

  lemma {:induction false} SnapReifyAllResolves(cs: seq<Expr>, ns: Namespace, fuel: nat)
    requires SnapReifyAll(cs, ns, fuel).Ok?
    ensures forall n :: n in FreeVarsOf(SnapReifyAll(cs, ns, fuel).value) ==> Resolved(n, ns)
    decreases fuel, cs
  {
    if cs != [] {
      SnapReifyResolves(cs[0], ns, fuel);
      SnapReifyAllResolves(cs[1..], ns, fuel);
    }
  }

  /** Every binding is final: a plain value, or the variable itself. */
  predicate Terminal(ns: Namespace)
  {
    forall n :: n in ns ==> !IsNode(ns[n]) || ns[n] == Var(n)
  }

  /** With final bindings there is no chain to follow, and the snapshot's
      `reify` agrees with the one-step `reify` of pyreasoner/expressions.py. */
  lemma {:induction false} SnapReifyTerminal(e: Expr, ns: Namespace, fuel: nat)
    requires Terminal(ns) && Boolean(e)
    ensures SnapReify(e, ns, fuel) == Ok(Reify(e, ns))
  {
    match e
    case Not(c) => SnapReifyTerminal(c, ns, fuel);
    case Or(cs) => SnapReifyAllTerminal(cs, ns, fuel);
    case And(cs) => SnapReifyAllTerminal(cs, ns, fuel);
    case _ =>
  }

  lemma {:induction false} SnapReifyAllTerminal(cs: seq<Expr>, ns: Namespace, fuel: nat)
    requires Terminal(ns) && forall c :: c in cs ==> Boolean(c)
    ensures SnapReifyAll(cs, ns, fuel) == Ok(ReifyAll(cs, ns))
  {
    if cs != [] {
      assert cs[0] in cs;
      SnapReifyTerminal(cs[0], ns, fuel);
      assert forall c :: c in cs[1..] ==> c in cs;
      SnapReifyAllTerminal(cs[1..], ns, fuel);
    }
  }

  /** `x.reify({'x': y, 'y': x})` never finishes, however much fuel it is given. */
  lemma {:induction false} SnapReifyCycle(fuel: nat)
    ensures SnapReify(Var("x"), map["x" := Var("y"), "y" := Var("x")], fuel) == Err(RecursionLimit)
    ensures SnapReify(Var("y"), map["x" := Var("y"), "y" := Var("x")], fuel) == Err(RecursionLimit)
  {
    if fuel > 0 {
      SnapReifyCycle(fuel - 1);
    }
  }

  /** `a.reify({'a': b, 'b': c})` is `c` here but `b` in pyreasoner/expressions.py. */
  lemma ChainedReify()
    ensures SnapReify(Var("a"), map["a" := Var("b"), "b" := Var("c")], ChainLimit) == Ok(Var("c"))
    ensures Reify(Var("a"), map["a" := Var("b"), "b" := Var("c")]) == Var("b")
  {
    var ns := map["a" := Var("b"), "b" := Var("c")];
    assert SnapReify(Var("b"), ns, ChainLimit - 1) == SnapReify(Var("c"), ns, ChainLimit - 2);
  }

  /** The snapshot's `l | r`: `Or.__or__` splices, the generic `__or__` builds a
      two-child `Or`; there is no `__ror__`, so a plain value on the left of an
      expression is a `TypeError`. */
  function SnapOrJoin(l: Expr, r: Expr): (res: Result<Expr>)
    ensures IsNode(l) ==> res.Ok? && res.value.Or?
    ensures !IsNode(l) && IsNode(r) ==> res == Err(TypeError)
    ensures IsNode(l) || !IsNode(r) ==> res == OrJoin(l, r)
    ensures l.Lit? && r.Lit? ==> res == Ok(Lit(l.value || r.value))
  {
    if l.Or? then
      Ok(Or(l.children + if r.Or? then r.children else [r]))
    else if IsNode(l) then Ok(Or([l, r]))
    else if IsNode(r) then Err(TypeError)
    else if l.Lit? && r.Lit? then Ok(Lit(l.value || r.value))
    else Err(Unsupported)
  }

  /** The snapshot's `l & r`, the dual of `SnapOrJoin`. */
  function SnapAndJoin(l: Expr, r: Expr): (res: Result<Expr>)
    ensures IsNode(l) ==> res.Ok? && res.value.And?
    ensures !IsNode(l) && IsNode(r) ==> res == Err(TypeError)
    ensures IsNode(l) || !IsNode(r) ==> res == AndJoin(l, r)
    ensures l.Lit? && r.Lit? ==> res == Ok(Lit(l.value && r.value))
  {
    if l.And? then
      Ok(And(l.children + if r.And? then r.children else [r]))
    else if IsNode(l) then Ok(And([l, r]))
    else if IsNode(r) then Err(TypeError)
    else if l.Lit? && r.Lit? then Ok(Lit(l.value && r.value))
    else Err(Unsupported)
  }

  function SnapFoldOr(acc: Expr, vs: seq<Expr>): (r: Result<Expr>)
    ensures acc.Lit? && (forall i :: 0 <= i < |vs| ==> vs[i].Lit?) ==>
      r == Ok(Lit(acc.value || exists i :: 0 <= i < |vs| && vs[i].value))
    decreases vs
  {
    if vs == [] then Ok(acc)
    else
      var a := SnapOrJoin(acc, vs[0]);
      if a.Err? then a else SnapFoldOr(a.value, vs[1..])
  }

  function SnapFoldAnd(acc: Expr, vs: seq<Expr>): (r: Result<Expr>)
    ensures acc.Lit? && (forall i :: 0 <= i < |vs| ==> vs[i].Lit?) ==>
      r == Ok(Lit(acc.value && forall i :: 0 <= i < |vs| ==> vs[i].value))
    decreases vs
  {
    if vs == [] then Ok(acc)
    else
      var a := SnapAndJoin(acc, vs[0]);
      if a.Err? then a else SnapFoldAnd(a.value, vs[1..])
  }

  /** The snapshot's `eval`: a variable is reified (following chains) and a
      result that is a new expression is evaluated again; `Not` as in
      pyreasoner/expressions.py; `Or`/`And` fold their evaluated children with
      the snapshot's operators, seeded with `False`/`True`. */
  function SnapEval(e: Expr, ns: Namespace, fuel: nat): Result<Expr>
    decreases fuel, e
  {
    match e
    case Var(_) =>
      var reified := SnapReify(e, ns, fuel);
      if reified.Err? then reified
      else if reified.value != e && IsNode(reified.value) then
        if fuel == 0 then Err(RecursionLimit) else SnapEval(reified.value, ns, fuel - 1)
      else reified
    case Not(c) =>
      var v := SnapEval(c, ns, fuel);
      if v.Err? then v else NotValue(v.value)
    case Or(cs) =>
      var vs := SnapEvalAll(cs, ns, fuel);
      if vs.Err? then Err(vs.error) else SnapFoldOr(Lit(false), vs.value)
    case And(cs) =>
      var vs := SnapEvalAll(cs, ns, fuel);
      if vs.Err? then Err(vs.error) else SnapFoldAnd(Lit(true), vs.value)
    case Rel(_, _, _) => Err(Unsupported)  // this version has no relational nodes
    case _ => Ok(e)
  }

  function SnapEvalAll(cs: seq<Expr>, ns: Namespace, fuel: nat): (r: Result<seq<Expr>>)
    ensures r.Ok? ==> |r.value| == |cs|
    decreases fuel, cs
  {
    if cs == [] then Ok([])
    else
      var v := SnapEval(cs[0], ns, fuel);
      if v.Err? then Err(v.error)
      else
        var vs := SnapEvalAll(cs[1..], ns, fuel);
        if vs.Err? then Err(vs.error) else Ok([v.value] + vs.value)
  }

  /** The snapshot's `or`-fold of the children's truth values from `False`
      gives the disjunction's truth value. */
  lemma SnapFoldOrHolds(cs: seq<Expr>, vs: seq<Expr>, env: map<string, bool>)
    requires |vs| == |cs| && forall i :: 0 <= i < |cs| ==> vs[i] == Lit(Holds(cs[i], env))
    ensures SnapFoldOr(Lit(false), vs) == Ok(Lit(Holds(Or(cs), env)))
  {
    OrHoldsAt(cs, env);
    assert (exists i :: 0 <= i < |vs| && vs[i].value) == Holds(Or(cs), env) by {
      if exists i :: 0 <= i < |vs| && vs[i].value {
        var i :| 0 <= i < |vs| && vs[i].value;
        assert Holds(cs[i], env);
      }
    }
  }

  /** The snapshot's `and`-fold of the children's truth values from `True`
      gives the conjunction's truth value. */
  lemma SnapFoldAndHolds(cs: seq<Expr>, vs: seq<Expr>, env: map<string, bool>)
    requires |vs| == |cs| && forall i :: 0 <= i < |cs| ==> vs[i] == Lit(Holds(cs[i], env))
    ensures SnapFoldAnd(Lit(true), vs) == Ok(Lit(Holds(And(cs), env)))
  {
    AndHoldsAt(cs, env);
    assert (forall i :: 0 <= i < |vs| ==> vs[i].value) == Holds(And(cs), env) by {
      if forall i :: 0 <= i < |vs| ==> vs[i].value {
        forall i | 0 <= i < |cs|
          ensures Holds(cs[i], env)
        {
          assert vs[i].value;
        }
      }
    }
  }

  /** With every free variable bound to a bool, the snapshot's `eval`
      computes the formula's truth value. */
  lemma {:induction false} SnapEvalBoolean(e: Expr, env: map<string, bool>, fuel: nat)
    requires Boolean(e) && FreeVars(e) <= env.Keys
    ensures SnapEval(e, BoolNamespace(env), fuel) == Ok(Lit(Holds(e, env)))
  {
    match e
    case Not(c) =>
      SnapEvalBoolean(c, env, fuel);
    case Or(cs) =>
      SnapEvalAllBoolean(cs, env, fuel);
      SnapFoldOrHolds(cs, SnapEvalAll(cs, BoolNamespace(env), fuel).value, env);
    case And(cs) =>
      SnapEvalAllBoolean(cs, env, fuel);
      SnapFoldAndHolds(cs, SnapEvalAll(cs, BoolNamespace(env), fuel).value, env);
    case _ =>
  }

  lemma {:induction false} SnapEvalAllBoolean(cs: seq<Expr>, env: map<string, bool>, fuel: nat)
    requires forall c :: c in cs ==> Boolean(c)
    requires FreeVarsOf(cs) <= env.Keys
    ensures SnapEvalAll(cs, BoolNamespace(env), fuel).Ok?
    ensures forall i :: 0 <= i < |cs| ==> SnapEvalAll(cs, BoolNamespace(env), fuel).value[i] == Lit(Holds(cs[i], env))
  {
    if cs != [] {
      assert cs[0] in cs;
      SnapEvalBoolean(cs[0], env, fuel);
      SnapEvalAllBoolean(cs[1..], env, fuel);
      var vs := SnapEvalAll(cs, BoolNamespace(env), fuel).value;
      forall i | 0 <= i < |cs|
        ensures vs[i] == Lit(Holds(cs[i], env))
      {
        if i > 0 {
          assert cs[1..][i - 1] == cs[i];
        }
      }
    }
  }

  /** `a.eval({'a': b, 'b': 1})` is `1` in both versions; an unbound variable under
      `Or` is a `TypeError` here (`False | a` has no reflected form) but
      `Or(False, a)` in pyreasoner/expressions.py. */
  lemma EvalDifferences()
    ensures SnapEval(Var("a"), map["a" := Var("b"), "b" := Num(1)], ChainLimit) == Ok(Num(1))
    ensures Eval(Var("a"), map["a" := Var("b"), "b" := Num(1)], ChainLimit) == Ok(Num(1))
    ensures SnapEval(Or([Var("a")]), map[], ChainLimit) == Err(TypeError)
    ensures Eval(Or([Var("a")]), map[], ChainLimit) == Ok(Or([Lit(false), Var("a")]))
  {
    var ns := map["a" := Var("b"), "b" := Num(1)];
    assert SnapReify(Var("a"), ns, ChainLimit) == Ok(Num(1));
    assert [Var("a")][1..] == [];
    assert SnapReify(Var("a"), map[], ChainLimit) == Ok(Var("a"));
    assert SnapEval(Var("a"), map[], ChainLimit) == Ok(Var("a"));
    assert [Var("a")] + [] == [Var("a")];
    assert SnapEvalAll([Var("a")], map[], ChainLimit) == Ok([Var("a")]);
    assert EvalAll([Var("a")], map[], ChainLimit) == Ok([Var("a")]);
  }

  /** What the snapshot's `expr.eval` returns on row i of the product over `names`. */
  function SnapRowValue(e: Expr, names: seq<string>, i: nat): Result<Expr>
    requires i < |Product(|names|)|
  {
    SnapEval(e, RowNamespace(names, Product(|names|)[i]), ChainLimit)
  }

  /** What the snapshot's `expr.eval` returns on each row of the product over
      `names`, in the order `itertools.product` lists the rows. */
  function SnapRowValues(e: Expr, names: seq<string>): (vs: seq<Result<Expr>>)
    ensures |vs| == |Product(|names|)|
  {
    seq(|Product(|names|)|, i requires 0 <= i < |Product(|names|)| => SnapRowValue(e, names, i))
  }

  /** The snapshot's table of `e` over the given column names: the same dict
      comprehension as in pyreasoner/expressions.py, so the first exception
      propagates. */
  function SnapTable(e: Expr, names: seq<string>): Result<map<seq<bool>, Expr>>
  {
    Collect(Product(|names|), SnapRowValues(e, names))
  }

  /** The snapshot's `get_truth_table`, defined on expression nodes (it calls
      `expr.eval`): the table over the free variables in name-sorted order. */
  ghost function SnapTruthTable(e: Expr): Result<map<seq<bool>, Expr>>
    requires IsNode(e)
  {
    SnapTable(e, SortedNames(FreeVars(e)))
  }

  /** On a boolean formula the snapshot's table over columns covering its
      free variables is built, has 2^n entries keyed by the tuples of length
      n, and each entry is the formula's truth value under the row's
      assignment. */
  lemma SnapTableEntry(e: Expr, names: seq<string>, row: seq<bool>)
    requires Boolean(e) && FreeVars(e) <= set x | x in names
    requires |row| == |names|
    ensures SnapTable(e, names).Ok?
    ensures forall t: seq<bool> :: t in SnapTable(e, names).value <==> |t| == |names|
    ensures |SnapTable(e, names).value.Keys| == Pow2(|names|)
    ensures SnapTable(e, names).value[row] == Lit(Holds(e, Zip(names, row)))
  {
    var rows, vals := Product(|names|), SnapRowValues(e, names);
    forall i | 0 <= i < |rows|
      ensures vals[i].Ok?
    {
      SnapBooleanRowValue(e, names, i);
    }
    ProductComplete(|names|, row);
    var k :| 0 <= k < |rows| && rows[k] == row;
    ProductTable(|names|, vals, k);
    SnapBooleanRowValue(e, names, k);
  }

  /** On a boolean formula the snapshot's `eval` gives each row's truth value. */
  lemma SnapBooleanRowValue(e: Expr, names: seq<string>, i: nat)
    requires Boolean(e) && FreeVars(e) <= set x | x in names
    requires i < |Product(|names|)|
    ensures SnapRowValue(e, names, i) == Ok(Lit(Holds(e, Zip(names, Product(|names|)[i]))))
  {
    SnapEvalBoolean(e, Zip(names, Product(|names|)[i]), ChainLimit);
  }

  /** The snapshot's truth table of a boolean formula: 2^n entries keyed by
      the tuples of length n, each the formula's truth value. */
  lemma SnapTruthTableShape(e: Expr, row: seq<bool>)
    requires IsNode(e) && Boolean(e) && |row| == |FreeVars(e)|
    ensures SnapTruthTable(e).Ok?
    ensures forall t: seq<bool> :: t in SnapTruthTable(e).value <==> |t| == |FreeVars(e)|
    ensures |SnapTruthTable(e).value.Keys| == Pow2(|FreeVars(e)|)
    ensures SnapTruthTable(e).value[row] == Lit(Holds(e, Zip(SortedNames(FreeVars(e)), row)))
  {
    SnapTableEntry(e, SortedNames(FreeVars(e)), row);
  }

  /** The snapshot's `is_logically_equivalent`: equal free-variable sets. */
  predicate SnapIsLogicallyEquivalent(e1: Expr, e2: Expr)
  {
    FreeVars(e1) == FreeVars(e2)
  }

  /** Truth values play no part: every boolean formula is "equivalent" to its
      own negation here, which the truth tables of pyreasoner/expressions.py
      tell apart. */
  lemma SnapEquivalenceIgnoresTruth(e: Expr)
    requires Boolean(e)
    ensures SnapIsLogicallyEquivalent(e, Not(e))
    ensures IsLogicallyEquivalent(e, Not(e)) == Ok(false)
  {
    NegationNotEquivalent(e);
  }
}
