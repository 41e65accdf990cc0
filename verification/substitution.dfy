/** Substitution and evaluation in pyreasoner/expressions.py: `reify`, `eval`,
    `get_truth_table` and `is_logically_equivalent`. */
module Substitution {
  import opened ExprTree
  import opened Names
  import opened Combinators

  /** `reify`: every variable bound in the namespace is replaced by its binding
      as it stands (one step, no chasing of a binding that is itself a variable),
      every other node is rebuilt from its reified children, and nothing is
      simplified. */
  function Reify(e: Expr, ns: Namespace): Expr
  {
    match e
    case Var(n) => if n in ns then ns[n] else e
    case Not(c) => Not(Reify(c, ns))
    case Or(cs) => Or(ReifyAll(cs, ns))
    case And(cs) => And(ReifyAll(cs, ns))
    case Rel(op, l, r) => Rel(op, Reify(l, ns), Reify(r, ns))
    case _ => e
  }

  function ReifyAll(cs: seq<Expr>, ns: Namespace): (rs: seq<Expr>)
    ensures |rs| == |cs|
  {
    if cs == [] then [] else [Reify(cs[0], ns)] + ReifyAll(cs[1..], ns)
  }

  lemma ReifyAllAt(cs: seq<Expr>, ns: Namespace, i: nat)
    requires i < |cs|
    ensures ReifyAll(cs, ns)[i] == Reify(cs[i], ns)
  {
    if i > 0 {
      ReifyAllAt(cs[1..], ns, i - 1);
    }
  }

  /** A tree none of whose free variables is bound comes back unchanged; in
      particular reifying with an empty namespace is the identity. */
  lemma {:induction false} ReifyUnbound(e: Expr, ns: Namespace)
    requires forall n :: n in FreeVars(e) ==> n !in ns
    ensures Reify(e, ns) == e
  {
    match e
    case Not(c) => ReifyUnbound(c, ns);
    case Or(cs) => ReifyAllUnbound(cs, ns);
    case And(cs) => ReifyAllUnbound(cs, ns);
    case Rel(_, l, r) => ReifyUnbound(l, ns); ReifyUnbound(r, ns);
    case _ =>
  }

  lemma {:induction false} ReifyAllUnbound(cs: seq<Expr>, ns: Namespace)
    requires forall n :: n in FreeVarsOf(cs) ==> n !in ns
    ensures ReifyAll(cs, ns) == cs
  {
    if cs != [] {
      ReifyUnbound(cs[0], ns);
      ReifyAllUnbound(cs[1..], ns);
    }
  }

  lemma ReifyEmpty(e: Expr)
    ensures Reify(e, map[]) == e
  {
    ReifyUnbound(e, map[]);
  }

  /** `s` renames every name of `vs` to a variable that `t` renames back. */
  predicate RenamesBack(s: Namespace, t: Namespace, vs: set<string>)
  {
    forall n :: n in vs ==> n in s && s[n].Var? && s[n].name in t && t[s[n].name] == Var(n)
  }

  /** A renaming of the free variables followed by its inverse gives the tree back. */
  lemma {:induction false} ReifyRenameRoundTrip(e: Expr, s: Namespace, t: Namespace)
    requires RenamesBack(s, t, FreeVars(e))
    ensures Reify(Reify(e, s), t) == e
  {
    match e
    case Not(c) => ReifyRenameRoundTrip(c, s, t);
    case Or(cs) => ReifyAllRenameRoundTrip(cs, s, t);
    case And(cs) => ReifyAllRenameRoundTrip(cs, s, t);
    case Rel(_, l, r) => ReifyRenameRoundTrip(l, s, t); ReifyRenameRoundTrip(r, s, t);
    case _ =>
  }

  lemma {:induction false} ReifyAllRenameRoundTrip(cs: seq<Expr>, s: Namespace, t: Namespace)
    requires RenamesBack(s, t, FreeVarsOf(cs))
    ensures ReifyAll(ReifyAll(cs, s), t) == cs
  {
    if cs != [] {
      ReifyRenameRoundTrip(cs[0], s, t);
      ReifyAllRenameRoundTrip(cs[1..], s, t);
    }
  }

  /** The chain limit: Python's default recursion limit. */
  const ChainLimit: nat := 1000

  /** `eval`: a variable is replaced by its binding, and a binding that is
      itself an expression is evaluated in turn (one unit of `fuel` per link of
      the chain, `RecursionLimit` when it runs out); `Not` negates a bool or wraps
      an expression; `Or`/`And` evaluate every child and fold them left to right
      with `|`/`&`, seeded with `False`/`True`; relational nodes compare their
      evaluated operands. */
  function Eval(e: Expr, ns: Namespace, fuel: nat): Result<Expr>
    decreases fuel, e
  {
    match e
    case Var(n) =>
      var bound := if n in ns then ns[n] else e;
      if bound != e && IsNode(bound) then
        if fuel == 0 then Err(RecursionLimit) else Eval(bound, ns, fuel - 1)
      else
        Ok(bound)
    case Not(c) =>
      var v := Eval(c, ns, fuel);
      if v.Err? then Err(v.error) else NotValue(v.value)
    case Or(cs) =>
      var vs := EvalAll(cs, ns, fuel);
      if vs.Err? then Err(vs.error) else FoldOr(Lit(false), vs.value)
    case And(cs) =>
      var vs := EvalAll(cs, ns, fuel);
      if vs.Err? then Err(vs.error) else FoldAnd(Lit(true), vs.value)
    case Rel(op, l, r) =>
      var lv := Eval(l, ns, fuel);
      if lv.Err? then Err(lv.error)
      else
        var rv := Eval(r, ns, fuel);
        if rv.Err? then Err(rv.error) else Compare(op, lv.value, rv.value)
    case _ => Ok(e)
  }

  /** The children evaluated left to right; the first exception wins. */
  function EvalAll(cs: seq<Expr>, ns: Namespace, fuel: nat): (r: Result<seq<Expr>>)
    ensures r.Ok? ==> |r.value| == |cs|
    decreases fuel, cs
  {
    if cs == [] then Ok([])
    else
      var v := Eval(cs[0], ns, fuel);
      if v.Err? then Err(v.error)
      else
        var vs := EvalAll(cs[1..], ns, fuel);
        if vs.Err? then Err(vs.error) else Ok([v.value] + vs.value)
  }

  /** The tail of `Not.eval`: a bool is complemented, an expression is wrapped
      in `Not`, anything else is a `TypeError`. */
  function NotValue(v: Expr): (r: Result<Expr>)
    ensures r.Err? <==> v.Num?
    ensures r.Err? ==> r.error == TypeError
    ensures v.Lit? ==> r == Ok(Lit(!v.value))
    ensures IsNode(v) ==> r == Ok(Not(v))
    ensures r.Ok? ==> forall env :: Holds(r.value, env) == !Holds(v, env)
    ensures r.Ok? ==> FreeVars(r.value) == FreeVars(v)
  {
    if IsNode(v) then Ok(Not(v))
    else if v.Lit? then Ok(Lit(!v.value))
    else Err(TypeError)
  }

  /** `reduce(operator.or_, values, acc)`. */
  function FoldOr(acc: Expr, vs: seq<Expr>): (r: Result<Expr>)
    ensures acc.Lit? && (forall i :: 0 <= i < |vs| ==> vs[i].Lit?) ==>
      r == Ok(Lit(acc.value || exists i :: 0 <= i < |vs| && vs[i].value))
    decreases vs
  {
    if vs == [] then Ok(acc)
    else
      match OrJoin(acc, vs[0])
      case Err(k) => Err(k)
      case Ok(a) => FoldOr(a, vs[1..])
  }

  /** `reduce(operator.and_, values, acc)`. */
  function FoldAnd(acc: Expr, vs: seq<Expr>): (r: Result<Expr>)
    ensures acc.Lit? && (forall i :: 0 <= i < |vs| ==> vs[i].Lit?) ==>
      r == Ok(Lit(acc.value && forall i :: 0 <= i < |vs| ==> vs[i].value))
    decreases vs
  {
    if vs == [] then Ok(acc)
    else
      match AndJoin(acc, vs[0])
      case Err(k) => Err(k)
      case Ok(a) => FoldAnd(a, vs[1..])
  }

  /** The native comparison of two evaluated operands (`operator.lt`, `gt`,
      `eq` reduced over the pair); only ints are modelled. */
  function Compare(op: RelOp, l: Expr, r: Expr): (res: Result<Expr>)
    ensures res.Ok? <==> l.Num? && r.Num?
    ensures res.Ok? ==> res.value.Lit?
    ensures res.Ok? && op.LessThan? ==> res.value == Lit(l.n < r.n)
    ensures res.Ok? && op.GreaterThan? ==> res.value == Lit(r.n < l.n)
    ensures res.Ok? && op.Eq? ==> res.value == Lit(l == r)
  {
    if l.Num? && r.Num? then
      match op
      case LessThan => Ok(Lit(l.n < r.n))
      case GreaterThan => Ok(Lit(l.n > r.n))
      case Eq => Ok(Lit(l.n == r.n))
    else
      Err(Unsupported)
  }
}

module SubstitutionFacts {
  import opened ExprTree
  import opened Names
  import opened Substitution
  import opened Combinators

  /** With every free variable bound to a bool, `eval` computes the formula's
      truth value: `Or()` gives False, `And()` gives True, and otherwise the
      fold agrees with the reference meaning. */
  lemma {:induction false} EvalBoolean(e: Expr, env: map<string, bool>, fuel: nat)
    requires Boolean(e) && FreeVars(e) <= env.Keys
    ensures Eval(e, BoolNamespace(env), fuel) == Ok(Lit(Holds(e, env)))
  {
    match e
    case Not(c) =>
      EvalBoolean(c, env, fuel);
    case Or(cs) =>
      EvalAllBoolean(cs, env, fuel);
      FoldOrHolds(cs, EvalAll(cs, BoolNamespace(env), fuel).value, env);
    case And(cs) =>
      EvalAllBoolean(cs, env, fuel);
      FoldAndHolds(cs, EvalAll(cs, BoolNamespace(env), fuel).value, env);
    case _ =>
  }

  /** Folding the children's truth values with `or` from `False` gives the
      disjunction's truth value. */
  lemma FoldOrHolds(cs: seq<Expr>, vs: seq<Expr>, env: map<string, bool>)
    requires |vs| == |cs| && forall i :: 0 <= i < |cs| ==> vs[i] == Lit(Holds(cs[i], env))
    ensures FoldOr(Lit(false), vs) == Ok(Lit(Holds(Or(cs), env)))
  {
    OrHoldsAt(cs, env);
    assert (exists i :: 0 <= i < |vs| && vs[i].value) == Holds(Or(cs), env);
  }

  /** Folding the children's truth values with `and` from `True` gives the
      conjunction's truth value. */
  lemma FoldAndHolds(cs: seq<Expr>, vs: seq<Expr>, env: map<string, bool>)
    requires |vs| == |cs| && forall i :: 0 <= i < |cs| ==> vs[i] == Lit(Holds(cs[i], env))
    ensures FoldAnd(Lit(true), vs) == Ok(Lit(Holds(And(cs), env)))
  {
    AndHoldsAt(cs, env);
    assert (forall i :: 0 <= i < |vs| ==> vs[i].value) == Holds(And(cs), env);
  }

  lemma {:induction false} EvalAllBoolean(cs: seq<Expr>, env: map<string, bool>, fuel: nat)
    requires forall c :: c in cs ==> Boolean(c)
    requires FreeVarsOf(cs) <= env.Keys
    ensures EvalAll(cs, BoolNamespace(env), fuel).Ok?
    ensures forall i :: 0 <= i < |cs| ==> EvalAll(cs, BoolNamespace(env), fuel).value[i] == Lit(Holds(cs[i], env))
  {
    if cs != [] {
      assert cs[0] in cs;
      EvalBoolean(cs[0], env, fuel);
      EvalAllBoolean(cs[1..], env, fuel);
      var vs := EvalAll(cs, BoolNamespace(env), fuel).value;
      forall i | 0 <= i < |cs|
        ensures vs[i] == Lit(Holds(cs[i], env))
      {
        if i > 0 {
          assert cs[1..][i - 1] == cs[i];
        }
      }
    }
  }

  /** Reifying with bool bindings for every free variable leaves a closed
      boolean tree with the same truth value. */
  lemma {:induction false} ReifyGround(e: Expr, env: map<string, bool>)
    requires Boolean(e) && FreeVars(e) <= env.Keys
    ensures Boolean(Reify(e, BoolNamespace(env)))
    ensures FreeVars(Reify(e, BoolNamespace(env))) == {}
    ensures Holds(Reify(e, BoolNamespace(env)), map[]) == Holds(e, env)
  {
    var ns := BoolNamespace(env);
    match e
    case Not(c) =>
      ReifyGround(c, env);
    case Or(cs) =>
      ReifyAllGround(cs, env);
      var rs := ReifyAll(cs, ns);
      OrHoldsAt(cs, env);
      OrHoldsAt(rs, map[]);
      AllBoolean(rs);
    case And(cs) =>
      ReifyAllGround(cs, env);
      var rs := ReifyAll(cs, ns);
      AndHoldsAt(cs, env);
      AndHoldsAt(rs, map[]);
      AllBoolean(rs);
    case _ =>
  }

  /** Children that are boolean one by one make a boolean list. */
  lemma AllBoolean(rs: seq<Expr>)
    requires forall i :: 0 <= i < |rs| ==> Boolean(rs[i])
    ensures forall r :: r in rs ==> Boolean(r)
  {
    forall r | r in rs
      ensures Boolean(r)
    {
      var i :| 0 <= i < |rs| && rs[i] == r;
    }
  }

  lemma {:induction false} ReifyAllGround(cs: seq<Expr>, env: map<string, bool>)
    requires forall c :: c in cs ==> Boolean(c)
    requires FreeVarsOf(cs) <= env.Keys
    ensures FreeVarsOf(ReifyAll(cs, BoolNamespace(env))) == {}
    ensures forall i :: 0 <= i < |cs| ==>
      var r := ReifyAll(cs, BoolNamespace(env))[i];
      Boolean(r) && Holds(r, map[]) == Holds(cs[i], env)
  {
    var ns := BoolNamespace(env);
    if cs != [] {
      assert cs[0] in cs;
      ReifyGround(cs[0], env);
      ReifyAllGround(cs[1..], env);
      forall i | 0 <= i < |cs|
        ensures Boolean(ReifyAll(cs, ns)[i]) && Holds(ReifyAll(cs, ns)[i], map[]) == Holds(cs[i], env)
      {
        if i > 0 {
          assert cs[1..][i - 1] == cs[i];
        }
      }
    }
  }

  /** Evaluating the reified tree in an empty namespace agrees with
      evaluating the original in the assignment. */
  lemma ReifyThenEval(e: Expr, env: map<string, bool>, fuel: nat)
    requires Boolean(e) && FreeVars(e) <= env.Keys
    ensures Eval(Reify(e, BoolNamespace(env)), map[], fuel) == Eval(e, BoolNamespace(env), fuel)
  {
    ReifyGround(e, env);
    EvalBoolean(e, env, fuel);
    assert BoolNamespace(map[]) == map[];
    EvalBoolean(Reify(e, BoolNamespace(env)), map[], fuel);
  }

  /** The cases the test suite spells out: `reify` replaces a bound variable
      by its value, substitutes inside `|` and `&` (the dictionary `{c: a}`,
      keyed by the variable, reads as keyed by its name), does not simplify,
      does not chase a chain and keeps a negation around a bool; `eval`
      chases an expression-valued binding, folds `Or()`/`And()` to their
      identities and leaves a negated unbound variable negated. */
  lemma ReifyAndEvalCases(fuel: nat)
    ensures Reify(Var("a"), map["a" := Num(6)]) == Num(6)
    ensures Reify(Or([Var("a"), Var("c")]), map["c" := Var("a")]) == Or([Var("a"), Var("a")])
    ensures Reify(And([Var("a"), Var("c")]), map["c" := Var("a")]) == And([Var("a"), Var("a")])
    ensures Reify(Or([Var("a"), Lit(true)]), map["a" := Lit(false)]) == Or([Lit(false), Lit(true)])
    ensures Reify(Var("a"), map["a" := Var("b"), "b" := Var("c")]) == Var("b")
    ensures Reify(Not(Var("a")), map["a" := Lit(false)]) == Not(Lit(false))
    ensures fuel > 0 ==> Eval(Var("a"), map["a" := Var("b"), "b" := Num(1)], fuel) == Ok(Num(1))
    ensures Eval(Or([]), map[], fuel) == Ok(Lit(false))
    ensures Eval(And([]), map[], fuel) == Ok(Lit(true))
    ensures Eval(Not(Var("a")), map["c" := Var("a")], fuel) == Ok(Not(Var("a")))
  {
    var a, c := Var("a"), Var("c");
    assert ReifyAll([a, Lit(true)], map["a" := Lit(false)]) == [Lit(false), Lit(true)] by {
      assert [a, Lit(true)][1..] == [Lit(true)];
    }
    assert ReifyAll([a, c], map["c" := a]) == [a, a] by {
      assert [a, c][1..] == [c] && [c][1..] == [];
      assert Reify(c, map["c" := a]) == a;
    }
  }

  /** A relational node whose operands evaluate to ints evaluates to their
      comparison; `v > x`, which `Var.__gt__` builds as `LessThan(x, v)`,
      means the same as a `GreaterThan(v, x)` node. */
  lemma EvalComparison(op: RelOp, l: Expr, r: Expr, ns: Namespace, fuel: nat, x: int, y: int)
    requires Eval(l, ns, fuel) == Ok(Num(x)) && Eval(r, ns, fuel) == Ok(Num(y))
    ensures op.LessThan? ==> Eval(Rel(op, l, r), ns, fuel) == Ok(Lit(x < y))
    ensures op.GreaterThan? ==> Eval(Rel(op, l, r), ns, fuel) == Ok(Lit(x > y))
    ensures op.Eq? ==> Eval(Rel(op, l, r), ns, fuel) == Ok(Lit(x == y))
    ensures l.Var? ==> Eval(VarGreater(l, r), ns, fuel) == Eval(Rel(GreaterThan, l, r), ns, fuel)
  {
  }

  /** The relational cases the test suite spells out, including `4 < a`,
      which Python evaluates as `a.__gt__(4)`. */
  lemma RelationalCases()
    ensures Eval(Rel(Eq, Num(5), Num(6)), map[], ChainLimit) == Ok(Lit(false))
    ensures Reify(Rel(Eq, Var("a"), Num(5)), map["a" := Num(5)]) == Rel(Eq, Num(5), Num(5))
    ensures Eval(Rel(Eq, Num(5), Num(5)), map[], ChainLimit) == Ok(Lit(true))
    ensures Eval(Rel(LessThan, Num(5), Num(6)), map[], ChainLimit) == Ok(Lit(true))
    ensures Eval(VarLess(Var("a"), Num(5)), map["a" := Num(4)], ChainLimit) == Ok(Lit(true))
    ensures Eval(VarLess(Var("a"), Num(5)), map["a" := Num(6)], ChainLimit) == Ok(Lit(false))
    ensures Eval(VarGreater(Var("a"), Num(4)), map["a" := Num(5)], ChainLimit) == Ok(Lit(true))
  {
  }
}
