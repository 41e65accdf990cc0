/** The conversion to conjunctive normal form in the older snapshot
    pyreasoner/expressions/__init__.py. It differs from the conversion of
    pyreasoner/expressions.py in three places: `distribute_inwards` removes a
    single double negation, `recursive_collapse` lifts nested disjunctions but
    leaves negations alone, and there is no `__ror__`, so distributing a
    conjunction with a plain bool or int among its children is a `TypeError`.
    The result is also not wrapped in `And()`. */
module SnapshotNormalize {
  import opened ExprTree
  import opened Combinators
  import opened Normalize
  import opened NormalizeFacts
  import opened TruthTables
  import opened SnapshotEval

  /** The snapshot's `Not.distribute_inwards`, applied to the negated child
      `c`: a bool is complemented, one double negation is removed, De Morgan
      pushes the negation one level into a disjunction or a conjunction, and
      anything else stays negated. */
  function SnapDistributeNot(c: Expr): Expr
  {
    match c
    case Lit(b) => Lit(!b)
    case Not(x) => x
    case Or(xs) => And(SnapDistributeAll(xs))
    case And(xs) => Or(SnapDistributeAll(xs))
    case _ => Not(c)  // a variable or an int; the `Rel` case stands for no code, this version has no relational nodes
  }

  function SnapDistributeAll(xs: seq<Expr>): (rs: seq<Expr>)
    ensures |rs| == |xs|
    ensures forall i :: 0 <= i < |xs| ==> rs[i] == SnapDistributeNot(xs[i])
  {
    if xs == [] then [] else [SnapDistributeNot(xs[0])] + SnapDistributeAll(xs[1..])
  }

  /** Pushing a negation in at most doubles the size, and strictly shrinks
      it unless the negation stays where it is. */
  lemma {:induction false} SnapDistributeNotSize(c: Expr)
    ensures SizeOf(SnapDistributeNot(c)) <= 2 * SizeOf(c)
    ensures SnapDistributeNot(c) == Not(c) <==> c.Var? || c.Num? || c.Rel?
    ensures c.Var? || c.Num? || c.Rel? || SizeOf(SnapDistributeNot(c)) < 2 * SizeOf(c)
  {
    match c
    case Or(xs) => SnapDistributeAllSize(xs);
    case And(xs) => SnapDistributeAllSize(xs);
    case _ =>
  }

  lemma {:induction false} SnapDistributeAllSize(xs: seq<Expr>)
    ensures SumSize(SnapDistributeAll(xs)) <= 2 * SumSize(xs)
  {
    if xs != [] {
      SnapDistributeNotSize(xs[0]);
      SnapDistributeAllSize(xs[1..]);
    }
  }

  /** The weight of the pushed formula, asserted, is the weight of the
      original child, denied. */
  lemma {:induction false} SnapDistributeNotWeight(c: Expr)
    ensures Weight(SnapDistributeNot(c), true) == Weight(c, false)
  {
    match c
    case Or(xs) => SnapDistributeAllWeight(xs);
    case And(xs) => SnapDistributeAllWeight(xs);
    case _ =>
  }

  lemma {:induction false} SnapDistributeAllWeight(xs: seq<Expr>)
    ensures SumWeight(SnapDistributeAll(xs), true) == SumWeight(xs, false)
    ensures ProdWeight(SnapDistributeAll(xs), true) == ProdWeight(xs, false)
  {
    if xs != [] {
      SnapDistributeNotWeight(xs[0]);
      SnapDistributeAllWeight(xs[1..]);
    }
  }

  /** Pushing a negation in keeps a boolean formula boolean and yields its
      complement. */
  lemma {:induction false} SnapDistributeNotMeaning(c: Expr, env: map<string, bool>)
    requires Boolean(c)
    ensures Boolean(SnapDistributeNot(c))
    ensures Holds(SnapDistributeNot(c), env) == !Holds(c, env)
  {
    match c
    case Or(xs) =>
      SnapDistributeAllMeaning(xs, env);
      var ys := SnapDistributeAll(xs);
      OrHoldsAt(xs, env);
      AndHoldsAt(ys, env);
    case And(xs) =>
      SnapDistributeAllMeaning(xs, env);
      var ys := SnapDistributeAll(xs);
      AndHoldsAt(xs, env);
      OrHoldsAt(ys, env);
    case _ =>
  }

  lemma {:induction false} SnapDistributeAllMeaning(xs: seq<Expr>, env: map<string, bool>)
    requires forall x :: x in xs ==> Boolean(x)
    ensures forall y :: y in SnapDistributeAll(xs) ==> Boolean(y)
    ensures forall i :: 0 <= i < |xs| ==> Holds(SnapDistributeAll(xs)[i], env) == !Holds(xs[i], env)
  {
    var ys := SnapDistributeAll(xs);
    forall i | 0 <= i < |xs|
      ensures Boolean(ys[i]) && Holds(ys[i], env) == !Holds(xs[i], env)
    {
      assert xs[i] in xs;
      SnapDistributeNotMeaning(xs[i], env);
    }
  }

  /** `~~~~a` loses one double negation here and both in
      pyreasoner/expressions.py. */
  lemma SingleDoubleNegation()
    ensures SnapDistributeNot(Not(Not(Not(Var("a"))))) == Not(Not(Var("a")))
    ensures DistributeNot(Not(Not(Not(Var("a"))))) == Var("a")
  {
  }

  /** The snapshot's `Or.recursive_collapse`, read as a function: nested
      disjunctions are replaced by their collapsed children, every other child
      is kept as it is. */
  function SnapCollapsed(cs: seq<Expr>): seq<Expr>
  {
    if cs == [] then [] else SnapCollapseOne(cs[0]) + SnapCollapsed(cs[1..])
  }

  function SnapCollapseOne(c: Expr): seq<Expr>
  {
    if c.Or? then SnapCollapsed(c.children) else [c]
  }

  lemma {:induction false} SnapCollapsedConcat(a: seq<Expr>, b: seq<Expr>)
    ensures SnapCollapsed(a + b) == SnapCollapsed(a) + SnapCollapsed(b)
  {
    if a == [] {
      assert a + b == b;
    } else {
      assert (a + b)[1..] == a[1..] + b;
      SnapCollapsedConcat(a[1..], b);
    }
  }

  /** `Or.recursive_collapse` as the snapshot writes it: one pass over the
      children, extending the result with the collapsed children of every
      disjunction met. */
  method SnapRecursiveCollapse(e: Expr) returns (r: Expr)
    requires e.Or?
    ensures r == Or(SnapCollapsed(e.children))
    decreases e
  {
    var cs := e.children;
    var children: seq<Expr> := [];
    var i := 0;
    while i < |cs|
      invariant i <= |cs|
      invariant children == SnapCollapsed(cs[..i])
    {
      var child := cs[i];
      if child.Or? {
        var sub := SnapRecursiveCollapse(child);
        children := children + sub.children;
      } else {
        children := children + [child];
      }
      assert cs[..i + 1] == cs[..i] + [cs[i]];
      SnapCollapsedConcat(cs[..i], [cs[i]]);
      assert SnapCollapsed([cs[i]]) == SnapCollapseOne(cs[i]) + SnapCollapsed([]);
      i := i + 1;
    }
    assert cs[..i] == cs;
    r := Or(children);
  }

  /** The collapsed children contain no disjunction, and every child that is
      not a disjunction is among them unchanged. */
  lemma {:induction false} SnapCollapsedShape(cs: seq<Expr>)
    ensures forall x :: x in SnapCollapsed(cs) ==> !x.Or?
    ensures forall c :: c in cs && !c.Or? ==> c in SnapCollapsed(cs)
  {
    if cs != [] {
      if cs[0].Or? {
        SnapCollapsedShape(cs[0].children);
      }
      SnapCollapsedShape(cs[1..]);
      forall c | c in cs && !c.Or?
        ensures c in SnapCollapsed(cs)
      {
        if c != cs[0] {
          assert c in cs[1..];
        }
      }
    }
  }

  /** Collapsing keeps the formulas boolean and the disjunction's truth value. */
  lemma {:induction false} SnapCollapsedMeaning(cs: seq<Expr>, env: map<string, bool>)
    requires forall c :: c in cs ==> Boolean(c)
    ensures forall c :: c in SnapCollapsed(cs) ==> Boolean(c)
    ensures Holds(Or(SnapCollapsed(cs)), env) == Holds(Or(cs), env)
  {
    if cs != [] {
      var h, t := SnapCollapseOne(cs[0]), SnapCollapsed(cs[1..]);
      assert cs[0] in cs;
      if cs[0].Or? {
        SnapCollapsedMeaning(cs[0].children, env);
      }
      assert forall c :: c in cs[1..] ==> c in cs;
      SnapCollapsedMeaning(cs[1..], env);
      HoldsOrConcat(h, t, env);
      HoldsOrConcat([cs[0]], cs[1..], env);
      assert [cs[0]] + cs[1..] == cs;
    }
  }

  /** Collapsing keeps the free variables. */
  lemma {:induction false} SnapCollapsedFreeVars(cs: seq<Expr>)
    ensures FreeVarsOf(SnapCollapsed(cs)) == FreeVarsOf(cs)
  {
    if cs != [] {
      if cs[0].Or? {
        SnapCollapsedFreeVars(cs[0].children);
      }
      SnapCollapsedFreeVars(cs[1..]);
      FreeVarsOfConcat(SnapCollapseOne(cs[0]), SnapCollapsed(cs[1..]));
    }
  }

  /** Collapsing keeps the product of the disjuncts' weights. */
  lemma {:induction false} SnapCollapsedWeight(cs: seq<Expr>)
    ensures ProdWeight(SnapCollapsed(cs), true) == ProdWeight(cs, true)
  {
    if cs != [] {
      if cs[0].Or? {
        SnapCollapsedWeight(cs[0].children);
      }
      SnapCollapsedWeight(cs[1..]);
      ProdWeightConcat(SnapCollapseOne(cs[0]), SnapCollapsed(cs[1..]), true);
    }
  }

  /** `And(*(descendant | other_disjuncts for descendant in ds))` in the
      snapshot: a bool or int among `ds` has no `__ror__` to fall back on and
      raises `TypeError`; otherwise the result is the distribution of
      pyreasoner/expressions.py. */
  function SnapDistributeOver(ds: seq<Expr>, rest: seq<Expr>): (r: Result<seq<Expr>>)
    ensures r.Ok? ==> r.value == DistributeOver(ds, rest)
    ensures r.Err? <==> exists k :: 0 <= k < |ds| && !IsNode(ds[k])
    ensures r.Err? ==> r.error == TypeError
  {
    if ds == [] then Ok([])
    else
      var j := SnapOrJoin(ds[0], Or(rest));
      if j.Err? then Err(j.error)
      else
        var t := SnapDistributeOver(ds[1..], rest);
        if t.Err? then Err(t.error)
        else
          assert forall k :: 1 <= k < |ds| ==> ds[k] == ds[1..][k - 1];
          Ok([j.value] + t.value)
  }

  /** The snapshot's `convert_to_conjunctive_normal_form`, with the measure
      of `Normalize.Conv`. A negation is pushed in and the result converted
      (a negated int recurses forever). A disjunction is collapsed; a
      disjunction of atoms is the result, otherwise the first conjunction is
      distributed over the other disjuncts and the result converted; a
      disjunction with neither reaches the `assert False`. A conjunction is
      the `&`-fold, from `And()`, of its converted children. */
  function SnapConv(e: Expr): (r: Result<Expr>)
    ensures r.Ok? && e.And? ==> r.value.And?
    decreases Weight(e, true), Rank(e), SizeOf(e)
  {
    if IsDisjunctionOfAtoms(e) then Ok(e)
    else
      match e
      case Not(c) =>
        var d := SnapDistributeNot(c);
        if d == e then Err(RecursionLimit)
        else
          SnapDistributeNotWeight(c);
          SnapDistributeNotSize(c);
          SnapConv(d)
      case Or(cs) =>
        var col := SnapCollapsed(cs);
        var first := FirstAnd(col);
        if IsDisjunctionOfAtoms(Or(col)) then Ok(Or(col))
        else if first.None? then Err(AssertionFailure)
        else
          var i := first.value;
          var dist := SnapDistributeOver(col[i].children, col[..i] + col[i + 1..]);
          if dist.Err? then Err(dist.error)
          else
            SnapCollapsedWeight(cs);
            DistributionWeight(col, i);
            SnapConv(And(dist.value))
      case And(cs) =>
        if cs == [] then Ok(And([]))
        else
          AndWeight(cs);
          var p := SnapConv(And(cs[..|cs| - 1]));
          if p.Err? then p
          else
            var q := SnapConv(cs[|cs| - 1]);
            if q.Err? then q else SnapAndJoin(p.value, q.value)
      case _ => Err(AssertionFailure)  // an int; the `Rel` case stands for no code, this version has no relational nodes
  }

  /** When the snapshot's conversion succeeds on a boolean formula, the
      result is boolean and has the formula's truth value. */
  lemma {:induction false} SnapConvMeaning(e: Expr, env: map<string, bool>)
    requires Boolean(e) && SnapConv(e).Ok?
    ensures Boolean(SnapConv(e).value)
    ensures Holds(SnapConv(e).value, env) == Holds(e, env)
    decreases Weight(e, true), Rank(e), SizeOf(e), 1
  {
    if IsDisjunctionOfAtoms(e) {
    } else if e.Not? {
      var c := e.child;
      SnapDistributeNotWeight(c);
      SnapDistributeNotSize(c);
      SnapDistributeNotMeaning(c, env);
      SnapConvMeaning(SnapDistributeNot(c), env);
    } else if e.Or? {
      SnapConvMeaningOr(e, env);
    } else if e.And? {
      SnapConvMeaningAnd(e, env);
    }
  }

  /** The disjunction case of `SnapConvMeaning`. */
  lemma {:induction false} SnapConvMeaningOr(e: Expr, env: map<string, bool>)
    requires Boolean(e) && e.Or? && !IsDisjunctionOfAtoms(e) && SnapConv(e).Ok?
    ensures Boolean(SnapConv(e).value)
    ensures Holds(SnapConv(e).value, env) == Holds(e, env)
    decreases Weight(e, true), Rank(e), SizeOf(e), 0
  {
    var cs := e.children;
    var col := SnapCollapsed(cs);
    SnapCollapsedMeaning(cs, env);
    if !IsDisjunctionOfAtoms(Or(col)) {
      var i := SnapConvOrStep(e);
      var ds, rest := col[i].children, col[..i] + col[i + 1..];
      assert col[i] in col;
      assert forall c :: c in rest ==> c in col;
      SnapCollapsedWeight(cs);
      DistributionWeight(col, i);
      DistributeOverMeaning(ds, rest, env);
      SplitAt(col, i, env);
      SnapConvMeaning(And(DistributeOver(ds, rest)), env);
    }
  }

  /** What the snapshot's conversion returns is in conjunctive normal form. */
  lemma {:induction false} SnapConvNormalForm(e: Expr)
    requires SnapConv(e).Ok?
    ensures IsConjunctiveNormalForm(SnapConv(e).value)
    decreases Weight(e, true), Rank(e), SizeOf(e)
  {
    if IsDisjunctionOfAtoms(e) {
    } else if e.Not? {
      var c := e.child;
      SnapDistributeNotWeight(c);
      SnapDistributeNotSize(c);
      SnapConvNormalForm(SnapDistributeNot(c));
    } else if e.Or? {
      var col := SnapCollapsed(e.children);
      if !IsDisjunctionOfAtoms(Or(col)) {
        var i := SnapConvOrStep(e);
        SnapCollapsedWeight(e.children);
        DistributionWeight(col, i);
        SnapConvNormalForm(And(DistributeOver(col[i].children, col[..i] + col[i + 1..])));
      }
    } else if e.And? && e.children != [] {
      var cs := e.children;
      var n := |cs|;
      AndWeight(cs);
      SnapConvAndStep(cs);
      var init, last := cs[..n - 1], cs[n - 1];
      SnapConvNormalForm(And(init));
      SnapConvNormalForm(last);
      JoinedClauses(SnapConv(And(init)).value, SnapConv(last).value);
    }
  }

  /** Joining a conjunction of clauses with a normal form gives a
      conjunction of clauses. */
  lemma JoinedClauses(a: Expr, b: Expr)
    requires a.And? && IsConjunctiveNormalForm(a) && IsConjunctiveNormalForm(b)
    ensures SnapAndJoin(a, b).Ok? && IsConjunctiveNormalForm(SnapAndJoin(a, b).value)
  {
    var rs := if b.And? then b.children else [b];
    forall c | c in a.children + rs
      ensures IsDisjunctionOfAtoms(c)
    {
      if c in a.children {
      } else if !b.And? {
        assert c == b;
      }
    }
  }

  /** One step of the snapshot's conversion on a disjunction that still
      holds a conjunction after collapsing: the first conjunction is
      distributed over the other disjuncts. */
  lemma SnapConvOrStep(e: Expr) returns (i: nat)
    requires e.Or? && !IsDisjunctionOfAtoms(e) && SnapConv(e).Ok?
    requires !IsDisjunctionOfAtoms(Or(SnapCollapsed(e.children)))
    ensures var col := SnapCollapsed(e.children);
      i < |col| && col[i].And? &&
      SnapConv(e) == SnapConv(And(DistributeOver(col[i].children, col[..i] + col[i + 1..])))
  {
    var col := SnapCollapsed(e.children);
    SnapConvOrFinds(e);
    i := FirstAnd(col).value;
    SnapConvOrDistributes(e, i);
  }

  /** The conversion succeeds on such a disjunction only when the collapse
      leaves a conjunction to distribute. */
  lemma SnapConvOrFinds(e: Expr)
    requires e.Or? && !IsDisjunctionOfAtoms(e) && SnapConv(e).Ok?
    requires !IsDisjunctionOfAtoms(Or(SnapCollapsed(e.children)))
    ensures FirstAnd(SnapCollapsed(e.children)).Some?
  {
  }

  /** The conversion of such a disjunction is that of the distribution over
      its first conjunction. */
  lemma SnapConvOrDistributes(e: Expr, i: nat)
    requires e.Or? && !IsDisjunctionOfAtoms(e) && SnapConv(e).Ok?
    requires !IsDisjunctionOfAtoms(Or(SnapCollapsed(e.children)))
    requires FirstAnd(SnapCollapsed(e.children)) == Some(i)
    ensures var col := SnapCollapsed(e.children);
      SnapConv(e) == SnapConv(And(DistributeOver(col[i].children, col[..i] + col[i + 1..])))
  {
  }

  /** One step of the snapshot's conversion on a non-empty conjunction: the
      conversion of all but the last child joined with that of the last. */
  lemma SnapConvAndStep(cs: seq<Expr>)
    requires cs != []
    ensures var p, q := SnapConv(And(cs[..|cs| - 1])), SnapConv(cs[|cs| - 1]);
      SnapConv(And(cs)) == if p.Err? then p else if q.Err? then q else SnapAndJoin(p.value, q.value)
  {
  }

  /** The conjunction case of `SnapConvMeaning`. */
  lemma {:induction false} SnapConvMeaningAnd(e: Expr, env: map<string, bool>)
    requires Boolean(e) && e.And? && SnapConv(e).Ok?
    ensures Boolean(SnapConv(e).value)
    ensures Holds(SnapConv(e).value, env) == Holds(e, env)
    decreases Weight(e, true), Rank(e), SizeOf(e), 0
  {
    var cs := e.children;
    if cs != [] {
      var n := |cs|;
      AndWeight(cs);
      SnapConvAndStep(cs);
      var init, last := cs[..n - 1], cs[n - 1];
      var p, q := SnapConv(And(init)), SnapConv(last);
      assert p.Ok? && q.Ok?;
      assert SnapConv(e) == SnapAndJoin(p.value, q.value);
      assert last in cs;
      assert forall c :: c in init ==> c in cs;
      SnapConvMeaning(And(init), env);
      SnapConvMeaning(last, env);
      SplitLast(cs, env);
    }
  }

  /** A formula already in conjunctive normal form comes back unchanged. */
  lemma SnapConvKeepsNormalForm(e: Expr)
    requires IsConjunctiveNormalForm(e)
    ensures SnapConv(e) == Ok(e)
  {
    if !IsDisjunctionOfAtoms(e) {
      var cs := e.children;
      forall i | 0 <= i < |cs|
        ensures IsDisjunctionOfAtoms(cs[i])
      {
        assert cs[i] in cs;
      }
      SnapConvClauses(cs);
    }
  }

  /** A conjunction of clauses is rebuilt clause by clause into itself. */
  lemma {:induction false} SnapConvClauses(cs: seq<Expr>)
    requires forall i :: 0 <= i < |cs| ==> IsDisjunctionOfAtoms(cs[i])
    ensures SnapConv(And(cs)) == Ok(And(cs))
  {
    if cs != [] {
      SnapConvClauses(cs[..|cs| - 1]);
      SnapClauseStep(cs);
    }
  }

  /** One more clause: if all but the last child convert to themselves, so
      does the whole conjunction. */
  lemma SnapClauseStep(cs: seq<Expr>)
    requires cs != [] && IsDisjunctionOfAtoms(cs[|cs| - 1])
    requires SnapConv(And(cs[..|cs| - 1])) == Ok(And(cs[..|cs| - 1]))
    ensures SnapConv(And(cs)) == Ok(And(cs))
  {
    var init, last := cs[..|cs| - 1], cs[|cs| - 1];
    SnapConvAtoms(last);
    SnapConvAndStep(cs);
    JoinClause(init, last);
    assert init + [last] == cs;
  }

  /** A disjunction of atoms is its own conversion. */
  lemma SnapConvAtoms(e: Expr)
    requires IsDisjunctionOfAtoms(e)
    ensures SnapConv(e) == Ok(e) && !e.And?
  {
  }

  /** Joining a conjunction with one more clause appends the clause. */
  lemma JoinClause(init: seq<Expr>, last: Expr)
    requires IsDisjunctionOfAtoms(last)
    ensures SnapAndJoin(And(init), last) == Ok(And(init + [last]))
  {
  }

  /** `~(b | c)` becomes `~b & ~c`. */
  lemma SnapNegatedDisjunction()
    ensures SnapConv(Not(Or([Var("b"), Var("c")]))) == Ok(And([Not(Var("b")), Not(Var("c"))]))
  {
    var b, c := Var("b"), Var("c");
    var nbc := [Not(b), Not(c)];
    assert SnapDistributeNot(Or([b, c])) == And(nbc) by {
      assert SnapDistributeAll([b, c]) == nbc;
    }
    SnapConvKeepsNormalForm(And(nbc));
  }

  /** `(a & b) | c` becomes `(a | c) & (b | c)`. */
  lemma SnapDistributedDisjunction()
    ensures SnapConv(Or([And([Var("a"), Var("b")]), Var("c")]))
         == Ok(And([Or([Var("a"), Var("c")]), Or([Var("b"), Var("c")])]))
  {
    var a, b, c := Var("a"), Var("b"), Var("c");
    var col := [And([a, b]), c];
    assert SnapCollapsed(col) == col by {
      assert col[1..] == [c] && [c][1..] == [];
      assert SnapCollapsed([c]) == [c];
    }
    assert !IsDisjunctionOfAtoms(Or(col)) by {
      assert And([a, b]) in col;
    }
    assert FirstAnd(col) == Some(0);
    assert col[..0] + col[1..] == [c];
    var ds := [Or([a, Or([c])]), Or([b, Or([c])])];
    assert DistributeOver([a, b], [c]) == ds by {
      assert [a, b][1..] == [b];
      assert DistributeOver([b], [c]) == [Or([b, Or([c])])];
    }
    assert SnapDistributeOver([a, b], [c]) == Ok(ds) by {
      assert forall k :: 0 <= k < 2 ==> IsNode([a, b][k]);
    }
    SnapTwoClauses(a, b, c);
  }

  /** `(x | (z)) & (y | (z))` becomes `(x | z) & (y | z)`. */
  lemma SnapTwoClauses(x: Expr, y: Expr, z: Expr)
    requires x.Var? && y.Var? && z.Var?
    ensures SnapConv(And([Or([x, Or([z])]), Or([y, Or([z])])])) == Ok(And([Or([x, z]), Or([y, z])]))
  {
    var ds := [Or([x, Or([z])]), Or([y, Or([z])])];
    SnapOrCollapse(y, z);
    assert ds[..1] == [Or([x, Or([z])])];
    SnapOneClause(x, z);
    assert [Or([x, z])] + [Or([y, z])] == [Or([x, z]), Or([y, z])];
  }

  /** `(x | (z))` alone becomes `(x | z)`. */
  lemma SnapOneClause(x: Expr, z: Expr)
    requires x.Var? && z.Var?
    ensures SnapConv(And([Or([x, Or([z])])])) == Ok(And([Or([x, z])]))
  {
    SnapOrCollapse(x, z);
    assert [Or([x, Or([z])])][..0] == [];
    assert [] + [Or([x, z])] == [Or([x, z])];
  }

  /** `x | (y)` collapses to `x | y` for variables `x` and `y`. */
  lemma SnapOrCollapse(x: Expr, y: Expr)
    requires x.Var? && y.Var?
    ensures SnapConv(Or([x, Or([y])])) == Ok(Or([x, y]))
  {
    assert [x, Or([y])][1..] == [Or([y])];
    assert [Or([y])][1..] == [];
    assert SnapCollapsed([y]) == [y] by {
      assert [y][1..] == [];
      assert [y] + [] == [y];
    }
    assert SnapCollapsed([Or([y])]) == [y] by {
      assert [y] + [] == [y];
    }
    assert SnapCollapsed([x]) == [x] by {
      assert [x][1..] == [];
      assert [x] + [] == [x];
    }
    assert [x] + [y] == [x, y];
    assert SnapCollapsed([x, Or([y])]) == [x, y];
    assert IsDisjunctionOfAtoms(Or([x, y]));
    assert !IsDisjunctionOfAtoms(Or([x, Or([y])])) by {
      assert Or([y]) in [x, Or([y])];
    }
  }

  /** A negated disjunction inside a disjunction: the snapshot's collapse
      leaves `~(b | c)` in place, the collapsed disjunction is neither a
      disjunction of atoms nor has a conjunction to distribute, and the
      conversion reaches its `assert False`. The conversion of
      pyreasoner/expressions.py pushes the negation in during the collapse and
      returns an equivalent normal form. */
  lemma NegatedDisjunctReachesAssertion()
    ensures SnapConv(Or([Var("a"), Not(Or([Var("b"), Var("c")]))])) == Err(AssertionFailure)
    ensures Convert(Or([Var("a"), Not(Or([Var("b"), Var("c")]))])).Ok?
    ensures IsLogicallyEquivalent(Convert(Or([Var("a"), Not(Or([Var("b"), Var("c")]))])).value,
                                  Or([Var("a"), Not(Or([Var("b"), Var("c")]))])) == Ok(true)
  {
    var a, nbc := Var("a"), Not(Or([Var("b"), Var("c")]));
    var col := [a, nbc];
    assert SnapCollapsed(col) == col by {
      assert col[1..] == [nbc] && [nbc][1..] == [];
      assert SnapCollapsed([nbc]) == [nbc] by {
        assert [nbc] + [] == [nbc];
      }
      assert SnapCollapsed([a]) == [a] by {
        assert [a][1..] == [];
        assert [a] + [] == [a];
      }
      assert [a] + [nbc] == col;
    }
    assert !IsDisjunctionOfAtoms(Or(col)) by {
      assert nbc in col;
    }
    assert FirstAnd(col).None?;
    ConvertEquivalent(Or(col));
  }

  /** A conjunction with a bool among its children inside a disjunction: the
      snapshot distributes it with `True | (b)`, which has no `__ror__` to fall
      back on and raises `TypeError`. The conversion of
      pyreasoner/expressions.py returns an equivalent normal form. */
  lemma BoolConjunctRaisesTypeError()
    ensures SnapConv(Or([And([Lit(true), Var("a")]), Var("b")])) == Err(TypeError)
    ensures Convert(Or([And([Lit(true), Var("a")]), Var("b")])).Ok?
    ensures IsLogicallyEquivalent(Convert(Or([And([Lit(true), Var("a")]), Var("b")])).value,
                                  Or([And([Lit(true), Var("a")]), Var("b")])) == Ok(true)
  {
    SnapBoolConjunct();
    ConvertEquivalent(Or([And([Lit(true), Var("a")]), Var("b")]));
  }

  /** The snapshot's half of `BoolConjunctRaisesTypeError`. */
  lemma SnapBoolConjunct()
    ensures SnapConv(Or([And([Lit(true), Var("a")]), Var("b")])) == Err(TypeError)
  {
    var b, ta := Var("b"), And([Lit(true), Var("a")]);
    var col := [ta, b];
    assert SnapCollapsed(col) == col by {
      assert col[1..] == [b] && [b][1..] == [];
      assert SnapCollapsed([b]) == [b];
    }
    assert !IsDisjunctionOfAtoms(Or(col)) by {
      assert ta in col;
    }
    assert FirstAnd(col) == Some(0);
    assert col[..0] + col[1..] == [b];
    assert SnapDistributeOver(ta.children, [b]) == Err(TypeError) by {
      assert !IsNode(ta.children[0]);
    }
  }
}
