/** What the conversion to conjunctive normal form of
    pyreasoner/expressions.py preserves: truth value, free variables and the
    boolean fragment, and the shape of what it returns. */
module NormalizeFacts {
  import opened ExprTree
  import opened Combinators
  import opened Normalize
  import opened TruthTables

  /** De Morgan: on a boolean formula, pushing a negation inwards gives a
      boolean formula whose truth value is the complement of the operand's. */
  lemma {:induction false} DistributeNotMeaning(c: Expr, env: map<string, bool>)
    requires Boolean(c)
    ensures Boolean(DistributeNot(c))
    ensures Holds(DistributeNot(c), env) == !Holds(c, env)
  {
    match c
    case Lit(_) =>
    case Var(_) =>
    case Not(x) =>
      if x.Not? {
        DistributeNotMeaning(x.child, env);
      }
    case Or(xs) =>
      DistributeAllMeaning(xs, env);
      OrHoldsAt(xs, env);
      AndHoldsAt(DistributeAll(xs), env);
    case And(xs) =>
      DistributeAllMeaning(xs, env);
      AndHoldsAt(xs, env);
      OrHoldsAt(DistributeAll(xs), env);
  }

  lemma {:induction false} DistributeAllMeaning(xs: seq<Expr>, env: map<string, bool>)
    requires forall x :: x in xs ==> Boolean(x)
    ensures forall y :: y in DistributeAll(xs) ==> Boolean(y)
    ensures forall i :: 0 <= i < |xs| ==> Holds(DistributeAll(xs)[i], env) == !Holds(xs[i], env)
  {
    var ys := DistributeAll(xs);
    forall i | 0 <= i < |xs|
      ensures Boolean(ys[i]) && Holds(ys[i], env) == !Holds(xs[i], env)
    {
      assert xs[i] in xs;
      DistributeNotMeaning(xs[i], env);
    }
    forall y | y in ys
      ensures Boolean(y)
    {
      var i :| 0 <= i < |ys| && ys[i] == y;
    }
  }

  /** Pushing a negation inwards keeps the free variables. */
  lemma {:induction false} DistributeNotFreeVars(c: Expr)
    ensures FreeVars(DistributeNot(c)) == FreeVars(c)
  {
    match c
    case Not(x) =>
      if x.Not? {
        DistributeNotFreeVars(x.child);
      }
    case Or(xs) => DistributeAllFreeVars(xs);
    case And(xs) => DistributeAllFreeVars(xs);
    case _ =>
  }

  lemma {:induction false} DistributeAllFreeVars(xs: seq<Expr>)
    ensures FreeVarsOf(DistributeAll(xs)) == FreeVarsOf(xs)
  {
    if xs != [] {
      DistributeNotFreeVars(xs[0]);
      DistributeAllFreeVars(xs[1..]);
      assert DistributeAll(xs)[1..] == DistributeAll(xs[1..]);
    }
  }

  /** Collapsing a boolean disjunction gives a boolean disjunction with the
      same truth value. */
  lemma {:induction false} CollapsedMeaning(cs: seq<Expr>, env: map<string, bool>)
    requires forall c :: c in cs ==> Boolean(c)
    ensures forall c :: c in Collapsed(cs) ==> Boolean(c)
    ensures Holds(Or(Collapsed(cs)), env) == Holds(Or(cs), env)
    decreases SumSize(cs), 1
  {
    if cs != [] {
      assert cs[0] in cs;
      CollapseOneMeaning(cs[0], env);
      CollapsedMeaning(cs[1..], env);
      HoldsOrConcat(CollapseOne(cs[0]), Collapsed(cs[1..]), env);
      assert cs == [cs[0]] + cs[1..];
      HoldsOrConcat([cs[0]], cs[1..], env);
      OrHoldsAt([cs[0]], env);
    }
  }

  lemma {:induction false} CollapseOneMeaning(c: Expr, env: map<string, bool>)
    requires Boolean(c)
    ensures forall x :: x in CollapseOne(c) ==> Boolean(x)
    ensures Holds(Or(CollapseOne(c)), env) == Holds(c, env)
    decreases SizeOf(c), 0
  {
    var d := if c.Not? then DistributeNot(c.child) else c;
    if c.Not? {
      DistributeNotMeaning(c.child, env);
      DistributeNotSize(c.child);
    }
    if d.Or? {
      CollapsedMeaning(d.children, env);
    } else {
      OrHoldsAt([d], env);
    }
  }

  /** Collapsing keeps the free variables. */
  lemma {:induction false} CollapsedFreeVars(cs: seq<Expr>)
    ensures FreeVarsOf(Collapsed(cs)) == FreeVarsOf(cs)
    decreases SumSize(cs), 1
  {
    if cs != [] {
      CollapseOneFreeVars(cs[0]);
      CollapsedFreeVars(cs[1..]);
      FreeVarsOfConcat(CollapseOne(cs[0]), Collapsed(cs[1..]));
    }
  }

  lemma {:induction false} CollapseOneFreeVars(c: Expr)
    ensures FreeVarsOf(CollapseOne(c)) == FreeVars(c)
    decreases SizeOf(c), 0
  {
    var d := if c.Not? then DistributeNot(c.child) else c;
    if c.Not? {
      DistributeNotFreeVars(c.child);
      DistributeNotSize(c.child);
    }
    if d.Or? {
      CollapsedFreeVars(d.children);
    } else {
      assert FreeVarsOf([d]) == FreeVars(d) + FreeVarsOf([]);
    }
  }

  /** No child of a collapsed disjunction is a disjunction, and a negated
      child is a negated variable, int or comparison. */
  predicate Flat(x: Expr)
  {
    !x.Or? && (x.Not? ==> x.child.Var? || x.child.Num? || x.child.Rel?)
  }

  lemma {:induction false} CollapsedFlat(cs: seq<Expr>)
    ensures forall x :: x in Collapsed(cs) ==> Flat(x)
    decreases SumSize(cs), 1
  {
    if cs != [] {
      CollapseOneFlat(cs[0]);
      CollapsedFlat(cs[1..]);
    }
  }

  lemma {:induction false} CollapseOneFlat(c: Expr)
    ensures forall x :: x in CollapseOne(c) ==> Flat(x)
    decreases SizeOf(c), 0
  {
    var d := if c.Not? then DistributeNot(c.child) else c;
    if c.Not? {
      DistributeNotResidue(c.child);
      DistributeNotSize(c.child);
    }
    if d.Or? {
      CollapsedFlat(d.children);
    }
  }

  /** Distributing over boolean operands gives a boolean conjunction that
      holds exactly when the distributed conjunction or the other disjuncts do. */
  lemma DistributeOverMeaning(ds: seq<Expr>, rest: seq<Expr>, env: map<string, bool>)
    requires forall d :: d in ds ==> Boolean(d)
    requires forall c :: c in rest ==> Boolean(c)
    ensures Boolean(And(DistributeOver(ds, rest)))
    ensures Holds(And(DistributeOver(ds, rest)), env) == (Holds(And(ds), env) || Holds(Or(rest), env))
  {
    var rs := DistributeOver(ds, rest);
    forall k | 0 <= k < |ds|
      ensures Boolean(rs[k]) && Holds(rs[k], env) == (Holds(ds[k], env) || Holds(Or(rest), env))
    {
      assert ds[k] in ds;
    }
    forall r | r in rs
      ensures Boolean(r)
    {
      var k :| 0 <= k < |rs| && rs[k] == r;
    }
    AndHoldsAt(rs, env);
    AndHoldsAt(ds, env);
  }

  /** The free variables of the distributed conjunction are those of its
      operands, provided there is a descendant to distribute. */
  lemma {:induction false} DistributeOverFreeVars(ds: seq<Expr>, rest: seq<Expr>)
    requires ds != []
    ensures FreeVarsOf(DistributeOver(ds, rest)) == FreeVarsOf(ds) + FreeVarsOf(rest)
  {
    assert DistributeOver(ds, rest)[1..] == DistributeOver(ds[1..], rest);
    if ds[1..] != [] {
      DistributeOverFreeVars(ds[1..], rest);
    }
  }

  /** Taking out the disjunct at position `i`. */
  lemma SplitAt(col: seq<Expr>, i: nat, env: map<string, bool>)
    requires i < |col|
    ensures Holds(Or(col), env) == (Holds(col[i], env) || Holds(Or(col[..i] + col[i + 1..]), env))
    ensures FreeVarsOf(col) == FreeVars(col[i]) + FreeVarsOf(col[..i] + col[i + 1..])
  {
    assert col == col[..i] + ([col[i]] + col[i + 1..]);
    HoldsOrConcat(col[..i], [col[i]] + col[i + 1..], env);
    HoldsOrConcat([col[i]], col[i + 1..], env);
    HoldsOrConcat(col[..i], col[i + 1..], env);
    OrHoldsAt([col[i]], env);
    FreeVarsOfConcat(col[..i], [col[i]] + col[i + 1..]);
    FreeVarsOfConcat([col[i]], col[i + 1..]);
    FreeVarsOfConcat(col[..i], col[i + 1..]);
    assert FreeVarsOf([col[i]]) == FreeVars(col[i]) + FreeVarsOf([]);
  }

  /** Taking off the last conjunct. */
  lemma SplitLast(cs: seq<Expr>, env: map<string, bool>)
    requires cs != []
    ensures Holds(And(cs), env) == (Holds(And(cs[..|cs| - 1]), env) && Holds(cs[|cs| - 1], env))
    ensures FreeVarsOf(cs) == FreeVarsOf(cs[..|cs| - 1]) + FreeVars(cs[|cs| - 1])
  {
    var n := |cs|;
    assert cs == cs[..n - 1] + [cs[n - 1]];
    HoldsAndConcat(cs[..n - 1], [cs[n - 1]], env);
    AndHoldsAt([cs[n - 1]], env);
    FreeVarsOfConcat(cs[..n - 1], [cs[n - 1]]);
    assert FreeVarsOf([cs[n - 1]]) == FreeVars(cs[n - 1]) + FreeVarsOf([]);
  }

  /** A collapsed boolean disjunction without a conjunction is a
      disjunction of atoms. */
  lemma CollapsedBooleanWithoutAnd(cs: seq<Expr>)
    requires forall c :: c in cs ==> Boolean(c)
    requires FirstAnd(Collapsed(cs)).None?
    ensures IsDisjunctionOfAtoms(Or(Collapsed(cs)))
  {
    var col := Collapsed(cs);
    CollapsedFlat(cs);
    CollapsedMeaning(cs, map[]);
    forall x | x in col
      ensures IsBooleanAtom(x)
    {
      var j :| 0 <= j < |col| && col[j] == x;
      assert !x.And? && Flat(x) && Boolean(x);
      if x.Not? {
        assert Boolean(x.child);
      }
    }
  }

  /** On a boolean formula the conversion succeeds, stays boolean and keeps
      the truth value under every assignment: the `assert False` is out of
      reach and no negation is left that cannot be pushed. */
  lemma {:induction false} ConvMeaning(e: Expr, env: map<string, bool>)
    requires Boolean(e)
    ensures Conv(e).Ok?
    ensures Boolean(Conv(e).value)
    ensures Holds(Conv(e).value, env) == Holds(e, env)
    decreases Weight(e, true), Rank(e), SizeOf(e), 1
  {
    if IsDisjunctionOfAtoms(e) {
    } else if e.Not? {
      var c := e.child;
      DistributeNotFixed(c);
      DistributeNotWeight(c);
      DistributeNotSize(c);
      DistributeNotMeaning(c, env);
      ConvMeaning(DistributeNot(c), env);
    } else if e.Or? {
      ConvMeaningOr(e, env);
    } else if e.And? {
      ConvMeaningAnd(e, env);
    }
  }

  /** The disjunction case of `ConvMeaning`. */
  lemma {:induction false} ConvMeaningOr(e: Expr, env: map<string, bool>)
    requires Boolean(e) && e.Or? && !IsDisjunctionOfAtoms(e)
    ensures Conv(e).Ok?
    ensures Boolean(Conv(e).value)
    ensures Holds(Conv(e).value, env) == Holds(e, env)
    decreases Weight(e, true), Rank(e), SizeOf(e), 0
  {
    var cs := e.children;
    var col := Collapsed(cs);
    CollapsedMeaning(cs, env);
    if !IsDisjunctionOfAtoms(Or(col)) {
      if FirstAnd(col).None? {
        CollapsedBooleanWithoutAnd(cs);
      }
      var i := FirstAnd(col).value;
      ConvOrDistributes(e, i);
      var ds, rest := col[i].children, col[..i] + col[i + 1..];
      assert col[i] in col;
      assert forall c :: c in rest ==> c in col;
      CollapsedWeight(cs);
      DistributionWeight(col, i);
      DistributeOverMeaning(ds, rest, env);
      SplitAt(col, i, env);
      ConvMeaning(And(DistributeOver(ds, rest)), env);
    }
  }

  lemma {:induction false} ConvMeaningAnd(e: Expr, env: map<string, bool>)
    requires Boolean(e) && e.And?
    ensures Conv(e).Ok?
    ensures Boolean(Conv(e).value)
    ensures Holds(Conv(e).value, env) == Holds(e, env)
    decreases Weight(e, true), Rank(e), SizeOf(e), 0
  {
    var cs := e.children;
    if cs != [] {
      var n := |cs|;
      AndWeight(cs);
      assert cs[n - 1] in cs;
      assert forall c :: c in cs[..n - 1] ==> c in cs;
      ConvMeaning(And(cs[..n - 1]), env);
      ConvMeaning(cs[n - 1], env);
      SplitLast(cs, env);
    }
  }

  /** No `And()` where a conjunction is asserted and no `Or()` where a
      disjunction is denied (`pos` is the polarity). Distributing a vacuous
      conjunction would drop the other disjuncts together with their variables. */
  predicate NoVacuous(e: Expr, pos: bool)
  {
    match e
    case Not(c) => NoVacuous(c, !pos)
    case Or(cs) => (pos || cs != []) && forall c :: c in cs ==> NoVacuous(c, pos)
    case And(cs) => (!pos || cs != []) && forall c :: c in cs ==> NoVacuous(c, pos)
    case _ => true
  }

  /** A tree without childless operations has none in either polarity. */
  lemma {:induction false} NonEmptyOpsNoVacuous(e: Expr, pos: bool)
    requires NonEmptyOps(e)
    ensures NoVacuous(e, pos)
  {
    match e
    case Not(c) => NonEmptyOpsNoVacuous(c, !pos);
    case Or(cs) =>
      forall c | c in cs
        ensures NoVacuous(c, pos)
      {
        NonEmptyOpsNoVacuous(c, pos);
      }
    case And(cs) =>
      forall c | c in cs
        ensures NoVacuous(c, pos)
      {
        NonEmptyOpsNoVacuous(c, pos);
      }
    case _ =>
  }

  lemma {:induction false} DistributeNotNoVacuous(c: Expr)
    requires NoVacuous(c, false)
    ensures NoVacuous(DistributeNot(c), true)
  {
    match c
    case Not(x) =>
      if x.Not? {
        DistributeNotNoVacuous(x.child);
      }
    case Or(xs) => DistributeAllNoVacuous(xs);
    case And(xs) => DistributeAllNoVacuous(xs);
    case _ =>
  }

  lemma {:induction false} DistributeAllNoVacuous(xs: seq<Expr>)
    requires forall x :: x in xs ==> NoVacuous(x, false)
    ensures forall y :: y in DistributeAll(xs) ==> NoVacuous(y, true)
  {
    var ys := DistributeAll(xs);
    forall y | y in ys
      ensures NoVacuous(y, true)
    {
      var i :| 0 <= i < |ys| && ys[i] == y;
      assert xs[i] in xs;
      DistributeNotNoVacuous(xs[i]);
    }
  }

  lemma {:induction false} CollapsedNoVacuous(cs: seq<Expr>)
    requires forall c :: c in cs ==> NoVacuous(c, true)
    ensures forall x :: x in Collapsed(cs) ==> NoVacuous(x, true)
    decreases SumSize(cs), 1
  {
    if cs != [] {
      assert cs[0] in cs;
      CollapseOneNoVacuous(cs[0]);
      CollapsedNoVacuous(cs[1..]);
    }
  }

  lemma {:induction false} CollapseOneNoVacuous(c: Expr)
    requires NoVacuous(c, true)
    ensures forall x :: x in CollapseOne(c) ==> NoVacuous(x, true)
    decreases SizeOf(c), 0
  {
    var d := if c.Not? then DistributeNot(c.child) else c;
    if c.Not? {
      DistributeNotNoVacuous(c.child);
      DistributeNotSize(c.child);
    }
    if d.Or? {
      CollapsedNoVacuous(d.children);
    }
  }

  lemma DistributeOverNoVacuous(ds: seq<Expr>, rest: seq<Expr>)
    requires forall d :: d in ds ==> NoVacuous(d, true)
    requires forall c :: c in rest ==> NoVacuous(c, true)
    ensures forall r :: r in DistributeOver(ds, rest) ==> NoVacuous(r, true)
  {
    var rs := DistributeOver(ds, rest);
    forall r | r in rs
      ensures NoVacuous(r, true)
    {
      var k :| 0 <= k < |rs| && rs[k] == r;
      var d := ds[k];
      assert d in ds;
      if !d.Or? {
        assert forall x :: x in [d] + rest ==> x == d || x in rest;
      }
    }
  }

  /** Without vacuous operations, a successful conversion keeps exactly the
      free variables. */
  lemma {:induction false} ConvFreeVars(e: Expr)
    requires NoVacuous(e, true)
    ensures Conv(e).Ok? ==> FreeVars(Conv(e).value) == FreeVars(e)
    decreases Weight(e, true), Rank(e), SizeOf(e), 1
  {
    if IsDisjunctionOfAtoms(e) {
    } else if e.Not? {
      var c := e.child;
      DistributeNotFixed(c);
      DistributeNotWeight(c);
      DistributeNotSize(c);
      DistributeNotFreeVars(c);
      DistributeNotNoVacuous(c);
      if DistributeNot(c) != e {
        ConvFreeVars(DistributeNot(c));
      }
    } else if e.Or? {
      ConvFreeVarsOr(e);
    } else if e.And? {
      ConvFreeVarsAnd(e);
    }
  }

  lemma {:induction false} ConvFreeVarsOr(e: Expr)
    requires NoVacuous(e, true) && e.Or? && !IsDisjunctionOfAtoms(e)
    ensures Conv(e).Ok? ==> FreeVars(Conv(e).value) == FreeVars(e)
    decreases Weight(e, true), Rank(e), SizeOf(e), 0
  {
    var cs := e.children;
    var col := Collapsed(cs);
    CollapsedFreeVars(cs);
    var first := FirstAnd(col);
    if !IsDisjunctionOfAtoms(Or(col)) && first.Some? {
      var i := first.value;
      var ds, rest := col[i].children, col[..i] + col[i + 1..];
      CollapsedNoVacuous(cs);
      assert col[i] in col;
      assert forall c :: c in rest ==> c in col;
      assert ds != [];
      CollapsedWeight(cs);
      DistributionWeight(col, i);
      DistributeOverNoVacuous(ds, rest);
      DistributeOverFreeVars(ds, rest);
      SplitAt(col, i, map[]);
      ConvFreeVars(And(DistributeOver(ds, rest)));
    }
  }

  lemma {:induction false} ConvFreeVarsAnd(e: Expr)
    requires NoVacuous(e, true) && e.And?
    ensures Conv(e).Ok? ==> FreeVars(Conv(e).value) == FreeVars(e)
    decreases Weight(e, true), Rank(e), SizeOf(e), 0
  {
    var cs := e.children;
    var n := |cs|;
    AndWeight(cs);
    assert cs[n - 1] in cs;
    if n > 1 {
      assert forall c :: c in cs[..n - 1] ==> c in cs;
      ConvFreeVars(And(cs[..n - 1]));
    } else {
      assert cs[..n - 1] == [];
    }
    ConvFreeVars(cs[n - 1]);
    SplitLast(cs, map[]);
  }

  /** `convert_to_conjunctive_normal_form` on a boolean formula without
      childless operations succeeds with a boolean formula over the same
      variables that holds under exactly the same assignments. */
  lemma ConvertPreserves(e: Expr)
    requires Boolean(e) && NonEmptyOps(e)
    ensures Convert(e).Ok? && Boolean(Convert(e).value)
    ensures FreeVars(Convert(e).value) == FreeVars(e)
    ensures forall env :: Holds(Convert(e).value, env) == Holds(e, env)
  {
    ConvMeaning(e, map[]);
    NonEmptyOpsNoVacuous(e, true);
    ConvFreeVars(e);
    var c := Conv(e).value;
    var r := AndJoin(And([]), c);
    assert Convert(e) == r;
    forall env
      ensures Holds(r.value, env) == Holds(e, env)
    {
      ConvMeaning(e, env);
    }
  }

  /** ... and so a conjunction in normal form logically equivalent to the input. */
  lemma ConvertEquivalent(e: Expr)
    requires Boolean(e) && NonEmptyOps(e)
    ensures Convert(e).Ok?
    ensures Convert(e).value.And? && IsConjunctiveNormalForm(Convert(e).value)
    ensures IsLogicallyEquivalent(Convert(e).value, e) == Ok(true)
  {
    ConvertPreserves(e);
    ConvertNormalForm(e);
    EquivalentWhenSameMeaning(Convert(e).value, e);
  }

  /** On a boolean formula, `Not(c).distribute_inwards()` is logically
      equivalent to `Not(c)`. */
  lemma DistributeNotEquivalent(c: Expr)
    requires Boolean(c)
    ensures IsLogicallyEquivalent(Not(c), DistributeNot(c)) == Ok(true)
  {
    DistributeNotFreeVars(c);
    forall env
      ensures Holds(Not(c), env) == Holds(DistributeNot(c), env)
    {
      DistributeNotMeaning(c, env);
    }
    DistributeNotMeaning(c, map[]);
    EquivalentWhenSameMeaning(Not(c), DistributeNot(c));
  }

  /** A formula already in conjunctive normal form comes back unchanged. */
  lemma ConvKeepsNormalForm(e: Expr)
    requires IsConjunctiveNormalForm(e)
    ensures Conv(e) == Ok(e)
  {
    if !IsDisjunctionOfAtoms(e) {
      var cs := e.children;
      forall i | 0 <= i < |cs|
        ensures IsDisjunctionOfAtoms(cs[i])
      {
        assert cs[i] in cs;
      }
      ConvClauses(cs);
    }
  }

  /** A conjunction of clauses is rebuilt clause by clause into itself. */
  lemma {:induction false} ConvClauses(cs: seq<Expr>)
    requires forall i :: 0 <= i < |cs| ==> IsDisjunctionOfAtoms(cs[i])
    ensures Conv(And(cs)) == Ok(And(cs))
  {
    if cs != [] {
      var n := |cs|;
      ConvAndStep(cs);
      var init, last := cs[..n - 1], cs[n - 1];
      ConvClauses(init);
      assert Conv(last) == Ok(last) && !last.And?;
      assert Conv(And(cs)) == AndJoin(And(init), last);
      assert init + [last] == cs;
    }
  }
}
