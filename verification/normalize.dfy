/** Conversion to conjunctive normal form in pyreasoner/expressions.py:
    `Not.distribute_inwards`, `Or.recursive_collapse`,
    `_convert_to_conjunctive_normal_form` and `convert_to_conjunctive_normal_form`. */
module Normalize {
  import opened ExprTree
  import opened Combinators

  /** `Not(c).distribute_inwards()`: a bool is complemented, a double
      negation is removed (and the result pushed in again while it is still a
      negation), De Morgan turns `~(x | y)` into `~x & ~y` and `~(x & y)` into
      `~x | ~y`; a negated variable, int or comparison is returned as it is. */
  function DistributeNot(c: Expr): Expr
  {
    match c
    case Lit(b) => Lit(!b)
    case Not(x) => if x.Not? then DistributeNot(x.child) else x
    case Or(xs) => And(DistributeAll(xs))
    case And(xs) => Or(DistributeAll(xs))
    case _ => Not(c)
  }

  /** `Not(x).distribute_inwards()` for every `x` of a list. */
  function DistributeAll(xs: seq<Expr>): (rs: seq<Expr>)
    ensures |rs| == |xs|
    ensures forall i :: 0 <= i < |xs| ==> rs[i] == DistributeNot(xs[i])
  {
    if xs == [] then [] else [DistributeNot(xs[0])] + DistributeAll(xs[1..])
  }

  /** A size in which a negation counts double, so that pushing a negation
      inwards never makes a tree larger. */
  function SizeOf(e: Expr): (s: nat)
    ensures s >= 1
  {
    match e
    case Not(c) => 2 * SizeOf(c)
    case Or(cs) => 1 + SumSize(cs)
    case And(cs) => 1 + SumSize(cs)
    case Rel(_, l, r) => 1 + SizeOf(l) + SizeOf(r)
    case _ => 1
  }

  function SumSize(cs: seq<Expr>): nat
  {
    if cs == [] then 0 else SizeOf(cs[0]) + SumSize(cs[1..])
  }

  /** Pushing a negation inwards at most doubles the size, and strictly less
      unless the negation stays where it is (on a variable, an int or a comparison). */
  lemma {:induction false} DistributeNotSize(c: Expr)
    ensures SizeOf(DistributeNot(c)) <= 2 * SizeOf(c)
    ensures c.Var? || c.Num? || c.Rel? || SizeOf(DistributeNot(c)) < 2 * SizeOf(c)
  {
    match c
    case Not(x) =>
      if x.Not? {
        DistributeNotSize(x.child);
      }
    case Or(xs) => DistributeAllSize(xs);
    case And(xs) => DistributeAllSize(xs);
    case _ =>
  }

  lemma {:induction false} DistributeAllSize(xs: seq<Expr>)
    ensures SumSize(DistributeAll(xs)) <= 2 * SumSize(xs)
  {
    if xs != [] {
      DistributeNotSize(xs[0]);
      DistributeAllSize(xs[1..]);
      assert DistributeAll(xs)[1..] == DistributeAll(xs[1..]);
    }
  }

  /** A negation stays a negation only when it cannot be pushed further:
      `distribute_inwards` returns the node itself. */
  lemma DistributeNotFixed(c: Expr)
    ensures DistributeNot(c) == Not(c) <==> c.Var? || c.Num? || c.Rel?
  {
    DistributeNotSize(c);
  }

  /** What pushing a negation inwards can leave as a negation is a negated
      variable, int or comparison. */
  lemma {:induction false} DistributeNotResidue(c: Expr)
    ensures DistributeNot(c).Not? ==> DistributeNot(c).child.Var? || DistributeNot(c).child.Num? || DistributeNot(c).child.Rel?
  {
    match c
    case Not(x) =>
      if x.Not? {
        DistributeNotResidue(x.child);
      }
    case _ =>
  }

  /** The weight used to show the conversion terminates. `pos` is the
      polarity: a negation flips it. A disjunction weighs the product of its
      children and a conjunction one more than their sum where they are
      asserted, and the other way round where they are denied. */
  function Weight(e: Expr, pos: bool): (w: nat)
    ensures w >= 1
  {
    match e
    case Not(c) => Weight(c, !pos)
    case Or(cs) => if pos then ProdWeight(cs, pos) else 1 + SumWeight(cs, pos)
    case And(cs) => if pos then 1 + SumWeight(cs, pos) else ProdWeight(cs, pos)
    case _ => 2
  }

  function SumWeight(cs: seq<Expr>, pos: bool): nat
  {
    if cs == [] then 0 else Weight(cs[0], pos) + SumWeight(cs[1..], pos)
  }

  function ProdWeight(cs: seq<Expr>, pos: bool): (p: nat)
    ensures p >= 1
  {
    if cs == [] then 1 else Weight(cs[0], pos) * ProdWeight(cs[1..], pos)
  }

  lemma {:induction false} SumWeightConcat(a: seq<Expr>, b: seq<Expr>, pos: bool)
    ensures SumWeight(a + b, pos) == SumWeight(a, pos) + SumWeight(b, pos)
  {
    if a == [] {
      assert a + b == b;
    } else {
      assert (a + b)[1..] == a[1..] + b;
      SumWeightConcat(a[1..], b, pos);
    }
  }

  lemma {:induction false} ProdWeightConcat(a: seq<Expr>, b: seq<Expr>, pos: bool)
    ensures ProdWeight(a + b, pos) == ProdWeight(a, pos) * ProdWeight(b, pos)
  {
    if a == [] {
      assert a + b == b;
    } else {
      assert (a + b)[1..] == a[1..] + b;
      ProdWeightConcat(a[1..], b, pos);
      var w, pa, pb := Weight(a[0], pos), ProdWeight(a[1..], pos), ProdWeight(b, pos);
      calc {
        ProdWeight(a + b, pos);
        w * ProdWeight(a[1..] + b, pos);
        w * (pa * pb);
        { MulAssoc(w, pa, pb); }
        (w * pa) * pb;
      }
    }
  }

  lemma MulAssoc(x: nat, y: nat, z: nat)
    ensures x * (y * z) == (x * y) * z
  {
  }

  lemma MulDistributes(x: nat, y: nat, z: nat)
    ensures x * z + y * z == (x + y) * z
  {
  }

  lemma DistributionBound(a: nat, b: nat, s: nat)
    requires a >= 1 && b >= 1
    ensures 1 + s * (a * b) <= a * ((1 + s) * b)
  {
    calc {
      a * ((1 + s) * b);
      { MulAssoc(a, 1 + s, b); }
      (a * (1 + s)) * b;
      (a + a * s) * b;
      { MulDistributes(a, a * s, b); }
      a * b + (a * s) * b;
      { MulAssoc(a, s, b); }
      a * b + a * (s * b);
    }
    assert a * (s * b) == s * (a * b) by { MulAssoc(a, s, b); MulAssoc(s, a, b); }
    assert a * b >= 1;
  }

  /** Pushing a negation inwards keeps the weight: the result asserted
      weighs what the operand denied weighs. */
  lemma {:induction false} DistributeNotWeight(c: Expr)
    ensures Weight(DistributeNot(c), true) == Weight(c, false)
  {
    match c
    case Not(x) =>
      if x.Not? {
        DistributeNotWeight(x.child);
      }
    case Or(xs) => DistributeAllWeight(xs);
    case And(xs) => DistributeAllWeight(xs);
    case _ =>
  }

  lemma {:induction false} DistributeAllWeight(xs: seq<Expr>)
    ensures SumWeight(DistributeAll(xs), true) == SumWeight(xs, false)
    ensures ProdWeight(DistributeAll(xs), true) == ProdWeight(xs, false)
  {
    if xs != [] {
      DistributeNotWeight(xs[0]);
      DistributeAllWeight(xs[1..]);
      assert DistributeAll(xs)[1..] == DistributeAll(xs[1..]);
    }
  }

  /** 2 for a negation, 1 for a disjunction, 0 otherwise: the second
      component of the termination measure. */
  function Rank(e: Expr): nat
  {
    if e.Not? then 2 else if e.Or? then 1 else 0
  }

  /** The children of `Or(cs).recursive_collapse()`: a negated child is
      first pushed inwards, a child that is (then) a disjunction is replaced by
      its own collapsed children, any other child is kept. */
  function Collapsed(cs: seq<Expr>): seq<Expr>
    decreases SumSize(cs), 1
  {
    if cs == [] then [] else CollapseOne(cs[0]) + Collapsed(cs[1..])
  }

  function CollapseOne(c: Expr): seq<Expr>
    decreases SizeOf(c), 0
  {
    var d := if c.Not? then DistributeNot(c.child) else c;
    if d.Or? then
      if c.Not? then DistributeNotSize(c.child); Collapsed(d.children)
      else Collapsed(d.children)
    else
      [d]
  }

  lemma {:induction false} CollapsedConcat(a: seq<Expr>, b: seq<Expr>)
    ensures Collapsed(a + b) == Collapsed(a) + Collapsed(b)
  {
    if a == [] {
      assert a + b == b;
    } else {
      assert (a + b)[1..] == a[1..] + b;
      CollapsedConcat(a[1..], b);
    }
  }

  lemma {:induction false} SumSizeMember(cs: seq<Expr>, i: nat)
    requires i < |cs|
    ensures SizeOf(cs[i]) <= SumSize(cs)
  {
    if i > 0 {
      SumSizeMember(cs[1..], i - 1);
    }
  }

  /** `Or.recursive_collapse`, as the source writes it: one pass over the
      children, extending the result with the collapsed children of every
      disjunction met. */
  method RecursiveCollapse(e: Expr) returns (r: Expr)
    requires e.Or?
    ensures r == Or(Collapsed(e.children))
    decreases SizeOf(e)
  {
    var cs := e.children;
    var children: seq<Expr> := [];
    var i := 0;
    while i < |cs|
      invariant i <= |cs|
      invariant children == Collapsed(cs[..i])
    {
      var child := cs[i];
      SumSizeMember(cs, i);
      if child.Not? {
        DistributeNotSize(child.child);
        child := DistributeNot(child.child);
      }
      if child.Or? {
        var sub := RecursiveCollapse(child);
        children := children + sub.children;
      } else {
        children := children + [child];
      }
      assert cs[..i + 1] == cs[..i] + [cs[i]];
      CollapsedConcat(cs[..i], [cs[i]]);
      assert Collapsed([cs[i]]) == CollapseOne(cs[i]) + Collapsed([]);
      i := i + 1;
    }
    assert cs[..i] == cs;
    r := Or(children);
  }

  /** The position of the first conjunction among `cs`, if any. */
  function FirstAnd(cs: seq<Expr>): (r: Option<nat>)
    ensures r.Some? ==> r.value < |cs| && cs[r.value].And? && forall j :: 0 <= j < r.value ==> !cs[j].And?
    ensures r.None? ==> forall j :: 0 <= j < |cs| ==> !cs[j].And?
  {
    if cs == [] then None
    else if cs[0].And? then Some(0)
    else
      match FirstAnd(cs[1..])
      case None => None
      case Some(i) => Some(i + 1)
  }

  /** `descendant | other_disjuncts` for every descendant of the conjunction
      being distributed. */
  function DistributeOver(ds: seq<Expr>, rest: seq<Expr>): (rs: seq<Expr>)
    ensures |rs| == |ds|
    ensures forall k :: 0 <= k < |ds| ==> OrJoin(ds[k], Or(rest)) == Ok(rs[k])
  {
    if ds == [] then [] else [OrJoin(ds[0], Or(rest)).value] + DistributeOver(ds[1..], rest)
  }

  /** Collapsing keeps the weight of the disjunction. */
  lemma {:induction false} CollapsedWeight(cs: seq<Expr>)
    ensures ProdWeight(Collapsed(cs), true) == ProdWeight(cs, true)
    decreases SumSize(cs), 1
  {
    if cs != [] {
      CollapseOneWeight(cs[0]);
      CollapsedWeight(cs[1..]);
      ProdWeightConcat(CollapseOne(cs[0]), Collapsed(cs[1..]), true);
    }
  }

  lemma {:induction false} CollapseOneWeight(c: Expr)
    ensures ProdWeight(CollapseOne(c), true) == Weight(c, true)
    decreases SizeOf(c), 0
  {
    var d := if c.Not? then DistributeNot(c.child) else c;
    if c.Not? {
      DistributeNotWeight(c.child);
      DistributeNotSize(c.child);
    }
    if d.Or? {
      CollapsedWeight(d.children);
    } else {
      assert CollapseOne(c) == [d];
      assert ProdWeight([d], true) == Weight(d, true) * ProdWeight([], true);
    }
  }

  /** Joining one descendant to the other disjuncts weighs the product of the two. */
  lemma OrJoinWeight(d: Expr, rest: seq<Expr>)
    ensures Weight(OrJoin(d, Or(rest)).value, true) == Weight(d, true) * ProdWeight(rest, true)
  {
    if d.Or? {
      ProdWeightConcat(d.children, rest, true);
    } else if IsNode(d) {
      assert [d, Or(rest)][1..] == [Or(rest)];
      assert ProdWeight([Or(rest)], true) == Weight(Or(rest), true) * ProdWeight([], true);
    } else {
      assert ([d] + rest)[1..] == rest;
    }
  }

  lemma {:induction false} DistributeOverWeight(ds: seq<Expr>, rest: seq<Expr>)
    ensures SumWeight(DistributeOver(ds, rest), true) == SumWeight(ds, true) * ProdWeight(rest, true)
  {
    if ds != [] {
      OrJoinWeight(ds[0], rest);
      DistributeOverWeight(ds[1..], rest);
      assert DistributeOver(ds, rest)[1..] == DistributeOver(ds[1..], rest);
      var w, s, p := Weight(ds[0], true), SumWeight(ds[1..], true), ProdWeight(rest, true);
      assert SumWeight(DistributeOver(ds, rest), true) == w * p + s * p;
      MulDistributes(w, s, p);
    }
  }

  /** Distributing the conjunction at position `i` over the other disjuncts
      does not increase the weight. */
  lemma DistributionWeight(col: seq<Expr>, i: nat)
    requires i < |col| && col[i].And?
    ensures Weight(And(DistributeOver(col[i].children, col[..i] + col[i + 1..])), true) <= Weight(Or(col), true)
  {
    var ds, rest := col[i].children, col[..i] + col[i + 1..];
    var a, b := ProdWeight(col[..i], true), ProdWeight(col[i + 1..], true);
    var s := SumWeight(ds, true);
    assert Weight(And(DistributeOver(ds, rest)), true) == 1 + s * (a * b) by {
      DistributeOverWeight(ds, rest);
      ProdWeightConcat(col[..i], col[i + 1..], true);
    }
    assert Weight(Or(col), true) == a * ((1 + s) * b) by {
      assert col == col[..i] + ([col[i]] + col[i + 1..]);
      ProdWeightConcat(col[..i], [col[i]] + col[i + 1..], true);
      assert ([col[i]] + col[i + 1..])[1..] == col[i + 1..];
    }
    DistributionBound(a, b, s);
  }

  /** Dropping the last conjunct, or keeping only it, lowers the weight of a conjunction. */
  lemma AndWeight(cs: seq<Expr>)
    requires cs != []
    ensures Weight(And(cs[..|cs| - 1]), true) < Weight(And(cs), true)
    ensures Weight(cs[|cs| - 1], true) < Weight(And(cs), true)
  {
    var n := |cs|;
    assert cs == cs[..n - 1] + [cs[n - 1]];
    SumWeightConcat(cs[..n - 1], [cs[n - 1]], true);
  }

  /** `_convert_to_conjunctive_normal_form`. A disjunction of atoms is already
      in normal form. A negation is pushed inwards and converted again; when it
      cannot be pushed (a negated int or comparison) the source recurses on the
      same node forever. A disjunction is collapsed; if that leaves a
      disjunction of atoms it is the result, otherwise the first conjunction
      among the disjuncts is distributed over the others and the resulting
      conjunction converted; a disjunction with neither reaches the
      `assert False`. A conjunction is the `&`-fold, from `And()`, of its
      converted children. Anything else reaches `assert False`. */
  function Conv(e: Expr): (r: Result<Expr>)
    ensures r.Ok? && e.And? ==> r.value.And?
    decreases Weight(e, true), Rank(e), SizeOf(e)
  {
    if IsDisjunctionOfAtoms(e) then Ok(e)
    else
      match e
      case Not(c) =>
        var d := DistributeNot(c);
        if d == e then Err(RecursionLimit)
        else
          DistributeNotWeight(c);
          DistributeNotFixed(c);
          DistributeNotSize(c);
          Conv(d)
      case Or(cs) =>
        var col := Collapsed(cs);
        var first := FirstAnd(col);
        if IsDisjunctionOfAtoms(Or(col)) then Ok(Or(col))
        else if first.None? then Err(AssertionFailure)
        else
          var i := first.value;
          CollapsedWeight(cs);
          DistributionWeight(col, i);
          Conv(And(DistributeOver(col[i].children, col[..i] + col[i + 1..])))
      case And(cs) =>
        if cs == [] then Ok(And([]))
        else
          AndWeight(cs);
          var p := Conv(And(cs[..|cs| - 1]));
          if p.Err? then p
          else
            var q := Conv(cs[|cs| - 1]);
            if q.Err? then q else AndJoin(p.value, q.value)
      case _ => Err(AssertionFailure)
  }

  /** `convert_to_conjunctive_normal_form`: the conversion joined onto `And()`,
      so that a successful result is always a conjunction. */
  function Convert(e: Expr): (r: Result<Expr>)
    ensures r.Ok? ==> r.value.And?
    ensures r.Err? <==> Conv(e).Err?
  {
    var c := Conv(e);
    if c.Err? then c else AndJoin(And([]), c.value)
  }

  /** One step of the conversion on a disjunction that still holds a
      conjunction after collapsing: the first conjunction is distributed over
      the other disjuncts. */
  lemma ConvOrStep(e: Expr) returns (i: nat)
    requires e.Or? && !IsDisjunctionOfAtoms(e) && Conv(e).Ok?
    requires !IsDisjunctionOfAtoms(Or(Collapsed(e.children)))
    ensures var col := Collapsed(e.children);
      i < |col| && col[i].And? &&
      Conv(e) == Conv(And(DistributeOver(col[i].children, col[..i] + col[i + 1..])))
  {
    ConvOrFinds(e);
    i := FirstAnd(Collapsed(e.children)).value;
    ConvOrDistributes(e, i);
  }

  /** The conversion succeeds on such a disjunction only when the collapse
      leaves a conjunction to distribute. */
  lemma ConvOrFinds(e: Expr)
    requires e.Or? && !IsDisjunctionOfAtoms(e) && Conv(e).Ok?
    requires !IsDisjunctionOfAtoms(Or(Collapsed(e.children)))
    ensures FirstAnd(Collapsed(e.children)).Some?
  {
  }

  /** The conversion of such a disjunction is that of the distribution over
      its first conjunction. */
  lemma ConvOrDistributes(e: Expr, i: nat)
    requires e.Or? && !IsDisjunctionOfAtoms(e)
    requires !IsDisjunctionOfAtoms(Or(Collapsed(e.children)))
    requires FirstAnd(Collapsed(e.children)) == Some(i)
    ensures var col := Collapsed(e.children);
      Conv(e) == Conv(And(DistributeOver(col[i].children, col[..i] + col[i + 1..])))
  {
  }

  /** One step of the conversion on a non-empty conjunction: the conversion
      of all but the last child joined with that of the last. */
  lemma ConvAndStep(cs: seq<Expr>)
    requires cs != []
    ensures var p, q := Conv(And(cs[..|cs| - 1])), Conv(cs[|cs| - 1]);
      Conv(And(cs)) == if p.Err? then p else if q.Err? then q else AndJoin(p.value, q.value)
  {
  }

  /** What the conversion returns is in conjunctive normal form. */
  lemma {:induction false} ConvNormalForm(e: Expr)
    requires Conv(e).Ok?
    ensures IsConjunctiveNormalForm(Conv(e).value)
    decreases Weight(e, true), Rank(e), SizeOf(e)
  {
    if IsDisjunctionOfAtoms(e) {
    } else if e.Not? {
      var c := e.child;
      DistributeNotWeight(c);
      DistributeNotFixed(c);
      DistributeNotSize(c);
      ConvNormalForm(DistributeNot(c));
    } else if e.Or? {
      var col := Collapsed(e.children);
      if !IsDisjunctionOfAtoms(Or(col)) {
        var i := ConvOrStep(e);
        CollapsedWeight(e.children);
        DistributionWeight(col, i);
        ConvNormalForm(And(DistributeOver(col[i].children, col[..i] + col[i + 1..])));
      }
    } else if e.And? && e.children != [] {
      var cs := e.children;
      var n := |cs|;
      AndWeight(cs);
      ConvAndStep(cs);
      var init, last := cs[..n - 1], cs[n - 1];
      ConvNormalForm(And(init));
      ConvNormalForm(last);
      JoinedClauses(Conv(And(init)).value, Conv(last).value);
    }
  }

  /** Joining a conjunction of clauses with a normal form gives a
      conjunction of clauses. */
  lemma JoinedClauses(a: Expr, b: Expr)
    requires a.And? && IsConjunctiveNormalForm(a) && IsConjunctiveNormalForm(b)
    ensures AndJoin(a, b).Ok? && IsConjunctiveNormalForm(AndJoin(a, b).value)
  {
    var rs := if b.And? then b.children else [b];
    forall c | c in a.children + rs
      ensures IsDisjunctionOfAtoms(c)
    {
      if c in a.children {
      } else if !b.And? {
        assert c == b;
      }
    }
  }

  /** `convert_to_conjunctive_normal_form` returns a conjunction of clauses. */
  lemma ConvertNormalForm(e: Expr)
    requires Convert(e).Ok?
    ensures Convert(e).value.And? && IsConjunctiveNormalForm(Convert(e).value)
  {
    ConvNormalForm(e);
    JoinedClauses(And([]), Conv(e).value);
  }
}
