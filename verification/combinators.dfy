/** The operator overloads of pyreasoner/expressions.py: `l | r` and `l & r`
    with their splicing of `Or`/`And` operands. A plain bool or int on the left
    defers to the reflected `__ror__`/`__rand__` of a node on the right. */
module Combinators {
  import opened ExprTree

  /** Python's `l | r`. `Or.__or__` splices the children of both sides, the
      generic `__or__` builds a two-child `Or`, `Or.__ror__` puts a plain value in
      front of the children; two bools give their disjunction. Bitwise `|` on an
      int is outside the model. */
  function OrJoin(l: Expr, r: Expr): (res: Result<Expr>)
    ensures IsNode(l) || IsNode(r) ==> res.Ok? && res.value.Or?
    ensures Boolean(l) && Boolean(r) ==> res.Ok? && Boolean(res.value)
    ensures res.Ok? ==> FreeVars(res.value) == FreeVars(l) + FreeVars(r)
    ensures res.Ok? ==> forall env :: Holds(res.value, env) == (Holds(l, env) || Holds(r, env))
  {
    if l.Or? then
      var rs := if r.Or? then r.children else [r];
      FreeVarsOfConcat(l.children, rs);
      Ok(Or(l.children + rs))
    else if IsNode(l) then
      FreeVarsOfPair(l, r);
      Ok(Or([l, r]))
    else if r.Or? then
      FreeVarsOfConcat([l], r.children);
      Ok(Or([l] + r.children))
    else if IsNode(r) then
      FreeVarsOfPair(l, r);
      Ok(Or([l, r]))
    else if l.Lit? && r.Lit? then
      Ok(Lit(l.value || r.value))
    else
      Err(Unsupported)
  }

  /** Python's `l & r`, the dual of `OrJoin` (`And.__and__`, `And.__rand__`). */
  function AndJoin(l: Expr, r: Expr): (res: Result<Expr>)
    ensures IsNode(l) || IsNode(r) ==> res.Ok? && res.value.And?
    ensures Boolean(l) && Boolean(r) ==> res.Ok? && Boolean(res.value)
    ensures res.Ok? ==> FreeVars(res.value) == FreeVars(l) + FreeVars(r)
    ensures res.Ok? ==> forall env :: Holds(res.value, env) == (Holds(l, env) && Holds(r, env))
  {
    if l.And? then
      var rs := if r.And? then r.children else [r];
      FreeVarsOfConcat(l.children, rs);
      Ok(And(l.children + rs))
    else if IsNode(l) then
      FreeVarsOfPair(l, r);
      Ok(And([l, r]))
    else if r.And? then
      FreeVarsOfConcat([l], r.children);
      Ok(And([l] + r.children))
    else if IsNode(r) then
      FreeVarsOfPair(l, r);
      Ok(And([l, r]))
    else if l.Lit? && r.Lit? then
      Ok(Lit(l.value && r.value))
    else
      Err(Unsupported)
  }

  /** The splicing the test suite spells out: an `Or` (an `And`) on the left
      takes the children of an `Or` (an `And`) on the right, a generic node
      builds a two-child node, and a bool on the left is put in front. */
  lemma SplicingCases(a: Expr, b: Expr, c: Expr, d: Expr)
    requires a.Var? && b.Var? && c.Var? && d.Var?
    ensures AndJoin(a, Lit(true)) == Ok(And([a, Lit(true)]))
    ensures OrJoin(a, Lit(true)) == Ok(Or([a, Lit(true)]))
    ensures OrJoin(Or([a, b]), Or([c, d])) == Ok(Or([a, b, c, d]))
    ensures AndJoin(And([a, b]), And([c, d])) == Ok(And([a, b, c, d]))
    ensures OrJoin(And([a, b]), And([c, d])) == Ok(Or([And([a, b]), And([c, d])]))
    ensures AndJoin(Lit(true), a) == Ok(And([Lit(true), a]))
    ensures AndJoin(Lit(true), And([a, b])) == Ok(And([Lit(true), a, b]))
    ensures OrJoin(Lit(true), a) == Ok(Or([Lit(true), a]))
    ensures OrJoin(Lit(true), Or([a, b])) == Ok(Or([Lit(true), a, b]))
  {
    assert [a, b] + [c, d] == [a, b, c, d];
    assert [Lit(true)] + [a, b] == [Lit(true), a, b];
  }

  /** `Var.__lt__`: `v < other` builds `LessThan(v, other)`. */
  function VarLess(v: Expr, other: Expr): Expr
    requires v.Var?
  {
    Rel(LessThan, v, other)
  }

  /** `Var.__gt__`: `v > other` builds `LessThan(other, v)`, not a
      `GreaterThan`. Python turns `4 < a` into the reflected `a.__gt__(4)`. */
  function VarGreater(v: Expr, other: Expr): Expr
    requires v.Var?
  {
    Rel(LessThan, other, v)
  }
}
