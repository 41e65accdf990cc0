/** The conversion on the inputs pyreasoner/tests/test_expressions.py
    names, with the exact trees it returns. */
module NormalizeExamples {
  import opened ExprTree
  import opened Combinators
  import opened Normalize
  import opened NormalizeFacts

  const a := Var("a")
  const b := Var("b")
  const c := Var("c")
  const d := Var("d")
  const e := Var("e")

  /** `Not(False)` becomes `True`, De Morgan in both directions, and a double
      negation is removed. */
  lemma DistributeNotCases()
    ensures DistributeNot(Lit(false)) == Lit(true)
    ensures DistributeNot(And([a, b])) == Or([Not(a), Not(b)])
    ensures DistributeNot(Or([a, b])) == And([Not(a), Not(b)])
    ensures DistributeNot(Not(a)) == a
  {
    assert DistributeAll([a, b]) == [Not(a), Not(b)];
  }

  /** Which trees count as conjunctive normal form. */
  lemma NormalFormCases()
    ensures IsConjunctiveNormalForm(Lit(true)) && IsConjunctiveNormalForm(Lit(false))
    ensures IsConjunctiveNormalForm(a) && IsConjunctiveNormalForm(Or([a, b]))
    ensures IsConjunctiveNormalForm(And([Or([a, b]), c]))
    ensures IsConjunctiveNormalForm(And([Or([a, b]), Or([c, d])]))
    ensures !IsConjunctiveNormalForm(Or([a, And([b, c])]))
    ensures !IsConjunctiveNormalForm(Or([a, And([Lit(true), c])]))
  {
    assert And([b, c]) in [a, And([b, c])];
    assert And([Lit(true), c]) in [a, And([Lit(true), c])];
  }

  /** The childless operations: `Or()` comes back wrapped, `And()` as it is. */
  lemma EmptyOperations()
    ensures Convert(Or([])) == Ok(And([Or([])]))
    ensures Convert(And([])) == Ok(And([]))
  {
    var none: seq<Expr> := [];
    assert none + none == none;
    assert none + [Or(none)] == [Or(none)];
  }

  /** `~a & (b | c)`, already in normal form, converts to itself. */
  lemma ConjunctionOfAtoms()
    ensures Convert(And([Not(a), Or([b, c])])) == Ok(And([Not(a), Or([b, c])]))
  {
    var cs := [Not(a), Or([b, c])];
    assert IsConjunctiveNormalForm(And(cs));
    ConvKeepsNormalForm(And(cs));
    assert [] + cs == cs;
  }

  /** `~(b | c)` becomes `~b & ~c`. */
  lemma NegatedDisjunction()
    ensures Convert(Not(Or([b, c]))) == Ok(And([Not(b), Not(c)]))
  {
    var nbc := [Not(b), Not(c)];
    assert DistributeNot(Or([b, c])) == And(nbc) by {
      assert DistributeAll([b, c]) == nbc;
    }
    assert IsConjunctiveNormalForm(And(nbc));
    ConvKeepsNormalForm(And(nbc));
    assert Conv(Not(Or([b, c]))) == Conv(And(nbc));
    assert [] + nbc == nbc;
  }

  /** `(a & b) | c` becomes `(a | c) & (b | c)`. */
  lemma DistributedDisjunction()
    ensures Convert(Or([And([a, b]), c])) == Ok(And([Or([a, c]), Or([b, c])]))
  {
    FirstDisjunctDistributes(a, b, c);
    TwoClauses(a, b, c);
    assert [] + [Or([a, c]), Or([b, c])] == [Or([a, c]), Or([b, c])];
  }

  /** `a & (b | (d & e))` becomes `a & (d | b) & (e | b)`. */
  lemma DistributedConjunct()
    ensures Convert(And([a, Or([b, And([d, e])])])) == Ok(And([a, Or([d, b]), Or([e, b])]))
  {
    var x := Or([b, And([d, e])]);
    var cs := [a, x];
    SecondDisjunctDistributes(d, e, b);
    TwoClauses(d, e, b);
    ConvAndStep(cs);
    assert cs[..1] == [a] && cs[1] == x;
    ConvKeepsNormalForm(And([a]));
    var clauses := [Or([d, b]), Or([e, b])];
    assert Conv(And(cs)) == AndJoin(And([a]), And(clauses));
    assert [a] + clauses == [a, Or([d, b]), Or([e, b])];
    assert [] + [a, Or([d, b]), Or([e, b])] == [a, Or([d, b]), Or([e, b])];
  }

  /** The first step on `z | (x & y)`: nothing collapses, and `x & y` is
      distributed over `z`. */
  lemma SecondDisjunctDistributes(x: Expr, y: Expr, z: Expr)
    requires x.Var? && y.Var? && z.Var?
    ensures Conv(Or([z, And([x, y])])) == Conv(And([Or([x, Or([z])]), Or([y, Or([z])])]))
  {
    var col := [z, And([x, y])];
    assert Collapsed(col) == col by {
      assert col[1..] == [And([x, y])] && [And([x, y])][1..] == [];
      assert Collapsed([And([x, y])]) == [And([x, y])] by {
        assert [And([x, y])] + [] == [And([x, y])];
      }
      assert Collapsed([z]) == [z] by {
        assert [z][1..] == [];
        assert [z] + [] == [z];
      }
      assert [z] + [And([x, y])] == col;
    }
    assert !IsDisjunctionOfAtoms(Or(col)) by {
      assert And([x, y]) in col;
    }
    assert FirstAnd(col) == Some(1);
    assert col[..1] + col[2..] == [z];
    assert DistributeOver([x, y], [z]) == [Or([x, Or([z])]), Or([y, Or([z])])] by {
      assert [x, y][1..] == [y];
      assert DistributeOver([y], [z]) == [Or([y, Or([z])])];
    }
  }

  /** `(x | (z)) & (y | (z))` becomes `(x | z) & (y | z)`. */
  lemma TwoClauses(x: Expr, y: Expr, z: Expr)
    requires x.Var? && y.Var? && z.Var?
    ensures Conv(And([Or([x, Or([z])]), Or([y, Or([z])])])) == Ok(And([Or([x, z]), Or([y, z])]))
  {
    var ds := [Or([x, Or([z])]), Or([y, Or([z])])];
    OrCollapse(x, z);
    OrCollapse(y, z);
    assert ds[..1] == [Or([x, Or([z])])];
    assert Conv(And(ds[..1])) == Ok(And([Or([x, z])])) by {
      assert ds[..1][..0] == [];
      assert [] + [Or([x, z])] == [Or([x, z])];
    }
    assert [Or([x, z])] + [Or([y, z])] == [Or([x, z]), Or([y, z])];
  }

  /** The first step on `(x & y) | z`: nothing collapses, and `x & y` is
      distributed over `z`. */
  lemma FirstDisjunctDistributes(x: Expr, y: Expr, z: Expr)
    requires x.Var? && y.Var? && z.Var?
    ensures Conv(Or([And([x, y]), z])) == Conv(And([Or([x, Or([z])]), Or([y, Or([z])])]))
  {
    var col := [And([x, y]), z];
    assert Collapsed(col) == col by {
      assert col[1..] == [z];
      assert Collapsed([z]) == [z] by {
        assert [z][1..] == [];
      }
    }
    assert !IsDisjunctionOfAtoms(Or(col)) by {
      assert And([x, y]) in col;
    }
    assert FirstAnd(col) == Some(0);
    assert col[..0] + col[1..] == [z];
    assert DistributeOver([x, y], [z]) == [Or([x, Or([z])]), Or([y, Or([z])])] by {
      assert [x, y][1..] == [y];
      assert DistributeOver([y], [z]) == [Or([y, Or([z])])];
    }
  }

  /** `x | (y)` collapses to `x | y` for variables `x` and `y`. */
  lemma OrCollapse(x: Expr, y: Expr)
    requires x.Var? && y.Var?
    ensures Collapsed([x, Or([y])]) == [x, y]
    ensures Conv(Or([x, Or([y])])) == Ok(Or([x, y]))
  {
    assert [x, Or([y])][1..] == [Or([y])];
    assert [Or([y])][1..] == [];
    assert Collapsed([y]) == [y] by {
      assert [y][1..] == [];
    }
    assert Collapsed([Or([y])]) == [y] by {
      assert [y] + [] == [y];
    }
    assert Collapsed([x]) == [x] by {
      assert [x][1..] == [];
      assert [x] + [] == [x];
    }
    assert [x] + [y] == [x, y];
    assert !IsBooleanAtom(Or([y]));
    assert !IsDisjunctionOfAtoms(Or([x, Or([y])])) by {
      assert Or([y]) in [x, Or([y])];
    }
  }

  /** `a | ~~a` collapses to `a | a`. */
  lemma DoubleNegationDisjunct()
    ensures Convert(Or([a, Not(Not(a))])) == Ok(And([Or([a, a])]))
  {
    var col := [a, Not(Not(a))];
    assert col[1..] == [Not(Not(a))];
    assert [Not(Not(a))][1..] == [];
    assert Collapsed([Not(Not(a))]) == [a] by {
      assert [a] + [] == [a];
    }
    assert Collapsed(col) == [a, a] by {
      assert [a] + [a] == [a, a];
    }
    assert !IsBooleanAtom(Not(Not(a)));
    assert !IsDisjunctionOfAtoms(Or(col)) by {
      assert Not(Not(a)) in col;
    }
    assert [] + [Or([a, a])] == [Or([a, a])];
  }

  /** A negated int cannot be pushed: the source recurses on the same node
      until Python's recursion limit. */
  lemma NegatedIntRecursesForever()
    ensures Convert(Not(Num(1))) == Err(RecursionLimit)
  {
  }

  /** A disjunction whose collapse leaves an int and no conjunction reaches
      the `assert False`. */
  lemma IntDisjunctReachesAssertion()
    ensures Convert(Or([Num(1), a])) == Err(AssertionFailure)
  {
    var col := [Num(1), a];
    assert col[1..] == [a] && [a][1..] == [];
    assert Collapsed([a]) == [a] by {
      assert [a] + [] == [a];
    }
    assert Collapsed(col) == col by {
      assert [Num(1)] + [a] == col;
    }
    assert !IsDisjunctionOfAtoms(Or(col)) by {
      assert Num(1) in col;
    }
  }
}
