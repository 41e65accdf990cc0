/** `solve_SAT` and `is_satisfiable` of pyreasoner/expressions.py: the
    expression is converted to conjunctive normal form, a variable `TRUE_` is
    conjoined as a stand-in for the truth literals, every variable gets a
    1-based index, each clause becomes a list of signed indices, and each
    solution the SAT solver returns (one signed index per variable) is read
    back as an assignment of truth values to the names other than `TRUE_`.
    The solver itself is outside the model: its answers are parameters, and
    what the solver promises about them is stated where they are used. */
module Encoding {
  import opened ExprTree
  import opened Names
  import opened Combinators
  import opened Normalize
  import opened NormalizeFacts

  /** The name of the truth anchor. */
  const Anchor := "TRUE_"

  /** `expr & T`: the converted formula with the anchor conjoined. */
  function Anchored(cnf: Expr): (r: Expr)
    requires cnf.And?
    ensures r.And? && r.children == cnf.children + [Var(Anchor)]
    ensures FreeVars(r) == FreeVars(cnf) + {Anchor}
    ensures forall env :: Holds(r, env) == (Holds(cnf, env) && Anchor in env && env[Anchor])
  {
    AndJoin(cnf, Var(Anchor)).value
  }

  /** `var2pycosat_index`: the variable at position i gets index i + 1. */
  function Index(vars: seq<string>): (index: map<string, int>)
    requires Distinct(vars)
    ensures index.Keys == set v | v in vars
    ensures forall i :: 0 <= i < |vars| ==> index[vars[i]] == i + 1
    ensures forall v :: v in index ==> 1 <= index[v] <= |vars| && vars[index[v] - 1] == v
  {
    map i | 0 <= i < |vars| :: vars[i] := i + 1
  }

  /** `get_pycosat_index`: a negation is the negated index of its child, a
      variable its own index, any other expression node a `TypeError`, and a
      plain value the anchor's index signed by its truthiness. */
  function EncodeLiteral(lit: Expr, index: map<string, int>): Result<int>
  {
    match lit
    case Not(x) =>
      var k := EncodeLiteral(x, index);
      if k.Err? then k else Ok(-k.value)
    case Var(n) => if n in index then Ok(index[n]) else Err(KeyError)
    case Lit(b) =>
      if Anchor !in index then Err(KeyError)
      else Ok(if b then index[Anchor] else -index[Anchor])
    case Num(n) =>
      if Anchor !in index then Err(KeyError)
      else Ok(if n != 0 then index[Anchor] else -index[Anchor])
    case _ => Err(TypeError)
  }

  function EncodeAll(lits: seq<Expr>, index: map<string, int>): (r: Result<seq<int>>)
    ensures r.Ok? <==> forall i :: 0 <= i < |lits| ==> EncodeLiteral(lits[i], index).Ok?
    ensures r.Ok? ==> |r.value| == |lits|
    ensures r.Ok? ==> forall i :: 0 <= i < |lits| ==> EncodeLiteral(lits[i], index) == Ok(r.value[i])
  {
    if lits == [] then Ok([])
    else
      var k := EncodeLiteral(lits[0], index);
      if k.Err? then Err(k.error)
      else
        var ks := EncodeAll(lits[1..], index);
        if ks.Err? then ks else Ok([k.value] + ks.value)
  }

  /** One constraint: the literals of a disjunction, or the child alone. */
  function EncodeClause(child: Expr, index: map<string, int>): Result<seq<int>>
  {
    EncodeAll(if child.Or? then child.children else [child], index)
  }

  /** `constraints`: one clause per child of the anchored conjunction. */
  function EncodeClauses(children: seq<Expr>, index: map<string, int>): (r: Result<seq<seq<int>>>)
    ensures r.Ok? <==> forall i :: 0 <= i < |children| ==> EncodeClause(children[i], index).Ok?
    ensures r.Ok? ==> |r.value| == |children|
    ensures r.Ok? ==> forall i :: 0 <= i < |children| ==> EncodeClause(children[i], index) == Ok(r.value[i])
  {
    if children == [] then Ok([])
    else
      var c := EncodeClause(children[0], index);
      if c.Err? then Err(c.error)
      else
        var cs := EncodeClauses(children[1..], index);
        if cs.Err? then cs else Ok([c.value] + cs.value)
  }

  /** The clauses `solve_SAT` hands to the solver for `e`, numbering the
      variables in the order `vars` (the iteration order of a Python set). */
  function Constraints(e: Expr, vars: seq<string>): Result<seq<seq<int>>>
    requires Distinct(vars)
  {
    var c := Convert(e);
    if c.Err? then Err(c.error) else EncodeClauses(Anchored(c.value).children, Index(vars))
  }

  /** A solver answer over n variables: position i holds i + 1 (true) or
      -(i + 1) (false). */
  predicate IsSolution(n: nat, s: seq<int>)
  {
    |s| == n && forall i :: 0 <= i < n ==> s[i] == i + 1 || s[i] == -(i + 1)
  }

  /** The signed index `k` is one of the answer's literals. */
  predicate LiteralTrue(k: int, s: seq<int>)
  {
    var v := if k < 0 then -k else k;
    1 <= v <= |s| && s[v - 1] == k
  }

  /** The clause has a literal of the answer. */
  predicate ClauseTrue(clause: seq<int>, s: seq<int>)
  {
    exists k :: k in clause && LiteralTrue(k, s)
  }

  /** What the solver promises of every answer: every clause has a true literal. */
  predicate IsModel(clauses: seq<seq<int>>, n: nat, s: seq<int>)
  {
    IsSolution(n, s) && forall c :: c in clauses ==> ClauseTrue(c, s)
  }

  /** The names assigned by the first i positions of an answer, as the
      decoding loop builds them: the anchor is skipped, a later position
      overwrites an earlier one. */
  function DecodePrefix(vars: seq<string>, s: seq<int>, i: nat): map<string, bool>
    requires i <= |vars| && |s| == |vars|
  {
    if i == 0 then map[]
    else
      var m := DecodePrefix(vars, s, i - 1);
      if vars[i - 1] == Anchor then m else m[vars[i - 1] := s[i - 1] > 0]
  }

  /** The decoding of one answer: `AssertionFailure` when the anchor is
      false, otherwise the assignment it makes to the other names. */
  function Decoded(vars: seq<string>, s: seq<int>): (r: Result<map<string, bool>>)
    requires |s| == |vars|
    ensures r.Err? <==> exists i :: 0 <= i < |vars| && vars[i] == Anchor && s[i] <= 0
    ensures r.Err? ==> r.error == AssertionFailure
  {
    if exists i :: 0 <= i < |vars| && vars[i] == Anchor && s[i] <= 0 then Err(AssertionFailure)
    else Ok(DecodePrefix(vars, s, |vars|))
  }

  /** The decoding loop of `solve_SAT` for one answer. */
  method DecodeModel(vars: seq<string>, solution: seq<int>) returns (r: Result<map<string, bool>>)
    requires |solution| == |vars|
    ensures r == Decoded(vars, solution)
  {
    var namespace: map<string, bool> := map[];
    var i := 0;
    while i < |solution|
      invariant i <= |solution|
      invariant forall j :: 0 <= j < i && vars[j] == Anchor ==> solution[j] > 0
      invariant namespace == DecodePrefix(vars, solution, i)
    {
      var asBool := solution[i] > 0;
      if vars[i] == Anchor {
        if !asBool {
          return Err(AssertionFailure);
        }
      } else {
        namespace := namespace[vars[i] := asBool];
      }
      i := i + 1;
    }
    r := Ok(namespace);
  }

  /** The decoded assignment names every variable except the anchor, and
      gives each the sign of its position in the answer. */
  lemma {:induction false} DecodePrefixAt(vars: seq<string>, s: seq<int>, i: nat)
    requires i <= |vars| && |s| == |vars| && Distinct(vars)
    ensures DecodePrefix(vars, s, i).Keys == (set j | 0 <= j < i && vars[j] != Anchor :: vars[j])
    ensures forall j :: 0 <= j < i && vars[j] != Anchor ==> DecodePrefix(vars, s, i)[vars[j]] == (s[j] > 0)
  {
    if i > 0 {
      DecodePrefixAt(vars, s, i - 1);
    }
  }

  /** The answer a given assignment stands for: the anchor true, every other
      variable true exactly when the assignment makes it true. */
  function ModelOf(vars: seq<string>, env: map<string, bool>): (s: seq<int>)
    ensures IsSolution(|vars|, s)
  {
    seq(|vars|, i requires 0 <= i < |vars| =>
      if vars[i] == Anchor || (vars[i] in env && env[vars[i]]) then i + 1 else -(i + 1))
  }

  /** The anchor, if numbered, is true in the answer. */
  predicate AnchorTrue(vars: seq<string>, s: seq<int>)
    requires |s| == |vars|
  {
    forall i :: 0 <= i < |vars| && vars[i] == Anchor ==> s[i] > 0
  }

  /** The assignment an answer stands for, with the anchor made true. */
  function AnchoredAssignment(vars: seq<string>, s: seq<int>): map<string, bool>
    requires |s| == |vars|
  {
    DecodePrefix(vars, s, |vars|)[Anchor := true]
  }

  /** Under an answer whose anchor is true, a literal's signed index is one of
      the answer's literals exactly when the literal holds. */
  lemma LiteralMeaning(lit: Expr, vars: seq<string>, s: seq<int>)
    requires IsBooleanAtom(lit) && FreeVars(lit) <= (set v | v in vars)
    requires Distinct(vars) && Anchor in vars && IsSolution(|vars|, s) && AnchorTrue(vars, s)
    ensures EncodeLiteral(lit, Index(vars)).Ok?
    ensures LiteralTrue(EncodeLiteral(lit, Index(vars)).value, s) == Holds(lit, AnchoredAssignment(vars, s))
  {
    var n := AtomName(lit);
    AtomNameNumbered(lit, vars);
    var index := Index(vars);
    var j := IndexedAt(vars, n);
    PositionMeaning(j, vars, s);
    AtomEncoding(lit, index, j + 1, s, AnchoredAssignment(vars, s));
  }

  /** The position whose 1-based index a listed name is given. */
  lemma IndexedAt(vars: seq<string>, n: string) returns (j: nat)
    requires Distinct(vars) && n in vars
    ensures j < |vars| && vars[j] == n
    ensures n in Index(vars) && Index(vars)[n] == j + 1
  {
    j := Index(vars)[n] - 1;
  }

  /** The variable an atom reads: its own, or the anchor for a bool. */
  function AtomName(lit: Expr): string
  {
    if lit.Var? then lit.name else if lit.Not? && lit.child.Var? then lit.child.name else Anchor
  }

  lemma AtomNameNumbered(lit: Expr, vars: seq<string>)
    requires IsBooleanAtom(lit) && FreeVars(lit) <= (set v | v in vars) && Anchor in vars
    ensures AtomName(lit) in vars
  {
    if lit.Var? || (lit.Not? && lit.child.Var?) {
      assert AtomName(lit) in FreeVars(lit);
    }
  }

  /** An atom encodes to the index `k` of the variable it reads, negated
      when the atom is a negation or a false bool. */
  lemma AtomEncoding(lit: Expr, index: map<string, int>, k: int, s: seq<int>, env: map<string, bool>)
    requires IsBooleanAtom(lit) && AtomName(lit) in index && index[AtomName(lit)] == k
    requires Anchor in env && env[Anchor]
    requires LiteralTrue(k, s) == Holds(Var(AtomName(lit)), env)
    requires LiteralTrue(-k, s) == !Holds(Var(AtomName(lit)), env)
    ensures EncodeLiteral(lit, index).Ok?
    ensures LiteralTrue(EncodeLiteral(lit, index).value, s) == Holds(lit, env)
  {
  }

  /** The index of the variable at position j is a literal of the answer
      exactly when the variable is true, its negation exactly when it is
      false. */
  lemma PositionMeaning(j: nat, vars: seq<string>, s: seq<int>)
    requires j < |vars| && Distinct(vars) && IsSolution(|vars|, s) && AnchorTrue(vars, s)
    ensures LiteralTrue(j + 1, s) == Holds(Var(vars[j]), AnchoredAssignment(vars, s))
    ensures LiteralTrue(-(j + 1), s) == !Holds(Var(vars[j]), AnchoredAssignment(vars, s))
  {
    var env := AnchoredAssignment(vars, s);
    if vars[j] != Anchor {
      DecodePrefixAt(vars, s, |vars|);
      assert vars[j] in env && env[vars[j]] == (s[j] > 0);
    }
  }

  /** A clause is satisfied by the answer exactly when the disjunction holds. */
  lemma ClauseMeaning(child: Expr, vars: seq<string>, s: seq<int>)
    requires IsDisjunctionOfAtoms(child) && FreeVars(child) <= (set v | v in vars)
    requires Distinct(vars) && Anchor in vars && IsSolution(|vars|, s) && AnchorTrue(vars, s)
    ensures EncodeClause(child, Index(vars)).Ok?
    ensures ClauseTrue(EncodeClause(child, Index(vars)).value, s) == Holds(child, AnchoredAssignment(vars, s))
  {
    var lits := if child.Or? then child.children else [child];
    assert forall l :: l in lits ==> IsBooleanAtom(l);
    forall l | l in lits
      ensures FreeVars(l) <= (set v | v in vars)
    {
      if child.Or? {
        forall n | n in FreeVars(l)
          ensures n in FreeVarsOf(lits)
        {
          FreeVarsOfMember(lits, n);
        }
      }
    }
    EncodeAllMeaning(lits, vars, s);
    var env := AnchoredAssignment(vars, s);
    var ks := EncodeAll(lits, Index(vars)).value;
    OrHoldsAt(lits, env);
    if exists k :: k in ks && LiteralTrue(k, s) {
      var k :| k in ks && LiteralTrue(k, s);
      var i :| 0 <= i < |ks| && ks[i] == k;
      assert Holds(lits[i], env);
    }
    if exists i :: 0 <= i < |lits| && Holds(lits[i], env) {
      var i :| 0 <= i < |lits| && Holds(lits[i], env);
      assert ks[i] in ks;
    }
  }

  lemma {:induction false} EncodeAllMeaning(lits: seq<Expr>, vars: seq<string>, s: seq<int>)
    requires forall l :: l in lits ==> IsBooleanAtom(l) && FreeVars(l) <= (set v | v in vars)
    requires Distinct(vars) && Anchor in vars && IsSolution(|vars|, s) && AnchorTrue(vars, s)
    ensures EncodeAll(lits, Index(vars)).Ok?
    ensures forall i :: 0 <= i < |lits| ==>
      LiteralTrue(EncodeAll(lits, Index(vars)).value[i], s) == Holds(lits[i], AnchoredAssignment(vars, s))
  {
    if lits != [] {
      assert lits[0] in lits;
      LiteralMeaning(lits[0], vars, s);
      assert forall l :: l in lits[1..] ==> l in lits;
      EncodeAllMeaning(lits[1..], vars, s);
      var ks := EncodeAll(lits, Index(vars)).value;
      forall i | 0 <= i < |lits|
        ensures LiteralTrue(ks[i], s) == Holds(lits[i], AnchoredAssignment(vars, s))
      {
        if i > 0 {
          assert lits[1..][i - 1] == lits[i];
        }
      }
    }
  }

  /** Under an answer whose anchor is true, every clause is satisfied exactly
      when the conjunction holds. */
  lemma ClausesMeaning(children: seq<Expr>, vars: seq<string>, s: seq<int>)
    requires forall c :: c in children ==> IsDisjunctionOfAtoms(c) && FreeVars(c) <= (set v | v in vars)
    requires Distinct(vars) && Anchor in vars && IsSolution(|vars|, s) && AnchorTrue(vars, s)
    ensures EncodeClauses(children, Index(vars)).Ok?
    ensures IsModel(EncodeClauses(children, Index(vars)).value, |vars|, s)
        == Holds(And(children), AnchoredAssignment(vars, s))
  {
    var env := AnchoredAssignment(vars, s);
    forall i | 0 <= i < |children|
      ensures EncodeClause(children[i], Index(vars)).Ok?
      ensures ClauseTrue(EncodeClause(children[i], Index(vars)).value, s) == Holds(children[i], env)
    {
      assert children[i] in children;
      ClauseMeaning(children[i], vars, s);
    }
    var clauses := EncodeClauses(children, Index(vars)).value;
    AndHoldsAt(children, env);
    if Holds(And(children), env) {
      forall c | c in clauses
        ensures ClauseTrue(c, s)
      {
        var i :| 0 <= i < |clauses| && clauses[i] == c;
      }
    }
    if IsModel(clauses, |vars|, s) {
      forall i | 0 <= i < |children|
        ensures Holds(children[i], env)
      {
        assert clauses[i] in clauses;
      }
    }
  }

  /** The variables `vars` number exactly the free variables of the anchored
      formula, each once. */
  predicate Numbers(vars: seq<string>, cnf: Expr)
  {
    Distinct(vars) && (set v | v in vars) == FreeVars(cnf) + {Anchor}
  }

  /** A converted formula's encoding is well formed, and an answer satisfies
      its clauses exactly when it decodes (the anchor is true) to an
      assignment under which the formula holds. */
  lemma EncodingCorrect(cnf: Expr, vars: seq<string>, s: seq<int>)
    requires cnf.And? && IsConjunctiveNormalForm(cnf) && Anchor !in FreeVars(cnf)
    requires Numbers(vars, cnf) && IsSolution(|vars|, s)
    ensures EncodeClauses(Anchored(cnf).children, Index(vars)).Ok?
    ensures IsModel(EncodeClauses(Anchored(cnf).children, Index(vars)).value, |vars|, s)
        <==> Decoded(vars, s).Ok? && Holds(cnf, Decoded(vars, s).value)
  {
    if AnchorTrue(vars, s) {
      TrueAnchorMeaning(cnf, vars, s);
      assert Decoded(vars, s) == Ok(DecodePrefix(vars, s, |vars|));
    } else {
      FalseAnchorFails(cnf, vars, s);
    }
  }

  /** With the anchor true, the clauses are satisfied exactly when the
      formula holds under the decoded assignment. */
  lemma TrueAnchorMeaning(cnf: Expr, vars: seq<string>, s: seq<int>)
    requires cnf.And? && IsConjunctiveNormalForm(cnf) && Anchor !in FreeVars(cnf)
    requires Numbers(vars, cnf) && IsSolution(|vars|, s) && AnchorTrue(vars, s)
    ensures EncodeClauses(Anchored(cnf).children, Index(vars)).Ok?
    ensures IsModel(EncodeClauses(Anchored(cnf).children, Index(vars)).value, |vars|, s)
        == Holds(cnf, DecodePrefix(vars, s, |vars|))
  {
    AnchoredClauses(cnf, vars);
    ClausesMeaning(Anchored(cnf).children, vars, s);
    var d := DecodePrefix(vars, s, |vars|);
    HoldsAgree(cnf, d, d[Anchor := true]);
  }

  /** Every clause of the anchored formula is a disjunction of atoms over
      numbered variables. */
  lemma AnchoredClauses(cnf: Expr, vars: seq<string>)
    requires cnf.And? && IsConjunctiveNormalForm(cnf) && Numbers(vars, cnf)
    ensures Anchor in vars
    ensures forall c :: c in Anchored(cnf).children ==> IsDisjunctionOfAtoms(c) && FreeVars(c) <= (set v | v in vars)
  {
    var children := Anchored(cnf).children;
    forall c | c in children
      ensures IsDisjunctionOfAtoms(c) && FreeVars(c) <= (set v | v in vars)
    {
      if c != Var(Anchor) {
        assert c in cnf.children;
        forall n | n in FreeVars(c)
          ensures n in FreeVars(cnf)
        {
          FreeVarsOfMember(cnf.children, n);
        }
      }
    }
    assert Anchor in (set v | v in vars);
  }

  /** An answer with a false anchor leaves the anchor's unit clause unsatisfied. */
  lemma FalseAnchorFails(cnf: Expr, vars: seq<string>, s: seq<int>)
    requires cnf.And? && IsConjunctiveNormalForm(cnf) && Numbers(vars, cnf)
    requires IsSolution(|vars|, s) && !AnchorTrue(vars, s)
    ensures EncodeClauses(Anchored(cnf).children, Index(vars)).Ok?
    ensures !IsModel(EncodeClauses(Anchored(cnf).children, Index(vars)).value, |vars|, s)
  {
    AnchoredClauses(cnf, vars);
    var children := Anchored(cnf).children;
    ClausesMeaning(children, vars, ModelOf(vars, map[]));
    var clauses := EncodeClauses(children, Index(vars)).value;
    var k := Index(vars)[Anchor];
    UnitClause(Anchor, Index(vars));
    assert children[|children| - 1] == Var(Anchor);
    assert clauses[|children| - 1] == [k];
    AnchorFalseAt(vars, s);
    UnitClauseFails(clauses, |children| - 1, k, |vars|, s);
  }

  /** A unit clause whose literal is false leaves the clauses without a model. */
  lemma UnitClauseFails(clauses: seq<seq<int>>, j: nat, k: int, n: nat, s: seq<int>)
    requires j < |clauses| && clauses[j] == [k] && !LiteralTrue(k, s)
    ensures !IsModel(clauses, n, s)
  {
    assert !ClauseTrue([k], s) by {
      assert forall k' :: k' in [k] ==> k' == k;
    }
    assert clauses[j] in clauses;
  }

  /** A variable alone is the clause of its own index. */
  lemma UnitClause(n: string, index: map<string, int>)
    requires n in index
    ensures EncodeClause(Var(n), index) == Ok([index[n]])
  {
    assert [Var(n)][1..] == [];
    assert [index[n]] + [] == [index[n]];
  }

  /** When the anchor is false, the anchor's index is not a literal of the answer. */
  lemma AnchorFalseAt(vars: seq<string>, s: seq<int>)
    requires Distinct(vars) && Anchor in vars && IsSolution(|vars|, s) && !AnchorTrue(vars, s)
    ensures !LiteralTrue(Index(vars)[Anchor], s)
  {
    var i :| 0 <= i < |vars| && vars[i] == Anchor && s[i] <= 0;
    assert Index(vars)[Anchor] == i + 1;
  }

  /** The decoded assignment names exactly the numbered variables other than
      the anchor. */
  lemma DecodedKeys(vars: seq<string>, s: seq<int>)
    requires Distinct(vars) && |s| == |vars|
    ensures DecodePrefix(vars, s, |vars|).Keys == (set v | v in vars) - {Anchor}
  {
    DecodePrefixAt(vars, s, |vars|);
    forall v | v in (set v | v in vars) - {Anchor}
      ensures v in DecodePrefix(vars, s, |vars|)
    {
      var j :| 0 <= j < |vars| && vars[j] == v;
    }
  }

  /** The answer built from an assignment has a true anchor and decodes back
      to the assignment, restricted to the numbered variables. */
  lemma ModelOfDecodes(vars: seq<string>, env: map<string, bool>)
    requires Distinct(vars)
    ensures AnchorTrue(vars, ModelOf(vars, env))
    ensures Decoded(vars, ModelOf(vars, env)) == Ok(DecodePrefix(vars, ModelOf(vars, env), |vars|))
    ensures Agree((set v | v in vars) - {Anchor}, DecodePrefix(vars, ModelOf(vars, env), |vars|), env)
    ensures env.Keys == (set v | v in vars) - {Anchor} ==> DecodePrefix(vars, ModelOf(vars, env), |vars|) == env
  {
    var s := ModelOf(vars, env);
    var d := DecodePrefix(vars, s, |vars|);
    ModelOfValues(vars, env);
    DecodedKeys(vars, s);
    assert AnchorTrue(vars, s);
    assert Decoded(vars, s) == Ok(d);
  }

  /** Each numbered name other than the anchor decodes to its value in the assignment. */
  lemma ModelOfValues(vars: seq<string>, env: map<string, bool>)
    requires Distinct(vars)
    ensures forall v :: v in (set v | v in vars) - {Anchor} ==>
      v in DecodePrefix(vars, ModelOf(vars, env), |vars|) &&
      DecodePrefix(vars, ModelOf(vars, env), |vars|)[v] == (v in env && env[v])
  {
    var s := ModelOf(vars, env);
    var d := DecodePrefix(vars, s, |vars|);
    DecodePrefixAt(vars, s, |vars|);
    forall v | v in (set v | v in vars) - {Anchor}
      ensures v in d && d[v] == (v in env && env[v])
    {
      var j :| 0 <= j < |vars| && vars[j] == v;
      assert d[v] == (s[j] > 0);
    }
  }

  /** An answer with a true anchor is the answer built from its own decoding:
      distinct answers decode to distinct assignments. */
  lemma DecodeThenModel(vars: seq<string>, s: seq<int>)
    requires Distinct(vars) && IsSolution(|vars|, s) && AnchorTrue(vars, s)
    ensures ModelOf(vars, DecodePrefix(vars, s, |vars|)) == s
  {
    var d := DecodePrefix(vars, s, |vars|);
    DecodePrefixAt(vars, s, |vars|);
    var m := ModelOf(vars, d);
    forall j | 0 <= j < |vars|
      ensures m[j] == s[j]
    {
    }
  }

  /** The inputs `solve_SAT` handles in full: boolean formulas whose `Or` and
      `And` nodes have children and that do not use the anchor's name. */
  predicate Solvable(e: Expr)
  {
    Boolean(e) && NonEmptyOps(e) && Anchor !in FreeVars(e)
  }

  /** The solver's answers for a solvable formula are exactly the
      assignments to its free variables under which it holds: every answer
      decodes to one, and every such assignment is decoded from an answer. */
  lemma AnswersAreSatisfyingAssignments(e: Expr, vars: seq<string>, s: seq<int>)
    requires Solvable(e) && Distinct(vars) && (set v | v in vars) == FreeVars(e) + {Anchor}
    requires IsSolution(|vars|, s)
    ensures Constraints(e, vars).Ok?
    ensures IsModel(Constraints(e, vars).value, |vars|, s)
        <==> Decoded(vars, s).Ok? && Holds(e, Decoded(vars, s).value)
    ensures Decoded(vars, s).Ok? ==> Decoded(vars, s).value.Keys == FreeVars(e)
  {
    ConvertPreserves(e);
    ConvertNormalForm(e);
    var cnf := Convert(e).value;
    EncodingCorrect(cnf, vars, s);
    DecodedKeys(vars, s);
  }

  /** Every assignment under which a solvable formula holds gives an answer
      the solver may return; on the formula's free variables it decodes back
      to that assignment. */
  lemma SatisfyingAssignmentsAreAnswers(e: Expr, vars: seq<string>, env: map<string, bool>)
    requires Solvable(e) && Distinct(vars) && (set v | v in vars) == FreeVars(e) + {Anchor}
    requires Holds(e, env)
    ensures Constraints(e, vars).Ok?
    ensures IsModel(Constraints(e, vars).value, |vars|, ModelOf(vars, env))
    ensures env.Keys == FreeVars(e) ==> Decoded(vars, ModelOf(vars, env)) == Ok(env)
  {
    var s := ModelOf(vars, env);
    var d := DecodePrefix(vars, s, |vars|);
    ModelOfDecodes(vars, env);
    assert (set v | v in vars) - {Anchor} == FreeVars(e);
    assert Decoded(vars, s) == Ok(d);
    HoldsAgree(e, env, d);
    AnswersAreSatisfyingAssignments(e, vars, s);
  }

  /** `solve_SAT(expr)`, given the numbering `vars` of the anchored formula's
      free variables (the iteration order of a Python set) and the answers
      `solutions` the solver returns for its clauses. A conversion error is
      raised as it is; each answer is decoded in turn. On a solvable formula
      every returned assignment names its free variables and makes it true. */
  method SolveSat(e: Expr, vars: seq<string>, solutions: seq<seq<int>>) returns (r: Result<seq<map<string, bool>>>)
    requires Distinct(vars)
    requires Convert(e).Ok? ==> Numbers(vars, Convert(e).value)
    requires forall s :: s in solutions ==> |s| == |vars|
    requires Constraints(e, vars).Ok? ==> forall s :: s in solutions ==> IsModel(Constraints(e, vars).value, |vars|, s)
    ensures Convert(e).Err? ==> r == Err(Convert(e).error)
    ensures r.Ok? ==> |r.value| == |solutions|
    ensures r.Ok? ==> forall i :: 0 <= i < |solutions| ==> Decoded(vars, solutions[i]) == Ok(r.value[i])
    ensures Convert(e).Ok? && r.Err? ==> exists i :: 0 <= i < |solutions| && Decoded(vars, solutions[i]).Err?
    ensures Solvable(e) ==> r.Ok? && forall i :: 0 <= i < |r.value| ==> r.value[i].Keys == FreeVars(e) && Holds(e, r.value[i])
  {
    if Solvable(e) {
      ConvertPreserves(e);
    }
    var c := Convert(e);
    if c.Err? {
      return Err(c.error);
    }
    r := DecodeAll(vars, solutions);
    if Solvable(e) {
      SolvableAnswers(e, vars, solutions);
      assert forall i :: 0 <= i < |solutions| ==> solutions[i] in solutions;
      assert r.Ok?;
      forall i | 0 <= i < |r.value|
        ensures r.value[i].Keys == FreeVars(e) && Holds(e, r.value[i])
      {
        assert Decoded(vars, solutions[i]) == Ok(r.value[i]);
      }
    }
  }

  /** The decoding loop of `solve_SAT`: each answer in turn, stopping at the
      first whose anchor is false. */
  method DecodeAll(vars: seq<string>, solutions: seq<seq<int>>) returns (r: Result<seq<map<string, bool>>>)
    requires forall s :: s in solutions ==> |s| == |vars|
    ensures r.Ok? <==> forall i :: 0 <= i < |solutions| ==> Decoded(vars, solutions[i]).Ok?
    ensures r.Ok? ==> |r.value| == |solutions|
    ensures r.Ok? ==> forall i :: 0 <= i < |solutions| ==> Decoded(vars, solutions[i]) == Ok(r.value[i])
    ensures r.Err? ==> r.error == AssertionFailure
  {
    var found: seq<map<string, bool>> := [];
    var i := 0;
    while i < |solutions|
      invariant i <= |solutions|
      invariant |found| == i
      invariant forall j :: 0 <= j < i ==> Decoded(vars, solutions[j]) == Ok(found[j])
    {
      assert solutions[i] in solutions;
      var namespace := DecodeModel(vars, solutions[i]);
      if namespace.Err? {
        return Err(namespace.error);
      }
      found := found + [namespace.value];
      i := i + 1;
    }
    return Ok(found);
  }

  /** On a solvable formula every answer of the solver decodes to an
      assignment to its free variables that makes it true. */
  lemma SolvableAnswers(e: Expr, vars: seq<string>, solutions: seq<seq<int>>)
    requires Solvable(e) && Distinct(vars)
    requires Convert(e).Ok? ==> Numbers(vars, Convert(e).value)
    requires Constraints(e, vars).Ok? ==> forall s :: s in solutions ==> IsModel(Constraints(e, vars).value, |vars|, s)
    ensures forall s :: s in solutions ==> |s| == |vars| && Decoded(vars, s).Ok?
    ensures forall s :: s in solutions ==> Decoded(vars, s).value.Keys == FreeVars(e) && Holds(e, Decoded(vars, s).value)
  {
    SolvableNumbering(e, vars);
    forall s | s in solutions
      ensures |s| == |vars| && Decoded(vars, s).Ok?
      ensures Decoded(vars, s).value.Keys == FreeVars(e) && Holds(e, Decoded(vars, s).value)
    {
      assert IsSolution(|vars|, s);
      AnswersAreSatisfyingAssignments(e, vars, s);
    }
  }

  /** For a solvable formula the numbering covers its free variables and the
      anchor, and the clauses are well formed. */
  lemma SolvableNumbering(e: Expr, vars: seq<string>)
    requires Solvable(e) && Distinct(vars)
    requires Convert(e).Ok? ==> Numbers(vars, Convert(e).value)
    ensures (set v | v in vars) == FreeVars(e) + {Anchor}
    ensures Constraints(e, vars).Ok?
  {
    ConvertPreserves(e);
    AnswersAreSatisfyingAssignments(e, vars, ModelOf(vars, map[]));
  }

  /** `is_satisfiable(expr)`: whether the solver, asked for at most one
      answer, returns one. The solver returns none only when the clauses have
      no model. On a solvable formula the answer is whether some assignment
      makes it true. */
  method IsSatisfiable(e: Expr, vars: seq<string>, solutions: seq<seq<int>>) returns (r: Result<bool>)
    requires Distinct(vars)
    requires Convert(e).Ok? ==> Numbers(vars, Convert(e).value)
    requires |solutions| <= 1 && forall s :: s in solutions ==> |s| == |vars|
    requires Constraints(e, vars).Ok? ==> forall s :: s in solutions ==> IsModel(Constraints(e, vars).value, |vars|, s)
    requires Constraints(e, vars).Ok? && solutions == [] ==> forall s :: !IsModel(Constraints(e, vars).value, |vars|, s)
    ensures Convert(e).Err? ==> r == Err(Convert(e).error)
    ensures Solvable(e) ==> r == Ok(exists env :: Holds(e, env))
  {
    var found := SolveSat(e, vars, solutions);
    if found.Err? {
      return Err(found.error);
    }
    r := Ok(|found.value| > 0);
    if Solvable(e) {
      ConvertPreserves(e);
      if |found.value| > 0 {
        assert Holds(e, found.value[0]);
      } else if exists env :: Holds(e, env) {
        var env :| Holds(e, env);
        SatisfyingAssignmentsAreAnswers(e, vars, env);
        assert false;
      }
    }
  }

  /** The truth literals: `True` gives the clauses `[[1], [1]]`, whose one
      answer `[1]` decodes to the empty assignment; `False` gives
      `[[-1], [1]]`, which has no model. */
  lemma LiteralFormulas()
    ensures Constraints(Lit(true), [Anchor]) == Ok([[1], [1]])
    ensures IsModel([[1], [1]], 1, [1]) && Decoded([Anchor], [1]) == Ok(map[])
    ensures Constraints(Lit(false), [Anchor]) == Ok([[-1], [1]])
    ensures forall s :: !IsModel([[-1], [1]], 1, s)
  {
    LiteralConstraints(true);
    LiteralConstraints(false);
    TrueAnswer();
    FalseHasNoModel();
  }

  /** The one answer to the clauses of `True` decodes to no names. */
  lemma TrueAnswer()
    ensures IsModel([[1], [1]], 1, [1]) && Decoded([Anchor], [1]) == Ok(map[])
  {
    assert [1] in [[1], [1]] && LiteralTrue(1, [1]);
    assert DecodePrefix([Anchor], [1], 1) == map[];
  }

  /** The clauses of `False` ask the anchor to be both false and true. */
  lemma FalseHasNoModel()
    ensures forall s :: !IsModel([[-1], [1]], 1, s)
  {
    forall s
      ensures !IsModel([[-1], [1]], 1, s)
    {
      if IsSolution(1, s) {
        if s[0] == 1 {
          assert [-1] in [[-1], [1]] && !ClauseTrue([-1], s);
        } else {
          assert [1] in [[-1], [1]] && !ClauseTrue([1], s);
        }
      }
    }
  }

  /** The clauses of a truth literal: its sign on the anchor's index, then
      the anchor itself. */
  lemma LiteralConstraints(b: bool)
    ensures Constraints(Lit(b), [Anchor]) == Ok([[if b then 1 else -1], [1]])
  {
    ConvertLiteral(b);
    assert Anchored(And([Lit(b)])).children == [Lit(b), Var(Anchor)];
    LiteralClauses(b);
  }

  /** The anchored clauses of a truth literal, numbered with the anchor alone. */
  lemma LiteralClauses(b: bool)
    ensures EncodeClauses([Lit(b), Var(Anchor)], Index([Anchor])) == Ok([[if b then 1 else -1], [1]])
  {
    var index := Index([Anchor]);
    assert Anchor in index && index[Anchor] == 1;
    var k := if b then 1 else -1;
    SingleLiteral(Lit(b), index, k);
    SingleLiteral(Var(Anchor), index, 1);
    var cs := EncodeClauses([Lit(b), Var(Anchor)], index);
    assert cs.Ok? && |cs.value| == 2;
    assert cs.value[0] == [k] && cs.value[1] == [1];
    assert cs.value == [[k], [1]];
  }

  /** A truth literal converts to the conjunction of itself. */
  lemma ConvertLiteral(b: bool)
    ensures Convert(Lit(b)) == Ok(And([Lit(b)]))
  {
    assert Conv(Lit(b)) == Ok(Lit(b));
    var none: seq<Expr> := [];
    assert none + [Lit(b)] == [Lit(b)];
  }

  /** A clause of one literal encodes to that literal's index. */
  lemma SingleLiteral(lit: Expr, index: map<string, int>, k: int)
    requires !lit.Or? && EncodeLiteral(lit, index) == Ok(k)
    ensures EncodeClause(lit, index) == Ok([k])
  {
    var r := EncodeAll([lit], index);
    assert [lit][0] == lit;
    assert r.Ok? && |r.value| == 1;
    assert EncodeLiteral([lit][0], index) == Ok(r.value[0]);
    assert r.value == [k];
    assert EncodeClause(lit, index) == r;
  }
}
