/** The expression tree shared by both versions of pyreasoner's expression
    engine: node kinds, free variables, the CNF shape predicates and a
    reference meaning for the boolean fragment. */
module ExprTree {

  /** The three relational node classes `LessThan`, `GreaterThan` and `Eq`. */
  datatype RelOp = LessThan | GreaterThan | Eq

  /** An expression, or a plain Python value standing where an expression may stand:
      `Lit` is a Python `bool` and `Num` a Python `int`; the other constructors are
      the `ExpressionNode` subclasses. Equality is structural and order-sensitive. */
  datatype Expr =
    | Lit(value: bool)
    | Num(n: int)
    | Var(name: string)
    | Not(child: Expr)
    | Or(children: seq<Expr>)
    | And(children: seq<Expr>)
    | Rel(op: RelOp, lhs: Expr, rhs: Expr)

  /** The exceptions the engine can raise, plus one marker for what lies outside the model. */
  datatype Error =
    | TypeError          // a value that does not support the operation
    | AssertionFailure   // an `assert False` of the source was reached
    | RecursionLimit     // the source recurses without end
    | KeyError           // a dictionary lookup of a missing key
    | Unsupported        // Python arithmetic on ints that this model does not carry

  datatype Result<T> = Ok(value: T) | Err(error: Error)

  datatype Option<T> = None | Some(value: T)

  /** A substitution namespace: variable name to the value bound to it. */
  type Namespace = map<string, Expr>

  /** A namespace binding each assigned name to a bool. */
  function BoolNamespace(env: map<string, bool>): (ns: Namespace)
    ensures ns.Keys == env.Keys
    ensures forall n :: n in ns ==> ns[n] == Lit(env[n])
  {
    map n | n in env :: Lit(env[n])
  }

  /** The value is an `ExpressionNode` (not a plain bool or int). */
  predicate IsNode(e: Expr)
  {
    !e.Lit? && !e.Num?
  }

  /** Free variables: a variable is its own, `Not` has its child's, other
      operations the union of their children's, plain values none.
      The source raises on a childless `Or()`/`And()`; here that contributes none. */
  function FreeVars(e: Expr): set<string>
  {
    match e
    case Var(n) => {n}
    case Not(c) => FreeVars(c)
    case Or(cs) => FreeVarsOf(cs)
    case And(cs) => FreeVarsOf(cs)
    case Rel(_, l, r) => FreeVars(l) + FreeVars(r)
    case _ => {}
  }

  function FreeVarsOf(cs: seq<Expr>): set<string>
  {
    if cs == [] then {} else FreeVars(cs[0]) + FreeVarsOf(cs[1..])
  }

  /** A variable is free in a list of expressions exactly when it is free in one of them. */
  lemma {:induction false} FreeVarsOfMember(cs: seq<Expr>, n: string)
    ensures n in FreeVarsOf(cs) <==> exists c :: c in cs && n in FreeVars(c)
  {
    if cs != [] {
      FreeVarsOfMember(cs[1..], n);
      assert forall c :: c in cs <==> c == cs[0] || c in cs[1..];
      if n in FreeVars(cs[0]) {
        assert cs[0] in cs;
      }
    }
  }

  lemma {:induction false} FreeVarsOfConcat(a: seq<Expr>, b: seq<Expr>)
    ensures FreeVarsOf(a + b) == FreeVarsOf(a) + FreeVarsOf(b)
  {
    if a == [] {
      assert a + b == b;
    } else {
      assert (a + b)[1..] == a[1..] + b;
      FreeVarsOfConcat(a[1..], b);
    }
  }

  lemma FreeVarsOfPair(a: Expr, b: Expr)
    ensures FreeVarsOf([a, b]) == FreeVars(a) + FreeVars(b)
  {
    assert [a, b][1..] == [b] && [b][1..] == [];
    assert FreeVarsOf([b]) == FreeVars(b) + FreeVarsOf([]);
  }

  /** Every `Or` and `And` node has a child: exactly the trees whose free
      variables the source can compute without raising. */
  predicate NonEmptyOps(e: Expr)
  {
    match e
    case Not(c) => NonEmptyOps(c)
    case Or(cs) => |cs| > 0 && forall c :: c in cs ==> NonEmptyOps(c)
    case And(cs) => |cs| > 0 && forall c :: c in cs ==> NonEmptyOps(c)
    case Rel(_, l, r) => NonEmptyOps(l) && NonEmptyOps(r)
    case _ => true
  }

  /** The propositional fragment: booleans, variables, `Not`, `Or`, `And`. */
  predicate Boolean(e: Expr)
  {
    match e
    case Lit(_) => true
    case Var(_) => true
    case Not(c) => Boolean(c)
    case Or(cs) => forall c :: c in cs ==> Boolean(c)
    case And(cs) => forall c :: c in cs ==> Boolean(c)
    case _ => false
  }

  /** Reference meaning of a boolean formula under an assignment of truth
      values (an unassigned variable reads as false). */
  predicate Holds(e: Expr, env: map<string, bool>)
  {
    match e
    case Lit(b) => b
    case Var(n) => n in env && env[n]
    case Not(c) => !Holds(c, env)
    case Or(cs) => exists c :: c in cs && Holds(c, env)
    case And(cs) => forall c :: c in cs ==> Holds(c, env)
    case _ => false
  }

  /** Two assignments agree on the names `vs` (an unassigned name reads as false). */
  predicate Agree(vs: set<string>, env1: map<string, bool>, env2: map<string, bool>)
  {
    forall n :: n in vs ==> (n in env1 && env1[n]) == (n in env2 && env2[n])
  }

  /** A formula's truth value depends on its free variables only. */
  lemma {:induction false} HoldsAgree(e: Expr, env1: map<string, bool>, env2: map<string, bool>)
    requires Agree(FreeVars(e), env1, env2)
    ensures Holds(e, env1) == Holds(e, env2)
  {
    match e
    case Not(c) => HoldsAgree(c, env1, env2);
    case Or(cs) => AllAgree(cs, env1, env2);
    case And(cs) => AllAgree(cs, env1, env2);
    case _ =>
  }

  lemma {:induction false} AllAgree(cs: seq<Expr>, env1: map<string, bool>, env2: map<string, bool>)
    requires Agree(FreeVarsOf(cs), env1, env2)
    ensures forall c :: c in cs ==> Holds(c, env1) == Holds(c, env2)
  {
    forall c | c in cs
      ensures Holds(c, env1) == Holds(c, env2)
    {
      forall n | n in FreeVars(c)
        ensures n in FreeVarsOf(cs)
      {
        FreeVarsOfMember(cs, n);
      }
      HoldsAgree(c, env1, env2);
    }
  }

  /** `is_boolean_atom`: a variable, a bool, or a `Not` of one of those. */
  predicate IsBooleanAtom(e: Expr)
  {
    e.Var? || e.Lit? || (e.Not? && (e.child.Var? || e.child.Lit?))
  }

  /** `is_disjunction_of_atoms`: an atom, or an `Or` of atoms. */
  predicate IsDisjunctionOfAtoms(e: Expr)
  {
    IsBooleanAtom(e) || (e.Or? && forall c :: c in e.children ==> IsBooleanAtom(c))
  }

  /** `is_conjunctive_normal_form`: a disjunction of atoms, or an `And` of them. */
  predicate IsConjunctiveNormalForm(e: Expr)
  {
    IsBooleanAtom(e) || IsDisjunctionOfAtoms(e)
      || (e.And? && forall c :: c in e.children ==> IsDisjunctionOfAtoms(c))
  }

  /** A disjunction holds when one of its children does, read by position. */
  lemma OrHoldsAt(cs: seq<Expr>, env: map<string, bool>)
    ensures Holds(Or(cs), env) <==> exists i :: 0 <= i < |cs| && Holds(cs[i], env)
  {
    if Holds(Or(cs), env) {
      var c :| c in cs && Holds(c, env);
      var i :| 0 <= i < |cs| && cs[i] == c;
    }
    if exists i :: 0 <= i < |cs| && Holds(cs[i], env) {
      var i :| 0 <= i < |cs| && Holds(cs[i], env);
      assert cs[i] in cs;
    }
  }

  /** A conjunction holds when all of its children do, read by position. */
  lemma AndHoldsAt(cs: seq<Expr>, env: map<string, bool>)
    ensures Holds(And(cs), env) <==> forall i :: 0 <= i < |cs| ==> Holds(cs[i], env)
  {
    if forall i :: 0 <= i < |cs| ==> Holds(cs[i], env) {
      forall c | c in cs
        ensures Holds(c, env)
      {
        var i :| 0 <= i < |cs| && cs[i] == c;
      }
    }
    if Holds(And(cs), env) {
      forall i | 0 <= i < |cs|
        ensures Holds(cs[i], env)
      {
        assert cs[i] in cs;
      }
    }
  }

  lemma HoldsOrConcat(a: seq<Expr>, b: seq<Expr>, env: map<string, bool>)
    ensures Holds(Or(a + b), env) == (Holds(Or(a), env) || Holds(Or(b), env))
  {
    if Holds(Or(a + b), env) {
      var c :| c in a + b && Holds(c, env);
    }
  }

  lemma HoldsAndConcat(a: seq<Expr>, b: seq<Expr>, env: map<string, bool>)
    ensures Holds(And(a + b), env) == (Holds(And(a), env) && Holds(And(b), env))
  {
  }
}
