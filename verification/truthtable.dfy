/** `get_truth_table` and `is_logically_equivalent` of pyreasoner/expressions.py. */
module TruthTables {
  import opened ExprTree
  import opened Names
  import opened Substitution
  import opened SubstitutionFacts

  /** The assignment a truth-table row stands for: the i-th name in sorted
      order gets the i-th value of the row. */
  function RowNamespace(names: seq<string>, row: seq<bool>): Namespace
    requires |names| == |row|
  {
    BoolNamespace(Zip(names, row))
  }

  /** The dict comprehension `{rows[i]: vals[i] for i in ...}`: the values are
      computed in the order of `rows`, the first exception propagates out of
      the comprehension, and a later row overwrites an equal earlier one. */
  function Collect(rows: seq<seq<bool>>, vals: seq<Result<Expr>>): Result<map<seq<bool>, Expr>>
    requires |rows| == |vals|
  {
    if rows == [] then Ok(map[])
    else
      var n := |rows| - 1;
      match Collect(rows[..n], vals[..n])
      case Err(k) => Err(k)
      case Ok(m) => if vals[n].Err? then Err(vals[n].error) else Ok(m[rows[n] := vals[n].value])
  }

  /** The dictionary is built exactly when every value is. */
  lemma {:induction false} CollectOk(rows: seq<seq<bool>>, vals: seq<Result<Expr>>)
    requires |rows| == |vals|
    ensures Collect(rows, vals).Ok? <==> forall i :: 0 <= i < |vals| ==> vals[i].Ok?
  {
    if rows != [] {
      var n := |rows| - 1;
      CollectOk(rows[..n], vals[..n]);
      assert forall i :: 0 <= i < n ==> vals[..n][i] == vals[i];
    }
  }

  /** A built dictionary is keyed by exactly the rows. */
  lemma {:induction false} CollectKeys(rows: seq<seq<bool>>, vals: seq<Result<Expr>>)
    requires |rows| == |vals| && Collect(rows, vals).Ok?
    ensures Collect(rows, vals).value.Keys == set row | row in rows
  {
    if rows != [] {
      var n := |rows| - 1;
      CollectKeys(rows[..n], vals[..n]);
      assert rows == rows[..n] + [rows[n]];
      assert (set row | row in rows) == (set row | row in rows[..n]) + {rows[n]};
    }
  }

  /** A failing comprehension raises the exception of its first failing row. */
  lemma {:induction false} CollectErr(rows: seq<seq<bool>>, vals: seq<Result<Expr>>)
    requires |rows| == |vals|
    ensures Collect(rows, vals).Err? ==>
      exists i :: 0 <= i < |vals| && vals[i] == Err(Collect(rows, vals).error) &&
        forall j :: 0 <= j < i ==> vals[j].Ok?
  {
    if rows != [] {
      var n := |rows| - 1;
      var init := Collect(rows[..n], vals[..n]);
      CollectErr(rows[..n], vals[..n]);
      if init.Err? {
        var i :| 0 <= i < n && vals[..n][i] == Err(init.error) &&
          forall j :: 0 <= j < i ==> vals[..n][j].Ok?;
        assert vals[i] == Err(Collect(rows, vals).error);
        assert forall j :: 0 <= j < i ==> vals[j].Ok? by {
          assert forall j :: 0 <= j < i ==> vals[..n][j] == vals[j];
        }
      } else {
        CollectOk(rows[..n], vals[..n]);
        assert forall j :: 0 <= j < n ==> vals[..n][j] == vals[j];
      }
    }
  }

  /** Over distinct rows each row is mapped to its own value. */
  lemma {:induction false} CollectAt(rows: seq<seq<bool>>, vals: seq<Result<Expr>>, i: nat)
    requires |rows| == |vals| && i < |rows| && Distinct(rows)
    requires Collect(rows, vals).Ok?
    ensures vals[i].Ok? && rows[i] in Collect(rows, vals).value
    ensures Collect(rows, vals).value[rows[i]] == vals[i].value
  {
    CollectOk(rows, vals);
    var n := |rows| - 1;
    if i < n {
      assert Distinct(rows[..n]) by {
        assert forall j :: 0 <= j < n ==> rows[..n][j] == rows[j];
      }
      CollectAt(rows[..n], vals[..n], i);
      assert rows[..n][i] == rows[i];
      assert rows[i] != rows[n];
    }
  }

  /** A comprehension over the product of n columns whose every value is
      computed is keyed by exactly the 2^n tuples of length n, each mapped to
      its own value. */
  lemma ProductTable(n: nat, vals: seq<Result<Expr>>, k: nat)
    requires |vals| == |Product(n)| && k < |vals|
    requires forall i :: 0 <= i < |vals| ==> vals[i].Ok?
    ensures Collect(Product(n), vals).Ok?
    ensures forall row: seq<bool> :: row in Collect(Product(n), vals).value <==> |row| == n
    ensures |Collect(Product(n), vals).value.Keys| == Pow2(n)
    ensures Collect(Product(n), vals).value[Product(n)[k]] == vals[k].value
  {
    CollectOk(Product(n), vals);
    CollectKeys(Product(n), vals);
    ProductKeySet(n, Collect(Product(n), vals).value.Keys);
    ProductDistinct(n);
    CollectAt(Product(n), vals, k);
  }

  /** What `eval` returns on row i of the product over `names`. */
  function RowValue(e: Expr, names: seq<string>, i: nat): Result<Expr>
    requires i < |Product(|names|)|
  {
    Eval(e, RowNamespace(names, Product(|names|)[i]), ChainLimit)
  }

  /** What `eval` returns on each row of the product over `names`, in the
      order `itertools.product` lists the rows. */
  function RowValues(e: Expr, names: seq<string>): (vs: seq<Result<Expr>>)
    ensures |vs| == |Product(|names|)|
  {
    seq(|Product(|names|)|, i requires 0 <= i < |Product(|names|)| => RowValue(e, names, i))
  }

  /** The table of `e` over the given column names: `Ok` of the dictionary
      from each row to what `eval` returns there, or the first exception. */
  function Table(e: Expr, names: seq<string>): Result<map<seq<bool>, Expr>>
  {
    Collect(Product(|names|), RowValues(e, names))
  }

  /** `get_truth_table`: the table over the free variables in name-sorted
      order. The keys are plain tuples: the assignment records compare as
      tuples, so the variable names are not part of a key. */
  ghost function TruthTable(e: Expr): Result<map<seq<bool>, Expr>>
  {
    Table(e, SortedNames(FreeVars(e)))
  }

  /** A plain value read as a Python int: a bool is 1 or 0. */
  function IntOf(v: Expr): int
    requires !IsNode(v)
  {
    if v.Num? then v.n else if v.value then 1 else 0
  }

  /** Python's `==` between values that may stand in a tree: plain values
      compare as ints (so `True == 1`), a variable equals a variable of the
      same name, an operation equals one of the same class whose children are
      pairwise equal, and a node never equals a plain value. */
  predicate PyEq(x: Expr, y: Expr)
  {
    match x
    case Lit(_) => !IsNode(y) && IntOf(x) == IntOf(y)
    case Num(_) => !IsNode(y) && IntOf(x) == IntOf(y)
    case Var(n) => y.Var? && y.name == n
    case Not(c) => y.Not? && PyEq(c, y.child)
    case Or(cs) => y.Or? && PyEqAll(cs, y.children)
    case And(cs) => y.And? && PyEqAll(cs, y.children)
    case Rel(op, l, r) => y.Rel? && y.op == op && PyEq(l, y.lhs) && PyEq(r, y.rhs)
  }

  /** Tuple equality: same length, entries pairwise `==`. */
  predicate PyEqAll(cs: seq<Expr>, ds: seq<Expr>)
  {
    |cs| == |ds| && (cs == [] || (PyEq(cs[0], ds[0]) && PyEqAll(cs[1..], ds[1..])))
  }

  /** Every value equals itself. */
  lemma {:induction false} PyEqReflexive(x: Expr)
    ensures PyEq(x, x)
  {
    match x
    case Not(c) => PyEqReflexive(c);
    case Or(cs) => PyEqAllReflexive(cs);
    case And(cs) => PyEqAllReflexive(cs);
    case Rel(_, l, r) => PyEqReflexive(l); PyEqReflexive(r);
    case _ =>
  }

  lemma {:induction false} PyEqAllReflexive(cs: seq<Expr>)
    ensures PyEqAll(cs, cs)
  {
    if cs != [] {
      PyEqReflexive(cs[0]);
      PyEqAllReflexive(cs[1..]);
    }
  }

  /** Between boolean formulas, which hold no ints, Python's `==` is
      structural equality. */
  lemma {:induction false} PyEqOnBoolean(x: Expr, y: Expr)
    requires Boolean(x) && Boolean(y)
    ensures PyEq(x, y) <==> x == y
  {
    match x
    case Not(c) =>
      if y.Not? {
        PyEqOnBoolean(c, y.child);
      }
    case Or(cs) =>
      if y.Or? {
        PyEqAllOnBoolean(cs, y.children);
      }
    case And(cs) =>
      if y.And? {
        PyEqAllOnBoolean(cs, y.children);
      }
    case _ =>
  }

  lemma {:induction false} PyEqAllOnBoolean(cs: seq<Expr>, ds: seq<Expr>)
    requires forall c :: c in cs ==> Boolean(c)
    requires forall d :: d in ds ==> Boolean(d)
    ensures PyEqAll(cs, ds) <==> cs == ds
  {
    if cs != [] && ds != [] {
      assert cs[0] in cs && ds[0] in ds;
      PyEqOnBoolean(cs[0], ds[0]);
      assert forall c :: c in cs[1..] ==> c in cs;
      assert forall d :: d in ds[1..] ==> d in ds;
      PyEqAllOnBoolean(cs[1..], ds[1..]);
      if cs[0] == ds[0] && cs[1..] == ds[1..] {
        assert cs == [cs[0]] + cs[1..] && ds == [ds[0]] + ds[1..];
      }
    }
  }

  /** Python's `==` on two tables: the same keys, and under each key values
      that are `==` (so an entry `1` equals an entry `True`). */
  predicate DictEq(t1: map<seq<bool>, Expr>, t2: map<seq<bool>, Expr>)
  {
    t1.Keys == t2.Keys && forall row :: row in t1 ==> PyEq(t1[row], t2[row])
  }

  /** `is_logically_equivalent`: the two truth tables are `==`; an exception
      raised while building the first table, then the second, propagates. */
  ghost function IsLogicallyEquivalent(e1: Expr, e2: Expr): Result<bool>
  {
    var t1 := TruthTable(e1);
    if t1.Err? then Err(t1.error)
    else
      var t2 := TruthTable(e2);
      if t2.Err? then Err(t2.error) else Ok(DictEq(t1.value, t2.value))
  }

  /** Every table is `==` to itself. */
  lemma DictEqReflexive(t: map<seq<bool>, Expr>)
    ensures DictEq(t, t)
  {
    forall row | row in t
      ensures PyEq(t[row], t[row])
    {
      PyEqReflexive(t[row]);
    }
  }

  /** The table is built exactly when `eval` succeeds on every row, and
      otherwise fails with the exception of the first failing row. */
  lemma TableError(e: Expr, names: seq<string>)
    ensures Table(e, names).Ok? <==> forall i :: 0 <= i < |Product(|names|)| ==> RowValue(e, names, i).Ok?
    ensures Table(e, names).Err? ==>
      exists i :: 0 <= i < |Product(|names|)| && RowValue(e, names, i) == Err(Table(e, names).error) &&
        forall j :: 0 <= j < i ==> RowValue(e, names, j).Ok?
  {
    TableOk(e, names);
    TableFirstError(e, names);
  }

  /** The table is built exactly when every row evaluates. */
  lemma TableOk(e: Expr, names: seq<string>)
    ensures Table(e, names).Ok? <==> forall i :: 0 <= i < |Product(|names|)| ==> RowValue(e, names, i).Ok?
  {
    var vals := RowValues(e, names);
    CollectOk(Product(|names|), vals);
    assert forall i :: 0 <= i < |vals| ==> vals[i] == RowValue(e, names, i);
  }

  /** A failed table carries the exception of its first failing row. */
  lemma TableFirstError(e: Expr, names: seq<string>)
    ensures Table(e, names).Err? ==>
      exists i :: 0 <= i < |Product(|names|)| && RowValue(e, names, i) == Err(Table(e, names).error) &&
        forall j :: 0 <= j < i ==> RowValue(e, names, j).Ok?
  {
    var vals := RowValues(e, names);
    CollectErr(Product(|names|), vals);
    assert forall i :: 0 <= i < |vals| ==> vals[i] == RowValue(e, names, i);
  }

  /** A table over n columns is keyed by exactly the 2^n tuples of length n. */
  lemma TableKeys(e: Expr, names: seq<string>)
    ensures Table(e, names).Ok? ==>
      (forall row: seq<bool> :: row in Table(e, names).value <==> |row| == |names|) &&
      |Table(e, names).value.Keys| == Pow2(|names|)
  {
    if Table(e, names).Ok? {
      CollectKeys(Product(|names|), RowValues(e, names));
      ProductKeySet(|names|, Table(e, names).value.Keys);
    }
  }

  /** The truth table has 2^n entries, keyed by exactly the tuples of length n,
      where n is the number of free variables. */
  lemma TruthTableKeys(e: Expr)
    ensures TruthTable(e).Ok? ==>
      (forall row: seq<bool> :: row in TruthTable(e).value <==> |row| == |FreeVars(e)|) &&
      |TruthTable(e).value.Keys| == Pow2(|FreeVars(e)|)
  {
    TableKeys(e, SortedNames(FreeVars(e)));
  }

  /** On a boolean formula the table over its free variables is built, and
      each entry is the formula's truth value under the row's assignment. */
  lemma TableEntry(e: Expr, names: seq<string>, row: seq<bool>)
    requires Boolean(e) && FreeVars(e) <= set x | x in names
    requires |row| == |names|
    ensures Table(e, names).Ok?
    ensures row in Table(e, names).value
    ensures Table(e, names).value[row] == Lit(Holds(e, Zip(names, row)))
  {
    var rows, vals := Product(|names|), RowValues(e, names);
    forall i | 0 <= i < |rows|
      ensures vals[i].Ok?
    {
      BooleanRowValue(e, names, i);
    }
    ProductComplete(|names|, row);
    var k :| 0 <= k < |rows| && rows[k] == row;
    ProductTable(|names|, vals, k);
    BooleanRowValue(e, names, k);
  }

  /** On a boolean formula `eval` gives each row's truth value. */
  lemma BooleanRowValue(e: Expr, names: seq<string>, i: nat)
    requires Boolean(e) && FreeVars(e) <= set x | x in names
    requires i < |Product(|names|)|
    ensures RowValue(e, names, i) == Ok(Lit(Holds(e, Zip(names, Product(|names|)[i]))))
  {
    EvalBoolean(e, Zip(names, Product(|names|)[i]), ChainLimit);
  }

  /** On a boolean formula the truth table is built, and each entry is the
      formula's truth value under the row read in sorted-name order. */
  lemma TruthTableEntry(e: Expr, row: seq<bool>)
    requires Boolean(e)
    requires |row| == |FreeVars(e)|
    ensures TruthTable(e).Ok? && row in TruthTable(e).value
    ensures TruthTable(e).value[row] == Lit(Holds(e, Zip(SortedNames(FreeVars(e)), row)))
  {
    TableEntry(e, SortedNames(FreeVars(e)), row);
  }

  /** Two boolean formulas over the same variables that hold under the same
      assignments are logically equivalent. */
  lemma EquivalentWhenSameMeaning(e1: Expr, e2: Expr)
    requires Boolean(e1) && Boolean(e2)
    requires FreeVars(e1) == FreeVars(e2)
    requires forall env :: Holds(e1, env) == Holds(e2, env)
    ensures IsLogicallyEquivalent(e1, e2) == Ok(true)
  {
    var names := SortedNames(FreeVars(e1));
    SameMeaningSameTable(e1, e2, names);
    DictEqReflexive(Table(e1, names).value);
  }

  /** Conversely, two boolean formulas over the same variables whose tables
      are `==` hold under the same assignments. */
  lemma SameTableSameMeaning(e1: Expr, e2: Expr)
    requires Boolean(e1) && Boolean(e2)
    requires FreeVars(e1) == FreeVars(e2)
    requires IsLogicallyEquivalent(e1, e2) == Ok(true)
    ensures forall env :: Holds(e1, env) == Holds(e2, env)
  {
    var names := SortedNames(FreeVars(e1));
    SortedDistinct(names);
    assert DictEq(TruthTable(e1).value, TruthTable(e2).value);
    forall env
      ensures Holds(e1, env) == Holds(e2, env)
    {
      var row := RowOf(names, env);
      RowOfAgrees(names, env);
      SameRowSameTruth(e1, e2, row);
      HoldsAgree(e1, Zip(names, row), env);
      HoldsAgree(e2, Zip(names, row), env);
    }
  }

  /** Tables that are `==` give two boolean formulas over the same variables
      the same truth value on every row. */
  lemma SameRowSameTruth(e1: Expr, e2: Expr, row: seq<bool>)
    requires Boolean(e1) && Boolean(e2)
    requires FreeVars(e1) == FreeVars(e2) && |row| == |FreeVars(e1)|
    requires TruthTable(e1).Ok? && TruthTable(e2).Ok?
    requires DictEq(TruthTable(e1).value, TruthTable(e2).value)
    ensures var z := Zip(SortedNames(FreeVars(e1)), row); Holds(e1, z) == Holds(e2, z)
  {
    TruthTableEntry(e1, row);
    TruthTableEntry(e2, row);
    var z := Zip(SortedNames(FreeVars(e1)), row);
    assert PyEq(Lit(Holds(e1, z)), Lit(Holds(e2, z)));
  }

  /** The row of truth values an assignment gives the names, in order. */
  function RowOf(names: seq<string>, env: map<string, bool>): (row: seq<bool>)
    ensures |row| == |names|
  {
    seq(|names|, i requires 0 <= i < |names| => names[i] in env && env[names[i]])
  }

  /** Over distinct names, the row's assignment agrees with the assignment it was read from. */
  lemma RowOfAgrees(names: seq<string>, env: map<string, bool>)
    requires Distinct(names)
    ensures Agree((set n | n in names), Zip(names, RowOf(names, env)), env)
  {
    var row := RowOf(names, env);
    forall n | n in names
      ensures (n in Zip(names, row) && Zip(names, row)[n]) == (n in env && env[n])
    {
      var i :| 0 <= i < |names| && names[i] == n;
      ZipAt(names, row, i);
    }
  }

  /** Two boolean formulas with the same meaning have the same table over
      any columns that cover their free variables. */
  lemma SameMeaningSameTable(e1: Expr, e2: Expr, names: seq<string>)
    requires Boolean(e1) && Boolean(e2)
    requires FreeVars(e1) <= set x | x in names
    requires FreeVars(e2) <= set x | x in names
    requires forall env :: Holds(e1, env) == Holds(e2, env)
    ensures Table(e1, names).Ok? && Table(e1, names) == Table(e2, names)
  {
    var row := seq(|names|, _ => true);
    TableEntry(e1, names, row);
    TableEntry(e2, names, row);
    var t1, t2 := Table(e1, names).value, Table(e2, names).value;
    TableKeys(e1, names);
    TableKeys(e2, names);
    forall row | row in t1
      ensures t1[row] == t2[row]
    {
      TableEntry(e1, names, row);
      TableEntry(e2, names, row);
    }
    SameEntriesSameMap(t1, t2);
  }

  /** Since keys do not carry names, two different variables count as
      equivalent: `is_logically_equivalent(a, b)` holds. */
  lemma DistinctVariablesAreEquivalent()
    ensures IsLogicallyEquivalent(Var("a"), Var("b")) == Ok(true)
  {
    var a, b := Var("a"), Var("b");
    assert SortedNames({"a"}) == ["a"];
    assert SortedNames({"b"}) == ["b"];
    TableEntry(a, ["a"], [true]);
    TableEntry(b, ["b"], [true]);
    var ta, tb := Table(a, ["a"]).value, Table(b, ["b"]).value;
    TableKeys(a, ["a"]);
    TableKeys(b, ["b"]);
    forall row | row in ta
      ensures ta[row] == tb[row]
    {
      TableEntry(a, ["a"], row);
      TableEntry(b, ["b"], row);
      assert Zip(["a"], row)["a"] == row[0];
      assert Zip(["b"], row)["b"] == row[0];
    }
    SameEntriesSameMap(ta, tb);
    DictEqReflexive(ta);
  }

  /** Since a bool entry equals an int entry, `is_logically_equivalent(1, True)`
      and `is_logically_equivalent(Eq(1, 1), 1)` hold, while `2` is not
      equivalent to `True`: each table has the single row `()`. */
  lemma BoolIntEquivalence()
    ensures IsLogicallyEquivalent(Num(1), Lit(true)) == Ok(true)
    ensures IsLogicallyEquivalent(Rel(Eq, Num(1), Num(1)), Num(1)) == Ok(true)
    ensures IsLogicallyEquivalent(Num(2), Lit(true)) == Ok(false)
  {
    ClosedTable(Num(1));
    ClosedTable(Num(2));
    ClosedTable(Lit(true));
    ClosedTable(Rel(Eq, Num(1), Num(1)));
    var unit: seq<bool> := [];
    assert TruthTable(Num(2)).value[unit] == Num(2);
    assert TruthTable(Lit(true)).value[unit] == Lit(true);
  }

  /** A value without free variables (a plain bool or int, or a closed
      node) has the single row `()` of `EmptyAssignment`, holding what
      `eval` returns in an empty namespace. */
  lemma ClosedTable(e: Expr)
    requires FreeVars(e) == {}
    ensures var v := Eval(e, map[], ChainLimit);
      TruthTable(e) == if v.Ok? then Ok(map[[] := v.value]) else Err(v.error)
  {
    var v := Eval(e, map[], ChainLimit);
    assert SortedNames({}) == [];
    var rows, vals := Product(0), RowValues(e, []);
    assert rows == [[]];
    assert RowNamespace([], []) == map[];
    assert vals == [v];
    assert Collect(rows[..0], vals[..0]) == Ok(map[]);
    assert TruthTable(e) == Collect(rows, vals);
  }

  lemma SameEntriesSameMap<K, V>(m1: map<K, V>, m2: map<K, V>)
    requires m1.Keys == m2.Keys
    requires forall k | k in m1 :: m1[k] == m2[k]
    ensures m1 == m2
  {
  }

  /** A formula and its negation have the same keys and opposite entries. */
  lemma NegationFlipsTable(e: Expr, row: seq<bool>)
    requires Boolean(e) && |row| == |FreeVars(e)|
    ensures TruthTable(e).Ok? && TruthTable(Not(e)).Ok?
    ensures row in TruthTable(e).value && row in TruthTable(Not(e)).value
    ensures TruthTable(e).value[row].Lit?
    ensures TruthTable(Not(e)).value[row] == Lit(!TruthTable(e).value[row].value)
  {
    var ne := Not(e);
    assert FreeVars(ne) == FreeVars(e);
    TruthTableEntry(e, row);
    TruthTableEntry(ne, row);
  }

  /** No boolean formula is logically equivalent to its own negation: on
      any row the two tables hold complementary bools. */
  lemma NegationNotEquivalent(e: Expr)
    requires Boolean(e)
    ensures IsLogicallyEquivalent(e, Not(e)) == Ok(false)
  {
    var row := seq(|FreeVars(e)|, _ => true);
    NegationFlipsTable(e, row);
    DictDiffers(TruthTable(e).value, TruthTable(Not(e)).value, row);
  }

  /** Tables with complementary bools in some row are not `==`. */
  lemma DictDiffers(t1: map<seq<bool>, Expr>, t2: map<seq<bool>, Expr>, row: seq<bool>)
    requires row in t1 && row in t2 && t1[row].Lit?
    requires t2[row] == Lit(!t1[row].value)
    ensures !DictEq(t1, t2)
  {
    assert !PyEq(t1[row], t2[row]);
  }

  /** `Not(1)` has no free variables, so its table has the single row `()`,
      on which `Not.eval` raises `TypeError`; the comparison raises it too. */
  lemma NegatedIntTableRaises()
    ensures TruthTable(Not(Num(1))) == Err(TypeError)
    ensures IsLogicallyEquivalent(Not(Num(1)), Not(Num(1))) == Err(TypeError)
  {
    var e := Not(Num(1));
    var names := SortedNames(FreeVars(e));
    assert names == [];
    var rows := Product(0);
    assert rows == [[]];
    assert RowValues(e, names) == [Err(TypeError)];
    assert Collect(rows, [Err(TypeError)]) == Err(TypeError) by {
      assert rows[..0] == [];
    }
  }
}
