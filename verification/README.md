# pyreasoner boolean expressions in Dafny

pyreasoner builds boolean formulas out of Python operator overloads: `Var`
nodes, `Or`, `And` and `Not` nodes with their children, and the relational
nodes `LessThan`, `GreaterThan` and `Eq`. Bools and ints can be mixed in as
leaves. On these trees the library offers the following operations:

- `reify`: substitute a namespace for the variables.
- `eval`: evaluate under a namespace, following chained bindings.
- `get_free_variables`.
- The truth table of a formula (`get_truth_table`) and logical equivalence
  (`is_logically_equivalent`).
- Conversion to conjunctive normal form (`convert_to_conjunctive_normal_form`).
- `solve_SAT` and `is_satisfiable`. They encode the normal form as signed
  integer clauses for the pycosat SAT solver and decode its answers back into
  assignments.

An older copy of the same API lives in `pyreasoner/expressions/__init__.py`.
It has a recursive `reify`, no reflected operators, a weaker double-negation
rule and a different `is_logically_equivalent`. It is modelled separately. The
module also models the `Infinity` and `NegativeInfinity` sentinels of
`pyreasoner/sets.py`.

Layout, one Dafny module per concern:

| file | modules | models |
|---|---|---|
| `tree.dfy` | `ExprTree` | the expression tree, free variables, the truth value of a boolean formula (`Holds`), the normal-form shape predicates |
| `names.dfy` | `Names` | sorted variable names, `itertools.product` over `[True, False]`, zipping names with a row |
| `combinators.dfy` | `Combinators` | `l \| r` and `l & r` with their splicing of `Or`/`And` operands |
| `substitution.dfy` | `Substitution`, `SubstitutionFacts` | `reify`, `eval` |
| `truthtable.dfy` | `TruthTables` | `get_truth_table`, `is_logically_equivalent` |
| `normalize.dfy` | `Normalize` | `distribute_inwards`, `recursive_collapse`, the conversion to normal form and its termination measure |
| `normalize_facts.dfy` | `NormalizeFacts` | what the conversion preserves |
| `normalize_examples.dfy` | `NormalizeExamples` | the conversions the test suite names |
| `encoding.dfy` | `Encoding` | `solve_SAT`, `is_satisfiable` |
| `snapshot.dfy`, `snapshot_normalize.dfy` | `SnapshotEval`, `SnapshotNormalize` | the older `pyreasoner/expressions/__init__.py` |
| `sentinels.dfy` | `Sentinels` | `Infinity`, `NegativeInfinity` |

Python values are trees too:

- `Lit(b)` is a Python bool and `Num(n)` a Python int.
- A namespace is a `map<string, Expr>` keyed by variable name.
- Except for the cases listed under "Left out", every Python exception the
  core can raise becomes an `Error` value inside a `Result`: `TypeError`,
  `KeyError`, a failed `assert` (`AssertionFailure`) and exhausted recursion
  (`RecursionLimit`). A construct outside the model gives `Unsupported`.
- Table entries are compared with Python's `==` (`TruthTables.PyEq`), under
  which a bool equals the int it stands for (`True == 1`).

The model follows the code wherever the code and its documentation differ:

- In `pyreasoner/expressions.py`, the truth table is keyed by a namedtuple.
  Namedtuples compare like plain tuples, so `is_logically_equivalent(a, b)`
  holds for two distinct variables. `TruthTables.DistinctVariablesAreEquivalent`
  proves this. For the same reason, and because `True == 1`,
  `is_logically_equivalent(1, True)` holds (`TruthTables.BoolIntEquivalence`).
- The snapshot's `is_logically_equivalent` compares free-variable sets only.

## Model

| member | source | states |
|---|---|---|
| ExprTree.BoolNamespace | pyreasoner/expressions.py:371-376 | an assignment seen as a namespace binds exactly its names, each to a Python bool |
| ExprTree.FreeVarsOfMember | pyreasoner/expressions.py:200-203 | a name is free in a list of children exactly when it is free in one of them |
| ExprTree.FreeVarsOfConcat | pyreasoner/expressions.py:200-203 | the union of the children's free variables splits over concatenation |
| ExprTree.OrHoldsAt | pyreasoner/expressions.py:226-228 | a disjunction (fold of `or` from `False`) holds exactly when some child holds |
| ExprTree.AndHoldsAt | pyreasoner/expressions.py:259-261 | a conjunction (fold of `and` from `True`) holds exactly when every child holds |
| Combinators.OrJoin | pyreasoner/expressions.py:235-242 | `l \| r` with a node on either side is an `Or`; its free variables are the union and its truth value the disjunction of the operands' |
| Combinators.AndJoin | pyreasoner/expressions.py:268-275 | `l & r` with a node on either side is an `And`; its free variables are the union and its truth value the conjunction of the operands' |
| Combinators.SplicingCases | pyreasoner/tests/test_expressions.py:70-83 | the exact trees the operator tests expect: `Or(a, b) \| Or(c, d)` is `Or(a, b, c, d)`, `And(a, b) \| And(c, d)` is `Or(a & b, c & d)`, `True & (a & b)` is `And(True, a, b)`, `True \| (a \| b)` is `Or(True, a, b)`, and the two-operand cases |
| Names.LessIrreflexive | pyreasoner/expressions.py:115 | the name order used to sort the assignment's fields is irreflexive |
| Names.LessTransitive | pyreasoner/expressions.py:115 | the name order is transitive |
| Names.SortedDistinct | pyreasoner/expressions.py:115 | the sorted field names of an assignment class are distinct |
| Names.LessTotal | pyreasoner/expressions.py:115 | the name order is total |
| Names.SortedNames | pyreasoner/expressions.py:115 | the sorted field names are strictly increasing, hold exactly the free variables, and one of each |
| Names.SortedUnique | pyreasoner/expressions.py:115 | only one strictly sorted list has given members, so the field order is determined by the set |
| Names.Product | pyreasoner/expressions.py:372-374 | `product([True, False], repeat=n)` has 2^n rows, each of length n |
| Names.ProductAt | pyreasoner/expressions.py:372-374 | the first half of the rows starts with `True` and the second half with `False`, each followed by the rows for n - 1 in order |
| Names.ProductComplete | pyreasoner/expressions.py:372-374 | every tuple of n bools is a row |
| Names.ProductDistinct | pyreasoner/expressions.py:372-374 | no row appears twice |
| Names.ProductKeySet | pyreasoner/expressions.py:372-377 | a dictionary keyed by the rows of the product holds exactly the tuples of length n, 2^n of them |
| Names.Zip | pyreasoner/expressions.py:376 | the assignment built from a row binds exactly the field names |
| Names.ZipAt | pyreasoner/expressions.py:376 | with distinct names, each name is bound to the value in its column |
| Substitution.ReifyUnbound | pyreasoner/expressions.py:144-162 | `reify` leaves a formula unchanged when no free variable is bound |
| Substitution.ReifyEmpty | pyreasoner/tests/test_expressions.py:245-246 | `reify` with an empty namespace is the identity |
| Substitution.ReifyRenameRoundTrip | pyreasoner/tests/test_expressions.py:248-257 | renaming the variables and renaming them back restores the formula |
| Substitution.NotValue | pyreasoner/expressions.py:286-292 | `Not.eval` turns a bool `b` into `not b` and a node `v` into `Not(v)`, both with the complemented truth value and the same free variables; it raises `TypeError`, and only for an int |
| Substitution.FoldOr | pyreasoner/expressions.py:216-218 | folding `\|` over bools from a bool gives their disjunction |
| Substitution.FoldAnd | pyreasoner/expressions.py:216-218 | folding `&` over bools from a bool gives their conjunction |
| Substitution.Compare | pyreasoner/expressions.py:331-343 | the comparison succeeds exactly on two ints and gives a bool; operands other than ints are outside the model |
| SubstitutionFacts.ReifyAndEvalCases | pyreasoner/tests/test_expressions.py:214-240 | `a.reify(a=6)` is `6`, `(a \| c).reify(c=a)` is `a \| a` and `(a & c).reify({c: a})` is `a & a`; `reify` neither simplifies (`(a \| True).reify(a=False)` is `Or(False, True)`) nor chases `a -> b -> c`; `eval` chases `a -> b -> 1`, gives `False` for `Or()` and `True` for `And()`, and keeps `~a` when `a` is unbound |
| SubstitutionFacts.EvalBoolean | pyreasoner/expressions.py:164-220 | evaluating a boolean formula under a bool assignment to its free variables gives its truth value |
| SubstitutionFacts.EvalAllBoolean | pyreasoner/expressions.py:216 | the children of such a formula all evaluate, each to its truth value |
| SubstitutionFacts.ReifyGround | pyreasoner/expressions.py:144-210 | reifying with a full bool assignment leaves a boolean formula without free variables and with the same truth value |
| SubstitutionFacts.ReifyThenEval | pyreasoner/tests/test_expressions.py:200-212 | evaluating the reified formula under no names equals evaluating the formula under the assignment |
| SubstitutionFacts.EvalComparison | pyreasoner/expressions.py:186-190 | for all operands that evaluate to ints, a `LessThan`, `GreaterThan` or `Eq` node evaluates to their comparison, and `v > x`, built by `Var.__gt__` as `LessThan(x, v)`, evaluates like `GreaterThan(v, x)` |
| SubstitutionFacts.RelationalCases | pyreasoner/tests/test_expressions.py:323-334 | `Eq(5, 6)` is false, `Eq(a, 5).reify({'a': 5})` is `Eq(5, 5)`, `Eq(5, 5)` and `LessThan(5, 6)` are true, `a < 5` is true for `a = 4` and false for `a = 6`, and `4 < a` is true for `a = 5` |
| TruthTables.CollectOk | pyreasoner/expressions.py:375-377 | the dict comprehension builds its dictionary exactly when every row's value is computed |
| TruthTables.CollectKeys | pyreasoner/expressions.py:375-377 | a built dictionary is keyed by exactly the rows |
| TruthTables.CollectErr | pyreasoner/expressions.py:375-377 | a failing comprehension raises the exception of its first failing row, every earlier row having succeeded |
| TruthTables.CollectAt | pyreasoner/expressions.py:375-377 | over distinct rows each row is mapped to its own value |
| TruthTables.ProductTable | pyreasoner/expressions.py:372-377 | when every row evaluates, the table is keyed by exactly the 2^n tuples of length n, each mapped to its own value |
| TruthTables.TableError | pyreasoner/expressions.py:363-377 | `get_truth_table` returns a table exactly when `eval` succeeds on every row of the product, and otherwise raises the exception of the first failing row in product order |
| TruthTables.TableKeys | pyreasoner/expressions.py:363-377 | a table over n columns, when built, is keyed by exactly the tuples of length n, 2^n of them |
| TruthTables.TruthTableKeys | pyreasoner/tests/test_expressions.py:200-206 | the truth table, when built, has 2^n entries keyed by the tuples of length n, where n is the number of free variables |
| TruthTables.BooleanRowValue | pyreasoner/expressions.py:375-377 | on a boolean formula `eval` gives each row its truth value under the row's assignment |
| TruthTables.TableEntry | pyreasoner/expressions.py:375-377 | the table of a boolean formula is built, and each entry is the formula's truth value under the row's assignment |
| TruthTables.TruthTableEntry | pyreasoner/expressions.py:363-377 | the truth table of a boolean formula is built, and each entry is its truth value under the row read in sorted-name order |
| TruthTables.EquivalentWhenSameMeaning | pyreasoner/expressions.py:380-381 | boolean formulas with the same free variables and the same truth value everywhere are logically equivalent (`Ok(true)`) |
| TruthTables.PyEqReflexive | pyreasoner/expressions.py:192-223 | every value is `==` to itself, through `Var.__eq__` and `Operation.__eq__` |
| TruthTables.PyEqOnBoolean | pyreasoner/expressions.py:192-223 | between boolean formulas, which hold no ints, `==` is exactly structural equality |
| TruthTables.SameTableSameMeaning | pyreasoner/expressions.py:380-381 | conversely, boolean formulas with the same free variables that are logically equivalent (`Ok(true)`) hold under exactly the same assignments |
| TruthTables.DictEqReflexive | pyreasoner/expressions.py:381 | a table compares `==` to itself |
| TruthTables.ClosedTable | pyreasoner/expressions.py:353-377 | a value without free variables has the one-row table `{(): v}` for the value `v` that `eval` returns in an empty namespace, or raises what `eval` raises |
| TruthTables.BoolIntEquivalence | pyreasoner/expressions.py:380-381 | `is_logically_equivalent(1, True)` and `is_logically_equivalent(Eq(1, 1), 1)` return true, `is_logically_equivalent(2, True)` returns false |
| TruthTables.SameMeaningSameTable | pyreasoner/expressions.py:375-377 | such formulas have the same, successfully built, table over any columns covering their variables |
| TruthTables.DistinctVariablesAreEquivalent | pyreasoner/expressions.py:380-381 | `a` and `b` have equal truth tables, so `is_logically_equivalent(a, b)` returns true |
| TruthTables.NegationFlipsTable | pyreasoner/tests/test_expressions.py:173-184 | both tables are built and the table of `Not(e)` complements every entry of the table of `e` |
| TruthTables.NegationNotEquivalent | pyreasoner/expressions.py:380-381 | no boolean formula is logically equivalent to its own negation (`Ok(false)`) |
| TruthTables.NegatedIntTableRaises | pyreasoner/expressions.py:286-292 | the truth table of `Not(1)` raises `TypeError` from `Not.eval`, and so does `is_logically_equivalent(Not(1), Not(1))` |
| Normalize.DistributeNotSize | pyreasoner/expressions.py:301-318 | pushing a negation in at most doubles the size of the tree |
| Normalize.DistributeNotFixed | pyreasoner/expressions.py:317-318 | `distribute_inwards` returns the node itself exactly for a negated variable, int or relational node |
| Normalize.DistributeNotResidue | pyreasoner/expressions.py:305-310 | any negation left at the top after pushing in is of a variable, int or relational node, because the double-negation rule recurses |
| Normalize.DistributeNotWeight | pyreasoner/expressions.py:301-318 | the weight of the pushed formula is that of the child with its polarity flipped |
| Normalize.RecursiveCollapse | pyreasoner/expressions.py:244-256 | the loop builds the collapsed list: each negation pushed in, each nested disjunction spliced |
| Normalize.FirstAnd | pyreasoner/expressions.py:74-75 | the index of the first conjunction among the disjuncts, or none when there is none |
| Normalize.DistributeOver | pyreasoner/expressions.py:76-78 | each conjunct `d` becomes `d \| Or(others)` |
| Normalize.CollapsedWeight | pyreasoner/expressions.py:244-256 | collapsing keeps the product of the disjuncts' weights |
| Normalize.DistributionWeight | pyreasoner/expressions.py:74-78 | distributing the first conjunction does not increase the weight, so the recursion on line 77 is well founded |
| Normalize.AndWeight | pyreasoner/expressions.py:83-87 | the prefix and the last child of a conjunction weigh strictly less than it |
| Normalize.Conv | pyreasoner/expressions.py:58-89 | the recursive conversion terminates; converting a conjunction returns a conjunction |
| Normalize.Convert | pyreasoner/expressions.py:92-94 | the result is always an `And`, and the conversion fails exactly when the inner conversion fails |
| Normalize.ConvOrStep | pyreasoner/expressions.py:70-79 | a successful conversion of a disjunction that still has a conjunction after collapsing is the conversion of the distribution over its first conjunction |
| Normalize.ConvAndStep | pyreasoner/expressions.py:83-87 | a conjunction converts to its converted prefix `&` its converted last child, failing with the first failure |
| Normalize.ConvNormalForm | pyreasoner/tests/test_expressions.py:127-133 | every result of the conversion is in conjunctive normal form |
| Normalize.JoinedClauses | pyreasoner/expressions.py:268-272 | a conjunction of clauses `&` a normal form is a conjunction of clauses |
| Normalize.ConvertNormalForm | pyreasoner/expressions.py:92-94 | every successful conversion is an `And` in conjunctive normal form |
| NormalizeFacts.DistributeNotMeaning | pyreasoner/tests/test_expressions.py:91-95 | pushing a negation into a boolean formula keeps it boolean and complements its truth value |
| NormalizeFacts.DistributeNotFreeVars | pyreasoner/expressions.py:301-318 | pushing a negation in keeps the free variables |
| NormalizeFacts.CollapsedMeaning | pyreasoner/expressions.py:244-256 | collapsing keeps the disjunction's truth value and the children boolean |
| NormalizeFacts.CollapsedFreeVars | pyreasoner/expressions.py:244-256 | collapsing keeps the free variables |
| NormalizeFacts.CollapsedFlat | pyreasoner/expressions.py:244-256 | no collapsed child is a disjunction or a negation that could still be pushed in |
| NormalizeFacts.DistributeOverMeaning | pyreasoner/expressions.py:76-78 | the distributed conjunction holds exactly when the conjunction or the other disjuncts hold |
| NormalizeFacts.DistributeOverFreeVars | pyreasoner/expressions.py:76-78 | distributing a non-empty conjunction keeps the free variables |
| NormalizeFacts.CollapsedBooleanWithoutAnd | pyreasoner/expressions.py:81-82 | on a boolean formula, a collapsed disjunction with no conjunction is a disjunction of atoms, so the `assert False` is unreachable |
| NormalizeFacts.ConvMeaning | pyreasoner/expressions.py:58-89 | the conversion of a boolean formula succeeds and gives a boolean formula with the same truth value everywhere |
| NormalizeFacts.NonEmptyOpsNoVacuous | pyreasoner/expressions.py:200-203 | a formula whose `Or`/`And` nodes all have children meets the side condition under which conversion keeps free variables |
| NormalizeFacts.ConvFreeVars | pyreasoner/expressions.py:58-89 | on such formulas a successful conversion keeps the free variables |
| NormalizeFacts.ConvertPreserves | pyreasoner/expressions.py:92-94 | converting a boolean formula succeeds, keeps its free variables and its truth value under every assignment |
| NormalizeFacts.ConvertEquivalent | pyreasoner/tests/test_expressions.py:99-116 | the conversion is an `And` in normal form that is logically equivalent to the input |
| NormalizeFacts.DistributeNotEquivalent | pyreasoner/tests/test_expressions.py:91-95 | `Not(e)` and `Not(e).distribute_inwards()` are logically equivalent |
| NormalizeFacts.ConvKeepsNormalForm | pyreasoner/expressions.py:66-67 | a formula already in normal form converts to itself |
| NormalizeFacts.ConvClauses | pyreasoner/expressions.py:83-87 | a conjunction of clauses is folded back into itself |
| NormalizeExamples.DistributeNotCases | pyreasoner/tests/test_expressions.py:85-89 | `Not(False)` becomes `True`, De Morgan in both directions, `~~a` becomes `a` |
| NormalizeExamples.NormalFormCases | pyreasoner/tests/test_expressions.py:117-125 | the listed trees are, or are not, in conjunctive normal form |
| NormalizeExamples.EmptyOperations | pyreasoner/tests/test_expressions.py:135-137 | `Or()` converts to `And(Or())` and `And()` to `And()` |
| NormalizeExamples.ConjunctionOfAtoms | pyreasoner/tests/test_expressions.py:27-32 | `~a & (b \| c)`, already in normal form, converts to itself |
| NormalizeExamples.NegatedDisjunction | pyreasoner/tests/test_expressions.py:34 | `~(b \| c)` converts to `~b & ~c` |
| NormalizeExamples.DistributedDisjunction | pyreasoner/tests/test_expressions.py:35 | `(a & b) \| c` converts to `(a \| c) & (b \| c)` |
| NormalizeExamples.DistributedConjunct | pyreasoner/tests/test_expressions.py:36 | `a & (b \| (d & e))` converts to `a & (d \| b) & (e \| b)`, equivalent to the listed solution |
| NormalizeExamples.DoubleNegationDisjunct | pyreasoner/tests/test_expressions.py:127-133 | `a \| ~~a` converts to `And(a \| a)` |
| NormalizeExamples.NegatedIntRecursesForever | pyreasoner/expressions.py:68-69 | `Not(1)` cannot be pushed in, and the conversion recurses on it until the recursion limit |
| NormalizeExamples.IntDisjunctReachesAssertion | pyreasoner/expressions.py:81-82 | a disjunction of an int and a variable reaches the `assert False` |
| Encoding.Anchored | pyreasoner/expressions.py:399-400 | `expr & T` appends the anchor clause; it adds `TRUE_` to the free variables and holds exactly when the formula and the anchor hold |
| Encoding.Index | pyreasoner/expressions.py:405 | the i-th variable gets index i + 1, and every index names its variable |
| Encoding.EncodeClauses | pyreasoner/expressions.py:421-426 | the constraints have one clause per child, and they exist exactly when every child encodes |
| Encoding.Decoded | pyreasoner/expressions.py:431-443 | decoding an answer fails with the assertion exactly when the anchor is false |
| Encoding.DecodeModel | pyreasoner/expressions.py:431-443 | the decoding loop computes the decoding of the answer |
| Encoding.DecodePrefixAt | pyreasoner/expressions.py:431-443 | after i positions the namespace binds the non-anchor names seen so far, each to the sign of its literal |
| Encoding.LiteralMeaning | pyreasoner/expressions.py:407-419 | an atom's signed index is among the answer's literals exactly when the atom holds under the decoded assignment |
| Encoding.ClauseMeaning | pyreasoner/expressions.py:421-424 | a clause has a true literal exactly when the disjunction holds |
| Encoding.ClausesMeaning | pyreasoner/expressions.py:421-426 | the answer satisfies every clause exactly when the conjunction holds |
| Encoding.EncodingCorrect | pyreasoner/expressions.py:392-443 | an answer satisfies the clauses of a normal form exactly when it decodes and the formula holds under the decoded assignment |
| Encoding.FalseAnchorFails | pyreasoner/expressions.py:399-400 | an answer with a false anchor violates the anchor's unit clause |
| Encoding.ModelOfDecodes | pyreasoner/expressions.py:431-443 | the answer built from an assignment decodes back to that assignment |
| Encoding.DecodeThenModel | pyreasoner/expressions.py:431-443 | an answer with a true anchor is rebuilt from its decoding |
| Encoding.AnswersAreSatisfyingAssignments | pyreasoner/expressions.py:384-443 | on a solvable formula, an answer satisfies the constraints exactly when it decodes to an assignment of its free variables that makes it true |
| Encoding.SatisfyingAssignmentsAreAnswers | pyreasoner/tests/test_expressions.py:317-320 | every assignment that makes a solvable formula true is the decoding of an answer that satisfies the constraints |
| Encoding.SolveSat | pyreasoner/expressions.py:384-443 | a conversion error propagates; otherwise each answer is decoded in order; on a solvable formula every result names its free variables and makes it true |
| Encoding.DecodeAll | pyreasoner/expressions.py:431-443 | the answers are decoded in order, and the loop fails with the assertion exactly when some answer has a false anchor |
| Encoding.SolvableAnswers | pyreasoner/expressions.py:386-391 | for a formula without `TRUE_`, every answer decodes to a satisfying assignment of its free variables |
| Encoding.IsSatisfiable | pyreasoner/expressions.py:446-450 | on a solvable formula the result is whether some assignment makes it true |
| Encoding.LiteralFormulas | pyreasoner/tests/test_expressions.py:308-313 | `True` encodes to `[[1], [1]]`, whose answer decodes to the empty assignment; `False` encodes to `[[-1], [1]]`, which has no model |
| SnapshotEval.SnapReifyResolves | pyreasoner/expressions/__init__.py:116-126 | after the snapshot's recursive `reify`, every free variable left is unbound or bound to itself |
| SnapshotEval.SnapReifyTerminal | pyreasoner/expressions/__init__.py:116-126 | when no binding is itself a node, the snapshot's `reify` agrees with the single-step `reify` |
| SnapshotEval.SnapReifyCycle | pyreasoner/expressions/__init__.py:124 | `x.reify({x: y, y: x})` recurses until the recursion limit |
| SnapshotEval.ChainedReify | pyreasoner/expressions/__init__.py:116-126 | the snapshot follows `a -> b -> c` to `c`, where pyreasoner/expressions.py stops at `b` |
| SnapshotEval.SnapOrJoin | pyreasoner/expressions/__init__.py:98-99 | `l \| r` with a plain value on the left and a node on the right is a `TypeError`; otherwise it agrees with the main version |
| SnapshotEval.SnapAndJoin | pyreasoner/expressions/__init__.py:101-102 | `l & r` with a plain value on the left and a node on the right is a `TypeError`; otherwise it agrees with the main version |
| SnapshotEval.SnapFoldOr | pyreasoner/expressions/__init__.py:164-168 | folding `\|` over bools gives their disjunction |
| SnapshotEval.SnapFoldAnd | pyreasoner/expressions/__init__.py:164-168 | folding `&` over bools gives their conjunction |
| SnapshotEval.SnapEvalBoolean | pyreasoner/expressions/__init__.py:128-230 | evaluating a boolean formula under a bool assignment gives its truth value |
| SnapshotEval.EvalDifferences | pyreasoner/expressions/__init__.py:164-168 | both versions chase `a -> b -> 1`; `Or(a)` under no names is a `TypeError` here and `Or(False, a)` in pyreasoner/expressions.py |
| SnapshotEval.SnapBooleanRowValue | pyreasoner/expressions/__init__.py:274-277 | on a boolean formula the snapshot's `eval` gives each row its truth value |
| SnapshotEval.SnapTableEntry | pyreasoner/expressions/__init__.py:272-277 | the snapshot's table of a boolean formula over covering columns is built, has 2^n entries keyed by the tuples of length n, each the formula's truth value |
| SnapshotEval.SnapTruthTableShape | pyreasoner/expressions/__init__.py:264-277 | the snapshot's truth table of a boolean node is built, has 2^n entries keyed by the tuples of length n, each the formula's truth value |
| SnapshotEval.SnapEquivalenceIgnoresTruth | pyreasoner/expressions/__init__.py:280-281 | every boolean formula is "equivalent" to its negation here, while the main version's comparison of truth tables returns false |
| SnapshotNormalize.SnapDistributeNotMeaning | pyreasoner/expressions/__init__.py:240-254 | pushing a negation in keeps a boolean formula boolean and complements it |
| SnapshotNormalize.SingleDoubleNegation | pyreasoner/expressions/__init__.py:244-246 | `~~~~a` loses one double negation here and both in pyreasoner/expressions.py |
| SnapshotNormalize.SnapRecursiveCollapse | pyreasoner/expressions/__init__.py:189-199 | the loop builds the collapsed list, splicing nested disjunctions only |
| SnapshotNormalize.SnapCollapsedShape | pyreasoner/expressions/__init__.py:189-199 | no collapsed child is a disjunction, and every non-disjunction child survives |
| SnapshotNormalize.SnapCollapsedMeaning | pyreasoner/expressions/__init__.py:189-199 | collapsing keeps the truth value |
| SnapshotNormalize.SnapDistributeOver | pyreasoner/expressions/__init__.py:68-70 | distribution is a `TypeError` exactly when a conjunct is a plain value; otherwise it agrees with the main version |
| SnapshotNormalize.SnapConv | pyreasoner/expressions/__init__.py:53-80 | the snapshot's conversion terminates; converting a conjunction returns a conjunction |
| SnapshotNormalize.SnapConvMeaning | pyreasoner/expressions/__init__.py:53-80 | a successful conversion of a boolean formula keeps its truth value |
| SnapshotNormalize.SnapConvNormalForm | pyreasoner/expressions/__init__.py:53-80 | every successful conversion is in conjunctive normal form |
| SnapshotNormalize.SnapConvKeepsNormalForm | pyreasoner/tests/__init__.py:27-34 | a formula already in normal form converts to itself |
| SnapshotNormalize.SnapNegatedDisjunction | pyreasoner/tests/__init__.py:20 | `~(b \| c)` converts to `~b & ~c` |
| SnapshotNormalize.SnapDistributedDisjunction | pyreasoner/tests/__init__.py:21 | `(a & b) \| c` converts to `(a \| c) & (b \| c)` |
| SnapshotNormalize.NegatedDisjunctReachesAssertion | pyreasoner/expressions/__init__.py:66-73 | `a \| ~(b \| c)` reaches `assert False` in the snapshot; pyreasoner/expressions.py converts it to an equivalent normal form |
| SnapshotNormalize.BoolConjunctRaisesTypeError | pyreasoner/expressions/__init__.py:69-70 | `Or(And(True, a), b)` raises `TypeError` in the snapshot; pyreasoner/expressions.py converts it to an equivalent normal form |
| Sentinels.InfinityLess | pyreasoner/sets.py:12-14 | `Infinity < x` is the extended order, i.e. never |
| Sentinels.InfinityGreater | pyreasoner/sets.py:16-18 | `Infinity > x` is `x` below `Infinity` in the extended order |
| Sentinels.InfinityEquals | pyreasoner/sets.py:20-21 | `Infinity == x` is incomparability, i.e. `x` is `Infinity` |
| Sentinels.NegInfinityLess | pyreasoner/sets.py:34-36 | `NegativeInfinity < x` is the extended order |
| Sentinels.NegInfinityGreater | pyreasoner/sets.py:38-40 | `NegativeInfinity > x` never holds |
| Sentinels.NegInfinityEquals | pyreasoner/sets.py:42-43 | `NegativeInfinity == x` is incomparability |
| Sentinels.Negate | pyreasoner/sets.py:23-24 | negation swaps the two sentinels |
| Sentinels.NegateInvolution | pyreasoner/sets.py:45-46 | negating twice is the identity |
| Sentinels.NegateReversesOrder | pyreasoner/sets.py:23-46 | negation reverses the extended order |
| Sentinels.BelowIsStrictTotalOrder | pyreasoner/sets.py:12-43 | the order the sentinels realise is a strict total order |
| Sentinels.FiniteBetweenSentinels | pyreasoner/sets.py:12-43 | every int lies strictly between the sentinels, and each sentinel equals only itself |

## Left out

- The SAT search inside pycosat is not modelled. Its answers are a parameter of `Encoding.SolveSat`. The requires clauses of `SolveSat` and `IsSatisfiable` state what the solver guarantees.
- `Encoding.SolveSat`: `list(get_free_variables(expr))` lists a Python set, and its order is unspecified. The order is a parameter `vars`, constrained only to list each variable once.
- `Encoding.SolveSat`: the generator is modelled as a finished list. `num_solutions` is not modelled except for the single answer of `is_satisfiable`.
- `Encoding.SolveSat`: a formula that uses the name `TRUE_` is not covered by the `Solvable` guarantees, because the documentation excludes it.
- `Encoding.SolvableAnswers`: the result assignments are maps from names to bools, not instances of the namedtuple `assignment_class`.
- Namedtuple identifier validity (`is_valid_identifier_for_namedtuple`, pyreasoner/utils.py) is not modelled: variable names are arbitrary strings. pyreasoner/utils.py is not part of this model.
- `Var()` without a name (an id-based default) is not modelled, and neither are `variables()`, `__str__` and `__repr__`.
- Passing both a namespace and keyword arguments is not modelled, so the `ValueError` it raises is absent.
- `ExprTree.FreeVars` of an `Or()` or `And()` without children is the empty set. Python's `reduce` without an initial value raises `TypeError` there. The `NonEmptyOps` predicate marks the inputs on which the two agree. As a consequence, `TruthTables.TruthTable`, `TruthTables.IsLogicallyEquivalent` and `Encoding.SolveSat` return `Ok` where the source raises `TypeError` because the tree whose assignment class it computes holds a childless `Or()` or `And()` (for example `get_truth_table(Or())` or `solve_SAT(And())`).
- Bitwise `|`/`&` on ints and comparisons of operands other than ints give `Unsupported`.
- Comparing the sentinels with floats (`float('inf')`) is not modelled, because the model has no floats.
- Python's recursion limit is modelled in two ways:
  - for `eval` and the snapshot's `reify`, as a fuel of `ChainLimit` chained lookups;
  - for the conversion, as `RecursionLimit` on the one input that recurses forever (a negated int or relational node).
- The snapshot is modelled in its boolean fragment. pyreasoner/expressions/__init__.py defines no relational node classes, so the `Rel` cases of `SnapshotEval.SnapReify`, `SnapshotEval.SnapEval`, `SnapshotNormalize.SnapDistributeNot` and `SnapshotNormalize.SnapConv` stand for no snapshot code.
- Modelling choices in `Combinators` and the snapshot:
  - `Combinators.OrJoin` and `Combinators.AndJoin` state the union of free variables and the combined truth value. They do not state the exact child order for all operands; `Combinators.SplicingCases` states it for the cases the test suite names.
  - `SnapshotEval.SnapTruthTableShape` requires a node: the snapshot calls `expr.eval` directly and fails on a plain bool.

## Findings

| source | as written | input that shows it | evidently intended | confidence | as-written member | corrected member |
|---|---|---|---|---|---|---|
| pyreasoner/expressions/__init__.py:189-199 | `recursive_collapse` splices nested disjunctions but leaves a negated disjunction in place, so the conversion finds neither atoms nor a conjunction and reaches `assert False` | `a \| ~(b \| c)` | push the negation in while collapsing, as pyreasoner/expressions.py:250-251 does, and return an equivalent normal form | not executed | SnapshotNormalize.NegatedDisjunctReachesAssertion | NormalizeFacts.ConvertEquivalent |
| pyreasoner/expressions/__init__.py:69-70 | distributing a conjunction evaluates `descendant \| other_disjuncts`, and without `__ror__` a bool conjunct raises `TypeError` | `Or(And(True, a), b)` (written with the constructors: in the snapshot the operator spelling `True & a` already raises when the tree is built) | the reflected operator of pyreasoner/expressions.py:122-123 and 241-242, giving an equivalent normal form | not executed | SnapshotNormalize.BoolConjunctRaisesTypeError | NormalizeFacts.ConvertEquivalent |
