/** Variable-name ordering and the enumeration of assignments behind the truth
    tables: names sorted as Python sorts strings, and every tuple of truth
    values in `itertools.product([True, False], ...)` order. */
module Names {

  /** Python's `<` on strings: lexicographic by code point. */
  predicate Less(a: string, b: string)
  {
    if |a| == 0 then |b| > 0
    else if |b| == 0 then false
    else if a[0] != b[0] then a[0] < b[0]
    else Less(a[1..], b[1..])
  }

  lemma {:induction false} LessIrreflexive(a: string)
    ensures !Less(a, a)
  {
    if |a| > 0 {
      LessIrreflexive(a[1..]);
    }
  }

  lemma {:induction false} LessTransitive(a: string, b: string, c: string)
    requires Less(a, b) && Less(b, c)
    ensures Less(a, c)
  {
    if |a| > 0 && a[0] == b[0] && b[0] == c[0] {
      LessTransitive(a[1..], b[1..], c[1..]);
    }
  }

  lemma {:induction false} LessTotal(a: string, b: string)
    ensures a == b || Less(a, b) || Less(b, a)
  {
    if |a| > 0 && |b| > 0 && a[0] == b[0] {
      LessTotal(a[1..], b[1..]);
      if a[1..] == b[1..] {
        assert a == [a[0]] + a[1..] && b == [b[0]] + b[1..];
      }
    }
  }

  /** Strictly increasing, hence free of duplicates. */
  predicate StrictlySorted(s: seq<string>)
  {
    forall i, j :: 0 <= i < j < |s| ==> Less(s[i], s[j])
  }

  /** `m` comes before every other member of `vs`. */
  predicate IsLeast(m: string, vs: set<string>)
  {
    m in vs && forall x :: x in vs && x != m ==> Less(m, x)
  }

  /** A finite nonempty set of names has a least element. */
  lemma {:induction false} LeastExists(vs: set<string>)
    requires vs != {}
    ensures exists m :: IsLeast(m, vs)
  {
    var y :| y in vs;
    if vs - {y} == {} {
      assert vs == {y};
      assert IsLeast(y, vs);
    } else {
      LeastExists(vs - {y});
      var m :| IsLeast(m, vs - {y});
      LessTotal(y, m);
      if Less(y, m) {
        forall x | x in vs && x != y
          ensures Less(y, x)
        {
          if x != m {
            assert x in vs - {y};
            LessTransitive(y, m, x);
          }
        }
        assert IsLeast(y, vs);
      } else {
        assert IsLeast(m, vs);
      }
    }
  }

  /** `sorted(names)`: the names of a set in increasing order. */
  ghost function SortedNames(vs: set<string>): (r: seq<string>)
    ensures StrictlySorted(r)
    ensures forall x :: x in r <==> x in vs
    ensures |r| == |vs|
    decreases vs
  {
    if vs == {} then []
    else
      LeastExists(vs);
      var m :| IsLeast(m, vs);
      [m] + SortedNames(vs - {m})
  }

  /** Two strictly sorted lists with the same elements are equal: the order
      of the truth-table columns is determined by the set of names alone. */
  lemma {:induction false} SortedUnique(a: seq<string>, b: seq<string>)
    requires StrictlySorted(a) && StrictlySorted(b)
    requires forall x :: x in a <==> x in b
    ensures a == b
  {
    SameMembersBothEmpty(a, b);
    if a != [] {
      assert a[0] in b && b[0] in a;
      if a[0] != b[0] {
        var i :| 0 <= i < |b| && b[i] == a[0];
        var j :| 0 <= j < |a| && a[j] == b[0];
        assert Less(b[0], a[0]) by { assert i > 0; }
        assert Less(a[0], b[0]) by { assert j > 0; }
        LessTransitive(a[0], b[0], a[0]);
        LessIrreflexive(a[0]);
      }
      forall x
        ensures x in a[1..] <==> x in b[1..]
      {
        if x in a[1..] {
          var k :| 0 <= k < |a[1..]| && a[1..][k] == x;
          assert Less(a[0], a[k + 1]);
          if x == a[0] {
            LessIrreflexive(x);
          }
          assert x in b && x != b[0];
          var q :| 0 <= q < |b| && b[q] == x;
          assert b[1..][q - 1] == x;
        }
        if x in b[1..] {
          var k :| 0 <= k < |b[1..]| && b[1..][k] == x;
          assert Less(b[0], b[k + 1]);
          if x == b[0] {
            LessIrreflexive(x);
          }
          assert x in a && x != a[0];
          var q :| 0 <= q < |a| && a[q] == x;
          assert a[1..][q - 1] == x;
        }
      }
      SortedUnique(a[1..], b[1..]);
      assert a == [a[0]] + a[1..] && b == [b[0]] + b[1..];
    }
  }

  lemma SameMembersBothEmpty(a: seq<string>, b: seq<string>)
    requires forall x :: x in a <==> x in b
    ensures a == [] <==> b == []
  {
    if a != [] {
      assert a[0] in b;
    }
    if b != [] {
      assert b[0] in a;
    }
  }

  function Pow2(n: nat): (r: nat)
    ensures r >= 1
  {
    if n == 0 then 1 else 2 * Pow2(n - 1)
  }

  /** `itertools.product([True, False], repeat=n)`: all truth-value tuples of
      length n, the first position varying slowest. */
  function Product(n: nat): (r: seq<seq<bool>>)
    ensures |r| == Pow2(n)
    ensures forall i :: 0 <= i < |r| ==> |r[i]| == n
  {
    if n == 0 then [[]]
    else
      var p := Product(n - 1);
      var r := PrependAll(true, p) + PrependAll(false, p);
      assert forall i :: 0 <= i < |p| ==> r[i] == [true] + p[i] && r[|p| + i] == [false] + p[i];
      r
  }

  /** `b` put in front of every tuple of `p`. */
  function PrependAll(b: bool, p: seq<seq<bool>>): (r: seq<seq<bool>>)
    ensures |r| == |p|
    ensures forall i :: 0 <= i < |p| ==> r[i] == [b] + p[i]
  {
    if p == [] then [] else [[b] + p[0]] + PrependAll(b, p[1..])
  }

  /** How `Product(n)` is laid out: the `true` half first, then the `false` half. */
  lemma ProductAt(n: nat, k: nat)
    requires n > 0 && k < |Product(n)|
    ensures k < Pow2(n - 1) ==> Product(n)[k] == [true] + Product(n - 1)[k]
    ensures k >= Pow2(n - 1) ==> Product(n)[k] == [false] + Product(n - 1)[k - Pow2(n - 1)]
  {
  }

  /** Every tuple of the right length is listed. */
  lemma ProductComplete(n: nat, t: seq<bool>)
    requires |t| == n
    ensures t in Product(n)
  {
    var k := ProductIndex(n, t);
  }

  /** Where a tuple sits in `Product(n)`. */
  lemma {:induction false} ProductIndex(n: nat, t: seq<bool>) returns (k: nat)
    requires |t| == n
    ensures k < |Product(n)| && Product(n)[k] == t
  {
    if n == 0 {
      k := 0;
    } else {
      var j := ProductIndex(n - 1, t[1..]);
      k := if t[0] then j else Pow2(n - 1) + j;
      ProductAt(n, k);
      assert t == [t[0]] + t[1..];
    }
  }

  /** No entry of the list appears twice. */
  predicate Distinct<T(==)>(s: seq<T>)
  {
    forall i, j :: 0 <= i < j < |s| ==> s[i] != s[j]
  }

  /** A strictly sorted list has no repeated name. */
  lemma SortedDistinct(s: seq<string>)
    requires StrictlySorted(s)
    ensures Distinct(s)
  {
    forall i, j | 0 <= i < j < |s|
      ensures s[i] != s[j]
    {
      LessIrreflexive(s[i]);
    }
  }

  /** No tuple is listed twice. */
  lemma {:induction false} ProductDistinct(n: nat)
    ensures Distinct(Product(n))
  {
    if n > 0 {
      ProductDistinct(n - 1);
      var p := Product(n - 1);
      assert Product(n) == PrependAll(true, p) + PrependAll(false, p);
      PrependBothDistinct(p);
    }
  }

  lemma PrependBothDistinct(p: seq<seq<bool>>)
    requires Distinct(p)
    ensures Distinct(PrependAll(true, p) + PrependAll(false, p))
  {
    var a, b := PrependAll(true, p), PrependAll(false, p);
    var r := a + b;
    var h := |p|;
    forall i, j | 0 <= i < j < |r|
      ensures r[i] != r[j]
    {
      if j < h {
        TailsDiffer(true, p[i], p[j]);
      } else if h <= i {
        TailsDiffer(false, p[i - h], p[j - h]);
      } else {
        assert r[i][0] != r[j][0];
      }
    }
  }

  lemma TailsDiffer(b: bool, x: seq<bool>, y: seq<bool>)
    requires x != y
    ensures [b] + x != [b] + y
  {
    assert ([b] + x)[1..] == x && ([b] + y)[1..] == y;
  }

  /** A list without repetitions has as many distinct elements as entries. */
  lemma {:induction false} DistinctCard<T>(s: seq<T>)
    requires Distinct(s)
    ensures |set x | x in s| == |s|
  {
    if s != [] {
      var rest := s[1..];
      DistinctCard(rest);
      assert (set x | x in s) == {s[0]} + (set x | x in rest);
      assert s[0] !in rest;
    }
  }

  /** A set holding exactly the tuples of `Product(n)` holds exactly the
      tuples of length n, and 2^n of them. */
  lemma ProductKeySet(n: nat, keys: set<seq<bool>>)
    requires keys == set row | row in Product(n)
    ensures forall row: seq<bool> :: row in keys <==> |row| == n
    ensures |keys| == Pow2(n)
  {
    forall row: seq<bool> | |row| == n
      ensures row in keys
    {
      ProductComplete(n, row);
    }
    ProductDistinct(n);
    DistinctCard(Product(n));
  }

  /** The namespace a truth-table row builds: name i is bound to value i. */
  function Zip(names: seq<string>, values: seq<bool>): (env: map<string, bool>)
    requires |names| == |values|
    ensures env.Keys == set x | x in names
  {
    if names == [] then map[]
    else Zip(names[1..], values[1..])[names[0] := values[0]]
  }

  /** In a row over distinct names, each name reads its own column. */
  lemma {:induction false} ZipAt(names: seq<string>, values: seq<bool>, i: nat)
    requires |names| == |values| && i < |names|
    requires Distinct(names)
    ensures Zip(names, values)[names[i]] == values[i]
  {
    if i > 0 {
      ZipAt(names[1..], values[1..], i - 1);
    }
  }
}
