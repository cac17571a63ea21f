/**
 * Label lists: the distinct-value lists that pandas `unique()` produces
 * (first-appearance order) and the sorted distinct lists that `np.sort`
 * and `pd.crosstab` produce, over strings compared code point by code point.
 */
module Labels {

  /** Lexicographic order on strings, as Python and SQLite's binary collation compare them. */
  predicate LexLess(a: string, b: string)
    decreases |a|
  {
    if |a| == 0 then |b| > 0
    else |b| > 0 && (a[0] < b[0] || (a[0] == b[0] && LexLess(a[1..], b[1..])))
  }

  lemma {:induction false} LexLessIrreflexive(a: string)
    ensures !LexLess(a, a)
  {
    if |a| > 0 {
      LexLessIrreflexive(a[1..]);
    }
  }

  lemma {:induction false} LexLessTransitive(a: string, b: string, c: string)
    requires LexLess(a, b) && LexLess(b, c)
    ensures LexLess(a, c)
    decreases |a|
  {
    if |a| > 0 && a[0] == b[0] && b[0] == c[0] {
      LexLessTransitive(a[1..], b[1..], c[1..]);
    }
  }

  lemma LexLessAsymmetric(a: string, b: string)
    ensures !(LexLess(a, b) && LexLess(b, a))
  {
    LexLessIrreflexive(a);
    if LexLess(a, b) && LexLess(b, a) {
      LexLessTransitive(a, b, a);
    }
  }

  lemma {:induction false} LexLessTotal(a: string, b: string)
    requires a != b
    ensures LexLess(a, b) || LexLess(b, a)
    decreases |a|
  {
    if |a| > 0 && |b| > 0 && a[0] == b[0] {
      assert a == [a[0]] + a[1..] && b == [b[0]] + b[1..];
      LexLessTotal(a[1..], b[1..]);
    }
  }

  predicate NoDuplicates(s: seq<string>)
  {
    forall i, j :: 0 <= i < j < |s| ==> s[i] != s[j]
  }

  predicate StrictlySorted(s: seq<string>)
  {
    forall i, j :: 0 <= i < j < |s| ==> LexLess(s[i], s[j])
  }

  lemma SortedHasNoDuplicates(s: seq<string>)
    requires StrictlySorted(s)
    ensures NoDuplicates(s)
  {
    forall i, j | 0 <= i < j < |s| ensures s[i] != s[j] {
      LexLessIrreflexive(s[i]);
    }
  }

  /** Position of the first occurrence of `x` in `s`. */
  function FirstIndex(s: seq<string>, x: string): (i: nat)
    requires x in s
    ensures i < |s| && s[i] == x
    ensures forall j :: 0 <= j < i ==> s[j] != x
  {
    if s[0] == x then 0 else 1 + FirstIndex(s[1..], x)
  }

  lemma {:induction false} FirstIndexExtend(p: seq<string>, y: string)
    ensures forall x :: x in p ==> FirstIndex(p + [y], x) == FirstIndex(p, x)
    ensures y !in p ==> FirstIndex(p + [y], y) == |p|
  {
    forall x | x in p ensures FirstIndex(p + [y], x) == FirstIndex(p, x) {
      var i, k := FirstIndex(p + [y], x), FirstIndex(p, x);
      assert (p + [y])[k] == x;
      assert p[i] == x by { assert i <= k; }
    }
  }

  /**
   * The distinct values of `s` in order of first appearance: what
   * `Series.unique()` returns.
   */
  function Distinct(s: seq<string>): (r: seq<string>)
    ensures NoDuplicates(r)
    ensures forall x :: x in r <==> x in s
    ensures forall i, j :: 0 <= i < j < |r| ==> FirstIndex(s, r[i]) < FirstIndex(s, r[j])
  {
    if s == [] then []
    else
      var p, y := s[..|s| - 1], s[|s| - 1];
      var d := Distinct(p);
      assert s == p + [y];
      FirstIndexExtend(p, y);
      if y in d then d else d + [y]
  }

  /** A list without repeats is its own `unique()`. */
  lemma {:induction false} DistinctOfNoDuplicates(s: seq<string>)
    requires NoDuplicates(s)
    ensures Distinct(s) == s
  {
    if s != [] {
      var p := s[..|s| - 1];
      assert NoDuplicates(p);
      DistinctOfNoDuplicates(p);
      assert s[|s| - 1] !in p;
    }
  }

  /** A duplicate-free list has as many elements as its set of values. */
  lemma {:induction false} NoDuplicatesCard(r: seq<string>)
    requires NoDuplicates(r)
    ensures |(set x | x in r)| == |r|
  {
    if r != [] {
      var t := r[1..];
      assert NoDuplicates(t);
      NoDuplicatesCard(t);
      assert (set x | x in r) == (set x | x in t) + {r[0]};
      assert r[0] !in (set x | x in t);
    }
  }

  /** A list already grouped in non-decreasing order keeps its order through `unique()`. */
  lemma DistinctOfSorted(s: seq<string>)
    requires forall i, j :: 0 <= i < j < |s| ==> s[i] == s[j] || LexLess(s[i], s[j])
    ensures StrictlySorted(Distinct(s))
  {
    var r := Distinct(s);
    forall i, j | 0 <= i < j < |r| ensures LexLess(r[i], r[j]) {
      var a, b := FirstIndex(s, r[i]), FirstIndex(s, r[j]);
      assert s[a] == r[i] && s[b] == r[j] && a < b;
    }
  }

  lemma SortedPrepend(x: string, s: seq<string>)
    requires StrictlySorted(s)
    requires forall y :: y in s ==> LexLess(x, y)
    ensures StrictlySorted([x] + s)
  {
    var t := [x] + s;
    forall i, j | 0 <= i < j < |t| ensures LexLess(t[i], t[j]) {
      if i > 0 {
        assert t[i] == s[i - 1] && t[j] == s[j - 1];
      } else {
        assert t[j] == s[j - 1];
      }
    }
  }

  /** Insertion of one label into a strictly sorted label list (no effect if present). */
  function Insert(s: seq<string>, x: string): (r: seq<string>)
    requires StrictlySorted(s)
    ensures StrictlySorted(r)
    ensures forall y :: y in r <==> (y in s || y == x)
  {
    if s == [] then [x]
    else if s[0] == x then s
    else if LexLess(x, s[0]) then
      assert forall y :: y in s ==> LexLess(x, y) by {
        forall y | y in s ensures LexLess(x, y) {
          if y != s[0] {
            var k :| 0 < k < |s| && s[k] == y;
            LexLessTransitive(x, s[0], y);
          }
        }
      }
      SortedPrepend(x, s);
      [x] + s
    else
      var t := Insert(s[1..], x);
      assert forall y :: y in t ==> LexLess(s[0], y) by {
        LexLessTotal(x, s[0]);
      }
      SortedPrepend(s[0], t);
      [s[0]] + t
  }

  /**
   * The sorted distinct values of `s`: what `np.sort(... .unique())` returns
   * and how `pd.crosstab` orders its row and column labels.
   */
  function SortedDistinct(s: seq<string>): (r: seq<string>)
    ensures StrictlySorted(r)
    ensures forall x :: x in r <==> x in s
  {
    if s == [] then []
    else
      assert s == s[..|s| - 1] + [s[|s| - 1]];
      Insert(SortedDistinct(s[..|s| - 1]), s[|s| - 1])
  }

  /** A strictly sorted list is determined by its set of elements. */
  lemma {:induction false} SortedUnique(a: seq<string>, b: seq<string>)
    requires StrictlySorted(a) && StrictlySorted(b)
    requires forall x :: x in a <==> x in b
    ensures a == b
  {
    if a == [] {
      SortedHasNoDuplicates(b);
      NoDuplicatesCard(b);
      assert (set x | x in b) == {};
    } else {
      assert b != [] by { assert a[0] in b; }
      assert b[0] in a && a[0] in b;
      var k :| 0 <= k < |a| && a[k] == b[0];
      var m :| 0 <= m < |b| && b[m] == a[0];
      LexLessAsymmetric(a[0], b[0]);
      assert k == 0 || m == 0;
      LexLessIrreflexive(a[0]);
      assert forall x :: x in a[1..] <==> (x in a && x != a[0]) by {
        assert a == [a[0]] + a[1..];
      }
      assert forall x :: x in b[1..] <==> (x in b && x != b[0]) by {
        assert b == [b[0]] + b[1..];
      }
      SortedUnique(a[1..], b[1..]);
      assert a == [a[0]] + a[1..] && b == [b[0]] + b[1..];
    }
  }

  /** `unique()` of a non-decreasing list is its sorted distinct list. */
  lemma DistinctOfSortedIsSortedDistinct(s: seq<string>)
    requires forall i, j :: 0 <= i < j < |s| ==> s[i] == s[j] || LexLess(s[i], s[j])
    ensures Distinct(s) == SortedDistinct(s)
  {
    DistinctOfSorted(s);
    SortedUnique(Distinct(s), SortedDistinct(s));
  }

  /** `unique()` and the sorted distinct list have the same length: one entry per distinct value. */
  lemma DistinctSameLength(s: seq<string>)
    ensures |Distinct(s)| == |SortedDistinct(s)|
  {
    var a, b := Distinct(s), SortedDistinct(s);
    SortedHasNoDuplicates(b);
    NoDuplicatesCard(a);
    NoDuplicatesCard(b);
    assert (set x | x in a) == (set x | x in b);
  }
}
