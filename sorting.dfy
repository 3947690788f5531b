/**
 * ORDER BY as the model uses it: a stable insertion sort by a total preorder,
 * and the ascending enumeration of a table's integer row ids.
 */
module Sorting {

  ghost predicate Total<T(!new)>(le: (T, T) -> bool)
  {
    forall a, b :: le(a, b) || le(b, a)
  }

  ghost predicate Transitive<T(!new)>(le: (T, T) -> bool)
  {
    forall a, b, c :: le(a, b) && le(b, c) ==> le(a, c)
  }

  /** Every earlier element precedes every later one. */
  ghost predicate SortedBy<T>(le: (T, T) -> bool, s: seq<T>)
  {
    forall i, j :: 0 <= i < j < |s| ==> le(s[i], s[j])
  }

  /** No element occurs twice. */
  predicate Distinct<T(==)>(s: seq<T>)
  {
    forall i, j :: 0 <= i < j < |s| ==> s[i] != s[j]
  }

  /** Places `x` before the first element it precedes. */
  function Insert<T(!new)>(le: (T, T) -> bool, x: T, s: seq<T>): (r: seq<T>)
    ensures multiset(r) == multiset(s) + multiset{x}
    ensures Total(le) && Transitive(le) && SortedBy(le, s) ==> SortedBy(le, r)
  {
    if s == [] then [x]
    else if le(x, s[0]) then [x] + s
    else
      var rest := Insert(le, x, s[1..]);
      assert s == [s[0]] + s[1..];
      HeadStaysFirst(le, x, s, rest);
      [s[0]] + rest
  }

  /**
   * When `x` goes after the head of a sorted `s`, the head still precedes
   * everything in the sorted remainder `x` was inserted into.
   */
  lemma HeadStaysFirst<T(!new)>(le: (T, T) -> bool, x: T, s: seq<T>, rest: seq<T>)
    requires s != [] && !le(x, s[0])
    requires multiset(rest) == multiset(s[1..]) + multiset{x}
    ensures Total(le) && Transitive(le) && SortedBy(le, s) && SortedBy(le, rest) ==> SortedBy(le, [s[0]] + rest)
  {
    if Total(le) && Transitive(le) && SortedBy(le, s) && SortedBy(le, rest) {
      assert le(s[0], x);
      forall k | 0 <= k < |rest| ensures le(s[0], rest[k]) {
        assert rest[k] in multiset(rest);
        if rest[k] != x {
          assert rest[k] in multiset(s[1..]);
          var m :| 0 <= m < |s[1..]| && s[1..][m] == rest[k];
          assert s[m + 1] == rest[k];
        }
      }
      var r := [s[0]] + rest;
      forall i, j | 0 <= i < j < |r| ensures le(r[i], r[j]) {
        if i > 0 {
          assert r[i] == rest[i - 1] && r[j] == rest[j - 1];
        }
      }
    }
  }

  /** Insertion sort: a sorted permutation of `s`. */
  function SortBy<T(!new)>(le: (T, T) -> bool, s: seq<T>): (r: seq<T>)
    ensures multiset(r) == multiset(s)
    ensures Total(le) && Transitive(le) ==> SortedBy(le, r)
  {
    if s == [] then []
    else
      assert s == [s[0]] + s[1..];
      Insert(le, s[0], SortBy(le, s[1..]))
  }

  /** Inserting a new element into a duplicate-free sequence keeps it duplicate-free. */
  lemma {:induction false} InsertDistinct<T(!new)>(le: (T, T) -> bool, x: T, s: seq<T>)
    requires Distinct(s) && x !in s
    ensures Distinct(Insert(le, x, s))
  {
    if s != [] && !le(x, s[0]) {
      InsertDistinct(le, x, s[1..]);
      var rest := Insert(le, x, s[1..]);
      assert s[0] !in multiset(rest) by {
        assert s[0] != x;
        assert s[0] !in s[1..];
      }
    }
  }

  /** Sorting a duplicate-free sequence yields a duplicate-free one. */
  lemma {:induction false} SortByDistinct<T(!new)>(le: (T, T) -> bool, s: seq<T>)
    requires Distinct(s)
    ensures Distinct(SortBy(le, s))
  {
    if s != [] {
      SortByDistinct(le, s[1..]);
      var sorted := SortBy(le, s[1..]);
      assert s[0] !in multiset(sorted) by {
        assert s[0] !in s[1..];
      }
      InsertDistinct(le, s[0], sorted);
    }
  }

  /** Sorting a sequence that is already sorted leaves it as it is. */
  lemma {:induction false} SortBySorted<T(!new)>(le: (T, T) -> bool, s: seq<T>)
    requires SortedBy(le, s)
    ensures SortBy(le, s) == s
  {
    if s != [] {
      SortBySorted(le, s[1..]);
      assert s == [s[0]] + s[1..];
    }
  }

  /** A set of positive size has an element. */
  lemma HasElement(s: set<int>)
    requires |s| > 0
    ensures exists y :: y in s
  {
    if forall y :: y !in s {
      assert false;
    }
  }

  predicate IsLeast(m: int, s: set<int>)
  {
    m in s && forall x :: x in s ==> m <= x
  }

  lemma {:induction false} HasLeast(s: set<int>)
    requires |s| > 0
    ensures exists m :: IsLeast(m, s)
    decreases |s|
  {
    HasElement(s);
    var y :| y in s;
    var rest := s - {y};
    if |rest| == 0 {
      assert s == {y};
      assert IsLeast(y, s);
    } else {
      HasLeast(rest);
      var m :| IsLeast(m, rest);
      var least := if y < m then y else m;
      forall x | x in s ensures least <= x {
        if x != y {
          assert x in rest;
        }
      }
      assert IsLeast(least, s);
    }
  }

  /** The smallest element of a non-empty set of ids. */
  function Least(s: set<int>): (m: int)
    requires |s| > 0
    ensures IsLeast(m, s)
  {
    HasLeast(s);
    var m :| IsLeast(m, s);
    m
  }

  /** The ids of a rowid table in the order a full scan visits them: ascending. */
  function AscendingIds(s: set<int>): (r: seq<int>)
    ensures |r| == |s|
    ensures forall x :: x in r <==> x in s
    ensures forall i, j :: 0 <= i < j < |r| ==> r[i] < r[j]
    decreases |s|
  {
    if |s| == 0 then []
    else
      var m := Least(s);
      [m] + AscendingIds(s - {m})
  }
}
