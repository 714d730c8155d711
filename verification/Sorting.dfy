/** Stable sorting by a total preorder, and distinctness: the model of Python's
    `sorted`, `list.sort` and of comparing a list's length with its set's. */
module Sorting {

  ghost predicate TotalPreorder<T(!new)>(le: (T, T) -> bool) {
    && (forall a, b :: le(a, b) || le(b, a))
    && (forall a, b, c | le(a, b) && le(b, c) :: le(a, c))
  }

  ghost predicate Sorted<T>(le: (T, T) -> bool, s: seq<T>) {
    forall i, j | 0 <= i < j < |s| :: le(s[i], s[j])
  }

  /** `x` goes after everything it does not precede, so equal elements keep their order. */
  function InsertLast<T>(le: (T, T) -> bool, s: seq<T>, x: T): seq<T> {
    if s == [] || le(s[|s| - 1], x) then s + [x]
    else InsertLast(le, s[..|s| - 1], x) + [s[|s| - 1]]
  }

  /** `sorted(s)`. */
  function Sort<T>(le: (T, T) -> bool, s: seq<T>): seq<T> {
    if s == [] then [] else InsertLast(le, Sort(le, s[..|s| - 1]), s[|s| - 1])
  }

  lemma {:induction false} InsertKeeps<T>(le: (T, T) -> bool, s: seq<T>, x: T)
    ensures multiset(InsertLast(le, s, x)) == multiset(s) + multiset{x}
    ensures |InsertLast(le, s, x)| == |s| + 1
  {
    if s != [] && !le(s[|s| - 1], x) {
      InsertKeeps(le, s[..|s| - 1], x);
      assert s == s[..|s| - 1] + [s[|s| - 1]];
    }
  }

  lemma {:induction false} SortPermutes<T>(le: (T, T) -> bool, s: seq<T>)
    ensures multiset(Sort(le, s)) == multiset(s)
    ensures |Sort(le, s)| == |s|
  {
    if s != [] {
      SortPermutes(le, s[..|s| - 1]);
      InsertKeeps(le, Sort(le, s[..|s| - 1]), s[|s| - 1]);
      assert s == s[..|s| - 1] + [s[|s| - 1]];
    }
  }

  lemma {:induction false} InsertSorts<T(!new)>(le: (T, T) -> bool, s: seq<T>, x: T)
    requires TotalPreorder(le) && Sorted(le, s)
    ensures Sorted(le, InsertLast(le, s, x))
    ensures forall y | y in InsertLast(le, s, x) :: y == x || y in s
  {
    if s != [] {
      var n := |s| - 1;
      if le(s[n], x) {
        forall i | 0 <= i < n ensures le(s[i], x) {
          assert le(s[i], s[n]);
        }
      } else {
        InsertSorts(le, s[..n], x);
        var front := InsertLast(le, s[..n], x);
        forall i | 0 <= i < |front| ensures le(front[i], s[n]) {
          assert front[i] in front;
        }
      }
    }
  }

  lemma {:induction false} SortSorts<T(!new)>(le: (T, T) -> bool, s: seq<T>)
    requires TotalPreorder(le)
    ensures Sorted(le, Sort(le, s))
  {
    if s != [] {
      SortSorts(le, s[..|s| - 1]);
      InsertSorts(le, Sort(le, s[..|s| - 1]), s[|s| - 1]);
    }
  }

  /** `s == sorted(s)` exactly when `s` is sorted. */
  lemma {:induction false} SortedIsFixed<T(!new)>(le: (T, T) -> bool, s: seq<T>)
    requires TotalPreorder(le)
    ensures Sort(le, s) == s <==> Sorted(le, s)
  {
    if Sorted(le, s) {
      if s != [] {
        SortedIsFixed(le, s[..|s| - 1]);
        assert s == s[..|s| - 1] + [s[|s| - 1]];
        assert |s| > 1 ==> le(s[|s| - 2], s[|s| - 1]);
      }
    } else {
      SortSorts(le, s);
    }
  }

  // ----- distinctness

  ghost predicate Distinct<T>(s: seq<T>) {
    forall i, j | 0 <= i < j < |s| :: s[i] != s[j]
  }

  /** `len(s) == len(set(s))` exactly when nothing repeats. */
  lemma {:induction false} SetSizeIsDistinct<T>(s: seq<T>)
    ensures |set x | x in s| <= |s|
    ensures |set x | x in s| == |s| <==> Distinct(s)
  {
    if s != [] {
      var n := |s| - 1;
      var front, last := s[..n], s[n];
      SetSizeIsDistinct(front);
      assert s == front + [last];
      assert (set x | x in s) == (set x | x in front) + {last};
      if last in front {
        assert (set x | x in s) == (set x | x in front);
        var i :| 0 <= i < n && s[i] == last;
      } else {
        assert forall i | 0 <= i < n :: front[i] == s[i];
      }
    }
  }

  lemma {:induction false} DistinctCounts<T>(s: seq<T>)
    requires Distinct(s)
    ensures forall x :: multiset(s)[x] <= 1
  {
    if s != [] {
      var n := |s| - 1;
      assert s == s[..n] + [s[n]];
      DistinctCounts(s[..n]);
      forall x ensures multiset(s)[x] <= 1 {
        if x == s[n] { assert x !in s[..n]; }
      }
    }
  }

  lemma {:induction false} TwoPositions<T>(s: seq<T>, i: nat, j: nat)
    requires i < j < |s| && s[i] == s[j]
    ensures multiset(s)[s[i]] >= 2
  {
    assert s == s[..j] + [s[j]] + s[j + 1..];
    assert s[i] in s[..j];
  }

  /** A permutation of a list with distinct keys has distinct keys. */
  lemma DistinctKeysPermute<T, K>(key: T -> K, s: seq<T>, t: seq<T>)
    requires multiset(s) == multiset(t)
    requires forall i, j | 0 <= i < j < |s| :: key(s[i]) != key(s[j])
    ensures forall i, j | 0 <= i < j < |t| :: key(t[i]) != key(t[j])
  {
    assert Distinct(s);
    DistinctCounts(s);
    forall i, j | 0 <= i < j < |t| ensures key(t[i]) != key(t[j]) {
      assert t[i] in multiset(t) && t[j] in multiset(t);
      var a :| 0 <= a < |s| && s[a] == t[i];
      var b :| 0 <= b < |s| && s[b] == t[j];
      if t[i] == t[j] {
        TwoPositions(t, i, j);
      }
    }
  }

  lemma {:induction false} SubsetIsNoLarger<T>(a: set<T>, b: set<T>)
    requires a <= b
    ensures |a| <= |b|
  {
    if a != {} {
      var x :| x in a;
      SubsetIsNoLarger(a - {x}, b - {x});
    }
  }
}
