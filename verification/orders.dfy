/** Strict orders, the lexicographic extension of an element order to sequences,
    a sort that returns a permutation, and the sorted set of a sequence's values.
    Sorting by key columns and the sorted index and columns of a reshaped table
    are all built from these. */
module Orders {

  ghost predicate Irreflexive<T(!new)>(less: (T, T) -> bool) {
    forall x :: !less(x, x)
  }

  ghost predicate Transitive<T(!new)>(less: (T, T) -> bool) {
    forall x, y, z :: less(x, y) && less(y, z) ==> less(x, z)
  }

  ghost predicate Trichotomous<T(!new)>(less: (T, T) -> bool) {
    forall x, y :: x != y ==> less(x, y) || less(y, x)
  }

  /** Irreflexive and transitive: enough for sorting, where ties are allowed. */
  ghost predicate StrictOrder<T(!new)>(less: (T, T) -> bool) {
    Irreflexive(less) && Transitive(less)
  }

  /** A strict order that also compares any two distinct values. */
  ghost predicate StrictTotalOrder<T(!new)>(less: (T, T) -> bool) {
    StrictOrder(less) && Trichotomous(less)
  }

  /** Lexicographic order on sequences: a proper prefix comes first. */
  predicate LexLess<T(==)>(less: (T, T) -> bool, a: seq<T>, b: seq<T>)
    decreases |a|
  {
    if |a| == 0 then |b| > 0
    else if |b| == 0 then false
    else if a[0] == b[0] then LexLess(less, a[1..], b[1..])
    else less(a[0], b[0])
  }

  lemma {:induction false} LexIrreflexive<T>(less: (T, T) -> bool, a: seq<T>)
    ensures !LexLess(less, a, a)
    decreases |a|
  {
    if |a| > 0 {
      LexIrreflexive(less, a[1..]);
    }
  }

  lemma {:induction false} LexTransitive<T(!new)>(less: (T, T) -> bool, a: seq<T>, b: seq<T>, c: seq<T>)
    requires StrictOrder(less)
    requires LexLess(less, a, b) && LexLess(less, b, c)
    ensures LexLess(less, a, c)
    decreases |a|
  {
    if |a| > 0 && |b| > 0 && |c| > 0 {
      if a[0] == b[0] && b[0] == c[0] {
        LexTransitive(less, a[1..], b[1..], c[1..]);
      }
    }
  }

  lemma {:induction false} LexTrichotomous<T(!new)>(less: (T, T) -> bool, a: seq<T>, b: seq<T>)
    requires Trichotomous(less)
    requires a != b
    ensures LexLess(less, a, b) || LexLess(less, b, a)
    decreases |a|
  {
    if |a| > 0 && |b| > 0 && a[0] == b[0] {
      assert a == [a[0]] + a[1..] && b == [b[0]] + b[1..];
      LexTrichotomous(less, a[1..], b[1..]);
    }
  }

  /** Lexicographic order inherits strictness and totality from the element order. */
  lemma LexStrictTotal<T(!new)>(less: (T, T) -> bool)
    requires StrictTotalOrder(less)
    ensures forall a: seq<T> :: !LexLess(less, a, a)
    ensures forall a: seq<T>, b: seq<T>, c: seq<T> ::
              LexLess(less, a, b) && LexLess(less, b, c) ==> LexLess(less, a, c)
    ensures forall a: seq<T>, b: seq<T> :: a != b ==> LexLess(less, a, b) || LexLess(less, b, a)
  {
    forall a: seq<T> ensures !LexLess(less, a, a) {
      LexIrreflexive(less, a);
    }
    forall a: seq<T>, b: seq<T>, c: seq<T> | LexLess(less, a, b) && LexLess(less, b, c)
      ensures LexLess(less, a, c)
    {
      LexTransitive(less, a, b, c);
    }
    forall a: seq<T>, b: seq<T> | a != b ensures LexLess(less, a, b) || LexLess(less, b, a) {
      LexTrichotomous(less, a, b);
    }
  }

  /** No later element is strictly below an earlier one (ties in any order). */
  ghost predicate SortedBy<T>(less: (T, T) -> bool, s: seq<T>) {
    forall i, j :: 0 <= i < j < |s| ==> !less(s[j], s[i])
  }

  /** Every earlier element is strictly below every later one. */
  ghost predicate StrictlySortedBy<T>(less: (T, T) -> bool, s: seq<T>) {
    forall i, j :: 0 <= i < j < |s| ==> less(s[i], s[j])
  }

  /** Places x before the first element it is strictly below. */
  function Insert<T(!new)>(less: (T, T) -> bool, x: T, s: seq<T>): (r: seq<T>)
    requires StrictOrder(less)
    requires SortedBy(less, s)
    ensures SortedBy(less, r)
    ensures multiset(r) == multiset(s) + multiset{x}
    ensures |r| == |s| + 1
  {
    if |s| == 0 then [x]
    else if less(x, s[0]) then [x] + s
    else
      var rest := Insert(less, x, s[1..]);
      assert s == [s[0]] + s[1..];
      assert forall k :: 0 <= k < |rest| ==> !less(rest[k], s[0]) by {
        forall k | 0 <= k < |rest|
          ensures !less(rest[k], s[0])
        {
          assert rest[k] in multiset(rest);
          if rest[k] != x {
            assert rest[k] in multiset(s[1..]);
            assert rest[k] in s[1..];
          }
        }
      }
      [s[0]] + rest
  }

  /** Insertion sort: a sorted permutation of s. */
  function Sort<T(!new)>(less: (T, T) -> bool, s: seq<T>): (r: seq<T>)
    requires StrictOrder(less)
    ensures SortedBy(less, r)
    ensures multiset(r) == multiset(s)
    ensures |r| == |s|
    decreases |s|
  {
    if |s| == 0 then []
    else
      assert s == s[..|s| - 1] + [s[|s| - 1]];
      Insert(less, s[|s| - 1], Sort(less, s[..|s| - 1]))
  }

  /** Adds x to a strictly sorted sequence unless it is already there. */
  function InsertUnique<T(==,!new)>(less: (T, T) -> bool, x: T, s: seq<T>): (r: seq<T>)
    requires StrictTotalOrder(less)
    requires StrictlySortedBy(less, s)
    ensures StrictlySortedBy(less, r)
    ensures forall y :: y in r <==> y == x || y in s
  {
    if |s| == 0 then [x]
    else if x == s[0] then s
    else if less(x, s[0]) then [x] + s
    else
      var rest := InsertUnique(less, x, s[1..]);
      assert less(s[0], x);
      assert forall k :: 0 <= k < |rest| ==> less(s[0], rest[k]) by {
        forall k | 0 <= k < |rest|
          ensures less(s[0], rest[k])
        {
          assert rest[k] in rest;
          if rest[k] != x {
            assert rest[k] in s[1..];
          }
        }
      }
      [s[0]] + rest
  }

  /** The distinct values of xs in ascending order. */
  function SortedSet<T(==,!new)>(less: (T, T) -> bool, xs: seq<T>): (r: seq<T>)
    requires StrictTotalOrder(less)
    ensures StrictlySortedBy(less, r)
    ensures forall y :: y in r <==> y in xs
    decreases |xs|
  {
    if |xs| == 0 then []
    else
      assert xs == xs[..|xs| - 1] + [xs[|xs| - 1]];
      InsertUnique(less, xs[|xs| - 1], SortedSet(less, xs[..|xs| - 1]))
  }

  /** A strictly sorted sequence repeats nothing. */
  lemma StrictlySortedDistinct<T(!new)>(less: (T, T) -> bool, s: seq<T>)
    requires Irreflexive(less)
    requires StrictlySortedBy(less, s)
    ensures forall i, j :: 0 <= i < j < |s| ==> s[i] != s[j]
  {
  }
}
