/** Boolean-mask selection over sequences of rows, and exact-duplicate removal.
    A data frame's `df[mask]` keeps the rows whose mask entry is true, in their
    original order; `drop_duplicates()` is such a selection with the mask "not
    seen before". */
module Seqs {

  ghost predicate NoDups<T>(s: seq<T>) {
    forall i, j :: 0 <= i < j < |s| ==> s[i] != s[j]
  }

  ghost predicate Increasing(ps: seq<nat>) {
    forall k, l :: 0 <= k < l < |ps| ==> ps[k] < ps[l]
  }

  /** r is s restricted to the ascending positions idx. */
  ghost predicate SubsequenceAt<T>(r: seq<T>, s: seq<T>, idx: seq<nat>) {
    && |idx| == |r|
    && Increasing(idx)
    && (forall k :: 0 <= k < |idx| ==> idx[k] < |s| && r[k] == s[idx[k]])
  }

  ghost predicate IsSubsequence<T>(r: seq<T>, s: seq<T>) {
    exists idx :: SubsequenceAt(r, s, idx)
  }

  /** The positions at or after `from` where the mask is true, ascending. */
  function Positions(mask: seq<bool>, from: nat): (ps: seq<nat>)
    requires from <= |mask|
    ensures Increasing(ps)
    ensures forall k :: 0 <= k < |ps| ==> from <= ps[k] < |mask| && mask[ps[k]]
    ensures forall i :: from <= i < |mask| && mask[i] ==> i in ps
    decreases |mask| - from
  {
    if from == |mask| then []
    else if mask[from] then [from] + Positions(mask, from + 1)
    else Positions(mask, from + 1)
  }

  /** `df[mask]`: the elements whose mask entry is true, in order. */
  function Select<T>(s: seq<T>, mask: seq<bool>): (r: seq<T>)
    requires |mask| == |s|
    ensures SubsequenceAt(r, s, Positions(mask, 0))
  {
    var ps := Positions(mask, 0);
    seq(|ps|, k requires 0 <= k < |ps| => s[ps[k]])
  }

  lemma {:induction false} PositionsAppend(mask: seq<bool>, b: bool, from: nat)
    requires from <= |mask|
    ensures Positions(mask + [b], from) == Positions(mask, from) + (if b then [|mask|] else [])
    decreases |mask| - from
  {
    if from < |mask| {
      PositionsAppend(mask, b, from + 1);
      assert (mask + [b])[from] == mask[from];
    }
  }

  /** Extending the input by one element extends the selection by at most that element. */
  lemma SelectAppend<T>(s: seq<T>, mask: seq<bool>, x: T, b: bool)
    requires |mask| == |s|
    ensures Select(s + [x], mask + [b]) == Select(s, mask) + (if b then [x] else [])
  {
    PositionsAppend(mask, b, 0);
  }

  lemma {:induction false} PositionsAll(mask: seq<bool>, from: nat)
    requires from <= |mask|
    requires forall i :: 0 <= i < |mask| ==> mask[i]
    ensures |Positions(mask, from)| == |mask| - from
    ensures forall k :: 0 <= k < |mask| - from ==> Positions(mask, from)[k] == from + k
    decreases |mask| - from
  {
    if from < |mask| {
      PositionsAll(mask, from + 1);
    }
  }

  /** A mask that keeps everything keeps the sequence as it is. */
  lemma SelectAll<T>(s: seq<T>, mask: seq<bool>)
    requires |mask| == |s|
    requires forall i :: 0 <= i < |mask| ==> mask[i]
    ensures Select(s, mask) == s
  {
    PositionsAll(mask, 0);
  }

  /** When the mask is a function p of the element alone, the selection is the
      sub-multiset of elements satisfying p. */
  lemma {:induction false} SelectByValue<T>(s: seq<T>, mask: seq<bool>, p: T -> bool)
    requires |mask| == |s|
    requires forall i :: 0 <= i < |s| ==> mask[i] == p(s[i])
    ensures forall x :: multiset(Select(s, mask))[x] == if p(x) then multiset(s)[x] else 0
    decreases |s|
  {
    if |s| == 0 {
    } else {
      var n := |s| - 1;
      SelectByValue(s[..n], mask[..n], p);
      SelectAppend(s[..n], mask[..n], s[n], mask[n]);
      assert s[..n] + [s[n]] == s;
      assert mask[..n] + [mask[n]] == mask;
    }
  }

  /** Index of the first occurrence of x. */
  function FirstIndex<T(==)>(s: seq<T>, x: T): (i: nat)
    requires x in s
    ensures i < |s| && s[i] == x && x !in s[..i]
  {
    if s[0] == x then 0
    else
      var j := FirstIndex(s[1..], x);
      assert s[..j + 1] == [s[0]] + s[1..][..j];
      j + 1
  }

  /** True where the element has not been seen earlier (`~df.duplicated()`). */
  function FirstOccurrenceMask<T(==)>(s: seq<T>): seq<bool> {
    seq(|s|, i requires 0 <= i < |s| => s[i] !in s[..i])
  }

  /** `df.drop_duplicates()`: removes every row equal to an earlier one. */
  function DropDuplicates<T(==,!new)>(s: seq<T>): (r: seq<T>)
    ensures NoDups(r)
    ensures forall x :: x in r <==> x in s
    ensures IsSubsequence(r, s)
  {
    var mask := FirstOccurrenceMask(s);
    var r := Select(s, mask);
    var ps := Positions(mask, 0);
    assert forall k, l :: 0 <= k < l < |r| ==> r[k] != r[l] by {
      forall k, l | 0 <= k < l < |r|
        ensures r[k] != r[l]
      {
        assert r[k] == s[ps[k]] && r[l] == s[ps[l]];
        assert s[ps[k]] in s[..ps[l]];
      }
    }
    assert forall x :: x in s ==> x in r by {
      forall x | x in s
        ensures x in r
      {
        var i := FirstIndex(s, x);
        assert mask[i];
        var k :| 0 <= k < |ps| && ps[k] == i;
        assert r[k] == x;
      }
    }
    r
  }

  /** Reference definition: walk the input, appending each element not seen before. */
  function FirstOccurrences<T(==)>(s: seq<T>): seq<T>
    decreases |s|
  {
    if |s| == 0 then []
    else
      var init := s[..|s| - 1];
      if s[|s| - 1] in init then FirstOccurrences(init)
      else FirstOccurrences(init) + [s[|s| - 1]]
  }

  /** Exact dedupe keeps the first occurrence of every row, in input order. */
  lemma {:induction false} DropDuplicatesKeepsFirst<T(!new)>(s: seq<T>)
    ensures DropDuplicates(s) == FirstOccurrences(s)
    decreases |s|
  {
    if |s| > 0 {
      var n := |s| - 1;
      DropDuplicatesKeepsFirst(s[..n]);
      var m := FirstOccurrenceMask(s[..n]);
      assert FirstOccurrenceMask(s) == m + [s[n] !in s[..n]] by {
        assert forall i :: 0 <= i < n ==> s[..i] == s[..n][..i];
      }
      SelectAppend(s[..n], m, s[n], s[n] !in s[..n]);
      assert s[..n] + [s[n]] == s;
    }
  }

  lemma {:induction false} FirstOccurrencesOfDistinct<T>(s: seq<T>)
    requires NoDups(s)
    ensures FirstOccurrences(s) == s
    decreases |s|
  {
    if |s| > 0 {
      var n := |s| - 1;
      FirstOccurrencesOfDistinct(s[..n]);
      assert s[..n] + [s[n]] == s;
    }
  }

  /** Exact dedupe is idempotent. */
  lemma DropDuplicatesIdempotent<T(!new)>(s: seq<T>)
    ensures DropDuplicates(DropDuplicates(s)) == DropDuplicates(s)
  {
    var d := DropDuplicates(s);
    DropDuplicatesKeepsFirst(d);
    FirstOccurrencesOfDistinct(d);
  }

  /** A sequence without repeats is left as it is. */
  lemma DropDuplicatesOfDistinct<T(!new)>(s: seq<T>)
    requires NoDups(s)
    ensures DropDuplicates(s) == s
  {
    DropDuplicatesKeepsFirst(s);
    FirstOccurrencesOfDistinct(s);
  }

  /** Two equal entries at different positions mean the value occurs at least twice. */
  lemma TwoOccurrences<T>(s: seq<T>, i: nat, j: nat)
    requires i < j < |s| && s[i] == s[j]
    ensures multiset(s)[s[i]] >= 2
  {
    assert s == s[..j] + [s[j]] + s[j + 1..];
    assert s[i] in multiset(s[..j]);
  }

  /** An entry whose value is counted twice has a twin at another position. */
  lemma CountedTwice<T>(s: seq<T>, i: nat)
    requires i < |s| && multiset(s)[s[i]] >= 2
    ensures exists j :: 0 <= j < |s| && j != i && s[j] == s[i]
  {
    var x := s[i];
    assert s == s[..i] + [x] + s[i + 1..];
    assert multiset(s)[x] == multiset(s[..i])[x] + 1 + multiset(s[i + 1..])[x];
    if x in s[..i] {
      var j :| 0 <= j < i && s[..i][j] == x;
    } else {
      assert x in s[i + 1..];
      var t :| 0 <= t < |s| - i - 1 && s[i + 1..][t] == x;
      assert s[i + 1 + t] == x;
    }
  }

  lemma {:induction false} NoDupsCount<T>(s: seq<T>)
    requires NoDups(s)
    ensures forall x :: multiset(s)[x] <= 1
    decreases |s|
  {
    if |s| > 0 {
      var n := |s| - 1;
      NoDupsCount(s[..n]);
      assert s == s[..n] + [s[n]];
      assert s[n] !in s[..n];
    }
  }

  /** A sequence in which nothing occurs twice repeats nothing. */
  lemma CountNoDups<T>(s: seq<T>)
    requires forall x :: multiset(s)[x] <= 1
    ensures NoDups(s)
  {
    forall i, j | 0 <= i < j < |s|
      ensures s[i] != s[j]
    {
      if s[i] == s[j] {
        TwoOccurrences(s, i, j);
      }
    }
  }

  /** A subsequence of a subsequence is a subsequence. */
  lemma SubsequenceTransitive<T>(a: seq<T>, b: seq<T>, c: seq<T>)
    requires IsSubsequence(a, b) && IsSubsequence(b, c)
    ensures IsSubsequence(a, c)
  {
    var i1 :| SubsequenceAt(a, b, i1);
    var i2 :| SubsequenceAt(b, c, i2);
    var idx := seq(|i1|, k requires 0 <= k < |i1| => i2[i1[k]]);
    assert SubsequenceAt(a, c, idx);
  }

  lemma SubsequenceMembers<T>(r: seq<T>, s: seq<T>)
    requires IsSubsequence(r, s)
    ensures forall x :: x in r ==> x in s
  {
    var idx :| SubsequenceAt(r, s, idx);
    forall x | x in r
      ensures x in s
    {
      var k :| 0 <= k < |r| && r[k] == x;
      assert s[idx[k]] == x;
    }
  }

}
