/** What get_chemistry_values does with the fetched rows before reshaping them:
    drop exact duplicates, report every row whose identity key is shared, and,
    when there is anything to report, keep only the last row per key. */
module Reconcile {
  import opened Wrappers
  import opened Orders
  import opened Seqs
  import opened Records

  function KeysOf(rows: seq<Row>): (ks: seq<IdentityKey>)
    ensures |ks| == |rows|
  {
    seq(|rows|, i requires 0 <= i < |rows| => KeyOf(rows[i]))
  }

  /** How many rows carry key k. */
  function KeyCount(rows: seq<Row>, k: IdentityKey): nat {
    multiset(KeysOf(rows))[k]
  }

  /** No two rows share an identity key. */
  ghost predicate UniqueKeys(rows: seq<Row>) {
    forall i, j :: 0 <= i < j < |rows| ==> KeyOf(rows[i]) != KeyOf(rows[j])
  }

  // ---------------------------------------------------------------------------
  // Conflict report

  /** `df.duplicated(subset=key, keep=False)`: true for every row whose key
      occurs more than once. */
  function SharedKeyMask(rows: seq<Row>): seq<bool> {
    seq(|rows|, i requires 0 <= i < |rows| => KeyCount(rows, KeyOf(rows[i])) >= 2)
  }

  /** `dup_df`: the rows whose key is shared, sorted by key. */
  function ConflictReport(rows: seq<Row>): (report: seq<Row>)
    ensures SortedBy(RowLessByKey, report)
    ensures forall x :: multiset(report)[x] == if KeyCount(rows, KeyOf(x)) >= 2 then multiset(rows)[x] else 0
  {
    var mask := SharedKeyMask(rows);
    RowLessByKeyStrict();
    SelectByValue(rows, mask, x => KeyCount(rows, KeyOf(x)) >= 2);
    Sort(RowLessByKey, Select(rows, mask))
  }

  /** The report holds exactly the rows whose key occurs at least twice. */
  lemma ConflictReportMembers(rows: seq<Row>, x: Row)
    ensures x in ConflictReport(rows) <==> x in rows && KeyCount(rows, KeyOf(x)) >= 2
  {
    var report := ConflictReport(rows);
    assert x in report <==> multiset(report)[x] > 0;
    assert x in rows <==> multiset(rows)[x] > 0;
  }

  /** Rows sharing a key are counted as shared. */
  lemma SharedKeyCounted(rows: seq<Row>, i: nat, j: nat)
    requires i < j < |rows| && KeyOf(rows[i]) == KeyOf(rows[j])
    ensures KeyCount(rows, KeyOf(rows[i])) >= 2
  {
    TwoOccurrences(KeysOf(rows), i, j);
  }

  /** An empty report means no key was shared. */
  lemma EmptyReportMeansUniqueKeys(rows: seq<Row>)
    requires |ConflictReport(rows)| == 0
    ensures UniqueKeys(rows)
  {
    forall i, j | 0 <= i < j < |rows|
      ensures KeyOf(rows[i]) != KeyOf(rows[j])
    {
      if KeyOf(rows[i]) == KeyOf(rows[j]) {
        SharedKeyCounted(rows, i, j);
      }
    }
  }

  /** Every row of the report shares its key with another row of the report. */
  ghost predicate EveryRowHasPartner(report: seq<Row>) {
    forall i :: 0 <= i < |report| ==>
      exists j :: 0 <= j < |report| && j != i && KeyOf(report[j]) == KeyOf(report[i])
  }

  /** Two rows of the report that share a key differ in the flag or the value. */
  ghost predicate SharedKeysDisagree(report: seq<Row>) {
    forall i, j :: 0 <= i < j < |report| && KeyOf(report[i]) == KeyOf(report[j]) ==>
      report[i].flag1 != report[j].flag1 || report[i].value != report[j].value
  }

  /** After exact dedupe, every report row has a partner with its key, and two
      report rows that share a key differ in the flag or the value: the report
      shows real disagreements, never copies. */
  lemma ReportedRowsDisagree(fetched: seq<Row>)
    ensures EveryRowHasPartner(ConflictReport(DropDuplicates(fetched)))
    ensures SharedKeysDisagree(ConflictReport(DropDuplicates(fetched)))
  {
    ReportedRowsHavePartners(DropDuplicates(fetched));
    RowsSharingAKeyDisagree(fetched);
  }

  lemma ReportedRowsHavePartners(d: seq<Row>)
    requires NoDups(d)
    ensures EveryRowHasPartner(ConflictReport(d))
  {
    var report := ConflictReport(d);
    forall i | 0 <= i < |report|
      ensures exists j :: 0 <= j < |report| && j != i && KeyOf(report[j]) == KeyOf(report[i])
    {
      ReportedRowHasPartner(d, i);
    }
  }

  /** A report row's key occurs twice among the deduped rows, so another,
      different deduped row carries it, and that row is reported too. */
  lemma ReportedRowHasPartner(d: seq<Row>, i: nat)
    requires NoDups(d) && i < |ConflictReport(d)|
    ensures exists j :: 0 <= j < |ConflictReport(d)| && j != i && KeyOf(ConflictReport(d)[j]) == KeyOf(ConflictReport(d)[i])
  {
    var report := ConflictReport(d);
    var x := report[i];
    assert x in report;
    PartnerIn(d, x);
    var y :| y in report && y != x && KeyOf(y) == KeyOf(x);
    var j :| 0 <= j < |report| && report[j] == y;
    assert j != i;
  }

  lemma PartnerIn(d: seq<Row>, x: Row)
    requires NoDups(d) && x in ConflictReport(d)
    ensures exists y :: y in ConflictReport(d) && y != x && KeyOf(y) == KeyOf(x)
  {
    ConflictReportMembers(d, x);
    var i0 :| 0 <= i0 < |d| && d[i0] == x;
    var kc := KeysOf(d);
    assert kc[i0] == KeyOf(x);
    CountedTwice(kc, i0);
    var j0 :| 0 <= j0 < |kc| && j0 != i0 && kc[j0] == kc[i0];
    var y := d[j0];
    assert y != x by {
      if i0 < j0 { assert d[i0] != d[j0]; } else { assert d[j0] != d[i0]; }
    }
    ConflictReportMembers(d, y);
  }

  lemma RowsSharingAKeyDisagree(fetched: seq<Row>)
    ensures SharedKeysDisagree(ConflictReport(DropDuplicates(fetched)))
  {
    var d := DropDuplicates(fetched);
    var report := ConflictReport(d);
    NoDupsCount(d);
    assert forall x :: multiset(report)[x] <= 1;
    CountNoDups(report);
    forall i, j | 0 <= i < j < |report| && KeyOf(report[i]) == KeyOf(report[j])
      ensures report[i].flag1 != report[j].flag1 || report[i].value != report[j].value
    {
      SameKeyDiffersInFlagOrValue(report[i], report[j]);
    }
  }

  // ---------------------------------------------------------------------------
  // Keep the last row per key

  /** The last row carrying key k in sequence order, if any. */
  function LastWithKey(rows: seq<Row>, k: IdentityKey): (r: Option<Row>)
    ensures r.None? <==> k !in KeysOf(rows)
    ensures r.Some? ==> KeyOf(r.value) == k && r.value in rows
    decreases |rows|
  {
    if |rows| == 0 then None
    else
      var n := |rows| - 1;
      assert KeysOf(rows) == KeysOf(rows[..n]) + [KeyOf(rows[n])];
      if KeyOf(rows[n]) == k then Some(rows[n]) else LastWithKey(rows[..n], k)
  }

  /** `~df.duplicated(subset=key, keep='last')`: true where no later row has the same key. */
  function LastOccurrenceMask(rows: seq<Row>): seq<bool> {
    seq(|rows|, i requires 0 <= i < |rows| => KeyOf(rows[i]) !in KeysOf(rows[i + 1..]))
  }

  lemma LaterKeyIsSeen(rows: seq<Row>, i: nat, j: nat)
    requires i < j < |rows|
    ensures KeyOf(rows[j]) in KeysOf(rows[i + 1..])
  {
    assert KeysOf(rows[i + 1..])[j - i - 1] == KeyOf(rows[j]);
  }

  /** Position of the last row carrying key k. */
  function LastIndex(rows: seq<Row>, k: IdentityKey): (i: nat)
    requires k in KeysOf(rows)
    ensures i < |rows| && KeyOf(rows[i]) == k && k !in KeysOf(rows[i + 1..])
    decreases |rows|
  {
    var n := |rows| - 1;
    assert KeysOf(rows) == KeysOf(rows[..n]) + [KeyOf(rows[n])];
    if KeyOf(rows[n]) == k then
      assert rows[n + 1..] == [];
      n
    else
      var i := LastIndex(rows[..n], k);
      assert KeysOf(rows[i + 1..]) == KeysOf(rows[..n][i + 1..]) + [KeyOf(rows[n])];
      i
  }

  /** A row no later row shares a key with is the last row with that key. */
  lemma {:induction false} LastWithKeyAt(rows: seq<Row>, p: nat)
    requires p < |rows| && KeyOf(rows[p]) !in KeysOf(rows[p + 1..])
    ensures LastWithKey(rows, KeyOf(rows[p])) == Some(rows[p])
    decreases |rows|
  {
    var n := |rows| - 1;
    if p < n {
      LaterKeyIsSeen(rows, p, n);
      assert KeysOf(rows[..n][p + 1..]) == KeysOf(rows[p + 1..])[..n - p - 1];
      LastWithKeyAt(rows[..n], p);
    }
  }

  lemma KeepLastUnique(rows: seq<Row>)
    ensures UniqueKeys(Select(rows, LastOccurrenceMask(rows)))
  {
    var mask := LastOccurrenceMask(rows);
    var r := Select(rows, mask);
    var ps := Positions(mask, 0);
    forall k, l | 0 <= k < l < |r|
      ensures KeyOf(r[k]) != KeyOf(r[l])
    {
      LaterKeyIsSeen(rows, ps[k], ps[l]);
    }
  }

  lemma KeepLastLastWins(rows: seq<Row>)
    ensures forall x :: x in Select(rows, LastOccurrenceMask(rows)) ==> LastWithKey(rows, KeyOf(x)) == Some(x)
  {
    var mask := LastOccurrenceMask(rows);
    var r := Select(rows, mask);
    var ps := Positions(mask, 0);
    forall x | x in r
      ensures LastWithKey(rows, KeyOf(x)) == Some(x)
    {
      var k :| 0 <= k < |r| && r[k] == x;
      LastWithKeyAt(rows, ps[k]);
    }
  }

  lemma KeepLastKeys(rows: seq<Row>)
    ensures forall k :: k in KeysOf(Select(rows, LastOccurrenceMask(rows))) <==> k in KeysOf(rows)
  {
    forall k
      ensures k in KeysOf(Select(rows, LastOccurrenceMask(rows))) <==> k in KeysOf(rows)
    {
      if k in KeysOf(Select(rows, LastOccurrenceMask(rows))) {
        KeptKeyWasFetched(rows, k);
      }
      if k in KeysOf(rows) {
        FetchedKeyIsKept(rows, k);
      }
    }
  }

  lemma KeptKeyWasFetched(rows: seq<Row>, k: IdentityKey)
    requires k in KeysOf(Select(rows, LastOccurrenceMask(rows)))
    ensures k in KeysOf(rows)
  {
    var r := Select(rows, LastOccurrenceMask(rows));
    var ps := Positions(LastOccurrenceMask(rows), 0);
    var t :| 0 <= t < |r| && KeysOf(r)[t] == k;
    assert KeysOf(rows)[ps[t]] == k;
  }

  lemma FetchedKeyIsKept(rows: seq<Row>, k: IdentityKey)
    requires k in KeysOf(rows)
    ensures k in KeysOf(Select(rows, LastOccurrenceMask(rows)))
  {
    var mask := LastOccurrenceMask(rows);
    var r := Select(rows, mask);
    var ps := Positions(mask, 0);
    var i := LastIndex(rows, k);
    assert mask[i];
    var t :| 0 <= t < |ps| && ps[t] == i;
    assert KeysOf(r)[t] == k;
  }

  /** Every position in idx is the last one in rows carrying its key. */
  ghost predicate AtLastPositions(rows: seq<Row>, idx: seq<nat>) {
    forall k :: 0 <= k < |idx| ==> idx[k] < |rows| && KeyOf(rows[idx[k]]) !in KeysOf(rows[idx[k] + 1..])
  }

  /** `df.drop_duplicates(subset=key, keep='last')`: each survivor stays at the
      position of the last row with its key, so survivors keep the order of
      those positions. */
  function KeepLast(rows: seq<Row>): (r: seq<Row>)
    ensures UniqueKeys(r)
    ensures forall k :: k in KeysOf(r) <==> k in KeysOf(rows)
    ensures forall x :: x in r ==> LastWithKey(rows, KeyOf(x)) == Some(x)
    ensures exists idx :: SubsequenceAt(r, rows, idx) && AtLastPositions(rows, idx)
    ensures IsSubsequence(r, rows)
  {
    KeepLastUnique(rows);
    KeepLastLastWins(rows);
    KeepLastKeys(rows);
    var mask := LastOccurrenceMask(rows);
    var r := Select(rows, mask);
    assert AtLastPositions(rows, Positions(mask, 0));
    r
  }

  /** A later row with a new key moves the earlier key's survivor behind it. */
  lemma KeepLastExample(a: Row, b: Row)
    requires KeyOf(a) != KeyOf(b)
    ensures KeepLast([a, b, a]) == [b, a]
  {
    var rows := [a, b, a];
    var mask := LastOccurrenceMask(rows);
    assert rows[1..] == [b, a] && rows[2..] == [a] && rows[3..] == [];
    assert KeysOf([b, a]) == [KeyOf(b), KeyOf(a)];
    assert KeysOf([a]) == [KeyOf(a)];
    assert mask == [false, true, true];
    assert Positions(mask, 3) == [];
    assert Positions(mask, 2) == [2];
    assert Positions(mask, 1) == [1, 2];
    assert Positions(mask, 0) == [1, 2];
  }

  /** With keys already unique, keeping the last row per key changes nothing. */
  lemma KeepLastOfUnique(rows: seq<Row>)
    requires UniqueKeys(rows)
    ensures KeepLast(rows) == rows
  {
    var mask := LastOccurrenceMask(rows);
    assert forall i :: 0 <= i < |rows| ==> mask[i];
    SelectAll(rows, mask);
  }

  /** The branch on the report (`if len(dup_df) > 0`). */
  function Resolve(rows: seq<Row>, report: seq<Row>): seq<Row> {
    if |report| > 0 then KeepLast(rows) else rows
  }

  /** The branch is only an optimisation: resolving always equals keeping the
      last row per key, so rows are unchanged exactly when keys are unique. */
  lemma ResolveIsKeepLast(rows: seq<Row>)
    ensures Resolve(rows, ConflictReport(rows)) == KeepLast(rows)
  {
    if |ConflictReport(rows)| == 0 {
      EmptyReportMeansUniqueKeys(rows);
      KeepLastOfUnique(rows);
    }
  }

  // ---------------------------------------------------------------------------
  // The three steps together

  datatype Reconciled = Reconciled(rows: seq<Row>, report: seq<Row>)

  /** Exact dedupe, conflict report, last-wins resolution. */
  function ReconcileRows(fetched: seq<Row>): (r: Reconciled)
    ensures UniqueKeys(r.rows)
    ensures forall k :: k in KeysOf(r.rows) <==> k in KeysOf(fetched)
    ensures forall x :: x in r.rows ==> LastWithKey(DropDuplicates(fetched), KeyOf(x)) == Some(x)
    ensures IsSubsequence(r.rows, DropDuplicates(fetched))
    ensures IsSubsequence(r.rows, fetched)
    ensures forall x :: x in r.report <==> x in fetched && KeyCount(DropDuplicates(fetched), KeyOf(x)) >= 2
    ensures SortedBy(RowLessByKey, r.report)
    ensures NoDups(r.report)
  {
    var deduped := DropDuplicates(fetched);
    var report := ConflictReport(deduped);
    NoDupsCount(deduped);
    assert forall x :: multiset(report)[x] <= 1;
    CountNoDups(report);
    ResolveIsKeepLast(deduped);
    var resolved := Resolve(deduped, report);
    forall x ensures x in report <==> x in deduped && KeyCount(deduped, KeyOf(x)) >= 2 {
      ConflictReportMembers(deduped, x);
    }
    DropDuplicatesKeys(fetched);
    SubsequenceTransitive(resolved, deduped, fetched);
    Reconciled(resolved, report)
  }

  /** Exact dedupe loses no identity key. */
  lemma DropDuplicatesKeys(fetched: seq<Row>)
    ensures forall k :: k in KeysOf(DropDuplicates(fetched)) <==> k in KeysOf(fetched)
  {
    var deduped := DropDuplicates(fetched);
    forall k
      ensures k in KeysOf(deduped) <==> k in KeysOf(fetched)
    {
      if k in KeysOf(deduped) {
        var t :| 0 <= t < |deduped| && KeysOf(deduped)[t] == k;
        assert deduped[t] in fetched;
        var u :| 0 <= u < |fetched| && fetched[u] == deduped[t];
        assert KeysOf(fetched)[u] == k;
      }
      if k in KeysOf(fetched) {
        var u :| 0 <= u < |fetched| && KeysOf(fetched)[u] == k;
        assert fetched[u] in deduped;
        var t :| 0 <= t < |deduped| && deduped[t] == fetched[u];
        assert KeysOf(deduped)[t] == k;
      }
    }
  }

  lemma DropRepeatedFirst(a: Row, b: Row)
    requires a != b
    ensures DropDuplicates([a, b, a]) == [a, b]
  {
    DropDuplicatesKeepsFirst([a, b, a]);
    assert [a, b, a][..2] == [a, b] && [a, b][..1] == [a] && [a][..0] == [];
    assert FirstOccurrences([a]) == [a];
    assert FirstOccurrences([a, b]) == [a, b];
  }

  /** "Last" is taken after exact dedupe, which keeps first copies: when an
      identical copy of an earlier row arrives after a conflicting row, the
      conflicting row wins although it was not fetched last. */
  lemma LastCountedAfterDedupe(a: Row, b: Row)
    requires KeyOf(a) == KeyOf(b) && a != b
    ensures ReconcileRows([a, b, a]).rows == [b]
  {
    DropRepeatedFirst(a, b);
    var d := DropDuplicates([a, b, a]);
    assert LastWithKey(d, KeyOf(b)) == Some(b);
    var r := ReconcileRows([a, b, a]).rows;
    assert KeysOf([a, b, a])[1] == KeyOf(b);
    OnlyRow(r, b);
  }

  lemma OnlyRow(r: seq<Row>, b: Row)
    requires UniqueKeys(r)
    requires forall x :: x in r ==> x == b
    requires KeyOf(b) in KeysOf(r)
    ensures r == [b]
  {
    assert |r| > 0;
    forall i | 0 <= i < |r|
      ensures r[i] == b
    {
      assert r[i] in r;
    }
    assert |r| > 1 ==> KeyOf(r[0]) == KeyOf(r[1]);
    assert r == [r[0]];
  }

  /** Rows whose identity keys are already distinct pass reconciliation unchanged. */
  lemma ReconcileOfUniqueKeys(fetched: seq<Row>)
    requires UniqueKeys(fetched)
    ensures ReconcileRows(fetched).rows == fetched
  {
    assert NoDups(fetched) by {
      forall i, j | 0 <= i < j < |fetched|
        ensures fetched[i] != fetched[j]
      {
        assert KeyOf(fetched[i]) != KeyOf(fetched[j]);
      }
    }
    DropDuplicatesOfDistinct(fetched);
    ResolveIsKeepLast(fetched);
    KeepLastOfUnique(fetched);
  }
}
