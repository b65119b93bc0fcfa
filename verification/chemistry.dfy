/** get_chemistry_values end to end: selection checks and bind parameters,
    then the fetched rows (an input here: the database is not modelled) are
    reconciled and reshaped into the wide table, returned with the report of
    conflicting rows. */
module Chemistry {
  import opened Wrappers
  import opened Orders
  import opened Seqs
  import opened Records
  import opened Selection
  import opened Reconcile
  import opened Pivot

  datatype ChemistryError = SelectionFailed(selection: SelectionError) | ReshapeFailed(reshape: PivotError)

  /** The returned pair `(df, dup_df)`. */
  datatype ChemistryValues = ChemistryValues(table: Wide, duplicates: seq<Row>)

  /** What the query's WHERE clause guarantees of every fetched row that can be
      seen in its columns: a selected station and a date within [stDt, endDt]. */
  ghost predicate FetchedBy(fetched: seq<Row>, stnIds: seq<int>, stDt: Date, endDt: Date) {
    forall x :: x in fetched ==> x.stationId in stnIds && stDt <= x.sampleDate <= endDt
  }

  function GetChemistryValues(stnIds: seq<int>, parIds: seq<int>, stDt: Date, endDt: Date,
                              lodFlags: bool, render: real -> string, fetched: seq<Row>)
    : (r: Result<ChemistryValues, ChemistryError>)
    requires FetchedBy(fetched, stnIds, stDt, endDt)
    ensures |stnIds| == 0 ==> r == Failure(SelectionFailed(NoStations))
    ensures |stnIds| > 0 && |parIds| == 0 ==> r == Failure(SelectionFailed(NoParameters))
    ensures r.Failure? && |stnIds| > 0 && |parIds| > 0 ==> r.error == ReshapeFailed(DuplicateEntries)
    ensures r.Success? ==> forall x :: x in r.value.duplicates <==>
              x in fetched && KeyCount(DropDuplicates(fetched), KeyOf(x)) >= 2
    ensures r.Success? ==> NoDups(r.value.duplicates) && SortedBy(RowLessByKey, r.value.duplicates)
  {
    match ChemistryQueryOf(stnIds, parIds, stDt, endDt)
    case Failure(e) => Failure(SelectionFailed(e))
    case Success(_) =>
      var rec := ReconcileRows(fetched);
      match Unstack(ToLongRows(rec.rows, lodFlags, render))
      case Failure(e) => Failure(ReshapeFailed(e))
      case Success(w) => Success(ChemistryValues(w, rec.report))
  }

  /** Two rows of one wide row whose distinct (name, unit) pairs join to one column name. */
  predicate NamesClash(a: Row, b: Row) {
    && RowKeyOf(a) == RowKeyOf(b)
    && (a.parameterName, a.unit) != (b.parameterName, b.unit)
    && ColumnName(a.parameterName, a.unit) == ColumnName(b.parameterName, b.unit)
  }

  /** Two surviving rows end up in the same cell exactly when they share the
      wide-row key and the column name. With unique identity keys that needs
      two different (name, unit) pairs with one column name. */
  lemma LongCollisionMeansNameClash(rows: seq<Row>, lodFlags: bool, render: real -> string)
    requires UniqueKeys(rows)
    requires HasCollision(ToLongRows(rows, lodFlags, render))
    ensures exists i, j :: 0 <= i < j < |rows| && NamesClash(rows[i], rows[j])
  {
    var long := ToLongRows(rows, lodFlags, render);
    var i, j :| 0 <= i < j < |long| && InSlot(long[j], long[i].key, long[i].parUnit);
    assert KeyOf(rows[i]) != KeyOf(rows[j]);
  }

  /** When no unit contains '_', column names cannot clash and the reshape
      never fails once a selection is given. */
  lemma PlainUnitsNeverCollide(stnIds: seq<int>, parIds: seq<int>, stDt: Date, endDt: Date,
                               lodFlags: bool, render: real -> string, fetched: seq<Row>)
    requires FetchedBy(fetched, stnIds, stDt, endDt)
    requires |stnIds| > 0 && |parIds| > 0
    requires forall x :: x in fetched ==> '_' !in x.unit
    ensures GetChemistryValues(stnIds, parIds, stDt, endDt, lodFlags, render, fetched).Success?
  {
    var rows := ReconcileRows(fetched).rows;
    SubsequenceMembers(rows, fetched);
    PlainUnitsUnstack(rows, lodFlags, render);
  }

  /** Rows with distinct identity keys and no '_' in any unit always reshape. */
  lemma PlainUnitsUnstack(rows: seq<Row>, lodFlags: bool, render: real -> string)
    requires UniqueKeys(rows)
    requires forall x :: x in rows ==> '_' !in x.unit
    ensures Unstack(ToLongRows(rows, lodFlags, render)).Success?
  {
    if HasCollision(ToLongRows(rows, lodFlags, render)) {
      LongCollisionMeansNameClash(rows, lodFlags, render);
      var i, j :| 0 <= i < j < |rows| && NamesClash(rows[i], rows[j]);
      assert rows[i] in rows && rows[j] in rows;
      ColumnNameInjective(rows[i].parameterName, rows[i].unit, rows[j].parameterName, rows[j].unit);
    }
  }

  /** Any two fetched rows of one wide row whose (name, unit) pairs differ
      but join to the same column name make the whole call fail. */
  lemma ClashingNamesFail(stnIds: seq<int>, parIds: seq<int>, stDt: Date, endDt: Date,
                          lodFlags: bool, render: real -> string, fetched: seq<Row>, a: Row, b: Row)
    requires FetchedBy(fetched, stnIds, stDt, endDt)
    requires |stnIds| > 0 && |parIds| > 0
    requires a in fetched && b in fetched && NamesClash(a, b)
    ensures GetChemistryValues(stnIds, parIds, stDt, endDt, lodFlags, render, fetched)
         == Failure(ReshapeFailed(DuplicateEntries))
  {
    ClashingSurvivorsCollide(fetched, a, b, lodFlags, render);
  }

  /** Reconciliation keeps one row for each of the two clashing keys, and
      those two rows aim at the same cell. */
  lemma ClashingSurvivorsCollide(fetched: seq<Row>, a: Row, b: Row, lodFlags: bool, render: real -> string)
    requires a in fetched && b in fetched && NamesClash(a, b)
    ensures HasCollision(ToLongRows(ReconcileRows(fetched).rows, lodFlags, render))
  {
    var rows := ReconcileRows(fetched).rows;
    var ua := SurvivorOf(fetched, a);
    var ub := SurvivorOf(fetched, b);
    assert KeyOf(rows[ua]) == KeyOf(a) && KeyOf(rows[ub]) == KeyOf(b);
    assert NamesClash(rows[ua], rows[ub]);
    ClashingRowsCollide(rows, ua, ub, lodFlags, render);
  }

  /** Two clashing rows of one sequence aim at the same cell. */
  lemma ClashingRowsCollide(rows: seq<Row>, i: nat, j: nat, lodFlags: bool, render: real -> string)
    requires i < |rows| && j < |rows| && NamesClash(rows[i], rows[j])
    ensures HasCollision(ToLongRows(rows, lodFlags, render))
  {
    var long := ToLongRows(rows, lodFlags, render);
    assert long[i] == ToLong(rows[i], lodFlags, render);
    assert long[j] == ToLong(rows[j], lodFlags, render);
    assert i != j;
    if i < j {
      assert InSlot(long[j], long[i].key, long[i].parUnit);
    } else {
      assert InSlot(long[i], long[j].key, long[j].parUnit);
    }
  }

  /** With both selections made, the call fails exactly when two fetched rows
      of one wide row clash on their column name. */
  lemma CallFailsIffNamesClash(stnIds: seq<int>, parIds: seq<int>, stDt: Date, endDt: Date,
                               lodFlags: bool, render: real -> string, fetched: seq<Row>)
    requires FetchedBy(fetched, stnIds, stDt, endDt)
    requires |stnIds| > 0 && |parIds| > 0
    ensures GetChemistryValues(stnIds, parIds, stDt, endDt, lodFlags, render, fetched).Failure?
        <==> exists a, b :: a in fetched && b in fetched && NamesClash(a, b)
  {
    var rows := ReconcileRows(fetched).rows;
    if HasCollision(ToLongRows(rows, lodFlags, render)) {
      LongCollisionMeansNameClash(rows, lodFlags, render);
      var i, j :| 0 <= i < j < |rows| && NamesClash(rows[i], rows[j]);
      SubsequenceMembers(rows, fetched);
      assert rows[i] in rows && rows[j] in rows;
    }
    if exists a, b :: a in fetched && b in fetched && NamesClash(a, b) {
      var a, b :| a in fetched && b in fetched && NamesClash(a, b);
      ClashingSurvivorsCollide(fetched, a, b, lodFlags, render);
    }
  }

  /** A concrete instance: ("a_b", "c") and ("a", "b_c") both become column "a_b_c". */
  lemma ClashingNamesExample(render: real -> string)
    ensures GetChemistryValues([1], [7, 8], 0, 0, false, render,
              [Row(1, 0, None, None, "a_b", "c", None, 1.0), Row(1, 0, None, None, "a", "b_c", None, 2.0)])
         == Failure(ReshapeFailed(DuplicateEntries))
  {
    var a := Row(1, 0, None, None, "a_b", "c", None, 1.0);
    var b := Row(1, 0, None, None, "a", "b_c", None, 2.0);
    ColumnNameCollides();
    ClashingNamesFail([1], [7, 8], 0, 0, false, render, [a, b], a, b);
  }

  /** The table has a row with this key and a column with this name, and
      their cell holds c. */
  predicate HasCell(w: Wide, key: RowKey, col: string, c: CellValue) {
    exists r, j :: 0 <= r < |w.rows| && 0 <= j < |w.parColumns| && j < |w.rows[r].cells| &&
      w.rows[r].key == key && w.parColumns[j] == col && w.rows[r].cells[j] == Some(c)
  }

  /** Every fetched row is represented in the table: its wide row and its
      column exist, and the cell holds the merged value of the last row
      (after exact dedupe) with the same identity key. */
  lemma EveryFetchedRowHasItsCell(stnIds: seq<int>, parIds: seq<int>, stDt: Date, endDt: Date,
                                  lodFlags: bool, render: real -> string, fetched: seq<Row>, x: Row)
    requires FetchedBy(fetched, stnIds, stDt, endDt)
    requires x in fetched
    ensures var res := GetChemistryValues(stnIds, parIds, stDt, endDt, lodFlags, render, fetched);
      var last := LastWithKey(DropDuplicates(fetched), KeyOf(x));
      && last.Some?
      && (res.Success? ==>
            HasCell(res.value.table, RowKeyOf(x), ColumnName(x.parameterName, x.unit), CellOf(last.value, lodFlags, render)))
  {
    var u := SurvivorOf(fetched, x);
    var res := GetChemistryValues(stnIds, parIds, stDt, endDt, lodFlags, render, fetched);
    if res.Success? {
      TableIsUnstacked(stnIds, parIds, stDt, endDt, lodFlags, render, fetched);
      RowHasItsCell(ReconcileRows(fetched).rows, lodFlags, render, u);
    }
  }

  /** Each row given to the reshape has a cell under its row key and column name. */
  lemma RowHasItsCell(rows: seq<Row>, lodFlags: bool, render: real -> string, u: nat)
    requires Unstack(ToLongRows(rows, lodFlags, render)).Success?
    requires u < |rows|
    ensures HasCell(Unstack(ToLongRows(rows, lodFlags, render)).value,
                    RowKeyOf(rows[u]), ColumnName(rows[u].parameterName, rows[u].unit), CellOf(rows[u], lodFlags, render))
  {
    var long := ToLongRows(rows, lodFlags, render);
    assert long[u] == ToLong(rows[u], lodFlags, render);
    UnstackPlacesEveryRow(long, u);
  }

  /** On success the table is the unstacked long form of the reconciled rows. */
  lemma TableIsUnstacked(stnIds: seq<int>, parIds: seq<int>, stDt: Date, endDt: Date,
                         lodFlags: bool, render: real -> string, fetched: seq<Row>)
    requires FetchedBy(fetched, stnIds, stDt, endDt)
    ensures var res := GetChemistryValues(stnIds, parIds, stDt, endDt, lodFlags, render, fetched);
      res.Success? ==>
        && Unstack(ToLongRows(ReconcileRows(fetched).rows, lodFlags, render)).Success?
        && res.value.table == Unstack(ToLongRows(ReconcileRows(fetched).rows, lodFlags, render)).value
  {
  }

  /** The index of the surviving row that carries a fetched row's identity key. */
  lemma SurvivorOf(fetched: seq<Row>, x: Row) returns (u: nat)
    requires x in fetched
    ensures var rows := ReconcileRows(fetched).rows;
      && u < |rows| && KeyOf(rows[u]) == KeyOf(x)
      && LastWithKey(DropDuplicates(fetched), KeyOf(x)) == Some(rows[u])
  {
    var rows := ReconcileRows(fetched).rows;
    var t :| 0 <= t < |fetched| && fetched[t] == x;
    assert KeysOf(fetched)[t] == KeyOf(x);
    assert KeyOf(x) in KeysOf(rows);
    var v :| 0 <= v < |rows| && KeysOf(rows)[v] == KeyOf(x);
    assert rows[v] in rows;
    u := v;
  }

  /** Any fetched row witnesses stDt <= endDt. */
  lemma NonEmptyFetchHasOrderedDates(fetched: seq<Row>, stnIds: seq<int>, stDt: Date, endDt: Date)
    requires FetchedBy(fetched, stnIds, stDt, endDt)
    ensures |fetched| > 0 ==> stDt <= endDt
  {
    if |fetched| > 0 {
      assert fetched[0] in fetched;
    }
  }

  /** The code has no date-range check: a start after the end is not an
      error, it simply selects nothing and yields an empty table. */
  lemma ReversedDatesGiveEmptyTable(stnIds: seq<int>, parIds: seq<int>, stDt: Date, endDt: Date,
                                    lodFlags: bool, render: real -> string, fetched: seq<Row>)
    requires FetchedBy(fetched, stnIds, stDt, endDt)
    requires |stnIds| > 0 && |parIds| > 0
    requires endDt < stDt
    ensures var r := GetChemistryValues(stnIds, parIds, stDt, endDt, lodFlags, render, fetched);
      r.Success? && |r.value.table.rows| == 0 && |r.value.table.parColumns| == 0 && |r.value.duplicates| == 0
  {
    NonEmptyFetchHasOrderedDates(fetched, stnIds, stDt, endDt);
    var rec := ReconcileRows([]);
    ReconcileOfUniqueKeys([]);
    assert rec.report == [];
    var long := ToLongRows(rec.rows, lodFlags, render);
    assert long == [];
    var w := Unstack(long).value;
    assert w.parColumns == [] by {
      assert forall c :: c !in w.parColumns;
    }
    assert WideKeys(w) == [] by {
      assert forall k :: k !in WideKeys(w);
    }
  }
}
