/** Turning reconciled rows into the wide table: each row becomes a
    (row key, `parameter_name_unit`, cell) triple, the flag optionally merged
    into the cell text, and `unstack` spreads the triples into one row per
    (station_id, sample_date, depth1, depth2) and one column per parameter-unit. */
module Pivot {
  import opened Wrappers
  import opened Orders
  import opened Records

  /** A wide-table cell: the numeric value, or text when flags are merged in. */
  datatype CellValue = Number(x: real) | Text(s: string)

  /** A row after the `par_unit` column replaced `parameter_name` and `unit`. */
  datatype LongRow = LongRow(key: RowKey, parUnit: string, value: CellValue)

  // ---------------------------------------------------------------------------
  // Flag merge

  /** With `lod_flags`, the flag (empty when null) is put before the value's
      text; without, the flag is dropped and the number kept. `render` stands
      for the float-to-string conversion of `astype(str)`. */
  function CellOf(r: Row, lodFlags: bool, render: real -> string): (c: CellValue)
    ensures c.Text? <==> lodFlags
    ensures !lodFlags ==> c == Number(r.value)
    ensures lodFlags ==> |c.s| == |r.flag1.GetOr("")| + |render(r.value)|
    ensures lodFlags ==> |c.s| >= |render(r.value)| && c.s[|c.s| - |render(r.value)|..] == render(r.value)
    ensures lodFlags && r.flag1.Some? ==> |c.s| >= |r.flag1.value| && c.s[..|r.flag1.value|] == r.flag1.value
  {
    if lodFlags then Text(r.flag1.GetOr("") + render(r.value)) else Number(r.value)
  }

  function ToLong(r: Row, lodFlags: bool, render: real -> string): LongRow {
    LongRow(RowKeyOf(r), ColumnName(r.parameterName, r.unit), CellOf(r, lodFlags, render))
  }

  function ToLongRows(rows: seq<Row>, lodFlags: bool, render: real -> string): (long: seq<LongRow>)
    ensures |long| == |rows|
  {
    seq(|rows|, i requires 0 <= i < |rows| => ToLong(rows[i], lodFlags, render))
  }

  lemma LodMergeExamples(render: real -> string)
    requires render(0.5) == "0.5" && render(12.0) == "12.0"
    ensures CellOf(Row(1, 0, None, None, "Tot-P", "µg/l", Some("<"), 0.5), true, render) == Text("<0.5")
    ensures CellOf(Row(1, 0, None, None, "Ca", "mg/l", None, 12.0), true, render) == Text("12.0")
    ensures CellOf(Row(1, 0, None, None, "Tot-P", "µg/l", Some("<"), 0.5), false, render) == Number(0.5)
  {
  }

  predicate IsLodFlagChar(c: char) {
    c == '<' || c == '>'
  }

  /** Reads a merged cell back: a leading '<' or '>' is the flag, the rest the value text. */
  function SplitLodFlag(t: string): (Option<string>, string) {
    if |t| > 0 && IsLodFlagChar(t[0]) then (Some([t[0]]), t[1..]) else (None, t)
  }

  /** The merge loses nothing for the detection-limit flags '<' and '>' as long
      as the value's text does not itself start with one. */
  lemma LodMergeRecoverable(r: Row, render: real -> string)
    requires r.flag1 == None || r.flag1 == Some("<") || r.flag1 == Some(">")
    requires |render(r.value)| == 0 || !IsLodFlagChar(render(r.value)[0])
    ensures SplitLodFlag(CellOf(r, true, render).s) == (r.flag1, render(r.value))
  {
    var t := CellOf(r, true, render).s;
    if r.flag1.Some? {
      assert t == r.flag1.value + render(r.value);
      assert t[1..] == render(r.value);
    }
  }

  // ---------------------------------------------------------------------------
  // Unstack

  datatype PivotError = DuplicateEntries

  /** One wide row: its key and one optional cell per parameter-unit column. */
  datatype WideRow = WideRow(key: RowKey, cells: seq<Option<CellValue>>)

  /** The wide table: the parameter-unit column names and the rows. */
  datatype Wide = Wide(parColumns: seq<string>, rows: seq<WideRow>)

  /** The header after the tidy step: the four key columns, then the parameter-unit names. */
  function Header(w: Wide): (h: seq<string>)
    ensures |h| == 4 + |w.parColumns|
    ensures h[..4] == ["station_id", "sample_date", "depth1", "depth2"] && h[4..] == w.parColumns
  {
    ["station_id", "sample_date", "depth1", "depth2"] + w.parColumns
  }

  predicate InSlot(c: LongRow, key: RowKey, col: string) {
    c.key == key && c.parUnit == col
  }

  /** Two long rows aimed at the same cell: unstack refuses to reshape. */
  predicate HasCollision(long: seq<LongRow>) {
    exists i, j | 0 <= i < j < |long| :: InSlot(long[j], long[i].key, long[i].parUnit)
  }

  function ParUnits(long: seq<LongRow>): seq<string> {
    seq(|long|, i requires 0 <= i < |long| => long[i].parUnit)
  }

  function RowKeys(long: seq<LongRow>): seq<RowKey> {
    seq(|long|, i requires 0 <= i < |long| => long[i].key)
  }

  function WideKeys(w: Wide): seq<RowKey> {
    seq(|w.rows|, r requires 0 <= r < |w.rows| => w.rows[r].key)
  }

  /** The value aimed at a cell, or None when nothing is. */
  function Lookup(long: seq<LongRow>, key: RowKey, col: string): (r: Option<CellValue>)
    ensures r.None? <==> forall i :: 0 <= i < |long| ==> !InSlot(long[i], key, col)
    ensures r.Some? ==> exists i :: 0 <= i < |long| && InSlot(long[i], key, col) && long[i].value == r.value
    decreases |long|
  {
    if |long| == 0 then None
    else if InSlot(long[0], key, col) then Some(long[0].value)
    else
      var r := Lookup(long[1..], key, col);
      assert forall i :: 1 <= i < |long| ==> long[i] == long[1..][i - 1];
      r
  }

  /** Sorted, duplicate-free row keys and columns, and a full-width row each. */
  ghost predicate WellShaped(w: Wide) {
    && StrictlySortedBy(StrLess, w.parColumns)
    && StrictlySortedBy(RowKeyLess, WideKeys(w))
    && forall r :: 0 <= r < |w.rows| ==> |w.rows[r].cells| == |w.parColumns|
  }

  /** `set_index([...key..., 'par_unit']).unstack('par_unit')`. */
  function Unstack(long: seq<LongRow>): (res: Result<Wide, PivotError>)
    ensures res.Failure? <==> HasCollision(long)
    ensures res.Success? ==> WellShaped(res.value)
    ensures res.Success? ==> forall c :: c in res.value.parColumns <==> c in ParUnits(long)
    ensures res.Success? ==> forall k :: k in WideKeys(res.value) <==> k in RowKeys(long)
  {
    if HasCollision(long) then Failure(DuplicateEntries)
    else
      StrLessTotal();
      RowKeyLessTotal();
      var cols := SortedSet(StrLess, ParUnits(long));
      var keys := SortedSet(RowKeyLess, RowKeys(long));
      var w := Wide(cols, seq(|keys|, r requires 0 <= r < |keys| =>
        WideRow(keys[r], seq(|cols|, j requires 0 <= j < |cols| => Lookup(long, keys[r], cols[j])))));
      assert WideKeys(w) == keys;
      Success(w)
  }

  /** Each cell holds exactly what the long rows aim at it: the value of the
      one long row in that slot, and nothing (not zero) when there is none. */
  lemma UnstackCells(long: seq<LongRow>)
    requires Unstack(long).Success?
    ensures var w := Unstack(long).value;
      forall r, j :: 0 <= r < |w.rows| && 0 <= j < |w.parColumns| ==>
        && (w.rows[r].cells[j].None? <==> forall i :: 0 <= i < |long| ==> !InSlot(long[i], w.rows[r].key, w.parColumns[j]))
        && (forall i :: 0 <= i < |long| && InSlot(long[i], w.rows[r].key, w.parColumns[j]) ==>
              w.rows[r].cells[j] == Some(long[i].value))
  {
    var w := Unstack(long).value;
    forall r, j, i | 0 <= r < |w.rows| && 0 <= j < |w.parColumns| && 0 <= i < |long| && InSlot(long[i], w.rows[r].key, w.parColumns[j])
      ensures w.rows[r].cells[j] == Some(long[i].value)
    {
      var c := w.rows[r].cells[j];
      assert c == Lookup(long, w.rows[r].key, w.parColumns[j]);
      var i' :| 0 <= i' < |long| && InSlot(long[i'], w.rows[r].key, w.parColumns[j]) && long[i'].value == c.value;
    }
  }

  /** Every long row lands in a cell under its row key and column, which
      holds its value; with `UnstackDistinct`, that cell is the only one. */
  lemma UnstackPlacesEveryRow(long: seq<LongRow>, i: nat)
    requires Unstack(long).Success?
    requires i < |long|
    ensures var w := Unstack(long).value;
      exists r, j :: 0 <= r < |w.rows| && 0 <= j < |w.parColumns| &&
        w.rows[r].key == long[i].key && w.parColumns[j] == long[i].parUnit &&
        w.rows[r].cells[j] == Some(long[i].value)
  {
    var w := Unstack(long).value;
    assert long[i].key in RowKeys(long) by {
      assert RowKeys(long)[i] == long[i].key;
    }
    assert long[i].parUnit in ParUnits(long) by {
      assert ParUnits(long)[i] == long[i].parUnit;
    }
    var r :| 0 <= r < |w.rows| && WideKeys(w)[r] == long[i].key;
    var j :| 0 <= j < |w.parColumns| && w.parColumns[j] == long[i].parUnit;
    UnstackCells(long);
    assert w.rows[r].cells[j] == Some(long[i].value);
  }

  /** No two wide rows share a key and no two columns share a name. */
  lemma UnstackDistinct(long: seq<LongRow>)
    requires Unstack(long).Success?
    ensures var w := Unstack(long).value;
      && (forall r1, r2 :: 0 <= r1 < |w.rows| && 0 <= r2 < |w.rows| && w.rows[r1].key == w.rows[r2].key ==> r1 == r2)
      && (forall j1, j2 :: 0 <= j1 < |w.parColumns| && 0 <= j2 < |w.parColumns| && w.parColumns[j1] == w.parColumns[j2] ==> j1 == j2)
  {
    var w := Unstack(long).value;
    StrLessTotal();
    RowKeyLessTotal();
    StrictlySortedDistinct(StrLess, w.parColumns);
    StrictlySortedDistinct(RowKeyLess, WideKeys(w));
    forall r1, r2 | 0 <= r1 < |w.rows| && 0 <= r2 < |w.rows| && w.rows[r1].key == w.rows[r2].key
      ensures r1 == r2
    {
      assert WideKeys(w)[r1] == WideKeys(w)[r2];
    }
  }

  /** The reshaped table's header: the four key columns in order, then each
      distinct parameter-unit name exactly once. */
  lemma UnstackHeader(long: seq<LongRow>)
    requires Unstack(long).Success?
    ensures var h := Header(Unstack(long).value);
      && h[..4] == ["station_id", "sample_date", "depth1", "depth2"]
      && (forall c :: c in h[4..] <==> c in ParUnits(long))
      && (forall j1, j2 :: 4 <= j1 < j2 < |h| ==> h[j1] != h[j2])
  {
    var w := Unstack(long).value;
    var h := Header(w);
    StrLessTotal();
    StrictlySortedDistinct(StrLess, w.parColumns);
    forall j1, j2 | 4 <= j1 < j2 < |h|
      ensures h[j1] != h[j2]
    {
      assert h[j1] == w.parColumns[j1 - 4] && h[j2] == w.parColumns[j2 - 4];
    }
  }
}
