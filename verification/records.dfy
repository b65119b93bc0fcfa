/** The rows a chemistry query returns, the keys rows are grouped and sorted
    by, and the `parameter_name + "_" + unit` column naming. */
module Records {
  import opened Wrappers
  import opened Orders

  /** A calendar date, kept abstract: only its order matters here. */
  type Date = int

  /** One fetched row: (station_id, sample_date, depth1, depth2, parameter_name,
      unit, flag1, value). Depths and the flag may be null. */
  datatype Row = Row(
    stationId: int,
    sampleDate: Date,
    depth1: Option<real>,
    depth2: Option<real>,
    parameterName: string,
    unit: string,
    flag1: Option<string>,
    value: real)

  /** What should identify a single measurement. */
  datatype IdentityKey = IdentityKey(
    stationId: int,
    sampleDate: Date,
    depth1: Option<real>,
    depth2: Option<real>,
    parameterName: string,
    unit: string)

  /** What identifies one row of the wide table. */
  datatype RowKey = RowKey(stationId: int, sampleDate: Date, depth1: Option<real>, depth2: Option<real>)

  function KeyOf(r: Row): IdentityKey {
    IdentityKey(r.stationId, r.sampleDate, r.depth1, r.depth2, r.parameterName, r.unit)
  }

  function RowKeyOf(r: Row): RowKey {
    RowKey(r.stationId, r.sampleDate, r.depth1, r.depth2)
  }

  /** Two rows with the same identity key that are not identical differ in the
      flag or in the value: those are the only other fields. */
  lemma SameKeyDiffersInFlagOrValue(a: Row, b: Row)
    requires KeyOf(a) == KeyOf(b) && a != b
    ensures a.flag1 != b.flag1 || a.value != b.value
  {
  }

  // ---------------------------------------------------------------------------
  // Sort order of key columns. Each key is read as a sequence of cells compared
  // column by column; strings compare by code point. Where a null sorts
  // depends on the operation: `sort_values` puts it after every number
  // (na_position 'last'), while `unstack` factorises each index level and
  // gives null the lowest code, so there it comes before every number.

  datatype Cell = NullFirst | Int(i: int) | Num(x: real) | NullLast | Str(s: string)

  function Rank(c: Cell): nat {
    match c
    case NullFirst => 0
    case Int(_) => 1
    case Num(_) => 2
    case NullLast => 3
    case Str(_) => 4
  }

  predicate CharLess(a: char, b: char) {
    a < b
  }

  predicate StrLess(a: string, b: string) {
    LexLess(CharLess, a, b)
  }

  predicate CellLess(a: Cell, b: Cell) {
    if Rank(a) != Rank(b) then Rank(a) < Rank(b)
    else match (a, b)
      case (Int(i), Int(j)) => i < j
      case (Num(x), Num(y)) => x < y
      case (Str(s), Str(t)) => StrLess(s, t)
      case _ => false
  }

  /** A depth as a sort cell, a null placed first or last. */
  function DepthCell(d: Option<real>, nullsFirst: bool): Cell {
    match d
    case Some(x) => Num(x)
    case None => if nullsFirst then NullFirst else NullLast
  }

  /** The conflict report's `sort_values` key: nulls last. */
  function IdentityCells(k: IdentityKey): seq<Cell> {
    [Int(k.stationId), Int(k.sampleDate), DepthCell(k.depth1, false), DepthCell(k.depth2, false),
     Str(k.parameterName), Str(k.unit)]
  }

  /** The wide table's row index as `unstack` orders it: nulls first. */
  function RowKeyCells(k: RowKey): seq<Cell> {
    [Int(k.stationId), Int(k.sampleDate), DepthCell(k.depth1, true), DepthCell(k.depth2, true)]
  }

  predicate IdentityKeyLess(a: IdentityKey, b: IdentityKey) {
    LexLess(CellLess, IdentityCells(a), IdentityCells(b))
  }

  predicate RowKeyLess(a: RowKey, b: RowKey) {
    LexLess(CellLess, RowKeyCells(a), RowKeyCells(b))
  }

  /** Rows ordered by their identity key only; rows with equal keys are tied. */
  predicate RowLessByKey(a: Row, b: Row) {
    IdentityKeyLess(KeyOf(a), KeyOf(b))
  }

  lemma StrLessTotal()
    ensures StrictTotalOrder(StrLess)
  {
    LexStrictTotal(CharLess);
  }

  lemma CellLessTotal()
    ensures StrictTotalOrder(CellLess)
  {
    StrLessTotal();
  }

  lemma IdentityKeyLessTotal()
    ensures StrictTotalOrder(IdentityKeyLess)
  {
    CellLessTotal();
    LexStrictTotal(CellLess);
    forall a, b | a != b
      ensures IdentityKeyLess(a, b) || IdentityKeyLess(b, a)
    {
    }
  }

  lemma RowKeyLessTotal()
    ensures StrictTotalOrder(RowKeyLess)
  {
    CellLessTotal();
    LexStrictTotal(CellLess);
    forall a, b | a != b
      ensures RowKeyLess(a, b) || RowKeyLess(b, a)
    {
    }
  }

  /** Nulls go last in the report's order and first in the wide table's order. */
  lemma NullDepthPlacement(k: IdentityKey, x: real)
    requires k.depth1 == None
    ensures IdentityKeyLess(k.(depth1 := Some(x)), k)
    ensures RowKeyLess(RowKey(k.stationId, k.sampleDate, None, k.depth2),
                       RowKey(k.stationId, k.sampleDate, Some(x), k.depth2))
  {
    assert IdentityCells(k.(depth1 := Some(x)))[..2] == IdentityCells(k)[..2];
    assert RowKeyCells(RowKey(k.stationId, k.sampleDate, None, k.depth2))[..2]
        == RowKeyCells(RowKey(k.stationId, k.sampleDate, Some(x), k.depth2))[..2];
  }

  lemma RowLessByKeyStrict()
    ensures StrictOrder(RowLessByKey)
  {
    IdentityKeyLessTotal();
  }

  // ---------------------------------------------------------------------------
  // Column naming

  /** `df['parameter_name'] + '_' + df['unit']`. */
  function ColumnName(parameterName: string, unit: string): string {
    parameterName + "_" + unit
  }

  lemma ColumnNameExamples()
    ensures ColumnName("pH", "") == "pH_"
    ensures ColumnName("Calcium", "mg/l") == "Calcium_mg/l"
  {
  }

  /** Distinct (name, unit) pairs can share a column name. */
  lemma ColumnNameCollides()
    ensures ("a_b", "c") != ("a", "b_c")
    ensures ColumnName("a_b", "c") == ColumnName("a", "b_c")
  {
  }

  /** The separator sits right after the name; the unit fills the rest. */
  lemma ColumnNameShape(n: string, u: string)
    ensures |ColumnName(n, u)| == |n| + 1 + |u|
    ensures ColumnName(n, u)[|n|] == '_'
    ensures forall k :: 0 <= k < |u| ==> ColumnName(n, u)[|n| + 1 + k] == u[k]
  {
  }

  /** With no underscore in either unit, the column name determines the pair. */
  lemma ColumnNameInjective(n1: string, u1: string, n2: string, u2: string)
    requires '_' !in u1 && '_' !in u2
    requires ColumnName(n1, u1) == ColumnName(n2, u2)
    ensures n1 == n2 && u1 == u2
  {
    var c := ColumnName(n1, u1);
    if |u1| < |u2| {
      ColumnNameShape(n1, u1);
      ColumnNameShape(n2, u2);
      assert false;
    } else if |u2| < |u1| {
      ColumnNameShape(n1, u1);
      ColumnNameShape(n2, u2);
      assert false;
    }
    assert u1 == c[|c| - |u1|..] == u2;
    assert n1 == c[..|n1|] == n2;
  }
}
