/** The checks and SQL bind parameters built before any query runs: a
    selection must not be empty, and the `IN (...)` lists use numbered
    placeholders `:0,:1,...` whose numbers are the keys of the bind dictionary. */
module Selection {
  import opened Wrappers
  import opened Records

  /** The assertion that fails when the caller selected nothing. */
  datatype SelectionError = NoProjects | NoStations | NoParameters

  // ---------------------------------------------------------------------------
  // Decimal numerals, as `'%d' % n` writes them for n >= 0

  predicate IsDigit(c: char) {
    '0' <= c <= '9'
  }

  predicate IsDigits(s: string) {
    forall i :: 0 <= i < |s| ==> IsDigit(s[i])
  }

  function DigitChar(d: nat): (c: char)
    requires d < 10
    ensures IsDigit(c)
  {
    ('0' as int + d) as char
  }

  function DigitValue(c: char): nat
    requires IsDigit(c)
  {
    c as int - '0' as int
  }

  function Decimal(n: nat): (s: string)
    ensures |s| > 0 && IsDigits(s)
  {
    if n < 10 then [DigitChar(n)] else Decimal(n / 10) + [DigitChar(n % 10)]
  }

  function DigitsValue(s: string): nat
    requires IsDigits(s)
  {
    if |s| == 0 then 0 else DigitsValue(s[..|s| - 1]) * 10 + DigitValue(s[|s| - 1])
  }

  /** Reads a non-empty run of digits back as a number. */
  function ParseDecimal(s: string): Option<nat> {
    if |s| > 0 && IsDigits(s) then Some(DigitsValue(s)) else None
  }

  lemma {:induction false} DecimalRoundTrip(n: nat)
    ensures ParseDecimal(Decimal(n)) == Some(n)
    decreases n
  {
    var s := Decimal(n);
    if n < 10 {
      assert s[..|s| - 1] == "";
      assert DigitValue(DigitChar(n)) == n;
      assert DigitsValue(s) == DigitValue(s[0]);
    } else {
      DecimalRoundTrip(n / 10);
      assert s[..|s| - 1] == Decimal(n / 10);
    }
  }

  /** Different numbers never produce the same key, so no update of the bind
      dictionary overwrites another. */
  lemma DecimalInjective(a: nat, b: nat)
    requires Decimal(a) == Decimal(b)
    ensures a == b
  {
    DecimalRoundTrip(a);
    DecimalRoundTrip(b);
  }

  lemma DecimalDistinct(a: nat, b: nat)
    requires a != b
    ensures Decimal(a) != Decimal(b)
  {
    if Decimal(a) == Decimal(b) {
      DecimalInjective(a, b);
    }
  }

  // ---------------------------------------------------------------------------
  // Placeholder lists

  /** `':%d' % i`. */
  function Placeholder(i: nat): string {
    ":" + Decimal(i)
  }

  function ParsePlaceholder(p: string): Option<nat> {
    if |p| > 0 && p[0] == ':' then ParseDecimal(p[1..]) else None
  }

  /** `sep.join(parts)`. */
  function Join(parts: seq<string>, sep: char): string
    decreases |parts|
  {
    if |parts| == 0 then ""
    else if |parts| == 1 then parts[0]
    else parts[0] + [sep] + Join(parts[1..], sep)
  }

  /** `s.split(sep)`: the pieces between separators, at least one. */
  function Split(s: string, sep: char): (parts: seq<string>)
    ensures |parts| > 0
    decreases |s|
  {
    if |s| == 0 then [""]
    else
      var rest := Split(s[1..], sep);
      if s[0] == sep then [""] + rest
      else [[s[0]] + rest[0]] + rest[1..]
  }

  lemma {:induction false} SplitNoSeparator(a: string, sep: char)
    requires sep !in a
    ensures Split(a, sep) == [a]
    decreases |a|
  {
    if |a| > 0 {
      SplitNoSeparator(a[1..], sep);
      assert [a[0]] + a[1..] == a;
    }
  }

  lemma {:induction false} SplitFirstPiece(a: string, b: string, sep: char)
    requires sep !in a
    ensures Split(a + [sep] + b, sep) == [a] + Split(b, sep)
    decreases |a|
  {
    var s := a + [sep] + b;
    if |a| > 0 {
      assert s[1..] == a[1..] + [sep] + b;
      SplitFirstPiece(a[1..], b, sep);
      assert [a[0]] + a[1..] == a;
    } else {
      assert s[1..] == b;
    }
  }

  /** Splitting a join gives the pieces back when no piece holds the separator. */
  lemma {:induction false} SplitJoin(parts: seq<string>, sep: char)
    requires |parts| > 0
    requires forall k :: 0 <= k < |parts| ==> sep !in parts[k]
    ensures Split(Join(parts, sep), sep) == parts
    decreases |parts|
  {
    if |parts| == 1 {
      SplitNoSeparator(parts[0], sep);
    } else {
      SplitJoin(parts[1..], sep);
      SplitFirstPiece(parts[0], Join(parts[1..], sep), sep);
      assert [parts[0]] + parts[1..] == parts;
    }
  }

  function Placeholders(lo: nat, hi: nat): seq<string>
    requires lo <= hi
  {
    seq(hi - lo, k requires 0 <= k < hi - lo => Placeholder(lo + k))
  }

  /** `','.join(':%d' % i for i in xrange(lo, hi))`. */
  function BindList(lo: nat, hi: nat): string
    requires lo <= hi
  {
    Join(Placeholders(lo, hi), ',')
  }

  /** The list names placeholders `:lo` ... `:hi-1`, each once, in order. */
  lemma BindListReadsBack(lo: nat, hi: nat)
    requires lo < hi
    ensures Split(BindList(lo, hi), ',') == Placeholders(lo, hi)
    ensures forall k :: 0 <= k < hi - lo ==> ParsePlaceholder(Split(BindList(lo, hi), ',')[k]) == Some(lo + k)
  {
    var ps := Placeholders(lo, hi);
    forall k | 0 <= k < |ps|
      ensures ',' !in ps[k]
      ensures ParsePlaceholder(ps[k]) == Some(lo + k)
    {
      DecimalRoundTrip(lo + k);
      assert ps[k] == Placeholder(lo + k);
      assert ps[k][1..] == Decimal(lo + k);
      assert ',' !in Decimal(lo + k) by {
        assert !IsDigit(',');
      }
    }
    SplitJoin(ps, ',');
  }

  // ---------------------------------------------------------------------------
  // The bind dictionary

  datatype BindValue = DateBind(date: Date) | IdBind(id: int)

  /** `{'%d' % (idx + offset): item for idx, item in enumerate(ids)}`. */
  function NumberedBinds(ids: seq<int>, offset: nat): map<string, BindValue>
    decreases |ids|
  {
    if |ids| == 0 then map[]
    else
      var n := |ids| - 1;
      NumberedBinds(ids[..n], offset)[Decimal(offset + n) := IdBind(ids[n])]
  }

  /** The enumerated dictionary has exactly the keys offset .. offset + n - 1. */
  lemma {:induction false} NumberedBindsKeys(ids: seq<int>, offset: nat)
    ensures NumberedBinds(ids, offset).Keys == NumeralKeys(offset, offset + |ids|)
    decreases |ids|
  {
    if |ids| > 0 {
      var n := |ids| - 1;
      NumberedBindsKeys(ids[..n], offset);
      NumeralKeysSplit(offset, offset + n, offset + n + 1);
      assert NumeralKeys(offset + n, offset + n + 1) == {Decimal(offset + n)};
    }
  }

  /** Key i of the enumerated dictionary holds id i - offset: no later entry
      overwrites an earlier one. */
  lemma {:induction false} NumberedBindsAt(ids: seq<int>, offset: nat, i: nat)
    requires offset <= i < offset + |ids|
    ensures Decimal(i) in NumberedBinds(ids, offset)
    ensures NumberedBinds(ids, offset)[Decimal(i)] == IdBind(ids[i - offset])
    decreases |ids|
  {
    var n := |ids| - 1;
    var m := NumberedBinds(ids[..n], offset);
    assert NumberedBinds(ids, offset) == m[Decimal(offset + n) := IdBind(ids[n])];
    if i < offset + n {
      NumberedBindsAt(ids[..n], offset, i);
      DecimalDistinct(i, offset + n);
      assert m[Decimal(i)] == IdBind(ids[i - offset]);
    }
  }

  lemma NumeralKeysSplit(lo: nat, mid: nat, hi: nat)
    requires lo <= mid <= hi
    ensures NumeralKeys(lo, hi) == NumeralKeys(lo, mid) + NumeralKeys(mid, hi)
  {
  }

  /** The keys `'%d' % i` for lo <= i < hi. */
  function NumeralKeys(lo: nat, hi: nat): set<string> {
    set i | lo <= i < hi :: Decimal(i)
  }

  /** Numbered keys of disjoint ranges never clash. */
  lemma NumeralKeysDisjoint(lo1: nat, hi1: nat, lo2: nat, hi2: nat)
    requires hi1 <= lo2
    ensures NumeralKeys(lo1, hi1) !! NumeralKeys(lo2, hi2)
  {
    forall k | k in NumeralKeys(lo1, hi1) && k in NumeralKeys(lo2, hi2)
      ensures false
    {
      var i :| lo1 <= i < hi1 && Decimal(i) == k;
      var j :| lo2 <= j < hi2 && Decimal(j) == k;
      DecimalInjective(i, j);
    }
  }

  /** `par_dict`: the two dates, then the station ids keyed 0..n-1, then the
      parameter ids keyed n..n+m-1. */
  function BindParams(stnIds: seq<int>, parIds: seq<int>, stDt: Date, endDt: Date): map<string, BindValue> {
    map["end_dt" := DateBind(endDt), "st_dt" := DateBind(stDt)]
      + NumberedBinds(stnIds, 0)
      + NumberedBinds(parIds, |stnIds|)
  }

  /** Oracle's named binding: `:name` takes the dictionary entry `name`. */
  function BindNamed(p: string, params: map<string, BindValue>): Option<BindValue> {
    if |p| > 0 && p[0] == ':' && p[1..] in params then Some(params[p[1..]]) else None
  }

  /** The query text's two placeholder lists and its bind dictionary. */
  datatype ChemistryQuery = ChemistryQuery(stationList: string, parameterList: string, params: map<string, BindValue>)

  /** Selection checks and bind construction of get_chemistry_values. */
  function ChemistryQueryOf(stnIds: seq<int>, parIds: seq<int>, stDt: Date, endDt: Date): (r: Result<ChemistryQuery, SelectionError>)
    ensures |stnIds| == 0 ==> r == Failure(NoStations)
    ensures |stnIds| > 0 && |parIds| == 0 ==> r == Failure(NoParameters)
    ensures r.Success? <==> |stnIds| > 0 && |parIds| > 0
  {
    if |stnIds| == 0 then Failure(NoStations)
    else if |parIds| == 0 then Failure(NoParameters)
    else
      var n := |stnIds|;
      Success(ChemistryQuery(BindList(0, n), BindList(n, n + |parIds|), BindParams(stnIds, parIds, stDt, endDt)))
  }

  /** A numeral is never one of the date keys. */
  lemma DecimalIsNotDateKey(i: nat)
    ensures Decimal(i) != "st_dt" && Decimal(i) != "end_dt"
  {
    var d := Decimal(i);
    assert IsDigit(d[0]);
    assert !IsDigit('s') && !IsDigit('e');
  }

  /** The bind dictionary's keys: the two dates and one numeral per placeholder. */
  lemma BindParamsKeys(stnIds: seq<int>, parIds: seq<int>, stDt: Date, endDt: Date)
    ensures BindParams(stnIds, parIds, stDt, endDt).Keys
         == {"st_dt", "end_dt"} + NumeralKeys(0, |stnIds| + |parIds|)
  {
    NumberedBindsKeys(stnIds, 0);
    NumberedBindsKeys(parIds, |stnIds|);
    NumeralKeysSplit(0, |stnIds|, |stnIds| + |parIds|);
  }

  /** The date keys carry the dates: no numeral key overwrites them. */
  lemma BindParamsDates(stnIds: seq<int>, parIds: seq<int>, stDt: Date, endDt: Date)
    ensures BindParams(stnIds, parIds, stDt, endDt)["st_dt"] == DateBind(stDt)
    ensures BindParams(stnIds, parIds, stDt, endDt)["end_dt"] == DateBind(endDt)
  {
    NumberedBindsKeys(stnIds, 0);
    NumberedBindsKeys(parIds, |stnIds|);
    NumeralKeysNotDates(0, |stnIds|);
    NumeralKeysNotDates(|stnIds|, |stnIds| + |parIds|);
  }

  /** Key i, for i < n, holds station i: the parameter entries use other keys. */
  lemma BindParamsStation(stnIds: seq<int>, parIds: seq<int>, stDt: Date, endDt: Date, i: nat)
    requires i < |stnIds|
    ensures Decimal(i) in BindParams(stnIds, parIds, stDt, endDt)
    ensures BindParams(stnIds, parIds, stDt, endDt)[Decimal(i)] == IdBind(stnIds[i])
  {
    var n := |stnIds|;
    NumberedBindsAt(stnIds, 0, i);
    NumberedBindsKeys(parIds, n);
    NumeralKeysDisjoint(0, n, n, n + |parIds|);
    assert Decimal(i) in NumeralKeys(0, n);
    assert Decimal(i) !in NumberedBinds(parIds, n);
  }

  /** Key n + k holds parameter k. */
  lemma BindParamsParameter(stnIds: seq<int>, parIds: seq<int>, stDt: Date, endDt: Date, k: nat)
    requires k < |parIds|
    ensures Decimal(|stnIds| + k) in BindParams(stnIds, parIds, stDt, endDt)
    ensures BindParams(stnIds, parIds, stDt, endDt)[Decimal(|stnIds| + k)] == IdBind(parIds[k])
  {
    var m := NumberedBinds(parIds, |stnIds|);
    NumberedBindsAt(parIds, |stnIds|, |stnIds| + k);
    var front := map["end_dt" := DateBind(endDt), "st_dt" := DateBind(stDt)] + NumberedBinds(stnIds, 0);
    assert BindParams(stnIds, parIds, stDt, endDt) == front + m;
    assert (front + m)[Decimal(|stnIds| + k)] == m[Decimal(|stnIds| + k)];
  }

  lemma NumeralKeysNotDates(lo: nat, hi: nat)
    ensures "st_dt" !in NumeralKeys(lo, hi) && "end_dt" !in NumeralKeys(lo, hi)
  {
    forall i | lo <= i < hi
      ensures Decimal(i) != "st_dt" && Decimal(i) != "end_dt"
    {
      DecimalIsNotDateKey(i);
    }
  }

  /** Binding the query's placeholder lists through its dictionary gives back
      the selected station ids and parameter ids, position by position. */
  lemma ChemistryQueryBindsSelection(stnIds: seq<int>, parIds: seq<int>, stDt: Date, endDt: Date)
    requires |stnIds| > 0 && |parIds| > 0
    ensures var q := ChemistryQueryOf(stnIds, parIds, stDt, endDt).value;
      && |Split(q.stationList, ',')| == |stnIds|
      && |Split(q.parameterList, ',')| == |parIds|
      && (forall k :: 0 <= k < |stnIds| ==>
            BindNamed(Split(q.stationList, ',')[k], q.params) == Some(IdBind(stnIds[k])))
      && (forall k :: 0 <= k < |parIds| ==>
            BindNamed(Split(q.parameterList, ',')[k], q.params) == Some(IdBind(parIds[k])))
  {
    var q := ChemistryQueryOf(stnIds, parIds, stDt, endDt).value;
    BindListReadsBack(0, |stnIds|);
    BindListReadsBack(|stnIds|, |stnIds| + |parIds|);
    forall k | 0 <= k < |stnIds|
      ensures BindNamed(Split(q.stationList, ',')[k], q.params) == Some(IdBind(stnIds[k]))
    {
      StationPlaceholderBinds(stnIds, parIds, stDt, endDt, k);
    }
    forall k | 0 <= k < |parIds|
      ensures BindNamed(Split(q.parameterList, ',')[k], q.params) == Some(IdBind(parIds[k]))
    {
      ParameterPlaceholderBinds(stnIds, parIds, stDt, endDt, k);
    }
  }

  lemma StationPlaceholderBinds(stnIds: seq<int>, parIds: seq<int>, stDt: Date, endDt: Date, k: nat)
    requires k < |stnIds| && |parIds| > 0
    ensures var q := ChemistryQueryOf(stnIds, parIds, stDt, endDt).value;
      && k < |Split(q.stationList, ',')|
      && BindNamed(Split(q.stationList, ',')[k], q.params) == Some(IdBind(stnIds[k]))
  {
    var q := ChemistryQueryOf(stnIds, parIds, stDt, endDt).value;
    assert q.stationList == BindList(0, |stnIds|);
    assert q.params == BindParams(stnIds, parIds, stDt, endDt);
    BindListReadsBack(0, |stnIds|);
    BindParamsStation(stnIds, parIds, stDt, endDt, k);
    assert Split(q.stationList, ',')[k] == Placeholder(k);
    assert Placeholder(k)[1..] == Decimal(k);
  }

  lemma ParameterPlaceholderBinds(stnIds: seq<int>, parIds: seq<int>, stDt: Date, endDt: Date, k: nat)
    requires |stnIds| > 0 && k < |parIds|
    ensures var q := ChemistryQueryOf(stnIds, parIds, stDt, endDt).value;
      && k < |Split(q.parameterList, ',')|
      && BindNamed(Split(q.parameterList, ',')[k], q.params) == Some(IdBind(parIds[k]))
  {
    var n := |stnIds|;
    var q := ChemistryQueryOf(stnIds, parIds, stDt, endDt).value;
    assert q.parameterList == BindList(n, n + |parIds|);
    assert q.params == BindParams(stnIds, parIds, stDt, endDt);
    BindListReadsBack(n, n + |parIds|);
    BindParamsParameter(stnIds, parIds, stDt, endDt, k);
    assert Split(q.parameterList, ',')[k] == Placeholder(n + k);
    assert Placeholder(n + k)[1..] == Decimal(n + k);
  }

  // ---------------------------------------------------------------------------
  // Positional binding of get_project_stations and get_station_parameters

  /** A placeholder list with the id array bound to it by position. */
  datatype ListQuery = ListQuery(placeholders: string, params: seq<int>)

  /** Binding by position. The database binds the k-th placeholder in order of
      appearance to the k-th array element, whatever its number. The lists
      built here are `:0`, `:1`, ... in order, so the k-th placeholder is `:k`
      and reading the number off the placeholder gives the same element. */
  function BindPositional(p: string, params: seq<int>): Option<int> {
    match ParsePlaceholder(p)
    case Some(i) => if i < |params| then Some(params[i]) else None
    case None => None
  }

  function ListQueryOf(ids: seq<int>, onEmpty: SelectionError): (r: Result<ListQuery, SelectionError>)
    ensures r.Failure? <==> |ids| == 0
    ensures r.Failure? ==> r.error == onEmpty
  {
    if |ids| == 0 then Failure(onEmpty) else Success(ListQuery(BindList(0, |ids|), ids))
  }

  /** get_project_stations: at least one project, then `:0..:n-1`. */
  function ProjectStationsQuery(projIds: seq<int>): (r: Result<ListQuery, SelectionError>)
    ensures r.Failure? <==> |projIds| == 0
    ensures r.Failure? ==> r.error == NoProjects
  {
    ListQueryOf(projIds, NoProjects)
  }

  /** get_station_parameters: at least one station, then `:0..:n-1`. */
  function StationParametersQuery(stnIds: seq<int>): (r: Result<ListQuery, SelectionError>)
    ensures r.Failure? <==> |stnIds| == 0
    ensures r.Failure? ==> r.error == NoStations
  {
    ListQueryOf(stnIds, NoStations)
  }

  /** Each placeholder of a list query binds, by position, to the id at the
      same position, and there is one placeholder per id. */
  lemma ListQueryBindsIds(ids: seq<int>, onEmpty: SelectionError)
    requires |ids| > 0
    ensures var q := ListQueryOf(ids, onEmpty).value;
      && |Split(q.placeholders, ',')| == |ids|
      && forall k :: 0 <= k < |ids| ==> BindPositional(Split(q.placeholders, ',')[k], q.params) == Some(ids[k])
  {
    BindListReadsBack(0, |ids|);
  }
}
