/** The report of run_car_report.py: column classification, the missing-value and
    duplicate summaries, and the report record `make_report` assembles from them. */
module Reporting {
  import opened Wrappers
  import opened Text
  import opened Tables

  // ---------------------------------------------------------------------------
  // Values of the report

  /** A scalar the report can hold: None, `pd.NA`, NaN, an integer, a float with a
      whole value (the `count` statistic), a boolean or a string. */
  datatype Scalar = NoneV | NAV | NaNV | IntV(i: int) | FloatV(whole: int) | BoolV(b: bool) | StrV(s: string)

  /** A report value: a scalar, or a list or tuple of scalars. */
  datatype Value = Single(x: Scalar) | ListV(items: seq<Scalar>)

  // ---------------------------------------------------------------------------
  // classify_columns

  /** `is_bool_dtype(ser) or is_categorical_dtype(ser) or is_object_dtype(ser)` */
  predicate IsCategorical(d: DType) {
    d == BoolType || d == Category || d == Object
  }

  /** `is_numeric_dtype(ser)`: integers, nullable integers, floats and booleans. */
  predicate IsNumericType(d: DType) {
    d == Int64 || d == NullableInt64 || d == Float64 || d == BoolType
  }

  /** The `elif` branch: numeric, and not caught by the categorical test first. */
  predicate IsNumerical(d: DType) {
    !IsCategorical(d) && IsNumericType(d)
  }

  function CategoricalColumns(t: Table): seq<string>
    requires WellFormed(t)
  {
    ColumnsWhere(t.columns, t.dtypes, IsCategorical)
  }

  function NumericalColumns(t: Table): seq<string>
    requires WellFormed(t)
  {
    ColumnsWhere(t.columns, t.dtypes, IsNumerical)
  }

  /** Selecting over one more column appends that column when it is selected. */
  lemma {:induction false} ColumnsWhereAppend(columns: seq<string>, dtypes: seq<DType>, p: DType -> bool, x: string, d: DType)
    requires |dtypes| == |columns|
    ensures ColumnsWhere(columns + [x], dtypes + [d], p) == ColumnsWhere(columns, dtypes, p) + (if p(d) then [x] else [])
  {
    if columns != [] {
      assert (columns + [x])[1..] == columns[1..] + [x];
      assert (dtypes + [d])[1..] == dtypes[1..] + [d];
      ColumnsWhereAppend(columns[1..], dtypes[1..], p, x, d);
    } else {
      assert columns + [x] == [x] && dtypes + [d] == [d];
    }
  }

  /** `classify_columns`: one pass over the columns, appending each to the list its type selects. */
  method ClassifyColumns(t: Table) returns (categorical: seq<string>, numerical: seq<string>)
    requires WellFormed(t)
    ensures categorical == CategoricalColumns(t)
    ensures numerical == NumericalColumns(t)
  {
    categorical, numerical := [], [];
    var i := 0;
    while i < |t.columns|
      invariant i <= |t.columns|
      invariant categorical == ColumnsWhere(t.columns[..i], t.dtypes[..i], IsCategorical)
      invariant numerical == ColumnsWhere(t.columns[..i], t.dtypes[..i], IsNumerical)
    {
      var col, d := t.columns[i], t.dtypes[i];
      PrefixStep(t.columns, i);
      PrefixStep(t.dtypes, i);
      ColumnsWhereAppend(t.columns[..i], t.dtypes[..i], IsCategorical, col, d);
      ColumnsWhereAppend(t.columns[..i], t.dtypes[..i], IsNumerical, col, d);
      if IsCategorical(d) {
        categorical := categorical + [col];
      } else if IsNumericType(d) {
        numerical := numerical + [col];
      }
      i := i + 1;
    }
    assert t.columns[..i] == t.columns && t.dtypes[..i] == t.dtypes;
  }

  /** Each column lands in the categorical list exactly when its type is boolean, categorical
      or object, in the numerical list exactly when it is another numeric type, so never in
      both; a boolean column is never numerical, and a column of any other type is in neither. */
  lemma Classification(t: Table, k: nat)
    requires WellFormed(t) && k < |t.columns|
    ensures t.columns[k] in CategoricalColumns(t) <==> IsCategorical(t.dtypes[k])
    ensures t.columns[k] in NumericalColumns(t) <==> t.dtypes[k] in {Int64, NullableInt64, Float64}
    ensures !(t.columns[k] in CategoricalColumns(t) && t.columns[k] in NumericalColumns(t))
    ensures t.dtypes[k] == BoolType ==> t.columns[k] in CategoricalColumns(t) && t.columns[k] !in NumericalColumns(t)
    ensures t.dtypes[k].Other? ==> t.columns[k] !in CategoricalColumns(t) && t.columns[k] !in NumericalColumns(t)
  {
    ColumnsWhereMembers(t.columns, t.dtypes, IsCategorical);
    ColumnsWhereMembers(t.columns, t.dtypes, IsNumerical);
  }

  /** Both lists keep the table's column order and name no column twice. */
  lemma ClassificationOrder(t: Table)
    requires WellFormed(t)
    ensures Distinct(CategoricalColumns(t)) && Distinct(NumericalColumns(t))
    ensures forall i, j :: 0 <= i < j < |CategoricalColumns(t)| ==>
      IndexOf(t.columns, CategoricalColumns(t)[i]).value < IndexOf(t.columns, CategoricalColumns(t)[j]).value
    ensures forall i, j :: 0 <= i < j < |NumericalColumns(t)| ==>
      IndexOf(t.columns, NumericalColumns(t)[i]).value < IndexOf(t.columns, NumericalColumns(t)[j]).value
  {
    ColumnsWhereDistinct(t.columns, t.dtypes, IsCategorical);
    ColumnsWhereDistinct(t.columns, t.dtypes, IsNumerical);
    ColumnsWhereOrder(t.columns, t.dtypes, IsCategorical);
    ColumnsWhereOrder(t.columns, t.dtypes, IsNumerical);
  }

  // ---------------------------------------------------------------------------
  // get_missing_values_info and get_duplicates_info

  /** The null count of the column named `col` (`df.isnull().sum()[col]`). */
  function NullCount(t: Table, col: string): nat
    requires WellFormed(t) && col in t.columns
  {
    CountNull(ColumnCells(t.rows, IndexOf(t.columns, col).value))
  }

  datatype MissingInfo = MissingInfo(perColumn: map<string, nat>, hasMissing: bool)

  /** `missing_per_column` and `has_missing = any(cnt > 0 ...)`. */
  function MissingValuesInfo(t: Table): (r: MissingInfo)
    requires WellFormed(t)
    ensures r.perColumn.Keys == set c | c in t.columns
    ensures forall k :: 0 <= k < |t.columns| ==> r.perColumn[t.columns[k]] == CountNull(ColumnCells(t.rows, k))
  {
    IndexOfDistinctAll(t.columns);
    var m := map c | c in t.columns :: NullCount(t, c);
    MissingInfo(m, exists c | c in m :: m[c] > 0)
  }

  /** `has_missing` holds exactly when some column has a positive count, that is,
      exactly when some cell of the table is null. */
  lemma HasMissingMeaning(t: Table)
    requires WellFormed(t)
    ensures MissingValuesInfo(t).hasMissing <==>
      exists k :: 0 <= k < |t.columns| && MissingValuesInfo(t).perColumn[t.columns[k]] > 0
    ensures MissingValuesInfo(t).hasMissing <==>
      exists i, k :: 0 <= i < |t.rows| && 0 <= k < |t.columns| && t.rows[i][k] == Null
  {
    if MissingValuesInfo(t).hasMissing {
      MissingHasNull(t);
    }
    if exists i, k :: 0 <= i < |t.rows| && 0 <= k < |t.columns| && t.rows[i][k] == Null {
      NullIsMissing(t);
    }
  }

  lemma MissingHasNull(t: Table)
    requires WellFormed(t) && MissingValuesInfo(t).hasMissing
    ensures exists k :: 0 <= k < |t.columns| && MissingValuesInfo(t).perColumn[t.columns[k]] > 0
    ensures exists i, k :: 0 <= i < |t.rows| && 0 <= k < |t.columns| && t.rows[i][k] == Null
  {
    var r := MissingValuesInfo(t);
    var c :| c in r.perColumn && r.perColumn[c] > 0;
    var k := IndexOf(t.columns, c).value;
    assert r.perColumn[t.columns[k]] > 0;
    CountNullPositive(ColumnCells(t.rows, k));
    var i :| 0 <= i < |t.rows| && ColumnCells(t.rows, k)[i] == Null;
    assert t.rows[i][k] == Null;
  }

  lemma NullIsMissing(t: Table)
    requires WellFormed(t)
    requires exists i, k :: 0 <= i < |t.rows| && 0 <= k < |t.columns| && t.rows[i][k] == Null
    ensures MissingValuesInfo(t).hasMissing
    ensures exists k :: 0 <= k < |t.columns| && MissingValuesInfo(t).perColumn[t.columns[k]] > 0
  {
    var i, k :| 0 <= i < |t.rows| && 0 <= k < |t.columns| && t.rows[i][k] == Null;
    assert ColumnCells(t.rows, k)[i] == Null;
    CountNullPositive(ColumnCells(t.rows, k));
    assert MissingValuesInfo(t).perColumn[t.columns[k]] > 0;
  }

  datatype DuplicateInfo = DuplicateInfo(count: nat, hasDuplicates: bool)

  /** `duplicate_count = df.duplicated(keep='first').sum()` and `has_duplicates`. */
  function DuplicatesInfo(t: Table): (r: DuplicateInfo)
    ensures r.count <= |t.rows|
  {
    var n := DuplicateCount(t.rows);
    DuplicateInfo(n, n > 0)
  }

  /** The count is the number of rows `drop_duplicates` would remove, and the flag
      says the rows are not all different. */
  lemma DuplicatesMeaning(t: Table)
    ensures DuplicatesInfo(t).count == |t.rows| - |Dedup(t.rows)|
    ensures DuplicatesInfo(t).hasDuplicates <==> !Distinct(t.rows)
  {
    DedupLength(t.rows);
    DuplicateCountZero(t.rows);
  }

  // ---------------------------------------------------------------------------
  // make_report

  /** The non-null count of the column named `col`, the `count` row of `describe()`. */
  function NonNullCount(t: Table, col: string): nat
    requires WellFormed(t) && col in t.columns
  {
    CountNonNull(ColumnCells(t.rows, IndexOf(t.columns, col).value))
  }

  datatype Shape = Shape(rows: nat, columns: nat)

  /** The `report` dict. `numericSummary` and each column's statistics are ordered
      dictionaries, written as lists of pairs. */
  datatype Report = Report(
    sourceCsv: string,
    shape: Shape,
    columns: seq<string>,
    dtypes: map<string, string>,
    categoricalColumns: seq<string>,
    numericalColumns: seq<string>,
    missingValuesPerColumn: map<string, nat>,
    hasMissing: bool,
    duplicateCount: nat,
    hasDuplicates: bool,
    numericSummary: seq<(string, seq<(string, Value)>)>)

  /** The `count` row of `describe()`: each numeric column with its non-null count, in
      column order. */
  function CountRow(t: Table): seq<(string, Value)>
    requires WellFormed(t)
  {
    var nums := NumericalColumns(t);
    seq(|nums|, i requires 0 <= i < |nums| => (nums[i], Single(FloatV(NonNullCount(t, nums[i])))))
  }

  /** `numeric_summary_to_serializable` with only the `count` statistic. `describe().to_dict()`
      maps each column to its statistics, and the loop that names its outer keys `stat` and
      its inner keys `col` turns that round: the result is keyed by statistic, one entry
      `count` mapping each numeric column to its count, or empty without numeric columns. */
  function NumericSummary(t: Table): (r: seq<(string, seq<(string, Value)>)>)
    requires WellFormed(t)
    ensures r == [] <==> NumericalColumns(t) == []
    ensures |r| <= 1
    ensures forall e :: e in r ==> e.0 == "count" && |e.1| == |NumericalColumns(t)|
  {
    var nums := NumericalColumns(t);
    if nums == [] then [] else [("count", CountRow(t))]
  }

  /** The facts every report of a well-formed table satisfies. */
  predicate Consistent(r: Report) {
    && r.shape.columns == |r.columns|
    && Distinct(r.columns)
    && r.dtypes.Keys == (set c | c in r.columns)
    && r.missingValuesPerColumn.Keys == (set c | c in r.columns)
    && (r.hasMissing <==> exists c :: c in r.missingValuesPerColumn && r.missingValuesPerColumn[c] > 0)
    && r.duplicateCount <= r.shape.rows
    && (r.hasDuplicates <==> r.duplicateCount > 0)
    && (forall c :: c in r.categoricalColumns ==> c in r.columns && c !in r.numericalColumns)
    && (forall c :: c in r.numericalColumns ==> c in r.columns)
    && (r.numericSummary == [] <==> r.numericalColumns == [])
    && |r.numericSummary| <= 1
    && (forall e :: e in r.numericSummary ==> e.0 == "count" && |e.1| == |r.numericalColumns|)
  }

  /** `make_report(df, csv_path)`: `sourceCsv` is the absolute path, computed by the caller. */
  function MakeReport(t: Table, sourceCsv: string): (r: Report)
    requires WellFormed(t)
    ensures Consistent(r)
    ensures r.shape == Shape(|t.rows|, |t.columns|) && r.columns == t.columns
  {
    var missing := MissingValuesInfo(t);
    var duplicates := DuplicatesInfo(t);
    ClassificationDisjoint(t);
    Report(
      sourceCsv,
      Shape(|t.rows|, |t.columns|),
      t.columns,
      map c | c in t.columns :: DTypeName(t.dtypes[IndexOf(t.columns, c).value]),
      CategoricalColumns(t),
      NumericalColumns(t),
      missing.perColumn,
      missing.hasMissing,
      duplicates.count,
      duplicates.hasDuplicates,
      NumericSummary(t))
  }

  /** No column is in both lists. */
  lemma ClassificationDisjoint(t: Table)
    requires WellFormed(t)
    ensures forall c :: c in CategoricalColumns(t) ==> c !in NumericalColumns(t)
  {
    forall c | c in CategoricalColumns(t) ensures c !in NumericalColumns(t) {
      var k := IndexOf(t.columns, c).value;
      Classification(t, k);
    }
  }

  /** The report's counts describe the table: per column its null count, and the number
      of duplicate rows; the summary gives each numeric column its non-null count. */
  lemma ReportCounts(t: Table, sourceCsv: string, k: nat)
    requires WellFormed(t) && k < |t.columns|
    ensures MakeReport(t, sourceCsv).missingValuesPerColumn[t.columns[k]] == CountNull(ColumnCells(t.rows, k))
    ensures MakeReport(t, sourceCsv).duplicateCount == DuplicateCount(t.rows)
    ensures MakeReport(t, sourceCsv).dtypes[t.columns[k]] == DTypeName(t.dtypes[k])
  {
    IndexOfDistinct(t.columns, k);
  }

  /** The summary has the one entry `count` when column `k` is numerical, and that entry
      gives the column its own non-null count; no entry names a column that is not numerical. */
  lemma ReportSummaryCount(t: Table, sourceCsv: string, k: nat)
    requires WellFormed(t) && k < |t.columns|
    ensures var s, n := MakeReport(t, sourceCsv).numericSummary, CountNonNull(ColumnCells(t.rows, k));
      && (IsNumerical(t.dtypes[k]) ==> |s| == 1 && s[0].0 == "count" && (t.columns[k], Single(FloatV(n))) in s[0].1)
      && (forall e, p :: e in s && p in e.1 && p.0 == t.columns[k] ==> IsNumerical(t.dtypes[k]) && p.1 == Single(FloatV(n)))
  {
    CountRowEntry(t, k);
    assert MakeReport(t, sourceCsv).numericSummary == NumericSummary(t);
  }

  /** The `count` row names column `k` exactly when it is numerical, with its count. */
  lemma CountRowEntry(t: Table, k: nat)
    requires WellFormed(t) && k < |t.columns|
    ensures IsNumerical(t.dtypes[k]) ==> (t.columns[k], Single(FloatV(CountNonNull(ColumnCells(t.rows, k))))) in CountRow(t)
    ensures forall p :: p in CountRow(t) && p.0 == t.columns[k] ==>
      IsNumerical(t.dtypes[k]) && p.1 == Single(FloatV(CountNonNull(ColumnCells(t.rows, k))))
  {
    var nums := NumericalColumns(t);
    Classification(t, k);
    IndexOfDistinct(t.columns, k);
    if IsNumerical(t.dtypes[k]) {
      var i :| 0 <= i < |nums| && nums[i] == t.columns[k];
      assert CountRow(t)[i] == (t.columns[k], Single(FloatV(CountNonNull(ColumnCells(t.rows, k)))));
    }
    forall p | p in CountRow(t) && p.0 == t.columns[k]
      ensures IsNumerical(t.dtypes[k]) && p.1 == Single(FloatV(CountNonNull(ColumnCells(t.rows, k))))
    {
      var i :| 0 <= i < |CountRow(t)| && CountRow(t)[i] == p;
      assert nums[i] == t.columns[k];
    }
  }

  /** A column's missing count and its non-null count, the one the summary gives a numerical
      column, add up to the number of rows. */
  lemma MissingAndCountAddUp(t: Table, sourceCsv: string, k: nat)
    requires WellFormed(t) && k < |t.columns|
    ensures MakeReport(t, sourceCsv).missingValuesPerColumn[t.columns[k]] + CountNonNull(ColumnCells(t.rows, k))
      == MakeReport(t, sourceCsv).shape.rows
  {
    ReportCounts(t, sourceCsv, k);
    CountsAddUp(ColumnCells(t.rows, k));
  }

  /** The count entry names no column twice, so as a dictionary it loses nothing. */
  lemma CountRowDistinct(t: Table)
    requires WellFormed(t)
    ensures forall i, j :: 0 <= i < j < |CountRow(t)| ==> CountRow(t)[i].0 != CountRow(t)[j].0
  {
    ClassificationOrder(t);
  }

  /** With two numerical columns the summary still has one entry, named `count` after the
      statistic and not after any column: the report's per-column blocks come out as one
      block per statistic. */
  lemma SummaryKeyedByStatistic(t: Table, sourceCsv: string)
    requires WellFormed(t) && |NumericalColumns(t)| >= 2
    ensures |MakeReport(t, sourceCsv).numericSummary| == 1 < |NumericalColumns(t)|
    ensures MakeReport(t, sourceCsv).numericSummary[0].0 == "count"
  {
  }

  /** The summary the layout promises, one entry per numeric column holding its statistics,
      as `desc.to_dict()` already is before the loop turns it round. */
  function PerColumnSummary(t: Table): (r: seq<(string, seq<(string, Value)>)>)
    requires WellFormed(t)
    ensures |r| == |NumericalColumns(t)|
  {
    var nums := NumericalColumns(t);
    seq(|nums|, i requires 0 <= i < |nums| => (nums[i], [("count", Single(FloatV(NonNullCount(t, nums[i]))))]))
  }

  /** The per-column summary gives each numerical column, once and in column order, an entry
      named after it whose one statistic is its non-null count. */
  lemma PerColumnSummaryCount(t: Table, k: nat)
    requires WellFormed(t) && k < |t.columns| && IsNumerical(t.dtypes[k])
    ensures exists i :: 0 <= i < |PerColumnSummary(t)| && PerColumnSummary(t)[i] == (t.columns[k], [("count", Single(FloatV(CountNonNull(ColumnCells(t.rows, k)))))])
    ensures forall i, j :: 0 <= i < j < |PerColumnSummary(t)| ==> PerColumnSummary(t)[i].0 != PerColumnSummary(t)[j].0
  {
    var nums := NumericalColumns(t);
    Classification(t, k);
    ClassificationOrder(t);
    IndexOfDistinct(t.columns, k);
    var i :| 0 <= i < |nums| && nums[i] == t.columns[k];
    assert PerColumnSummary(t)[i].0 == t.columns[k];
  }
}
