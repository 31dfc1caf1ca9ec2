/** The cleaning pipeline of clean_car_data.py, one specification function per step.
    The class `Cleaner` (cleaning.dfy) runs the steps in place and is proved to
    produce exactly these tables and metrics. */
module CleaningSteps {
  import opened Wrappers
  import opened Text
  import opened Tables

  /** The spellings of a missing string value. */
  const Placeholders: set<string> := {"", " ", "NA", "N/A", "na", "None", "none", "?"}

  /** The designated numeric columns, in the order the script visits them. */
  const NumericColumns: seq<string> := ["year", "selling_price", "km_driven"]

  /** The low-cardinality columns tagged as categorical. */
  const LowCardinalityColumns: seq<string> := ["fuel", "seller_type", "transmission", "owner"]

  /** The earliest plausible model year. */
  const MinYear: int := 1900

  // ---------------------------------------------------------------------------
  // Step 1: whitespace and placeholder normalisation of object columns

  /** The placeholders compared case-insensitively: `{p.lower() for p in placeholders}`. */
  function LoweredPlaceholders(): set<string> {
    set p | p in Placeholders :: Lower(p)
  }

  /** `replace_placeholder`: an empty string or a placeholder becomes null. */
  function ReplacePlaceholder(x: Cell): Cell {
    match x
    case Str(s) => if s == "" then Null else if Lower(s) in LoweredPlaceholders() then Null else x
    case _ => x
  }

  /** A cell of an object column after `strip` and `replace_placeholder`. */
  function NormalizeCell(c: Cell): Cell {
    match c
    case Str(s) => ReplacePlaceholder(Str(Strip(s)))
    case _ => ReplacePlaceholder(c)
  }

  /** The type of column `k` after its two `apply` calls, which infer the type again from
      the values: an object column with at least one cell, all of them null once normalised,
      comes back as `float64` (NaN is a float); an object column holding strings stays
      `object`, and so does an empty one. */
  function NormalizedType(t: Table, k: nat): DType
    requires WellFormed(t) && k < |t.columns|
  {
    if t.dtypes[k] == Object && |t.rows| > 0 && forall i :: 0 <= i < |t.rows| ==> NormalizeCell(t.rows[i][k]) == Null
    then Float64
    else t.dtypes[k]
  }

  /** Every object column normalised; columns of any other type are untouched. */
  function NormalizeTable(t: Table): (r: Table)
    requires WellFormed(t)
    ensures WellFormed(r) && r.columns == t.columns && |r.rows| == |t.rows|
    ensures forall k :: 0 <= k < |t.columns| ==> r.dtypes[k] == t.dtypes[k] || (t.dtypes[k] == Object && r.dtypes[k] == Float64)
  {
    var m := MapCells(t, (k: nat, c: Cell) => if k < |t.dtypes| && t.dtypes[k] == Object then NormalizeCell(c) else c);
    m.(dtypes := seq(|t.columns|, k requires 0 <= k < |t.columns| => NormalizedType(t, k)))
  }

  // ---------------------------------------------------------------------------
  // Step 2: numeric coercion of the designated columns

  /** `astype(str)` of one cell. */
  function Render(c: Cell): string {
    match c
    case Null => "nan"
    case Str(s) => s
    case Num(n) => IntToString(n)
    case Bool(b) => if b then "True" else "False"
  }

  /** The strings the script maps to null before parsing. */
  const NullSpellings: set<string> := {"", "nan", "None", "none"}

  /** A cell of an object-typed designated column after comma removal, stripping,
      the null spellings and `pd.to_numeric(..., errors='coerce')` with the parser `parse`. */
  function CoerceCell(parse: string -> Option<int>, c: Cell): Cell {
    var s := Strip(RemoveAll(Render(c), ','));
    if s in NullSpellings then Null
    else match parse(s)
      case Some(n) => Num(n)
      case None => Null
  }

  /** `CoerceCell` with the parser fixed, as a function on cells. */
  function CoerceWith(parse: string -> Option<int>): Cell -> Cell {
    c => CoerceCell(parse, c)
  }

  /** `pd.to_numeric` yields `int64` when nothing became null and `float64` otherwise. */
  function CoercedDType(cells: seq<Cell>): DType {
    if CountNull(cells) == 0 then Int64 else Float64
  }

  /** Column `k` is designated and holds strings, so it is parsed. */
  predicate Coerces(t: Table, k: nat)
    requires WellFormed(t) && k < |t.columns|
  {
    t.columns[k] in NumericColumns && t.dtypes[k] == Object
  }

  /** The type `pd.to_numeric` gives the parsed column `k`: `int64` when no value
      became null, `float64` otherwise. */
  function CoercedColumnDType(t: Table, parse: string -> Option<int>, k: nat): DType
    requires WellFormed(t) && k < |t.columns|
  {
    if forall i :: 0 <= i < |t.rows| ==> CoerceCell(parse, t.rows[i][k]) != Null then Int64 else Float64
  }

  /** `name` is one of the first `n` designated names, so a loop over the designated
      names has handled it after `n` rounds. */
  predicate Handled(name: string, n: nat) {
    Among(NumericColumns, name, n)
  }

  /** After all rounds, exactly the designated names are handled. */
  lemma HandledAll(name: string)
    ensures Handled(name, |NumericColumns|) == (name in NumericColumns)
  {
    AmongAll(NumericColumns, name);
  }

  /** Round `n` handles the `n`-th designated name and no other. */
  lemma HandledStep(name: string, n: nat)
    requires n < |NumericColumns|
    ensures Handled(name, n + 1) == (Handled(name, n) || name == NumericColumns[n])
    ensures !Handled(NumericColumns[n], n)
  {
    AmongStep(NumericColumns, name, n);
  }

  /** The coercion applied to the columns the first `n` rounds handle. */
  function CoerceOn(t: Table, parse: string -> Option<int>, n: nat): (r: Table)
    requires WellFormed(t)
    ensures WellFormed(r) && r.columns == t.columns && |r.rows| == |t.rows|
    ensures forall i, k :: 0 <= i < |t.rows| && 0 <= k < |t.columns| ==>
      r.rows[i][k] == if Handled(t.columns[k], n) && Coerces(t, k) then CoerceCell(parse, t.rows[i][k]) else t.rows[i][k]
    ensures forall k :: 0 <= k < |t.columns| ==>
      r.dtypes[k] == if Handled(t.columns[k], n) && Coerces(t, k) then CoercedColumnDType(t, parse, k) else t.dtypes[k]
  {
    var m := MapCells(t, (k: nat, c: Cell) =>
      if k < |t.columns| && Handled(t.columns[k], n) && Coerces(t, k) then CoerceCell(parse, c) else c);
    m.(dtypes := seq(|t.columns|, k requires 0 <= k < |t.columns| =>
      if Handled(t.columns[k], n) && Coerces(t, k) then CoercedColumnDType(t, parse, k) else t.dtypes[k]))
  }

  /** Every object-typed designated column parsed; all other columns unchanged
      (`pd.to_numeric` returns a numeric or boolean column as it is). */
  function CoerceTable(t: Table, parse: string -> Option<int>): (r: Table)
    requires WellFormed(t)
    ensures WellFormed(r) && r.columns == t.columns && |r.rows| == |t.rows|
  {
    CoerceOn(t, parse, |NumericColumns|)
  }

  /** Cell by cell: the coercion parses exactly the object-typed designated columns. */
  lemma CoerceTableCells(t: Table, parse: string -> Option<int>, i: nat, k: nat)
    requires WellFormed(t) && i < |t.rows| && k < |t.columns|
    ensures CoerceTable(t, parse).rows[i][k] == if Coerces(t, k) then CoerceCell(parse, t.rows[i][k]) else t.rows[i][k]
    ensures CoerceTable(t, parse).dtypes[k] == if Coerces(t, k) then CoercedColumnDType(t, parse, k) else t.dtypes[k]
  {
    HandledAll(t.columns[k]);
  }

  /** `c` is a version of `t` with the same columns and rows, such as the coerced table. */
  predicate Aligned(t: Table, c: Table) {
    WellFormed(t) && WellFormed(c) && c.columns == t.columns && |c.rows| == |t.rows|
  }

  /** `conversion_issues[col]`: non-null count before coercion (in `t`) minus non-null count
      after it (in `c`), or None for a designated column the table does not have. */
  function IssueFor(t: Table, c: Table, col: string): (r: Option<int>)
    requires Aligned(t, c)
    ensures r.None? <==> col !in t.columns
  {
    match IndexOf(t.columns, col)
    case None => None
    case Some(k) => Some(IssueAt(t, c, k))
  }

  /** In a table with distinct column names, the issue entry of the column at `k` is its `IssueAt`. */
  lemma IssueForPresent(t: Table, c: Table, k: nat)
    requires Aligned(t, c) && k < |t.columns|
    ensures IssueFor(t, c, t.columns[k]) == Some(IssueAt(t, c, k))
  {
    IndexOfDistinct(t.columns, k);
  }

  /** Non-null cells of column `k` before coercion minus those after it. */
  function IssueAt(t: Table, c: Table, k: nat): int
    requires Aligned(t, c) && k < |t.columns|
  {
    CountNonNull(ColumnCells(t.rows, k)) - CountNonNull(ColumnCells(c.rows, k))
  }

  /** `conversion_issues` as the loop fills it, one designated name after the other. */
  function ConversionIssues(t: Table, parse: string -> Option<int>): map<string, Option<int>>
    requires WellFormed(t)
  {
    IssuesOf(t, CoerceTable(t, parse), |NumericColumns|)
  }

  /** The issue map after the first `n` rounds. */
  function IssuesOf(t: Table, c: Table, n: nat): map<string, Option<int>>
    requires Aligned(t, c) && n <= |NumericColumns|
  {
    if n == 0 then map[]
    else IssuesOf(t, c, n - 1)[NumericColumns[n - 1] := IssueFor(t, c, NumericColumns[n - 1])]
  }

  /** After `n` rounds there is one entry per handled name. */
  lemma {:induction false} IssuesOfComprehension(t: Table, c: Table, n: nat)
    requires Aligned(t, c) && n <= |NumericColumns|
    ensures IssuesOf(t, c, n) == map x | x in NumericColumns[..n] :: IssueFor(t, c, x)
  {
    if n > 0 {
      IssuesOfComprehension(t, c, n - 1);
      PrefixStep(NumericColumns, n - 1);
    }
  }

  // ---------------------------------------------------------------------------
  // Step 3: domain validation

  /** The number a cell compares as: Python's `True` and `False` are 1 and 0;
      strings and nulls compare as nothing. */
  function NumVal(c: Cell): Option<int> {
    match c
    case Num(n) => Some(n)
    case Bool(b) => Some(if b then 1 else 0)
    case _ => None
  }

  /** Whether a cell of column `col` passes its domain check
      (`between(1900, current_year)`, `> 0`, `>= 0`); other columns have no check. */
  predicate Passes(col: string, c: Cell, currentYear: int) {
    if col == "year" then NumVal(c).Some? && MinYear <= NumVal(c).value <= currentYear
    else if col == "selling_price" then NumVal(c).Some? && NumVal(c).value > 0
    else if col == "km_driven" then NumVal(c).Some? && NumVal(c).value >= 0
    else true
  }

  /** `df.loc[mask, col] = np.nan`: a failing cell becomes null. */
  function CheckCell(col: string, c: Cell, currentYear: int): Cell {
    if Passes(col, c, currentYear) then c else Null
  }

  /** Writing NaN into an `int64` column makes it `float64`; into a `bool` column, `object`. */
  function Upcast(d: DType): DType {
    match d
    case Int64 => Float64
    case BoolType => Object
    case _ => d
  }

  /** Every cell of column `k` passes its check, so nothing is written to it. */
  predicate ColumnPasses(t: Table, k: nat, currentYear: int)
    requires WellFormed(t) && k < |t.columns|
  {
    forall i :: 0 <= i < |t.rows| ==> Passes(t.columns[k], t.rows[i][k], currentYear)
  }

  /** Every failing cell of `year`, `selling_price` and `km_driven` nulled. */
  function ValidateTable(t: Table, currentYear: int): (r: Table)
    requires WellFormed(t)
    ensures WellFormed(r) && r.columns == t.columns && |r.rows| == |t.rows|
  {
    var m := MapCells(t, (k: nat, c: Cell) => if k < |t.columns| then CheckCell(t.columns[k], c, currentYear) else c);
    m.(dtypes := seq(|t.columns|, k requires 0 <= k < |t.columns| =>
      if ColumnPasses(t, k, currentYear) then t.dtypes[k] else Upcast(t.dtypes[k])))
  }

  // ---------------------------------------------------------------------------
  // Step 4: duplicate removal

  function DedupTable(t: Table): (r: Table)
    requires WellFormed(t)
    ensures WellFormed(r) && r.columns == t.columns && r.dtypes == t.dtypes
  {
    DedupElements(t.rows);
    RectangularSubset(Dedup(t.rows), t.rows, |t.columns|);
    t.(rows := Dedup(t.rows))
  }

  // ---------------------------------------------------------------------------
  // Step 5: dropping rows with a missing critical field

  /** `[c for c in numeric_cols if c in df.columns]` */
  function CriticalColumns(columns: seq<string>): (r: seq<string>)
    ensures forall c :: c in r <==> c in NumericColumns && c in columns
  {
    Filter(NumericColumns, c => c in columns)
  }

  /** The row has a value in every critical column (`dropna(subset=...)` keeps it). */
  predicate Complete(columns: seq<string>, critical: seq<string>, row: Row) {
    forall k :: 0 <= k < |row| && k < |columns| && columns[k] in critical ==> row[k] != Null
  }

  function DropIncomplete(t: Table): (r: Table)
    requires WellFormed(t)
    ensures WellFormed(r) && r.columns == t.columns && r.dtypes == t.dtypes
  {
    var critical := CriticalColumns(t.columns);
    t.(rows := Filter(t.rows, row => Complete(t.columns, critical, row)))
  }

  // ---------------------------------------------------------------------------
  // Step 6: the derived `age` column

  /** `int(current_year - y) if pd.notna(y) else pd.NA` */
  function AgeCell(year: Cell, currentYear: int): Cell {
    match NumVal(year)
    case Some(v) => Num(currentYear - v)
    case None => Null
  }

  /** With a `year` column, `df['age'] = ...` as nullable `Int64`: it replaces an
      existing `age` column in place, or is appended as the last column. */
  function WithAge(t: Table, currentYear: int): (r: Table)
    requires WellFormed(t)
    ensures WellFormed(r) && |r.rows| == |t.rows|
  {
    match IndexOf(t.columns, "year")
    case None => t
    case Some(y) =>
      match IndexOf(t.columns, "age")
      case Some(a) =>
        Table(t.columns, t.dtypes[a := NullableInt64],
          seq(|t.rows|, i requires 0 <= i < |t.rows| => t.rows[i][a := AgeCell(t.rows[i][y], currentYear)]))
      case None =>
        Table(t.columns + ["age"], t.dtypes + [NullableInt64],
          seq(|t.rows|, i requires 0 <= i < |t.rows| => t.rows[i] + [AgeCell(t.rows[i][y], currentYear)]))
  }

  // ---------------------------------------------------------------------------
  // Step 7: categorical tagging

  /** Every present low-cardinality column typed `category`; no cell changes. */
  function TagCategories(t: Table): (r: Table)
    requires WellFormed(t)
    ensures WellFormed(r) && r.columns == t.columns && r.rows == t.rows
    ensures forall k :: 0 <= k < |t.columns| ==>
      r.dtypes[k] == if t.columns[k] in LowCardinalityColumns then Category else t.dtypes[k]
  {
    t.(dtypes := seq(|t.columns|, k requires 0 <= k < |t.columns| =>
      if t.columns[k] in LowCardinalityColumns then Category else t.dtypes[k]))
  }

  // ---------------------------------------------------------------------------
  // Step 8: integer narrowing

  /** `np.mod(v, 1) == 0`: every modelled number is whole, and so is a boolean. */
  predicate Integral(c: Cell) {
    c.Num? || c.Bool?
  }

  /** `astype('Int64')` of one cell: a boolean becomes 1 or 0. */
  function NarrowCell(c: Cell): Cell {
    match c
    case Bool(b) => Num(if b then 1 else 0)
    case _ => c
  }

  /** Column `k` is designated, has a non-null value, and every value is whole. */
  predicate Narrows(t: Table, k: nat)
    requires WellFormed(t) && k < |t.columns|
  {
    && t.columns[k] in NumericColumns
    && CountNonNull(ColumnCells(t.rows, k)) > 0
    && forall i :: 0 <= i < |t.rows| && t.rows[i][k] != Null ==> Integral(t.rows[i][k])
  }

  /** The narrowing applied to the columns the first `n` rounds handle. */
  function NarrowOn(t: Table, n: nat): (r: Table)
    requires WellFormed(t)
    ensures WellFormed(r) && r.columns == t.columns && |r.rows| == |t.rows|
    ensures forall i, k :: 0 <= i < |t.rows| && 0 <= k < |t.columns| ==>
      r.rows[i][k] == if Handled(t.columns[k], n) && Narrows(t, k) then NarrowCell(t.rows[i][k]) else t.rows[i][k]
    ensures forall k :: 0 <= k < |t.columns| ==>
      r.dtypes[k] == if Handled(t.columns[k], n) && Narrows(t, k) then NullableInt64 else t.dtypes[k]
  {
    var m := MapCells(t, (k: nat, c: Cell) =>
      if k < |t.columns| && Handled(t.columns[k], n) && Narrows(t, k) then NarrowCell(c) else c);
    m.(dtypes := seq(|t.columns|, k requires 0 <= k < |t.columns| =>
      if Handled(t.columns[k], n) && Narrows(t, k) then NullableInt64 else t.dtypes[k]))
  }

  /** Every designated column with only whole values, and at least one, narrowed to `Int64`. */
  function NarrowTable(t: Table): (r: Table)
    requires WellFormed(t)
    ensures WellFormed(r) && r.columns == t.columns && |r.rows| == |t.rows|
  {
    NarrowOn(t, |NumericColumns|)
  }

  /** Cell by cell: the narrowing converts exactly the designated whole-valued columns. */
  lemma NarrowTableCells(t: Table, i: nat, k: nat)
    requires WellFormed(t) && i < |t.rows| && k < |t.columns|
    ensures NarrowTable(t).rows[i][k] == if Narrows(t, k) then NarrowCell(t.rows[i][k]) else t.rows[i][k]
    ensures NarrowTable(t).dtypes[k] == if Narrows(t, k) then NullableInt64 else t.dtypes[k]
  {
    HandledAll(t.columns[k]);
  }

  // ---------------------------------------------------------------------------
  // The whole sequence

  /** The table after steps 1 to 3, the snapshot whose duplicates are counted. */
  function Validated(t: Table, parse: string -> Option<int>, currentYear: int): (r: Table)
    requires WellFormed(t)
    ensures WellFormed(r) && r.columns == t.columns && |r.rows| == |t.rows|
  {
    ValidateTable(CoerceTable(NormalizeTable(t), parse), currentYear)
  }

  /** The table after steps 1 to 5, whose rows are the rows of the cleaned table. */
  function Reduced(t: Table, parse: string -> Option<int>, currentYear: int): (r: Table)
    requires WellFormed(t)
    ensures WellFormed(r) && r.columns == t.columns
  {
    DropIncomplete(DedupTable(Validated(t, parse, currentYear)))
  }

  /** The cleaned table. */
  function CleanTable(t: Table, parse: string -> Option<int>, currentYear: int): (r: Table)
    requires WellFormed(t)
    ensures WellFormed(r)
  {
    NarrowTable(TagCategories(WithAge(Reduced(t, parse, currentYear), currentYear)))
  }
}
