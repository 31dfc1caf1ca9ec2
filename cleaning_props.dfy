/** What the cleaning steps of clean_car_data.py promise: the shape of each
    step's output, the meaning of the reported metrics, and how the steps compose. */
module CleaningProperties {
  import opened Wrappers
  import opened Text
  import opened Tables
  import opened CleaningSteps
  import Reporting

  // ---------------------------------------------------------------------------
  // Step 1: normalisation

  /** Compared case-insensitively, the eight placeholder spellings are six. */
  lemma LoweredPlaceholdersValue()
    ensures LoweredPlaceholders() == {"", " ", "na", "n/a", "none", "?"}
  {
    assert Lower("") == "";
    assert Lower(" ") == " ";
    assert Lower("NA") == "na";
    assert Lower("N/A") == "n/a";
    assert Lower("na") == "na";
    assert Lower("None") == "none";
    assert Lower("none") == "none";
    assert Lower("?") == "?";
  }

  /** A string cell becomes null exactly when its stripped text is a placeholder
      in any letter case, and otherwise keeps its stripped text. */
  lemma NormalizeString(s: string)
    ensures NormalizeCell(Str(s)) ==
      if Lower(Strip(s)) in {"", " ", "na", "n/a", "none", "?"} then Null else Str(Strip(s))
  {
    PlaceholderMember(Lower(Strip(s)));
  }

  /** Membership in the lowered placeholders, spelled out. */
  lemma PlaceholderMember(x: string)
    ensures x in LoweredPlaceholders() <==> x in {"", " ", "na", "n/a", "none", "?"}
  {
    LoweredPlaceholdersValue();
  }

  /** Cells that are not strings pass through unchanged. */
  lemma NormalizeNonString(c: Cell)
    requires !c.Str?
    ensures NormalizeCell(c) == c
  {
  }

  /** A normalised string has no surrounding whitespace and is no placeholder. */
  lemma NormalizeResult(c: Cell)
    ensures NormalizeCell(c).Str? ==> Strip(NormalizeCell(c).s) == NormalizeCell(c).s
    ensures NormalizeCell(c).Str? ==> Lower(NormalizeCell(c).s) !in LoweredPlaceholders()
  {
    if c.Str? {
      StripIdempotent(c.s);
    }
  }

  /** Normalising twice is normalising once. */
  lemma NormalizeIdempotent(c: Cell)
    ensures NormalizeCell(NormalizeCell(c)) == NormalizeCell(c)
  {
    match c
    case Str(s) =>
      var u := Strip(s);
      StripIdempotent(s);
      var once := ReplacePlaceholder(Str(u));
      assert NormalizeCell(c) == once;
      if once.Str? {
        assert once == Str(u);
        assert NormalizeCell(once) == ReplacePlaceholder(Str(Strip(u)));
      }
    case _ =>
  }

  /** "NA" in capitals becomes null. */
  lemma NormalizeCapitalNA()
    ensures NormalizeCell(Str("NA")) == Null
  {
    StripClean("NA");
    assert Lower("NA") == "na";
    PlaceholderMember("na");
  }

  /** "N/A" in capitals becomes null. */
  lemma NormalizeCapitalSlashed()
    ensures NormalizeCell(Str("N/A")) == Null
  {
    StripClean("N/A");
    assert Lower("N/A") == "n/a";
    PlaceholderMember("n/a");
  }

  /** Surrounding spaces make no difference to normalisation. */
  lemma NormalizeIgnoresPadding(s: string)
    ensures NormalizeCell(Str([' '] + s + [' '])) == NormalizeCell(Str(s))
  {
    StripPadded(s);
  }

  /** The empty string becomes null. */
  lemma NormalizeEmpty()
    ensures NormalizeCell(Str("")) == Null
  {
    StripClean("");
    assert Lower("") == "";
    PlaceholderMember("");
  }

  /** The question mark becomes null. */
  lemma NormalizeQuestionMark()
    ensures NormalizeCell(Str("?")) == Null
  {
    StripClean("?");
    assert Lower("?") == "?";
    PlaceholderMember("?");
  }

  /** Cell by cell: only the cells of object columns are normalised. */
  lemma NormalizeTableCells(t: Table, i: nat, k: nat)
    requires WellFormed(t) && i < |t.rows| && k < |t.columns|
    ensures NormalizeTable(t).rows[i][k] == if t.dtypes[k] == Object then NormalizeCell(t.rows[i][k]) else t.rows[i][k]
  {
  }

  /** Column by column: a type changes only from `object` to `float64`, and exactly when the
      column has a cell and all its normalised cells are null. */
  lemma NormalizeTableTypes(t: Table, k: nat)
    requires WellFormed(t) && k < |t.columns|
    ensures var r := NormalizeTable(t);
      r.dtypes[k] == if t.dtypes[k] == Object && |t.rows| > 0 && forall i :: 0 <= i < |t.rows| ==> r.rows[i][k] == Null
        then Float64 else t.dtypes[k]
  {
    var r := NormalizeTable(t);
    if t.dtypes[k] == Object {
      forall i | 0 <= i < |t.rows| ensures r.rows[i][k] == NormalizeCell(t.rows[i][k]) {
        NormalizeTableCells(t, i, k);
      }
    }
  }

  // ---------------------------------------------------------------------------
  // Step 2: coercion

  /** A missing value stays missing, and so do the strings the script treats as missing. */
  lemma CoerceMissing(parse: string -> Option<int>)
    ensures CoerceCell(parse, Null) == Null
    ensures CoerceCell(parse, Str("")) == Null
  {
    RemoveAllAbsent("nan", ',');
    StripClean("nan");
    StripClean("");
  }

  /** A text that reads as one of the null spellings once its commas and padding
      are gone becomes null, whatever the parser says. */
  lemma CoerceNullSpelling(parse: string -> Option<int>, s: string)
    requires Strip(RemoveAll(s, ',')) in {"", "nan", "None", "none"}
    ensures CoerceCell(parse, Str(s)) == Null
  {
  }

  /** A comma anywhere in a text makes no difference to its coercion. */
  lemma CoerceIgnoresCommas(parse: string -> Option<int>, a: string, b: string)
    ensures CoerceCell(parse, Str(a + [','] + b)) == CoerceCell(parse, Str(a + b))
  {
    RemoveAllSkip(a, b, ',');
  }

  /** Surrounding spaces make no difference to a text's coercion. */
  lemma CoerceIgnoresPadding(parse: string -> Option<int>, s: string)
    ensures CoerceCell(parse, Str([' '] + s + [' '])) == CoerceCell(parse, Str(s))
  {
    RemoveAllPadded(s, ' ', ',');
    StripPadded(RemoveAll(s, ','));
  }

  /** An unparsable text becomes null; coercion yields only numbers and nulls. */
  lemma CoerceResult(parse: string -> Option<int>, c: Cell)
    ensures CoerceCell(parse, c).Null? || CoerceCell(parse, c).Num?
    ensures CoerceCell(parse, c).Num? ==> parse(Strip(RemoveAll(Render(c), ','))) == Some(CoerceCell(parse, c).n)
    ensures parse(Strip(RemoveAll(Render(c), ','))).None? ==> CoerceCell(parse, c) == Null
  {
  }

  /** Coercion sees a text only after its commas and padding are gone, so removing them
      beforehand changes nothing. */
  lemma CoerceIgnoresCommasAndPadding(parse: string -> Option<int>, s: string)
    ensures CoerceCell(parse, Str(s)) == CoerceCell(parse, Str(Strip(RemoveAll(s, ','))))
  {
    var u := RemoveAll(s, ',');
    StripSlice(u);
    assert ',' !in Strip(u);
    RemoveAllAbsent(Strip(u), ',');
    StripIdempotent(u);
  }

  /** With the decimal parser, a number rendered by `astype(str)` parses back to itself. */
  lemma CoerceNumberKept(n: int)
    ensures CoerceCell(ParseInt, Num(n)) == Num(n)
  {
    var s := IntToString(n);
    IntToStringChars(n);
    assert ',' !in s;
    RemoveAllAbsent(s, ',');
    assert RemoveAll(Render(Num(n)), ',') == s;
    StripClean(s);
    NotNullSpelling(s);
    IntToStringRoundTrip(n);
  }

  /** A text starting with a digit or a minus sign is none of the null spellings. */
  lemma NotNullSpelling(s: string)
    requires s != [] && (IsDigit(s[0]) || s[0] == '-')
    ensures s !in NullSpellings
  {
    assert "nan"[0] == 'n' && "None"[0] == 'N' && "none"[0] == 'n';
  }

  /** The number of positions where `a` holds a value and `b` holds none. */
  function CountLost(a: seq<Cell>, b: seq<Cell>): nat
    requires |a| == |b|
  {
    if a == [] then 0 else (if a[0] != Null && b[0] == Null then 1 else 0) + CountLost(a[1..], b[1..])
  }

  /** When `b` keeps every null of `a`, the drop in non-null count is the number of values lost. */
  lemma {:induction false} CountNonNullDrop(a: seq<Cell>, b: seq<Cell>)
    requires |a| == |b|
    requires forall r :: 0 <= r < |a| && a[r] == Null ==> b[r] == Null
    ensures CountNonNull(a) - CountNonNull(b) == CountLost(a, b)
  {
    if a != [] {
      assert forall r :: 0 <= r < |a[1..]| && a[1..][r] == Null ==> b[1..][r] == Null by {
        forall r | 0 <= r < |a[1..]| && a[1..][r] == Null ensures b[1..][r] == Null {
          assert a[1..][r] == a[r + 1];
        }
      }
      CountNonNullDrop(a[1..], b[1..]);
    }
  }

  /** The issue count of a column is the number of its values that failed to parse,
      so it is never negative. */
  lemma IssueCountsFailures(t: Table, parse: string -> Option<int>, k: nat)
    requires WellFormed(t) && k < |t.columns|
    ensures IssueAt(t, CoerceTable(t, parse), k) ==
      CountLost(ColumnCells(t.rows, k), ColumnCells(CoerceTable(t, parse).rows, k))
    ensures IssueAt(t, CoerceTable(t, parse), k) >= 0
  {
    var c := CoerceTable(t, parse);
    var a, b := ColumnCells(t.rows, k), ColumnCells(c.rows, k);
    forall r | 0 <= r < |a| && a[r] == Null ensures b[r] == Null {
      CoerceTableCells(t, parse, r, k);
      CoerceMissing(parse);
    }
    CountNonNullDrop(a, b);
  }

  /** A column that is not parsed (not designated, or already numeric) reports no issue. */
  lemma IssueOfUnparsedColumn(t: Table, parse: string -> Option<int>, k: nat)
    requires WellFormed(t) && k < |t.columns| && !Coerces(t, k)
    ensures IssueAt(t, CoerceTable(t, parse), k) == 0
  {
    var c := CoerceTable(t, parse);
    forall r | 0 <= r < |t.rows| ensures c.rows[r][k] == t.rows[r][k] {
      CoerceTableCells(t, parse, r, k);
    }
    assert ColumnCells(c.rows, k) == ColumnCells(t.rows, k);
  }

  /** `conversion_issues` has one entry per designated name: None for a column the
      table lacks, and the column's issue count for one it has. */
  lemma ConversionIssuesEntries(t: Table, parse: string -> Option<int>)
    requires WellFormed(t)
    ensures ConversionIssues(t, parse).Keys == {"year", "selling_price", "km_driven"}
    ensures forall col :: col in NumericColumns ==>
      (ConversionIssues(t, parse)[col].None? <==> col !in t.columns)
  {
    var c := CoerceTable(t, parse);
    IssuesOfComprehension(t, c, |NumericColumns|);
    assert NumericColumns[..|NumericColumns|] == NumericColumns;
  }

  /** The entry of a designated column the table has is that column's issue count. */
  lemma ConversionIssuePresent(t: Table, parse: string -> Option<int>, k: nat)
    requires WellFormed(t) && k < |t.columns| && t.columns[k] in NumericColumns
    ensures t.columns[k] in ConversionIssues(t, parse)
    ensures ConversionIssues(t, parse)[t.columns[k]] == Some(IssueAt(t, CoerceTable(t, parse), k))
  {
    var c := CoerceTable(t, parse);
    IssuesOfComprehension(t, c, |NumericColumns|);
    assert NumericColumns[..|NumericColumns|] == NumericColumns;
    IssueForPresent(t, c, k);
  }

  // ---------------------------------------------------------------------------
  // Step 3: validation

  /** After validation every remaining value of `year` lies in [1900, current year],
      every remaining `selling_price` is positive and every remaining `km_driven`
      is non-negative; a cell is either kept or nulled. */
  lemma ValidatedRanges(t: Table, currentYear: int, i: nat, k: nat)
    requires WellFormed(t) && i < |t.rows| && k < |t.columns|
    ensures var r := ValidateTable(t, currentYear).rows[i][k];
      && (r == t.rows[i][k] || r == Null)
      && (t.columns[k] == "year" && r != Null ==> NumVal(r).Some? && MinYear <= NumVal(r).value <= currentYear)
      && (t.columns[k] == "selling_price" && r != Null ==> NumVal(r).Some? && NumVal(r).value > 0)
      && (t.columns[k] == "km_driven" && r != Null ==> NumVal(r).Some? && NumVal(r).value >= 0)
  {
  }

  /** Validation keeps every in-range value and every cell of the other columns. */
  lemma ValidatedKeeps(t: Table, currentYear: int, i: nat, k: nat)
    requires WellFormed(t) && i < |t.rows| && k < |t.columns|
    requires var c := t.rows[i][k];
      || t.columns[k] !in NumericColumns
      || (t.columns[k] == "year" && NumVal(c).Some? && MinYear <= NumVal(c).value <= currentYear)
      || (t.columns[k] == "selling_price" && NumVal(c).Some? && NumVal(c).value > 0)
      || (t.columns[k] == "km_driven" && NumVal(c).Some? && NumVal(c).value >= 0)
    ensures ValidateTable(t, currentYear).rows[i][k] == t.rows[i][k]
  {
  }

  // ---------------------------------------------------------------------------
  // Step 4: duplicates

  /** `drop_duplicates(keep='first')` leaves distinct rows, the same set of rows,
      and as many fewer rows as `duplicated().sum()` counts. */
  lemma DedupTableRows(t: Table)
    requires WellFormed(t)
    ensures |DedupTable(t).rows| == |t.rows| - DuplicateCount(t.rows)
    ensures Distinct(DedupTable(t).rows)
    ensures forall row :: row in DedupTable(t).rows <==> row in t.rows
    ensures DuplicateCount(DedupTable(t).rows) == 0
  {
    DedupLength(t.rows);
    DedupDistinct(t.rows);
    DedupElements(t.rows);
    DedupIdempotent(t.rows);
  }

  // ---------------------------------------------------------------------------
  // Step 5: missing critical fields

  /** The row lacks a value in a designated column. */
  predicate MissingCritical(columns: seq<string>, row: Row) {
    exists k :: 0 <= k < |row| && k < |columns| && columns[k] in NumericColumns && row[k] == Null
  }

  /** The number of rows lacking a value in a designated column. */
  function CountMissingCritical(columns: seq<string>, rows: seq<Row>): nat {
    if rows == [] then 0
    else (if MissingCritical(columns, rows[0]) then 1 else 0) + CountMissingCritical(columns, rows[1..])
  }

  /** `dropna(subset=critical_cols)` keeps a row exactly when it misses no critical field. */
  lemma CompleteIffNotMissing(columns: seq<string>, row: Row)
    ensures Complete(columns, CriticalColumns(columns), row) <==> !MissingCritical(columns, row)
  {
    if !Complete(columns, CriticalColumns(columns), row) {
      var k :| 0 <= k < |row| && k < |columns| && columns[k] in CriticalColumns(columns) && row[k] == Null;
      assert columns[k] in NumericColumns;
    }
  }

  /** No remaining row lacks a value in a designated column the table has. */
  lemma DropIncompleteComplete(t: Table, i: nat, k: nat)
    requires WellFormed(t) && i < |DropIncomplete(t).rows| && k < |t.columns| && t.columns[k] in NumericColumns
    ensures DropIncomplete(t).rows[i][k] != Null
  {
    var row := DropIncomplete(t).rows[i];
    assert Complete(t.columns, CriticalColumns(t.columns), row);
    CompleteIffNotMissing(t.columns, row);
  }

  /** `dropped_rows_due_to_missing_critical_fields` is the number of rows missing a critical field. */
  lemma {:induction false} DroppedAreMissing(t: Table)
    requires WellFormed(t)
    decreases |t.rows|
    ensures |t.rows| - |DropIncomplete(t).rows| == CountMissingCritical(t.columns, t.rows)
  {
    if t.rows != [] {
      var rest := t.(rows := t.rows[1..]);
      DroppedAreMissing(rest);
      CompleteIffNotMissing(t.columns, t.rows[0]);
    }
  }

  /** Dropping again drops nothing. */
  lemma DropIncompleteIdempotent(t: Table)
    requires WellFormed(t)
    ensures DropIncomplete(DropIncomplete(t)) == DropIncomplete(t)
  {
    var critical := CriticalColumns(t.columns);
    FilterAll(DropIncomplete(t).rows, row => Complete(t.columns, critical, row));
  }

  // ---------------------------------------------------------------------------
  // Steps 6 to 8

  /** A valid year gives an age between 0 and the years since 1900. */
  lemma AgeOfValidYear(year: Cell, currentYear: int)
    requires NumVal(year).Some? && MinYear <= NumVal(year).value <= currentYear
    ensures AgeCell(year, currentYear) == Num(currentYear - NumVal(year).value)
    ensures 0 <= currentYear - NumVal(year).value <= currentYear - MinYear
  {
  }

  /** The `age` column of a table with a `year` column: where it is, that it holds
      each row's age, and that every other cell is unchanged. */
  lemma AgeColumn(t: Table, currentYear: int, y: nat) returns (a: nat)
    requires WellFormed(t) && IndexOf(t.columns, "year") == Some(y)
    ensures var r := WithAge(t, currentYear);
      && a < |r.columns| && IndexOf(r.columns, "age") == Some(a) && a != y
      && |t.columns| <= |r.columns| && r.columns[..|t.columns|] == t.columns
      && forall i :: 0 <= i < |t.rows| ==> r.rows[i][a] == AgeCell(t.rows[i][y], currentYear)
    ensures var r := WithAge(t, currentYear);
      forall i, k :: 0 <= i < |t.rows| && 0 <= k < |t.columns| && k != a ==> r.rows[i][k] == t.rows[i][k]
  {
    var r := WithAge(t, currentYear);
    match IndexOf(t.columns, "age")
    case Some(p) =>
      a := p;
    case None =>
      a := |t.columns|;
      assert r.columns[a] == "age";
      IndexOfDistinct(r.columns, a);
  }

  /** A tagged column is one the report classifies as categorical, and never as numerical. */
  lemma TaggedCategorical(t: Table, k: nat)
    requires WellFormed(t) && k < |t.columns| && t.columns[k] in LowCardinalityColumns
    ensures t.columns[k] in Reporting.CategoricalColumns(TagCategories(t))
    ensures t.columns[k] !in Reporting.NumericalColumns(TagCategories(t))
  {
    Reporting.Classification(TagCategories(t), k);
  }

  /** A low-cardinality column the data has is categorical in the cleaned table, whatever
      its cells: narrowing never retypes it. */
  lemma CleanedCategorical(t: Table, parse: string -> Option<int>, currentYear: int, col: string)
    requires WellFormed(t) && col in LowCardinalityColumns && col in t.columns
    ensures col in Reporting.CategoricalColumns(CleanTable(t, parse, currentYear))
    ensures col !in Reporting.NumericalColumns(CleanTable(t, parse, currentYear))
  {
    var w := WithAge(Reduced(t, parse, currentYear), currentYear);
    WithAgeKeepsColumns(Reduced(t, parse, currentYear), currentYear, col);
    var k :| 0 <= k < |w.columns| && w.columns[k] == col;
    TaggedStaysCategorical(w, k);
  }

  /** Adding `age` keeps every column name the table had. */
  lemma WithAgeKeepsColumns(t: Table, currentYear: int, col: string)
    requires WellFormed(t) && col in t.columns
    ensures col in WithAge(t, currentYear).columns
  {
    match IndexOf(t.columns, "year")
    case None =>
    case Some(y) =>
      var a := AgeColumn(t, currentYear, y);
      var k :| 0 <= k < |t.columns| && t.columns[k] == col;
      assert WithAge(t, currentYear).columns[..|t.columns|][k] == col;
  }

  /** Tagging and then narrowing leaves a low-cardinality column categorical. */
  lemma TaggedStaysCategorical(w: Table, k: nat)
    requires WellFormed(w) && k < |w.columns| && w.columns[k] in LowCardinalityColumns
    ensures w.columns[k] in Reporting.CategoricalColumns(NarrowTable(TagCategories(w)))
    ensures w.columns[k] !in Reporting.NumericalColumns(NarrowTable(TagCategories(w)))
  {
    var g := TagCategories(w);
    HandledAll(w.columns[k]);
    assert NarrowTable(g).dtypes[k] == Category;
    Reporting.Classification(NarrowTable(g), k);
  }

  /** `astype('Int64')` keeps every value and every null. */
  lemma NarrowKeepsValues(c: Cell)
    ensures NumVal(NarrowCell(c)) == NumVal(c)
    ensures NarrowCell(c) == Null <==> c == Null
    ensures Integral(c) ==> NarrowCell(c).Num?
  {
  }

  /** Cell by cell, the narrowed table has the values and nulls of the table before,
      and columns other than the designated ones are untouched. */
  lemma NarrowTableKeepsValues(t: Table, i: nat, k: nat)
    requires WellFormed(t) && i < |t.rows| && k < |t.columns|
    ensures NumVal(NarrowTable(t).rows[i][k]) == NumVal(t.rows[i][k])
    ensures NarrowTable(t).rows[i][k] == Null <==> t.rows[i][k] == Null
    ensures t.columns[k] !in NumericColumns ==> NarrowTable(t).rows[i][k] == t.rows[i][k]
  {
    NarrowTableCells(t, i, k);
  }

  // ---------------------------------------------------------------------------
  // The whole sequence

  /** The reported row counts add up: every row that is gone was a duplicate or missed
      a critical field. */
  lemma RowCounts(t: Table, parse: string -> Option<int>, currentYear: int)
    requires WellFormed(t)
    ensures |CleanTable(t, parse, currentYear).rows| ==
      |t.rows| - DuplicateCount(Validated(t, parse, currentYear).rows)
      - (|DedupTable(Validated(t, parse, currentYear)).rows| - |Reduced(t, parse, currentYear).rows|)
    ensures |DedupTable(Validated(t, parse, currentYear)).rows| - |Reduced(t, parse, currentYear).rows| ==
      CountMissingCritical(t.columns, DedupTable(Validated(t, parse, currentYear)).rows)
  {
    var v := Validated(t, parse, currentYear);
    DedupTableRows(v);
    DroppedAreMissing(DedupTable(v));
  }

  /** Every row that survives duplicate removal and the critical drop was a row before them. */
  lemma KeptRowOrigin(v: Table, i: nat) returns (j: nat)
    requires WellFormed(v) && i < |DropIncomplete(DedupTable(v)).rows|
    ensures j < |v.rows| && v.rows[j] == DropIncomplete(DedupTable(v)).rows[i]
  {
    var row := DropIncomplete(DedupTable(v)).rows[i];
    assert row in Dedup(v.rows);
    DedupElements(v.rows);
    j :| 0 <= j < |v.rows| && v.rows[j] == row;
  }

  /** Every row kept has a `year` value in [1900, current year]. */
  lemma ReducedYear(t: Table, parse: string -> Option<int>, currentYear: int, i: nat, y: nat)
    requires WellFormed(t) && IndexOf(t.columns, "year") == Some(y)
    requires i < |Reduced(t, parse, currentYear).rows|
    ensures var c := Reduced(t, parse, currentYear).rows[i][y];
      NumVal(c).Some? && MinYear <= NumVal(c).value <= currentYear
  {
    var v := Validated(t, parse, currentYear);
    DropIncompleteComplete(DedupTable(v), i, y);
    var j := KeptRowOrigin(v, i);
    ValidatedRanges(CoerceTable(NormalizeTable(t), parse), currentYear, j, y);
  }

  /** Steps 6 to 8 on a row with a `year` value: the final table has a `year` and an `age`
      column, and the row's age is the current year minus its year. */
  lemma DerivedAge(t: Table, currentYear: int, i: nat, y: nat)
    requires WellFormed(t) && IndexOf(t.columns, "year") == Some(y) && i < |t.rows|
    requires NumVal(t.rows[i][y]).Some?
    ensures var r := NarrowTable(TagCategories(WithAge(t, currentYear)));
      && "age" in r.columns && "year" in r.columns
      && NumVal(r.rows[i][IndexOf(r.columns, "year").value]) == NumVal(t.rows[i][y])
      && r.rows[i][IndexOf(r.columns, "age").value] == Num(currentYear - NumVal(t.rows[i][y]).value)
  {
    var w := WithAge(t, currentYear);
    var g := TagCategories(w);
    var a := AgeColumn(t, currentYear, y);
    IndexOfDistinct(w.columns, y);
    NarrowTableKeepsValues(g, i, a);
    NarrowTableKeepsValues(g, i, y);
  }

  /** In the cleaned table of data with a `year` column, every row has an `age`,
      between 0 and the years since 1900, equal to the current year minus the row's year. */
  lemma CleanedAge(t: Table, parse: string -> Option<int>, currentYear: int, i: nat)
    requires WellFormed(t) && "year" in t.columns
    requires i < |CleanTable(t, parse, currentYear).rows|
    ensures var r := CleanTable(t, parse, currentYear);
      && "age" in r.columns && "year" in r.columns
      && var year := NumVal(r.rows[i][IndexOf(r.columns, "year").value]);
      && year.Some? && MinYear <= year.value <= currentYear
      && r.rows[i][IndexOf(r.columns, "age").value] == Num(currentYear - year.value)
  {
    var y := IndexOf(t.columns, "year").value;
    var rd := Reduced(t, parse, currentYear);
    ReducedYear(t, parse, currentYear, i, y);
    DerivedAge(rd, currentYear, i, y);
  }
}
