/** The cleaning script as an object: `Cleaner` holds the working table and the
    metrics, and each method performs one step of clean_car_data.py in place.
    Each method is proved to leave exactly the table its specification function
    in CleaningSteps describes. */
module Cleaning {
  import opened Wrappers
  import opened Tables
  import opened CleaningSteps
  import CleaningProperties

  // ---------------------------------------------------------------------------
  // One loop iteration each: handling one more designated column extends the
  // specification restricted to the names handled so far.

  /** Outside column `j` (which holds the `n`-th designated name), round `n` changes no
      column's handled status. */
  lemma OtherColumnsUnaffected(t: Table, n: nat, j: nat, k: nat)
    requires WellFormed(t) && n < |NumericColumns| && j < |t.columns| && k < |t.columns| && k != j
    requires t.columns[j] == NumericColumns[n]
    ensures Handled(t.columns[k], n + 1) == Handled(t.columns[k], n)
  {
    HandledStep(t.columns[k], n);
  }

  /** The type the loop computes from the parsed cells is the one the specification names. */
  lemma CoercedDTypeOfColumn(t0: Table, parse: string -> Option<int>, df: Table, j: nat)
    requires WellFormed(t0) && WellFormed(df) && j < |t0.columns| && j < |df.columns| && |df.rows| == |t0.rows|
    requires forall i :: 0 <= i < |t0.rows| ==> df.rows[i][j] == t0.rows[i][j]
    ensures CoercedDType(ColumnCells(MapColumn(df, j, CoerceWith(parse)).rows, j)) == CoercedColumnDType(t0, parse, j)
  {
    var cells := ColumnCells(MapColumn(df, j, CoerceWith(parse)).rows, j);
    CountNullPositive(cells);
    forall i | 0 <= i < |t0.rows| ensures cells[i] == CoerceCell(parse, t0.rows[i][j]) { }
  }

  /** `df[col] = pd.to_numeric(...)` on the object column at position `j`: its cells
      parsed, and its type set from the parsed cells. */
  function ParseColumn(df: Table, parse: string -> Option<int>, j: nat): (r: Table)
    requires WellFormed(df) && j < |df.columns|
    ensures WellFormed(r) && r.columns == df.columns && |r.rows| == |df.rows|
  {
    var m := MapColumn(df, j, CoerceWith(parse));
    m.(dtypes := m.dtypes[j := CoercedDType(ColumnCells(m.rows, j))])
  }

  /** Round `n` of the coercion loop, on the column `j` holding the `n`-th designated name. */
  lemma CoerceStep(t0: Table, parse: string -> Option<int>, n: nat, j: nat)
    requires WellFormed(t0) && n < |NumericColumns| && j < |t0.columns| && t0.columns[j] == NumericColumns[n]
    ensures CoerceOn(t0, parse, n + 1) ==
      if CoerceOn(t0, parse, n).dtypes[j] == Object then ParseColumn(CoerceOn(t0, parse, n), parse, j)
      else CoerceOn(t0, parse, n)
  {
    if CoerceOn(t0, parse, n).dtypes[j] == Object {
      CoerceStepParsed(t0, parse, n, j);
    } else {
      CoerceStepKept(t0, parse, n, j);
    }
  }

  lemma CoerceStepParsed(t0: Table, parse: string -> Option<int>, n: nat, j: nat)
    requires WellFormed(t0) && n < |NumericColumns| && j < |t0.columns| && t0.columns[j] == NumericColumns[n]
    requires CoerceOn(t0, parse, n).dtypes[j] == Object
    ensures CoerceOn(t0, parse, n + 1) == ParseColumn(CoerceOn(t0, parse, n), parse, j)
  {
    var r := ParseColumn(CoerceOn(t0, parse, n), parse, j);
    var target := CoerceOn(t0, parse, n + 1);
    forall k | 0 <= k < |t0.columns| ensures SameColumn(r, target, k) {
      if k == j {
        ParsedColumnSame(t0, parse, n, j);
      } else {
        ParsedOtherSame(t0, parse, n, j, k);
      }
    }
    TablesEqualByColumns(r, target);
  }

  /** In round `n`, the parsed column is the one the specification gives. */
  lemma ParsedColumnSame(t0: Table, parse: string -> Option<int>, n: nat, j: nat)
    requires WellFormed(t0) && n < |NumericColumns| && j < |t0.columns| && t0.columns[j] == NumericColumns[n]
    requires CoerceOn(t0, parse, n).dtypes[j] == Object
    ensures SameColumn(ParseColumn(CoerceOn(t0, parse, n), parse, j), CoerceOn(t0, parse, n + 1), j)
  {
    HandledStep(t0.columns[j], n);
    CoercedDTypeOfColumn(t0, parse, CoerceOn(t0, parse, n), j);
  }

  /** In round `n`, the columns other than the parsed one are as the specification gives. */
  lemma ParsedOtherSame(t0: Table, parse: string -> Option<int>, n: nat, j: nat, k: nat)
    requires WellFormed(t0) && n < |NumericColumns| && j < |t0.columns| && t0.columns[j] == NumericColumns[n]
    requires k < |t0.columns| && k != j
    ensures SameColumn(ParseColumn(CoerceOn(t0, parse, n), parse, j), CoerceOn(t0, parse, n + 1), k)
  {
    OtherColumnsUnaffected(t0, n, j, k);
  }

  lemma CoerceStepKept(t0: Table, parse: string -> Option<int>, n: nat, j: nat)
    requires WellFormed(t0) && n < |NumericColumns| && j < |t0.columns| && t0.columns[j] == NumericColumns[n]
    requires CoerceOn(t0, parse, n).dtypes[j] != Object
    ensures CoerceOn(t0, parse, n + 1) == CoerceOn(t0, parse, n)
  {
    var df := CoerceOn(t0, parse, n);
    var target := CoerceOn(t0, parse, n + 1);
    HandledStep(t0.columns[j], n);
    forall k | 0 <= k < |t0.columns| ensures SameColumn(df, target, k) {
      if k != j {
        OtherColumnsUnaffected(t0, n, j, k);
      }
    }
    TablesEqualByColumns(df, target);
  }

  /** A designated name the table lacks adds nothing to the coercion. */
  lemma CoerceAbsent(t0: Table, parse: string -> Option<int>, n: nat)
    requires WellFormed(t0) && n < |NumericColumns| && NumericColumns[n] !in t0.columns
    ensures CoerceOn(t0, parse, n + 1) == CoerceOn(t0, parse, n)
  {
    var a, b := CoerceOn(t0, parse, n + 1), CoerceOn(t0, parse, n);
    forall k | 0 <= k < |t0.columns| ensures SameColumn(a, b, k) {
      HandledStep(t0.columns[k], n);
    }
    TablesEqualByColumns(a, b);
  }

  /** Column `j` of a partial coercion depends only on whether its name was handled. */
  lemma CoerceOnCells(t0: Table, parse: string -> Option<int>, n: nat, n': nat, j: nat)
    requires WellFormed(t0) && j < |t0.columns|
    requires Handled(t0.columns[j], n) == Handled(t0.columns[j], n')
    ensures ColumnCells(CoerceOn(t0, parse, n).rows, j) == ColumnCells(CoerceOn(t0, parse, n').rows, j)
  {
  }

  /** Column `j` of a partial coercion that has not handled its name is the original column. */
  lemma CoerceOnUntouched(t0: Table, parse: string -> Option<int>, n: nat, j: nat)
    requires WellFormed(t0) && j < |t0.columns| && !Handled(t0.columns[j], n)
    ensures ColumnCells(CoerceOn(t0, parse, n).rows, j) == ColumnCells(t0.rows, j)
  {
  }

  /** Rewriting under `Some`, as a separate step so that the solver does not unfold both sides. */
  lemma SomeOfEqual(a: Option<int>, x: int, y: int)
    requires a == Some(x) && x == y
    ensures a == Some(y)
  {
  }

  /** The entry of the `i`-th designated name, held by column `j`, is the difference of the
      column's non-null counts before and after the coercion. */
  lemma IssueFromCounts(t0: Table, c: Table, i: nat, j: nat, before: int, after: int)
    requires Aligned(t0, c) && i < |NumericColumns| && j < |t0.columns| && t0.columns[j] == NumericColumns[i]
    requires before == CountNonNull(ColumnCells(t0.rows, j))
    requires after == CountNonNull(ColumnCells(c.rows, j))
    ensures IssueFor(t0, c, NumericColumns[i]) == Some(before - after)
  {
    IssueForPresent(t0, c, j);
    SomeOfEqual(IssueFor(t0, c, t0.columns[j]), IssueAt(t0, c, j), before - after);
  }

  /** Round `n` of the narrowing loop, on the column `j` holding the `n`-th designated name. */
  lemma NarrowStep(t0: Table, n: nat, j: nat)
    requires WellFormed(t0) && n < |NumericColumns| && j < |t0.columns| && t0.columns[j] == NumericColumns[n]
    ensures NarrowOn(t0, n + 1) ==
      if Narrows(NarrowOn(t0, n), j) then
        var m := MapColumn(NarrowOn(t0, n), j, NarrowCell);
        m.(dtypes := m.dtypes[j := NullableInt64])
      else NarrowOn(t0, n)
  {
    var df := NarrowOn(t0, n);
    var target := NarrowOn(t0, n + 1);
    HandledStep(t0.columns[j], n);
    assert ColumnCells(df.rows, j) == ColumnCells(t0.rows, j);
    assert Narrows(df, j) == Narrows(t0, j);
    forall k | 0 <= k < |t0.columns| && k != j ensures SameColumn(df, target, k) {
      OtherColumnsUnaffected(t0, n, j, k);
    }
    var r := if Narrows(df, j) then MapColumn(df, j, NarrowCell).(dtypes := df.dtypes[j := NullableInt64]) else df;
    forall k | 0 <= k < |t0.columns| ensures SameColumn(r, target, k) {
      if k != j {
        assert SameColumn(df, target, k);
      }
    }
    TablesEqualByColumns(r, target);
  }

  /** A designated name the table lacks adds nothing to the narrowing. */
  lemma NarrowAbsent(t0: Table, n: nat)
    requires WellFormed(t0) && n < |NumericColumns| && NumericColumns[n] !in t0.columns
    ensures NarrowOn(t0, n + 1) == NarrowOn(t0, n)
  {
    var a, b := NarrowOn(t0, n + 1), NarrowOn(t0, n);
    forall k | 0 <= k < |t0.columns| ensures SameColumn(a, b, k) {
      HandledStep(t0.columns[k], n);
    }
    TablesEqualByColumns(a, b);
  }

  /** Before the first round the partial coercion is the identity. */
  lemma CoerceOnZero(t0: Table, parse: string -> Option<int>)
    requires WellFormed(t0)
    ensures CoerceOn(t0, parse, 0) == t0
  {
    TablesEqual(CoerceOn(t0, parse, 0), t0);
  }

  /** Before the first round the partial narrowing is the identity. */
  lemma NarrowOnZero(t0: Table)
    requires WellFormed(t0)
    ensures NarrowOn(t0, 0) == t0
  {
    TablesEqual(NarrowOn(t0, 0), t0);
  }

  /** The object columns, in column order (`df.select_dtypes(include=['object'])`). */
  function ObjectColumns(t: Table): seq<string>
    requires WellFormed(t)
  {
    ColumnsWhere(t.columns, t.dtypes, d => d == Object)
  }

  /** The normalisation restricted to the first `n` object columns. */
  function NormalizeOn(t: Table, n: nat): (r: Table)
    requires WellFormed(t)
    ensures WellFormed(r) && r.columns == t.columns && |r.rows| == |t.rows|
  {
    var objCols := ObjectColumns(t);
    var m := MapCells(t, (k: nat, c: Cell) =>
      if k < |t.columns| && Among(objCols, t.columns[k], n) then NormalizeCell(c) else c);
    m.(dtypes := seq(|t.columns|, k requires 0 <= k < |t.columns| =>
      if Among(objCols, t.columns[k], n) then NormalizedType(t, k) else t.dtypes[k]))
  }

  /** Before the first round the partial normalisation is the identity. */
  lemma NormalizeOnZero(t0: Table)
    requires WellFormed(t0)
    ensures NormalizeOn(t0, 0) == t0
  {
    TablesEqual(NormalizeOn(t0, 0), t0);
  }

  /** After all object columns the partial normalisation is the whole one. */
  lemma NormalizeOnAll(t0: Table)
    requires WellFormed(t0)
    ensures NormalizeOn(t0, |ObjectColumns(t0)|) == NormalizeTable(t0)
  {
    var objCols := ObjectColumns(t0);
    forall k | 0 <= k < |t0.columns| ensures Among(objCols, t0.columns[k], |objCols|) == (t0.dtypes[k] == Object) {
      AmongAll(objCols, t0.columns[k]);
      ColumnsWhereMembers(t0.columns, t0.dtypes, d => d == Object);
    }
    var a, b := NormalizeOn(t0, |objCols|), NormalizeTable(t0);
    forall k | 0 <= k < |t0.columns| ensures SameColumn(a, b, k) {
    }
    TablesEqualByColumns(a, b);
  }

  /** Round `n` of the normalisation loop, on the column `j` holding the `n`-th object
      column: its cells normalised, and its type `float64` when they are all null. */
  lemma NormalizeStep(t0: Table, n: nat, j: nat)
    requires WellFormed(t0) && n < |ObjectColumns(t0)| && j < |t0.columns| && t0.columns[j] == ObjectColumns(t0)[n]
    ensures NormalizeOn(t0, n + 1) ==
      var m := MapColumn(NormalizeOn(t0, n), j, NormalizeCell);
      if |m.rows| > 0 && forall r :: 0 <= r < |m.rows| ==> m.rows[r][j] == Null then m.(dtypes := m.dtypes[j := Float64]) else m
  {
    var objCols := ObjectColumns(t0);
    ColumnsWhereDistinct(t0.columns, t0.dtypes, d => d == Object);
    ColumnsWhereMembers(t0.columns, t0.dtypes, d => d == Object);
    AmongStep(objCols, objCols[n], n);
    assert objCols[n] in objCols;
    forall k | 0 <= k < |t0.columns| ensures Among(objCols, t0.columns[k], n + 1) == (Among(objCols, t0.columns[k], n) || k == j) {
      AmongStep(objCols, t0.columns[k], n);
    }
    assert t0.dtypes[j] == Object;
    var df := NormalizeOn(t0, n);
    var target := NormalizeOn(t0, n + 1);
    var m := MapColumn(df, j, NormalizeCell);
    var r := if |m.rows| > 0 && forall i :: 0 <= i < |m.rows| ==> m.rows[i][j] == Null then m.(dtypes := m.dtypes[j := Float64]) else m;
    forall k | 0 <= k < |t0.columns| ensures SameColumn(r, target, k) {
      NormalizeStepColumn(t0, n, j, k);
    }
    TablesEqualByColumns(r, target);
  }

  /** Round `n` of the normalisation loop, one column `k` at a time. */
  lemma NormalizeStepColumn(t0: Table, n: nat, j: nat, k: nat)
    requires WellFormed(t0) && j < |t0.columns| && k < |t0.columns| && t0.dtypes[j] == Object
    requires !Among(ObjectColumns(t0), t0.columns[j], n) && Among(ObjectColumns(t0), t0.columns[j], n + 1)
    requires Among(ObjectColumns(t0), t0.columns[k], n + 1) == (Among(ObjectColumns(t0), t0.columns[k], n) || k == j)
    ensures var m := MapColumn(NormalizeOn(t0, n), j, NormalizeCell);
      var r := if |m.rows| > 0 && forall i :: 0 <= i < |m.rows| ==> m.rows[i][j] == Null then m.(dtypes := m.dtypes[j := Float64]) else m;
      SameColumn(r, NormalizeOn(t0, n + 1), k)
  {
    var df := NormalizeOn(t0, n);
    var m := MapColumn(df, j, NormalizeCell);
    var target := NormalizeOn(t0, n + 1);
    if k == j {
      forall i | 0 <= i < |t0.rows| ensures m.rows[i][j] == NormalizeCell(t0.rows[i][j]) == target.rows[i][j] {
        assert df.rows[i][j] == t0.rows[i][j];
      }
    }
  }

  /** One round of the normalisation loop. */
  method NormalizeRound(ghost t0: Table, objCols: seq<string>, df: Table, i: nat) returns (next: Table)
    requires WellFormed(t0) && objCols == ObjectColumns(t0) && i < |objCols| && df == NormalizeOn(t0, i)
    ensures next == NormalizeOn(t0, i + 1)
  {
    var j := IndexOf(df.columns, objCols[i]).value;
    assert objCols[i] in objCols;
    NormalizeStep(t0, i, j);
    next := MapColumn(df, j, NormalizeCell);
    if |next.rows| > 0 && forall r :: 0 <= r < |next.rows| ==> next.rows[r][j] == Null {
      next := next.(dtypes := next.dtypes[j := Float64]);
    }
  }

  /** One round of the coercion loop: the `i`-th designated name is looked up, its column
      parsed when it holds strings, and its entry of `conversion_issues` computed
      from the non-null counts before and after. */
  method CoerceRound(ghost t0: Table, parse: string -> Option<int>, df: Table, i: nat)
    returns (next: Table, issue: Option<int>)
    requires WellFormed(t0) && i < |NumericColumns| && df == CoerceOn(t0, parse, i)
    ensures next == CoerceOn(t0, parse, i + 1)
    ensures issue == IssueFor(t0, CoerceTable(t0, parse), NumericColumns[i])
  {
    var col := NumericColumns[i];
    var found := IndexOf(df.columns, col);
    if found.Some? {
      var j := found.value;
      CoerceStep(t0, parse, i, j);
      HandledStep(col, i);
      CoerceOnUntouched(t0, parse, i, j);
      var before: int := CountNonNull(ColumnCells(df.rows, j));
      next := df;
      if df.dtypes[j] == Object {
        next := MapColumn(df, j, CoerceWith(parse));
        next := next.(dtypes := next.dtypes[j := CoercedDType(ColumnCells(next.rows, j))]);
        assert next == ParseColumn(df, parse, j);
      }
      HandledAll(col);
      CoerceOnCells(t0, parse, i + 1, |NumericColumns|, j);
      var after: int := CountNonNull(ColumnCells(next.rows, j));
      IssueFromCounts(t0, CoerceTable(t0, parse), i, j, before, after);
      issue := Some(before - after);
    } else {
      CoerceAbsent(t0, parse, i);
      next, issue := df, None;
    }
  }

  /** One round of the narrowing loop: the column of the `i`-th designated name becomes
      `Int64` when it has a non-null value and all of them are whole. */
  method NarrowRound(ghost t0: Table, df: Table, i: nat) returns (next: Table)
    requires WellFormed(t0) && i < |NumericColumns| && df == NarrowOn(t0, i)
    ensures next == NarrowOn(t0, i + 1)
  {
    var found := IndexOf(df.columns, NumericColumns[i]);
    next := df;
    if found.Some? {
      var j := found.value;
      NarrowStep(t0, i, j);
      var nonNull := CountNonNull(ColumnCells(df.rows, j));
      var whole := forall r :: 0 <= r < |df.rows| && df.rows[r][j] != Null ==> Integral(df.rows[r][j]);
      if nonNull > 0 && whole {
        next := MapColumn(df, j, NarrowCell);
        next := next.(dtypes := next.dtypes[j := NullableInt64]);
      }
    } else {
      NarrowAbsent(t0, i);
    }
  }

  /** The script's working table `df`; each method performs one step of the script on it. */
  class Cleaner {
    var table: Table

    ghost predicate Valid()
      reads this
    {
      WellFormed(table)
    }

    constructor (t: Table)
      requires WellFormed(t)
      ensures Valid() && table == t
    {
      table := t;
    }

    /** Step 1: strip and null the placeholders of every object column; a column left
        with only nulls is typed `float64`. */
    method NormalizeStrings()
      requires Valid()
      modifies this`table
      ensures Valid() && table == NormalizeTable(old(table))
    {
      var t0, df := table, table;
      var objCols := ObjectColumns(df);
      NormalizeOnZero(t0);
      var i := 0;
      while i < |objCols|
        invariant 0 <= i <= |objCols|
        invariant df == NormalizeOn(t0, i)
      {
        df := NormalizeRound(t0, objCols, df, i);
        i := i + 1;
      }
      NormalizeOnAll(t0);
      table := df;
    }

    /** Step 2: parse the designated columns and count the values lost to parsing. */
    method CoerceNumeric(parse: string -> Option<int>) returns (issues: map<string, Option<int>>)
      requires Valid()
      modifies this`table
      ensures Valid() && table == CoerceTable(old(table), parse)
      ensures issues == ConversionIssues(old(table), parse)
    {
      var t0, df := table, table;
      issues := map[];
      CoerceOnZero(t0, parse);
      var i := 0;
      while i < |NumericColumns|
        invariant 0 <= i <= |NumericColumns|
        invariant df == CoerceOn(t0, parse, i)
        invariant issues == IssuesOf(t0, CoerceTable(t0, parse), i)
      {
        var issue;
        df, issue := CoerceRound(t0, parse, df, i);
        issues := issues[NumericColumns[i] := issue];
        i := i + 1;
      }
      table := df;
    }

    /** `df.loc[~ok(df[col]), col] = np.nan` for one designated column. */
    method NullFailing(col: string, currentYear: int)
      requires Valid()
      modifies this`table
      ensures Valid() && table.columns == old(table.columns) && |table.rows| == |old(table.rows)|
      ensures forall k :: 0 <= k < |table.columns| && table.columns[k] != col ==> SameColumn(table, old(table), k)
      ensures forall k :: 0 <= k < |table.columns| && table.columns[k] == col ==>
        && table.dtypes[k] == (if ColumnPasses(old(table), k, currentYear) then old(table).dtypes[k] else Upcast(old(table).dtypes[k]))
        && forall i :: 0 <= i < |table.rows| ==> table.rows[i][k] == CheckCell(col, old(table).rows[i][k], currentYear)
    {
      var found := IndexOf(table.columns, col);
      if found.Some? {
        var j := found.value;
        var passes := forall i :: 0 <= i < |table.rows| ==> Passes(col, table.rows[i][j], currentYear);
        table := MapColumn(table, j, c => CheckCell(col, c, currentYear));
        if !passes {
          table := table.(dtypes := table.dtypes[j := Upcast(table.dtypes[j])]);
        }
      }
    }

    /** Step 3: null the out-of-range years, non-positive prices and negative distances. */
    method ValidateDomains(currentYear: int)
      requires Valid()
      modifies this`table
      ensures Valid() && table == ValidateTable(old(table), currentYear)
    {
      ghost var t0 := table;
      NullFailing("year", currentYear);
      NullFailing("selling_price", currentYear);
      NullFailing("km_driven", currentYear);
      ghost var target := ValidateTable(t0, currentYear);
      forall k | 0 <= k < |t0.columns| ensures SameColumn(table, target, k) {
        var col := t0.columns[k];
        if col !in NumericColumns {
          assert ColumnPasses(t0, k, currentYear);
        }
      }
      TablesEqualByColumns(table, target);
    }

    /** Step 4: count and drop the repeated rows. */
    method DropDuplicates() returns (removed: nat)
      requires Valid()
      modifies this`table
      ensures Valid() && table == DedupTable(old(table))
      ensures removed == DuplicateCount(old(table).rows)
    {
      removed := DuplicateCount(table.rows);
      table := DedupTable(table);
    }

    /** Step 5: drop the rows missing a critical value and count them. */
    method DropMissingCritical() returns (dropped: nat)
      requires Valid()
      modifies this`table
      ensures Valid() && table == DropIncomplete(old(table))
      ensures dropped == |old(table).rows| - |table.rows|
    {
      var rowsBeforeDrop := |table.rows|;
      table := DropIncomplete(table);
      assert |table.rows| <= rowsBeforeDrop;
      dropped := rowsBeforeDrop - |table.rows|;
    }

    /** Step 6: add or overwrite `age`. */
    method AddAge(currentYear: int)
      requires Valid()
      modifies this`table
      ensures Valid() && table == WithAge(old(table), currentYear)
    {
      table := WithAge(table, currentYear);
    }

    /** Step 7: type the low-cardinality columns as categorical. */
    method TagCategoricals()
      requires Valid()
      modifies this`table
      ensures Valid() && table == TagCategories(old(table))
    {
      ghost var t0 := table;
      var i := 0;
      while i < |LowCardinalityColumns|
        invariant 0 <= i <= |LowCardinalityColumns|
        invariant WellFormed(table) && table.columns == t0.columns && table.rows == t0.rows
        invariant forall k :: 0 <= k < |t0.columns| ==>
          table.dtypes[k] == if t0.columns[k] in LowCardinalityColumns[..i] then Category else t0.dtypes[k]
      {
        var col := LowCardinalityColumns[i];
        assert LowCardinalityColumns[..i + 1] == LowCardinalityColumns[..i] + [col];
        var found := IndexOf(table.columns, col);
        if found.Some? {
          table := table.(dtypes := table.dtypes[found.value := Category]);
        }
        i := i + 1;
      }
      assert LowCardinalityColumns[..i] == LowCardinalityColumns;
      assert table.dtypes == TagCategories(t0).dtypes;
    }

    /** Step 8: narrow every designated column holding only whole numbers to `Int64`. */
    method NarrowIntegers()
      requires Valid()
      modifies this`table
      ensures Valid() && table == NarrowTable(old(table))
    {
      var t0, df := table, table;
      NarrowOnZero(t0);
      var i := 0;
      while i < |NumericColumns|
        invariant 0 <= i <= |NumericColumns|
        invariant df == NarrowOn(t0, i)
      {
        df := NarrowRound(t0, df, i);
        i := i + 1;
      }
      table := df;
    }

    /** Steps 1 to 3: the cell values are cleaned and checked. */
    method Prepare(parse: string -> Option<int>, currentYear: int) returns (issues: map<string, Option<int>>)
      requires Valid()
      modifies this`table
      ensures Valid() && table == Validated(old(table), parse, currentYear)
      ensures issues == ConversionIssues(NormalizeTable(old(table)), parse)
    {
      NormalizeStrings();
      issues := CoerceNumeric(parse);
      ValidateDomains(currentYear);
    }

    /** Steps 4 and 5: rows are dropped and counted; `t0` is the table the run started from. */
    method Reduce(ghost t0: Table, parse: string -> Option<int>, currentYear: int) returns (removed: nat, dropped: nat)
      requires WellFormed(t0) && table == Validated(t0, parse, currentYear)
      modifies this`table
      ensures Valid() && table == Reduced(t0, parse, currentYear)
      ensures removed == DuplicateCount(Validated(t0, parse, currentYear).rows)
      ensures dropped == |DedupTable(Validated(t0, parse, currentYear)).rows| - |Reduced(t0, parse, currentYear).rows|
    {
      removed := DropDuplicates();
      dropped := DropMissingCritical();
    }

    /** Steps 6 to 8: a column is derived and column types are set. */
    method Derive(ghost t0: Table, parse: string -> Option<int>, currentYear: int)
      requires WellFormed(t0) && table == Reduced(t0, parse, currentYear)
      modifies this`table
      ensures Valid() && table == CleanTable(t0, parse, currentYear)
    {
      AddAge(currentYear);
      TagCategoricals();
      NarrowIntegers();
    }

  }

  /** The `output` record's metrics and the cleaned table. */
  datatype CleaningOutput = CleaningOutput(
    cleaned: Table,
    rowsBefore: nat,
    rowsAfter: nat,
    duplicatesRemoved: nat,
    droppedRowsDueToMissingCriticalFields: nat,
    conversionIssues: map<string, Option<int>>)

  /** The `try` block of the script, from recording the shape to the metrics of
      `output`: every step in order on one working table. */
  method CleanCarData(t: Table, parse: string -> Option<int>, currentYear: int) returns (out: CleaningOutput)
    requires WellFormed(t)
    ensures out.cleaned == CleanTable(t, parse, currentYear)
    ensures out.rowsBefore == |t.rows| && out.rowsAfter == |out.cleaned.rows|
    ensures out.conversionIssues == ConversionIssues(NormalizeTable(t), parse)
    ensures out.duplicatesRemoved == DuplicateCount(Validated(t, parse, currentYear).rows)
    ensures out.droppedRowsDueToMissingCriticalFields
      == |DedupTable(Validated(t, parse, currentYear)).rows| - |Reduced(t, parse, currentYear).rows|
    ensures out.rowsAfter == out.rowsBefore - out.duplicatesRemoved - out.droppedRowsDueToMissingCriticalFields
  {
    var df := new Cleaner(t);
    var rowsBefore := |df.table.rows|;
    var issues := df.Prepare(parse, currentYear);
    var removed, dropped := df.Reduce(t, parse, currentYear);
    df.Derive(t, parse, currentYear);
    out := CleaningOutput(df.table, rowsBefore, |df.table.rows|, removed, dropped, issues);
    CleaningProperties.RowCounts(t, parse, currentYear);
  }
}
