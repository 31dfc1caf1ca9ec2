/** Cleaning a table a second time: what clean_car_data.py removes when it is given
    its own output. Nothing, when the input had no `age` column and no column held both
    booleans and numbers; one row, for a table that had an `age` column. */
module CleaningTwice {
  import opened Wrappers
  import opened Tables
  import opened CleaningSteps
  import opened CleaningProperties

  // ---------------------------------------------------------------------------
  // What the cleaned cells satisfy

  /** Every cell of an object column is already normalised. */
  predicate ObjectsNormal(t: Table)
    requires WellFormed(t)
  {
    forall i, k :: 0 <= i < |t.rows| && 0 <= k < |t.columns| && t.dtypes[k] == Object ==>
      NormalizeCell(t.rows[i][k]) == t.rows[i][k]
  }

  /** Every value of a designated column passes its domain check. */
  predicate InRange(t: Table, currentYear: int)
    requires WellFormed(t)
  {
    forall i, k :: 0 <= i < |t.rows| && 0 <= k < |t.columns| && t.columns[k] in NumericColumns ==>
      t.rows[i][k] == Null || Passes(t.columns[k], t.rows[i][k], currentYear)
  }

  /** A designated column typed `object` holds only nulls. */
  predicate ObjectsEmpty(t: Table)
    requires WellFormed(t)
  {
    forall i, k :: 0 <= i < |t.rows| && 0 <= k < |t.columns| && t.columns[k] in NumericColumns && t.dtypes[k] == Object ==>
      t.rows[i][k] == Null
  }

  /** No designated column lacks a value. */
  predicate AllComplete(t: Table)
    requires WellFormed(t)
  {
    forall i, k :: 0 <= i < |t.rows| && 0 <= k < |t.columns| && t.columns[k] in NumericColumns ==>
      t.rows[i][k] != Null
  }

  predicate NoBoolIn(t: Table, k: nat)
    requires WellFormed(t) && k < |t.columns|
  {
    forall i :: 0 <= i < |t.rows| ==> !t.rows[i][k].Bool?
  }

  predicate NoNumIn(t: Table, k: nat)
    requires WellFormed(t) && k < |t.columns|
  {
    forall i :: 0 <= i < |t.rows| ==> !t.rows[i][k].Num?
  }

  /** No column holds both a boolean and a number, as no pandas column of type `bool`,
      `int64` or `float64` does. */
  predicate Unmixed(t: Table)
    requires WellFormed(t)
  {
    forall k :: 0 <= k < |t.columns| ==> NoBoolIn(t, k) || NoNumIn(t, k)
  }

  /** Tables of the same width and height whose cells agree have the same rows. */
  lemma SameRows(a: Table, b: Table)
    requires WellFormed(a) && WellFormed(b) && |a.columns| == |b.columns| && |a.rows| == |b.rows|
    requires forall i, k :: 0 <= i < |a.rows| && 0 <= k < |a.columns| ==> a.rows[i][k] == b.rows[i][k]
    ensures a.rows == b.rows
  {
    forall i | 0 <= i < |a.rows| ensures a.rows[i] == b.rows[i] {
      assert |a.rows[i]| == |b.rows[i]|;
    }
  }

  // ---------------------------------------------------------------------------
  // The second run's steps 1 to 3

  /** On a table whose cells are already clean, steps 1 to 3 change no cell. */
  lemma Revalidated(c: Table, parse: string -> Option<int>, currentYear: int)
    requires WellFormed(c) && ObjectsNormal(c) && InRange(c, currentYear) && ObjectsEmpty(c)
    ensures Validated(c, parse, currentYear).rows == c.rows
  {
    var v := Validated(c, parse, currentYear);
    forall i, k | 0 <= i < |c.rows| && 0 <= k < |c.columns| ensures v.rows[i][k] == c.rows[i][k] {
      RevalidatedCell(c, parse, currentYear, i, k);
    }
    SameRows(v, c);
  }

  /** One cell of `Revalidated`. */
  lemma RevalidatedCell(c: Table, parse: string -> Option<int>, currentYear: int, i: nat, k: nat)
    requires WellFormed(c) && ObjectsNormal(c) && InRange(c, currentYear) && ObjectsEmpty(c)
    requires i < |c.rows| && k < |c.columns|
    ensures Validated(c, parse, currentYear).rows[i][k] == c.rows[i][k]
  {
    var x := c.rows[i][k];
    var n := NormalizeTable(c);
    var m := CoerceTable(n, parse);
    assert n.rows[i][k] == x by {
      NormalizeTableCells(c, i, k);
    }
    assert m.rows[i][k] == x by {
      CoerceTableCells(n, parse, i, k);
      if Coerces(n, k) {
        assert c.dtypes[k] == Object;
        CoerceMissing(parse);
      }
    }
    assert ValidateTable(m, currentYear).rows[i][k] == CheckCell(c.columns[k], x, currentYear);
  }

  // ---------------------------------------------------------------------------
  // The first run, step by step

  /** After steps 1 to 3, object columns are normalised and designated values pass. */
  lemma ValidatedFacts(t: Table, parse: string -> Option<int>, currentYear: int)
    requires WellFormed(t)
    ensures ObjectsNormal(Validated(t, parse, currentYear)) && InRange(Validated(t, parse, currentYear), currentYear)
  {
    ValidatedNormal(t, parse, currentYear);
    ValidatedInRange(t, parse, currentYear);
  }

  lemma ValidatedNormal(t: Table, parse: string -> Option<int>, currentYear: int)
    requires WellFormed(t)
    ensures ObjectsNormal(Validated(t, parse, currentYear))
  {
    var v := Validated(t, parse, currentYear);
    forall i, k | 0 <= i < |v.rows| && 0 <= k < |v.columns| && v.dtypes[k] == Object
      ensures NormalizeCell(v.rows[i][k]) == v.rows[i][k]
    {
      ValidatedObjectCell(t, parse, currentYear, i, k);
    }
  }

  lemma ValidatedInRange(t: Table, parse: string -> Option<int>, currentYear: int)
    requires WellFormed(t)
    ensures InRange(Validated(t, parse, currentYear), currentYear)
  {
    var m := CoerceTable(NormalizeTable(t), parse);
    var v := ValidateTable(m, currentYear);
    forall i, k | 0 <= i < |v.rows| && 0 <= k < |v.columns| && v.columns[k] in NumericColumns
      ensures v.rows[i][k] == Null || Passes(v.columns[k], v.rows[i][k], currentYear)
    {
      ValidatedRanges(m, currentYear, i, k);
    }
  }

  lemma ValidatedObjectCell(t: Table, parse: string -> Option<int>, currentYear: int, i: nat, k: nat)
    requires WellFormed(t) && i < |t.rows| && k < |t.columns|
    requires Validated(t, parse, currentYear).dtypes[k] == Object
    ensures NormalizeCell(Validated(t, parse, currentYear).rows[i][k]) == Validated(t, parse, currentYear).rows[i][k]
  {
    var m := CoerceTable(NormalizeTable(t), parse);
    if t.columns[k] in NumericColumns {
      CheckedNotString(m, currentYear, i, k);
      NormalizeNonString(ValidateTable(m, currentYear).rows[i][k]);
    } else {
      UncheckedObjectCell(t, parse, currentYear, i, k);
      NormalizeIdempotent(t.rows[i][k]);
    }
  }

  /** A value left in a designated column after validation is a number or a boolean. */
  lemma CheckedNotString(m: Table, currentYear: int, i: nat, k: nat)
    requires WellFormed(m) && i < |m.rows| && k < |m.columns| && m.columns[k] in NumericColumns
    ensures !ValidateTable(m, currentYear).rows[i][k].Str?
  {
    ValidatedRanges(m, currentYear, i, k);
  }

  /** A non-designated column that comes out of steps 1 to 3 typed `object` was an
      `object` column, and its cells are the normalised cells of the input. */
  lemma UncheckedObjectCell(t: Table, parse: string -> Option<int>, currentYear: int, i: nat, k: nat)
    requires WellFormed(t) && i < |t.rows| && k < |t.columns| && t.columns[k] !in NumericColumns
    requires Validated(t, parse, currentYear).dtypes[k] == Object
    ensures Validated(t, parse, currentYear).rows[i][k] == NormalizeCell(t.rows[i][k])
  {
    var n := NormalizeTable(t);
    var m := CoerceTable(n, parse);
    var v := ValidateTable(m, currentYear);
    assert ColumnPasses(m, k, currentYear);
    assert v.dtypes[k] == m.dtypes[k];
    CoerceTableCells(n, parse, i, k);
    assert n.dtypes[k] == Object;
    NormalizeTableCells(t, i, k);
    ValidatedKeeps(m, currentYear, i, k);
  }

  /** The rows steps 4 and 5 keep are rows of the table before them. */
  lemma KeptRows(v: Table)
    requires WellFormed(v)
    ensures var r := DropIncomplete(DedupTable(v));
      r.columns == v.columns && r.dtypes == v.dtypes && forall i :: 0 <= i < |r.rows| ==> r.rows[i] in v.rows
  {
    forall i | 0 <= i < |DropIncomplete(DedupTable(v)).rows| ensures DropIncomplete(DedupTable(v)).rows[i] in v.rows {
      var j := KeptRowOrigin(v, i);
    }
  }

  /** Facts about every cell of a column hold for a table made of some of its rows. */
  lemma RowsFromFacts(a: Table, b: Table, currentYear: int)
    requires WellFormed(a) && WellFormed(b) && a.columns == b.columns && a.dtypes == b.dtypes
    requires forall i :: 0 <= i < |a.rows| ==> a.rows[i] in b.rows
    requires ObjectsNormal(b) && InRange(b, currentYear)
    ensures ObjectsNormal(a) && InRange(a, currentYear)
  {
    forall i | 0 <= i < |a.rows| ensures exists j :: 0 <= j < |b.rows| && b.rows[j] == a.rows[i] {
      assert a.rows[i] in b.rows;
    }
  }

  lemma RowsFromUnmixed(a: Table, b: Table)
    requires WellFormed(a) && WellFormed(b) && a.columns == b.columns
    requires forall i :: 0 <= i < |a.rows| ==> a.rows[i] in b.rows
    requires Unmixed(b)
    ensures Unmixed(a)
  {
    forall k | 0 <= k < |a.columns| ensures NoBoolIn(a, k) || NoNumIn(a, k) {
      assert NoBoolIn(b, k) || NoNumIn(b, k);
      forall i | 0 <= i < |a.rows| ensures exists j :: 0 <= j < |b.rows| && b.rows[j] == a.rows[i] {
        assert a.rows[i] in b.rows;
      }
    }
  }

  /** The rows step 5 keeps have every critical value. */
  lemma ReducedComplete(v: Table)
    requires WellFormed(v)
    ensures AllComplete(DropIncomplete(DedupTable(v)))
  {
    var r := DropIncomplete(DedupTable(v));
    forall i, k | 0 <= i < |r.rows| && 0 <= k < |r.columns| && r.columns[k] in NumericColumns ensures r.rows[i][k] != Null {
      DropIncompleteComplete(DedupTable(v), i, k);
    }
  }

  /** A column of the table with `age` is a column of the table before, cells and type,
      or it is the new `age` column, typed `Int64` and holding no boolean. */
  lemma AgeKeeps(t: Table, currentYear: int, k: nat)
    requires WellFormed(t) && k < |WithAge(t, currentYear).columns|
    ensures var w := WithAge(t, currentYear);
      || (&& k < |t.columns| && w.columns[k] == t.columns[k] && w.dtypes[k] == t.dtypes[k]
          && forall i :: 0 <= i < |t.rows| ==> w.rows[i][k] == t.rows[i][k])
      || (&& w.columns[k] == "age" && w.dtypes[k] == NullableInt64
          && forall i :: 0 <= i < |t.rows| ==> !w.rows[i][k].Bool?)
  {
    var w := WithAge(t, currentYear);
    match IndexOf(t.columns, "year")
    case None =>
    case Some(y) =>
      var a := AgeColumn(t, currentYear, y);
      if k != a {
        assert k < |t.columns| by {
          if IndexOf(t.columns, "age").None? {
            assert |w.columns| == |t.columns| + 1;
          }
        }
        assert w.columns[k] == w.columns[..|t.columns|][k];
        if IndexOf(t.columns, "age").None? {
          assert w.dtypes[k] == (t.dtypes + [NullableInt64])[k];
        }
      } else {
        forall i | 0 <= i < |t.rows| ensures !w.rows[i][k].Bool? {
          assert w.rows[i][a] == AgeCell(t.rows[i][y], currentYear);
        }
      }
  }

  /** Adding `age` keeps the facts about the other columns. */
  lemma WithAgeFacts(t: Table, currentYear: int)
    requires WellFormed(t) && ObjectsNormal(t) && InRange(t, currentYear) && AllComplete(t)
    ensures var w := WithAge(t, currentYear);
      ObjectsNormal(w) && InRange(w, currentYear) && AllComplete(w)
  {
    var w := WithAge(t, currentYear);
    forall k | 0 <= k < |w.columns| && (w.dtypes[k] == Object || w.columns[k] in NumericColumns)
      ensures k < |t.columns| && w.columns[k] == t.columns[k] && w.dtypes[k] == t.dtypes[k]
      ensures forall i :: 0 <= i < |t.rows| ==> w.rows[i][k] == t.rows[i][k]
    {
      AgeKeeps(t, currentYear, k);
    }
  }

  lemma WithAgeUnmixed(t: Table, currentYear: int)
    requires WellFormed(t) && Unmixed(t)
    ensures Unmixed(WithAge(t, currentYear))
  {
    var w := WithAge(t, currentYear);
    forall k | 0 <= k < |w.columns| ensures NoBoolIn(w, k) || NoNumIn(w, k) {
      AgeKeeps(t, currentYear, k);
      if k < |t.columns| && w.columns[k] == t.columns[k] && w.dtypes[k] == t.dtypes[k] &&
        forall i :: 0 <= i < |t.rows| ==> w.rows[i][k] == t.rows[i][k]
      {
        assert NoBoolIn(t, k) || NoNumIn(t, k);
      }
    }
  }

  /** Without an `age` column to overwrite, adding `age` keeps rows that differ apart. */
  lemma WithAgeDistinct(t: Table, currentYear: int)
    requires WellFormed(t) && "age" !in t.columns && Distinct(t.rows)
    ensures Distinct(WithAge(t, currentYear).rows)
  {
    var w := WithAge(t, currentYear);
    match IndexOf(t.columns, "year")
    case None =>
    case Some(y) =>
      forall i, j | 0 <= i < j < |w.rows| ensures w.rows[i] != w.rows[j] {
        assert w.rows[i][..|t.columns|] == t.rows[i];
        assert w.rows[j][..|t.columns|] == t.rows[j];
      }
  }

  /** Tagging changes no cell, and a column it retypes is typed `category`, not `object`. */
  lemma TagFacts(w: Table, currentYear: int)
    requires WellFormed(w) && ObjectsNormal(w) && InRange(w, currentYear) && AllComplete(w)
    ensures var g := TagCategories(w);
      ObjectsNormal(g) && InRange(g, currentYear) && AllComplete(g)
  {
  }

  /** A whole-valued column is narrowed by `astype('Int64')`, so a designated column left
      `object` has no row; narrowing keeps every value, so every other fact holds. */
  lemma NarrowFacts(g: Table, currentYear: int)
    requires WellFormed(g) && ObjectsNormal(g) && InRange(g, currentYear) && AllComplete(g)
    ensures var c := NarrowTable(g);
      ObjectsNormal(c) && InRange(c, currentYear) && ObjectsEmpty(c) && AllComplete(c)
  {
    var c := NarrowTable(g);
    forall i, k | 0 <= i < |c.rows| && 0 <= k < |c.columns|
      ensures c.dtypes[k] == Object ==> NormalizeCell(c.rows[i][k]) == c.rows[i][k]
      ensures c.columns[k] in NumericColumns ==> c.rows[i][k] != Null && Passes(c.columns[k], c.rows[i][k], currentYear)
      ensures c.columns[k] in NumericColumns ==> c.dtypes[k] != Object
    {
      NarrowTableCells(g, i, k);
      NarrowKeepsValues(g.rows[i][k]);
      if c.columns[k] in NumericColumns {
        DesignatedNarrows(g, currentYear, k);
      }
    }
  }

  /** A designated column of a table with rows, all of whose values are present and pass
      their check, is narrowed. */
  lemma DesignatedNarrows(g: Table, currentYear: int, k: nat)
    requires WellFormed(g) && InRange(g, currentYear) && AllComplete(g) && k < |g.columns| && |g.rows| > 0
    requires g.columns[k] in NumericColumns
    ensures Narrows(g, k)
  {
    CountNonNullZero(ColumnCells(g.rows, k));
    assert ColumnCells(g.rows, k)[0] != Null;
  }

  /** `astype('Int64')` turns two different cells into the same one only when one is a
      boolean and the other a number. */
  lemma NarrowInjective(x: Cell, y: Cell)
    requires x != y && !(x.Bool? && y.Num?) && !(x.Num? && y.Bool?)
    ensures NarrowCell(x) != NarrowCell(y)
  {
  }

  /** Narrowing a table whose columns are unmixed keeps rows that differ apart. */
  lemma NarrowDistinct(g: Table)
    requires WellFormed(g) && Distinct(g.rows) && Unmixed(g)
    ensures Distinct(NarrowTable(g).rows)
  {
    var c := NarrowTable(g);
    forall i, j | 0 <= i < j < |c.rows| ensures c.rows[i] != c.rows[j] {
      assert g.rows[i] != g.rows[j];
      assert |g.rows[i]| == |g.rows[j]| == |g.columns|;
      var k :| 0 <= k < |g.columns| && g.rows[i][k] != g.rows[j][k];
      assert NoBoolIn(g, k) || NoNumIn(g, k);
      NarrowTableCells(g, i, k);
      NarrowTableCells(g, j, k);
      NarrowInjective(g.rows[i][k], g.rows[j][k]);
      assert c.rows[i][k] != c.rows[j][k];
    }
  }

  /** Steps 1 to 3 keep a column unmixed: a parsed column holds no boolean, and otherwise
      a cell only loses its value or its padding. */
  lemma ValidatedUnmixed(t: Table, parse: string -> Option<int>, currentYear: int)
    requires WellFormed(t) && Unmixed(t)
    ensures Unmixed(Validated(t, parse, currentYear))
  {
    var v := Validated(t, parse, currentYear);
    forall k | 0 <= k < |t.columns| ensures NoBoolIn(v, k) || NoNumIn(v, k) {
      assert NoBoolIn(t, k) || NoNumIn(t, k);
      forall i | 0 <= i < |t.rows|
        ensures v.rows[i][k].Bool? ==> t.rows[i][k].Bool? && !Coerces(NormalizeTable(t), k)
        ensures v.rows[i][k].Num? ==> t.rows[i][k].Num? || Coerces(NormalizeTable(t), k)
      {
        ValidatedCellKind(t, parse, currentYear, i, k);
      }
    }
  }

  /** Where a cell of steps 1 to 3 gets a boolean or a number from. */
  lemma ValidatedCellKind(t: Table, parse: string -> Option<int>, currentYear: int, i: nat, k: nat)
    requires WellFormed(t) && i < |t.rows| && k < |t.columns|
    ensures var v := Validated(t, parse, currentYear).rows[i][k];
      && (v.Bool? ==> t.rows[i][k].Bool? && !Coerces(NormalizeTable(t), k))
      && (v.Num? ==> t.rows[i][k].Num? || Coerces(NormalizeTable(t), k))
  {
    var n := NormalizeTable(t);
    var m := CoerceTable(n, parse);
    ValidatedRanges(m, currentYear, i, k);
    CoerceTableCells(n, parse, i, k);
    NormalizeTableCells(t, i, k);
  }

  /** The cleaned table's cells satisfy every fact the second run's steps rely on. */
  lemma CleanedSettled(t: Table, parse: string -> Option<int>, currentYear: int)
    requires WellFormed(t)
    ensures var c := CleanTable(t, parse, currentYear);
      ObjectsNormal(c) && InRange(c, currentYear) && ObjectsEmpty(c) && AllComplete(c)
  {
    var v := Validated(t, parse, currentYear);
    ValidatedFacts(t, parse, currentYear);
    var rd := DropIncomplete(DedupTable(v));
    KeptRows(v);
    RowsFromFacts(rd, v, currentYear);
    ReducedComplete(v);
    var w := WithAge(rd, currentYear);
    WithAgeFacts(rd, currentYear);
    TagFacts(w, currentYear);
    NarrowFacts(TagCategories(w), currentYear);
  }

  /** Without an `age` column and with unmixed columns, the cleaned rows all differ. */
  lemma CleanedDistinct(t: Table, parse: string -> Option<int>, currentYear: int)
    requires WellFormed(t) && "age" !in t.columns && Unmixed(t)
    ensures Distinct(CleanTable(t, parse, currentYear).rows)
  {
    var v := Validated(t, parse, currentYear);
    ValidatedUnmixed(t, parse, currentYear);
    var rd := Reduced(t, parse, currentYear);
    ReducedDistinct(v);
    WithAgeDistinct(rd, currentYear);
    WithAgeUnmixed(rd, currentYear);
    var g := TagCategories(WithAge(rd, currentYear));
    TagUnmixed(WithAge(rd, currentYear));
    NarrowDistinct(g);
  }

  /** Tagging changes no cell, so rows stay distinct and columns unmixed. */
  lemma TagUnmixed(w: Table)
    requires WellFormed(w) && Distinct(w.rows) && Unmixed(w)
    ensures Distinct(TagCategories(w).rows) && Unmixed(TagCategories(w))
  {
    var g := TagCategories(w);
    forall k | 0 <= k < |g.columns| ensures NoBoolIn(g, k) || NoNumIn(g, k) {
      assert NoBoolIn(w, k) || NoNumIn(w, k);
    }
  }

  /** Steps 4 and 5 leave distinct rows, and unmixed columns stay unmixed. */
  lemma ReducedDistinct(v: Table)
    requires WellFormed(v) && Unmixed(v)
    ensures Distinct(DropIncomplete(DedupTable(v)).rows) && Unmixed(DropIncomplete(DedupTable(v)))
  {
    var d := DedupTable(v);
    KeptRows(v);
    RowsFromUnmixed(DropIncomplete(d), v);
    DedupTableRows(v);
    FilterDistinct(d.rows, row => Complete(d.columns, CriticalColumns(d.columns), row));
  }

  /** Rows none of which misses a critical value count no missing row. */
  lemma {:induction false} NoneMissing(columns: seq<string>, rows: seq<Row>)
    requires forall i :: 0 <= i < |rows| ==> !MissingCritical(columns, rows[i])
    ensures CountMissingCritical(columns, rows) == 0
  {
    if rows != [] {
      NoneMissing(columns, rows[1..]);
    }
  }

  /** Steps 4 and 5 of the second run, on a table whose steps 1 to 3 changed no row and
      whose rows all have their critical values: the drop removes nothing. */
  lemma SecondDropNothing(c: Table, parse: string -> Option<int>, currentYear: int)
    requires WellFormed(c) && AllComplete(c) && Validated(c, parse, currentYear).rows == c.rows
    ensures |DedupTable(Validated(c, parse, currentYear)).rows| - |Reduced(c, parse, currentYear).rows| == 0
  {
    var v := Validated(c, parse, currentYear);
    var d := DedupTable(v);
    RowCounts(c, parse, currentYear);
    DedupTableRows(v);
    forall i | 0 <= i < |d.rows| ensures !MissingCritical(d.columns, d.rows[i]) {
      assert d.rows[i] in c.rows;
      var j :| 0 <= j < |c.rows| && c.rows[j] == d.rows[i];
    }
    NoneMissing(d.columns, d.rows);
  }

  // ---------------------------------------------------------------------------
  // The two runs

  /** Cleaning a cleaned table removes no duplicate, drops no row for a missing critical
      value and keeps the row count, when the data had no `age` column and no column
      holding both booleans and numbers. */
  lemma SecondCleaningRemovesNothing(t: Table, parse: string -> Option<int>, currentYear: int)
    requires WellFormed(t) && "age" !in t.columns && Unmixed(t)
    ensures var c := CleanTable(t, parse, currentYear);
      && DuplicateCount(Validated(c, parse, currentYear).rows) == 0
      && |DedupTable(Validated(c, parse, currentYear)).rows| - |Reduced(c, parse, currentYear).rows| == 0
      && |CleanTable(c, parse, currentYear).rows| == |c.rows|
  {
    var c := CleanTable(t, parse, currentYear);
    CleanedSettled(t, parse, currentYear);
    CleanedDistinct(t, parse, currentYear);
    Revalidated(c, parse, currentYear);
    DuplicateCountZero(c.rows);
    SecondDropNothing(c, parse, currentYear);
    RowCounts(c, parse, currentYear);
  }

  /** Two rows of one model year whose existing `age` values differ are both kept by the
      first run, whose new `age` then makes them equal: the second run removes one of them
      as a duplicate. */
  lemma SecondCleaningFindsDuplicate(parse: string -> Option<int>, currentYear: int)
    requires currentYear >= 2015
    ensures var t := Table(["year", "age"], [Int64, Int64], [[Num(2015), Num(1)], [Num(2015), Num(2)]]);
      var c := CleanTable(t, parse, currentYear);
      && DuplicateCount(Validated(t, parse, currentYear).rows) == 0
      && |c.rows| == 2
      && DuplicateCount(Validated(c, parse, currentYear).rows) == 1
      && |CleanTable(c, parse, currentYear).rows| == 1
  {
    var t := Table(["year", "age"], [Int64, Int64], [[Num(2015), Num(1)], [Num(2015), Num(2)]]);
    ExampleShape(t);
    ExampleValues(t, currentYear);
    SameYearCollapses(t, parse, currentYear, 2015);
  }

  /** The example has two different rows of the year 2015 and no `object` column. */
  lemma ExampleShape(t: Table)
    requires t == Table(["year", "age"], [Int64, Int64], [[Num(2015), Num(1)], [Num(2015), Num(2)]])
    ensures WellFormed(t) && ObjectsNormal(t) && ObjectsEmpty(t) && Distinct(t.rows)
    ensures forall j :: 0 <= j < |t.rows| ==> t.rows[j][0] == Num(2015)
  {
    assert t.rows[0] != t.rows[1];
  }

  /** The example's years are present and valid from 2015 on. */
  lemma ExampleValues(t: Table, currentYear: int)
    requires t == Table(["year", "age"], [Int64, Int64], [[Num(2015), Num(1)], [Num(2015), Num(2)]])
    requires currentYear >= 2015
    ensures WellFormed(t) && InRange(t, currentYear) && AllComplete(t)
  {
  }

  /** The same for any two different rows of one valid year, with an `age` column. */
  lemma SameYearCollapses(t: Table, parse: string -> Option<int>, currentYear: int, year: int)
    requires WellFormed(t) && t.columns == ["year", "age"] && |t.rows| == 2 && Distinct(t.rows)
    requires ObjectsNormal(t) && InRange(t, currentYear) && ObjectsEmpty(t) && AllComplete(t)
    requires forall j :: 0 <= j < |t.rows| ==> t.rows[j][0] == Num(year)
    ensures var c := CleanTable(t, parse, currentYear);
      && DuplicateCount(Validated(t, parse, currentYear).rows) == 0
      && |c.rows| == 2
      && DuplicateCount(Validated(c, parse, currentYear).rows) == 1
      && |CleanTable(c, parse, currentYear).rows| == 1
  {
    var c := CleanTable(t, parse, currentYear);
    FirstRunKeepsBoth(t, parse, currentYear);
    var r := [Num(year), Num(currentYear - year)];
    forall i | 0 <= i < 2 ensures c.rows[i] == r {
      CleanedRow(t, parse, currentYear, year, i);
    }
    CleanedSettled(t, parse, currentYear);
    SecondRunDropsOne(c, parse, currentYear, r);
  }

  /** A table already clean and without duplicates loses no row. */
  lemma FirstRunKeepsBoth(t: Table, parse: string -> Option<int>, currentYear: int)
    requires WellFormed(t) && Distinct(t.rows)
    requires ObjectsNormal(t) && InRange(t, currentYear) && ObjectsEmpty(t) && AllComplete(t)
    ensures DuplicateCount(Validated(t, parse, currentYear).rows) == 0
    ensures |CleanTable(t, parse, currentYear).rows| == |t.rows|
  {
    Revalidated(t, parse, currentYear);
    DuplicateCountZero(t.rows);
    SecondDropNothing(t, parse, currentYear);
    RowCounts(t, parse, currentYear);
  }

  /** A clean table of two equal rows loses one of them as a duplicate. */
  lemma SecondRunDropsOne(c: Table, parse: string -> Option<int>, currentYear: int, r: Row)
    requires WellFormed(c) && c.rows == [r, r]
    requires ObjectsNormal(c) && InRange(c, currentYear) && ObjectsEmpty(c) && AllComplete(c)
    ensures DuplicateCount(Validated(c, parse, currentYear).rows) == 1
    ensures |CleanTable(c, parse, currentYear).rows| == 1
  {
    Revalidated(c, parse, currentYear);
    assert DuplicateCount(c.rows) == 1 by {
      assert Init(c.rows) == [r] && Last(c.rows) == r;
      assert Init([r]) == [] && Last([r]) == r;
    }
    SecondDropNothing(c, parse, currentYear);
    RowCounts(c, parse, currentYear);
  }

  /** Each cleaned row is its year and its new age. */
  lemma CleanedRow(t: Table, parse: string -> Option<int>, currentYear: int, year: int, i: nat)
    requires WellFormed(t) && t.columns == ["year", "age"]
    requires ObjectsNormal(t) && InRange(t, currentYear) && ObjectsEmpty(t)
    requires forall j :: 0 <= j < |t.rows| ==> t.rows[j][0] == Num(year)
    requires i < |CleanTable(t, parse, currentYear).rows|
    ensures CleanTable(t, parse, currentYear).rows[i] == [Num(year), Num(currentYear - year)]
  {
    var v := Validated(t, parse, currentYear);
    Revalidated(t, parse, currentYear);
    KeptYear(v, year);
    StepsSixToEight(Reduced(t, parse, currentYear), currentYear, i, year);
  }

  /** Rows all of the same year keep it through steps 4 and 5. */
  lemma KeptYear(v: Table, year: int)
    requires WellFormed(v) && |v.columns| > 0
    requires forall j :: 0 <= j < |v.rows| ==> v.rows[j][0] == Num(year)
    ensures forall i :: 0 <= i < |DropIncomplete(DedupTable(v)).rows| ==> DropIncomplete(DedupTable(v)).rows[i][0] == Num(year)
  {
    forall i | 0 <= i < |DropIncomplete(DedupTable(v)).rows| ensures DropIncomplete(DedupTable(v)).rows[i][0] == Num(year) {
      var j := KeptRowOrigin(v, i);
    }
  }

  /** Steps 6 to 8 on a two-column row of a year and an old age: the row becomes the year
      and the age the year gives. */
  lemma StepsSixToEight(rd: Table, currentYear: int, i: nat, year: int)
    requires WellFormed(rd) && rd.columns == ["year", "age"] && i < |rd.rows| && rd.rows[i][0] == Num(year)
    ensures NarrowTable(TagCategories(WithAge(rd, currentYear))).rows[i] == [Num(year), Num(currentYear - year)]
  {
    assert IndexOf(rd.columns, "year") == Some(0);
    var w := WithAge(rd, currentYear);
    var a := AgeColumn(rd, currentYear, 0);
    assert w.columns == rd.columns;
    assert a == 1;
    var g := TagCategories(w);
    NarrowTableCells(g, i, 0);
    NarrowTableCells(g, i, 1);
    var c := NarrowTable(g);
    assert |c.rows[i]| == 2;
  }
}
