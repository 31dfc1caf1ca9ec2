/** The table both scripts work on: an ordered list of named, typed columns and
    a list of rows of cells (a pandas DataFrame without an index). */
module Tables {
  import opened Wrappers

  /** One cell. pandas's NaN, None and NA are all `Null`; the model compares
      `Null` equal to `Null`, as `DataFrame.duplicated` does. */
  datatype Cell = Null | Str(s: string) | Num(n: int) | Bool(b: bool)

  /** The pandas column type: `object`, `int64`, the nullable `Int64`,
      `float64`, `bool`, `category`, or any other type by its name. */
  datatype DType = Object | Int64 | NullableInt64 | Float64 | BoolType | Category | Other(name: string)

  type Row = seq<Cell>

  datatype Table = Table(columns: seq<string>, dtypes: seq<DType>, rows: seq<Row>)

  predicate Distinct<T(==)>(s: seq<T>) {
    forall i, j :: 0 <= i < j < |s| ==> s[i] != s[j]
  }

  predicate Rectangular(rows: seq<Row>, width: nat) {
    forall r :: 0 <= r < |rows| ==> |rows[r]| == width
  }

  /** Rows taken from a rectangular list form a rectangular list. */
  lemma RectangularSubset(a: seq<Row>, b: seq<Row>, width: nat)
    requires Rectangular(b, width)
    requires forall r :: 0 <= r < |a| ==> a[r] in b
    ensures Rectangular(a, width)
  {
    forall r | 0 <= r < |a| ensures |a[r]| == width {
      var i :| 0 <= i < |b| && b[i] == a[r];
    }
  }

  /** One type per column, one cell per column in every row, and no column name
      twice (pandas renames repeated CSV headers). */
  predicate WellFormed(t: Table) {
    && |t.dtypes| == |t.columns|
    && Rectangular(t.rows, |t.columns|)
    && Distinct(t.columns)
  }

  /** The position of column `x`, or None when the table has no such column. */
  function IndexOf(s: seq<string>, x: string): (r: Option<nat>)
    ensures r.None? <==> x !in s
    ensures r.Some? ==> r.value < |s| && s[r.value] == x
  {
    if s == [] then None
    else if s[0] == x then Some(0)
    else match IndexOf(s[1..], x)
      case None => None
      case Some(k) => Some(k + 1)
  }

  /** In a list without repetitions the position of an element is the only one holding it. */
  lemma IndexOfDistinct(s: seq<string>, k: nat)
    requires Distinct(s) && k < |s|
    ensures IndexOf(s, s[k]) == Some(k)
  {
    if k > 0 {
      assert s[0] != s[k];
      IndexOfDistinct(s[1..], k - 1);
    }
  }

  lemma IndexOfDistinctAll(s: seq<string>)
    requires Distinct(s)
    ensures forall k :: 0 <= k < |s| ==> IndexOf(s, s[k]) == Some(k)
  {
    forall k | 0 <= k < |s| ensures IndexOf(s, s[k]) == Some(k) {
      IndexOfDistinct(s, k);
    }
  }

  /** `x` occurs among the first `n` entries of `s`: a loop over `s` has reached it
      after `n` rounds. */
  predicate Among(s: seq<string>, x: string, n: nat) {
    match IndexOf(s, x)
    case Some(p) => p < n
    case None => false
  }

  /** After all rounds, exactly the entries of `s` have been reached. */
  lemma AmongAll(s: seq<string>, x: string)
    ensures Among(s, x, |s|) == (x in s)
  {
  }

  /** Round `n` reaches the `n`-th entry and no other. */
  lemma AmongStep(s: seq<string>, x: string, n: nat)
    requires Distinct(s) && n < |s|
    ensures Among(s, x, n + 1) == (Among(s, x, n) || x == s[n])
    ensures !Among(s, s[n], n)
  {
    IndexOfDistinct(s, n);
  }

  /** The cells of column `j`, top to bottom. */
  function ColumnCells(rows: seq<Row>, j: nat): (c: seq<Cell>)
    requires forall r :: 0 <= r < |rows| ==> j < |rows[r]|
    ensures |c| == |rows| && forall r :: 0 <= r < |rows| ==> c[r] == rows[r][j]
  {
    seq(|rows|, r requires 0 <= r < |rows| => rows[r][j])
  }

  /** `series.isnull().sum()` */
  function CountNull(c: seq<Cell>): (n: nat)
    ensures n <= |c|
  {
    if c == [] then 0 else (if c[0] == Null then 1 else 0) + CountNull(c[1..])
  }

  /** `series.notna().sum()` */
  function CountNonNull(c: seq<Cell>): (n: nat)
    ensures n <= |c|
  {
    if c == [] then 0 else (if c[0] != Null then 1 else 0) + CountNonNull(c[1..])
  }

  /** Every cell is either null or not. */
  lemma {:induction false} CountsAddUp(c: seq<Cell>)
    ensures CountNull(c) + CountNonNull(c) == |c|
  {
    if c != [] {
      CountsAddUp(c[1..]);
    }
  }

  /** The null count is positive exactly when some cell is null. */
  lemma {:induction false} CountNullPositive(c: seq<Cell>)
    ensures CountNull(c) > 0 <==> exists r :: 0 <= r < |c| && c[r] == Null
  {
    if c != [] {
      CountNullPositive(c[1..]);
      if CountNull(c[1..]) > 0 {
        var r :| 0 <= r < |c[1..]| && c[1..][r] == Null;
        assert c[r + 1] == Null;
      }
      if c[0] != Null && (exists r :: 0 <= r < |c| && c[r] == Null) {
        var r :| 0 <= r < |c| && c[r] == Null;
        assert c[1..][r - 1] == Null;
      }
    }
  }

  /** The non-null count is zero exactly when every cell is null. */
  lemma {:induction false} CountNonNullZero(c: seq<Cell>)
    ensures CountNonNull(c) == 0 <==> forall r :: 0 <= r < |c| ==> c[r] == Null
  {
    if c != [] {
      CountNonNullZero(c[1..]);
      if CountNonNull(c) == 0 {
        forall r | 0 <= r < |c| ensures c[r] == Null {
          if r > 0 { assert c[r] == c[1..][r - 1]; }
        }
      }
      if forall r :: 0 <= r < |c| ==> c[r] == Null {
        forall r | 0 <= r < |c[1..]| ensures c[1..][r] == Null {
          assert c[1..][r] == c[r + 1];
        }
      }
    }
  }

  /** A prefix one longer is the prefix and the next element. */
  lemma PrefixStep<T>(s: seq<T>, i: nat)
    requires i < |s|
    ensures s[..i + 1] == s[..i] + [s[i]]
  {
  }

  /** Rows `s[..|s|-1]` and `s[|s|-1]`: the recursions below peel the last row. */
  function Init<T>(s: seq<T>): seq<T>
    requires s != []
  {
    s[..|s| - 1]
  }

  function Last<T>(s: seq<T>): T
    requires s != []
  {
    s[|s| - 1]
  }

  /** `duplicated(keep='first').sum()`: how many entries equal an earlier entry. */
  function DuplicateCount<T(==)>(s: seq<T>): (n: nat)
    ensures n <= |s|
  {
    if s == [] then 0 else DuplicateCount(Init(s)) + (if Last(s) in Init(s) then 1 else 0)
  }

  /** `drop_duplicates(keep='first')`: every entry that does not repeat an earlier one, in order. */
  function Dedup<T(==)>(s: seq<T>): seq<T>
  {
    if s == [] then [] else Dedup(Init(s)) + (if Last(s) in Init(s) then [] else [Last(s)])
  }

  /** The position of the first occurrence of `x`. */
  function FirstIndex<T(==)>(s: seq<T>, x: T): (i: nat)
    requires x in s
    ensures i < |s| && s[i] == x && x !in s[..i]
  {
    if s[0] == x then 0 else 1 + FirstIndex(s[1..], x)
  }

  lemma FirstIndexInit<T>(s: seq<T>, x: T)
    requires s != [] && x in Init(s)
    ensures FirstIndex(s, x) == FirstIndex(Init(s), x)
  {
    var i, j := FirstIndex(s, x), FirstIndex(Init(s), x);
    assert s[j] == x;
  }

  /** Removing duplicates removes exactly the duplicate count. */
  lemma {:induction false} DedupLength<T>(s: seq<T>)
    ensures |Dedup(s)| + DuplicateCount(s) == |s|
  {
    if s != [] {
      DedupLength(Init(s));
    }
  }

  /** Removing duplicates loses no value and invents none. */
  lemma {:induction false} DedupElements<T>(s: seq<T>)
    ensures forall x :: x in Dedup(s) <==> x in s
  {
    if s != [] {
      DedupElements(Init(s));
      assert s == Init(s) + [Last(s)];
    }
  }

  /** After removing duplicates no entry equals another. */
  lemma {:induction false} DedupDistinct<T>(s: seq<T>)
    ensures Distinct(Dedup(s))
  {
    if s != [] {
      DedupDistinct(Init(s));
      DedupElements(Init(s));
    }
  }

  /** The kept entries appear in the order of their first occurrences. */
  lemma {:induction false} DedupOrder<T>(s: seq<T>)
    ensures forall x :: x in Dedup(s) ==> x in s
    ensures forall i, j :: 0 <= i < j < |Dedup(s)| ==>
      FirstIndex(s, Dedup(s)[i]) < FirstIndex(s, Dedup(s)[j])
  {
    DedupElements(s);
    if s != [] {
      DedupOrder(Init(s));
      forall i, j | 0 <= i < j < |Dedup(s)|
        ensures FirstIndex(s, Dedup(s)[i]) < FirstIndex(s, Dedup(s)[j])
      {
        DedupOrderPair(s, i, j);
      }
    }
  }

  /** One pair of kept entries, given the order for all but the last entry of `s`. */
  lemma DedupOrderPair<T>(s: seq<T>, i: nat, j: nat)
    requires s != [] && i < j < |Dedup(s)|
    requires forall x :: x in Dedup(s) ==> x in s
    requires forall x :: x in Dedup(Init(s)) ==> x in Init(s)
    requires forall a, b :: 0 <= a < b < |Dedup(Init(s))| ==>
      FirstIndex(Init(s), Dedup(Init(s))[a]) < FirstIndex(Init(s), Dedup(Init(s))[b])
    ensures FirstIndex(s, Dedup(s)[i]) < FirstIndex(s, Dedup(s)[j])
  {
    var p := Init(s);
    var d := Dedup(s);
    assert d[i] == Dedup(p)[i];
    FirstIndexInit(s, d[i]);
    if j < |Dedup(p)| {
      assert d[j] == Dedup(p)[j];
      FirstIndexInit(s, d[j]);
    } else {
      assert d[j] == Last(s) && Last(s) !in p;
      assert FirstIndex(s, d[j]) == |s| - 1;
    }
  }

  /** No duplicates are counted exactly when all entries differ. */
  lemma {:induction false} DuplicateCountZero<T>(s: seq<T>)
    ensures DuplicateCount(s) == 0 <==> Distinct(s)
  {
    if s != [] {
      DuplicateCountZero(Init(s));
      if Distinct(s) {
        assert Distinct(Init(s));
      }
      if DuplicateCount(s) == 0 {
        forall i, j | 0 <= i < j < |s| ensures s[i] != s[j] {
          if j < |s| - 1 {
            assert s[i] == Init(s)[i] && s[j] == Init(s)[j];
          } else {
            assert s[i] == Init(s)[i];
          }
        }
      }
    }
  }

  /** Removing duplicates a second time removes nothing. */
  lemma DedupIdempotent<T>(s: seq<T>)
    ensures DuplicateCount(Dedup(s)) == 0
  {
    DedupDistinct(s);
    DuplicateCountZero(Dedup(s));
  }

  /** pandas's name for a column type, as `str(dtype)` prints it. */
  function DTypeName(d: DType): string {
    match d
    case Object => "object"
    case Int64 => "int64"
    case NullableInt64 => "Int64"
    case Float64 => "float64"
    case BoolType => "bool"
    case Category => "category"
    case Other(name) => name
  }

  /** Two well-formed tables with the same header, the same height and the same
      cells are the same table. */
  lemma TablesEqual(a: Table, b: Table)
    requires WellFormed(a) && WellFormed(b)
    requires a.columns == b.columns && a.dtypes == b.dtypes && |a.rows| == |b.rows|
    requires forall i, k :: 0 <= i < |a.rows| && 0 <= k < |a.columns| ==> a.rows[i][k] == b.rows[i][k]
    ensures a == b
  {
    forall i | 0 <= i < |a.rows| ensures a.rows[i] == b.rows[i] {
      assert |a.rows[i]| == |b.rows[i]| == |a.columns|;
    }
  }

  /** Column `k` of `a` has the type and the cells of column `k` of `b`. */
  predicate SameColumn(a: Table, b: Table, k: nat)
    requires WellFormed(a) && WellFormed(b) && k < |a.columns| && k < |b.columns| && |a.rows| == |b.rows|
  {
    && a.dtypes[k] == b.dtypes[k]
    && forall i :: 0 <= i < |a.rows| ==> a.rows[i][k] == b.rows[i][k]
  }

  /** Tables with the same header and height that agree column by column are equal. */
  lemma TablesEqualByColumns(a: Table, b: Table)
    requires WellFormed(a) && WellFormed(b) && a.columns == b.columns && |a.rows| == |b.rows|
    requires forall k :: 0 <= k < |a.columns| ==> SameColumn(a, b, k)
    ensures a == b
  {
    forall k | 0 <= k < |a.columns| ensures a.dtypes[k] == b.dtypes[k] {
      assert SameColumn(a, b, k);
    }
    forall i, k | 0 <= i < |a.rows| && 0 <= k < |a.columns| ensures a.rows[i][k] == b.rows[i][k] {
      assert SameColumn(a, b, k);
    }
    TablesEqual(a, b);
  }

  /** The table whose cell in column `k` is `f(k, c)` for the cell `c` it had. */
  function MapCells(t: Table, f: (nat, Cell) -> Cell): (r: Table)
    requires WellFormed(t)
    ensures WellFormed(r) && r.columns == t.columns && r.dtypes == t.dtypes && |r.rows| == |t.rows|
    ensures forall i, k :: 0 <= i < |t.rows| && 0 <= k < |t.columns| ==> r.rows[i][k] == f(k, t.rows[i][k])
  {
    var rows := seq(|t.rows|, i requires 0 <= i < |t.rows| =>
      seq(|t.columns|, k requires 0 <= k < |t.columns| => f(k, t.rows[i][k])));
    Table(t.columns, t.dtypes, rows)
  }

  /** `df[col] = df[col].apply(f)` for the column at position `j`. */
  function MapColumn(t: Table, j: nat, f: Cell -> Cell): (r: Table)
    requires WellFormed(t) && j < |t.columns|
    ensures WellFormed(r) && r.columns == t.columns && r.dtypes == t.dtypes && |r.rows| == |t.rows|
    ensures forall i, k :: 0 <= i < |t.rows| && 0 <= k < |t.columns| ==>
      r.rows[i][k] == if k == j then f(t.rows[i][k]) else t.rows[i][k]
  {
    Table(t.columns, t.dtypes, seq(|t.rows|, i requires 0 <= i < |t.rows| => t.rows[i][j := f(t.rows[i][j])]))
  }

  /** The names of the columns whose type satisfies `p`, in column order
      (`df.select_dtypes(...).columns.tolist()`). */
  function ColumnsWhere(columns: seq<string>, dtypes: seq<DType>, p: DType -> bool): (r: seq<string>)
    requires |dtypes| == |columns|
    ensures |r| <= |columns|
    ensures forall x :: x in r ==> x in columns
  {
    if columns == [] then []
    else (if p(dtypes[0]) then [columns[0]] else []) + ColumnsWhere(columns[1..], dtypes[1..], p)
  }

  /** With distinct column names, a column is selected exactly when its type satisfies `p`. */
  lemma {:induction false} ColumnsWhereMembers(columns: seq<string>, dtypes: seq<DType>, p: DType -> bool)
    requires |dtypes| == |columns| && Distinct(columns)
    ensures forall k :: 0 <= k < |columns| ==> (columns[k] in ColumnsWhere(columns, dtypes, p) <==> p(dtypes[k]))
  {
    if columns != [] {
      ColumnsWhereMembers(columns[1..], dtypes[1..], p);
      var r := ColumnsWhere(columns, dtypes, p);
      assert columns[0] !in columns[1..];
      forall k | 0 < k < |columns| ensures columns[k] in r <==> p(dtypes[k]) {
        assert columns[k] == columns[1..][k - 1] && dtypes[k] == dtypes[1..][k - 1];
      }
    }
  }

  /** No name is selected twice. */
  lemma {:induction false} ColumnsWhereDistinct(columns: seq<string>, dtypes: seq<DType>, p: DType -> bool)
    requires |dtypes| == |columns| && Distinct(columns)
    ensures Distinct(ColumnsWhere(columns, dtypes, p))
  {
    if columns != [] {
      ColumnsWhereDistinct(columns[1..], dtypes[1..], p);
      assert columns[0] !in columns[1..];
    }
  }

  /** The names of `r` appear in `columns` in the same order. */
  predicate InColumnOrder(columns: seq<string>, r: seq<string>)
    requires forall x :: x in r ==> x in columns
  {
    forall i, j :: 0 <= i < j < |r| ==> IndexOf(columns, r[i]).value < IndexOf(columns, r[j]).value
  }

  /** The selection keeps the column order. */
  lemma {:induction false} ColumnsWhereOrder(columns: seq<string>, dtypes: seq<DType>, p: DType -> bool)
    requires |dtypes| == |columns| && Distinct(columns)
    ensures InColumnOrder(columns, ColumnsWhere(columns, dtypes, p))
  {
    if columns != [] {
      var tail := ColumnsWhere(columns[1..], dtypes[1..], p);
      ColumnsWhereOrder(columns[1..], dtypes[1..], p);
      assert columns[0] !in columns[1..];
      OrderAfterHead(columns, tail);
      if p(dtypes[0]) {
        OrderWithHead(columns, tail);
      }
    }
  }

  /** Names in order among all but the first column are in order among all columns. */
  lemma OrderAfterHead(columns: seq<string>, tail: seq<string>)
    requires columns != [] && forall x :: x in tail ==> x in columns[1..] && x != columns[0]
    requires InColumnOrder(columns[1..], tail)
    ensures InColumnOrder(columns, tail)
  {
    forall i, j | 0 <= i < j < |tail| ensures IndexOf(columns, tail[i]).value < IndexOf(columns, tail[j]).value {
      IndexAfterHead(columns, tail[i]);
      IndexAfterHead(columns, tail[j]);
    }
  }

  /** The first column followed by later columns in order is in order. */
  lemma OrderWithHead(columns: seq<string>, tail: seq<string>)
    requires columns != [] && forall x :: x in tail ==> x in columns[1..] && x != columns[0]
    requires InColumnOrder(columns, tail)
    ensures InColumnOrder(columns, [columns[0]] + tail)
  {
    var r := [columns[0]] + tail;
    forall i, j | 0 <= i < j < |r| ensures IndexOf(columns, r[i]).value < IndexOf(columns, r[j]).value {
      assert r[j] == tail[j - 1];
      IndexAfterHead(columns, tail[j - 1]);
      if i > 0 {
        assert r[i] == tail[i - 1];
      }
    }
  }

  /** The position of a name after the first is one more than its position in the rest. */
  lemma IndexAfterHead(columns: seq<string>, x: string)
    requires columns != [] && x in columns[1..] && x != columns[0]
    ensures IndexOf(columns, x).Some? && IndexOf(columns, x).value == IndexOf(columns[1..], x).value + 1
  {
  }

  /** The entries of `s` that satisfy `p`, in order (`df[mask]`). */
  function Filter<T>(s: seq<T>, p: T -> bool): (r: seq<T>)
    ensures |r| <= |s|
    ensures forall k :: 0 <= k < |r| ==> r[k] in s && p(r[k])
    ensures forall k :: 0 <= k < |s| && p(s[k]) ==> s[k] in r
  {
    if s == [] then [] else (if p(s[0]) then [s[0]] else []) + Filter(s[1..], p)
  }

  /** Filtering keeps entries that differ apart. */
  lemma {:induction false} FilterDistinct<T>(s: seq<T>, p: T -> bool)
    requires Distinct(s)
    ensures Distinct(Filter(s, p))
  {
    if s != [] {
      FilterDistinct(s[1..], p);
      assert s[0] !in s[1..];
    }
  }

  /** A filter whose entries all pass keeps everything. */
  lemma {:induction false} FilterAll<T>(s: seq<T>, p: T -> bool)
    requires forall k :: 0 <= k < |s| ==> p(s[k])
    ensures Filter(s, p) == s
  {
    if s != [] {
      FilterAll(s[1..], p);
    }
  }
}
