/** The Markdown rendering of a report in run_car_report.py: `_format_value_for_md` and
    the lines `save_markdown_report` builds before joining them with newlines. */
module Markdown {
  import opened Wrappers
  import opened Text
  import opened Tables
  import opened Reporting

  // ---------------------------------------------------------------------------
  // _format_value_for_md

  /** Python's `str(x)` for a scalar of the report. */
  function ScalarText(x: Scalar): string {
    match x
    case NoneV => "None"
    case NAV => "<NA>"
    case NaNV => "nan"
    case IntV(i) => IntToString(i)
    case FloatV(w) => IntToString(w) + ".0"
    case BoolV(b) => if b then "True" else "False"
    case StrV(s) => s
  }

  /** The three spellings of a missing value the formatter recognises. */
  predicate IsMissing(x: Scalar) {
    x == NoneV || x == NAV || x == NaNV
  }

  /** `f(xs[0]), f(xs[1]), ...` */
  function Each<T>(xs: seq<T>, f: T -> string): (r: seq<string>)
    ensures |r| == |xs| && forall k :: 0 <= k < |xs| ==> r[k] == f(xs[k])
  {
    seq(|xs|, k requires 0 <= k < |xs| => f(xs[k]))
  }

  lemma EachAppend<T>(xs: seq<T>, ys: seq<T>, f: T -> string)
    ensures Each(xs + ys, f) == Each(xs, f) + Each(ys, f)
  {
    assert Each(xs + ys, f) == Each(xs, f) + Each(ys, f);
  }

  /** `_format_value_for_md(v)`, its cases in the order run_car_report.py checks them. */
  function FormatValue(v: Value): string {
    match v
    case Single(x) =>
      (match x
       case NoneV => "NA"
       case NAV => "NA"
       case NaNV => "NA"
       case IntV(i) => IntToString(i)
       case FloatV(w) => IntToString(w) + ".0"
       case BoolV(b) => if b then "True" else "False"
       case StrV(s) => s)
    case ListV(items) => Join(", ", Each(items, ScalarText))
  }

  /** A decimal rendering is never the two letters "NA". */
  lemma NumberIsNotNA(n: int)
    ensures IntToString(n) != "NA"
  {
    IntToStringChars(n);
    assert IsDigit(IntToString(n)[0]) || IntToString(n)[0] == '-';
  }

  /** A single value prints as "NA" exactly when it is missing, or is the string "NA" itself. */
  lemma FormatNA(x: Scalar)
    ensures FormatValue(Single(x)) == "NA" <==> IsMissing(x) || x == StrV("NA")
  {
    match x
    case IntV(i) => NumberIsNotNA(i);
    case FloatV(w) =>
      var s := IntToString(w) + ".0";
      assert s[|s| - 1] == '0';
    case BoolV(b) =>
      assert (if b then "True" else "False")[1] != 'A';
    case _ =>
  }

  /** A present single value prints as Python's `str` of it. */
  lemma FormatPresent(x: Scalar)
    requires !IsMissing(x)
    ensures FormatValue(Single(x)) == ScalarText(x)
  {
  }

  /** An integer prints as digits that read back as the integer. */
  lemma FormatIntRoundTrip(i: int)
    ensures ParseInt(FormatValue(Single(IntV(i)))) == Some(i)
  {
    IntToStringRoundTrip(i);
  }

  /** A whole float prints as its integer digits followed by ".0". */
  lemma FormatFloatRoundTrip(w: int)
    ensures var s := FormatValue(Single(FloatV(w)));
      |s| >= 3 && s[|s| - 2..] == ".0" && ParseInt(s[..|s| - 2]) == Some(w)
  {
    var d := IntToString(w);
    var s := d + ".0";
    IntToStringChars(w);
    IntToStringRoundTrip(w);
    assert s[..|s| - 2] == d;
    assert s[|s| - 2..] == ".0";
  }

  /** A list prints nothing when empty and its one item's `str` when it has one; a longer
      list prints its first item's `str`, a comma and a space, and the rest, which is the
      same as the list without its last item, a comma and a space, and the last item's
      `str`. A missing item inside a list prints as Python's `str` of it, not as "NA". */
  lemma FormatList(items: seq<Scalar>, x: Scalar)
    ensures items == [] ==> FormatValue(ListV(items)) == ""
    ensures |items| == 1 ==> FormatValue(ListV(items)) == ScalarText(items[0])
    ensures |items| >= 2 ==> FormatValue(ListV(items)) == ScalarText(items[0]) + ", " + FormatValue(ListV(items[1..]))
    ensures items != [] ==> FormatValue(ListV(items + [x])) == FormatValue(ListV(items)) + ", " + ScalarText(x)
    ensures FormatValue(ListV([NoneV])) == "None"
  {
    if |items| >= 2 {
      assert Each(items[1..], ScalarText) == Each(items, ScalarText)[1..];
    }
    if items != [] {
      assert Each(items + [x], ScalarText) == Each(items, ScalarText) + [ScalarText(x)];
      JoinAppend(", ", Each(items, ScalarText), ScalarText(x));
    }
    assert Each([NoneV], ScalarText) == ["None"];
  }

  // ---------------------------------------------------------------------------
  // The statistics of one numeric column

  /** A column's statistics: an ordered dictionary, as a list of (name, value) pairs. */
  type Stats = seq<(string, Value)>

  predicate HasKey(stats: Stats, key: string) {
    exists k :: 0 <= k < |stats| && stats[k].0 == key
  }

  /** A dictionary never holds a key twice. */
  predicate DistinctKeys(stats: Stats) {
    forall i, j :: 0 <= i < j < |stats| ==> stats[i].0 != stats[j].0
  }

  /** `stats[key]` when `key in stats`. */
  function Lookup(stats: Stats, key: string): (r: Option<Value>)
    ensures r.None? <==> !HasKey(stats, key)
    ensures r.Some? ==> exists k :: 0 <= k < |stats| && stats[k] == (key, r.value)
  {
    if stats == [] then None
    else if stats[0].0 == key then Some(stats[0].1)
    else
      var r := Lookup(stats[1..], key);
      assert r.Some? ==> exists k :: 0 <= k < |stats[1..]| && stats[1..][k] == (key, r.value);
      assert HasKey(stats[1..], key) ==> HasKey(stats, key) by {
        if HasKey(stats[1..], key) {
          var k :| 0 <= k < |stats[1..]| && stats[1..][k].0 == key;
          assert stats[k + 1].0 == key;
        }
      }
      r
  }

  lemma LookupDistinct(stats: Stats, k: nat)
    requires DistinctKeys(stats) && k < |stats|
    ensures Lookup(stats, stats[k].0) == Some(stats[k].1)
  {
    if k > 0 {
      assert stats[0].0 != stats[k].0;
      assert DistinctKeys(stats[1..]) by {
        forall i, j | 0 <= i < j < |stats| - 1 ensures stats[1..][i].0 != stats[1..][j].0 {
          assert stats[1..][i] == stats[i + 1] && stats[1..][j] == stats[j + 1];
        }
      }
      LookupDistinct(stats[1..], k - 1);
    }
  }

  /** `stat_order`: the statistics `describe()` produces, in the order the report lists them. */
  const StatOrder: seq<string> := ["count", "mean", "std", "min", "25%", "50%", "75%", "max"]

  lemma StatOrderDistinct()
    ensures Distinct(StatOrder)
  {
  }

  /** `f"| {stat} | {val} |"` */
  function StatRow(e: (string, Value)): string {
    "| " + e.0 + " | " + FormatValue(e.1) + " |"
  }

  /** The statistics the first loop lists after `n` rounds over `order`: those of the
      first `n` names of `order` that the column has, with their values. */
  function Picked(stats: Stats, order: seq<string>, n: nat): Stats
    requires n <= |order|
  {
    if n == 0 then []
    else
      Picked(stats, order, n - 1) +
      (match Lookup(stats, order[n - 1])
       case Some(v) => [(order[n - 1], v)]
       case None => [])
  }

  /** The statistics the second loop lists after `n` rounds: the first `n` entries whose
      name is not in `order`. */
  function Unpicked(stats: Stats, order: seq<string>, n: nat): Stats
    requires n <= |stats|
  {
    if n == 0 then []
    else Unpicked(stats, order, n - 1) + (if stats[n - 1].0 in order then [] else [stats[n - 1]])
  }

  /** All rows of a column's table: the names of `order` first, then the rest. */
  function Listed(stats: Stats, order: seq<string>): Stats {
    Picked(stats, order, |order|) + Unpicked(stats, order, |stats|)
  }

  function Names(es: Stats): (r: seq<string>)
    ensures |r| == |es| && forall k :: 0 <= k < |es| ==> r[k] == es[k].0
  {
    seq(|es|, k requires 0 <= k < |es| => es[k].0)
  }

  function NotIn(order: seq<string>): ((string, Value)) -> bool {
    (e: (string, Value)) => e.0 !in order
  }

  /** After `n` rounds, the first loop has listed exactly the column's statistics among
      the first `n` names of `order`, each with the column's value for it. */
  lemma PickedFacts(stats: Stats, order: seq<string>, n: nat)
    requires Distinct(order) && n <= |order|
    ensures forall e :: e in Picked(stats, order, n) ==> Among(order, e.0, n) && Lookup(stats, e.0) == Some(e.1)
    ensures forall s :: s in Names(Picked(stats, order, n)) <==> Among(order, s, n) && HasKey(stats, s)
  {
    PickedEntries(stats, order, n);
    PickedNames(stats, order, n);
  }

  lemma {:induction false} PickedEntries(stats: Stats, order: seq<string>, n: nat)
    requires Distinct(order) && n <= |order|
    ensures forall e :: e in Picked(stats, order, n) ==> Among(order, e.0, n) && Lookup(stats, e.0) == Some(e.1)
  {
    if n > 0 {
      PickedEntries(stats, order, n - 1);
      var name := order[n - 1];
      forall e | e in Picked(stats, order, n) ensures Among(order, e.0, n) && Lookup(stats, e.0) == Some(e.1) {
        AmongStep(order, e.0, n - 1);
        if e !in Picked(stats, order, n - 1) {
          assert Lookup(stats, name) == Some(e.1) && e.0 == name;
        }
      }
    }
  }

  lemma {:induction false} PickedNames(stats: Stats, order: seq<string>, n: nat)
    requires Distinct(order) && n <= |order|
    ensures forall s :: s in Names(Picked(stats, order, n)) <==> Among(order, s, n) && HasKey(stats, s)
  {
    if n > 0 {
      PickedNames(stats, order, n - 1);
      var prev := Picked(stats, order, n - 1);
      var cur := Picked(stats, order, n);
      var name := order[n - 1];
      forall s ensures Among(order, s, n) == (Among(order, s, n - 1) || s == name) {
        AmongStep(order, s, n - 1);
      }
      match Lookup(stats, name)
      case None =>
        assert cur == prev;
        forall s ensures s in Names(cur) <==> Among(order, s, n) && HasKey(stats, s) {
          if s == name {
            assert !HasKey(stats, s);
          }
        }
      case Some(v) =>
        assert cur == prev + [(name, v)];
        NamesAppend(prev, [(name, v)]);
        assert Names([(name, v)]) == [name];
        forall s ensures s in Names(cur) <==> Among(order, s, n) && HasKey(stats, s) {
          assert s in Names(cur) <==> s in Names(prev) || s == name;
        }
    }
  }

  /** The names of `es` are names of `order`, in the order of `order`. */
  predicate InOrder(order: seq<string>, es: Stats) {
    forall i, j :: 0 <= i < j < |es| ==>
      && es[i].0 in order && es[j].0 in order
      && IndexOf(order, es[i].0).value < IndexOf(order, es[j].0).value
  }

  /** ... and listed them in the order of `order`. */
  lemma {:induction false} PickedOrder(stats: Stats, order: seq<string>, n: nat)
    requires Distinct(order) && n <= |order|
    ensures InOrder(order, Picked(stats, order, n))
  {
    if n > 0 {
      PickedOrder(stats, order, n - 1);
      var prev := Picked(stats, order, n - 1);
      var cur := Picked(stats, order, n);
      var name := order[n - 1];
      match Lookup(stats, name)
      case None =>
        assert cur == prev;
      case Some(v) =>
        assert cur == prev + [(name, v)];
        PickedBefore(stats, order, n - 1);
        IndexOfDistinct(order, n - 1);
        forall i, j | 0 <= i < j < |cur|
          ensures cur[i].0 in order && cur[j].0 in order
          ensures IndexOf(order, cur[i].0).value < IndexOf(order, cur[j].0).value
        {
          assert cur[i] == prev[i];
          if j < |cur| - 1 {
            assert cur[j] == prev[j];
          } else {
            assert cur[j].0 == name;
            assert IndexOf(order, prev[i].0).value < n - 1;
          }
        }
    }
  }

  /** Every name listed after `n` rounds sits before position `n` of `order`. */
  lemma PickedBefore(stats: Stats, order: seq<string>, n: nat)
    requires Distinct(order) && n <= |order|
    ensures forall i :: 0 <= i < |Picked(stats, order, n)| ==>
      Picked(stats, order, n)[i].0 in order && IndexOf(order, Picked(stats, order, n)[i].0).value < n
  {
    PickedFacts(stats, order, n);
    forall i | 0 <= i < |Picked(stats, order, n)|
      ensures Picked(stats, order, n)[i].0 in order && IndexOf(order, Picked(stats, order, n)[i].0).value < n
    {
      assert Picked(stats, order, n)[i] in Picked(stats, order, n);
    }
  }

  /** After all of `order`, the picked names are those of `order` the column has, once each. */
  lemma PickedAll(stats: Stats, order: seq<string>)
    requires Distinct(order)
    ensures forall e :: e in Picked(stats, order, |order|) ==> e.0 in order && Lookup(stats, e.0) == Some(e.1)
    ensures forall s :: s in Names(Picked(stats, order, |order|)) <==> s in order && HasKey(stats, s)
    ensures Distinct(Names(Picked(stats, order, |order|)))
  {
    PickedFacts(stats, order, |order|);
    PickedOrder(stats, order, |order|);
    forall s ensures Among(order, s, |order|) == (s in order) {
      AmongAll(order, s);
    }
  }

  /** Selecting from the back one entry at a time agrees with `Filter` from the front. */
  lemma {:induction false} FilterAppend<T>(s: seq<T>, x: T, p: T -> bool)
    ensures Filter(s + [x], p) == Filter(s, p) + (if p(x) then [x] else [])
  {
    if s == [] {
      assert [x][1..] == [];
    } else {
      assert (s + [x])[0] == s[0] && (s + [x])[1..] == s[1..] + [x];
      FilterAppend(s[1..], x, p);
    }
  }

  /** The second loop lists exactly the entries whose name is not in `order`, in the
      column's own order. */
  lemma {:induction false} UnpickedIsFilter(stats: Stats, order: seq<string>, n: nat)
    requires n <= |stats|
    ensures Unpicked(stats, order, n) == Filter(stats[..n], NotIn(order))
  {
    if n > 0 {
      UnpickedIsFilter(stats, order, n - 1);
      PrefixStep(stats, n - 1);
      FilterAppend(stats[..n - 1], stats[n - 1], NotIn(order));
    } else {
      assert stats[..0] == [];
    }
  }

  /** Every entry the second loop lists comes from the column, and with distinct keys
      their names are distinct. */
  lemma {:induction false} UnpickedFacts(stats: Stats, order: seq<string>, n: nat)
    requires n <= |stats| && DistinctKeys(stats)
    ensures forall e :: e in Unpicked(stats, order, n) ==> (exists j :: 0 <= j < n && stats[j] == e) && e.0 !in order
    ensures Distinct(Names(Unpicked(stats, order, n)))
  {
    if n > 0 {
      UnpickedFacts(stats, order, n - 1);
      var prev := Unpicked(stats, order, n - 1);
      if stats[n - 1].0 !in order {
        var cur := prev + [stats[n - 1]];
        assert Unpicked(stats, order, n) == cur;
        forall i, j | 0 <= i < j < |cur| ensures cur[i].0 != cur[j].0 {
          if j == |cur| - 1 {
            assert cur[i] in prev;
            var m :| 0 <= m < n - 1 && stats[m] == cur[i];
          } else {
            assert Names(prev)[i] != Names(prev)[j];
          }
        }
      }
    }
  }

  lemma DistinctConcat(a: seq<string>, b: seq<string>)
    requires Distinct(a) && Distinct(b)
    requires forall i, j :: 0 <= i < |a| && 0 <= j < |b| ==> a[i] != b[j]
    ensures Distinct(a + b)
  {
    forall i, j | 0 <= i < j < |a + b| ensures (a + b)[i] != (a + b)[j] {
      if j < |a| {
        assert (a + b)[i] == a[i] && (a + b)[j] == a[j];
      } else if i >= |a| {
        assert (a + b)[i] == b[i - |a|] && (a + b)[j] == b[j - |a|];
      } else {
        assert (a + b)[i] == a[i] && (a + b)[j] == b[j - |a|];
      }
    }
  }

  lemma NamesAppend(a: Stats, b: Stats)
    ensures Names(a + b) == Names(a) + Names(b)
  {
  }

  /** No name of `order` is listed among the others. */
  lemma PickedUnpickedApart(stats: Stats, order: seq<string>)
    requires Distinct(order) && DistinctKeys(stats)
    ensures forall i, j :: 0 <= i < |Picked(stats, order, |order|)| && 0 <= j < |Unpicked(stats, order, |stats|)| ==>
      Names(Picked(stats, order, |order|))[i] != Names(Unpicked(stats, order, |stats|))[j]
  {
    var c := Picked(stats, order, |order|);
    var x := Unpicked(stats, order, |stats|);
    PickedAll(stats, order);
    UnpickedFacts(stats, order, |stats|);
    forall i, j | 0 <= i < |c| && 0 <= j < |x| ensures Names(c)[i] != Names(x)[j] {
      assert c[i] in c && x[j] in x;
    }
  }

  lemma ListedDistinct(stats: Stats, order: seq<string>)
    requires Distinct(order) && DistinctKeys(stats)
    ensures Distinct(Names(Listed(stats, order)))
  {
    var c := Picked(stats, order, |order|);
    var x := Unpicked(stats, order, |stats|);
    NamesAppend(c, x);
    PickedNamesDistinct(stats, order);
    UnpickedNamesDistinct(stats, order);
    PickedUnpickedApart(stats, order);
    DistinctConcat(Names(c), Names(x));
  }

  lemma PickedNamesDistinct(stats: Stats, order: seq<string>)
    requires Distinct(order)
    ensures Distinct(Names(Picked(stats, order, |order|)))
  {
    PickedAll(stats, order);
  }

  lemma UnpickedNamesDistinct(stats: Stats, order: seq<string>)
    requires DistinctKeys(stats)
    ensures Distinct(Names(Unpicked(stats, order, |stats|)))
  {
    UnpickedFacts(stats, order, |stats|);
  }

  lemma KeyListed(stats: Stats, order: seq<string>, s: string)
    requires Distinct(order) && HasKey(stats, s)
    ensures s in Names(Listed(stats, order))
  {
    if s in order {
      OrderedKeyListed(stats, order, s);
    } else {
      OtherKeyListed(stats, order, s);
    }
  }

  lemma OrderedKeyListed(stats: Stats, order: seq<string>, s: string)
    requires Distinct(order) && HasKey(stats, s) && s in order
    ensures s in Names(Listed(stats, order))
  {
    var c := Picked(stats, order, |order|);
    PickedAll(stats, order);
    var m :| 0 <= m < |c| && Names(c)[m] == s;
    assert Names(Listed(stats, order))[m] == s;
  }

  lemma OtherKeyListed(stats: Stats, order: seq<string>, s: string)
    requires HasKey(stats, s) && s !in order
    ensures s in Names(Listed(stats, order))
  {
    var c := Picked(stats, order, |order|);
    var x := Unpicked(stats, order, |stats|);
    UnpickedIsFilter(stats, order, |stats|);
    assert stats[..|stats|] == stats;
    var k :| 0 <= k < |stats| && stats[k].0 == s;
    assert NotIn(order)(stats[k]);
    var m :| 0 <= m < |x| && x[m] == stats[k];
    assert Names(Listed(stats, order))[|c| + m] == s;
  }

  lemma ListedKey(stats: Stats, order: seq<string>, s: string)
    requires Distinct(order) && DistinctKeys(stats)
    requires s in Names(Listed(stats, order))
    ensures HasKey(stats, s)
  {
    var c := Picked(stats, order, |order|);
    var x := Unpicked(stats, order, |stats|);
    var all := Listed(stats, order);
    var m :| 0 <= m < |all| && Names(all)[m] == s;
    if m < |c| {
      PickedAll(stats, order);
      assert Names(c)[m] == s;
    } else {
      UnpickedFacts(stats, order, |stats|);
      assert all[m] == x[m - |c|];
      var j :| 0 <= j < |stats| && stats[j] == x[m - |c|];
      assert stats[j].0 == s;
    }
  }

  lemma ListedValues(stats: Stats, order: seq<string>)
    requires Distinct(order) && DistinctKeys(stats)
    ensures forall e :: e in Listed(stats, order) ==> Lookup(stats, e.0) == Some(e.1)
  {
    var x := Unpicked(stats, order, |stats|);
    PickedAll(stats, order);
    UnpickedFacts(stats, order, |stats|);
    forall e | e in Listed(stats, order) ensures Lookup(stats, e.0) == Some(e.1) {
      if e in x {
        var j :| 0 <= j < |stats| && stats[j] == e;
        LookupDistinct(stats, j);
      }
    }
  }

  /** With distinct keys, a column's table lists every statistic of the column exactly once,
      each with its value; the rows after the `StatOrder` ones are the column's other
      statistics in the column's own order. */
  lemma StatsExactlyOnce(stats: Stats)
    requires DistinctKeys(stats)
    ensures Distinct(Names(Listed(stats, StatOrder)))
    ensures forall s :: s in Names(Listed(stats, StatOrder)) <==> HasKey(stats, s)
    ensures forall e :: e in Listed(stats, StatOrder) ==> Lookup(stats, e.0) == Some(e.1)
    ensures Unpicked(stats, StatOrder, |stats|) == Filter(stats, NotIn(StatOrder))
  {
    StatOrderDistinct();
    ListedDistinct(stats, StatOrder);
    forall s ensures s in Names(Listed(stats, StatOrder)) <==> HasKey(stats, s) {
      if HasKey(stats, s) {
        KeyListed(stats, StatOrder, s);
      }
      if s in Names(Listed(stats, StatOrder)) {
        ListedKey(stats, StatOrder, s);
      }
    }
    ListedValues(stats, StatOrder);
    UnpickedIsFilter(stats, StatOrder, |stats|);
    assert stats[..|stats|] == stats;
  }

  /** The rows before the others follow `StatOrder`. */
  lemma StatsInStatOrder(stats: Stats)
    ensures InOrder(StatOrder, Picked(stats, StatOrder, |StatOrder|))
  {
    StatOrderDistinct();
    PickedOrder(stats, StatOrder, |StatOrder|);
  }

  /** A column with one statistic, named in `order`, gets a table of that one row. */
  lemma ListedSingle(order: seq<string>, name: string, v: Value)
    requires Distinct(order) && name in order
    ensures Listed([(name, v)], order) == [(name, v)]
  {
    PickedSingle(order, name, v, |order|);
    AmongAll(order, name);
    assert Unpicked([(name, v)], order, 1) == [];
  }

  lemma {:induction false} PickedSingle(order: seq<string>, name: string, v: Value, n: nat)
    requires Distinct(order) && n <= |order|
    ensures Picked([(name, v)], order, n) == if Among(order, name, n) then [(name, v)] else []
  {
    if n > 0 {
      PickedSingle(order, name, v, n - 1);
      AmongStep(order, name, n - 1);
      var stats: Stats := [(name, v)];
      assert Lookup(stats, order[n - 1]) == if order[n - 1] == name then Some(v) else None;
      if order[n - 1] == name {
        AmongStep(order, order[n - 1], n - 1);
      }
    }
  }

  // ---------------------------------------------------------------------------
  // The lines of the report

  /** The two characters run_car_report.py:191 writes between the row and column counts. */
  const Times: string := "\U{00C3}\U{2014}"

  function YesNo(b: bool): string {
    if b then "Yes" else "No"
  }

  function HeaderLines(r: Report): seq<string> {
    [ "# Car Data Report",
      "",
      "**Source CSV:** `" + r.sourceCsv + "`",
      "**Shape:** " + IntToString(r.shape.rows) + " rows " + Times + " " + IntToString(r.shape.columns) + " columns",
      "",
      "---",
      "" ]
  }

  const DtypeHead: seq<string> := ["## Columns and dtypes", "", "| Column | dtype |", "|---|---:|"]

  /** `dtypes.get(col, "unknown")` */
  function DtypeOf(r: Report, col: string): string {
    if col in r.dtypes then r.dtypes[col] else "unknown"
  }

  function DtypeRow(r: Report, col: string): string {
    "| " + col + " | " + DtypeOf(r, col) + " |"
  }

  function DtypeRowOf(r: Report): string -> string {
    col => DtypeRow(r, col)
  }

  function DtypeSection(r: Report): seq<string> {
    DtypeHead + Each(r.columns, DtypeRowOf(r)) + [""]
  }

  function Bullet(col: string): string {
    "- " + col
  }

  /** A titled bullet list, or "None" when the list is empty. */
  function ListSection(title: string, xs: seq<string>): seq<string> {
    [title, ""] + (if xs == [] then ["None"] else Each(xs, Bullet)) + [""]
  }

  const MissingHead: seq<string> := ["## Missing values per column", "", "| Column | Missing count |", "|---|---:|"]

  /** `missing.get(col, 0)` */
  function MissingOf(r: Report, col: string): nat {
    if col in r.missingValuesPerColumn then r.missingValuesPerColumn[col] else 0
  }

  function MissingRow(r: Report, col: string): string {
    "| " + col + " | " + IntToString(MissingOf(r, col)) + " |"
  }

  function MissingRowOf(r: Report): string -> string {
    col => MissingRow(r, col)
  }

  function MissingAnswer(b: bool): string {
    "**Any missing values?** " + YesNo(b)
  }

  function MissingSection(r: Report): seq<string> {
    MissingHead + Each(r.columns, MissingRowOf(r)) + ["", MissingAnswer(r.hasMissing), ""]
  }

  function DuplicateCountLine(n: nat): string {
    "- Duplicate count: " + IntToString(n)
  }

  function DuplicatesAnswer(b: bool): string {
    "- Any duplicates? " + YesNo(b)
  }

  function DuplicateSection(r: Report): seq<string> {
    ["## Duplicate rows", "", DuplicateCountLine(r.duplicateCount), DuplicatesAnswer(r.hasDuplicates), ""]
  }

  function ColumnHead(col: string): seq<string> {
    ["### " + col, "", "| Statistic | Value |", "|---|---:|"]
  }

  /** The block of one numeric column: its heading and its table of statistics. */
  function ColumnBlock(col: string, stats: Stats, order: seq<string>): seq<string> {
    ColumnHead(col) + Each(Listed(stats, order), StatRow) + [""]
  }

  /** The blocks of the first `n` numeric columns. */
  function SummaryBlocks(summary: seq<(string, Stats)>, order: seq<string>, n: nat): seq<string>
    requires n <= |summary|
  {
    if n == 0 then [] else SummaryBlocks(summary, order, n - 1) + ColumnBlock(summary[n - 1].0, summary[n - 1].1, order)
  }

  const SummaryHead: seq<string> := ["## Numeric summary (per numeric column)", ""]

  const NoSummary: seq<string> := ["No numeric columns present."]

  function SummarySection(r: Report): seq<string> {
    SummaryHead + (if r.numericSummary == [] then NoSummary else SummaryBlocks(r.numericSummary, StatOrder, |r.numericSummary|))
  }

  const Footer: seq<string> := ["---", "", "Report generated by runner script. 'NA' indicates missing data.", ""]

  /** The lines of the Markdown report, section by section. */
  function MarkdownLines(r: Report): seq<string> {
    HeaderLines(r)
    + DtypeSection(r)
    + ListSection("## Categorical columns", r.categoricalColumns)
    + ListSection("## Numerical columns", r.numericalColumns)
    + MissingSection(r)
    + DuplicateSection(r)
    + SummarySection(r)
    + Footer
  }

  // ---------------------------------------------------------------------------
  // save_markdown_report's loops

  lemma Regroup3<T>(a: seq<T>, b: seq<T>, c: seq<T>)
    ensures a + b + c == a + (b + c)
  {
  }

  lemma Regroup<T>(a: seq<T>, b: seq<T>, c: seq<T>, d: seq<T>)
    ensures a + b + c + d == a + (b + c + d)
  {
  }

  /** `for x in xs: lines.append(f(x))` */
  method AppendEach<T>(lines: seq<string>, xs: seq<T>, f: T -> string) returns (out: seq<string>)
    ensures out == lines + Each(xs, f)
  {
    out := lines;
    var i := 0;
    while i < |xs|
      invariant i <= |xs|
      invariant out == lines + Each(xs[..i], f)
    {
      PrefixStep(xs, i);
      EachAppend(xs[..i], [xs[i]], f);
      out := out + [f(xs[i])];
      i := i + 1;
    }
    assert xs[..i] == xs;
  }

  /** `for stat in stat_order: if stat in stats: ...` */
  method AppendOrderedRows(lines: seq<string>, stats: Stats, order: seq<string>) returns (out: seq<string>)
    ensures out == lines + Each(Picked(stats, order, |order|), StatRow)
  {
    out := lines;
    var i := 0;
    while i < |order|
      invariant i <= |order|
      invariant out == lines + Each(Picked(stats, order, i), StatRow)
    {
      var stat := order[i];
      var found := Lookup(stats, stat);
      ghost var added := match found case Some(v) => [(stat, v)] case None => [];
      EachAppend(Picked(stats, order, i), added, StatRow);
      if found.Some? {
        out := out + [StatRow((stat, found.value))];
      }
      i := i + 1;
    }
  }

  /** `for stat, value in stats.items(): if stat not in stat_order: ...` */
  method AppendOtherRows(lines: seq<string>, stats: Stats, order: seq<string>) returns (out: seq<string>)
    ensures out == lines + Each(Unpicked(stats, order, |stats|), StatRow)
  {
    out := lines;
    var i := 0;
    while i < |stats|
      invariant i <= |stats|
      invariant out == lines + Each(Unpicked(stats, order, i), StatRow)
    {
      var (stat, value) := stats[i];
      ghost var added := if stat in order then [] else [stats[i]];
      EachAppend(Unpicked(stats, order, i), added, StatRow);
      if stat !in order {
        out := out + [StatRow((stat, value))];
      }
      i := i + 1;
    }
  }

  /** The block of one numeric column. */
  method AppendColumnBlock(lines: seq<string>, col: string, stats: Stats, order: seq<string>) returns (out: seq<string>)
    ensures out == lines + ColumnBlock(col, stats, order)
  {
    var a := Each(Picked(stats, order, |order|), StatRow);
    var b := Each(Unpicked(stats, order, |stats|), StatRow);
    EachAppend(Picked(stats, order, |order|), Unpicked(stats, order, |stats|), StatRow);
    out := lines + ColumnHead(col);
    out := AppendOrderedRows(out, stats, order);
    out := AppendOtherRows(out, stats, order);
    out := out + [""];
    assert out == lines + ColumnHead(col) + a + b + [""];
    Regroup(lines + ColumnHead(col), a, b, [""]);
    Regroup(lines, ColumnHead(col), a + b, [""]);
  }

  /** One round of the loop over the summary: the next column's block. */
  method AppendNextBlock(lines: seq<string>, out: seq<string>, summary: seq<(string, Stats)>, order: seq<string>, i: nat)
    returns (next: seq<string>)
    requires i < |summary| && out == lines + SummaryBlocks(summary, order, i)
    ensures next == lines + SummaryBlocks(summary, order, i + 1)
  {
    var (col, stats) := summary[i];
    next := AppendColumnBlock(out, col, stats, order);
    Regroup3(lines, SummaryBlocks(summary, order, i), ColumnBlock(col, stats, order));
  }

  /** `for col, stats in numeric_summary.items(): ...` */
  method AppendSummaryBlocks(lines: seq<string>, summary: seq<(string, Stats)>, order: seq<string>) returns (out: seq<string>)
    ensures out == lines + SummaryBlocks(summary, order, |summary|)
  {
    out := lines;
    for i := 0 to |summary|
      invariant out == lines + SummaryBlocks(summary, order, i)
    {
      out := AppendNextBlock(lines, out, summary, order, i);
    }
  }

  method AppendDtypes(lines: seq<string>, r: Report) returns (out: seq<string>)
    ensures out == lines + DtypeSection(r)
  {
    out := lines + DtypeHead;
    out := AppendEach(out, r.columns, DtypeRowOf(r));
    out := out + [""];
    Regroup(lines, DtypeHead, Each(r.columns, DtypeRowOf(r)), [""]);
  }

  /** A titled bullet list, or "None" when the list is empty. */
  method AppendList(lines: seq<string>, title: string, xs: seq<string>) returns (out: seq<string>)
    ensures out == lines + ListSection(title, xs)
  {
    out := lines + [title, ""];
    var body: seq<string>;
    if xs != [] {
      out := AppendEach(out, xs, Bullet);
      body := Each(xs, Bullet);
    } else {
      out := out + ["None"];
      body := ["None"];
    }
    out := out + [""];
    Regroup(lines, [title, ""], body, [""]);
  }

  method AppendMissing(lines: seq<string>, r: Report) returns (out: seq<string>)
    ensures out == lines + MissingSection(r)
  {
    out := lines + MissingHead;
    out := AppendEach(out, r.columns, MissingRowOf(r));
    var tail := ["", MissingAnswer(r.hasMissing), ""];
    out := out + tail;
    Regroup(lines, MissingHead, Each(r.columns, MissingRowOf(r)), tail);
  }

  method AppendSummary(lines: seq<string>, r: Report) returns (out: seq<string>)
    ensures out == lines + SummarySection(r)
  {
    out := lines + SummaryHead;
    var body: seq<string>;
    if r.numericSummary == [] {
      out := out + NoSummary;
      body := NoSummary;
    } else {
      out := AppendSummaryBlocks(out, r.numericSummary, StatOrder);
      body := SummaryBlocks(r.numericSummary, StatOrder, |r.numericSummary|);
    }
    assert out == lines + SummaryHead + body;
    assert SummarySection(r) == SummaryHead + body;
    Regroup3(lines, SummaryHead, body);
  }

  /** The `lines` of `save_markdown_report(report)`, built by appending as run_car_report.py does. */
  method BuildMarkdown(r: Report) returns (lines: seq<string>)
    ensures lines == MarkdownLines(r)
  {
    lines := HeaderLines(r);
    lines := AppendDtypes(lines, r);
    lines := AppendList(lines, "## Categorical columns", r.categoricalColumns);
    lines := AppendList(lines, "## Numerical columns", r.numericalColumns);
    lines := AppendMissing(lines, r);
    lines := lines + DuplicateSection(r);
    lines := AppendSummary(lines, r);
    lines := lines + Footer;
  }

  // ---------------------------------------------------------------------------
  // What the lines say

  /** A bullet list says "None" exactly when it is empty, and otherwise shows each item once,
      in order. */
  lemma ListSectionLines(title: string, xs: seq<string>)
    ensures |ListSection(title, xs)| == 3 + (if xs == [] then 1 else |xs|)
    ensures xs == [] <==> ListSection(title, xs)[2] == "None"
    ensures forall k :: 0 <= k < |xs| ==> ListSection(title, xs)[2 + k] == Bullet(xs[k])
  {
    if xs != [] {
      assert ListSection(title, xs)[2] == Bullet(xs[0]);
      assert Bullet(xs[0])[0] == '-';
    }
  }

  /** The dtype table has a row per column, in column order. */
  lemma DtypeSectionRows(r: Report, k: nat)
    requires k < |r.columns|
    ensures |DtypeSection(r)| == |r.columns| + 5
    ensures DtypeSection(r)[4 + k] == DtypeRow(r, r.columns[k])
  {
  }

  /** The missing-value table has a row per column, in column order. */
  lemma MissingSectionRows(r: Report, k: nat)
    requires k < |r.columns|
    ensures |MissingSection(r)| == |r.columns| + 7
    ensures MissingSection(r)[4 + k] == MissingRow(r, r.columns[k])
  {
  }

  /** For the report of a table, the dtype table gives each column its own type's name. */
  lemma DtypeTableShowsTypes(t: Table, sourceCsv: string, k: nat)
    requires WellFormed(t) && k < |t.columns|
    ensures DtypeSection(MakeReport(t, sourceCsv))[4 + k] == DtypeRow(MakeReport(t, sourceCsv), t.columns[k])
    ensures DtypeOf(MakeReport(t, sourceCsv), t.columns[k]) == DTypeName(t.dtypes[k])
  {
    var r := MakeReport(t, sourceCsv);
    DtypeSectionRows(r, k);
    ReportCounts(t, sourceCsv, k);
  }

  /** For the report of a table, the missing-value table gives each column its null count. */
  lemma MissingTableShowsCounts(t: Table, sourceCsv: string, k: nat)
    requires WellFormed(t) && k < |t.columns|
    ensures MissingSection(MakeReport(t, sourceCsv))[4 + k] == MissingRow(MakeReport(t, sourceCsv), t.columns[k])
    ensures MissingOf(MakeReport(t, sourceCsv), t.columns[k]) == CountNull(ColumnCells(t.rows, k))
  {
    var r := MakeReport(t, sourceCsv);
    MissingSectionRows(r, k);
    ReportCounts(t, sourceCsv, k);
  }

  /** For the report of a table, the missing-values answer is "Yes" exactly when some cell
      is null. */
  lemma MissingAnswerShowsTable(t: Table, sourceCsv: string)
    requires WellFormed(t)
    ensures MissingSection(MakeReport(t, sourceCsv))[|t.columns| + 5] ==
      MissingAnswer(exists i, k :: 0 <= i < |t.rows| && 0 <= k < |t.columns| && t.rows[i][k] == Null)
  {
    HasMissingMeaning(t);
  }

  /** For the report of a table, the duplicate lines give the number of rows `drop_duplicates`
      removes and answer "Yes" exactly when two rows are equal. */
  lemma DuplicateLinesShowTable(t: Table, sourceCsv: string)
    requires WellFormed(t)
    ensures DuplicateSection(MakeReport(t, sourceCsv))[2] == DuplicateCountLine(DuplicateCount(t.rows))
    ensures DuplicateCount(t.rows) == |t.rows| - |Dedup(t.rows)|
    ensures DuplicateSection(MakeReport(t, sourceCsv))[3] == DuplicatesAnswer(!Distinct(t.rows))
  {
    DuplicatesMeaning(t);
  }

  /** A column whose only statistic is its count gets a table of that one row. */
  lemma CountOnlyBlock(col: string, n: nat)
    ensures ColumnBlock(col, [("count", Single(FloatV(n)))], StatOrder) ==
      ColumnHead(col) + [StatRow(("count", Single(FloatV(n)))), ""]
  {
    StatOrderDistinct();
    assert StatOrder[0] == "count";
    ListedSingle(StatOrder, "count", Single(FloatV(n)));
  }

  /** For the report of a table, the summary section is "No numeric columns present." when
      no column is numerical, and otherwise one block headed `count`, whose rows name every
      numerical column once with its non-null count. */
  lemma SummarySectionShowsCounts(t: Table, sourceCsv: string)
    requires WellFormed(t)
    ensures NumericalColumns(t) == [] ==> SummarySection(MakeReport(t, sourceCsv)) == SummaryHead + NoSummary
    ensures NumericalColumns(t) != [] ==>
      SummarySection(MakeReport(t, sourceCsv)) == SummaryHead + ColumnBlock("count", CountRow(t), StatOrder)
    ensures Distinct(Names(Listed(CountRow(t), StatOrder)))
    ensures forall s :: s in Names(Listed(CountRow(t), StatOrder)) <==> s in NumericalColumns(t)
    ensures forall e :: e in Listed(CountRow(t), StatOrder) ==>
      e.0 in t.columns && e.1 == Single(FloatV(NonNullCount(t, e.0)))
  {
    SummarySectionText(t, sourceCsv);
    CountRowListing(t);
  }

  /** The summary section of the report: the `count` block, or the notice. */
  lemma SummarySectionText(t: Table, sourceCsv: string)
    requires WellFormed(t)
    ensures NumericalColumns(t) == [] ==> SummarySection(MakeReport(t, sourceCsv)) == SummaryHead + NoSummary
    ensures NumericalColumns(t) != [] ==>
      SummarySection(MakeReport(t, sourceCsv)) == SummaryHead + ColumnBlock("count", CountRow(t), StatOrder)
  {
    if NumericalColumns(t) != [] {
      assert SummaryBlocks(MakeReport(t, sourceCsv).numericSummary, StatOrder, 1) == ColumnBlock("count", CountRow(t), StatOrder);
    }
  }

  /** The rows of the `count` block name every numerical column once, with its count. */
  lemma CountRowListing(t: Table)
    requires WellFormed(t)
    ensures Distinct(Names(Listed(CountRow(t), StatOrder)))
    ensures forall s :: s in Names(Listed(CountRow(t), StatOrder)) <==> s in NumericalColumns(t)
    ensures forall e :: e in Listed(CountRow(t), StatOrder) ==>
      e.0 in t.columns && e.1 == Single(FloatV(NonNullCount(t, e.0)))
  {
    var stats := CountRow(t);
    CountRowDistinct(t);
    StatsExactlyOnce(stats);
    CountRowKeys(t);
    forall e | e in Listed(stats, StatOrder) ensures e.0 in t.columns && e.1 == Single(FloatV(NonNullCount(t, e.0))) {
      var k :| 0 <= k < |stats| && stats[k] == (e.0, e.1);
      CountRowValue(t, k);
    }
  }

  /** The `count` row has a key for each numerical column and for nothing else. */
  lemma CountRowKeys(t: Table)
    requires WellFormed(t)
    ensures forall s :: HasKey(CountRow(t), s) <==> s in NumericalColumns(t)
  {
    var stats := CountRow(t);
    var nums := NumericalColumns(t);
    forall s ensures HasKey(stats, s) <==> s in nums {
      if s in nums {
        var i :| 0 <= i < |nums| && nums[i] == s;
        assert stats[i].0 == s;
      }
    }
  }

  /** Entry `k` of the `count` row is a column of the table with its non-null count. */
  lemma CountRowValue(t: Table, k: nat)
    requires WellFormed(t) && k < |CountRow(t)|
    ensures CountRow(t)[k].0 in t.columns && CountRow(t)[k].1 == Single(FloatV(NonNullCount(t, CountRow(t)[k].0)))
  {
    assert CountRow(t)[k].0 in NumericalColumns(t);
  }

  /** When no numerical column is named like a statistic, the `count` block lists the
      columns in column order. */
  lemma CountsInColumnOrder(t: Table)
    requires WellFormed(t)
    requires forall c :: c in NumericalColumns(t) ==> c !in StatOrder
    ensures Listed(CountRow(t), StatOrder) == CountRow(t)
  {
    var stats := CountRow(t);
    forall k | 0 <= k < |stats| ensures stats[k].0 !in StatOrder {
      assert stats[k].0 in NumericalColumns(t);
    }
    PickedNone(stats, StatOrder, |StatOrder|);
    UnpickedIsFilter(stats, StatOrder, |stats|);
    assert stats[..|stats|] == stats;
    FilterAll(stats, NotIn(StatOrder));
  }

  /** A column none of whose statistics is named in `order` gets nothing from the first loop. */
  lemma {:induction false} PickedNone(stats: Stats, order: seq<string>, n: nat)
    requires n <= |order|
    requires forall k :: 0 <= k < |stats| ==> stats[k].0 !in order
    ensures Picked(stats, order, n) == []
  {
    if n > 0 {
      PickedNone(stats, order, n - 1);
      assert !HasKey(stats, order[n - 1]);
    }
  }

  /** For the per-column summary, the block of the `i`-th numeric column shows the column's
      non-null count as its one statistic. */
  lemma PerColumnBlockShowsCount(t: Table, i: nat)
    requires WellFormed(t) && i < |NumericalColumns(t)|
    ensures var col := NumericalColumns(t)[i];
      var e := PerColumnSummary(t)[i];
      ColumnBlock(e.0, e.1, StatOrder) ==
        ColumnHead(col) + [StatRow(("count", Single(FloatV(NonNullCount(t, col))))), ""]
  {
    var col := NumericalColumns(t)[i];
    CountOnlyBlock(col, NonNullCount(t, col));
  }
}
