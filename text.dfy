/** The string operations the two scripts rely on, as Python defines them. */
module Text {
  import opened Wrappers

  /** Python's `str.isspace` for one character: the characters `str.strip()` removes. */
  predicate IsSpace(c: char) {
    || c == ' '
    || ('\t' <= c <= '\r')
    || ('\U{1C}' <= c <= '\U{1F}')
    || c == '\U{85}' || c == '\U{A0}' || c == '\U{1680}'
    || ('\U{2000}' <= c <= '\U{200A}')
    || c == '\U{2028}' || c == '\U{2029}' || c == '\U{202F}' || c == '\U{205F}' || c == '\U{3000}'
  }

  /** `s.lstrip()`: the longest suffix of `s` that does not start with whitespace. */
  function TrimStart(s: string): (r: string)
    ensures |r| <= |s| && r == s[|s| - |r|..]
    ensures forall k :: 0 <= k < |s| - |r| ==> IsSpace(s[k])
    ensures r == [] || !IsSpace(r[0])
  {
    if s != [] && IsSpace(s[0]) then TrimStart(s[1..]) else s
  }

  /** `s.rstrip()`: the longest prefix of `s` that does not end with whitespace. */
  function TrimEnd(s: string): (r: string)
    ensures |r| <= |s| && r == s[..|r|]
    ensures forall k :: |r| <= k < |s| ==> IsSpace(s[k])
    ensures r == [] || !IsSpace(r[|r| - 1])
  {
    if s != [] && IsSpace(s[|s| - 1]) then TrimEnd(s[..|s| - 1]) else s
  }

  /** `s.strip()` */
  function Strip(s: string): string {
    TrimEnd(TrimStart(s))
  }

  /** What `strip` keeps is a contiguous piece of `s`, starting where `lstrip` stopped. */
  lemma StripSlice(s: string)
    ensures |s| - |TrimStart(s)| + |Strip(s)| <= |s|
    ensures Strip(s) == s[|s| - |TrimStart(s)|..|s| - |TrimStart(s)| + |Strip(s)|]
  {
    var t := TrimStart(s);
    var r := TrimEnd(t);
    var i := |s| - |t|;
    assert r == t[..|r|] && t == s[i..];
    assert s[i..][..|r|] == s[i..i + |r|];
  }

  /** What `strip` keeps neither starts nor ends with whitespace. */
  lemma StripEnds(s: string)
    ensures Strip(s) == [] || (!IsSpace(Strip(s)[0]) && !IsSpace(Strip(s)[|Strip(s)| - 1]))
  {
    var t := TrimStart(s);
    var r := TrimEnd(t);
    if r != [] {
      assert r[0] == t[0];
    }
  }

  lemma TrimStartOfClean(s: string)
    requires s == [] || !IsSpace(s[0])
    ensures TrimStart(s) == s
  {
  }

  lemma TrimEndOfClean(s: string)
    requires s == [] || !IsSpace(s[|s| - 1])
    ensures TrimEnd(s) == s
  {
  }

  /** Stripping twice is stripping once. */
  lemma StripIdempotent(s: string)
    ensures Strip(Strip(s)) == Strip(s)
  {
    var r := Strip(s);
    StripEnds(s);
    TrimStartOfClean(r);
    TrimEndOfClean(r);
  }

  /** A string that neither starts nor ends with whitespace is its own `strip`. */
  lemma StripClean(s: string)
    requires s == [] || (!IsSpace(s[0]) && !IsSpace(s[|s| - 1]))
    ensures Strip(s) == s
  {
    TrimStartOfClean(s);
    TrimEndOfClean(s);
  }

  /** A trailing space survives `lstrip` unless everything before it is whitespace. */
  lemma {:induction false} TrimStartAppendSpace(u: string)
    ensures TrimStart(u + [' ']) == if TrimStart(u) == [] then [] else TrimStart(u) + [' ']
  {
    if u == [] {
      assert [' '][1..] == [];
    } else if IsSpace(u[0]) {
      assert (u + [' '])[1..] == u[1..] + [' '];
      TrimStartAppendSpace(u[1..]);
    } else {
      assert (u + [' '])[0] == u[0];
    }
  }

  /** One space more on each side makes no difference to `strip`. */
  lemma StripPadded(u: string)
    ensures Strip([' '] + u + [' ']) == Strip(u)
  {
    var p := [' '] + u + [' '];
    assert p[1..] == u + [' '];
    TrimStartAppendSpace(u);
    var t := TrimStart(u);
    if t != [] {
      assert (t + [' '])[..|t|] == t;
    }
  }

  /** Python's `str.lower` restricted to ASCII letters. */
  function LowerChar(c: char): char {
    if 'A' <= c <= 'Z' then (c as int + 32) as char else c
  }

  function Lower(s: string): (r: string)
    ensures |r| == |s| && forall k :: 0 <= k < |s| ==> r[k] == LowerChar(s[k])
  {
    if s == [] then [] else [LowerChar(s[0])] + Lower(s[1..])
  }

  /** `s.replace(ch, "")` */
  function RemoveAll(s: string, ch: char): (r: string)
    ensures |r| <= |s|
    ensures ch !in r
  {
    if s == [] then [] else (if s[0] == ch then [] else [s[0]]) + RemoveAll(s[1..], ch)
  }

  lemma RemoveAllAbsent(s: string, ch: char)
    requires ch !in s
    ensures RemoveAll(s, ch) == s
  {
    if s != [] {
      RemoveAllAbsent(s[1..], ch);
    }
  }

  /** Removing every `ch` from a text is blind to one more `ch` in it. */
  lemma {:induction false} RemoveAllSkip(a: string, b: string, ch: char)
    ensures RemoveAll(a + [ch] + b, ch) == RemoveAll(a + b, ch)
  {
    if a == [] {
      assert a + [ch] + b == [ch] + b && ([ch] + b)[1..] == b && a + b == b;
    } else {
      assert (a + [ch] + b)[0] == (a + b)[0] == a[0];
      assert (a + [ch] + b)[1..] == a[1..] + [ch] + b;
      assert (a + b)[1..] == a[1..] + b;
      RemoveAllSkip(a[1..], b, ch);
    }
  }

  /** Removal leaves a character other than `ch` on each side in place. */
  lemma RemoveAllPadded(s: string, c: char, ch: char)
    requires c != ch
    ensures RemoveAll([c] + s + [c], ch) == [c] + RemoveAll(s, ch) + [c]
  {
    assert ([c] + s + [c])[1..] == s + [c];
    RemoveAllAppend(s, c, ch);
  }

  lemma {:induction false} RemoveAllAppend(s: string, c: char, ch: char)
    requires c != ch
    ensures RemoveAll(s + [c], ch) == RemoveAll(s, ch) + [c]
  {
    if s == [] {
      assert s + [c] == [c] && [c][1..] == [];
    } else {
      assert (s + [c])[0] == s[0] && (s + [c])[1..] == s[1..] + [c];
      RemoveAllAppend(s[1..], c, ch);
    }
  }

  predicate IsDigit(c: char) {
    '0' <= c <= '9'
  }

  function DigitChar(d: nat): (c: char)
    requires d < 10
    ensures IsDigit(c) && c as int - '0' as int == d
  {
    ('0' as int + d) as char
  }

  /** Decimal digits of a natural number, without leading zeros. */
  function NatToString(n: nat): (r: string)
    ensures r != [] && forall k :: 0 <= k < |r| ==> IsDigit(r[k])
    decreases n
  {
    if n < 10 then [DigitChar(n)] else NatToString(n / 10) + [DigitChar(n % 10)]
  }

  /** Python's `str(n)` for an integer. */
  function IntToString(n: int): string {
    if n < 0 then "-" + NatToString(-n) else NatToString(n)
  }

  /** Value of a string of decimal digits. */
  function DigitsValue(s: string): nat
    requires forall k :: 0 <= k < |s| ==> IsDigit(s[k])
  {
    if s == [] then 0
    else
      assert IsDigit(s[|s| - 1]);
      DigitsValue(s[..|s| - 1]) * 10 + (s[|s| - 1] as int - '0' as int) as nat
  }

  /** A decimal integer parser: an optional minus sign followed by at least one digit. */
  function ParseInt(s: string): Option<int> {
    if s != [] && s[0] == '-' then
      (if |s| > 1 && forall k :: 1 <= k < |s| ==> IsDigit(s[k]) then Some(0 - DigitsValue(s[1..])) else None)
    else if s != [] && forall k :: 0 <= k < |s| ==> IsDigit(s[k]) then Some(DigitsValue(s))
    else None
  }

  lemma {:induction false} NatToStringValue(n: nat)
    ensures DigitsValue(NatToString(n)) == n
    decreases n
  {
    var r := NatToString(n);
    if n >= 10 {
      NatToStringValue(n / 10);
      assert r[..|r| - 1] == NatToString(n / 10);
    }
  }

  /** Rendering an integer in decimal and reading it back gives the integer. */
  lemma IntToStringRoundTrip(n: int)
    ensures ParseInt(IntToString(n)) == Some(n)
  {
    if n < 0 {
      NegativeRoundTrip(-n);
    } else {
      NatToStringValue(n);
      assert IsDigit(NatToString(n)[0]);
    }
  }

  /** A minus sign and the digits of `m` read back as `-m`. */
  lemma NegativeRoundTrip(m: nat)
    requires m > 0
    ensures ParseInt("-" + NatToString(m)) == Some(-(m as int))
  {
    var d := NatToString(m);
    var s := "-" + d;
    NatToStringValue(m);
    assert s[1..] == d;
    forall k | 1 <= k < |s| ensures IsDigit(s[k]) {
      assert s[k] == d[k - 1];
    }
  }

  /** The decimal rendering never contains a letter or a separator. */
  lemma IntToStringChars(n: int)
    ensures IntToString(n) != []
    ensures forall k :: 0 <= k < |IntToString(n)| ==> IsDigit(IntToString(n)[k]) || IntToString(n)[k] == '-'
  {
  }

  /** `sep.join(xs)` */
  function Join(sep: string, xs: seq<string>): (r: string)
    ensures |xs| == 1 ==> r == xs[0]
  {
    if xs == [] then "" else if |xs| == 1 then xs[0] else xs[0] + sep + Join(sep, xs[1..])
  }

  /** The combined length of the pieces. */
  function TotalLength(xs: seq<string>): nat {
    if xs == [] then 0 else |xs[0]| + TotalLength(xs[1..])
  }

  /** Joining adds one more piece at the end after one more separator: the front-first
      definition agrees with building the text left to right. */
  lemma {:induction false} JoinAppend(sep: string, xs: seq<string>, x: string)
    requires xs != []
    ensures Join(sep, xs + [x]) == Join(sep, xs) + sep + x
  {
    if |xs| == 1 {
      assert (xs + [x])[1..] == [x];
    } else {
      assert (xs + [x])[1..] == xs[1..] + [x];
      JoinAppend(sep, xs[1..], x);
    }
  }

  /** The joined text is the pieces and one separator between each two of them. */
  lemma {:induction false} JoinLength(sep: string, xs: seq<string>)
    requires xs != []
    ensures |Join(sep, xs)| == TotalLength(xs) + (|xs| - 1) * |sep|
  {
    if |xs| > 1 {
      JoinLength(sep, xs[1..]);
    }
  }
}
