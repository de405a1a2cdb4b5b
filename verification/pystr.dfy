/** The Python `str` operations the scripts are built from, over `seq<char>`:
    `strip`, `split(sep)`, `split()`, `replace(c, '')`, `str(n)` and `int(s)`. */
module PyStr {
  import opened Results

  /** Python's `str.isspace` for one character: the characters `strip()`
      and `split()` treat as whitespace. */
  predicate IsSpace(c: char) {
    || c == ' '
    || '\t' <= c <= '\r'
    || '\U{1c}' <= c <= '\U{1f}'
    || c == '\U{85}' || c == '\U{a0}' || c == '\U{1680}'
    || '\U{2000}' <= c <= '\U{200a}'
    || c == '\U{2028}' || c == '\U{2029}' || c == '\U{202f}'
    || c == '\U{205f}' || c == '\U{3000}'
  }

  predicate NotSpace(c: char) {
    !IsSpace(c)
  }

  predicate IsDigit(c: char) {
    '0' <= c <= '9'
  }

  predicate AllDigits(s: string) {
    forall k :: 0 <= k < |s| ==> IsDigit(s[k])
  }

  // ---------------------------------------------------------------------------
  // strip

  /** Number of leading characters of `s` that `drop` selects. */
  function LeadingCount(s: string, drop: char -> bool): (n: nat)
    ensures n <= |s|
    ensures forall k :: 0 <= k < n ==> drop(s[k])
    ensures n == |s| || !drop(s[n])
  {
    if |s| > 0 && drop(s[0]) then 1 + LeadingCount(s[1..], drop) else 0
  }

  /** Number of trailing characters of `s` that `drop` selects. */
  function TrailingCount(s: string, drop: char -> bool): (n: nat)
    ensures n <= |s|
    ensures forall k :: |s| - n <= k < |s| ==> drop(s[k])
    ensures n == |s| || !drop(s[|s| - n - 1])
  {
    if |s| > 0 && drop(s[|s| - 1]) then 1 + TrailingCount(s[..|s| - 1], drop) else 0
  }

  /** `s.strip(chars)`: `s` without its leading and trailing run of dropped
      characters. */
  function StripBy(s: string, drop: char -> bool): (r: string)
    ensures LeadingCount(s, drop) + |r| <= |s|
    ensures r == s[LeadingCount(s, drop)..LeadingCount(s, drop) + |r|]
    ensures forall k :: LeadingCount(s, drop) + |r| <= k < |s| ==> drop(s[k])
    ensures r == [] || (!drop(r[0]) && !drop(r[|r| - 1]))
    ensures (s == [] || (!drop(s[0]) && !drop(s[|s| - 1]))) ==> r == s
  {
    var t := s[LeadingCount(s, drop)..];
    t[..|t| - TrailingCount(t, drop)]
  }

  /** `s.strip()` */
  function Strip(s: string): string {
    StripBy(s, IsSpace)
  }

  /** `s.strip('"')` */
  function StripQuotes(s: string): string {
    StripBy(s, c => c == '"')
  }

  lemma StripIdempotent(s: string, drop: char -> bool)
    ensures StripBy(StripBy(s, drop), drop) == StripBy(s, drop)
  {
  }

  // ---------------------------------------------------------------------------
  // split(sep) and its inverse join

  /** `s.split(sep)` for a one-character separator: the maximal pieces of `s`
      between separators, empty pieces included, so never an empty list. */
  function Split(s: string, sep: char): (r: seq<string>)
    ensures |r| >= 1
    ensures forall k :: 0 <= k < |r| ==> sep !in r[k]
    ensures |r[0]| <= |s| && r[0] == s[..|r[0]|]
    ensures |r[0]| == |s| || s[|r[0]|] == sep
  {
    if s == [] then [[]]
    else
      var rest := Split(s[1..], sep);
      if s[0] == sep then [[]] + rest
      else [[s[0]] + rest[0]] + rest[1..]
  }

  /** `sep.join(parts)` */
  function Join(parts: seq<string>, sep: char): string {
    if |parts| == 0 then []
    else if |parts| == 1 then parts[0]
    else parts[0] + [sep] + Join(parts[1..], sep)
  }

  /** Splitting and joining again gives back the original text. */
  lemma {:induction false} SplitThenJoin(s: string, sep: char)
    ensures Join(Split(s, sep), sep) == s
    decreases |s|
  {
    if s != [] {
      var rest := Split(s[1..], sep);
      SplitThenJoin(s[1..], sep);
      if s[0] == sep {
        assert Split(s, sep) == [[]] + rest;
        assert s == [] + [sep] + Join(rest, sep);
      } else {
        var r := Split(s, sep);
        assert r == [[s[0]] + rest[0]] + rest[1..];
        if |rest| == 1 {
          assert s == [s[0]] + s[1..];
        } else {
          assert rest == [rest[0]] + rest[1..];
          assert Join(rest, sep) == rest[0] + [sep] + Join(rest[1..], sep);
          assert r[1..] == rest[1..];
          assert s == [s[0]] + s[1..];
        }
      }
    }
  }

  /** Splitting text that holds no separator gives the text itself. */
  lemma {:induction false} SplitNoSep(s: string, sep: char)
    requires sep !in s
    ensures Split(s, sep) == [s]
    decreases |s|
  {
    if s != [] {
      assert sep !in s[1..];
      SplitNoSep(s[1..], sep);
      assert [s[0]] + s[1..] == s;
    }
  }

  /** Splitting `a + u`, where `a` holds no separator, glues `a` to the first
      piece of `u`. */
  lemma {:induction false} SplitPrefix(a: string, u: string, sep: char)
    requires sep !in a
    ensures Split(a + u, sep) == [a + Split(u, sep)[0]] + Split(u, sep)[1..]
    decreases |a|
  {
    if a != [] {
      assert sep !in a[1..];
      SplitPrefix(a[1..], u, sep);
      assert (a + u)[1..] == a[1..] + u;
      assert (a + u)[0] == a[0] != sep;
      var rest := Split(a[1..] + u, sep);
      assert Split(a + u, sep) == [[a[0]] + rest[0]] + rest[1..];
      assert rest[0] == a[1..] + Split(u, sep)[0];
      assert rest[1..] == Split(u, sep)[1..];
      assert [a[0]] + (a[1..] + Split(u, sep)[0]) == a + Split(u, sep)[0];
    } else {
      assert a + u == u;
      assert [] + Split(u, sep)[0] == Split(u, sep)[0];
      assert Split(u, sep) == [Split(u, sep)[0]] + Split(u, sep)[1..];
    }
  }

  /** Joining pieces free of the separator and splitting again gives back the
      pieces. */
  lemma {:induction false} JoinThenSplit(parts: seq<string>, sep: char)
    requires |parts| >= 1
    requires forall k :: 0 <= k < |parts| ==> sep !in parts[k]
    ensures Split(Join(parts, sep), sep) == parts
    decreases |parts|
  {
    if |parts| == 1 {
      SplitNoSep(parts[0], sep);
    } else {
      var tail := Join(parts[1..], sep);
      JoinThenSplit(parts[1..], sep);
      assert Join(parts, sep) == parts[0] + ([sep] + tail);
      SplitPrefix(parts[0], [sep] + tail, sep);
      assert ([sep] + tail)[1..] == tail;
      assert Split([sep] + tail, sep) == [[]] + Split(tail, sep);
      assert parts == [parts[0]] + parts[1..];
    }
  }

  /** `s.split(sep)[0]`: the text before the first separator, or all of `s`. */
  function BeforeFirst(s: string, sep: char): (r: string)
    ensures sep !in r
    ensures |r| <= |s| && r == s[..|r|]
    ensures |r| == |s| || s[|r|] == sep
  {
    Split(s, sep)[0]
  }

  /** Without a separator, `split(sep)[0]` is the whole text. */
  lemma BeforeFirstNoSep(s: string, sep: char)
    requires sep !in s
    ensures BeforeFirst(s, sep) == s
  {
    SplitNoSep(s, sep);
  }

  /** `''.join(p + sep for p in parts)`: every piece followed by `sep`, the
      shape `temp_line += x + '\t'` builds. */
  function JoinTerminated(parts: seq<string>, sep: char): (r: string)
    ensures |parts| >= 1 ==> r == Join(parts, sep) + [sep]
  {
    if |parts| == 0 then []
    else parts[0] + [sep] + JoinTerminated(parts[1..], sep)
  }

  /** Stripping a tab-terminated line built from pieces whose outer
      characters are not whitespace gives the plain tab-joined line. */
  lemma StripTerminated(parts: seq<string>)
    requires |parts| >= 1
    requires parts[0] != [] && !IsSpace(parts[0][0])
    requires parts[|parts| - 1] != [] && !IsSpace(parts[|parts| - 1][|parts[|parts| - 1]| - 1])
    ensures Strip(JoinTerminated(parts, '\t')) == Join(parts, '\t')
  {
    var j := Join(parts, '\t');
    JoinLast(parts, '\t');
    assert j[0] == parts[0][0];
    var s := j + ['\t'];
    var r := Strip(s);
    assert LeadingCount(s, IsSpace) == 0;
    assert !IsSpace(s[|j| - 1]);
    assert |r| == |j|;
    assert r == s[..|j|] == j;
  }

  /** The last character of a join is that of its last piece. */
  lemma {:induction false} JoinLast(parts: seq<string>, sep: char)
    requires |parts| >= 1 && parts[|parts| - 1] != []
    ensures var j := Join(parts, sep);
      |j| >= 1 && j[|j| - 1] == parts[|parts| - 1][|parts[|parts| - 1]| - 1]
    decreases |parts|
  {
    if |parts| > 1 {
      JoinLast(parts[1..], sep);
    }
  }

  // ---------------------------------------------------------------------------
  // split() on whitespace

  /** `line.strip().split()` */
  function Tokens(line: string): seq<string> {
    SplitWs(Strip(line))
  }

  /** The whitespace tokens of every line. */
  function TokenRows(lines: seq<string>): (r: seq<seq<string>>)
    ensures |r| == |lines|
    ensures forall i :: 0 <= i < |lines| ==> r[i] == Tokens(lines[i])
  {
    seq(|lines|, i requires 0 <= i < |lines| => Tokens(lines[i]))
  }

  /** `s.split()`: the maximal runs of non-whitespace characters, in order. */
  function SplitWs(s: string): (r: seq<string>)
    ensures forall k :: 0 <= k < |r| ==> r[k] != [] && forall j :: 0 <= j < |r[k]| ==> !IsSpace(r[k][j])
    decreases |s|
  {
    var t := s[LeadingCount(s, IsSpace)..];
    if t == [] then []
    else
      var n := LeadingCount(t, NotSpace);
      assert n >= 1;
      [t[..n]] + SplitWs(t[n..])
  }

  predicate IsToken(w: string) {
    w != [] && forall j :: 0 <= j < |w| ==> !IsSpace(w[j])
  }

  /** Joining tokens with single spaces and splitting on whitespace gives the
      tokens back. */
  lemma {:induction false} JoinThenSplitWs(tokens: seq<string>)
    requires forall k :: 0 <= k < |tokens| ==> IsToken(tokens[k])
    ensures SplitWs(Join(tokens, ' ')) == tokens
    decreases |tokens|
  {
    if |tokens| == 1 {
      SplitWsToken(tokens[0], []);
      assert tokens[0] + [] == tokens[0];
      assert SplitWs([]) == [];
    } else if |tokens| > 1 {
      var tail := Join(tokens[1..], ' ');
      assert Join(tokens, ' ') == tokens[0] + ([' '] + tail);
      SplitWsToken(tokens[0], [' '] + tail);
      SplitWsLeadingSpace(tail);
      JoinThenSplitWs(tokens[1..]);
      assert tokens == [tokens[0]] + tokens[1..];
    }
  }

  /** A token followed by nothing or by whitespace is the first token. */
  lemma SplitWsToken(w: string, rest: string)
    requires IsToken(w)
    requires rest == [] || IsSpace(rest[0])
    ensures SplitWs(w + rest) == [w] + SplitWs(rest)
  {
    var j := w + rest;
    assert LeadingCount(j, IsSpace) == 0 by {
      assert j[0] == w[0];
    }
    assert j[0..] == j;
    LeadingCountExact(j, NotSpace, |w|);
    assert j[..|w|] == w;
    assert j[|w|..] == rest;
  }

  /** A run of selected characters ended by an unselected one is what
      `LeadingCount` measures. */
  lemma {:induction false} LeadingCountExact(s: string, drop: char -> bool, n: nat)
    requires n <= |s|
    requires forall k :: 0 <= k < n ==> drop(s[k])
    requires n == |s| || !drop(s[n])
    ensures LeadingCount(s, drop) == n
    decreases n
  {
    if n > 0 {
      LeadingCountExact(s[1..], drop, n - 1);
    }
  }

  /** A leading space does not change the tokens. */
  lemma SplitWsLeadingSpace(s: string)
    ensures SplitWs([' '] + s) == SplitWs(s)
  {
    var u := [' '] + s;
    assert LeadingCount(u, IsSpace) == 1 + LeadingCount(s, IsSpace) by {
      assert u[1..] == s;
    }
    assert u[LeadingCount(u, IsSpace)..] == s[LeadingCount(s, IsSpace)..];
  }

  // ---------------------------------------------------------------------------
  // replace(c, '')

  /** `s.replace(c, '')` */
  function RemoveAll(s: string, c: char): (r: string)
    ensures c !in r
    ensures forall ch :: ch in r <==> ch in s && ch != c
    ensures |r| <= |s|
  {
    if s == [] then []
    else (if s[0] == c then [] else [s[0]]) + RemoveAll(s[1..], c)
  }

  /** Removing a character that does not occur changes nothing. */
  lemma {:induction false} RemoveAbsent(s: string, c: char)
    requires c !in s
    ensures RemoveAll(s, c) == s
    decreases |s|
  {
    if s != [] {
      RemoveAbsent(s[1..], c);
      assert s == [s[0]] + s[1..];
    }
  }

  // ---------------------------------------------------------------------------
  // str(n) and int(s)

  function DigitChar(d: nat): (c: char)
    requires d < 10
    ensures IsDigit(c)
  {
    ('0' as int + d) as char
  }

  /** `str(n)` for a non-negative integer: its decimal digits, no leading zero. */
  function DecimalString(n: nat): (r: string)
    ensures |r| >= 1 && AllDigits(r)
    ensures r[0] != '0' || n == 0
  {
    if n < 10 then [DigitChar(n)] else DecimalString(n / 10) + [DigitChar(n % 10)]
  }

  /** The number a string of decimal digits denotes. */
  function DigitsValue(ds: string): nat
    requires AllDigits(ds)
  {
    if ds == [] then 0
    else DigitsValue(ds[..|ds| - 1]) * 10 + (ds[|ds| - 1] as int - '0' as int)
  }

  /** The digit part Python's `int()` accepts: decimal digits, with single
      underscores allowed between two digits. */
  predicate IsDigitGroup(b: string) {
    && |b| >= 1
    && IsDigit(b[0])
    && IsDigit(b[|b| - 1])
    && (forall k :: 0 <= k < |b| ==> IsDigit(b[k]) || b[k] == '_')
    && (forall k :: 0 <= k < |b| - 1 ==> b[k] == '_' ==> IsDigit(b[k + 1]))
  }

  /** Python's `int(s)` on a string: surrounding whitespace is ignored, an
      optional sign, then a digit group; anything else is a `ValueError`
      (here `None`). */
  function ParseInt(s: string): (r: Option<int>)
    ensures r.Some? ==> exists k :: 0 <= k < |s| && IsDigit(s[k])
  {
    var t := Strip(s);
    if t == [] then None
    else
      var body := if t[0] == '+' || t[0] == '-' then t[1..] else t;
      if !IsDigitGroup(body) then None
      else
        var digits := RemoveAll(body, '_');
        assert AllDigits(digits) by {
          forall k | 0 <= k < |digits|
            ensures IsDigit(digits[k])
          {
            assert digits[k] in body;
          }
        }
        assert IsDigit(body[0]) && body[0] in t;
        var v: int := DigitsValue(digits);
        Some(if t[0] == '-' then -v else v)
  }

  lemma {:induction false} DecimalValue(n: nat)
    ensures DigitsValue(DecimalString(n)) == n
    decreases n
  {
    if n >= 10 {
      DecimalValue(n / 10);
      var r := DecimalString(n);
      assert r[..|r| - 1] == DecimalString(n / 10);
    }
  }

  /** `int(str(n)) == n`: parsing the decimal rendering gives the number back. */
  lemma DecimalRoundTrip(n: nat)
    ensures ParseInt(DecimalString(n)) == Some(n)
  {
    var d := DecimalString(n);
    assert Strip(d) == d by {
      assert !IsSpace(d[0]) && !IsSpace(d[|d| - 1]);
    }
    assert !(d[0] == '+' || d[0] == '-');
    assert IsDigitGroup(d);
    assert '_' !in d;
    RemoveAbsent(d, '_');
    DecimalValue(n);
  }

  /** Distinct numbers have distinct decimal renderings. */
  lemma DecimalInjective(m: nat, n: nat)
    requires DecimalString(m) == DecimalString(n)
    ensures m == n
  {
    DecimalRoundTrip(m);
    DecimalRoundTrip(n);
  }
}
