/** The parts of `java.lang.String`, `java.io.BufferedReader` and the Apache
    commons-lang `StringUtils` helpers that the committers rely on, stated over
    Dafny strings. Each definition follows the Java semantics, including how a
    `null` reference behaves. */
module JavaLang {
  import opened Wrappers

  /** What `StringBuilder.append(String)` and `+` write for a possibly-null
      string: the text itself, or the four characters `null`. */
  function Str(s: Option<string>): (r: string)
    ensures s.Some? ==> r == s.value
    ensures s.None? ==> r == "null"
  {
    match s
    case Some(v) => v
    case None => "null"
  }

  predicate StartsWith(s: string, prefix: string) {
    |prefix| <= |s| && s[..|prefix|] == prefix
  }

  /** `StringUtils.startsWithAny(s, prefixes...)`: a null string starts with
      nothing. */
  function StartsWithAny(s: Option<string>, prefixes: seq<string>): (b: bool)
    ensures b <==> s.Some? && exists i :: 0 <= i < |prefixes| && StartsWith(s.value, prefixes[i])
  {
    if s.None? || |prefixes| == 0 then false
    else StartsWith(s.value, prefixes[0]) || StartsWithAny(s, prefixes[1..])
  }

  /** A prefix of a prefix: anything starting with `p + q` starts with `p`. */
  lemma StartsWithLonger(s: string, p: string, q: string)
    requires StartsWith(s, p + q)
    ensures StartsWith(s, p)
  {
    assert s[..|p|] == (p + q)[..|p|];
  }

  // ---------------------------------------------------------------- searching

  /** `w` occurs in `s` at index `i`. */
  predicate OccursAt(s: string, w: string, i: int) {
    0 <= i && i + |w| <= |s| && s[i..i + |w|] == w
  }

  /** `s.indexOf(w, from)`: the first index at or after `from` where `w`
      occurs, or -1. */
  function IndexOf(s: string, w: string, from: nat): (r: int)
    requires from <= |s|
    ensures r == -1 || (from <= r && OccursAt(s, w, r))
    ensures r == -1 ==> forall j :: from <= j ==> !OccursAt(s, w, j)
    ensures r != -1 ==> forall j :: from <= j < r ==> !OccursAt(s, w, j)
    decreases |s| - from
  {
    if from + |w| > |s| then -1
    else if s[from..from + |w|] == w then from
    else if from == |s| then -1
    else IndexOf(s, w, from + 1)
  }

  /** `StringUtils.contains(s, w)` for a non-null `s`. */
  function Contains(s: string, w: string): (b: bool)
    ensures b <==> exists i :: OccursAt(s, w, i)
  {
    IndexOf(s, w, 0) >= 0
  }

  /** Every character an occurrence covers is a character of the word. */
  lemma CharOfOccurrence(s: string, w: string, i: int, p: int)
    ensures OccursAt(s, w, i) && i <= p < i + |w| ==> s[p] == w[p - i] && s[p] in w
  {
    if OccursAt(s, w, i) && i <= p < i + |w| {
      assert s[i..i + |w|][p - i] == s[p];
    }
  }

  lemma OccursInPrefix(a: string, rest: string, w: string, i: int)
    requires OccursAt(a, w, i)
    ensures OccursAt(a + rest, w, i)
  {
    assert (a + rest)[i..i + |w|] == a[i..i + |w|];
  }

  lemma OccursInSuffix(pre: string, b: string, w: string, i: int)
    requires OccursAt(b, w, i)
    ensures OccursAt(pre + b, w, |pre| + i)
  {
    assert (pre + b)[|pre| + i..|pre| + i + |w|] == b[i..i + |w|];
  }

  /** An occurrence in `a + t + b` that cannot touch `t` lies in `a` or in `b`. */
  lemma OccursAround(a: string, t: string, b: string, w: string, i: int)
    requires |t| > 0 && |w| > 0
    requires OccursAt(a + t + b, w, i)
    requires forall k :: 0 <= k < |t| ==> t[k] !in w
    ensures OccursAt(a, w, i) || OccursAt(b, w, i - |a| - |t|)
  {
    var s := a + t + b;
    assert w == s[i..i + |w|];
    if i + |w| <= |a| {
      assert a[i..i + |w|] == s[i..i + |w|];
    } else if i >= |a| + |t| {
      var j := i - |a| - |t|;
      assert b[j..j + |w|] == s[i..i + |w|];
    } else {
      var p := if i < |a| then |a| else i;
      CharOfOccurrence(s, w, i, p);
      assert false;
    }
  }

  /** An occurrence of `w` in `a + t + b` lies inside `a` or inside `b` when no
      character of the non-empty separator `t` appears in `w`. */
  lemma ContainsAcross(a: string, t: string, b: string, w: string)
    requires |t| > 0
    requires forall k :: 0 <= k < |t| ==> t[k] !in w
    ensures Contains(a + t + b, w) <==> Contains(a, w) || Contains(b, w)
  {
    if |w| == 0 {
      assert OccursAt(a, w, 0);
      assert OccursAt(a + t + b, w, 0);
      return;
    }
    if Contains(a, w) {
      var i :| OccursAt(a, w, i);
      OccursInPrefix(a, t + b, w, i);
      assert a + (t + b) == a + t + b;
    }
    if Contains(b, w) {
      var i :| OccursAt(b, w, i);
      OccursInSuffix(a + t, b, w, i);
    }
    if Contains(a + t + b, w) {
      var i :| OccursAt(a + t + b, w, i);
      OccursAround(a, t, b, w, i);
    }
  }

  /** `s.lastIndexOf(c)`: the last index holding `c`, or -1. */
  function LastIndexOf(s: string, c: char): (r: int)
    ensures -1 <= r < |s|
    ensures r >= 0 ==> s[r] == c
    ensures forall j :: r < j < |s| ==> s[j] != c
    decreases |s|
  {
    if |s| == 0 then -1
    else if s[|s| - 1] == c then |s| - 1
    else LastIndexOf(s[..|s| - 1], c)
  }

  // ------------------------------------------------------------------ joining

  /** `StringUtils.join(xs, sep)`: the elements with `sep` between neighbours,
      the empty string for no elements. */
  function Join(xs: seq<string>, sep: string): string {
    if |xs| == 0 then ""
    else if |xs| == 1 then xs[0]
    else xs[0] + sep + Join(xs[1..], sep)
  }

  /** Splits `s` at every occurrence of the character `sep`; the inverse of
      `Join` with a one-character separator. */
  function Split(s: string, sep: char): (parts: seq<string>)
    ensures |parts| >= 1
    decreases |s|
  {
    var i := IndexOf(s, [sep], 0);
    if i == -1 then [s]
    else [s[..i]] + Split(s[i + 1..], sep)
  }

  /** Joining with `sep` and splitting at `sep` gives back the list, provided
      the list is non-empty and no element holds the separator. */
  lemma {:induction false} SplitJoin(xs: seq<string>, sep: char)
    requires |xs| > 0
    requires forall i :: 0 <= i < |xs| ==> sep !in xs[i]
    ensures Split(Join(xs, [sep]), sep) == xs
    decreases |xs|
  {
    var s := Join(xs, [sep]);
    var x := xs[0];
    if |xs| == 1 {
      forall j | 0 <= j && j + 1 <= |x|
        ensures !OccursAt(x, [sep], j)
      {
        assert x[j..j + 1] == [x[j]];
      }
    } else {
      var rest := Join(xs[1..], [sep]);
      assert s == x + [sep] + rest;
      assert OccursAt(s, [sep], |x|);
      forall j | 0 <= j < |x|
        ensures !OccursAt(s, [sep], j)
      {
        assert s[j..j + 1] == [x[j]];
      }
      var i := IndexOf(s, [sep], 0);
      assert i == |x|;
      assert s[..i] == x;
      assert s[i + 1..] == rest;
      SplitJoin(xs[1..], sep);
    }
  }

  /** Splitting gives the text back whole exactly when it holds no separator;
      otherwise it gives at least two parts. */
  lemma SplitSingle(s: string, sep: char)
    ensures sep !in s ==> Split(s, sep) == [s]
    ensures sep in s ==> |Split(s, sep)| >= 2
  {
    if sep in s {
      var j :| 0 <= j < |s| && s[j] == sep;
      assert s[j..j + 1] == [sep];
      assert OccursAt(s, [sep], j);
      var i := IndexOf(s, [sep], 0);
      assert Split(s, sep) == [s[..i]] + Split(s[i + 1..], sep);
    } else {
      forall j | 0 <= j && j + 1 <= |s|
        ensures !OccursAt(s, [sep], j)
      {
        assert s[j..j + 1] == [s[j]];
      }
    }
  }

  /** Some element of `xs` contains `w`. */
  predicate SomeContains(xs: seq<string>, w: string) {
    exists i :: 0 <= i < |xs| && Contains(xs[i], w)
  }

  lemma SomeContainsCons(x: string, xs: seq<string>, w: string)
    ensures SomeContains([x] + xs, w) <==> Contains(x, w) || SomeContains(xs, w)
  {
    var ys := [x] + xs;
    if Contains(x, w) {
      assert ys[0] == x;
    }
    if SomeContains(ys, w) {
      var i :| 0 <= i < |ys| && Contains(ys[i], w);
      if i > 0 {
        assert ys[i] == xs[i - 1];
      }
    }
    if SomeContains(xs, w) {
      var i :| 0 <= i < |xs| && Contains(xs[i], w);
      assert ys[i + 1] == xs[i];
      assert Contains(ys[i + 1], w);
    }
  }

  /** An occurrence of a word with no separator character in a joined string
      lies inside one of the elements. */
  lemma {:induction false} ContainsJoin(xs: seq<string>, sep: string, w: string)
    requires |sep| > 0 && |w| > 0
    requires forall k :: 0 <= k < |sep| ==> sep[k] !in w
    ensures Contains(Join(xs, sep), w) <==> SomeContains(xs, w)
    decreases |xs|
  {
    if |xs| == 0 {
      assert !OccursAt("", w, 0);
    } else if |xs| == 1 {
      assert xs == [xs[0]];
    } else {
      ContainsAcross(xs[0], sep, Join(xs[1..], sep), w);
      ContainsJoin(xs[1..], sep, w);
      assert xs == [xs[0]] + xs[1..];
      SomeContainsCons(xs[0], xs[1..], w);
    }
  }

  // -------------------------------------------------------------- whitespace

  /** `Character.isWhitespace(c)`: the Unicode space, line and paragraph
      separators other than the non-breaking ones, and the ASCII controls
      U+0009-U+000D and U+001C-U+001F. */
  predicate IsWhitespace(c: char) {
    || ('\U{0009}' <= c <= '\U{000D}')
    || ('\U{001C}' <= c <= '\U{0020}')
    || c == '\U{1680}'
    || ('\U{2000}' <= c <= '\U{2006}')
    || ('\U{2008}' <= c <= '\U{200A}')
    || c == '\U{2028}' || c == '\U{2029}' || c == '\U{205F}' || c == '\U{3000}'
  }

  /** `StringUtils.isBlank(s)` for a non-null `s`: empty or whitespace only. */
  predicate IsBlank(s: string) {
    forall i :: 0 <= i < |s| ==> IsWhitespace(s[i])
  }

  /** `String.trim()`: drops the leading and trailing characters whose code is
      at most U+0020. */
  function Trim(s: string): (r: string)
    ensures |r| <= |s|
    ensures |r| > 0 <==> exists i :: 0 <= i < |s| && s[i] > ' '
    ensures |r| > 0 ==> r[0] > ' ' && r[|r| - 1] > ' '
    decreases |s|
  {
    if |s| == 0 then s
    else if s[0] <= ' ' then
      var r := Trim(s[1..]);
      assert forall i :: 1 <= i < |s| ==> s[i] == s[1..][i - 1];
      r
    else if s[|s| - 1] <= ' ' then
      var r := Trim(s[..|s| - 1]);
      assert forall i :: 0 <= i < |s| - 1 ==> s[i] == s[..|s| - 1][i];
      r
    else s
  }

  // ------------------------------------------------------------ reading lines

  /** Index of the first line terminator (`\n` or `\r`) at or after `i`, or `|s|`. */
  function LineEnd(s: string, i: nat): (k: nat)
    requires i <= |s|
    ensures i <= k <= |s|
    ensures k < |s| ==> s[k] == '\n' || s[k] == '\r'
    ensures forall j :: i <= j < k ==> s[j] != '\n' && s[j] != '\r'
    decreases |s| - i
  {
    if i == |s| || s[i] == '\n' || s[i] == '\r' then i else LineEnd(s, i + 1)
  }

  /** The successive results of `BufferedReader.readLine()` on `s`: a line ends
      at `\n`, at `\r`, or at `\r\n`, and a final terminator does not start an
      empty line. */
  function ReadLines(s: string): (lines: seq<string>)
    ensures s == "" <==> |lines| == 0
    ensures forall i :: 0 <= i < |lines| ==> '\n' !in lines[i] && '\r' !in lines[i]
    decreases |s|
  {
    if s == "" then []
    else
      var k := LineEnd(s, 0);
      var line := s[..k];
      assert forall j :: 0 <= j < |line| ==> line[j] == s[j];
      if k == |s| then [line]
      else if s[k] == '\r' && k + 1 < |s| && s[k + 1] == '\n' then [line] + ReadLines(s[k + 2..])
      else [line] + ReadLines(s[k + 1..])
  }

  /** One step of `ReadLines`: a text that holds a terminator is its first
      line, the terminator, and the rest. */
  lemma ReadLinesStep(s: string) returns (t: string, rest: string)
    requires s != "" && LineEnd(s, 0) < |s|
    ensures s == s[..LineEnd(s, 0)] + t + rest
    ensures |t| > 0 && forall j :: 0 <= j < |t| ==> t[j] == '\n' || t[j] == '\r'
    ensures ReadLines(s) == [s[..LineEnd(s, 0)]] + ReadLines(rest)
    ensures |rest| < |s|
  {
    var k := LineEnd(s, 0);
    var n := if s[k] == '\r' && k + 1 < |s| && s[k + 1] == '\n' then 2 else 1;
    rest := s[k + n..];
    t := s[k..k + n];
    assert s[..k + n] == s[..k] + t;
    assert s == s[..k + n] + rest;
  }

  /** A word with no line terminator occurs in a text exactly when it occurs in
      one of the text's lines. */
  lemma {:induction false} ContainsLines(s: string, w: string)
    requires |w| > 0 && '\n' !in w && '\r' !in w
    ensures Contains(s, w) <==> SomeContains(ReadLines(s), w)
    decreases |s|
  {
    if s == "" {
      assert !OccursAt(s, w, 0);
    } else {
      var k := LineEnd(s, 0);
      if k == |s| {
        assert s[..k] == s;
        assert ReadLines(s) == [s] + [];
        SomeContainsCons(s, [], w);
      } else {
        var t, rest := ReadLinesStep(s);
        ContainsAcross(s[..k], t, rest, w);
        ContainsLines(rest, w);
        SomeContainsCons(s[..k], ReadLines(rest), w);
      }
    }
  }

  // ------------------------------------------------------------------ numbers

  /** A 32-bit Java `int`. */
  type Int32 = x: int | -0x8000_0000 <= x < 0x8000_0000

  function DigitChar(d: int): (c: char)
    requires 0 <= d < 10
    ensures '0' <= c <= '9'
  {
    "0123456789"[d]
  }

  /** The decimal digits of `n`, most significant first, without leading zeros. */
  function NatToString(n: nat): (s: string)
    ensures |s| > 0
    ensures forall i :: 0 <= i < |s| ==> '0' <= s[i] <= '9'
    ensures |s| > 1 ==> s[0] != '0'
    decreases n
  {
    if n < 10 then [DigitChar(n)]
    else
      var prefix := NatToString(n / 10);
      prefix + [DigitChar(n % 10)]
  }

  /** `Integer.toString(n)`: a minus sign for negative values, then the digits. */
  function IntToString(n: int): (s: string)
    ensures |s| > 0
    ensures n < 0 <==> s[0] == '-'
    ensures forall i :: 0 <= i < |s| ==> ('0' <= s[i] <= '9') || (i == 0 && s[i] == '-')
  {
    if n < 0 then "-" + NatToString(-n) else NatToString(n)
  }

  /** The value of a string of decimal digits (`Integer.parseInt` without a sign). */
  function ParseNat(s: string): nat
    decreases |s|
  {
    if |s| == 0 then 0
    else ParseNat(s[..|s| - 1]) * 10 + (if '0' <= s[|s| - 1] <= '9' then s[|s| - 1] as int - '0' as int else 0)
  }

  /** `Integer.parseInt(s)` on a well-formed decimal literal. */
  function ParseInt(s: string): int {
    if |s| > 0 && s[0] == '-' then 0 - ParseNat(s[1..]) else ParseNat(s)
  }

  lemma {:induction false} ParseNatToString(n: nat)
    ensures ParseNat(NatToString(n)) == n
    decreases n
  {
    var s := NatToString(n);
    if n >= 10 {
      ParseNatToString(n / 10);
      assert s[..|s| - 1] == NatToString(n / 10);
      assert s[|s| - 1] == DigitChar(n % 10);
      assert "0123456789"[n % 10] as int - '0' as int == n % 10;
    } else {
      assert "0123456789"[n] as int - '0' as int == n;
      assert s[..0] == "";
    }
  }

  /** `Integer.parseInt` inverts `Integer.toString`. */
  lemma ParseIntToString(n: int)
    ensures ParseInt(IntToString(n)) == n
  {
    if n < 0 {
      ParseNatToString(-n);
      assert IntToString(n)[1..] == NatToString(-n);
    } else {
      ParseNatToString(n);
    }
  }
}
