/** `java.net.URLEncoder.encode(s, "UTF-8")`: the HTML form encoding the
    committer applies to each deletion reference. Letters, digits and `.-*_`
    pass through, a space becomes `+`, and every other character becomes the
    `%XX` escapes (upper-case hexadecimal) of its UTF-8 bytes. */
module UrlEncoding {
  import opened JavaLang
  import opened Seqs

  /** The characters the encoder leaves unchanged. */
  predicate Unreserved(c: char) {
    || ('a' <= c <= 'z') || ('A' <= c <= 'Z') || ('0' <= c <= '9')
    || c == '.' || c == '-' || c == '*' || c == '_'
  }

  /** The characters an encoded string is made of. */
  predicate FormSafe(c: char) {
    Unreserved(c) || c == '+' || c == '%'
  }

  /** The UTF-8 bytes of one Unicode scalar value. */
  function Utf8(c: char): (bs: seq<int>)
    ensures 1 <= |bs| <= 4
    ensures forall i :: 0 <= i < |bs| ==> 0 <= bs[i] < 256
    ensures (c as int < 0x80) <==> |bs| == 1
  {
    var n := c as int;
    if n < 0x80 then [n]
    else if n < 0x800 then [0xC0 + n / 64, 0x80 + n % 64]
    else if n < 0x10000 then [0xE0 + n / 4096, 0x80 + (n / 64) % 64, 0x80 + n % 64]
    else [0xF0 + n / 262144, 0x80 + (n / 4096) % 64, 0x80 + (n / 64) % 64, 0x80 + n % 64]
  }

  function HexDigit(d: int): (c: char)
    requires 0 <= d < 16
    ensures Unreserved(c)
  {
    "0123456789ABCDEF"[d]
  }

  /** `%XX` for each byte. */
  function PercentEscapes(bs: seq<int>): (r: string)
    requires forall i :: 0 <= i < |bs| ==> 0 <= bs[i] < 256
    ensures |r| == 3 * |bs|
    ensures |bs| > 0 ==> r[0] == '%'
    ensures forall i :: 0 <= i < |r| ==> FormSafe(r[i]) && r[i] != '+'
  {
    if |bs| == 0 then ""
    else
      var head := ['%', HexDigit(bs[0] / 16), HexDigit(bs[0] % 16)];
      var tail := PercentEscapes(bs[1..]);
      SafeConcat(head, tail);
      head + tail
  }

  /** Form-safe text without `+`, joined, stays so. */
  lemma SafeConcat(a: string, b: string)
    requires forall i :: 0 <= i < |a| ==> FormSafe(a[i]) && a[i] != '+'
    requires forall i :: 0 <= i < |b| ==> FormSafe(b[i]) && b[i] != '+'
    ensures forall i :: 0 <= i < |a + b| ==> FormSafe((a + b)[i]) && (a + b)[i] != '+'
  {
    forall i | 0 <= i < |a + b|
      ensures FormSafe((a + b)[i]) && (a + b)[i] != '+'
    {
      if i >= |a| {
        assert (a + b)[i] == b[i - |a|];
      }
    }
  }

  /** The encoding of one character. */
  function EncodeChar(c: char): (r: string)
    ensures |r| > 0
    ensures forall i :: 0 <= i < |r| ==> FormSafe(r[i])
    ensures '+' in r <==> c == ' '
  {
    if Unreserved(c) then [c]
    else if c == ' ' then "+"
    else
      var r := PercentEscapes(Utf8(c));
      assert r[0] == '%';
      r
  }

  /** `URLEncoder.encode(s, "UTF-8")`. */
  function FormEncode(s: string): (r: string)
    ensures |r| >= |s|
    ensures r == "" <==> s == ""
    ensures forall i :: 0 <= i < |r| ==> FormSafe(r[i])
    ensures '+' in r <==> ' ' in s
    decreases |s|
  {
    if s == "" then ""
    else
      var head := EncodeChar(s[0]);
      var tail := FormEncode(s[1..]);
      assert ' ' in s <==> s[0] == ' ' || ' ' in s[1..] by {
        assert s == [s[0]] + s[1..];
      }
      SafeJoin(head, tail);
      head + tail
  }

  /** The encoding works character by character, so it distributes over
      concatenation. */
  lemma {:induction false} FormEncodeAppend(x: string, y: string)
    ensures FormEncode(x + y) == FormEncode(x) + FormEncode(y)
    decreases |x|
  {
    if x == "" {
      assert x + y == y;
    } else {
      assert (x + y)[0] == x[0] && (x + y)[1..] == x[1..] + y;
      FormEncodeAppend(x[1..], y);
      FormEncodeCons(x + y);
      FormEncodeCons(x);
      Regroup3(EncodeChar(x[0]), FormEncode(x[1..]), FormEncode(y));
    }
  }

  lemma FormEncodeCons(s: string)
    requires s != ""
    ensures FormEncode(s) == EncodeChar(s[0]) + FormEncode(s[1..])
  {
  }

  lemma SafeJoin(a: string, b: string)
    requires forall i :: 0 <= i < |a| ==> FormSafe(a[i])
    requires forall i :: 0 <= i < |b| ==> FormSafe(b[i])
    ensures forall i :: 0 <= i < |a + b| ==> FormSafe((a + b)[i])
  {
    forall i | 0 <= i < |a + b|
      ensures FormSafe((a + b)[i])
    {
      if i >= |a| {
        assert (a + b)[i] == b[i - |a|];
      }
    }
  }

  /** The encoder never produces `&`, `=` or a line break, so an encoded value
      cannot end a URL query parameter early. */
  lemma FormEncodeIsQuerySafe(s: string)
    ensures '&' !in FormEncode(s) && '=' !in FormEncode(s) && '\n' !in FormEncode(s)
  {
    var r := FormEncode(s);
    forall i | 0 <= i < |r|
      ensures r[i] != '&' && r[i] != '=' && r[i] != '\n'
    {
      assert FormSafe(r[i]);
    }
  }

  /** The raw value at the start of a query string: the text before the
      first `&`, which is where a server reading the query ends the parameter.
      The server's later `%XX` and `+` decoding is not part of it. */
  function QueryValue(s: string): (v: string)
    ensures StartsWith(s, v) && '&' !in v
    ensures |v| == |s| || s[|v|] == '&'
    ensures '&' !in s ==> v == s
  {
    var i := IndexOf(s, "&", 0);
    if i == -1 then
      assert '&' !in s by {
        forall j | 0 <= j < |s|
          ensures s[j] != '&'
        {
          assert s[j..j + 1] == [s[j]];
          assert !OccursAt(s, "&", j);
        }
      }
      s
    else
      assert '&' !in s[..i] by {
        forall j | 0 <= j < i
          ensures s[..i][j] != '&'
        {
          assert s[j..j + 1] == [s[j]];
          assert !OccursAt(s, "&", j);
        }
      }
      assert s[i] == s[i..i + 1][0];
      s[..i]
  }

  /** The value is the one prefix without `&` that ends the text or stops at an
      `&`. */
  lemma QueryValueUnique(s: string, v: string)
    requires StartsWith(s, v) && '&' !in v
    requires |v| == |s| || s[|v|] == '&'
    ensures QueryValue(s) == v
  {
    var w := QueryValue(s);
    if |w| != |v| {
      assert false;
    }
    assert w == s[..|w|] && v == s[..|v|];
  }

  /** More parameters after a value do not change what is read: the value of
      `x&more` is the value of `x`. */
  lemma QueryValueAppend(x: string, more: string)
    ensures QueryValue(x + ("&" + more)) == QueryValue(x)
  {
    var s := x + ("&" + more);
    var v := QueryValue(x);
    assert s[..|v|] == x[..|v|];
    if |v| == |x| {
      assert s[|v|] == '&';
    } else {
      assert s[|v|] == x[|v|];
    }
    QueryValueUnique(s, v);
  }

  /** A value with no `&`, followed by `&` and more parameters, reads back whole. */
  lemma QueryValueOf(v: string, more: string)
    requires '&' !in v
    ensures QueryValue(v + "&" + more) == v
  {
    var s := v + "&" + more;
    assert OccursAt(s, "&", |v|);
    forall j | 0 <= j < |v|
      ensures !OccursAt(s, "&", j)
    {
      assert s[j..j + 1] == [v[j]];
    }
    assert s[..|v|] == v;
  }
}
