/**
 * The few string operations of Rust's standard library that the config
 * parser relies on: `char::is_whitespace`, `str::trim`, `str::starts_with`,
 * `str::ends_with` and `str::replace("\"", "")`. Strings are sequences of
 * Unicode scalar values, as Rust's `char` is.
 */
module Text {

  /**
   * Rust's `char::is_whitespace`: the 25 code points with the Unicode
   * White_Space property, U+0009 to U+000D, U+0020, U+0085, U+00A0, U+1680,
   * U+2000 to U+200A, U+2028, U+2029, U+202F, U+205F and U+3000.
   */
  predicate IsWhitespace(c: char) {
    var n := c as int;
    (0x09 <= n <= 0x0D) || n == 0x20 || n == 0x85 || n == 0xA0 || n == 0x1680
    || (0x2000 <= n <= 0x200A) || n == 0x2028 || n == 0x2029 || n == 0x202F
    || n == 0x205F || n == 0x3000
  }

  /**
   * Among ASCII characters the whitespace is tab, line feed, vertical tab,
   * form feed, carriage return and space (vertical tab included, which
   * `char::is_ascii_whitespace` would leave out).
   */
  lemma AsciiWhitespace(c: char)
    requires c as int < 0x80
    ensures IsWhitespace(c) <==> c as int in {0x09, 0x0A, 0x0B, 0x0C, 0x0D, 0x20}
  {
  }

  ghost predicate AllWhitespace(s: string) {
    forall i :: 0 <= i < |s| ==> IsWhitespace(s[i])
  }

  /** `str::starts_with`: `s` is `prefix` followed by something. */
  predicate StartsWith(s: string, prefix: string): (b: bool)
    ensures b <==> |prefix| <= |s| && forall i :: 0 <= i < |prefix| ==> s[i] == prefix[i]
    ensures b ==> s == prefix + s[|prefix|..]
  {
    |prefix| <= |s| && s[..|prefix|] == prefix
  }

  /** `str::ends_with`: `s` is something followed by `suffix`. */
  predicate EndsWith(s: string, suffix: string): (b: bool)
    ensures b <==> |suffix| <= |s| && forall i :: 0 <= i < |suffix| ==> s[|s| - |suffix| + i] == suffix[i]
    ensures b ==> s == s[..|s| - |suffix|] + suffix
  {
    |suffix| <= |s| && s[|s| - |suffix|..] == suffix
  }

  /** `str::trim_start`: the longest suffix of `s` that does not start with whitespace. */
  function TrimStart(s: string): (t: string)
    ensures |t| <= |s| && t == s[|s| - |t|..]
    ensures AllWhitespace(s[..|s| - |t|])
    ensures t == [] || !IsWhitespace(t[0])
  {
    if s != [] && IsWhitespace(s[0]) then
      var t := TrimStart(s[1..]);
      TrimStartStep(s, t);
      t
    else
      s
  }

  /** `str::trim_end`: the longest prefix of `s` that does not end with whitespace. */
  function TrimEnd(s: string): (t: string)
    ensures |t| <= |s| && t == s[..|t|]
    ensures AllWhitespace(s[|t|..])
    ensures t == [] || !IsWhitespace(t[|t| - 1])
  {
    if s != [] && IsWhitespace(s[|s| - 1]) then
      var t := TrimEnd(s[..|s| - 1]);
      TrimEndStep(s, t);
      t
    else
      s
  }

  /** Stripping one leading whitespace character keeps `TrimStart`'s contract. */
  lemma TrimStartStep(s: string, t: string)
    requires s != [] && IsWhitespace(s[0])
    requires |t| <= |s| - 1 && t == s[1..][|s| - 1 - |t|..]
    requires AllWhitespace(s[1..][..|s| - 1 - |t|])
    ensures t == s[|s| - |t|..]
    ensures AllWhitespace(s[..|s| - |t|])
  {
    forall i | 0 < i < |s| - |t|
      ensures IsWhitespace(s[i])
    {
      assert s[i] == s[1..][..|s| - 1 - |t|][i - 1];
    }
  }

  /** Stripping one trailing whitespace character keeps `TrimEnd`'s contract. */
  lemma TrimEndStep(s: string, t: string)
    requires s != [] && IsWhitespace(s[|s| - 1])
    requires |t| <= |s| - 1 && t == s[..|s| - 1][..|t|]
    requires AllWhitespace(s[..|s| - 1][|t|..])
    ensures t == s[..|t|]
    ensures AllWhitespace(s[|t|..])
  {
    forall i | |t| <= i < |s| - 1
      ensures IsWhitespace(s[i])
    {
      assert s[i] == s[..|s| - 1][|t|..][i - |t|];
    }
  }

  /**
   * `str::trim`: `t` is a slice `s[lo..lo + |t|]` surrounded by whitespace only,
   * and it neither starts nor ends with whitespace.
   */
  function Trim(s: string): (t: string)
    ensures |t| <= |s|
    ensures exists lo :: TrimmedAt(s, t, lo)
    ensures t == [] || (!IsWhitespace(t[0]) && !IsWhitespace(t[|t| - 1]))
  {
    var u := TrimStart(s);
    TrimBothEnds(s, u, TrimEnd(u));
    TrimEnd(u)
  }

  lemma TrimBothEnds(s: string, u: string, t: string)
    requires |u| <= |s| && u == s[|s| - |u|..] && AllWhitespace(s[..|s| - |u|])
    requires |t| <= |u| && t == u[..|t|] && AllWhitespace(u[|t|..])
    ensures TrimmedAt(s, t, |s| - |u|)
  {
    var lo := |s| - |u|;
    assert s[lo..lo + |t|] == t;
    forall i | lo + |t| <= i < |s|
      ensures IsWhitespace(s[i])
    {
      assert s[i] == u[i - lo] == u[|t|..][i - lo - |t|];
    }
  }

  ghost predicate TrimmedAt(s: string, t: string, lo: int) {
    && 0 <= lo && lo + |t| <= |s|
    && s[lo..lo + |t|] == t
    && AllWhitespace(s[..lo])
    && AllWhitespace(s[lo + |t|..])
  }

  /** Trimming removes exactly the surrounding whitespace: it undoes any padding. */
  lemma {:induction false} TrimPadded(front: string, t: string, back: string)
    requires AllWhitespace(front) && AllWhitespace(back)
    requires t == [] || (!IsWhitespace(t[0]) && !IsWhitespace(t[|t| - 1]))
    ensures Trim(front + t + back) == t
  {
    if t == [] {
      assert front + t + back == (front + back) + [];
      assert AllWhitespace(front + back) by {
        assert forall i :: 0 <= i < |front + back| ==>
          (front + back)[i] == if i < |front| then front[i] else back[i - |front|];
      }
      TrimStartPadded(front + back, []);
    } else {
      TrimStartPadded(front, t + back);
      assert front + t + back == front + (t + back);
      TrimEndPadded(t, back);
    }
  }

  lemma {:induction false} TrimStartPadded(front: string, rest: string)
    requires AllWhitespace(front)
    requires rest == [] || !IsWhitespace(rest[0])
    ensures TrimStart(front + rest) == rest
  {
    if front != [] {
      assert (front + rest)[1..] == front[1..] + rest;
      TrimStartPadded(front[1..], rest);
    } else {
      assert front + rest == rest;
    }
  }

  lemma {:induction false} TrimEndPadded(rest: string, back: string)
    requires AllWhitespace(back)
    requires rest == [] || !IsWhitespace(rest[|rest| - 1])
    ensures TrimEnd(rest + back) == rest
  {
    if back != [] {
      assert (rest + back)[..|rest + back| - 1] == rest + back[..|back| - 1];
      TrimEndPadded(rest, back[..|back| - 1]);
    } else {
      assert rest + back == rest;
    }
  }

  /** `str::replace("\"", "")`: every double quote removed, all else kept in order. */
  function RemoveQuotes(s: string): (r: string)
    ensures |r| <= |s|
    ensures forall i :: 0 <= i < |r| ==> r[i] != '"'
  {
    if s == [] then []
    else (if s[0] == '"' then [] else [s[0]]) + RemoveQuotes(s[1..])
  }

  /** Text without quotes comes through unchanged. */
  predicate NoQuotes(s: string) {
    forall i :: 0 <= i < |s| ==> s[i] != '"'
  }

  lemma {:induction false} RemoveQuotesUnquoted(s: string)
    requires NoQuotes(s)
    ensures RemoveQuotes(s) == s
  {
    if s != [] {
      RemoveQuotesUnquoted(s[1..]);
    }
  }

  /** Quote removal works piecewise. */
  lemma {:induction false} RemoveQuotesConcat(a: string, b: string)
    ensures RemoveQuotes(a + b) == RemoveQuotes(a) + RemoveQuotes(b)
  {
    if a != [] {
      assert (a + b)[1..] == a[1..] + b;
      RemoveQuotesConcat(a[1..], b);
    } else {
      assert a + b == b;
    }
  }
}
