/**
 The .NET string operations the order pipeline relies on: `String.Split(char)`,
 `String.Trim()`, and ordinal case-insensitive equality
 (`StringComparison.OrdinalIgnoreCase`).
 */
module Text {

  /** Number of occurrences of `c` in `s`. */
  function Occurrences(s: string, c: char): nat {
    if |s| == 0 then 0 else (if s[0] == c then 1 else 0) + Occurrences(s[1..], c)
  }

  /** The parts separated by `sep`, glued back together; the inverse of `Split`. */
  function Join(parts: seq<string>, sep: char): string
    requires |parts| >= 1
  {
    if |parts| == 1 then parts[0] else parts[0] + [sep] + Join(parts[1..], sep)
  }

  /**
   `String.Split(sep)` without options: every occurrence of `sep` starts a new
   part, empty parts are kept, and the empty string gives one empty part.
   */
  function Split(s: string, sep: char): (r: seq<string>)
    ensures |r| == Occurrences(s, sep) + 1
    ensures forall k :: 0 <= k < |r| ==> sep !in r[k]
    ensures Join(r, sep) == s
  {
    if |s| == 0 then [""]
    else
      var rest := Split(s[1..], sep);
      if s[0] == sep then
        var r := [""] + rest;
        assert r[1..] == rest;
        assert s == [] + [sep] + s[1..];
        r
      else
        var r := [[s[0]] + rest[0]] + rest[1..];
        assert s == [s[0]] + s[1..];
        if |rest| == 1 then r
        else
          assert r[1..] == rest[1..];
          assert Join(rest, sep) == rest[0] + [sep] + Join(rest[1..], sep);
          r
  }

  lemma {:induction false} NoSeparatorInJoin(parts: seq<string>, sep: char)
    requires |parts| >= 1
    requires forall k :: 0 <= k < |parts| ==> sep !in parts[k]
    ensures sep in Join(parts, sep) <==> |parts| > 1
  {
    if |parts| > 1 {
      var j := Join(parts, sep);
      assert j[|parts[0]|] == sep;
    }
  }

  /** The text before the first `sep` (all of `s` when there is none). */
  function BeforeFirst(s: string, sep: char): string {
    if |s| == 0 || s[0] == sep then [] else [s[0]] + BeforeFirst(s[1..], sep)
  }

  lemma {:induction false} BeforeFirstSeparator(x: string, u: string, sep: char)
    requires sep !in x
    ensures BeforeFirst(x + [sep] + u, sep) == x
  {
    if |x| > 0 {
      assert (x + [sep] + u)[1..] == x[1..] + [sep] + u;
      BeforeFirstSeparator(x[1..], u, sep);
    }
  }

  /** The text before the first separator is determined by the whole string. */
  lemma SeparatedPrefix(x: string, y: string, u: string, v: string, sep: char)
    requires sep !in x && sep !in y
    requires x + [sep] + u == y + [sep] + v
    ensures x == y && u == v
  {
    var j := x + [sep] + u;
    BeforeFirstSeparator(x, u, sep);
    BeforeFirstSeparator(y, v, sep);
    assert u == j[|x| + 1..] == v;
  }

  /** Two separator-free part lists with the same join are the same list. */
  lemma {:induction false} JoinInjective(a: seq<string>, b: seq<string>, sep: char)
    requires |a| >= 1 && |b| >= 1
    requires forall k :: 0 <= k < |a| ==> sep !in a[k]
    requires forall k :: 0 <= k < |b| ==> sep !in b[k]
    requires Join(a, sep) == Join(b, sep)
    ensures a == b
    decreases |a|
  {
    NoSeparatorInJoin(a, sep);
    NoSeparatorInJoin(b, sep);
    if |a| > 1 {
      SeparatedPrefix(a[0], b[0], Join(a[1..], sep), Join(b[1..], sep), sep);
      JoinInjective(a[1..], b[1..], sep);
      assert a == [a[0]] + a[1..];
      assert b == [b[0]] + b[1..];
    }
  }

  /** Splitting a line assembled from separator-free fields gives those fields back. */
  lemma SplitJoin(parts: seq<string>, sep: char)
    requires |parts| >= 1
    requires forall k :: 0 <= k < |parts| ==> sep !in parts[k]
    ensures Split(Join(parts, sep), sep) == parts
  {
    JoinInjective(Split(Join(parts, sep), sep), parts, sep);
  }

  /** `s` without its longest prefix of `white` characters. */
  function TrimStartWith(s: string, white: char -> bool): (r: string)
    ensures |r| <= |s| && r == s[|s| - |r|..]
    ensures forall i :: 0 <= i < |s| - |r| ==> white(s[i])
    ensures |r| > 0 ==> !white(r[0])
  {
    if |s| > 0 && white(s[0]) then
      var r := TrimStartWith(s[1..], white);
      assert forall i :: 1 <= i < |s| - |r| ==> s[i] == s[1..][i - 1];
      assert s[1..][|s| - 1 - |r|..] == s[|s| - |r|..];
      r
    else s
  }

  /** `s` without its longest suffix of `white` characters. */
  function TrimEndWith(s: string, white: char -> bool): (r: string)
    ensures |r| <= |s| && r == s[..|r|]
    ensures forall i :: |r| <= i < |s| ==> white(s[i])
    ensures |r| > 0 ==> !white(r[|r| - 1])
  {
    if |s| > 0 && white(s[|s| - 1]) then
      var init := s[..|s| - 1];
      var r := TrimEndWith(init, white);
      assert forall i :: |r| <= i < |init| ==> s[i] == init[i];
      assert init[..|r|] == s[..|r|];
      r
    else s
  }

  /** `r` is the slice of `s` at `k`, with only `white` characters before and after it. */
  predicate TrimmedAt(s: string, r: string, k: int, white: char -> bool) {
    && 0 <= k <= |s| - |r| && r == s[k..k + |r|]
    && (forall i :: 0 <= i < k ==> white(s[i]))
    && (forall i :: k + |r| <= i < |s| ==> white(s[i]))
  }

  /**
   Trimming keeps the text between the white characters it removes: the result
   is the slice of `s` after its white prefix, with only white characters after it.
   */
  lemma TrimWithIsSlice(s: string, white: char -> bool)
    ensures TrimmedAt(s, TrimWith(s, white), |s| - |TrimStartWith(s, white)|, white)
  {
    TrimBothEnds(s, white);
  }

  /** Removing the white prefix and then the white suffix leaves a slice with only white around it. */
  lemma TrimBothEnds(s: string, white: char -> bool)
    ensures TrimmedAt(s, TrimEndWith(TrimStartWith(s, white), white), |s| - |TrimStartWith(s, white)|, white)
  {
    SuffixOfSuffix(s, TrimStartWith(s, white), TrimEndWith(TrimStartWith(s, white), white), white);
  }

  /**
   A prefix `r` of a suffix `t` of `s`, where `t` follows only white characters
   and `r` is followed only by white ones, is a slice of `s` with only white around it.
   */
  lemma SuffixOfSuffix(s: string, t: string, r: string, white: char -> bool)
    requires |t| <= |s| && t == s[|s| - |t|..]
    requires forall i :: 0 <= i < |s| - |t| ==> white(s[i])
    requires |r| <= |t| && r == t[..|r|]
    requires forall i :: |r| <= i < |t| ==> white(t[i])
    ensures TrimmedAt(s, r, |s| - |t|, white)
  {
    var k := |s| - |t|;
    assert t[..|r|] == s[k..k + |r|];
    forall i | k + |r| <= i < |s| ensures white(s[i]) {
      assert s[i] == t[i - k];
    }
  }

  /** `s` with the `white` characters removed from both ends. */
  function TrimWith(s: string, white: char -> bool): (r: string)
    ensures |r| > 0 ==> !white(r[0]) && !white(r[|r| - 1])
    ensures forall c :: c in r ==> c in s
    ensures r == [] <==> forall i :: 0 <= i < |s| ==> white(s[i])
  {
    var t := TrimStartWith(s, white);
    var r := TrimEndWith(t, white);
    var k := |s| - |t|;
    TrimBothEnds(s, white);
    assert |t| > 0 ==> t[0] == s[k];
    r
  }

  /**
   Trimming a text made of white characters, a middle part that neither starts
   nor ends with one, and more white characters gives exactly the middle part.
   */
  lemma TrimWithSurrounded(a: string, m: string, b: string, white: char -> bool)
    requires forall i :: 0 <= i < |a| ==> white(a[i])
    requires forall i :: 0 <= i < |b| ==> white(b[i])
    requires |m| > 0 && !white(m[0]) && !white(m[|m| - 1])
    ensures TrimWith(a + m + b, white) == m
  {
    var s := a + m + b;
    TrimBothEnds(s, white);
    MiddleIsTrimmed(a, m, b, TrimWith(s, white), |s| - |TrimStartWith(s, white)|, white);
  }

  /** A trimmed slice of `a + m + b` whose ends are not white is `m` itself. */
  lemma MiddleIsTrimmed(a: string, m: string, b: string, r: string, k: int, white: char -> bool)
    requires forall i :: 0 <= i < |a| ==> white(a[i])
    requires forall i :: 0 <= i < |b| ==> white(b[i])
    requires |m| > 0 && !white(m[0]) && !white(m[|m| - 1])
    requires TrimmedAt(a + m + b, r, k, white)
    requires |r| > 0 ==> !white(r[0]) && !white(r[|r| - 1])
    ensures r == m
  {
    var s := a + m + b;
    var lo, hi := |a|, |a| + |m|;
    assert s[lo] == m[0] && s[hi - 1] == m[|m| - 1];
    assert forall i :: 0 <= i < lo ==> white(s[i]) by {
      assert forall i :: 0 <= i < lo ==> s[i] == a[i];
    }
    assert forall i :: hi <= i < |s| ==> white(s[i]) by {
      assert forall i :: hi <= i < |s| ==> s[i] == b[i - hi];
    }
    TrimmedAtIsUnique(s, r, k, white, lo, hi);
    assert s[lo..hi] == m;
  }

  /**
   A trimmed slice whose ends are not white sits exactly between the first and
   the last non-white character of the text.
   */
  lemma TrimmedAtIsUnique(s: string, r: string, k: int, white: char -> bool, lo: int, hi: int)
    requires TrimmedAt(s, r, k, white)
    requires |r| > 0 ==> !white(r[0]) && !white(r[|r| - 1])
    requires 0 <= lo < hi <= |s| && !white(s[lo]) && !white(s[hi - 1])
    requires forall i :: 0 <= i < lo ==> white(s[i])
    requires forall i :: hi <= i < |s| ==> white(s[i])
    ensures k == lo && k + |r| == hi
  {
    assert k <= lo && hi <= k + |r|;
    assert s[k] == r[0] && s[k + |r| - 1] == r[|r| - 1];
  }

  /** Trimming leaves a string alone exactly when it has no `white` character at either end. */
  lemma TrimWithFixedPoint(s: string, white: char -> bool)
    ensures TrimWith(s, white) == s <==> |s| == 0 || (!white(s[0]) && !white(s[|s| - 1]))
  {
  }

  /**
   `Char.IsWhiteSpace`: the Unicode separators (categories Zs, Zl, Zp) plus the
   control characters U+0009..U+000D and U+0085.
   */
  predicate IsWhiteSpace(c: char) {
    || ('\U{0009}' <= c <= '\U{000D}')
    || c == ' ' || c == '\U{0085}' || c == '\U{00A0}' || c == '\U{1680}'
    || ('\U{2000}' <= c <= '\U{200A}')
    || c == '\U{2028}' || c == '\U{2029}' || c == '\U{202F}' || c == '\U{205F}' || c == '\U{3000}'
  }

  /** `String.Trim()`. */
  function Trim(s: string): string {
    TrimWith(s, IsWhiteSpace)
  }

  /** Trimming twice is trimming once. */
  lemma TrimIdempotent(s: string)
    ensures Trim(Trim(s)) == Trim(s)
  {
    TrimWithFixedPoint(Trim(s), IsWhiteSpace);
  }

  /**
   The upper-case partner of `c` as ordinal case-insensitive comparison sees it:
   ASCII letters and the basic Cyrillic block (U+0400..U+045F) are folded; every
   other character is its own partner.
   */
  function ToUpper(c: char): char {
    if 'a' <= c <= 'z' then (c as int - 32) as char
    else if '\U{0430}' <= c <= '\U{044F}' then (c as int - 32) as char
    else if '\U{0450}' <= c <= '\U{045F}' then (c as int - 80) as char
    else c
  }

  /** `a.Equals(b, StringComparison.OrdinalIgnoreCase)`. */
  predicate EqualsIgnoreCase(a: string, b: string) {
    |a| == |b| && forall i :: 0 <= i < |a| ==> ToUpper(a[i]) == ToUpper(b[i])
  }

  /** Case-insensitive equality is an equivalence relation. */
  lemma EqualsIgnoreCaseEquivalence(a: string, b: string, c: string)
    ensures EqualsIgnoreCase(a, a)
    ensures EqualsIgnoreCase(a, b) ==> EqualsIgnoreCase(b, a)
    ensures EqualsIgnoreCase(a, b) && EqualsIgnoreCase(b, c) ==> EqualsIgnoreCase(a, c)
  {
  }
}
