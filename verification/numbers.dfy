/**
 Decimal digits: `Int32.TryParse(string)` under `NumberStyles.Integer`,
 `Int32.ToString()`, and the fixed-width zero-padded digit fields of the
 `yyyy-MM-dd HH:mm:ss` date format.
 */
module Numbers {
  import opened Options
  import Text

  const MinInt32: int := -0x8000_0000
  const MaxInt32: int := 0x7FFF_FFFF

  predicate IsInt32(n: int) {
    MinInt32 <= n <= MaxInt32
  }

  /** Only the ASCII digits count: .NET number and date parsing reject other Unicode digits. */
  predicate IsDigit(c: char) {
    '0' <= c <= '9'
  }

  predicate AllDigits(s: string) {
    forall i :: 0 <= i < |s| ==> IsDigit(s[i])
  }

  function DigitChar(d: int): (c: char)
    requires 0 <= d < 10
    ensures IsDigit(c)
  {
    ('0' as int + d) as char
  }

  /** The value of a digit string, most significant digit first. */
  function DigitsValue(s: string): nat
    requires AllDigits(s)
  {
    if |s| == 0 then 0 else 10 * DigitsValue(s[..|s| - 1]) + (s[|s| - 1] as int - '0' as int)
  }

  function Pow10(w: nat): (p: nat)
    ensures p >= 1
  {
    if w == 0 then 1 else 10 * Pow10(w - 1)
  }

  /** A digit string of `w` digits is worth less than 10^w. */
  lemma {:induction false} DigitsValueBound(s: string)
    requires AllDigits(s)
    ensures DigitsValue(s) < Pow10(|s|)
  {
    if |s| > 0 {
      DigitsValueBound(s[..|s| - 1]);
    }
  }

  /** `n` written with exactly `w` digits, zero-padded on the left. */
  function PadDigits(n: nat, w: nat): (r: string)
    ensures |r| == w && AllDigits(r)
    ensures n < Pow10(w) ==> DigitsValue(r) == n
  {
    if w == 0 then []
    else
      var r := PadDigits(n / 10, w - 1) + [DigitChar(n % 10)];
      assert r[..|r| - 1] == PadDigits(n / 10, w - 1);
      r
  }

  /** `n` in decimal with no leading zeros (a lone "0" for zero). */
  function NatToDigits(n: nat): (r: string)
    ensures |r| >= 1 && AllDigits(r)
    ensures DigitsValue(r) == n
    ensures r[0] == '0' ==> n == 0
  {
    if n < 10 then [DigitChar(n)]
    else
      var r := NatToDigits(n / 10) + [DigitChar(n % 10)];
      assert r[..|r| - 1] == NatToDigits(n / 10);
      r
  }

  /** The characters `NumberStyles.AllowLeadingWhite`/`AllowTrailingWhite` skip. */
  predicate IsNumberWhite(c: char) {
    c == ' ' || ('\U{0009}' <= c <= '\U{000D}')
  }

  /**
   `Int32.TryParse(s, out n)`: optional surrounding number white space, an
   optional `+` or `-`, one or more ASCII digits, and a value inside the 32-bit
   range; anything else fails.
   */
  function ParseInt32(s: string): (r: Option<int>)
    ensures r.Some? ==> IsInt32(r.value)
    ensures r.Some? ==> exists i :: 0 <= i < |s| && IsDigit(s[i])
  {
    var t := Text.TrimWith(s, IsNumberWhite);
    var r := ParseSigned(t);
    if r.Some? then
      var i :| 0 <= i < |t| && IsDigit(t[i]);
      assert t[i] in s;
      r
    else r
  }

  /** The trimmed part of an integer: an optional `+` or `-`, then the digits. */
  function ParseSigned(t: string): (r: Option<int>)
    ensures r.Some? ==> IsInt32(r.value)
    ensures r.Some? ==> exists i :: 0 <= i < |t| && IsDigit(t[i])
  {
    if |t| > 0 && (t[0] == '-' || t[0] == '+') then
      var r := SignedValue(t[0] == '-', t[1..]);
      if r.Some? then
        assert t[1] in t;
        r
      else r
    else
      SignedValue(false, t)
  }

  /** One or more digits whose value, negated when `negative`, fits in 32 bits. */
  function SignedValue(negative: bool, digits: string): (r: Option<int>)
    ensures r.Some? ==> IsInt32(r.value) && |digits| > 0 && IsDigit(digits[0])
  {
    if |digits| == 0 || !AllDigits(digits) then None
    else
      var magnitude: int := DigitsValue(digits);
      var v := if negative then -magnitude else magnitude;
      if IsInt32(v) then Some(v) else None
  }

  /** A sign (or none) followed by digits is read as the signed value of the digits. */
  lemma SignedDigits(sign: string, d: string)
    requires sign == "" || sign == "+" || sign == "-"
    requires |d| > 0 && AllDigits(d)
    requires IsInt32(SignedDigitsValue(sign, d))
    ensures ParseSigned(sign + d) == Some(SignedDigitsValue(sign, d))
  {
    if sign == "" {
      assert sign + d == d;
      UnsignedDigits(d);
    } else {
      assert sign == [sign[0]];
      SignThenDigits(sign[0], d);
    }
  }

  /** Digits alone are read as their value. */
  lemma UnsignedDigits(d: string)
    requires |d| > 0 && AllDigits(d) && DigitsValue(d) <= MaxInt32
    ensures ParseSigned(d) == Some(DigitsValue(d) as int)
  {
    assert IsDigit(d[0]);
  }

  /** A `+` or `-` followed by digits is read as the signed value of the digits. */
  lemma SignThenDigits(c: char, d: string)
    requires c == '+' || c == '-'
    requires |d| > 0 && AllDigits(d)
    requires IsInt32(if c == '-' then -(DigitsValue(d) as int) else DigitsValue(d))
    ensures ParseSigned([c] + d) == Some(if c == '-' then -(DigitsValue(d) as int) else DigitsValue(d))
  {
    assert ([c] + d)[1..] == d;
  }

  /** `Int32.ToString()` with the invariant culture's `-` sign. */
  function Int32ToString(n: int): string {
    if n < 0 then "-" + NatToDigits(-n) else NatToDigits(n)
  }

  /** Every character of `w` is number white space. */
  predicate AllNumberWhite(w: string) {
    forall i :: 0 <= i < |w| ==> IsNumberWhite(w[i])
  }

  /**
   The texts `int.TryParse` accepts, cut into their parts: number white space
   `pre`, an optional `+` or `-`, one or more digits `d`, number white space `post`.
   */
  predicate IntegerText(pre: string, sign: string, d: string, post: string) {
    && AllNumberWhite(pre) && AllNumberWhite(post)
    && (sign == "" || sign == "+" || sign == "-")
    && |d| > 0 && AllDigits(d)
  }

  /** The value the digits `d` denote under `sign`. */
  function SignedDigitsValue(sign: string, d: string): int
    requires AllDigits(d)
  {
    if sign == "-" then -(DigitsValue(d) as int) else DigitsValue(d)
  }

  /**
   Any text of number white space, an optional `+` or `-`, one or more digits and
   more number white space is read as the signed value of its digits, leading
   zeros included, when that value fits in 32 bits.
   */
  lemma ParseInt32Reads(pre: string, sign: string, d: string, post: string)
    requires IntegerText(pre, sign, d, post)
    requires IsInt32(SignedDigitsValue(sign, d))
    ensures ParseInt32(pre + sign + d + post) == Some(SignedDigitsValue(sign, d))
  {
    var m := sign + d;
    SignedEnds(sign, d);
    var s := pre + sign + d + post;
    Regroup(pre, sign, d, post);
    Text.TrimWithSurrounded(pre, m, post, IsNumberWhite);
    SignedDigits(sign, d);
    assert ParseInt32(s) == ParseSigned(m);
  }

  /**
   Only such texts are accepted: a text `int.TryParse` accepts is number white
   space, an optional sign, digits and number white space, and it is read as
   the signed value of those digits.
   */
  lemma ParseInt32Shape(s: string)
    requires ParseInt32(s).Some?
    ensures exists pre, sign, d, post ::
      && s == pre + sign + d + post && IntegerText(pre, sign, d, post)
      && ParseInt32(s).value == SignedDigitsValue(sign, d)
  {
    Text.TrimWithIsSlice(s, IsNumberWhite);
    AroundTrimmed(s, Text.TrimWith(s, IsNumberWhite), |s| - |Text.TrimStartWith(s, IsNumberWhite)|);
  }

  /** A slice that reads as a sign and digits, with only number white space around it, is an integer text. */
  lemma AroundTrimmed(s: string, t: string, k: int)
    requires Text.TrimmedAt(s, t, k, IsNumberWhite)
    requires ParseSigned(t).Some?
    ensures exists pre, sign, d, post ::
      && s == pre + sign + d + post && IntegerText(pre, sign, d, post)
      && ParseSigned(t).value == SignedDigitsValue(sign, d)
  {
    ParseSignedShape(t);
    var sign, d :| t == sign + d && IntegerText("", sign, d, "") && ParseSigned(t).value == SignedDigitsValue(sign, d);
    WhiteAround(s, t, k);
    PlaceParts(s[..k], t, s[k + |t|..], sign, d);
  }

  /** Around a trimmed slice there is only number white space. */
  lemma WhiteAround(s: string, t: string, k: int)
    requires Text.TrimmedAt(s, t, k, IsNumberWhite)
    ensures s == s[..k] + t + s[k + |t|..]
    ensures AllNumberWhite(s[..k]) && AllNumberWhite(s[k + |t|..])
  {
    var post := s[k + |t|..];
    assert forall i :: 0 <= i < |post| ==> post[i] == s[k + |t| + i];
  }

  /** A sign and digits between two runs of number white space make an integer text. */
  lemma PlaceParts(pre: string, t: string, post: string, sign: string, d: string)
    requires AllNumberWhite(pre) && AllNumberWhite(post)
    requires t == sign + d && IntegerText("", sign, d, "")
    ensures IntegerText(pre, sign, d, post)
    ensures pre + t + post == pre + sign + d + post
  {
    Regroup(pre, sign, d, post);
  }

  /** A text `ParseSigned` accepts is a sign (or none) followed by digits, read as their signed value. */
  lemma ParseSignedShape(t: string)
    requires ParseSigned(t).Some?
    ensures exists sign, d ::
      && t == sign + d && IntegerText("", sign, d, "")
      && ParseSigned(t).value == SignedDigitsValue(sign, d)
  {
    if |t| > 0 && (t[0] == '-' || t[0] == '+') {
      assert t == [t[0]] + t[1..];
      assert IntegerText("", [t[0]], t[1..], "");
    } else {
      assert t == "" + t;
      assert IntegerText("", "", t, "");
    }
  }

  /** Concatenation regrouped around the middle two parts. */
  lemma Regroup(a: string, b: string, c: string, e: string)
    ensures a + b + c + e == a + (b + c) + e
  {
    assert (a + b) + c == a + (b + c);
  }

  /** A sign (or none) followed by digits neither starts nor ends with number white space. */
  lemma SignedEnds(sign: string, d: string)
    requires sign == "" || sign == "+" || sign == "-"
    requires |d| > 0 && AllDigits(d)
    ensures var m := sign + d; |m| > 0 && !IsNumberWhite(m[0]) && !IsNumberWhite(m[|m| - 1])
  {
    var m := sign + d;
    assert m[|m| - 1] == d[|d| - 1] && IsDigit(d[|d| - 1]);
    if sign == "" {
      assert m[0] == d[0] && IsDigit(d[0]);
    } else {
      assert m[0] == sign[0];
    }
  }

  /** Every 32-bit integer reads back from its own decimal text. */
  lemma ParseInt32RoundTrip(n: int)
    requires IsInt32(n)
    ensures ParseInt32(Int32ToString(n)) == Some(n)
    ensures ',' !in Int32ToString(n)
  {
    var s := Int32ToString(n);
    Text.TrimWithFixedPoint(s, IsNumberWhite);
    var d := NatToDigits(if n < 0 then -n else n);
    assert n < 0 ==> s[1..] == d;
    assert ',' !in d by {
      forall i | 0 <= i < |d| ensures d[i] != ',' {
        assert IsDigit(d[i]);
      }
    }
  }
}
