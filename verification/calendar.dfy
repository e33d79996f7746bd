/**
 The slice of `System.DateTime` the order pipeline uses: proleptic Gregorian
 dates in years 1..9999 with whole-second precision, their position on the
 time line (`Ticks` divided by 10^7), the two exact formats
 `yyyy-MM-dd HH:mm:ss` and `yyyy-MM-dd HH:mm` read by `TryParseExact` with the
 invariant culture, and rendering in the first of them.
 */
module Calendar {
  import opened Options
  import opened Numbers

  datatype DateTime = DateTime(year: int, month: int, day: int, hour: int, minute: int, second: int)

  predicate IsLeapYear(y: int) {
    y % 4 == 0 && (y % 100 != 0 || y % 400 == 0)
  }

  function DaysInYear(y: int): int {
    if IsLeapYear(y) then 366 else 365
  }

  function DaysInMonth(y: int, m: int): int
    requires 1 <= m <= 12
  {
    if m == 2 then (if IsLeapYear(y) then 29 else 28)
    else if m == 4 || m == 6 || m == 9 || m == 11 then 30
    else 31
  }

  /** A date and time `DateTime` can represent. */
  predicate Valid(t: DateTime) {
    && 1 <= t.year <= 9999
    && 1 <= t.month <= 12
    && 1 <= t.day <= DaysInMonth(t.year, t.month)
    && 0 <= t.hour < 24
    && 0 <= t.minute < 60
    && 0 <= t.second < 60
  }

  /** The values a .NET `DateTime` can actually hold (at whole-second precision). */
  type ValidDateTime = t: DateTime | Valid(t) witness DateTime(1, 1, 1, 0, 0, 0)

  /** Days from 0001-01-01 to the first of January of year `y`. */
  function DaysBeforeYear(y: int): int
    requires y >= 1
  {
    var p := y - 1;
    365 * p + p / 4 - p / 100 + p / 400
  }

  /** Days from the first of January of year `y` to the first of month `m`. */
  function DaysBeforeMonth(y: int, m: int): nat
    requires 1 <= m <= 12
  {
    if m == 1 then 0 else DaysBeforeMonth(y, m - 1) + DaysInMonth(y, m - 1)
  }

  function DayNumber(t: DateTime): int
    requires Valid(t)
  {
    DaysBeforeYear(t.year) + DaysBeforeMonth(t.year, t.month) + t.day - 1
  }

  function SecondOfDay(t: DateTime): int {
    t.hour * 3600 + t.minute * 60 + t.second
  }

  /**
   Seconds elapsed since 0001-01-01 00:00:00: `DateTime.Ticks / 10^7`. Comparing
   two `DateTime`s and adding minutes to one work on this number.
   */
  function Instant(t: DateTime): int
    requires Valid(t)
  {
    DayNumber(t) * 86400 + SecondOfDay(t)
  }

  /** `DateTime.MaxValue` (9999-12-31 23:59:59.9999999) truncated to whole seconds. */
  const MaxInstant: int := 315537897599

  /** Calendar order: the fields compared one after another, most significant first. */
  predicate Before(a: DateTime, b: DateTime) {
    || a.year < b.year
    || (a.year == b.year && a.month < b.month)
    || (a.year == b.year && a.month == b.month && a.day < b.day)
    || (a.year == b.year && a.month == b.month && a.day == b.day && SecondOfDay(a) < SecondOfDay(b))
  }

  /** One more year brings one more leap-rule multiple of 4, 100 or 400 exactly when the year is one. */
  lemma MultiplesStep(p: int)
    requires p >= 0
    ensures (p + 1) / 4 == p / 4 + (if (p + 1) % 4 == 0 then 1 else 0)
    ensures (p + 1) / 100 == p / 100 + (if (p + 1) % 100 == 0 then 1 else 0)
    ensures (p + 1) / 400 == p / 400 + (if (p + 1) % 400 == 0 then 1 else 0)
  {
    assert p == 4 * (p / 4) + p % 4;
    assert p == 100 * (p / 100) + p % 100;
    assert p == 400 * (p / 400) + p % 400;
  }

  /** Multiples of 400 are multiples of 100, and those are multiples of 4. */
  lemma MultiplesNest(y: int)
    ensures y % 100 == 0 ==> y % 4 == 0
    ensures y % 400 == 0 ==> y % 100 == 0
  {
    var q := y / 100;
    assert y == 100 * q + y % 100;
    assert 100 * q == 4 * (25 * q);
    var h := y / 400;
    assert y == 400 * h + y % 400;
    assert 400 * h == 100 * (4 * h);
  }

  lemma YearStep(y: int)
    requires y >= 1
    ensures DaysBeforeYear(y + 1) == DaysBeforeYear(y) + DaysInYear(y)
  {
    var p := y - 1;
    MultiplesStep(p);
    MultiplesNest(y);
    assert DaysBeforeYear(y + 1) == 365 * (p + 1) + (p + 1) / 4 - (p + 1) / 100 + (p + 1) / 400;
    assert DaysBeforeYear(y) == 365 * p + p / 4 - p / 100 + p / 400;
  }

  lemma {:induction false} YearsMonotone(y1: int, y2: int)
    requires 1 <= y1 < y2
    ensures DaysBeforeYear(y1) + DaysInYear(y1) <= DaysBeforeYear(y2)
    decreases y2 - y1
  {
    YearStep(y1);
    if y1 + 1 < y2 {
      YearsMonotone(y1 + 1, y2);
    }
  }

  lemma {:induction false} MonthsMonotone(y: int, m1: int, m2: int)
    requires 1 <= m1 < m2 <= 12
    ensures DaysBeforeMonth(y, m1) + DaysInMonth(y, m1) <= DaysBeforeMonth(y, m2)
    decreases m2 - m1
  {
    if m1 + 1 < m2 {
      MonthsMonotone(y, m1 + 1, m2);
    }
  }

  lemma MonthsFitInYear(y: int, m: int)
    requires 1 <= m <= 12
    ensures DaysBeforeMonth(y, m) + DaysInMonth(y, m) <= DaysInYear(y)
  {
    if m < 12 {
      MonthsMonotone(y, m, 12);
    }
  }

  /** A valid date's day number lies inside its own year. */
  lemma DayNumberInYear(t: DateTime)
    requires Valid(t)
    ensures DaysBeforeYear(t.year) <= DayNumber(t) < DaysBeforeYear(t.year) + DaysInYear(t.year)
  {
    MonthsFitInYear(t.year, t.month);
  }

  /** Every representable date and time lies between `DateTime.MinValue` and `DateTime.MaxValue`. */
  lemma InstantRange(t: DateTime)
    requires Valid(t)
    ensures 0 <= Instant(t) <= MaxInstant
  {
    DayNumberInYear(t);
    if t.year < 9999 {
      YearsMonotone(t.year, 9999);
    }
    assert DaysBeforeYear(9999) + DaysInYear(9999) == 3652059;
  }

  lemma BeforeIsEarlier(a: DateTime, b: DateTime)
    requires Valid(a) && Valid(b)
    requires Before(a, b)
    ensures Instant(a) < Instant(b)
  {
    DayNumberInYear(a);
    DayNumberInYear(b);
    if a.year < b.year {
      YearsMonotone(a.year, b.year);
    } else if a.month < b.month {
      MonthsMonotone(a.year, a.month, b.month);
    }
  }

  /**
   Comparing instants is comparing calendar fields: `DateTime`'s `<` agrees with
   calendar order, and two valid dates share an instant only when they are equal.
   */
  lemma InstantOrder(a: DateTime, b: DateTime)
    requires Valid(a) && Valid(b)
    ensures Instant(a) < Instant(b) <==> Before(a, b)
    ensures Instant(a) == Instant(b) <==> a == b
  {
    if Before(a, b) {
      BeforeIsEarlier(a, b);
    } else if Before(b, a) {
      BeforeIsEarlier(b, a);
    } else {
      assert a.year == b.year && a.month == b.month && a.day == b.day;
      assert a.hour == b.hour && a.minute == b.minute && a.second == b.second;
    }
  }

  function Checked(t: DateTime): Option<DateTime> {
    if Valid(t) then Some(t) else None
  }

  /** `s` starts with the shape `yyyy-MM-dd HH:mm` that both accepted formats share. */
  predicate MinuteShape(s: string) {
    && |s| >= 16
    && AllDigits(s[0..4]) && s[4] == '-'
    && AllDigits(s[5..7]) && s[7] == '-'
    && AllDigits(s[8..10]) && s[10] == ' '
    && AllDigits(s[11..13]) && s[13] == ':'
    && AllDigits(s[14..16])
  }

  /** The calendar fields a `MinuteShape` string spells, with the given seconds. */
  function ReadFields(s: string, second: int): DateTime
    requires MinuteShape(s)
  {
    DateTime(DigitsValue(s[0..4]), DigitsValue(s[5..7]), DigitsValue(s[8..10]),
             DigitsValue(s[11..13]), DigitsValue(s[14..16]), second)
  }

  /** `DateTime.TryParseExact(s, "yyyy-MM-dd HH:mm:ss", InvariantCulture, DateTimeStyles.None)`. */
  function ParseWithSeconds(s: string): (r: Option<DateTime>)
    ensures r.Some? ==> Valid(r.value) && |s| == 19
  {
    if |s| == 19 && MinuteShape(s) && s[16] == ':' && AllDigits(s[17..19])
    then Checked(ReadFields(s, DigitsValue(s[17..19])))
    else None
  }

  /** `DateTime.TryParseExact(s, "yyyy-MM-dd HH:mm", InvariantCulture, DateTimeStyles.None)`: seconds are zero. */
  function ParseWithMinutes(s: string): (r: Option<DateTime>)
    ensures r.Some? ==> Valid(r.value) && r.value.second == 0 && |s| == 16
  {
    if |s| == 16 && MinuteShape(s) then Checked(ReadFields(s, 0)) else None
  }

  /** The `yyyy-MM-dd HH:mm` part that both formats share, rendered from `t`. */
  function FormatMinutes(t: DateTime): (s: string)
    requires Valid(t)
  {
    PadDigits(t.year, 4) + "-" + PadDigits(t.month, 2) + "-" + PadDigits(t.day, 2) + " "
    + PadDigits(t.hour, 2) + ":" + PadDigits(t.minute, 2)
  }

  /** `t.ToString("yyyy-MM-dd HH:mm:ss")`. */
  function FormatWithSeconds(t: DateTime): (s: string)
    requires Valid(t)
  {
    FormatMinutes(t) + ":" + PadDigits(t.second, 2)
  }

  /** A rendered minute part has the shared shape and spells the fields of `t`. */
  lemma FormatMinutesShape(t: DateTime)
    requires Valid(t)
    ensures var s := FormatMinutes(t);
      && |s| == 16 && MinuteShape(s)
      && s[0..4] == PadDigits(t.year, 4) && s[5..7] == PadDigits(t.month, 2) && s[8..10] == PadDigits(t.day, 2)
      && s[11..13] == PadDigits(t.hour, 2) && s[14..16] == PadDigits(t.minute, 2)
      && ',' !in s
  {
    var s := FormatMinutes(t);
    var y, mo, d := PadDigits(t.year, 4), PadDigits(t.month, 2), PadDigits(t.day, 2);
    var h, mi := PadDigits(t.hour, 2), PadDigits(t.minute, 2);
    assert s[0..4] == y && s[5..7] == mo && s[8..10] == d;
    assert s[11..13] == h && s[14..16] == mi;
    forall i | 0 <= i < |s| ensures s[i] != ',' {
      assert IsDigit(s[i]) || s[i] in "- :";
    }
  }

  /** A rendered timestamp has the seconds format's shape and spells the fields of `t`. */
  lemma FormatWithSecondsShape(t: DateTime)
    requires Valid(t)
    ensures var s := FormatWithSeconds(t);
      && |s| == 19 && MinuteShape(s) && s[16] == ':' && AllDigits(s[17..19])
      && s[0..4] == PadDigits(t.year, 4) && s[5..7] == PadDigits(t.month, 2) && s[8..10] == PadDigits(t.day, 2)
      && s[11..13] == PadDigits(t.hour, 2) && s[14..16] == PadDigits(t.minute, 2) && s[17..19] == PadDigits(t.second, 2)
      && ',' !in s
  {
    var m := FormatMinutes(t);
    var se := PadDigits(t.second, 2);
    var s := FormatWithSeconds(t);
    FormatMinutesShape(t);
    assert s[..16] == m && s[16] == ':' && s[17..19] == se;
    ExtendsMinutePart(m, s);
    assert ',' !in s by {
      assert forall i :: 0 <= i < |se| ==> IsDigit(se[i]);
      assert forall i :: 0 <= i < |s| ==> s[i] in m || s[i] == ':' || s[i] in se;
    }
  }

  /** A text that starts with a minute part has the shared shape, with the same fields. */
  lemma ExtendsMinutePart(m: string, s: string)
    requires |m| == 16 && MinuteShape(m) && |s| >= 16 && s[..16] == m
    ensures MinuteShape(s)
    ensures s[0..4] == m[0..4] && s[5..7] == m[5..7] && s[8..10] == m[8..10]
    ensures s[11..13] == m[11..13] && s[14..16] == m[14..16]
  {
    var p := s[..16];
    assert p[0..4] == s[0..4] && p[5..7] == s[5..7] && p[8..10] == s[8..10];
    assert p[11..13] == s[11..13] && p[14..16] == s[14..16];
    assert p[4] == s[4] && p[7] == s[7] && p[10] == s[10] && p[13] == s[13];
  }

  /** A rendered timestamp is read back by the first format the order parser tries, to the same date and time. */
  lemma FormatThenParse(t: DateTime)
    requires Valid(t)
    ensures ParseWithSeconds(FormatWithSeconds(t)) == Some(t)
    ensures ',' !in FormatWithSeconds(t)
  {
    var s := FormatWithSeconds(t);
    FormatWithSecondsShape(t);
    assert ReadFields(s, DigitsValue(s[17..19])) == t;
  }

  /**
   A valid time with zero seconds, rendered as `yyyy-MM-dd HH:mm`, is read back by
   the fallback format of the order parser as the same date and time.
   */
  lemma FormatMinutesThenParse(t: DateTime)
    requires Valid(t) && t.second == 0
    ensures ParseWithMinutes(FormatMinutes(t)) == Some(t)
  {
    FormatMinutesShape(t);
    assert ReadFields(FormatMinutes(t), 0) == t;
  }

  /** Exact-width digit fields: rendering their value again restores the text. */
  lemma {:induction false} PadDigitsOfValue(s: string)
    requires AllDigits(s)
    ensures PadDigits(DigitsValue(s), |s|) == s
  {
    if |s| > 0 {
      var init := s[..|s| - 1];
      PadDigitsOfValue(init);
      assert s == init + [s[|s| - 1]];
    }
  }

  /** The minute part of a text with the shared shape is reproduced by rendering the fields it spells. */
  lemma MinutePartRenders(s: string, second: int)
    requires MinuteShape(s) && Valid(ReadFields(s, second))
    ensures FormatMinutes(ReadFields(s, second)) == s[..16]
  {
    PadDigitsOfValue(s[0..4]);
    PadDigitsOfValue(s[5..7]);
    PadDigitsOfValue(s[8..10]);
    PadDigitsOfValue(s[11..13]);
    PadDigitsOfValue(s[14..16]);
    assert s[..16] == s[0..4] + "-" + s[5..7] + "-" + s[8..10] + " " + s[11..13] + ":" + s[14..16];
  }

  /** Parsing and rendering are inverse: an accepted seconds-format text is exactly the rendering of what it denotes. */
  lemma ParseThenFormat(s: string)
    requires ParseWithSeconds(s).Some?
    ensures FormatWithSeconds(ParseWithSeconds(s).value) == s
  {
    var t := ParseWithSeconds(s).value;
    assert FormatMinutes(t) == s[..16] by {
      assert t == ReadFields(s, DigitsValue(s[17..19]));
      MinutePartRenders(s, t.second);
    }
    assert PadDigits(t.second, 2) == s[17..19] by {
      assert t.second == DigitsValue(s[17..19]);
      PadDigitsOfValue(s[17..19]);
    }
    assert s == s[..16] + ":" + s[17..19] by {
      assert s[16] == ':';
    }
  }

  /** A minute-precision text is rendered back with `:00` appended. */
  lemma MinutesRenderWithZeroSeconds(s: string)
    requires ParseWithMinutes(s).Some?
    ensures FormatWithSeconds(ParseWithMinutes(s).value) == s + ":00"
  {
    var t := ParseWithMinutes(s).value;
    assert FormatMinutes(t) == s by {
      assert t == ReadFields(s, 0);
      MinutePartRenders(s, 0);
      assert s[..16] == s;
    }
    assert PadDigits(t.second, 2) == "00" by {
      assert t.second == 0;
    }
    assert (s + ":") + "00" == s + ":00";
  }
}
