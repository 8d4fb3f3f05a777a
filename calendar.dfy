/** The proleptic Gregorian calendar as pandas uses it: parsing `%Y-%m-%d`
    strings into timestamps, and the `.dt.year`, `.dt.month`,
    `.dt.isocalendar().week` and `.dt.day_name()` accessors. Only the date part
    of a timestamp matters to the pipeline, so a timestamp is a `Date`. */
module Calendar {
  import opened Outcomes

  datatype Date = Date(year: int, month: int, day: int)

  predicate IsLeapYear(y: int) {
    y % 4 == 0 && (y % 100 != 0 || y % 400 == 0)
  }

  function DaysInYear(y: int): int {
    if IsLeapYear(y) then 366 else 365
  }

  function DaysInMonth(y: int, m: int): int
    requires 1 <= m <= 12
  {
    if m == 2 then (if IsLeapYear(y) then 29 else 28)
    else if m == 4 || m == 6 || m == 9 || m == 11 then 30
    else 31
  }

  predicate ValidDate(d: Date) {
    1 <= d.month <= 12 && 1 <= d.day <= DaysInMonth(d.year, d.month)
  }

  /** Days of year `y` that come before the first day of month `m`. */
  function DaysBeforeMonth(y: int, m: int): int
    requires 1 <= m <= 12
  {
    [0, 31, 59, 90, 120, 151, 181, 212, 243, 273, 304, 334][m - 1]
      + (if m > 2 && IsLeapYear(y) then 1 else 0)
  }

  /** The 1-based ordinal of `d` within its year. */
  function DayOfYear(d: Date): (n: int)
    requires ValidDate(d)
    ensures 1 <= n <= DaysInYear(d.year)
    ensures n <= 10 ==> d.month == 1
    ensures n >= 336 ==> d.month == 12 && DaysInYear(d.year) - n == 31 - d.day
  {
    DaysBeforeMonth(d.year, d.month) + d.day
  }

  /** Days from 0001-01-01 to the first day of year `y`. */
  function DaysBeforeYear(y: int): int {
    var p := y - 1;
    365 * p + p / 4 - p / 100 + p / 400
  }

  /** Days since 0001-01-01, a Monday: pandas orders timestamps by this count. */
  function DayNumber(d: Date): int
    requires ValidDate(d)
  {
    DaysBeforeYear(d.year) + DayOfYear(d) - 1
  }

  /** Day of the week, 0 for Monday through 6 for Sunday (pandas' `dayofweek`). */
  function Weekday(d: Date): (w: int)
    requires ValidDate(d)
    ensures 0 <= w < 7
  {
    DayNumber(d) % 7
  }

  const DayNames: seq<string> :=
    ["Monday", "Tuesday", "Wednesday", "Thursday", "Friday", "Saturday", "Sunday"]

  /** `Timestamp.day_name()`: the English name of the weekday. */
  function DayName(d: Date): string
    requires ValidDate(d)
  {
    DayNames[Weekday(d)]
  }

  /** The day after `d`. */
  function NextDay(d: Date): Date
    requires ValidDate(d)
  {
    if d.day < DaysInMonth(d.year, d.month) then Date(d.year, d.month, d.day + 1)
    else if d.month < 12 then Date(d.year, d.month + 1, 1)
    else Date(d.year + 1, 1, 1)
  }

  /** Timestamp comparison: earlier year, then earlier month, then earlier day. */
  predicate Before(a: Date, b: Date) {
    a.year < b.year
    || (a.year == b.year && a.month < b.month)
    || (a.year == b.year && a.month == b.month && a.day < b.day)
  }

  lemma YearLength(y: int)
    ensures DaysBeforeYear(y + 1) == DaysBeforeYear(y) + DaysInYear(y)
  {
    var p := y - 1;
    assert DaysBeforeYear(y + 1) == 365 * y + y / 4 - y / 100 + y / 400;
    assert DaysBeforeYear(y) == 365 * p + p / 4 - p / 100 + p / 400;
    DivStep4(y);
    DivStep100(y);
    DivStep400(y);
    NestedMultiples(y);
  }

  /** A multiple of 400 is one of 100, and a multiple of 100 is one of 4. */
  lemma NestedMultiples(y: int)
    ensures y % 400 == 0 ==> y % 100 == 0
    ensures y % 100 == 0 ==> y % 4 == 0
  {
    if y % 400 == 0 {
      MultipleOf400(y);
    }
    if y % 100 == 0 {
      MultipleOf100(y);
    }
  }

  lemma MultipleOf400(y: int)
    requires y % 400 == 0
    ensures y % 100 == 0
  {
    var q := y / 400;
    assert y == 100 * (4 * q);
  }

  lemma MultipleOf100(y: int)
    requires y % 100 == 0
    ensures y % 4 == 0
  {
    var q := y / 100;
    assert y == 4 * (25 * q);
  }

  /** Going from `y - 1` to `y`, the count of multiples of 4 (of 100, of 400)
      grows by one exactly when `y` is one. */
  lemma DivStep4(y: int)
    ensures y / 4 - (y - 1) / 4 == (if y % 4 == 0 then 1 else 0)
  {
    assert y == 4 * (y / 4) + y % 4;
  }

  lemma DivStep100(y: int)
    ensures y / 100 - (y - 1) / 100 == (if y % 100 == 0 then 1 else 0)
  {
    assert y == 100 * (y / 100) + y % 100;
  }

  lemma DivStep400(y: int)
    ensures y / 400 - (y - 1) / 400 == (if y % 400 == 0 then 1 else 0)
  {
    assert y == 400 * (y / 400) + y % 400;
  }

  /** Day numbers of consecutive days are consecutive, across month and year
      ends, so the weekday advances by one each day. */
  lemma NextDayNumber(d: Date)
    requires ValidDate(d)
    ensures ValidDate(NextDay(d))
    ensures DayNumber(NextDay(d)) == DayNumber(d) + 1
    ensures Weekday(NextDay(d)) == (Weekday(d) + 1) % 7
  {
    var n := NextDay(d);
    if d.day < DaysInMonth(d.year, d.month) {
      assert DayOfYear(n) == DayOfYear(d) + 1;
    } else if d.month < 12 {
      assert DaysBeforeMonth(d.year, d.month + 1) == DaysBeforeMonth(d.year, d.month) + DaysInMonth(d.year, d.month);
      assert DayOfYear(n) == DayOfYear(d) + 1;
    } else {
      YearLength(d.year);
      assert DayOfYear(d) == DaysInYear(d.year);
      assert DayOfYear(n) == 1;
    }
    assert DayNumber(n) == DayNumber(d) + 1;
    ModSucc(DayNumber(d));
  }

  lemma ModSucc(x: int)
    ensures (x + 1) % 7 == (x % 7 + 1) % 7
  {
    var q := x / 7;
    assert x == 7 * q + x % 7;
    if x % 7 == 6 {
      assert x + 1 == 7 * (q + 1);
    } else {
      assert x + 1 == 7 * q + (x % 7 + 1);
    }
  }

  lemma DaysBeforeYearMonotonic(y: int, z: int)
    requires y <= z
    ensures DaysBeforeYear(y) + 365 * (z - y) <= DaysBeforeYear(z)
    decreases z - y
  {
    if y < z {
      YearLength(y);
      DaysBeforeYearMonotonic(y + 1, z);
    }
  }

  /** Comparing two dates field by field agrees with comparing their day
      numbers, so `Before` is the chronological order pandas uses. */
  lemma {:induction false} BeforeIsChronological(a: Date, b: Date)
    requires ValidDate(a) && ValidDate(b)
    ensures Before(a, b) <==> DayNumber(a) < DayNumber(b)
    ensures a == b <==> DayNumber(a) == DayNumber(b)
  {
    if a.year < b.year {
      YearLength(a.year);
      DaysBeforeYearMonotonic(a.year + 1, b.year);
    } else if b.year < a.year {
      YearLength(b.year);
      DaysBeforeYearMonotonic(b.year + 1, a.year);
    }
  }

  // ---------------------------------------------------------------------------
  // ISO 8601 week numbers (`.dt.isocalendar().week`).

  /** The week number as pandas computes it: estimate from the day of the year
      and the weekday, then correct the estimate at both ends of the year. */
  function IsoWeek(d: Date): (w: int)
    requires ValidDate(d)
    ensures 1 <= w <= 53
  {
    var doy := DayOfYear(d);
    var dow := Weekday(d);
    var estimate := (doy - 1) - dow + 3;
    if estimate < 0 then
      if estimate > -2 || (estimate == -2 && IsLeapYear(d.year - 1)) then 53 else 52
    else if estimate / 7 + 1 == 53 && 31 - d.day + dow < 3 then 1
    else estimate / 7 + 1
  }

  /** The ISO year the week belongs to, which differs from the calendar year
      for week 1 in December and weeks 52/53 in January. */
  function IsoYear(d: Date): int
    requires ValidDate(d)
  {
    var w := IsoWeek(d);
    if w == 1 && d.month == 12 then d.year + 1
    else if w >= 52 && d.month == 1 then d.year - 1
    else d.year
  }

  /** Day number of the Thursday of the Monday-to-Sunday week holding `d`. */
  function ThursdayNumber(d: Date): int
    requires ValidDate(d)
  {
    DayNumber(d) - Weekday(d) + 3
  }

  /** The definition in ISO 8601 (section 4.1.4 of ISO 8601:2004): a week
      belongs to the year that holds its Thursday, and week 1 is the week of
      that year's first Thursday, so the week number counts the Thursday's
      seven-day blocks from the first of January. */
  ghost predicate IsIsoWeekOf(d: Date, y: int, w: int)
    requires ValidDate(d)
  {
    var t := ThursdayNumber(d);
    DaysBeforeYear(y) <= t < DaysBeforeYear(y + 1)
    && w == (t - DaysBeforeYear(y)) / 7 + 1
  }

  /** pandas' estimate-and-correct computation gives exactly the ISO week, and
      the ISO week number always lies in 1..53. */
  lemma IsoWeekIsThursdayWeek(d: Date)
    requires ValidDate(d)
    ensures IsIsoWeekOf(d, IsoYear(d), IsoWeek(d))
    ensures 1 <= IsoWeek(d) <= 53
  {
    var y := d.year;
    var doy := DayOfYear(d);
    var dow := Weekday(d);
    var e := (doy - 1) - dow + 3;
    assert ThursdayNumber(d) == DaysBeforeYear(y) + e;
    YearLength(y);
    YearLength(y - 1);
    if e < 0 {
      assert IsoYear(d) == y - 1;
    } else if e / 7 + 1 == 53 && 31 - d.day + dow < 3 {
      assert IsoYear(d) == y + 1;
    } else {
      assert IsoYear(d) == y;
    }
  }

  /** The neighbouring-year cases happen: 2012-12-31 is in week 1 (of 2013)
      and 2010-01-01 is in week 53 (of 2009). */
  lemma IsoWeekCrossesYears()
    ensures IsoWeek(Date(2012, 12, 31)) == 1 && IsoYear(Date(2012, 12, 31)) == 2013
    ensures IsoWeek(Date(2010, 1, 1)) == 53 && IsoYear(Date(2010, 1, 1)) == 2009
  {
  }

  // ---------------------------------------------------------------------------
  // Parsing and formatting `%Y-%m-%d` (ISO 8601 calendar date, extended format).

  /** pandas timestamps count nanoseconds in 64 bits; midnight of these two
      days are the first and last representable dates. */
  const MinTimestampDate := Date(1677, 9, 22)
  const MaxTimestampDate := Date(2262, 4, 11)

  predicate InTimestampRange(d: Date) {
    !Before(d, MinTimestampDate) && !Before(MaxTimestampDate, d)
  }

  predicate IsDigit(c: char) {
    '0' <= c <= '9'
  }

  function DigitValue(c: char): int
    requires IsDigit(c)
  {
    c as int - '0' as int
  }

  function DigitChar(n: int): char
    requires 0 <= n < 10
  {
    ('0' as int + n) as char
  }

  predicate AllDigits(s: string) {
    forall i :: 0 <= i < |s| ==> IsDigit(s[i])
  }

  /** The value of a run of decimal digits. */
  function DecimalValue(s: string): (n: int)
    requires AllDigits(s)
    ensures 0 <= n
  {
    if s == [] then 0 else 10 * DecimalValue(s[..|s| - 1]) + DigitValue(s[|s| - 1])
  }

  /** `n` written with exactly `width` digits, zero-padded on the left. */
  function ZeroPadded(n: int, width: nat): (s: string)
    requires 0 <= n
    ensures |s| == width && AllDigits(s)
  {
    if width == 0 then [] else ZeroPadded(n / 10, width - 1) + [DigitChar(n % 10)]
  }

  function Pow10(k: nat): (p: int)
    ensures p >= 1
  {
    if k == 0 then 1 else 10 * Pow10(k - 1)
  }

  lemma {:induction false} DecimalOfPadded(n: int, width: nat)
    requires 0 <= n < Pow10(width)
    ensures DecimalValue(ZeroPadded(n, width)) == n
  {
    if width > 0 {
      var s := ZeroPadded(n, width);
      assert s[..|s| - 1] == ZeroPadded(n / 10, width - 1);
      DecimalOfPadded(n / 10, width - 1);
    }
  }

  lemma {:induction false} PaddedOfDecimal(s: string)
    requires AllDigits(s)
    ensures DecimalValue(s) < Pow10(|s|)
    ensures ZeroPadded(DecimalValue(s), |s|) == s
  {
    if s != [] {
      var init := s[..|s| - 1];
      PaddedOfDecimal(init);
      var n := DecimalValue(s);
      assert n / 10 == DecimalValue(init) && n % 10 == DigitValue(s[|s| - 1]);
      assert s == init + [s[|s| - 1]];
    }
  }

  /** The year, month and day fields of `YYYY-M-D`: a four-digit year, then
      a month and a day of one or two digits each, separated by dashes. */
  function DateFields(s: string): (r: Option<(string, string, string)>)
    ensures r.Some? ==> s == r.value.0 + "-" + r.value.1 + "-" + r.value.2
    ensures r.Some? ==> |r.value.0| == 4 && 1 <= |r.value.1| <= 2 && 1 <= |r.value.2| <= 2
    ensures r.Some? ==> AllDigits(r.value.0) && AllDigits(r.value.1) && AllDigits(r.value.2)
  {
    if |s| < 8 || s[4] != '-' then None
    else if s[6] == '-' then DigitFields(s[..4], s[5..6], s[7..])
    else if |s| >= 9 && s[7] == '-' then DigitFields(s[..4], s[5..7], s[8..])
    else None
  }

  function DigitFields(y: string, m: string, d: string): (r: Option<(string, string, string)>)
    ensures r.Some? ==> r.value == (y, m, d) && AllDigits(y) && AllDigits(m) && AllDigits(d) && |d| <= 2
  {
    if AllDigits(y) && AllDigits(m) && AllDigits(d) && 1 <= |d| <= 2 then Some((y, m, d)) else None
  }

  /** `pd.to_datetime(s, format='%Y-%m-%d')` for one string. pandas reads this
      format with its ISO 8601 parser, whose month and day take one digit or
      two. The fields are read as decimal numbers; a string of another shape,
      a day that its month does not have, or a date outside the timestamp
      range is refused. */
  function ParseIsoDate(s: string): (r: Option<Date>)
    ensures r.Some? ==> ValidDate(r.value) && InTimestampRange(r.value)
  {
    match DateFields(s)
    case None => None
    case Some((y, m, d)) =>
      var date := Date(DecimalValue(y), DecimalValue(m), DecimalValue(d));
      if ValidDate(date) && InTimestampRange(date) then Some(date) else None
  }

  /** A date written with a four-digit year, its month in `wm` digits and its
      day in `wd` digits, zero-padded; `Spelled(d, 2, 2)` is
      `Timestamp.strftime('%Y-%m-%d')`. */
  function Spelled(d: Date, wm: nat, wd: nat): string
    requires 0 <= d.year && 0 <= d.month && 0 <= d.day
  {
    ZeroPadded(d.year, 4) + "-" + ZeroPadded(d.month, wm) + "-" + ZeroPadded(d.day, wd)
  }

  /** `s` is one of the texts the parser reads as `d`: a representable date,
      with month and day each in one or two digits, as many as they need. */
  predicate Spells(s: string, d: Date, wm: nat, wd: nat) {
    && ValidDate(d) && InTimestampRange(d)
    && 1 <= wm <= 2 && 1 <= wd <= 2 && d.month < Pow10(wm) && d.day < Pow10(wd)
    && Spelled(d, wm, wd) == s
  }

  /** Every representable date parses back from each of its spellings, the
      zero-padded `%Y-%m-%d` text among them. */
  lemma ParseSpelled(d: Date, wm: nat, wd: nat)
    requires ValidDate(d) && InTimestampRange(d)
    requires 1 <= wm <= 2 && 1 <= wd <= 2 && d.month < Pow10(wm) && d.day < Pow10(wd)
    ensures 0 <= d.year < 10000
    ensures ParseIsoDate(Spelled(d, wm, wd)) == Some(d)
  {
    var s := Spelled(d, wm, wd);
    var y, m, dd := ZeroPadded(d.year, 4), ZeroPadded(d.month, wm), ZeroPadded(d.day, wd);
    assert s == y + "-" + m + "-" + dd;
    assert Pow10(4) == 10000 && Pow10(2) == 100 && Pow10(1) == 10;
    if wm == 1 {
      assert s[..4] == y && s[5..6] == m && s[7..] == dd && s[6] == '-';
    } else {
      assert s[6] == m[1] && IsDigit(m[1]);
      assert s[..4] == y && s[5..7] == m && s[8..] == dd && s[7] == '-';
    }
    assert DateFields(s) == Some((y, m, dd));
    DecimalOfPadded(d.year, 4);
    DecimalOfPadded(d.month, wm);
    DecimalOfPadded(d.day, wd);
  }

  /** An accepted string is a spelling of the date it denotes, so no two
      dates share a text. */
  lemma FormatParsed(s: string)
    requires ParseIsoDate(s).Some?
    ensures exists wm: nat, wd: nat :: Spells(s, ParseIsoDate(s).value, wm, wd)
  {
    var (y, m, dd) := DateFields(s).value;
    PaddedOfDecimal(y);
    PaddedOfDecimal(m);
    PaddedOfDecimal(dd);
    assert Pow10(4) == 10000;
    assert Spells(s, ParseIsoDate(s).value, |m|, |dd|);
  }

  /** One-digit month and day fields are read as written. */
  lemma OneDigitFields()
    ensures ParseIsoDate("2010-2-5") == Some(Date(2010, 2, 5))
  {
    ParseSpelled(Date(2010, 2, 5), 1, 1);
    assert Spelled(Date(2010, 2, 5), 1, 1) == "2010-2-5";
  }
}
