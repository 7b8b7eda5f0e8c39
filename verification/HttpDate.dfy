/** The HTTP date formatter of src/http_date.rs, checked against closed-form Gregorian day
    counts.  The format is IMF-fixdate, section 7.1.1.1 of RFC 7231. */
module HttpDate {
  const TWO32: nat := 0x1_0000_0000

  predicate IsLeap(y: nat) {
    (y % 4 == 0 && y % 100 != 0) || y % 400 == 0
  }

  function MonthLengths(leap: bool): seq<nat> {
    if leap then [31, 29, 31, 30, 31, 30, 31, 31, 30, 31, 30, 31]
    else [31, 28, 31, 30, 31, 30, 31, 31, 30, 31, 30, 31]
  }

  // ----- The calendar in closed form -----

  ghost predicate ValidDate(y: nat, m: nat, d: nat) {
    1 <= m <= 12 && 1 <= d <= MonthLengths(IsLeap(y))[m - 1]
  }

  /** Days from 1970-01-01 to January 1 of a year; 477 leap days precede 1970. */
  ghost function DaysBeforeYear(y: nat): int {
    365 * (y - 1970) + (y - 1) / 4 - (y - 1) / 100 + (y - 1) / 400 - 477
  }

  ghost function DaysBeforeMonth(leap: bool, m: nat): nat
    requires 1 <= m <= 12
  {
    [0, 31, 59, 90, 120, 151, 181, 212, 243, 273, 304, 334][m - 1] + if leap && m > 2 then 1 else 0
  }

  /** The day count of a date. */
  ghost function DayNumber(y: nat, m: nat, d: nat): int
    requires 1 <= m <= 12
  {
    DaysBeforeYear(y) + DaysBeforeMonth(IsLeap(y), m) + d - 1
  }

  lemma YearStep(y: nat)
    requires y >= 1
    ensures DaysBeforeYear(y + 1) == DaysBeforeYear(y) + if IsLeap(y) then 366 else 365
  {
    Cycle4(y);
    Cycle100(y);
    Cycle400(y);
  }

  lemma Cycle4(y: nat)
    requires y >= 1
    ensures y / 4 - (y - 1) / 4 == if y % 4 == 0 then 1 else 0
  {
  }

  lemma Cycle100(y: nat)
    requires y >= 1
    ensures y / 100 - (y - 1) / 100 == if y % 100 == 0 then 1 else 0
    ensures y % 100 == 0 ==> y % 4 == 0
  {
    NextQuotient(y, 100, y / 100, y % 100);
    if y % 100 == 0 {
      Remainder(y, 4, 25 * (y / 100));
    }
  }

  lemma Cycle400(y: nat)
    requires y >= 1
    ensures y / 400 - (y - 1) / 400 == if y % 400 == 0 then 1 else 0
    ensures y % 400 == 0 ==> y % 100 == 0
  {
    NextQuotient(y, 400, y / 400, y % 400);
    if y % 400 == 0 {
      Remainder(y, 100, 4 * (y / 400));
    }
  }

  lemma Remainder(x: nat, n: nat, q: nat)
    requires n > 0 && x == n * q
    ensures x % n == 0
  {
    Quotient(x, n, q, 0);
  }

  /** The quotient grows by 1 at the multiples. */
  lemma NextQuotient(y: nat, n: nat, q: nat, r: nat)
    requires n > 1 && y >= 1 && y == n * q + r && r < n
    ensures y / n - (y - 1) / n == if r == 0 then 1 else 0
  {
    Quotient(y, n, q, r);
    if r > 0 {
      Quotient(y - 1, n, q, r - 1);
    } else {
      assert q > 0;
      Quotient(y - 1, n, q - 1, n - 1);
    }
  }

  lemma Quotient(x: nat, n: nat, q: nat, r: nat)
    requires n > 0 && x == n * q + r && r < n
    ensures x / n == q
  {
    var d: int := x / n - q;
    assert n * d == r - x % n;
    Multiples(n, d);
  }

  lemma Multiples(n: nat, d: int)
    ensures d >= 1 ==> n * d >= n
    ensures d <= -1 ==> n * d + n <= 0
  {
  }

  lemma MonthStep(leap: bool, m: nat)
    requires 1 <= m < 12
    ensures DaysBeforeMonth(leap, m + 1) == DaysBeforeMonth(leap, m) + MonthLengths(leap)[m - 1]
  {
  }

  lemma {:induction false} YearsAscend(y: nat, z: nat)
    requires 1 <= y < z
    ensures DaysBeforeYear(y) + (if IsLeap(y) then 366 else 365) <= DaysBeforeYear(z)
    decreases z
  {
    if y + 1 == z {
      YearStep(y);
    } else {
      YearsAscend(y, z - 1);
      YearStep(z - 1);
    }
  }

  lemma {:induction false} MonthsAscend(leap: bool, m: nat, n: nat)
    requires 1 <= m < n <= 12
    ensures DaysBeforeMonth(leap, m) + MonthLengths(leap)[m - 1] <= DaysBeforeMonth(leap, n)
    decreases n - m
  {
    MonthStep(leap, m);
    if m + 1 < n {
      MonthsAscend(leap, m + 1, n);
    }
  }

  ghost predicate Earlier(y: nat, m: nat, d: nat, y': nat, m': nat, d': nat) {
    y < y' || (y == y' && (m < m' || (m == m' && d < d')))
  }

  lemma WithinYear(y: nat, m: nat, d: nat)
    requires ValidDate(y, m, d)
    ensures 0 <= DaysBeforeMonth(IsLeap(y), m) + d - 1 < if IsLeap(y) then 366 else 365
  {
    if m < 12 {
      MonthsAscend(IsLeap(y), m, 12);
    }
  }

  lemma EarlierIsSmaller(y: nat, m: nat, d: nat, y': nat, m': nat, d': nat)
    requires y >= 1 && ValidDate(y, m, d) && ValidDate(y', m', d') && Earlier(y, m, d, y', m', d')
    ensures DayNumber(y, m, d) < DayNumber(y', m', d')
  {
    WithinYear(y, m, d);
    WithinYear(y', m', d');
    if y < y' {
      YearsAscend(y, y');
    } else if m < m' {
      MonthsAscend(IsLeap(y), m, m');
    }
  }

  /** Later days are lexicographically later dates; so a day number names one date. */
  lemma DateOrder(y: nat, m: nat, d: nat, y': nat, m': nat, d': nat)
    requires y >= 1 && y' >= 1 && ValidDate(y, m, d) && ValidDate(y', m', d')
    ensures DayNumber(y, m, d) < DayNumber(y', m', d') <==> Earlier(y, m, d, y', m', d')
    ensures DayNumber(y, m, d) == DayNumber(y', m', d') <==> (y, m, d) == (y', m', d')
  {
    if Earlier(y, m, d, y', m', d') {
      EarlierIsSmaller(y, m, d, y', m', d');
    } else if Earlier(y', m', d', y, m, d) {
      EarlierIsSmaller(y', m', d', y, m, d);
    }
  }

  // ----- The conversion loops -----

  /** The Gregorian date with closed-form day number `days`. */
  ghost predicate IsDate(days: nat, y: nat, m: nat, d: nat) {
    y >= 1970 && ValidDate(y, m, d) && DayNumber(y, m, d) == days
  }

  /** `days_to_date`: the date of a day count.  The year is cut to 32 bits on return, so it is the
      true year exactly when that fits. */
  method DaysToDate(days: nat) returns (year: nat, month: nat, day: nat)
    ensures exists y: nat :: IsDate(days, y, month, day) && year == y % 0x1_0000_0000
  {
    var left: nat, y: nat := days, 1970;
    while true
      invariant y >= 1970 && left + DaysBeforeYear(y) == days
      decreases left
    {
      var dy := if IsLeap(y) then 366 else 365;
      YearStep(y);
      if left < dy {
        break;
      }
      left := left - dy;
      y := y + 1;
    }
    var months := MonthLengths(IsLeap(y));
    ghost var dayOfYear := left;
    assert dayOfYear < if IsLeap(y) then 366 else 365;
    var m: nat := 0;
    while m < 12
      invariant m <= 11
      invariant left + DaysBeforeMonth(IsLeap(y), m + 1) == dayOfYear
      decreases 12 - m
    {
      if left < months[m] {
        break;
      }
      assert m < 11;
      MonthStep(IsLeap(y), m + 1);
      left := left - months[m];
      m := m + 1;
    }
    year, month, day := y % TWO32, m + 1, left + 1;
    assert IsDate(days, y, month, day);
  }

  // ----- Day of the week -----

  /** The congruence of Sakamoto for the day of the week (0 is Sunday): an independent closed form. */
  ghost function Weekday(y: nat, m: nat, d: nat): int
    requires 1 <= m <= 12 && y >= 1
  {
    var z := if m < 3 then y - 1 else y;
    (z + z / 4 - z / 100 + z / 400 + [0, 3, 2, 5, 0, 3, 5, 1, 4, 6, 2, 4][m - 1] + d) % 7
  }

  /** Whole weeks between January 1 and the first of a month, up to the offset in the congruence. */
  lemma MonthOffset(m: nat) returns (weeks: int)
    requires 1 <= m <= 12
    ensures DaysBeforeMonth(false, m)
         == [0, 3, 2, 5, 0, 3, 5, 1, 4, 6, 2, 4][m - 1] + (if m < 3 then 0 else 1) + 7 * weeks
  {
    weeks := [0, 4, 8, 12, 17, 21, 25, 30, 34, 38, 43, 47][m - 1];
  }

  lemma SameWeekday(a: int, b: int, weeks: int)
    requires a == b + 7 * weeks
    ensures a % 7 == b % 7
  {
  }

  lemma WeekdayOfDay(y: nat, m: nat, d: nat)
    requires y >= 1 && ValidDate(y, m, d)
    ensures (DayNumber(y, m, d) + 4) % 7 == Weekday(y, m, d)
  {
    YearStep(y);
    var weeks := MonthOffset(m);
    var z := if m < 3 then y - 1 else y;
    var sum := z + z / 4 - z / 100 + z / 400 + [0, 3, 2, 5, 0, 3, 5, 1, 4, 6, 2, 4][m - 1] + d;
    SameWeekday(DayNumber(y, m, d) + 4, sum, 52 * y - 102789 + weeks);
  }

  // ----- Rendering -----

  const WEEKDAYS := ["Sun", "Mon", "Tue", "Wed", "Thu", "Fri", "Sat"]
  const MONTHS := ["Jan", "Feb", "Mar", "Apr", "May", "Jun", "Jul", "Aug", "Sep", "Oct", "Nov", "Dec"]

  function Digit(n: nat): char
    requires n < 10
  {
    ('0' as int + n) as char
  }

  function Decimal(n: nat): (s: string)
    ensures |s| >= 1
  {
    if n < 10 then [Digit(n)] else Decimal(n / 10) + [Digit(n % 10)]
  }

  /** Zero-padding on the left to a width. */
  function Pad(s: string, width: nat): (r: string)
    ensures |r| >= width
    decreases width - |s|
  {
    if |s| >= width then s else Pad("0" + s, width)
  }

  function TwoDigits(n: nat): string { Pad(Decimal(n), 2) }

  function Render(weekday: nat, day: nat, month: nat, year: nat, h: nat, m: nat, s: nat): string
    requires weekday < 7 && 1 <= month <= 12
  {
    WEEKDAYS[weekday] + ", " + TwoDigits(day) + " " + MONTHS[month - 1] + " " + Pad(Decimal(year), 4)
    + " " + TwoDigits(h) + ":" + TwoDigits(m) + ":" + TwoDigits(s) + " GMT"
  }

  lemma SplitSeconds(secs: nat)
    ensures var tod := secs % 86400;
            && secs == secs / 86400 * 86400 + tod
            && tod / 3600 < 24 && tod % 3600 / 60 < 60 && tod % 60 < 60
            && tod == tod / 3600 * 3600 + tod % 3600 / 60 * 60 + tod % 60
  {
    SplitTime(secs % 86400);
  }

  lemma SplitTime(tod: nat)
    requires tod < 86400
    ensures tod / 3600 < 24 && tod % 3600 / 60 < 60
    ensures tod == tod / 3600 * 3600 + tod % 3600 / 60 * 60 + tod % 60
  {
    var r := tod % 3600;
    assert tod == tod / 3600 * 3600 + r;
    assert r == r / 60 * 60 + r % 60;
    assert tod == 60 * (tod / 3600 * 60 + r / 60) + r % 60;
  }

  /** A calendar date with a time of day. */
  datatype Stamp = Stamp(year: nat, month: nat, day: nat, hour: nat, minute: nat, second: nat)

  ghost predicate ValidStamp(st: Stamp) {
    && st.year >= 1970 && ValidDate(st.year, st.month, st.day)
    && st.hour < 24 && st.minute < 60 && st.second < 60
  }

  /** The stamp recombines to `secs` seconds since the epoch. */
  ghost predicate IsStamp(secs: nat, st: Stamp) {
    && ValidStamp(st)
    && secs == DayNumber(st.year, st.month, st.day) * 86400 + st.hour * 3600 + st.minute * 60 + st.second
  }

  /** A stamp as text, with the weekday of its date and its year cut to 32 bits. */
  ghost function Text(st: Stamp): string
    requires st.year >= 1 && 1 <= st.month <= 12
  {
    Render(Weekday(st.year, st.month, st.day), st.day, st.month, st.year % TWO32, st.hour, st.minute, st.second)
  }

  /** The whole of `format`: calendar date, day of the week and time of day of a second count. */
  method Format(secs: nat) returns (text: string)
    ensures exists st :: IsStamp(secs, st) && text == Text(st)
  {
    var days := secs / 86400;
    var tod := secs % 86400;
    var hour, minute, second := tod / 3600, tod % 3600 / 60, tod % 60;
    var weekday := (days + 4) % 7;
    var year, month, day := DaysToDate(days);
    ghost var y: nat :| IsDate(days, y, month, day) && year == y % TWO32;
    ghost var st := Stamp(y, month, day, hour, minute, second);
    SecondsOfStamp(secs, days, st);
    text := Render(weekday, day, month, year, hour, minute, second);
    assert IsStamp(secs, st) && text == Text(st);
  }

  lemma SecondsOfStamp(secs: nat, days: nat, st: Stamp)
    requires days == secs / 86400 && IsDate(days, st.year, st.month, st.day)
    requires st.hour == secs % 86400 / 3600 && st.minute == secs % 86400 % 3600 / 60
    requires st.second == secs % 86400 % 60
    ensures IsStamp(secs, st) && (days + 4) % 7 == Weekday(st.year, st.month, st.day)
  {
    SplitSeconds(secs);
    WeekdayOfDay(st.year, st.month, st.day);
  }

  // ----- Reading the text back -----

  ghost function Value(s: string): int {
    if s == "" then 0 else 10 * Value(s[..|s| - 1]) + (s[|s| - 1] as int - '0' as int)
  }

  lemma {:induction false} DecimalValue(n: nat)
    ensures Value(Decimal(n)) == n
  {
    if n < 10 {
      assert [Digit(n)][..0] == "";
    } else {
      DecimalValue(n / 10);
      assert Decimal(n)[..|Decimal(n)| - 1] == Decimal(n / 10);
    }
  }

  lemma {:induction false} ZeroInFront(s: string)
    ensures Value("0" + s) == Value(s)
  {
    if s == "" {
      assert "0" + s == "0" && "0"[..0] == "";
    } else {
      ZeroInFront(s[..|s| - 1]);
      assert ("0" + s)[..|s|] == "0" + s[..|s| - 1];
    }
  }

  lemma {:induction false} PadValue(s: string, width: nat)
    ensures Value(Pad(s, width)) == Value(s)
    decreases width - |s|
  {
    if |s| < width {
      ZeroInFront(s);
      PadValue("0" + s, width);
    }
  }

  lemma TwoDigitsValue(n: nat)
    requires n < 100
    ensures |TwoDigits(n)| == 2 && Value(TwoDigits(n)) == n
  {
    DecimalValue(n);
    PadValue(Decimal(n), 2);
    if n >= 10 { assert Decimal(n) == [Digit(n / 10)] + [Digit(n % 10)]; }
  }

  lemma YearValue(n: nat)
    ensures Value(Pad(Decimal(n), 4)) == n
  {
    DecimalValue(n);
    PadValue(Decimal(n), 4);
  }

  /** The text has its fields at fixed places from the two ends, and each field reads back as the
      number or name given. */
  ghost predicate ReadsBack(t: string, weekday: nat, day: nat, month: nat, year: nat, h: nat, m: nat, s: nat)
    requires weekday < 7 && 1 <= month <= 12
  {
    && |t| >= 29
    && t[..3] == WEEKDAYS[weekday]
    && Value(t[5..7]) == day
    && t[8..11] == MONTHS[month - 1]
    && Value(t[12..|t| - 13]) == year
    && Value(t[|t| - 12..|t| - 10]) == h
    && Value(t[|t| - 9..|t| - 7]) == m
    && Value(t[|t| - 6..|t| - 4]) == s
    && Separated(t)
  }

  /** The punctuation of an IMF-fixdate. */
  ghost predicate Separated(t: string)
    requires |t| >= 29
  {
    && t[3] == ',' && t[4] == ' ' && t[7] == ' ' && t[11] == ' '
    && t[|t| - 13] == ' ' && t[|t| - 10] == ':' && t[|t| - 7] == ':'
    && t[|t| - 4] == ' ' && t[|t| - 3] == 'G' && t[|t| - 2] == 'M' && t[|t| - 1] == 'T'
  }

  lemma RenderReadsBack(weekday: nat, day: nat, month: nat, year: nat, h: nat, m: nat, s: nat)
    requires weekday < 7 && 1 <= month <= 12 && day < 100 && h < 100 && m < 100 && s < 100
    ensures ReadsBack(Render(weekday, day, month, year, h, m, s), weekday, day, month, year, h, m, s)
  {
    TwoDigitsValue(day);
    TwoDigitsValue(h);
    TwoDigitsValue(m);
    TwoDigitsValue(s);
    YearValue(year);
    var t := Render(weekday, day, month, year, h, m, s);
    var dd, yy, hh, mm, ss := TwoDigits(day), Pad(Decimal(year), 4), TwoDigits(h), TwoDigits(m), TwoDigits(s);
    NamesAreShort(weekday, month - 1);
    FieldsInPlace(WEEKDAYS[weekday], dd, MONTHS[month - 1], yy, hh, mm, ss);
  }

  lemma NamesAreShort(weekday: nat, month: nat)
    requires weekday < 7 && month < 12
    ensures |WEEKDAYS[weekday]| == 3 && |MONTHS[month]| == 3
  {
  }

  lemma FieldsInPlace(wd: string, dd: string, mo: string, yy: string, hh: string, mm: string, ss: string)
    requires |wd| == |mo| == 3 && |dd| == |hh| == |mm| == |ss| == 2 && |yy| >= 4
    ensures var t := wd + ", " + dd + " " + mo + " " + yy + " " + hh + ":" + mm + ":" + ss + " GMT";
            && |t| == |yy| + 25
            && t[..3] == wd && t[5..7] == dd && t[8..11] == mo && t[12..|t| - 13] == yy
            && t[|t| - 12..|t| - 10] == hh && t[|t| - 9..|t| - 7] == mm && t[|t| - 6..|t| - 4] == ss
            && Separated(t)
  {
  }

  lemma MonthNamesDiffer(i: nat, j: nat)
    requires i < 12 && j < 12 && MONTHS[i] == MONTHS[j]
    ensures i == j
  {
    assert MONTHS[i][1] == MONTHS[j][1] && MONTHS[i][2] == MONTHS[j][2];
  }

  /** The fields of the text read back as those of the stamp. */
  ghost predicate Shows(t: string, st: Stamp) {
    && 1 <= st.month <= 12 && st.year >= 1
    && ReadsBack(t, Weekday(st.year, st.month, st.day), st.day, st.month, st.year, st.hour, st.minute, st.second)
  }

  /** Every field but the year has two digits at most. */
  ghost predicate Short(st: Stamp) {
    && st.year >= 1 && 1 <= st.month <= 12 && st.day < 100
    && st.hour < 100 && st.minute < 100 && st.second < 100
  }

  lemma ValidIsShort(st: Stamp)
    requires ValidStamp(st)
    ensures Short(st)
  {
  }

  lemma TextShows(st: Stamp)
    requires Short(st) && st.year < TWO32
    ensures Shows(Text(st), st)
  {
    assert st.year % TWO32 == st.year;
    RenderReadsBack(Weekday(st.year, st.month, st.day), st.day, st.month, st.year, st.hour, st.minute, st.second);
  }

  lemma ShowsOneStamp(t: string, st: Stamp, st': Stamp)
    requires Shows(t, st) && Shows(t, st')
    ensures st == st'
  {
    MonthNamesDiffer(st.month - 1, st'.month - 1);
  }

  lemma TimesDiffer(h: nat, m: nat, s: nat, h': nat, m': nat, s': nat, d: int, d': int)
    requires h < 24 && m < 60 && s < 60 && h' < 24 && m' < 60 && s' < 60
    requires d * 86400 + h * 3600 + m * 60 + s == d' * 86400 + h' * 3600 + m' * 60 + s'
    ensures (d, h, m, s) == (d', h', m', s')
  {
    var minutes, minutes' := d * 1440 + h * 60 + m, d' * 1440 + h' * 60 + m';
    assert 60 * (minutes - minutes') == s' - s;
    var hours, hours' := d * 24 + h, d' * 24 + h';
    assert minutes == minutes' && 60 * (hours - hours') == m' - m;
    assert hours == hours' && 24 * (d - d') == h' - h;
  }

  /** The text names its second: two second counts with the same text are the same, as long as the
      years fit in 32 bits. */
  lemma TextNamesSecond(secs: nat, st: Stamp, secs': nat, st': Stamp)
    requires IsStamp(secs, st) && IsStamp(secs', st') && st.year < TWO32 && st'.year < TWO32
    ensures Text(st) == Text(st') <==> secs == secs'
  {
    if Text(st) == Text(st') {
      ValidIsShort(st);
      ValidIsShort(st');
      TextShows(st);
      TextShows(st');
      ShowsOneStamp(Text(st), st, st');
    }
    if secs == secs' {
      TimesDiffer(st.hour, st.minute, st.second, st'.hour, st'.minute, st'.second,
                  DayNumber(st.year, st.month, st.day), DayNumber(st'.year, st'.month, st'.day));
      DateOrder(st.year, st.month, st.day, st'.year, st'.month, st'.day);
    }
  }

  /** The names, read off one string each. */
  lemma WeekdayNames(i: nat, k: nat)
    requires i < 7 && k < 3
    ensures |WEEKDAYS[i]| == 3 && WEEKDAYS[i][k] == "SunMonTueWedThuFriSat"[3 * i + k]
  {
  }

  lemma MonthNames(i: nat, k: nat)
    requires i < 12 && k < 3
    ensures |MONTHS[i]| == 3 && MONTHS[i][k] == "JanFebMarAprMayJunJulAugSepOctNovDec"[3 * i + k]
  {
  }
}
