/** Timestamps: the parser the merge runs on every line, against the calendar it has to agree with.
The calendar is counted year by year and month by month; the parser uses a closed form on a March
based year. Timestamps have the RFC 3339 (section 5.6) shape `2006-01-02T15:04:05[.fraction]Z`. */
module Calendar {

  // ------------------------------------------------------------------ the calendar

  predicate Leap(y: int) {
    y % 4 == 0 && (y % 100 != 0 || y % 400 == 0)
  }

  function YearLength(y: int): int {
    if Leap(y) then 366 else 365
  }

  function MonthLength(y: int, m: int): int
    requires 1 <= m <= 12
  {
    if m == 2 then (if Leap(y) then 29 else 28)
    else if m == 4 || m == 6 || m == 9 || m == 11 then 30
    else 31
  }

  /** Days from the first of January 1970 to the first of January of y. */
  function DaysToYear(y: int): int
    decreases if y >= 1970 then y - 1970 else 1970 - y
  {
    if y == 1970 then 0
    else if y > 1970 then DaysToYear(y - 1) + YearLength(y - 1)
    else DaysToYear(y + 1) - YearLength(y)
  }

  /** Days from the first of January to the first of month m. */
  function DaysToMonth(y: int, m: int): int
    requires 1 <= m <= 12
    decreases m
  {
    if m == 1 then 0 else DaysToMonth(y, m - 1) + MonthLength(y, m - 1)
  }

  datatype Civil = Civil(year: int, month: int, day: int, hour: int, minute: int, second: int, nanos: int)

  function Days(y: int, m: int, d: int): int
    requires 1 <= m <= 12
  {
    DaysToYear(y) + DaysToMonth(y, m) + d - 1
  }

  const DAY: int := 86400
  const SECOND: int := 1_000_000_000

  /** Nanoseconds since the epoch. Day, hour, minute and second need not be in range. */
  function Nanos(c: Civil): int
    requires 1 <= c.month <= 12
  {
    (Days(c.year, c.month, c.day) * DAY + c.hour * 3600 + c.minute * 60 + c.second) * SECOND + c.nanos
  }

  // ------------------------------------------------------------------ the closed form

  function LeapsBefore(y: int): int {
    y / 4 - y / 100 + y / 400
  }

  lemma LeapStep(y: int)
    ensures LeapsBefore(y) == LeapsBefore(y - 1) + if Leap(y) then 1 else 0
  {
    DivStep(y, 4);
    DivStep(y, 100);
    DivStep(y, 400);
  }

  lemma DivStep(y: int, n: int)
    requires n == 4 || n == 100 || n == 400
    ensures y / n == (y - 1) / n + if y % n == 0 then 1 else 0
  {
  }

  /** Year lengths add up to a closed form. */
  lemma {:induction false} YearsAddUp(y: int)
    ensures DaysToYear(y) == 365 * (y - 1970) + LeapsBefore(y - 1) - 477
    decreases if y >= 1970 then y - 1970 else 1970 - y
  {
    if y > 1970 {
      YearsAddUp(y - 1);
      LeapStep(y - 1);
    } else if y < 1970 {
      YearsAddUp(y + 1);
      LeapStep(y);
    }
  }

  /** The 400-year split the parser makes. */
  lemma EraSplit(yy: int)
    requires yy >= 0
    ensures var era, yoe := yy / 400, yy % 400;
            era * 146097 + yoe * 365 + yoe / 4 - yoe / 100 == 365 * yy + LeapsBefore(yy)
  {
    var era, yoe := yy / 400, yy % 400;
    assert yy == 400 * era + yoe;
    assert yy / 4 == 100 * era + yoe / 4;
    assert yy / 100 == 4 * era + yoe / 100;
  }

  /** Days since the first of March of the March-based year holding month m. */
  lemma MonthsAddUp(y: int, m: int)
    requires 1 <= m <= 12
    ensures var mp := (m + 9) % 12;
            DaysToMonth(y, m) == (153 * mp + 2) / 5 + (if m <= 2 then -306 else 59 + if Leap(y) then 1 else 0)
  {
    assert DaysToMonth(y, 2) == 31;
    assert DaysToMonth(y, 3) == 59 + if Leap(y) then 1 else 0;
    if m > 3 { MonthsFrom(y, m); }
  }

  lemma {:induction false} MonthsFrom(y: int, m: int)
    requires 3 <= m <= 12
    ensures DaysToMonth(y, m) == DaysToMonth(y, 3) + (153 * (m - 3) + 2) / 5
  {
    if m > 3 { MonthsFrom(y, m - 1); }
  }

  /** The parser's day number. */
  function FastDays(year: int, mo: int, dy: int): int {
    var yy := if mo <= 2 then year - 1 else year;
    var era := yy / 400;
    var yoe := yy - era * 400;
    var mp := (mo + 9) % 12;
    var doy := (153 * mp + 2) / 5 + dy - 1;
    era * 146097 + (yoe * 365 + yoe / 4 - yoe / 100 + doy) - 719468
  }

  /** The closed form counts the calendar, for every year from 1, every month and any day number. */
  lemma FastDaysRight(year: int, mo: int, dy: int)
    requires year >= 1 && 1 <= mo <= 12
    ensures FastDays(year, mo, dy) == Days(year, mo, dy)
  {
    var yy := if mo <= 2 then year - 1 else year;
    EraSplit(yy);
    YearsAddUp(year);
    MonthsAddUp(year, mo);
    LeapStep(year);
  }

  // ------------------------------------------------------------------ order

  predicate ValidCivil(c: Civil) {
    && 1 <= c.month <= 12 && 1 <= c.day <= MonthLength(c.year, c.month)
    && 0 <= c.hour < 24 && 0 <= c.minute < 60 && 0 <= c.second < 60 && 0 <= c.nanos < SECOND
  }

  /** Calendar order: the first field that differs decides. */
  predicate Earlier(a: Civil, b: Civil) {
    if a.year != b.year then a.year < b.year
    else if a.month != b.month then a.month < b.month
    else if a.day != b.day then a.day < b.day
    else if a.hour != b.hour then a.hour < b.hour
    else if a.minute != b.minute then a.minute < b.minute
    else if a.second != b.second then a.second < b.second
    else a.nanos < b.nanos
  }

  lemma {:induction false} YearsGrow(a: int, b: int)
    requires a < b
    ensures DaysToYear(a) + YearLength(a) <= DaysToYear(b)
    decreases b - a
  {
    if b == a + 1 {
      assert a >= 1970 ==> DaysToYear(b) == DaysToYear(a) + YearLength(a);
      assert a < 1970 ==> DaysToYear(a) == DaysToYear(b) - YearLength(a);
    } else {
      YearsGrow(a, b - 1);
      YearsGrow(b - 1, b);
    }
  }

  lemma {:induction false} MonthsGrow(y: int, a: int, b: int)
    requires 1 <= a < b <= 12
    ensures DaysToMonth(y, a) + MonthLength(y, a) <= DaysToMonth(y, b)
    decreases b - a
  {
    if b > a + 1 { MonthsGrow(y, a, b - 1); }
  }

  lemma MonthFits(y: int, m: int)
    requires 1 <= m <= 12
    ensures DaysToMonth(y, m) + MonthLength(y, m) <= YearLength(y)
  {
    if m < 12 { MonthsGrow(y, m, 12); }
    MonthsFrom(y, 12);
    assert DaysToMonth(y, 2) == 31;
  }

  lemma {:induction false} MonthNonNegative(y: int, m: int)
    requires 1 <= m <= 12
    ensures DaysToMonth(y, m) >= 0
  {
    if m > 1 { MonthNonNegative(y, m - 1); }
  }

  lemma DaysGrow(a: Civil, b: Civil)
    requires ValidCivil(a) && ValidCivil(b)
    requires a.year < b.year || (a.year == b.year && (a.month < b.month || (a.month == b.month && a.day < b.day)))
    ensures Days(a.year, a.month, a.day) < Days(b.year, b.month, b.day)
  {
    if a.year < b.year {
      YearsGrow(a.year, b.year);
      MonthFits(a.year, a.month);
      MonthNonNegative(b.year, b.month);
    } else if a.month < b.month {
      MonthsGrow(a.year, a.month, b.month);
    }
  }

  /** Calendar order is instant order, strictly: distinct timestamps get distinct keys. */
  lemma NanosMonotone(a: Civil, b: Civil)
    requires ValidCivil(a) && ValidCivil(b) && Earlier(a, b)
    ensures Nanos(a) < Nanos(b)
  {
    if a.year != b.year || a.month != b.month || a.day != b.day { DaysGrow(a, b); }
    var da, db := Days(a.year, a.month, a.day), Days(b.year, b.month, b.day);
    var sa := a.hour * 3600 + a.minute * 60 + a.second;
    var sb := b.hour * 3600 + b.minute * 60 + b.second;
    assert 0 <= sa < DAY && 0 <= sb < DAY;
    assert da * DAY + sa < db * DAY + sb || (da * DAY + sa == db * DAY + sb && a.nanos < b.nanos);
  }

  // ------------------------------------------------------------------ every instant has a date

  lemma YearNext(y: int)
    ensures DaysToYear(y + 1) == DaysToYear(y) + YearLength(y)
  {
    assert y >= 1970 ==> DaysToYear(y + 1) == DaysToYear(y) + YearLength(y);
    assert y < 1970 ==> DaysToYear(y) == DaysToYear(y + 1) - YearLength(y);
  }

  predicate InYear(n: int, y: int) {
    DaysToYear(y) <= n < DaysToYear(y) + YearLength(y)
  }

  /** The year of a day, at or after y. */
  lemma {:induction false} YearAfter(n: int, y: int) returns (r: int)
    requires n >= DaysToYear(y)
    ensures InYear(n, r)
    decreases n - DaysToYear(y)
  {
    if InYear(n, y) { return y; }
    YearNext(y);
    r := YearAfter(n, y + 1);
  }

  /** The year of a day before y. */
  lemma {:induction false} YearBefore(n: int, y: int) returns (r: int)
    requires n < DaysToYear(y)
    ensures InYear(n, r)
    decreases DaysToYear(y) - n
  {
    YearNext(y - 1);
    if n >= DaysToYear(y - 1) { return y - 1; }
    r := YearBefore(n, y - 1);
  }

  /** The month of a day of the year, at or after m. */
  lemma {:induction false} MonthAfter(y: int, k: int, m: int) returns (r: int)
    requires 1 <= m <= 12 && DaysToMonth(y, m) <= k < YearLength(y)
    ensures 1 <= r <= 12 && DaysToMonth(y, r) <= k < DaysToMonth(y, r) + MonthLength(y, r)
    decreases 12 - m
  {
    if k < DaysToMonth(y, m) + MonthLength(y, m) { return m; }
    if m == 12 { DecemberEnds(y); }
    r := MonthAfter(y, k, m + 1);
  }

  lemma DecemberEnds(y: int)
    ensures DaysToMonth(y, 12) + 31 == YearLength(y)
  {
    MonthsFrom(y, 12);
    assert DaysToMonth(y, 2) == 31;
  }

  lemma DateOf(n: int) returns (y: int, m: int, d: int)
    ensures 1 <= m <= 12 && 1 <= d <= MonthLength(y, m) && Days(y, m, d) == n && InYear(n, y)
  {
    if n >= DaysToYear(1970) {
      y := YearAfter(n, 1970);
    } else {
      y := YearBefore(n, 1970);
    }
    m := MonthAfter(y, n - DaysToYear(y), 1);
    d := n - DaysToYear(y) - DaysToMonth(y, m) + 1;
  }

  /** Every number of nanoseconds is the instant of a valid date and time. */
  lemma EveryInstantHasDate(t: int) returns (c: Civil)
    ensures ValidCivil(c) && Nanos(c) == t
  {
    var secs, nanos := t / SECOND, t % SECOND;
    var days, rest := secs / DAY, secs % DAY;
    var y, m, d := DateOf(days);
    c := Civil(y, m, d, rest / 3600, rest / 60 % 60, rest % 60, nanos);
    assert rest / 60 == rest / 3600 * 60 + rest / 60 % 60 by { assert rest / 3600 == rest / 60 / 60; }
    assert c.hour * 3600 + c.minute * 60 + c.second == rest;
  }
}
