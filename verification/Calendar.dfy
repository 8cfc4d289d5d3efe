/** The proleptic Gregorian calendar in UTC, as Go's time package computes it: seconds since
    1 January 1970 against year, month, day, hour, minute and second. */
module Calendar {

  predicate IsLeap(y: int) { y % 4 == 0 && (y % 100 != 0 || y % 400 == 0) }

  function LeapsBefore(y: int): int { (y - 1) / 4 - (y - 1) / 100 + (y - 1) / 400 }

  /** Days from the epoch to 1 January of year y. */
  function YearStart(y: int): int { 365 * (y - 1970) + LeapsBefore(y) - 477 }

  /** Days from 1 January to the first of month m; month 13 is the next January. */
  function DaysBefore(y: int, m: int): int {
    var leap := if IsLeap(y) then 1 else 0;
    if m <= 1 then 0 else if m == 2 then 31
    else leap + (if m == 3 then 59 else if m == 4 then 90 else if m == 5 then 120 else if m == 6 then 151
                 else if m == 7 then 181 else if m == 8 then 212 else if m == 9 then 243 else if m == 10 then 273
                 else if m == 11 then 304 else if m == 12 then 334 else 365)
  }

  function DaysIn(y: int, m: int): int { DaysBefore(y, m + 1) - DaysBefore(y, m) }

  const DAY: int := 86400

  /** time.Date in UTC: out-of-range values carry over. */
  function Date(y: int, m: int, d: int, h: int, mi: int, s: int): int {
    var y', m' := y + (m - 1) / 12, (m - 1) % 12 + 1;
    (YearStart(y') + DaysBefore(y', m') + d - 1) * DAY + h * 3600 + mi * 60 + s
  }

  lemma {:induction false} MultipleStep(y: int, n: int)
    requires n == 4 || n == 100 || n == 400
    ensures y / n == (y - 1) / n + if y % n == 0 then 1 else 0
  {
    if n == 4 {
    } else if n == 100 {
    } else {
    }
  }

  lemma {:induction false} Multiples(y: int)
    ensures y % 400 == 0 ==> y % 100 == 0
    ensures y % 100 == 0 ==> y % 4 == 0
  {
  }

  lemma {:induction false} YearLength(y: int)
    ensures YearStart(y + 1) == YearStart(y) + DaysBefore(y, 13)
    ensures 365 <= DaysBefore(y, 13) <= 366
  {
    MultipleStep(y, 4);
    MultipleStep(y, 100);
    MultipleStep(y, 400);
    Multiples(y);
  }

  lemma {:induction false} YearsAscend(a: int, b: int)
    requires a <= b
    ensures YearStart(a) + 365 * (b - a) <= YearStart(b)
    decreases b - a
  {
    if a < b {
      YearsAscend(a, b - 1);
      YearLength(b - 1);
    }
  }

  /** The year a day falls in, by search upwards or downwards from y. */
  function YearUp(day: int, y: int): (r: int)
    requires YearStart(y) <= day
    ensures YearStart(r) <= day < YearStart(r + 1)
    decreases day - YearStart(y)
  {
    YearLength(y);
    if day < YearStart(y + 1) then y else YearUp(day, y + 1)
  }

  function YearDown(day: int, y: int): (r: int)
    requires day < YearStart(y + 1)
    ensures YearStart(r) <= day < YearStart(r + 1)
    decreases YearStart(y + 1) - day
  {
    YearLength(y);
    if YearStart(y) <= day then y else YearDown(day, y - 1)
  }

  function DayNumber(t: int): int { t / DAY }

  function Year(t: int): (y: int)
    ensures YearStart(y) <= DayNumber(t) < YearStart(y + 1)
  {
    var day := DayNumber(t);
    if YearStart(1970) <= day then YearUp(day, 1970) else YearDown(day, 1969)
  }

  function MonthFrom(y: int, dayOfYear: int, m: int): (r: int)
    requires 1 <= m <= 12 && DaysBefore(y, m) <= dayOfYear < DaysBefore(y, 13)
    ensures m <= r <= 12 && DaysBefore(y, r) <= dayOfYear < DaysBefore(y, r + 1)
    decreases 12 - m
  {
    if dayOfYear < DaysBefore(y, m + 1) then m else MonthFrom(y, dayOfYear, m + 1)
  }

  function Month(t: int): (m: int)
    ensures 1 <= m <= 12
    ensures DaysBefore(Year(t), m) <= DayNumber(t) - YearStart(Year(t)) < DaysBefore(Year(t), m + 1)
  {
    YearLength(Year(t));
    MonthFrom(Year(t), DayNumber(t) - YearStart(Year(t)), 1)
  }

  function Day(t: int): (d: int)
    ensures 1 <= d <= DaysIn(Year(t), Month(t))
  {
    DayNumber(t) - YearStart(Year(t)) - DaysBefore(Year(t), Month(t)) + 1
  }

  function Hour(t: int): int { t % DAY / 3600 }

  function Minute(t: int): int { t % 3600 / 60 }

  function Second(t: int): int { t % 60 }

  /** Sunday is 0; the epoch was a Thursday. */
  function Weekday(t: int): int { (DayNumber(t) + 4) % 7 }

  lemma YearOfDay(t: int, y: int)
    requires YearStart(y) <= DayNumber(t) < YearStart(y + 1)
    ensures Year(t) == y
  {
    hide Year;
    var z := Year(t);
    if z < y { YearsAscend(z + 1, y); } else if y < z { YearsAscend(y + 1, z); }
  }

  lemma MonthOfDay(t: int, m: int)
    requires 1 <= m <= 12
    requires DaysBefore(Year(t), m) <= DayNumber(t) - YearStart(Year(t)) < DaysBefore(Year(t), m + 1)
    ensures Month(t) == m
  {
    hide Year, Month, YearStart;
    var y, z := Year(t), Month(t);
    if z < m { MonthsAscend(y, z + 1, m); } else if m < z { MonthsAscend(y, m + 1, z); }
  }

  lemma MonthsAscend(y: int, a: int, b: int)
    requires 1 <= a <= b <= 13
    ensures DaysBefore(y, a) <= DaysBefore(y, b)
  {
  }

  /** A time is the date of its own fields. */
  lemma {:induction false} FieldsRoundTrip(t: int)
    ensures Date(Year(t), Month(t), Day(t), Hour(t), Minute(t), Second(t)) == t
    ensures 0 <= Hour(t) < 24 && 0 <= Minute(t) < 60 && 0 <= Second(t) < 60
  {
    DateValue(Year(t), Month(t), Day(t), Hour(t), Minute(t), Second(t));
    TimeOfDay(t);
  }

  /** Two times on one calendar day agree on year, month, day and weekday. */
  lemma {:induction false} SameDay(t: int, u: int)
    requires DayNumber(t) == DayNumber(u)
    ensures Year(t) == Year(u) && Month(t) == Month(u) && Day(t) == Day(u) && Weekday(t) == Weekday(u)
  {
    hide YearStart, DaysBefore, Year, Month;
    YearOfDay(t, Year(u));
    MonthOfDay(t, Month(u));
  }

  /** The fields of a date within range are the values it was made from. */
  lemma {:induction false} DateFields(y: int, m: int, d: int, h: int, mi: int, s: int)
    requires 1 <= m <= 12 && 1 <= d <= DaysIn(y, m) && 0 <= h < 24 && 0 <= mi < 60 && 0 <= s < 60
    ensures var t := Date(y, m, d, h, mi, s);
      Year(t) == y && Month(t) == m && Day(t) == d && Hour(t) == h && Minute(t) == mi && Second(t) == s
  {
    DateValue(y, m, d, h, mi, s);
    FieldsOf(Date(y, m, d, h, mi, s), y, m, d, h, mi, s);
  }

  lemma {:induction false} FieldsOf(t: int, y: int, m: int, d: int, h: int, mi: int, s: int)
    requires 1 <= m <= 12 && 1 <= d <= DaysIn(y, m) && 0 <= h < 24 && 0 <= mi < 60 && 0 <= s < 60
    requires t == (YearStart(y) + DaysBefore(y, m) + d - 1) * DAY + h * 3600 + mi * 60 + s
    ensures Year(t) == y && Month(t) == m && Day(t) == d && Hour(t) == h && Minute(t) == mi && Second(t) == s
  {
    ClockFields(t, YearStart(y) + DaysBefore(y, m) + d - 1, h, mi, s);
    DayFields(t, y, m, d);
  }

  lemma {:induction false} ClockFields(t: int, day: int, h: int, mi: int, s: int)
    requires 0 <= h < 24 && 0 <= mi < 60 && 0 <= s < 60 && t == day * DAY + h * 3600 + mi * 60 + s
    ensures DayNumber(t) == day && Hour(t) == h && Minute(t) == mi && Second(t) == s
  {
    SplitTime(day, h, mi, s);
  }

  lemma {:induction false} DayFields(t: int, y: int, m: int, d: int)
    requires 1 <= m <= 12 && 1 <= d <= DaysIn(y, m) && DayNumber(t) == YearStart(y) + DaysBefore(y, m) + d - 1
    ensures Year(t) == y && Month(t) == m && Day(t) == d
  {
    YearLength(y);
    MonthsAscend(y, 1, m);
    MonthsAscend(y, m + 1, 13);
    YearOfDay(t, y);
    MonthOfDay(t, m);
  }

  lemma {:induction false} SplitTime(day: int, h: int, mi: int, s: int)
    requires 0 <= h < 24 && 0 <= mi < 60 && 0 <= s < 60
    ensures var t := day * DAY + h * 3600 + mi * 60 + s;
      t / DAY == day && t % DAY / 3600 == h && t % 3600 / 60 == mi && t % 60 == s
  {
    Remainder(day, DAY, h * 3600 + mi * 60 + s);
    Remainder(h, 3600, mi * 60 + s);
    Remainder(day * 24 + h, 3600, mi * 60 + s);
    Remainder(mi, 60, s);
    Remainder(day * 1440 + h * 60 + mi, 60, s);
  }

  lemma {:induction false} Remainder(q: int, n: int, r: int)
    requires (n == DAY || n == 3600 || n == 60) && 0 <= r < n
    ensures (q * n + r) / n == q && (q * n + r) % n == r
  {
  }

  // What stays the same between a time and the start of the next unit.

  /** Date, when the month is within range. */
  lemma {:induction false} DateValue(y: int, m: int, d: int, h: int, mi: int, s: int)
    requires 1 <= m <= 12
    ensures Date(y, m, d, h, mi, s) == (YearStart(y) + DaysBefore(y, m) + d - 1) * DAY + h * 3600 + mi * 60 + s
  {
    assert (m - 1) / 12 == 0 && (m - 1) % 12 == m - 1;
  }

  lemma {:induction false} DayOrder(c: int, t: int, n: int)
    requires c <= t
    ensures DayNumber(c) <= DayNumber(t)
    ensures t < n * DAY ==> DayNumber(t) < n
  {
  }

  lemma {:induction false} SameYearUntil(c: int, t: int)
    requires c <= t < Date(Year(c) + 1, 1, 1, 0, 0, 0)
    ensures Year(t) == Year(c)
  {
    DateValue(Year(c) + 1, 1, 1, 0, 0, 0);
    DayOrder(c, t, YearStart(Year(c) + 1));
    YearOfDay(t, Year(c));
  }

  lemma {:induction false} SameMonthUntil(c: int, t: int)
    requires c <= t < Date(Year(c), Month(c) + 1, 1, 0, 0, 0)
    ensures Year(t) == Year(c) && Month(t) == Month(c)
  {
    NextMonthStart(Year(c), Month(c));
    YearLength(Year(c));
    MonthsAscend(Year(c), Month(c) + 1, 13);
    YearOfDay(t, Year(c));
    MonthOfDay(t, Month(c));
  }

  /** The first of the next month, also over the end of the year. */
  lemma {:induction false} NextMonthStart(y: int, m: int)
    requires 1 <= m <= 12
    ensures Date(y, m + 1, 1, 0, 0, 0) == (YearStart(y) + DaysBefore(y, m + 1)) * DAY
    ensures m == 12 ==> Date(y, m + 1, 1, 0, 0, 0) == Date(y + 1, 1, 1, 0, 0, 0)
  {
    YearLength(y);
  }

  /** The start of the next day, hour and minute. */
  lemma {:induction false} NextStarts(c: int)
    ensures Date(Year(c), Month(c), Day(c) + 1, 0, 0, 0) == (DayNumber(c) + 1) * DAY
    ensures Date(Year(c), Month(c), Day(c), Hour(c) + 1, 0, 0) == c - c % 3600 + 3600
    ensures Date(Year(c), Month(c), Day(c), Hour(c), Minute(c) + 1, 0) == c - c % 60 + 60
    ensures Date(Year(c), Month(c), Day(c), Hour(c), Minute(c), Second(c) + 1) == c + 1
  {
    var y, m, d := Year(c), Month(c), Day(c);
    DateValue(y, m, d + 1, 0, 0, 0);
    DateValue(y, m, d, Hour(c) + 1, 0, 0);
    DateValue(y, m, d, Hour(c), Minute(c) + 1, 0);
    DateValue(y, m, d, Hour(c), Minute(c), Second(c) + 1);
    assert YearStart(y) + DaysBefore(y, m) + d - 1 == DayNumber(c);
    TimeOfDay(c);
  }

  lemma {:induction false} TimeOfDay(c: int)
    ensures c == DayNumber(c) * DAY + Hour(c) * 3600 + c % 3600
    ensures c % 3600 == Minute(c) * 60 + c % 60
  {
    assert c % DAY % 3600 == c % 3600;
  }

  lemma {:induction false} SameDayUntil(c: int, t: int)
    requires c <= t < Date(Year(c), Month(c), Day(c) + 1, 0, 0, 0)
    ensures DayNumber(t) == DayNumber(c)
  {
    NextStarts(c);
    DayOrder(c, t, DayNumber(c) + 1);
  }

  lemma {:induction false} SameHourUntil(c: int, t: int)
    requires c <= t < Date(Year(c), Month(c), Day(c), Hour(c) + 1, 0, 0)
    ensures DayNumber(t) == DayNumber(c) && Hour(t) == Hour(c)
  {
    NextStarts(c);
    InsideHour(c, t);
  }

  lemma {:induction false} InsideHour(c: int, t: int)
    requires c <= t < c - c % 3600 + 3600
    ensures t / DAY == c / DAY && t % DAY / 3600 == c % DAY / 3600
  {
    var h := c / 3600;
    assert t / 3600 == h;
    assert t / DAY == h / 24 && c / DAY == h / 24;
  }

  lemma {:induction false} SameMinuteUntil(c: int, t: int)
    requires c <= t < Date(Year(c), Month(c), Day(c), Hour(c), Minute(c) + 1, 0)
    ensures DayNumber(t) == DayNumber(c) && Hour(t) == Hour(c) && Minute(t) == Minute(c)
  {
    NextStarts(c);
    InsideMinute(c, t);
    InsideHour(c, t);
  }

  lemma {:induction false} InsideMinute(c: int, t: int)
    requires c <= t < c - c % 60 + 60
    ensures t < c - c % 3600 + 3600 && t % 3600 / 60 == c % 3600 / 60
  {
    var m := c / 60;
    assert t / 60 == m;
    assert t / 3600 == m / 60 && c / 3600 == m / 60;
  }

  /** Day 0 of the next month is the last day of this one. */
  lemma {:induction false} LastOfMonth(y: int, m: int)
    requires 1 <= m <= 12
    ensures Day(Date(y, m + 1, 0, 0, 0, 0)) == DaysIn(y, m)
  {
    MonthLength(y, m);
    DayZero(y, m);
    DateFields(y, m, DaysIn(y, m), 0, 0, 0);
  }

  lemma {:induction false} MonthLength(y: int, m: int)
    requires 1 <= m <= 12
    ensures 28 <= DaysIn(y, m) <= 31
  {
  }

  lemma {:induction false} DayZero(y: int, m: int)
    requires 1 <= m <= 12
    ensures Date(y, m + 1, 0, 0, 0, 0) == Date(y, m, DaysIn(y, m), 0, 0, 0)
  {
    NextMonthStart(y, m);
    DayBefore(y, m + 1);
    DateValue(y, m, DaysIn(y, m), 0, 0, 0);
  }

  lemma {:induction false} DayBefore(y: int, m: int)
    ensures Date(y, m, 0, 0, 0, 0) == Date(y, m, 1, 0, 0, 0) - DAY
  {
  }

  // ------------------------------------------------------------- four hundred years

  const PERIOD: int := 146097

  lemma {:induction false} FourCenturies(y: int)
    ensures YearStart(y + 400) == YearStart(y) + PERIOD && (IsLeap(y + 400) <==> IsLeap(y))
  {
    assert (y + 399) / 4 == (y - 1) / 4 + 100 && (y + 399) / 100 == (y - 1) / 100 + 4 && (y + 399) / 400 == (y - 1) / 400 + 1;
  }

  lemma {:induction false} YearRepeats(t: int, u: int)
    requires DayNumber(u) == DayNumber(t) + PERIOD
    ensures Year(u) == Year(t) + 400
  {
    FourCenturies(Year(t));
    FourCenturies(Year(t) + 1);
    YearOfDay(u, Year(t) + 400);
  }

  lemma {:induction false} MonthsRepeat(y: int, m: int)
    ensures DaysBefore(y + 400, m) == DaysBefore(y, m)
  {
    FourCenturies(y);
  }

  lemma {:induction false} DateRepeats(t: int, u: int)
    requires DayNumber(u) == DayNumber(t) + PERIOD
    ensures Month(u) == Month(t) && Day(u) == Day(t)
  {
    hide YearStart, IsLeap, LeapsBefore, DaysBefore, Year, Month, DayNumber;
    YearRepeats(t, u);
    FourCenturies(Year(t));
    MonthsRepeat(Year(t), Month(t));
    MonthsRepeat(Year(t), Month(t) + 1);
    MonthOfDay(u, Month(t));
  }

  lemma {:induction false} WeekRepeats(t: int, u: int)
    requires DayNumber(u) == DayNumber(t) + PERIOD
    ensures Weekday(u) == Weekday(t)
  {
    hide DayNumber;
    Weeks(DayNumber(t) + 4);
  }

  lemma {:induction false} Weeks(d: int)
    ensures (d + PERIOD) % 7 == d % 7
  {
    assert PERIOD == 7 * 20871;
  }

  /** The calendar repeats, weekdays included. */
  lemma {:induction false} FieldsRepeat(t: int)
    ensures var u := t + PERIOD * DAY;
      && Year(u) == Year(t) + 400 && Month(u) == Month(t) && Day(u) == Day(t) && Weekday(u) == Weekday(t)
      && Hour(u) == Hour(t) && Minute(u) == Minute(t) && Second(u) == Second(t)
  {
    hide *;
    Later(t);
    YearRepeats(t, t + PERIOD * DAY);
    DateRepeats(t, t + PERIOD * DAY);
    WeekRepeats(t, t + PERIOD * DAY);
    SameClock(t, t + PERIOD * DAY);
  }

  lemma {:induction false} Later(t: int)
    ensures DayNumber(t + PERIOD * DAY) == DayNumber(t) + PERIOD && (t + PERIOD * DAY) % DAY == t % DAY
  {
    var d, r := t / DAY, t % DAY;
    Remainder(d + PERIOD, DAY, r);
  }

  lemma {:induction false} SameClock(t: int, u: int)
    requires t % DAY == u % DAY
    ensures Hour(t) == Hour(u) && Minute(t) == Minute(u) && Second(t) == Second(u)
  {
    WithinDay(t);
    WithinDay(u);
  }

  lemma {:induction false} WithinDay(t: int)
    ensures t % 3600 == t % DAY % 3600 && t % 60 == t % DAY % 60
  {
    var d, r := t / DAY, t % DAY;
    Remainder(24 * d + r / 3600, 3600, r % 3600);
    Remainder(1440 * d + r / 60, 60, r % 60);
    assert t == (24 * d + r / 3600) * 3600 + r % 3600 && t == (1440 * d + r / 60) * 60 + r % 60;
  }

  /** The start of the next hour or minute, or the next second, is on the same day or is the
      next midnight. */
  lemma {:induction false} NextUnit(c: int, n: int)
    requires n == c - c % 3600 + 3600 || n == c - c % 60 + 60 || n == c + 1
    ensures DayNumber(n) == DayNumber(c) || n % DAY == 0
  {
    UnitEnd(c, n, if n == c - c % 3600 + 3600 then 3600 else if n == c - c % 60 + 60 then 60 else 1);
  }

  lemma {:induction false} UnitEnd(c: int, n: int, unit: int)
    requires unit == 3600 || unit == 60 || unit == 1
    requires n == c - c % unit + unit
    ensures n / DAY == c / DAY || n % DAY == 0
  {
    var d, r := c / DAY, c % DAY;
    WithinDay(c);
    var k := r / unit;
    assert c % unit == r % unit && n == DAY * d + (k + 1) * unit && (k + 1) * unit <= DAY by {
      if unit == 3600 { assert r == k * 3600 + r % 3600; } else if unit == 60 { assert r == k * 60 + r % 60; }
    }
    if (k + 1) * unit < DAY { Remainder(d, DAY, (k + 1) * unit); }
  }

  // --------------------------------------------------------------- which calendar it is

  /** The epoch, a Thursday, is second 0. */
  lemma {:induction false} Epoch(h: int, mi: int, s: int)
    requires 0 <= h < 24 && 0 <= mi < 60 && 0 <= s < 60
    ensures Date(1970, 1, 1, h, mi, s) == h * 3600 + mi * 60 + s && Weekday(Date(1970, 1, 1, h, mi, s)) == 4
  {
    DateValue(1970, 1, 1, h, mi, s);
    SplitTime(0, h, mi, s);
  }

  lemma {:induction false} NextWeekday(t: int)
    ensures Weekday(t + DAY) == (Weekday(t) + 1) % 7 && 0 <= Weekday(t) < 7
  {
    DayLater(t);
  }

  lemma {:induction false} DayLater(t: int)
    ensures DayNumber(t + DAY) == DayNumber(t) + 1 && (t + DAY) % DAY == t % DAY
  {
    var d, r := t / DAY, t % DAY;
    Remainder(d + 1, DAY, r);
  }

  /** The lengths of the months, with the Gregorian leap year. */
  lemma {:induction false} MonthLengths(y: int, m: int)
    requires 1 <= m <= 12
    ensures DaysIn(y, m) ==
      if m == 2 then (if y % 400 == 0 || (y % 4 == 0 && y % 100 != 0) then 29 else 28)
      else if m == 4 || m == 6 || m == 9 || m == 11 then 30 else 31
  {
    Multiples(y);
  }

  /** The day after: the next of the month, the first of the next month, or New Year. */
  lemma {:induction false} DayAfter(t: int)
    ensures var u, y, m, d := t + DAY, Year(t), Month(t), Day(t);
      && Hour(u) == Hour(t) && Minute(u) == Minute(t) && Second(u) == Second(t)
      && if d < DaysIn(y, m) then Year(u) == y && Month(u) == m && Day(u) == d + 1
         else if m < 12 then Year(u) == y && Month(u) == m + 1 && Day(u) == 1
         else Year(u) == y + 1 && Month(u) == 1 && Day(u) == 1
  {
    hide YearStart, Year, Month, DayNumber, Hour, Minute, Second;
    var u, y, m, d := t + DAY, Year(t), Month(t), Day(t);
    DayLater(t);
    SameClock(t, u);
    MonthLength(y, m);
    if d < DaysIn(y, m) {
      DayFields(u, y, m, d + 1);
    } else if m < 12 {
      MonthLength(y, m + 1);
      DayFields(u, y, m + 1, 1);
    } else {
      MonthLength(y + 1, 1);
      YearLength(y);
      DayFields(u, y + 1, 1, 1);
    }
  }
}
