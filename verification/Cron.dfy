/** The next-fire search of internal/cronsched in UTC: it skips by year, month, day, hour,
    minute and second, and still lands on the very first matching second. */
module Cron {
  import opened Calendar
  import opened Options

  datatype FieldValue = Wildcard | Single(value: int) | Range(low: int, high: int) | Step(low: int, high: int, step: int)

  datatype Field = Field(values: seq<FieldValue>, min: int, max: int)

  datatype Expression = Expression(second: Field, minute: Field, hour: Field, day: Field, month: Field,
                                   weekday: Field, year: Field, hasYear: bool)

  /** What the parser establishes: a step is positive. */
  predicate WellFormed(f: Field) {
    forall i :: 0 <= i < |f.values| && f.values[i].Step? ==> f.values[i].step > 0
  }

  predicate WellFormedExpression(e: Expression) {
    && WellFormed(e.second) && WellFormed(e.minute) && WellFormed(e.hour) && WellFormed(e.day)
    && WellFormed(e.month) && WellFormed(e.weekday) && WellFormed(e.year)
  }

  predicate ValueMatches(v: FieldValue, x: int)
    requires v.Step? ==> v.step > 0
  {
    match v
    case Wildcard => true
    case Single(y) => x == y
    case Range(low, high) => low <= x <= high
    case Step(low, high, step) => low <= x <= high && (x - low) % step == 0
  }

  predicate FieldMatches(f: Field, x: int)
    requires WellFormed(f)
  {
    exists i :: 0 <= i < |f.values| && ValueMatches(f.values[i], x)
  }

  predicate IsWildcard(f: Field) { |f.values| == 1 && f.values[0].Wildcard? }

  predicate IsValidDay(y: int, m: int, d: int) {
    1 <= d <= 31 && d <= Day(Date(y, m + 1, 0, 0, 0, 0))
  }

  /** Every real date passes isValidDay, so its last clause never decides. */
  lemma {:induction false} RealDatesAreValid(t: int)
    ensures IsValidDay(Year(t), Month(t), Day(t))
  {
    LastOfMonth(Year(t), Month(t));
    MonthLength(Year(t), Month(t));
  }

  predicate DayMatches(e: Expression, day: int, weekday: int)
    requires WellFormedExpression(e)
  {
    var daySet, weekdaySet := !IsWildcard(e.day), !IsWildcard(e.weekday);
    if daySet || weekdaySet then
      (daySet ==> FieldMatches(e.day, day)) && (weekdaySet ==> FieldMatches(e.weekday, weekday))
    else
      FieldMatches(e.day, day) && FieldMatches(e.weekday, weekday)
  }

  predicate Matches(e: Expression, t: int)
    requires WellFormedExpression(e)
  {
    && (e.hasYear ==> FieldMatches(e.year, Year(t)))
    && FieldMatches(e.month, Month(t))
    && DayMatches(e, Day(t), Weekday(t))
    && FieldMatches(e.hour, Hour(t))
    && FieldMatches(e.minute, Minute(t))
    && FieldMatches(e.second, Second(t))
    && IsValidDay(Year(t), Month(t), Day(t))
  }

  /** The year, month and day of t are ones the expression wants. */
  predicate DateMatches(e: Expression, t: int)
    requires WellFormedExpression(e)
  {
    (e.hasYear ==> FieldMatches(e.year, Year(t))) && FieldMatches(e.month, Month(t)) && DayMatches(e, Day(t), Weekday(t))
  }

  /** No second from c up to, not including, next matches. */
  ghost predicate NoneIn(e: Expression, c: int, next: int)
    requires WellFormedExpression(e)
  {
    forall t :: c <= t < next ==> !Matches(e, t)
  }

  /** The start of a day after the given one. */
  predicate Midnight(t: int, day: int) { t % DAY == 0 && DayNumber(t) > day }

  lemma {:induction false} MidnightOf(n: int, day: int)
    requires day < n
    ensures Midnight(n * DAY, day)
  {
    Remainder(n, DAY, 0);
  }

  lemma {:induction false} SkipYear(e: Expression, c: int)
    requires WellFormedExpression(e) && e.hasYear && !FieldMatches(e.year, Year(c))
    ensures NoneIn(e, c, Date(Year(c) + 1, 1, 1, 0, 0, 0)) && c < Date(Year(c) + 1, 1, 1, 0, 0, 0)
    ensures Midnight(Date(Year(c) + 1, 1, 1, 0, 0, 0), DayNumber(c))
  {
    DateValue(Year(c) + 1, 1, 1, 0, 0, 0);
    MidnightOf(YearStart(Year(c) + 1), DayNumber(c));
    forall t | c <= t < Date(Year(c) + 1, 1, 1, 0, 0, 0) ensures !Matches(e, t) { SameYearUntil(c, t); }
  }

  lemma {:induction false} SkipMonth(e: Expression, c: int)
    requires WellFormedExpression(e) && !FieldMatches(e.month, Month(c))
    ensures NoneIn(e, c, Date(Year(c), Month(c) + 1, 1, 0, 0, 0)) && c < Date(Year(c), Month(c) + 1, 1, 0, 0, 0)
    ensures Midnight(Date(Year(c), Month(c) + 1, 1, 0, 0, 0), DayNumber(c))
  {
    hide Year, Month, Day, YearStart, DaysBefore, DayMatches, IsValidDay;
    NextMonthStart(Year(c), Month(c));
    MidnightOf(YearStart(Year(c)) + DaysBefore(Year(c), Month(c) + 1), DayNumber(c));
    forall t | c <= t < Date(Year(c), Month(c) + 1, 1, 0, 0, 0) ensures !Matches(e, t) { SameMonthUntil(c, t); }
  }

  lemma {:induction false} SkipDay(e: Expression, c: int)
    requires WellFormedExpression(e)
    requires !DayMatches(e, Day(c), Weekday(c)) || !IsValidDay(Year(c), Month(c), Day(c))
    ensures NoneIn(e, c, Date(Year(c), Month(c), Day(c) + 1, 0, 0, 0)) && c < Date(Year(c), Month(c), Day(c) + 1, 0, 0, 0)
    ensures Midnight(Date(Year(c), Month(c), Day(c) + 1, 0, 0, 0), DayNumber(c))
  {
    NextStarts(c);
    MidnightOf(DayNumber(c) + 1, DayNumber(c));
    forall t | c <= t < Date(Year(c), Month(c), Day(c) + 1, 0, 0, 0) ensures !Matches(e, t) {
      SameDayUntil(c, t);
      SameDay(t, c);
    }
  }

  lemma {:induction false} SkipHour(e: Expression, c: int)
    requires WellFormedExpression(e) && !FieldMatches(e.hour, Hour(c))
    ensures NoneIn(e, c, Date(Year(c), Month(c), Day(c), Hour(c) + 1, 0, 0)) && c < Date(Year(c), Month(c), Day(c), Hour(c) + 1, 0, 0)
  {
    NextStarts(c);
    forall t | c <= t < Date(Year(c), Month(c), Day(c), Hour(c) + 1, 0, 0) ensures !Matches(e, t) { SameHourUntil(c, t); }
  }

  lemma {:induction false} SkipMinute(e: Expression, c: int)
    requires WellFormedExpression(e) && !FieldMatches(e.minute, Minute(c))
    ensures NoneIn(e, c, Date(Year(c), Month(c), Day(c), Hour(c), Minute(c) + 1, 0))
    ensures c < Date(Year(c), Month(c), Day(c), Hour(c), Minute(c) + 1, 0)
  {
    NextStarts(c);
    forall t | c <= t < Date(Year(c), Month(c), Day(c), Hour(c), Minute(c) + 1, 0) ensures !Matches(e, t) { SameMinuteUntil(c, t); }
  }

  lemma {:induction false} SkipSecond(e: Expression, c: int)
    requires WellFormedExpression(e) && !FieldMatches(e.second, Second(c))
    ensures NoneIn(e, c, c + 1)
  {
    assert !Matches(e, c);
  }

  /** In UTC a step to the next hour lands on that hour or on another day, so the loops that
      look for the hour after a clock change have nothing to do. */
  lemma {:induction false} NoClockGaps(c: int)
    ensures var n := Date(Year(c), Month(c), Day(c), Hour(c) + 1, 0, 0);
      Hour(n) == Hour(c) + 1 || !(Year(n) == Year(c) && Month(n) == Month(c) && Day(n) == Day(c))
  {
    var n := Date(Year(c), Month(c), Day(c), Hour(c) + 1, 0, 0);
    FieldsRoundTrip(c);
    if Hour(c) < 23 {
      DateFields(Year(c), Month(c), Day(c), Hour(c) + 1, 0, 0);
    } else {
      DateValue(Year(c), Month(c), Day(c), 24, 0, 0);
      NextStarts(c);
      DayOrder(n, n, 0);
      DifferentDays(c, n);
    }
  }

  lemma {:induction false} DifferentDays(t: int, u: int)
    requires DayNumber(t) != DayNumber(u)
    ensures !(Year(t) == Year(u) && Month(t) == Month(u) && Day(t) == Day(u))
  {
  }

  // -------------------------------------------------------------------- the search

  /** What a pass that finds no match does: it skips no matching second, it stays on the day or
      starts another, and it leaves a day of the wrong date and a year that is not wanted. */
  ghost predicate Moves(e: Expression, c: int, next: int)
    requires WellFormedExpression(e)
  {
    && c < next && NoneIn(e, c, next)
    && (DayNumber(next) == DayNumber(c) || next % DAY == 0)
    && (!DateMatches(e, c) ==> Midnight(next, DayNumber(c)))
    && (e.hasYear && !FieldMatches(e.year, Year(c)) ==> Year(next) == Year(c) + 1)
  }

  /** One pass of the search loop: either c matches, or it moves on past seconds that do not. */
  method Advance(e: Expression, c: int) returns (matched: bool, next: int)
    requires WellFormedExpression(e)
    ensures matched <==> Matches(e, c)
    ensures matched ==> next == c
    ensures !matched ==> Moves(e, c, next)
  {
    matched, next := AdvanceDate(e, c);
    if matched {
      matched, next := AdvanceClock(e, c);
    }
    if matched && !IsValidDay(Year(c), Month(c), Day(c)) {
      SkipDay(e, c);
      return false, Date(Year(c), Month(c), Day(c) + 1, 0, 0, 0);
    }
  }

  /** The year, month and day tests of the loop. */
  method AdvanceDate(e: Expression, c: int) returns (matched: bool, next: int)
    requires WellFormedExpression(e)
    ensures matched <==> DateMatches(e, c)
    ensures matched ==> next == c
    ensures !matched ==> Moves(e, c, next)
  {
    hide Date, Year, Month, Day, DayNumber, FieldMatches, NoneIn, DayMatches;
    if e.hasYear && !FieldMatches(e.year, Year(c)) {
      SkipYear(e, c);
      DateFields(Year(c) + 1, 1, 1, 0, 0, 0);
      return false, Date(Year(c) + 1, 1, 1, 0, 0, 0);
    }
    if !FieldMatches(e.month, Month(c)) {
      SkipMonth(e, c);
      next := NextMonth(Year(c), Month(c));
      return false, next;
    }
    if !DayMatches(e, Day(c), Weekday(c)) {
      SkipDay(e, c);
      return false, Date(Year(c), Month(c), Day(c) + 1, 0, 0, 0);
    }
    return true, c;
  }

  method NextMonth(year: int, month: int) returns (next: int)
    requires 1 <= month <= 12
    ensures next == Date(year, month + 1, 1, 0, 0, 0)
  {
    if month == 12 {
      NextMonthStart(year, month);
      return Date(year + 1, 1, 1, 0, 0, 0);
    }
    return Date(year, month + 1, 1, 0, 0, 0);
  }

  /** The hour, minute and second tests of the loop, on a day of the right date. */
  method AdvanceClock(e: Expression, c: int) returns (matched: bool, next: int)
    requires WellFormedExpression(e) && DateMatches(e, c)
    ensures matched <==> FieldMatches(e.hour, Hour(c)) && FieldMatches(e.minute, Minute(c)) && FieldMatches(e.second, Second(c))
    ensures matched ==> next == c
    ensures !matched ==> Moves(e, c, next)
  {
    hide Date, Year, Month, Day, Hour, Minute, Second, DayNumber, FieldMatches, NoneIn, DayMatches;
    NextStarts(c);
    if !FieldMatches(e.hour, Hour(c)) {
      SkipHour(e, c);
      next := Date(Year(c), Month(c), Day(c), Hour(c) + 1, 0, 0);
      NextUnit(c, next);
      return false, next;
    }
    if !FieldMatches(e.minute, Minute(c)) {
      SkipMinute(e, c);
      next := NextMinute(c);
      NextUnit(c, next);
      return false, next;
    }
    if !FieldMatches(e.second, Second(c)) {
      next := NextSecond(c);
      SkipSecond(e, c);
      NextUnit(c, next);
      return false, next;
    }
    return true, c;
  }

  /** The step to the next minute, with its carry. */
  method NextMinute(c: int) returns (next: int)
    ensures next == c - c % 60 + 60
  {
    NextStarts(c);
    next := Date(Year(c), Month(c), Day(c), Hour(c), Minute(c) + 1, 0);
    CarryMinute(c, next);
    if Hour(next) != Hour(c) || Day(next) != Day(c) {
      next := Date(Year(c), Month(c), Day(c), Hour(c) + 1, 0, 0);
    }
  }

  /** The step by one second, with its carries. */
  method NextSecond(c: int) returns (next: int)
    ensures next == c + 1
  {
    NextStarts(c);
    next := Date(Year(c), Month(c), Day(c), Hour(c), Minute(c), Second(c) + 1);
    CarrySecond(c);
    if Minute(next) != Minute(c) || Hour(next) != Hour(c) {
      next := NextMinute(c);
    }
  }

  /** Leaving the hour by a minute is reaching the next hour. */
  lemma {:induction false} CarryMinute(c: int, n: int)
    requires n == c - c % 60 + 60
    ensures Hour(n) != Hour(c) || Day(n) != Day(c) ==> n == c - c % 3600 + 3600
  {
    if n < c - c % 3600 + 3600 {
      InsideHour(c, n);
      SameDay(n, c);
    } else {
      InsideMinute(c, n - 1);
    }
  }

  /** Leaving the minute by a second is reaching the next minute. */
  lemma {:induction false} CarrySecond(c: int)
    ensures Minute(c + 1) != Minute(c) || Hour(c + 1) != Hour(c) ==> c + 1 == c - c % 60 + 60
  {
    if c + 1 < c - c % 60 + 60 {
      InsideMinute(c, c + 1);
      InsideHour(c, c + 1);
    }
  }

  datatype NextResult = Found(time: int) | NoNextTime | InvalidExpression

  /** An upper bound on the passes from c to the first match m: a day each, and what is left of
      the day of c and goes by on the day of m. */
  ghost function Passes(m: int, c: int): int {
    if DayNumber(c) == DayNumber(m) then m - c
    else DayNumber(m) - DayNumber(c) + DAY + if c % DAY == 0 then 0 else DAY - c % DAY
  }

  /** On a day of the right date that is searched from its start there is a match. */
  lemma {:induction false} WholeDay(e: Expression, from: int, m: int, c: int)
    requires WellFormedExpression(e) && IsNext(Fires(e), from, m) && FirstSecond(from) <= c
    requires c % DAY == 0 && DateMatches(e, c)
    ensures DayNumber(m) <= DayNumber(c)
  {
    var t := c + m % DAY;
    Remainder(c / DAY, DAY, m % DAY);
    SameDay(t, c);
    SameClock(t, m);
    RealDatesAreValid(t);
    assert Matches(e, m) && Fires(e)(t) && from < t * SECOND;
    DayOrder(m, t, 0);
  }

  /** Every pass comes nearer. */
  lemma {:induction false} PassCosts(e: Expression, from: int, m: int, c: int, next: int)
    requires WellFormedExpression(e) && IsNext(Fires(e), from, m) && FirstSecond(from) <= c <= m && Moves(e, c, next)
    ensures next <= m && Passes(m, next) < Passes(m, c)
  {
    assert Fires(e)(m);
    DayOrder(c, next, 0);
    DayOrder(next, m, 0);
    if DayNumber(c) < DayNumber(m) && DayNumber(next) == DayNumber(c) && c % DAY == 0 { WholeDay(e, from, m, c); }
  }

  lemma {:induction false} PassesBound(m: int, c: int)
    requires c <= m
    ensures 0 <= Passes(m, c) < DayNumber(m) - DayNumber(c) + 2 * DAY
  {
    DayOrder(c, m, 0);
  }

  /** Nothing fires in the first n years. */
  ghost predicate SilentYears(e: Expression, year: int, n: int)
    requires WellFormedExpression(e)
  {
    e.hasYear && forall y {:trigger FieldMatches(e.year, y)} :: year <= y < year + n ==> !FieldMatches(e.year, y)
  }

  /** Next fire time after from, given in nanoseconds.  An error speaks of maxIterations seconds
      and, but for two, of maxIterations days; and it comes if the year is wrong that often. */
  method NextTimeWithConfig(expr: Option<Expression>, from: int, maxIterations: int) returns (r: NextResult)
    requires expr.Some? ==> WellFormedExpression(expr.value)
    ensures r.InvalidExpression? <==> expr.None?
    ensures r.Found? ==> IsNext(Fires(expr.value), from, r.time)
    ensures r.NoNextTime? ==> NoneIn(expr.value, FirstSecond(from), FirstSecond(from) + maxIterations)
    ensures r.NoNextTime? ==> NoneSoon(expr.value, from, maxIterations)
    ensures expr.Some? && SilentYears(expr.value, Year(FirstSecond(from)), maxIterations) ==> r.NoNextTime?
  {
    if expr.None? { return InvalidExpression; }
    var e := expr.value;
    var candidate := FirstSecond(from);
    var i := 0;
    while i < maxIterations
      invariant NoneIn(e, FirstSecond(from), candidate)
      invariant FirstSecond(from) + i <= candidate
      invariant i <= maxIterations || i == 0
      invariant Nearing(e, from, candidate, i)
      invariant SilentYears(e, Year(FirstSecond(from)), i) ==> Year(candidate) == Year(FirstSecond(from)) + i
    {
      var matched, next := Advance(e, candidate);
      if matched { return Found(candidate); }
      Nearer(e, from, candidate, i, next);
      candidate := next;
      i := i + 1;
    }
    NearingEnds(e, from, candidate, i, maxIterations);
    return NoNextTime;
  }

  /** i passes from the start have paid off. */
  ghost predicate Nearing(e: Expression, from: int, c: int, i: int)
    requires WellFormedExpression(e)
  {
    forall m :: IsNext(Fires(e), from, m) ==> c <= m && i + Passes(m, c) <= Passes(m, FirstSecond(from))
  }

  lemma {:induction false} Nearer(e: Expression, from: int, c: int, i: int, next: int)
    requires WellFormedExpression(e) && FirstSecond(from) <= c && Nearing(e, from, c, i) && Moves(e, c, next)
    ensures Nearing(e, from, next, i + 1)
  {
    forall m | IsNext(Fires(e), from, m)
      ensures next <= m && i + 1 + Passes(m, next) <= Passes(m, FirstSecond(from))
    {
      PassCosts(e, from, m, c, next);
    }
  }

  /** The next fire time is more than n days away, but for two days' worth of seconds. */
  ghost predicate NoneSoon(e: Expression, from: int, n: int)
    requires WellFormedExpression(e)
  {
    forall m :: IsNext(Fires(e), from, m) ==> n < DayNumber(m) - DayNumber(FirstSecond(from)) + 2 * DAY
  }

  lemma {:induction false} NearingEnds(e: Expression, from: int, c: int, i: int, n: int)
    requires WellFormedExpression(e) && Nearing(e, from, c, i) && n <= i
    ensures NoneSoon(e, from, n)
  {
    forall m | IsNext(Fires(e), from, m)
      ensures n < DayNumber(m) - DayNumber(FirstSecond(from)) + 2 * DAY
    {
      PassesBound(m, c);
      PassesBound(m, FirstSecond(from));
    }
  }

  const SECOND: int := 1000000000

  /** from.Add(time.Second).Truncate(time.Second): the first whole second after from. */
  function FirstSecond(from: int): (c: int)
    ensures (c - 1) * SECOND <= from < c * SECOND
  {
    (from + SECOND) / SECOND
  }

  ghost function Fires(e: Expression): int -> bool
    requires WellFormedExpression(e)
  {
    t => Matches(e, t)
  }

  /** t is the least whole second after from at which fires holds. */
  ghost predicate IsNext(fires: int -> bool, from: int, t: int) {
    from < t * SECOND && fires(t) && forall u :: from < u * SECOND && u < t ==> !fires(u)
  }

  const DEFAULT_MAX_ITERATIONS: int := 366 * 24 * 60 * 60

  /** times are fire times in order, and none after from up to the last of them is missing. */
  ghost predicate FirstMatches(fires: int -> bool, from: int, times: seq<int>) {
    && (forall i :: 0 <= i < |times| ==> from < times[i] * SECOND && fires(times[i]))
    && (forall i, j :: 0 <= i < j < |times| ==> times[i] < times[j])
    && (forall u :: times != [] && from < u * SECOND && u <= times[|times| - 1] && fires(u) ==> u in times)
  }

  // ------------------------------------------------------------ what an error means

  ghost predicate Never(e: Expression, from: int)
    requires WellFormedExpression(e)
  {
    forall t :: from < t * SECOND ==> !Matches(e, t)
  }

  /** Every year will do. */
  predicate Perennial(e: Expression) { !e.hasYear || exists i :: 0 <= i < |e.year.values| && e.year.values[i].Wildcard? }

  /** No value of the field is greater than its maximum. */
  predicate Bounded(f: Field) {
    forall i :: 0 <= i < |f.values| ==>
      match f.values[i]
      case Wildcard => false
      case Single(y) => y <= f.max
      case Range(_, high) => high <= f.max
      case Step(_, high, _) => high <= f.max
  }

  /** There is no year field that matters, or its last year is less than n days away, but for two
      days' worth of seconds. */
  predicate WithinReach(e: Expression, from: int, n: int) {
    || (Perennial(e) && PERIOD + 2 * DAY <= n)
    || (e.hasYear && Bounded(e.year) && YearStart(e.year.max + 1) - DayNumber(FirstSecond(from)) + 2 * DAY <= n)
  }

  lemma {:induction false} FirstExists(e: Expression, from: int, t: int) returns (m: int)
    requires WellFormedExpression(e) && from < t * SECOND && Matches(e, t)
    ensures IsNext(Fires(e), from, m)
    decreases t - FirstSecond(from)
  {
    if u :| from < u * SECOND && u < t && Matches(e, u) {
      m := FirstExists(e, from, u);
    } else {
      m := t;
    }
  }

  /** Without a year field the matches repeat every four hundred years. */
  lemma {:induction false} MatchesRepeat(e: Expression, t: int)
    requires WellFormedExpression(e) && Perennial(e) && Matches(e, t + PERIOD * DAY)
    ensures Matches(e, t)
  {
    hide Year, Month, Day, Hour, Minute, Second, Weekday;
    FieldsRepeat(t);
    RealDatesAreValid(t);
    if e.hasYear {
      var i :| 0 <= i < |e.year.values| && e.year.values[i].Wildcard?;
      assert ValueMatches(e.year.values[i], Year(t));
    }
  }

  lemma {:induction false} RepeatIsNear(e: Expression, from: int, m: int)
    requires WellFormedExpression(e) && IsNext(Fires(e), from, m) && Perennial(e)
    ensures DayNumber(m) - DayNumber(FirstSecond(from)) <= PERIOD
  {
    hide Matches, Perennial;
    var t := m - PERIOD * DAY;
    Later(t);
    if FirstSecond(from) <= t {
      assert Fires(e)(m) && t + PERIOD * DAY == m && (Fires(e)(t) <==> Matches(e, t));
      MatchesRepeat(e, t);
    } else {
      DayOrder(t, FirstSecond(from), 0);
    }
  }

  lemma {:induction false} BoundedIsNear(e: Expression, m: int)
    requires WellFormedExpression(e) && e.hasYear && FieldMatches(e.year, Year(m)) && Bounded(e.year)
    ensures DayNumber(m) < YearStart(e.year.max + 1)
  {
    hide YearStart, DayNumber, Year, FieldMatches, Bounded;
    LastYear(e.year, Year(m));
    YearsAscend(Year(m) + 1, e.year.max + 1);
  }

  lemma {:induction false} FirstIsNear(e: Expression, from: int, m: int, n: int)
    requires WellFormedExpression(e) && IsNext(Fires(e), from, m) && WithinReach(e, from, n)
    ensures DayNumber(m) - DayNumber(FirstSecond(from)) + 2 * DAY <= n
  {
    hide Perennial, Bounded, YearStart, DayNumber, Year, Month, Day, Weekday, Hour, Minute, Second, FieldMatches;
    assert Fires(e)(m);
    if Perennial(e) && PERIOD + 2 * DAY <= n {
      RepeatIsNear(e, from, m);
    } else {
      BoundedIsNear(e, m);
    }
  }

  lemma {:induction false} LastYear(f: Field, y: int)
    requires WellFormed(f) && Bounded(f) && FieldMatches(f, y)
    ensures y <= f.max
  {
    var i :| 0 <= i < |f.values| && ValueMatches(f.values[i], y);
    assert !f.values[i].Wildcard?;
  }

  lemma {:induction false} NoneSoonIsNever(e: Expression, from: int, n: int)
    requires WellFormedExpression(e) && NoneSoon(e, from, n) && WithinReach(e, from, n)
    ensures Never(e, from)
  {
    forall t | from < t * SECOND ensures !Matches(e, t) {
      if Matches(e, t) {
        var m := FirstExists(e, from, t);
        FirstIsNear(e, from, m, n);
      }
    }
  }

  /** With the default limit an error means that no later second ever matches. */
  method NextTime(expr: Option<Expression>, from: int) returns (r: NextResult)
    requires expr.Some? ==> WellFormedExpression(expr.value)
    ensures r.InvalidExpression? <==> expr.None?
    ensures r.Found? ==> IsNext(Fires(expr.value), from, r.time)
    ensures r.NoNextTime? ==> Stuck(expr.value, from)
    ensures expr.Some? && WithinReach(expr.value, from, DEFAULT_MAX_ITERATIONS) ==> (r.NoNextTime? <==> Never(expr.value, from))
    ensures expr.Some? && SilentYears(expr.value, Year(FirstSecond(from)), DEFAULT_MAX_ITERATIONS) ==> r.NoNextTime?
  {
    r := NextTimeWithConfig(expr, from, DEFAULT_MAX_ITERATIONS);
    if r.NoNextTime? && WithinReach(expr.value, from, DEFAULT_MAX_ITERATIONS) {
      NoneSoonIsNever(expr.value, from, DEFAULT_MAX_ITERATIONS);
    }
    assert r.Found? ==> Fires(expr.value)(r.time);
  }

  ghost predicate Stuck(e: Expression, from: int)
    requires WellFormedExpression(e)
  {
    && NoneIn(e, FirstSecond(from), FirstSecond(from) + DEFAULT_MAX_ITERATIONS) && NoneSoon(e, from, DEFAULT_MAX_ITERATIONS)
    && (WithinReach(e, from, DEFAULT_MAX_ITERATIONS) ==> Never(e, from))
  }

  const IN_2030: Expression := Expression(ANY, ANY, ANY, ANY, ANY, ANY, Field([Single(2030)], 1970, 2100), true)

  const ANY: Field := Field([Wildcard], 0, 59)

  /** The last nanosecond before the year -40000000. */
  const LONG_AGO: int := Date(-40000000, 1, 1, 0, 0, 0) * SECOND - 1

  /** From far enough back the search gives up, although there are matches. */
  method GivesUp() returns (r: NextResult)
    ensures r == NoNextTime && !Never(IN_2030, LONG_AGO)
  {
    hide *;
    LongAgo();
    Silent();
    Fires2030();
    r := NextTime(Some(IN_2030), LONG_AGO);
  }

  lemma {:induction false} LongAgo()
    ensures Year(FirstSecond(LONG_AGO)) == -40000000 && WellFormedExpression(IN_2030)
  {
    DateFields(-40000000, 1, 1, 0, 0, 0);
    assert FirstSecond(LONG_AGO) == Date(-40000000, 1, 1, 0, 0, 0);
  }

  lemma {:induction false} Silent()
    ensures SilentYears(IN_2030, -40000000, DEFAULT_MAX_ITERATIONS)
  {
  }

  lemma {:induction false} Fires2030()
    ensures !Never(IN_2030, LONG_AGO)
  {
    var t := Date(2030, 1, 1, 0, 0, 0);
    DateFields(2030, 1, 1, 0, 0, 0);
    AnyTime(t);
    YearsAscend(-40000000, 2030);
    DateValue(2030, 1, 1, 0, 0, 0);
    DateValue(-40000000, 1, 1, 0, 0, 0);
  }

  lemma {:induction false} AnyTime(t: int)
    requires Year(t) == 2030
    ensures Matches(IN_2030, t)
  {
    hide Year, Month, Day, Hour, Minute, Second, Weekday;
    RealDatesAreValid(t);
    assert ValueMatches(IN_2030.year.values[0], Year(t));
    assert forall x {:trigger FieldMatches(ANY, x)} :: FieldMatches(ANY, x) by {
      forall x ensures FieldMatches(ANY, x) { assert ValueMatches(ANY.values[0], x); }
    }
  }

  function Last(from: int, times: seq<int>): int { if times == [] then from else times[|times| - 1] * SECOND }

  /** The first count matches after from; or an error, when fewer were found and the search after
      them fails. */
  method NextTimes(expr: Option<Expression>, from: int, count: int) returns (ok: bool, times: seq<int>)
    requires (expr.Some? ==> WellFormedExpression(expr.value)) && count >= 0
    ensures expr.None? ==> (ok <==> count == 0)
    ensures if ok then |times| == count else times == []
    ensures ok && expr.Some? ==> FirstMatches(Fires(expr.value), from, times)
    ensures !ok && expr.Some? ==>
      exists found :: |found| < count && FirstMatches(Fires(expr.value), from, found) && Stuck(expr.value, Last(from, found))
  {
    hide Stuck, Fires, FirstMatches, IsNext, Never, WithinReach, NoneIn;
    times := [];
    if expr.Some? { NothingYet(Fires(expr.value), from); }
    var current := from;
    var i := 0;
    while i < count
      invariant |times| == i <= count
      invariant expr.Some? ==> FirstMatches(Fires(expr.value), from, times)
      invariant current == Last(from, times)
      invariant expr.None? ==> times == []
    {
      var next := NextTime(expr, current);
      if !next.Found? {
        assert expr.Some? ==> FirstMatches(Fires(expr.value), from, times) && Stuck(expr.value, Last(from, times));
        return false, [];
      }
      ExtendMatches(Fires(expr.value), from, times, next.time);
      times := times + [next.time];
      current := next.time * SECOND;
      i := i + 1;
    }
    return true, times;
  }

  lemma NothingYet(fires: int -> bool, from: int)
    ensures FirstMatches(fires, from, [])
  {
  }

  lemma {:induction false} ExtendMatches(fires: int -> bool, from: int, times: seq<int>, t: int)
    requires FirstMatches(fires, from, times)
    requires IsNext(fires, Last(from, times), t)
    ensures FirstMatches(fires, from, times + [t])
  {
    var all := times + [t];
    forall u | from < u * SECOND && u <= t && fires(u)
      ensures u in all
    {
      if u < t {
        assert times != [] && u <= times[|times| - 1];
        assert u in times;
      } else {
        assert all[|times|] == u;
      }
    }
  }
}
