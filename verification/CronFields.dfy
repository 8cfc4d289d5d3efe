/** What the fields of a cron expression mean: the values they expand to.  A second fires exactly
    when each of its fields is among those values. */
module CronFields {
  import opened Calendar
  import opened Cron
  import opened Options

  /** low, low + step and so on, up to high. */
  function Count(low: int, high: int, step: int): seq<int>
    requires step > 0
    decreases high - low
  {
    if low > high then [] else [low] + Count(low + step, high, step)
  }

  /** The values a part of a field stands for, given the field's range. */
  function Values(v: FieldValue, min: int, max: int): seq<int>
    requires v.Step? ==> v.step > 0
  {
    match v
    case Wildcard => Count(min, max, 1)
    case Single(y) => [y]
    case Range(low, high) => Count(low, high, 1)
    case Step(low, high, step) => Count(low, high, step)
  }

  lemma AtLeast(k: int, d: int)
    requires k >= 1 && d > 0
    ensures k * d >= d
  {
  }

  lemma SameRest(a: int, r: int, b: int, q: int, d: int)
    requires d > 0 && 0 <= r < d && 0 <= q < d && a * d + r == b * d + q
    ensures r == q
  {
    assert (a - b) * d == a * d - b * d;
    assert (b - a) * d == b * d - a * d;
    if a > b { AtLeast(a - b, d); } else if b > a { AtLeast(b - a, d); }
  }

  lemma OneStepLess(y: int, d: int)
    requires d > 0
    ensures (y - d) % d == y % d
  {
    var a, b := y / d, (y - d) / d;
    assert y == a * d + y % d && y - d == b * d + (y - d) % d;
    assert (b + 1) * d == b * d + d;
    SameRest(a, y % d, b + 1, (y - d) % d, d);
  }

  lemma {:induction false} CountHas(low: int, high: int, step: int, x: int)
    requires step > 0
    ensures x in Count(low, high, step) <==> low <= x <= high && (x - low) % step == 0
    decreases high - low
  {
    if low <= high {
      CountHas(low + step, high, step, x);
      OneStepLess(x - low, step);
      if low < x < low + step { assert 0 < x - low < step && (x - low) % step == x - low; }
    }
  }

  predicate Rising(s: seq<int>) { forall i, j :: 0 <= i < j < |s| ==> s[i] < s[j] }

  /** The tests of matches hold exactly for the values of a part. */
  lemma ValueIs(v: FieldValue, min: int, max: int, x: int)
    requires (v.Step? ==> v.step > 0) && (v.Wildcard? ==> min <= x <= max)
    ensures ValueMatches(v, x) <==> x in Values(v, min, max)
  {
    match v
    case Wildcard => CountHas(min, max, 1, x);
    case Single(_) =>
    case Range(low, high) => CountHas(low, high, 1, x);
    case Step(low, high, step) => CountHas(low, high, step, x);
  }

  /** The loop that counts up. */
  method CountUp(low: int, high: int, step: int) returns (r: seq<int>)
    requires step > 0
    ensures r == Count(low, high, step)
  {
    r := [];
    var i := low;
    while i <= high
      invariant r + Count(i, high, step) == Count(low, high, step)
      decreases high - i
    {
      r := r + [i];
      i := i + step;
    }
  }

  method ExpandValue(v: FieldValue, min: int, max: int) returns (r: seq<int>)
    requires v.Step? ==> v.step > 0
    ensures r == Values(v, min, max)
  {
    match v
    case Wildcard => r := CountUp(min, max, 1);
    case Single(y) => r := [y];
    case Range(low, high) => r := CountUp(low, high, 1);
    case Step(low, high, step) => r := CountUp(low, high, step);
  }

  /** Some part of the field has the value. */
  ghost predicate Listed(f: Field, n: int, x: int)
    requires WellFormed(f) && n <= |f.values|
  {
    exists i :: 0 <= i < n && x in Values(f.values[i], f.min, f.max)
  }

  /** sort.Ints, on values that are all different. */
  method Insert(s: seq<int>, x: int) returns (r: seq<int>)
    requires Rising(s)
    ensures Rising(r) && forall y :: y in r <==> y in s || y == x
  {
    var i := 0;
    while i < |s| && s[i] < x
      invariant 0 <= i <= |s| && forall j :: 0 <= j < i ==> s[j] < x
    {
      i := i + 1;
    }
    if i < |s| && s[i] == x { return s; }
    r := s[..i] + [x] + s[i..];
    Inserted(s, i, x);
  }

  lemma Inserted(s: seq<int>, i: int, x: int)
    requires Rising(s) && 0 <= i <= |s| && (forall j :: 0 <= j < i ==> s[j] < x) && (i < |s| ==> x < s[i])
    ensures var r := s[..i] + [x] + s[i..]; Rising(r) && forall y :: y in r <==> y in s || y == x
  {
    InsertedRises(s, i, x);
    hide Rising;
    InsertedIn(s[..i], x, s[i..]);
    assert s == s[..i] + s[i..];
  }

  lemma InsertedRises(s: seq<int>, i: int, x: int)
    requires Rising(s) && 0 <= i <= |s| && (forall j :: 0 <= j < i ==> s[j] < x) && (i < |s| ==> x < s[i])
    ensures Rising(s[..i] + [x] + s[i..])
  {
    var r := s[..i] + [x] + s[i..];
    forall j, k | 0 <= j < k < |r| ensures r[j] < r[k] {
      assert r[j] == if j < i then s[j] else if j == i then x else s[j - 1];
      assert r[k] == if k < i then s[k] else if k == i then x else s[k - 1];
    }
  }

  lemma InsertedIn(a: seq<int>, x: int, b: seq<int>)
    ensures forall y :: y in a + [x] + b <==> y in a + b || y == x
  {
  }

  /** CronField.Expand: all values of all parts, once each and in order. */
  method Expand(f: Field) returns (r: seq<int>)
    requires WellFormed(f)
    ensures Rising(r) && forall x :: x in r <==> Listed(f, |f.values|, x)
  {
    r := [];
    for i := 0 to |f.values|
      invariant Rising(r) && forall x :: x in r <==> Listed(f, i, x)
    {
      var values := ExpandValue(f.values[i], f.min, f.max);
      ghost var before := r;
      for j := 0 to |values|
        invariant Rising(r) && forall x :: x in r <==> x in before || x in values[..j]
      {
        r := Insert(r, values[j]);
        assert values[..j + 1] == values[..j] + [values[j]];
      }
      assert values[..|values|] == values;
      forall x ensures x in r <==> Listed(f, i + 1, x) {
        if x in values { assert x in Values(f.values[i], f.min, f.max); }
        if Listed(f, i + 1, x) && x !in values {
          var k :| 0 <= k < i + 1 && x in Values(f.values[k], f.min, f.max);
          assert Listed(f, i, x);
        }
      }
    }
  }

  /** A field matches a value of its range exactly when it expands to it. */
  lemma FieldIs(f: Field, x: int)
    requires WellFormed(f) && f.min <= x <= f.max
    ensures FieldMatches(f, x) <==> Listed(f, |f.values|, x)
  {
    if FieldMatches(f, x) {
      var i :| 0 <= i < |f.values| && ValueMatches(f.values[i], x);
      ValueIs(f.values[i], f.min, f.max, x);
    }
    if Listed(f, |f.values|, x) {
      var i :| 0 <= i < |f.values| && x in Values(f.values[i], f.min, f.max);
      ValueIs(f.values[i], f.min, f.max, x);
    }
  }

  ghost predicate Has(f: Field, x: int)
    requires WellFormed(f)
  {
    Listed(f, |f.values|, x)
  }

  /** The ranges the parser gives the fields. */
  predicate Ranged(e: Expression) {
    && e.second.min == 0 && e.second.max == 59 && e.minute.min == 0 && e.minute.max == 59
    && e.hour.min == 0 && e.hour.max == 23 && e.day.min == 1 && e.day.max == 31
    && e.month.min == 1 && e.month.max == 12 && e.weekday.min == 0 && e.weekday.max == 6
    && e.year.min == 1970 && e.year.max == 2100
  }

  lemma WildcardHasAll(f: Field, x: int)
    requires WellFormed(f) && IsWildcard(f)
    ensures FieldMatches(f, x)
  {
    assert ValueMatches(f.values[0], x);
  }

  /** Whichever of day and weekday is given, both have to match. */
  lemma DayIsBoth(e: Expression, day: int, weekday: int)
    requires WellFormedExpression(e)
    ensures DayMatches(e, day, weekday) <==> FieldMatches(e.day, day) && FieldMatches(e.weekday, weekday)
  {
    if IsWildcard(e.day) { WildcardHasAll(e.day, day); }
    if IsWildcard(e.weekday) { WildcardHasAll(e.weekday, weekday); }
  }

  /** A second fires exactly when all its fields, read off the calendar, are values of the
      expression's. */
  lemma MatchesMeans(e: Expression, t: int)
    requires WellFormedExpression(e) && Ranged(e) && (e.hasYear ==> 1970 <= Year(t) <= 2100)
    ensures Matches(e, t) <==>
      && Has(e.second, Second(t)) && Has(e.minute, Minute(t)) && Has(e.hour, Hour(t))
      && Has(e.day, Day(t)) && Has(e.month, Month(t)) && Has(e.weekday, Weekday(t)) && (e.hasYear ==> Has(e.year, Year(t)))
  {
    hide Year, Month, Day, Hour, Minute, Second, Weekday, Listed, FieldMatches;
    FieldsRoundTrip(t);
    NextWeekday(t);
    MonthLength(Year(t), Month(t));
    RealDatesAreValid(t);
    DayIsBoth(e, Day(t), Weekday(t));
    FieldIs(e.second, Second(t));
    FieldIs(e.minute, Minute(t));
    FieldIs(e.hour, Hour(t));
    FieldIs(e.day, Day(t));
    FieldIs(e.month, Month(t));
    FieldIs(e.weekday, Weekday(t));
    if e.hasYear { FieldIs(e.year, Year(t)); }
  }

  // ---------------------------------------------------------------------------- examples

  function Only(x: int, min: int, max: int): Field { Field([Single(x)], min, max) }

  function All(min: int, max: int): Field { Field([Wildcard], min, max) }

  const MONDAY_NOON: Expression :=
    Expression(Only(0, 0, 59), Only(0, 0, 59), Only(12, 0, 23), All(1, 31), All(1, 12), Only(1, 0, 6), All(1970, 2100), false)

  const LEAP_DAY: Expression :=
    Expression(Only(0, 0, 59), Only(0, 0, 59), Only(0, 0, 23), Only(29, 1, 31), Only(2, 1, 12), All(0, 6), All(1970, 2100), false)

  lemma OnlyIs(x: int, min: int, max: int, y: int)
    ensures WellFormed(Only(x, min, max)) && (FieldMatches(Only(x, min, max), y) <==> y == x)
    ensures WellFormed(All(min, max)) && FieldMatches(All(min, max), y)
  {
    assert ValueMatches(Only(x, min, max).values[0], y) <==> y == x;
    assert ValueMatches(All(min, max).values[0], y);
  }

  lemma MondayNoonIs(t: int)
    ensures WellFormedExpression(MONDAY_NOON)
    ensures Matches(MONDAY_NOON, t) <==> Weekday(t) == 1 && Hour(t) == 12 && Minute(t) == 0 && Second(t) == 0
  {
    hide Year, Month, Day, Hour, Minute, Second, Weekday, FieldMatches, IsValidDay;
    RealDatesAreValid(t);
    OnlyIs(0, 0, 59, Second(t));
    OnlyIs(0, 0, 59, Minute(t));
    OnlyIs(12, 0, 23, Hour(t));
    OnlyIs(0, 1, 31, Day(t));
    OnlyIs(0, 1, 12, Month(t));
    OnlyIs(1, 0, 6, Weekday(t));
    OnlyIs(0, 1970, 2100, Year(t));
    DayIsBoth(MONDAY_NOON, Day(t), Weekday(t));
  }

  lemma {:induction false} MondaysFromEpoch(u: int)
    requires 0 <= u && Weekday(u) == 1 && Hour(u) == 12
    ensures 388800 <= u
  {
    TimeOfDay(u);
    assert DayNumber(u) !in {0, 1, 2, 3};
  }

  lemma {:induction false} FifthOfJanuary()
    ensures Date(1970, 1, 5, 12, 0, 0) == 388800 && Weekday(388800) == 1 && Hour(388800) == 12 && Minute(388800) == 0 && Second(388800) == 0
  {
    DateValue(1970, 1, 5, 12, 0, 0);
  }

  /** The first Monday after the epoch is 5 January 1970. */
  lemma FirstMonday()
    ensures WellFormedExpression(MONDAY_NOON) && IsNext(Fires(MONDAY_NOON), 0, Date(1970, 1, 5, 12, 0, 0))
  {
    hide Weekday, Hour, Minute, Second, Matches, Date;
    FifthOfJanuary();
    MondayNoonIs(388800);
    forall u | 0 < u * SECOND && u < 388800 ensures !Fires(MONDAY_NOON)(u) {
      MondayNoonIs(u);
      if Matches(MONDAY_NOON, u) { MondaysFromEpoch(u); }
    }
  }

  lemma LeapDayIs(t: int)
    ensures WellFormedExpression(LEAP_DAY)
    ensures Matches(LEAP_DAY, t) <==> Month(t) == 2 && Day(t) == 29 && Hour(t) == 0 && Minute(t) == 0 && Second(t) == 0
  {
    hide Year, Month, Day, Hour, Minute, Second, Weekday, FieldMatches, IsValidDay;
    RealDatesAreValid(t);
    OnlyIs(0, 0, 59, Second(t));
    OnlyIs(0, 0, 59, Minute(t));
    OnlyIs(0, 0, 23, Hour(t));
    OnlyIs(29, 1, 31, Day(t));
    OnlyIs(2, 1, 12, Month(t));
    OnlyIs(0, 0, 6, Weekday(t));
    OnlyIs(0, 1970, 2100, Year(t));
    DayIsBoth(LEAP_DAY, Day(t), Weekday(t));
  }

  /** 2100 has no leap day, so a search after that of 2096 goes on to 2104. */
  lemma FirstLeapDay()
    ensures WellFormedExpression(LEAP_DAY)
    ensures IsNext(Fires(LEAP_DAY), Date(2096, 3, 1, 0, 0, 0) * SECOND, Date(2104, 2, 29, 0, 0, 0))
  {
    hide Matches, Date, Year, Month, Day, Hour, Minute, Second;
    var from, t := Date(2096, 3, 1, 0, 0, 0), Date(2104, 2, 29, 0, 0, 0);
    MonthLengths(2104, 2);
    DateFields(2104, 2, 29, 0, 0, 0);
    LeapDayIs(t);
    LeapDaysBetween(t);
    forall u | from * SECOND < u * SECOND && u < t ensures !Fires(LEAP_DAY)(u) {
      LeapDayIs(u);
      if Matches(LEAP_DAY, u) { LeapDaysBetween(u); }
    }
  }

  lemma {:induction false} LeapDaysBetween(u: int)
    requires Month(u) == 2 && Day(u) == 29 && Hour(u) == 0 && Minute(u) == 0 && Second(u) == 0
    ensures Date(2096, 3, 1, 0, 0, 0) < Date(2104, 2, 29, 0, 0, 0)
    ensures Date(2096, 3, 1, 0, 0, 0) <= u ==> Date(2104, 2, 29, 0, 0, 0) <= u
  {
    hide Year, Month, Day, Hour, Minute, Second, DaysBefore, IsLeap;
    var y := Year(u);
    FieldsRoundTrip(u);
    DateValue(y, 2, 29, 0, 0, 0);
    DateValue(2096, 3, 1, 0, 0, 0);
    DateValue(2104, 2, 29, 0, 0, 0);
    MonthLengths(y, 2);
    FebruaryStarts(y);
    FebruaryStarts(2104);
    MarchStarts();
    if y < 2096 { YearsAscend(y, 2095); }
    if y > 2104 { YearsAscend(2104, y); }
  }

  lemma FebruaryStarts(y: int)
    ensures DaysBefore(y, 2) == 31
  {
  }

  lemma MarchStarts()
    ensures DaysBefore(2096, 3) == 60 && YearStart(2095) + 365 == YearStart(2096) && YearStart(2096) == 46021 && YearStart(2104) == 48942
  {
  }

  lemma ThoseSeconds()
    ensures Date(1970, 1, 5, 12, 0, 0) == 388800 && Date(2104, 2, 29, 0, 0, 0) == 4233686400
  {
    DateValue(1970, 1, 5, 12, 0, 0);
    DateValue(2104, 2, 29, 0, 0, 0);
    FebruaryStarts(2104);
    MarchStarts();
  }

  lemma NextIsOne(fires: int -> bool, from: int, t: int, u: int)
    requires IsNext(fires, from, t) && IsNext(fires, from, u)
    ensures t == u
  {
  }

  method NextMonday() returns (r: NextResult)
    ensures r == Found(Date(1970, 1, 5, 12, 0, 0)) && r.time == 388800
  {
    hide Matches, Date, WithinReach, Never, IsNext;
    FirstMonday();
    ThoseSeconds();
    r := FindsIt(MONDAY_NOON, 0, Date(1970, 1, 5, 12, 0, 0));
  }

  /** What NextTime answers when the next time is known. */
  method FindsIt(e: Expression, from: int, t: int) returns (r: NextResult)
    requires WellFormedExpression(e) && !e.hasYear && IsNext(Fires(e), from, t)
    ensures r == Found(t)
  {
    r := NextTime(Some(e), from);
    assert Perennial(e) && WithinReach(e, from, DEFAULT_MAX_ITERATIONS);
    assert Fires(e)(t) && Matches(e, t);
    assert !Never(e, from);
    NextIsOne(Fires(e), from, t, r.time);
  }

  method NextLeapDay() returns (r: NextResult)
    ensures r == Found(Date(2104, 2, 29, 0, 0, 0)) && r.time == 4233686400
  {
    hide Matches, Date, WithinReach, Never, IsNext;
    FirstLeapDay();
    ThoseSeconds();
    r := FindsIt(LEAP_DAY, Date(2096, 3, 1, 0, 0, 0) * SECOND, Date(2104, 2, 29, 0, 0, 0));
  }
}
