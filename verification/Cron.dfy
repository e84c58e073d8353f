/** The next run of a five-field cron expression over the real calendar
    (fastapi_modular/core/cron.py), in naive wall-clock minutes: the search jumps
    over months, days and hours that cannot match and gives up after about five
    years. It finds the first match, and when it gives up although there is one
    later is stated exactly. */
module Cron {
  import opened Wrappers

  // ------------------------------------------------------------- calendar

  datatype Moment = Moment(year: int, month: int, day: int, hour: int, minute: int)

  predicate IsLeap(year: int) {
    year % 4 == 0 && (year % 100 != 0 || year % 400 == 0)
  }

  function DaysInMonth(year: int, month: int): int {
    if month == 2 then (if IsLeap(year) then 29 else 28)
    else if month == 4 || month == 6 || month == 9 || month == 11 then 30
    else 31
  }

  predicate Valid(x: Moment) {
    && 1 <= x.year && 1 <= x.month <= 12 && 1 <= x.day <= DaysInMonth(x.year, x.month)
    && 0 <= x.hour < 24 && 0 <= x.minute < 60
  }

  function DaysBeforeYear(year: int): int {
    var y := year - 1;
    y * 365 + y / 4 - y / 100 + y / 400
  }

  function DaysBeforeMonth(year: int, month: int): int
    requires 1 <= month <= 13
    decreases month
  {
    if month == 1 then 0 else DaysBeforeMonth(year, month - 1) + DaysInMonth(year, month - 1)
  }

  /** Python's toordinal(): 1 is the first of January of year 1. */
  function Ordinal(x: Moment): int
    requires Valid(x)
  {
    DaysBeforeYear(x.year) + DaysBeforeMonth(x.year, x.month) + x.day
  }

  /** Minutes on the time line. */
  function Index(x: Moment): int
    requires Valid(x)
  {
    Ordinal(x) * 1440 + x.hour * 60 + x.minute
  }

  /** Python's weekday() of an ordinal day; Monday is 0. */
  function Weekday(ordinal: int): int {
    (ordinal + 6) % 7
  }

  predicate Earlier(a: Moment, b: Moment) {
    a.year < b.year || (a.year == b.year &&
      (a.month < b.month || (a.month == b.month &&
        (a.day < b.day || (a.day == b.day &&
          (a.hour < b.hour || (a.hour == b.hour && a.minute < b.minute)))))))
  }

  lemma TwelveMonths(year: int)
    ensures DaysBeforeMonth(year, 13) == if IsLeap(year) then 366 else 365
  {
  }

  lemma CountMultiples(n: int, k: int)
    requires 0 <= n && k in {4, 100, 400}
    ensures (n + 1) / k == n / k + if (n + 1) % k == 0 then 1 else 0
  {
  }

  lemma HundredsAreFours(year: int)
    ensures year % 400 == 0 ==> year % 100 == 0
    ensures year % 100 == 0 ==> year % 4 == 0
  {
  }

  lemma LeapDays(year: int)
    requires 1 <= year
    ensures year / 4 - year / 100 + year / 400
      == (year - 1) / 4 - (year - 1) / 100 + (year - 1) / 400 + if IsLeap(year) then 1 else 0
  {
    CountMultiples(year - 1, 4);
    CountMultiples(year - 1, 100);
    CountMultiples(year - 1, 400);
    HundredsAreFours(year);
  }

  lemma YearLength(year: int)
    requires 1 <= year
    ensures DaysBeforeYear(year + 1) == DaysBeforeYear(year) + DaysBeforeMonth(year, 13)
  {
    TwelveMonths(year);
    LeapDays(year);
  }

  lemma {:induction false} MonthsAscend(year: int, m: int, n: int)
    requires 1 <= m < n <= 13
    ensures DaysBeforeMonth(year, m) + DaysInMonth(year, m) <= DaysBeforeMonth(year, n)
    decreases n
  {
    if m + 1 < n {
      MonthsAscend(year, m, n - 1);
    }
  }

  lemma {:induction false} YearsAscend(y: int, z: int)
    requires 1 <= y < z
    ensures DaysBeforeYear(y) + DaysBeforeMonth(y, 13) <= DaysBeforeYear(z)
    decreases z
  {
    YearLength(z - 1);
    if y + 1 < z {
      YearsAscend(y, z - 1);
      if 1 < 13 { MonthsAscend(z - 1, 1, 13); }
    }
  }

  /** Inside its year: a moment's day falls between the year's bounds. */
  lemma WithinYear(x: Moment)
    requires Valid(x)
    ensures DaysBeforeYear(x.year) < Ordinal(x) <= DaysBeforeYear(x.year) + DaysBeforeMonth(x.year, 13)
  {
  }

  lemma EarlierIsSmaller(a: Moment, b: Moment)
    requires Valid(a) && Valid(b) && Earlier(a, b)
    ensures Index(a) < Index(b)
  {
    if a.year < b.year {
      WithinYear(a);
      WithinYear(b);
      YearsAscend(a.year, b.year);
    } else if a.month < b.month {
      MonthsAscend(a.year, a.month, b.month);
    }
  }

  /** The field-by-field order of datetime is the order of the time line. */
  lemma OrderIsIndex(a: Moment, b: Moment)
    requires Valid(a) && Valid(b)
    ensures Earlier(a, b) <==> Index(a) < Index(b)
    ensures Index(a) == Index(b) ==> a == b
  {
    if Earlier(a, b) {
      EarlierIsSmaller(a, b);
    } else if Earlier(b, a) {
      EarlierIsSmaller(b, a);
    } else {
      assert a == b;
    }
  }

  // ------------------------------------------------------- the expression

  datatype Expression = Expression(
    minutes: set<int>, hours: set<int>, days: set<int>, months: set<int>, weekdays: set<int>,
    dayStar: bool, weekdayStar: bool)

  /** Both day fields are always checked; a leading star in either joins them
      with AND, otherwise with OR. Cron counts weekdays from Sunday. */
  predicate DayFits(c: Expression, ordinal: int, day: int) {
    var byDay, byWeekday := day in c.days, (Weekday(ordinal) + 1) % 7 in c.weekdays;
    if c.dayStar || c.weekdayStar then byDay && byWeekday else byDay || byWeekday
  }

  predicate DayMatches(c: Expression, x: Moment)
    requires Valid(x)
  {
    DayFits(c, Ordinal(x), x.day)
  }

  predicate Matches(c: Expression, x: Moment)
    requires Valid(x)
  {
    x.minute in c.minutes && x.hour in c.hours && x.month in c.months && DayMatches(c, x)
  }

  /** What a moment must meet, in terms of its fields: with two plain day fields
      either of them suffices, with a leading star in one both are needed. The
      first day of the calendar, ordinal 1, was a Monday, so the remainder by 7
      counts weekdays from Sunday. */
  lemma MatchIff(c: Expression, x: Moment)
    requires Valid(x)
    ensures Matches(c, x) <==>
      && x.minute in c.minutes && x.hour in c.hours && x.month in c.months
      && (!c.dayStar && !c.weekdayStar ==> x.day in c.days || Ordinal(x) % 7 in c.weekdays)
      && (c.dayStar || c.weekdayStar ==> x.day in c.days && Ordinal(x) % 7 in c.weekdays)
  {
    SundayFirst(Ordinal(x));
  }

  lemma SundayFirst(ordinal: int)
    ensures (Weekday(ordinal) + 1) % 7 == ordinal % 7
  {
  }

  /** The days the calendar counts: thirty in four months, one more in the others
      but February, whose 29th comes every fourth year, though of the full
      centuries only in every fourth. */
  lemma CalendarIsGregorian(year: int, month: int)
    requires 1 <= month <= 12
    ensures month in {4, 6, 9, 11} ==> DaysInMonth(year, month) == 30
    ensures month in {1, 3, 5, 7, 8, 10, 12} ==> DaysInMonth(year, month) == 31
    ensures DaysInMonth(year, 2) == 28 + if year % 400 == 0 || (year % 4 == 0 && year % 100 != 0) then 1 else 0
  {
    HundredsAreFours(year);
  }

  /** The 29th of September 2024 was a Sunday. */
  lemma KnownSunday()
    ensures Valid(Moment(2024, 9, 29, 0, 0)) && Ordinal(Moment(2024, 9, 29, 0, 0)) % 7 == 0
  {
    assert DaysBeforeMonth(2024, 2) == DaysBeforeMonth(2024, 1) + 31 == 31;
    assert DaysBeforeMonth(2024, 4) == DaysBeforeMonth(2024, 3) + 31 == 91;
    assert DaysBeforeMonth(2024, 6) == DaysBeforeMonth(2024, 5) + 31 == 152;
    assert DaysBeforeMonth(2024, 8) == DaysBeforeMonth(2024, 7) + 31 == 213;
    assert DaysBeforeMonth(2024, 9) == 244;
  }

  function StartOfNextMonth(x: Moment): (r: Moment)
    requires Valid(x)
    ensures Valid(r)
  {
    if x.month == 12 then Moment(x.year + 1, 1, 1, 0, 0)
    else Moment(x.year, x.month + 1, 1, 0, 0)
  }

  function StartOfNextDay(x: Moment): (r: Moment)
    requires Valid(x)
    ensures Valid(r)
  {
    if x.day >= DaysInMonth(x.year, x.month) then StartOfNextMonth(x)
    else Moment(x.year, x.month, x.day + 1, 0, 0)
  }

  /** `(x + timedelta(hours=1)).replace(minute=0)` */
  function StartOfNextHour(x: Moment): (r: Moment)
    requires Valid(x)
    ensures Valid(r)
  {
    if x.hour == 23 then StartOfNextDay(x) else x.(hour := x.hour + 1, minute := 0)
  }

  /** `x + timedelta(minutes=1)` */
  function NextMinute(x: Moment): (r: Moment)
    requires Valid(x)
    ensures Valid(r)
  {
    if x.minute == 59 then StartOfNextHour(x) else x.(minute := x.minute + 1)
  }

  /** Between a moment and the start of its next month lies only its month,
      and likewise for day and hour. */
  lemma JumpsSkipOneUnit(x: Moment, y: Moment)
    requires Valid(x) && Valid(y) && Index(x) <= Index(y)
    ensures Index(y) < Index(StartOfNextMonth(x)) ==> (y.year, y.month) == (x.year, x.month)
    ensures Index(y) < Index(StartOfNextDay(x)) ==> (y.year, y.month, y.day) == (x.year, x.month, x.day)
    ensures Index(y) < Index(StartOfNextHour(x)) ==>
      (y.year, y.month, y.day, y.hour) == (x.year, x.month, x.day, x.hour)
  {
    OrderIsIndex(y, x);
    OrderIsIndex(y, StartOfNextMonth(x));
    OrderIsIndex(y, StartOfNextDay(x));
    OrderIsIndex(y, StartOfNextHour(x));
  }

  lemma NextDayIsOneLater(x: Moment)
    requires Valid(x)
    ensures Ordinal(StartOfNextDay(x)) == Ordinal(x) + 1
  {
    if x.day == DaysInMonth(x.year, x.month) && x.month == 12 {
      YearLength(x.year);
      assert DaysBeforeMonth(x.year, 13) == DaysBeforeMonth(x.year, 12) + 31;
    }
  }

  lemma NextMinuteIsOneLater(x: Moment)
    requires Valid(x)
    ensures Index(NextMinute(x)) == Index(x) + 1
  {
    NextDayIsOneLater(x);
  }

  // ------------------------------------------------------------ next_after

  const MAX_LOOKAHEAD_YEARS := 5

  function Limit(x: Moment): int
    requires Valid(x)
  {
    Index(x) + 366 * MAX_LOOKAHEAD_YEARS * 1440
  }

  /** No minute strictly between the two indexes matches. */
  ghost predicate NoneBetween(c: Expression, after: int, before: int) {
    forall x :: Valid(x) && after < Index(x) < before ==> !Matches(c, x)
  }

  lemma SkipMonth(c: Expression, after: int, x: Moment)
    requires Valid(x) && NoneBetween(c, after, Index(x)) && x.month !in c.months
    ensures NoneBetween(c, after, Index(StartOfNextMonth(x))) && Index(x) < Index(StartOfNextMonth(x))
  {
    EarlierIsSmaller(x, StartOfNextMonth(x));
    forall y | Valid(y) && Index(x) <= Index(y) < Index(StartOfNextMonth(x)) ensures !Matches(c, y) {
      JumpsSkipOneUnit(x, y);
    }
  }

  lemma SkipDay(c: Expression, after: int, x: Moment)
    requires Valid(x) && NoneBetween(c, after, Index(x)) && !DayMatches(c, x)
    ensures NoneBetween(c, after, Index(StartOfNextDay(x))) && Index(x) < Index(StartOfNextDay(x))
  {
    EarlierIsSmaller(x, StartOfNextDay(x));
    forall y | Valid(y) && Index(x) <= Index(y) < Index(StartOfNextDay(x)) ensures !Matches(c, y) {
      JumpsSkipOneUnit(x, y);
      assert Ordinal(y) == Ordinal(x);
    }
  }

  lemma SkipHour(c: Expression, after: int, x: Moment)
    requires Valid(x) && NoneBetween(c, after, Index(x)) && x.hour !in c.hours
    ensures NoneBetween(c, after, Index(StartOfNextHour(x))) && Index(x) < Index(StartOfNextHour(x))
  {
    EarlierIsSmaller(x, StartOfNextHour(x));
    forall y | Valid(y) && Index(x) <= Index(y) < Index(StartOfNextHour(x)) ensures !Matches(c, y) {
      JumpsSkipOneUnit(x, y);
    }
  }

  lemma SkipMinute(c: Expression, after: int, x: Moment)
    requires Valid(x) && NoneBetween(c, after, Index(x)) && x.minute !in c.minutes
    ensures NoneBetween(c, after, Index(NextMinute(x))) && Index(x) < Index(NextMinute(x))
  {
    NextMinuteIsOneLater(x);
    forall y | Valid(y) && Index(y) == Index(x) ensures !Matches(c, y) {
      OrderIsIndex(x, y);
    }
  }

  datatype CronError = NoRunInSight

  /** The least matching minute strictly after the given one, or an error
      exactly when there is none up to the limit: the jumps skip no match. */
  method NextAfter(c: Expression, moment: Moment) returns (r: Result<Moment, CronError>)
    requires Valid(moment)
    ensures r.Success? ==> Valid(r.value) && Matches(c, r.value) && Index(moment) < Index(r.value) <= Limit(moment)
    ensures r.Success? ==> NoneBetween(c, Index(moment), Index(r.value))
    ensures r.Failure? <==> NoneBetween(c, Index(moment), Limit(moment) + 1)
  {
    NextMinuteIsOneLater(moment);
    ghost var after := Index(moment);
    var current := NextMinute(moment);
    while Index(current) <= Limit(moment)
      invariant Valid(current) && after < Index(current)
      invariant NoneBetween(c, after, Index(current))
      decreases Limit(moment) - Index(current)
    {
      if current.month !in c.months {
        SkipMonth(c, after, current);
        current := StartOfNextMonth(current);
        continue;
      }
      if !DayMatches(c, current) {
        SkipDay(c, after, current);
        current := StartOfNextDay(current);
        continue;
      }
      if current.hour !in c.hours {
        SkipHour(c, after, current);
        current := StartOfNextHour(current);
        continue;
      }
      if current.minute !in c.minutes {
        SkipMinute(c, after, current);
        current := NextMinute(current);
        continue;
      }
      return Success(current);
    }
    return Failure(NoRunInSight);
  }

  // ---------------------------------------------------- when a run exists

  /** The search of `NextAfter` from this moment succeeds. */
  ghost predicate HasRun(c: Expression, moment: Moment)
    requires Valid(moment)
  {
    !NoneBetween(c, Index(moment), Limit(moment) + 1)
  }

  lemma NextYearIsInReach(moment: Moment, x: Moment)
    requires Valid(moment) && Valid(x) && x.year == moment.year + 1
    ensures Index(moment) < Index(x) <= Limit(moment)
  {
    EarlierIsSmaller(moment, x);
    WithinYear(moment);
    WithinYear(x);
    YearLength(moment.year);
    TwelveMonths(moment.year);
    TwelveMonths(x.year);
  }

  /** With a free weekday field, a month and a day of at most 28, an hour and a
      minute to choose from, there is always a next run. */
  lemma DayOfMonthAlwaysRuns(c: Expression, moment: Moment, month: int, day: int, hour: int, minute: int)
    requires Valid(moment)
    requires forall w :: 0 <= w < 7 ==> w in c.weekdays
    requires month in c.months && day in c.days && hour in c.hours && minute in c.minutes
    requires 1 <= month <= 12 && 1 <= day <= 28 && 0 <= hour < 24 && 0 <= minute < 60
    ensures HasRun(c, moment)
  {
    var x := Moment(moment.year + 1, month, day, hour, minute);
    NextYearIsInReach(moment, x);
    assert Matches(c, x);
  }

  lemma WeekdayReached(ordinal: int, weekday: int)
    requires 0 <= weekday < 7
    ensures (Weekday(ordinal + (weekday - ordinal) % 7) + 1) % 7 == weekday
  {
  }

  lemma InFirstWeek(first: Moment, shift: int)
    requires Valid(first) && first.day == 1 && 0 <= shift < 7
    ensures Valid(first.(day := 1 + shift)) && Ordinal(first.(day := 1 + shift)) == Ordinal(first) + shift
  {
  }

  /** The same when neither day field starts with a star and some weekday is
      allowed: then the weekday alone suffices. */
  lemma WeekdayAlwaysRuns(c: Expression, moment: Moment, month: int, weekday: int, hour: int, minute: int)
    requires Valid(moment) && !c.dayStar && !c.weekdayStar
    requires month in c.months && weekday in c.weekdays && hour in c.hours && minute in c.minutes
    requires 1 <= month <= 12 && 0 <= weekday < 7 && 0 <= hour < 24 && 0 <= minute < 60
    ensures HasRun(c, moment)
  {
    var first := Moment(moment.year + 1, month, 1, hour, minute);
    var shift := (weekday - Ordinal(first)) % 7;
    var x := first.(day := 1 + shift);
    InFirstWeek(first, shift);
    WeekdayReached(Ordinal(first), weekday);
    NextYearIsInReach(moment, x);
    assert Matches(c, x);
  }

  /** So does the day of the month alone, whatever weekdays are allowed. */
  lemma DayAloneAlwaysRuns(c: Expression, moment: Moment, month: int, day: int, hour: int, minute: int)
    requires Valid(moment) && !c.dayStar && !c.weekdayStar
    requires month in c.months && day in c.days && hour in c.hours && minute in c.minutes
    requires 1 <= month <= 12 && 1 <= day <= 28 && 0 <= hour < 24 && 0 <= minute < 60
    ensures HasRun(c, moment)
  {
    var x := Moment(moment.year + 1, month, day, hour, minute);
    NextYearIsInReach(moment, x);
    assert Matches(c, x);
  }

  /** A date that does not exist never runs: the 30th of February. */
  lemma NoThirtiethOfFebruary(c: Expression, moment: Moment)
    requires Valid(moment) && c.months == {2} && c.days == {30} && (c.dayStar || c.weekdayStar)
    ensures !HasRun(c, moment)
  {
  }

  /** A schedule for one date of the year, at one minute of the day, if it falls
      on an allowed weekday. The year of `date` plays no part. */
  predicate IsOneDate(c: Expression, date: Moment) {
    && c.months == {date.month} && c.days == {date.day} && c.hours == {date.hour} && c.minutes == {date.minute}
    && (c.dayStar || c.weekdayStar)
  }

  /** The date exists k years on and falls on an allowed weekday; this year it is
      still to come, and after more than four years it is early enough. */
  predicate DateFits(c: Expression, moment: Moment, date: Moment, k: nat)
    requires Valid(moment)
  {
    var x := date.(year := moment.year + k);
    && Valid(x) && (Weekday(Ordinal(x)) + 1) % 7 in c.weekdays
    && (k == 0 ==> Earlier(moment, x))
    && (k > 4 ==> Index(x) <= Limit(moment))
  }

  lemma FourYearsAreInReach(moment: Moment, x: Moment)
    requires Valid(moment) && Valid(x) && Earlier(moment, x) && x.year <= moment.year + 4
    ensures Index(moment) < Index(x) <= Limit(moment)
  {
    EarlierIsSmaller(moment, x);
    WithinYear(moment);
    WithinYear(x);
    TwelveMonths(x.year);
  }

  lemma SevenYearsAreTooFar(moment: Moment, x: Moment)
    requires Valid(moment) && Valid(x) && x.year >= moment.year + 7
    ensures Index(x) > Limit(moment)
  {
    WithinYear(moment);
    WithinYear(x);
    TwelveMonths(moment.year);
  }

  lemma FitMeansRun(c: Expression, moment: Moment, date: Moment, k: nat)
    requires Valid(moment) && IsOneDate(c, date) && DateFits(c, moment, date, k)
    ensures HasRun(c, moment)
  {
    var x := date.(year := moment.year + k);
    EarlierIsSmaller(moment, x);
    if k <= 4 {
      FourYearsAreInReach(moment, x);
    }
    assert Matches(c, x) && Index(moment) < Index(x) <= Limit(moment);
  }

  lemma RunMeansFit(c: Expression, moment: Moment, date: Moment, x: Moment)
    requires Valid(moment) && IsOneDate(c, date)
    requires Valid(x) && Index(moment) < Index(x) <= Limit(moment) && Matches(c, x)
    ensures moment.year <= x.year <= moment.year + 6 && DateFits(c, moment, date, x.year - moment.year)
  {
    OrderIsIndex(moment, x);
    if x.year >= moment.year + 7 {
      SevenYearsAreTooFar(moment, x);
    }
    assert x == date.(year := x.year);
  }

  /** A missing run within five years is no proof of a bad date: the search for a
      date, be it joined with weekdays, succeeds exactly when the date fits in
      this year or one of the next six. */
  lemma DateRunsIff(c: Expression, moment: Moment, date: Moment)
    requires Valid(moment) && IsOneDate(c, date)
    ensures HasRun(c, moment) <==> exists k: nat :: k <= 6 && DateFits(c, moment, date, k)
  {
    forall x | Valid(x) && Index(moment) < Index(x) <= Limit(moment) && Matches(c, x)
      ensures exists k: nat :: k <= 6 && DateFits(c, moment, date, k)
    {
      RunMeansFit(c, moment, date, x);
    }
    forall k: nat | DateFits(c, moment, date, k) ensures HasRun(c, moment) {
      FitMeansRun(c, moment, date, k);
    }
  }

  /** A schedule for the 29th of February alone, at one minute of the day. */
  predicate IsLeapDaily(c: Expression, hour: int, minute: int) {
    && c.months == {2} && c.days == {29} && c.hours == {hour} && c.minutes == {minute}
    && (c.dayStar || c.weekdayStar) && (forall w :: 0 <= w < 7 ==> w in c.weekdays)
    && 0 <= hour < 24 && 0 <= minute < 60
  }

  /** A leap day still comes this year, in one of the next four, or early enough
      in the fifth. */
  predicate LeapDayInReach(moment: Moment, hour: int, minute: int)
    requires Valid(moment) && 0 <= hour < 24 && 0 <= minute < 60
  {
    var y := moment.year;
    || (IsLeap(y) && Earlier(moment, Moment(y, 2, 29, hour, minute)))
    || IsLeap(y + 1) || IsLeap(y + 2) || IsLeap(y + 3) || IsLeap(y + 4)
    || (IsLeap(y + 5) && Index(Moment(y + 5, 2, 29, hour, minute)) <= Limit(moment))
  }

  lemma SixYearsAreTooFar(moment: Moment, x: Moment)
    requires Valid(moment) && Valid(x) && x.month == 2 && x.day == 29 && x.year >= moment.year + 6
    ensures Index(x) > Limit(moment)
  {
    WithinYear(moment);
    YearLength(moment.year);
    assert DaysBeforeMonth(x.year, 2) == DaysBeforeMonth(x.year, 1) + 31 == 31;
  }

  /** For the 29th of February on any weekday that is when a leap day is in reach,
      which it is not for some years around a century without one. */
  lemma LeapDayRunsIff(c: Expression, moment: Moment, hour: int, minute: int)
    requires Valid(moment) && IsLeapDaily(c, hour, minute)
    ensures HasRun(c, moment) <==> LeapDayInReach(moment, hour, minute)
  {
    var date := Moment(moment.year, 2, 29, hour, minute);
    DateRunsIff(c, moment, date);
    forall k: nat | k <= 6 && DateFits(c, moment, date, k) ensures LeapDayInReach(moment, hour, minute) {
      LeapFitInReach(c, moment, date, k);
    }
    if LeapDayInReach(moment, hour, minute) {
      var k := LeapInReachFits(c, moment, date);
    }
  }

  lemma LeapInReachFits(c: Expression, moment: Moment, date: Moment) returns (k: nat)
    requires Valid(moment) && IsLeapDaily(c, date.hour, date.minute) && date.month == 2 && date.day == 29
    requires LeapDayInReach(moment, date.hour, date.minute)
    ensures k <= 6 && DateFits(c, moment, date, k)
  {
    var y := moment.year;
    k := if IsLeap(y + 1) then 1 else if IsLeap(y + 2) then 2 else if IsLeap(y + 3) then 3
      else if IsLeap(y + 4) then 4 else if IsLeap(y) && Earlier(moment, date.(year := y)) then 0 else 5;
    assert date.(year := y + k) == Moment(y + k, 2, 29, date.hour, date.minute);
  }

  lemma LeapFitInReach(c: Expression, moment: Moment, date: Moment, k: nat)
    requires Valid(moment) && IsLeapDaily(c, date.hour, date.minute) && date.month == 2 && date.day == 29
    requires k <= 6 && DateFits(c, moment, date, k)
    ensures LeapDayInReach(moment, date.hour, date.minute)
  {
    var x := date.(year := moment.year + k);
    assert IsLeap(x.year);
    if k == 6 {
      SixYearsAreTooFar(moment, x);
    }
  }

  /** After February 2096 the next 29th of February is eight years away. */
  lemma LeapDayBeyondLimit(c: Expression)
    requires IsLeapDaily(c, 0, 0)
    ensures !HasRun(c, Moment(2096, 3, 1, 0, 0)) && Matches(c, Moment(2104, 2, 29, 0, 0))
  {
    LeapDayRunsIff(c, Moment(2096, 3, 1, 0, 0), 0, 0);
    assert !IsLeap(2097) && !IsLeap(2098) && !IsLeap(2099) && !IsLeap(2100) && !IsLeap(2101) && IsLeap(2104);
  }

  /** A date that must also fall on a weekday: the 1st of February was a Monday in
      2021 and is one again in 2027, but no fit in between. */
  lemma DateOnWeekdayBeyondLimit(c: Expression)
    requires IsOneDate(c, Moment(2021, 2, 1, 0, 0)) && c.weekdays == {1}
    ensures Matches(c, Moment(2021, 2, 1, 0, 0)) && Matches(c, Moment(2027, 2, 1, 0, 0))
    ensures !HasRun(c, Moment(2021, 2, 1, 0, 0))
  {
    var from := Moment(2021, 2, 1, 0, 0);
    DateRunsIff(c, from, from);
    forall k: nat | k <= 6 ensures !DateFits(c, from, from, k) {
      NoMondayBefore2027(c, k);
    }
  }

  lemma NoMondayBefore2027(c: Expression, k: nat)
    requires c.weekdays == {1} && k <= 6
    ensures var from := Moment(2021, 2, 1, 0, 0); !DateFits(c, from, from, k)
  {
    FirstOfFebruary(Moment(2021 + k, 2, 1, 0, 0));
  }

  lemma FirstOfFebruary(x: Moment)
    requires Valid(x) && 2021 <= x.year <= 2027 && x.month == 2 && x.day == 1 && x.hour == x.minute == 0
    ensures (Weekday(Ordinal(x)) + 1) % 7 == 1 ==> x.year == 2021 || x.year == 2027
    ensures x.year == 2027 ==> Index(x) > Limit(Moment(2021, 2, 1, 0, 0))
  {
    DaysBefore2028(x.year);
    DaysBefore2028(2021);
    assert DaysBeforeMonth(x.year, 2) == DaysBeforeMonth(x.year, 1) + 31 == 31;
  }

  lemma DaysBefore2028(year: int)
    requires 2021 <= year < 2028
    ensures DaysBeforeYear(year) == 737790 + 365 * (year - 2021) + if year > 2024 then 1 else 0
  {
  }
}
