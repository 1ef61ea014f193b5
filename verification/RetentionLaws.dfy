/** How the retention rules compare with the documented ones, and with the periods announced. */
module RetentionLaws {
  import opened Calendar
  import opened Retention

  // ----- The documented rules -----------------------------------------------

  /** "the last N Sundays" */
  predicate LastSundays(today: int, n: int, f: int) {
    Weekday(f) == 0 && LastSunday(today) - 7 * n < f <= today
  }

  /** "the last N month-ends": this month's and those of the N - 1 months before. */
  predicate LastMonthEnds(today: int, n: int, f: int) {
    IsMonthEnd(f) && MonthIndex(today) - n < MonthIndex(f) <= MonthIndex(today)
  }

  /** "the last N year-ends": this year's and those of the N - 1 years before. */
  predicate LastYearEnds(today: int, n: int, f: int) {
    f == DateOf(Year(f), 12, 31) && Year(today) - n < Year(f) <= Year(today)
  }

  /** "the last N calendar days": the daily rule keeps the day `i` days back exactly if `i` is at most N, so with
      today N + 1 days. */
  lemma DailyByDay(today: int, n: int, i: int)
    ensures DailyKept(today, n, AddDate(today, 0, 0, -i)) <==> i <= n
  {
    hide AddDate;
    AddDays(today, -i);
  }

  /** The yearly rule keeps the documented year-ends exactly if none of them lies before 2000. */
  lemma YearlyAsDocumented(today: int, n: int)
    ensures (forall f :: YearlyKept(today, n, f) <==> LastYearEnds(today, n, f)) <==> n <= 0 || Year(today) - n >= 1999
  {
    hide Year, MonthOf, DayOf, DateOf;
    forall f
      ensures YearlyKept(today, n, f) <==> LastYearEnds(today, n, f) && Year(f) >= 2000
    {
      NewYearsEve(Year(f));
    }
    if n >= 1 {
      var y := Year(today) - n + 1;
      NewYearsEve(y);
      assert LastYearEnds(today, n, DateOf(y, 12, 31));
    }
  }

  /** Of the Sundays up to today, the weekly rule keeps exactly the latest. */
  lemma WeeklyKeepsOneSunday(today: int, n: int, f: int)
    requires f <= today
    ensures WeeklyKept(today, n, f) <==> n >= 1 && f == LastSunday(today)
  {
    hide Year;
  }

  /** So the weekly rule does what is documented exactly for counts up to one. */
  lemma WeeklyAsDocumented(today: int, n: int)
    ensures (forall f :: f <= today ==> (WeeklyKept(today, n, f) <==> LastSundays(today, n, f))) <==> n <= 1
  {
    hide Year, WeeklyKept;
    forall f | f <= today
      ensures WeeklyKept(today, n, f) <==> n >= 1 && f == LastSunday(today)
    {
      WeeklyKeepsOneSunday(today, n, f);
    }
    if n > 1 {
      var missed := LastSunday(today) - 7;
      assert LastSundays(today, n, missed) && !WeeklyKept(today, n, missed);
    }
  }

  /** The monthly rule keeps the documented month-ends exactly when no month on the way back is too
      short for today's day and the walk does not pass December 1999. */
  lemma MonthlyAsDocumented(today: int, n: int)
    ensures (forall f :: MonthlyKept(today, n, f) <==> LastMonthEnds(today, n, f)) <==>
            n <= 1 || (!Overflows(today, n - 1) && MonthIndex(today) - n >= Dec1999 - 1)
  {
    hide MonthIndex, MonthStart, MonthLength;
    if n >= 1 {
      var k := MonthIndex(today);
      var first := MonthEnd(k - n + 1);
      MonthEndIsEnd(k - n + 1);
      assert LastMonthEnds(today, n, first);
      MonthlyKeptFirst(today, n, first);
    }
  }

  lemma MonthlyKeptFirst(today: int, n: int, f: int)
    requires n >= 1 && IsMonthEnd(f) && MonthIndex(f) == MonthIndex(today) - n + 1
    ensures MonthlyKept(today, n, f) <==> n == 1 || (!Overflows(today, n - 1) && MonthIndex(f) >= Dec1999)
  {
    hide MonthIndex, MonthStart, MonthLength;
  }

  /** On 31 March of any year, with a count of two, the end of February is documented to
      be kept and is not. */
  lemma FebruaryIsMissed(y: int)
    ensures var today, f := DateOf(y, 3, 31), DateOf(y, 3, 0);
      LastMonthEnds(today, 2, f) && !MonthlyKept(today, 2, f)
  {
    hide MonthIndex, MonthStart, MonthLength;
    var today, k := DateOf(y, 3, 31), 12 * y + 2;
    MarchAfterFebruary(y);
    MonthStep(k);
    MonthUnique(today, k);
    MonthEndIsEnd(k - 1);
    assert !Overflows(today, 0);
    assert Overflows(today, 1);
  }

  lemma MarchAfterFebruary(y: int)
    ensures MonthLength(12 * y + 1) <= 29 && MonthLength(12 * y + 2) == 31
  {
    assert (12 * y + 1) % 12 == 1 && (12 * y + 2) % 12 == 2;
  }

  /** Whatever the day, at most the earliest of the documented month-ends is missing,
      as long as the walk does not go back past December 1999. */
  lemma MonthlyMissesAtMostOne(today: int, n: int, f: int)
    requires LastMonthEnds(today, n - 1, f) && MonthIndex(f) >= Dec1999
    ensures MonthlyKept(today, n, f)
  {
    hide MonthIndex, MonthStart, MonthLength;
  }

  // ----- Classify -----------------------------------------------------------

  datatype Period = Daily | Weekly | Monthly | Yearly

  predicate IsLastDayOfMonth(t: int) { MonthOf(AddDate(t, 0, 0, 1)) != MonthOf(t) }

  function Classify(t: int): Period {
    if MonthOf(t) == 12 && DayOf(t) == 31 then Yearly
    else if IsLastDayOfMonth(t) then Monthly
    else if Weekday(t) == 0 then Weekly
    else Daily
  }

  lemma LastDayIsMonthEnd(t: int)
    ensures IsLastDayOfMonth(t) <==> IsMonthEnd(t)
  {
    hide MonthIndex, MonthStart, MonthLength, AddDate;
    var k := MonthIndex(t);
    AddDays(t, 1);
    MonthStep(k); MonthStep(k + 1);
    MonthUnique(t + 1, if IsMonthEnd(t) then k + 1 else k);
    assert (k + 1) % 12 != k % 12;
  }

  /** The period a day is announced as is one whose rule keeps it on its own night; a
      day announced as daily is kept by no other rule. */
  lemma ClassifyMatchesRules(t: int, n: int)
    requires n >= 1
    ensures match Classify(t)
            case Yearly => Year(t) >= 2000 ==> YearlyKept(t, n, t)
            case Monthly => MonthlyKept(t, n, t)
            case Weekly => WeeklyKept(t, n, t)
            case Daily => !WeeklyKept(t, n, t) && !MonthlyKept(t, n, t) && !YearlyKept(t, n, t)
  {
    hide MonthIndex, MonthStart, MonthLength, IsLastDayOfMonth, MonthAfter, IsMonthEnd;
    LastDayIsMonthEnd(t);
    MonthAfterIsBelow(t, n - 1);
  }

  lemma DayBeforeNextMonth(y: int, m: int, d: int)
    requires 1 <= m <= 12 && 1 <= d <= MonthLength(12 * y + m - 1)
    ensures IsMonthEnd(DateOf(y, m, d)) <==> d == MonthLength(12 * y + m - 1)
    ensures m == 12 ==> MonthLength(12 * y + m - 1) == 31
  {
    hide MonthIndex, MonthStart;
    var k := 12 * y + m - 1;
    assert k % 12 == m - 1;
    MonthStep(k);
    MonthUnique(DateOf(y, m, d), k);
  }

  /** The period of a civil date. */
  lemma PeriodOf(y: int, m: int, d: int)
    requires 1 <= m <= 12 && 1 <= d <= MonthLength(12 * y + m - 1)
    ensures Classify(DateOf(y, m, d)) ==
      if m == 12 && d == 31 then Yearly else if d == MonthLength(12 * y + m - 1) then Monthly
      else if Weekday(DateOf(y, m, d)) == 0 then Weekly else Daily
  {
    hide MonthIndex, MonthStart, IsLastDayOfMonth, IsMonthEnd, DateOf, Weekday, Year, MonthOf, DayOf, MonthLength;
    CivilOfDate(y, m, d);
    DayBeforeNextMonth(y, m, d);
    LastDayIsMonthEnd(DateOf(y, m, d));
  }
}
