/** internal/retention/retention.go: which backup days survive. The loops of `Apply`
    are proved to compute closed-form rules on civil dates, and the rules are proved
    not to depend on which earlier nights the program ran. */
module Retention {
  import opened Text
  import opened Calendar
  import opened Files

  datatype Retain = Retain(daily: int, weekly: int, monthly: int, yearly: int)

  // ----- The rules, in closed form ------------------------------------------

  function LastSunday(today: int): int { today - today % 7 }

  predicate DailyKept(today: int, n: int, f: int) { f >= today - n }

  predicate WeeklyKept(today: int, n: int, f: int) {
    var sunday := LastSunday(today);
    n >= 1 && Weekday(f) == 0 && sunday <= f < sunday + 7 * (if Year(sunday) < 2000 then 1 else n)
  }

  /** Going back `i` months from `today`, one of the months was too short for the day of
      the month, so that the step ran over into the month it came from. */
  predicate Overflows(today: int, i: nat) {
    i > 0 && (Overflows(today, i - 1) || DayOf(today) > MonthLength(MonthIndex(today) - i))
  }

  /** The month reached after `i` steps of one month back. */
  function MonthAfter(today: int, i: nat): int {
    MonthIndex(today) - i + if Overflows(today, i) then 1 else 0
  }

  predicate IsMonthEnd(f: int) { f + 1 == MonthStart(MonthIndex(f) + 1) }

  const Dec1999 := 12 * 1999 + 11

  /** The month-ends of an unbroken run of months up to this one; December 1999 is the
      last to be looked at. */
  predicate MonthlyKept(today: int, n: int, f: int) {
    && n >= 1 && IsMonthEnd(f)
    && MonthAfter(today, n - 1) <= MonthIndex(f) <= MonthIndex(today)
    && (MonthIndex(f) >= Dec1999 || MonthIndex(f) == MonthIndex(today))
  }

  predicate YearlyKept(today: int, n: int, f: int) {
    MonthOf(f) == 12 && DayOf(f) == 31 && Year(today) - n < Year(f) <= Year(today) && Year(f) >= 2000
  }

  predicate Keep(today: int, r: Retain, f: int) {
    || DailyKept(today, r.daily, f)
    || WeeklyKept(today, r.weekly, f)
    || MonthlyKept(today, r.monthly, f)
    || YearlyKept(today, r.yearly, f)
  }

  // ----- The month walk -----------------------------------------------------

  /** `today` after `i` rounds of `m = m.AddDate(0, -1, 0)`. */
  function StepBack(today: int, i: nat): int {
    if i == 0 then today else AddDate(StepBack(today, i - 1), 0, -1, 0)
  }

  /** Going back month by month overflows at most once; the overflowing step stays in
      the month it left, on one of its first three days, and from there every step goes
      back by exactly one month. */
  lemma {:induction false} MonthWalk(today: int, i: nat)
    ensures MonthIndex(StepBack(today, i)) == MonthAfter(today, i)
    ensures if Overflows(today, i) then DayOf(StepBack(today, i)) <= 3
            else DayOf(StepBack(today, i)) == DayOf(today)
  {
    hide MonthIndex, MonthStart, MonthLength;
    if i > 0 {
      MonthWalk(today, i - 1);
      var t := StepBack(today, i - 1);
      var k, d := MonthIndex(t), DayOf(t);
      AddDateByIndex(t, 0, -1, 0);
      MonthStep(k - 1);
      MonthStep(k);
      var s := StepBack(today, i);
      assert s == MonthStart(k - 1) + d - 1;
      MonthUnique(s, if d > MonthLength(k - 1) then k else k - 1);
    }
  }

  /** No day up to the 28th ever overflows: the walk then visits one month per step. */
  lemma {:induction false} EarlyDaysNeverOverflow(today: int, i: nat)
    requires DayOf(today) <= 28
    ensures !Overflows(today, i)
  {
    if i > 0 { EarlyDaysNeverOverflow(today, i - 1); }
  }

  lemma {:induction false} OverflowsLonger(today: int, i: nat, j: nat)
    requires i <= j && Overflows(today, i)
    ensures Overflows(today, j)
  {
    hide MonthIndex, MonthStart, MonthLength;
    if i < j { OverflowsLonger(today, i, j - 1); }
  }

  /** A later day of the same month overflows wherever an earlier one does. */
  lemma {:induction false} OverflowsLaterDay(s: int, t: int, i: nat)
    requires s <= t && MonthIndex(s) == MonthIndex(t) && Overflows(s, i)
    ensures Overflows(t, i)
  {
    hide MonthIndex, MonthStart, MonthLength;
    if Overflows(s, i - 1) { OverflowsLaterDay(s, t, i - 1); }
  }

  lemma MonthAfterMonotone(s: int, t: int, i: nat)
    requires s <= t
    ensures MonthAfter(s, i) <= MonthAfter(t, i)
  {
    MonthIndexMonotone(s, t);
    hide MonthIndex, MonthStart, MonthLength;
    if MonthIndex(s) == MonthIndex(t) && Overflows(s, i) { OverflowsLaterDay(s, t, i); }
  }

  lemma MonthAfterStep(today: int, i: nat)
    requires i > 0
    ensures MonthAfter(today, i - 1) - 1 <= MonthAfter(today, i) <= MonthAfter(today, i - 1)
  {
    hide MonthIndex, MonthStart, MonthLength;
    if Overflows(today, i - 1) { OverflowsLonger(today, i - 1, i); }
  }

  function MonthEnd(k: int): int { MonthStart(k + 1) - 1 }

  lemma MonthEndIsEnd(k: int)
    ensures MonthIndex(MonthEnd(k)) == k && IsMonthEnd(MonthEnd(k))
  {
    hide MonthIndex, MonthStart, MonthLength;
    MonthStep(k);
    MonthUnique(MonthEnd(k), k);
  }

  // ----- The key loops of Apply ---------------------------------------------

  /** The search for the latest Sunday, which is at most six days away. */
  method FindLastSunday(today: int) returns (lastSunday: int)
    ensures Weekday(lastSunday) == 0 && today - 6 <= lastSunday <= today
  {
    hide AddDate;
    lastSunday := today;
    while Weekday(lastSunday) != 0
      invariant today - 6 <= lastSunday <= today && LastSunday(today) <= lastSunday
      decreases lastSunday - LastSunday(today)
    {
      AddDays(lastSunday, -1);
      lastSunday := AddDate(lastSunday, 0, 0, -1);
    }
  }

  /** How many Sundays the weekly rule keeps. */
  function SundayCount(today: int, n: int): nat {
    if n < 1 then 0 else if Year(LastSunday(today)) < 2000 then 1 else n
  }

  method SundayKeys(today: int, n: int) returns (keys: set<string>)
    ensures forall f :: DateKey(f) in keys <==> WeeklyKept(today, n, f)
    ensures forall k :: k in keys ==> exists f :: k == DateKey(f)
    ensures |keys| == SundayCount(today, n)
  {
    hide Year, DateKey, AddDate, WeeklyKept;
    var lastSunday := FindLastSunday(today);
    assert lastSunday == LastSunday(today);
    keys := {};
    NoSundays(today, 0);
    if n < 0 { NoSundays(today, n); }
    var i := 0;
    while i < n
      invariant 0 <= i && (i == 0 || i <= n)
      invariant i > 0 ==> Year(lastSunday) >= 2000
      invariant |keys| == i && forall k :: k in keys ==> exists f :: k == DateKey(f)
      invariant forall f :: DateKey(f) in keys <==> WeeklyKept(today, i, f)
    {
      AddDays(lastSunday, 7 * i);
      var sunday := AddDate(lastSunday, 0, 0, 7 * i);
      AddKey(keys, sunday);
      LaterSunday(today, i);
      assert DateKey(sunday) in keys <==> WeeklyKept(today, i, sunday);
      OneMore(keys, DateKey(sunday));
      keys := keys + {DateKey(sunday)};
      WeeklyGrows(today, i);
      YearMonotone(lastSunday, sunday);
      i := i + 1;
      if Year(sunday) < 2000 {
        WeeklyStops(today, n);
        break;
      }
    }
  }

  lemma LaterSunday(today: int, i: int)
    requires i >= 0
    ensures !WeeklyKept(today, i, LastSunday(today) + 7 * i)
  {
    hide Year;
  }

  /** Week by week from the Sunday of this week on: exactly that one and the next, as many as asked for. */
  lemma SundayByWeek(today: int, n: int, s: int, k: int)
    requires Weekday(s) == 0 && today - 6 <= s <= today
    ensures WeeklyKept(today, n, s + 7 * k) <==> 0 <= k < if Year(s) < 2000 && n > 1 then 1 else n
  {
    hide Year;
    assert s == LastSunday(today);
    assert Weekday(s + 7 * k) == 0 by { assert s == 7 * (s / 7) && s + 7 * k == 7 * (s / 7 + k); }
  }

  lemma NoSundays(today: int, n: int)
    requires n <= 0
    ensures forall f :: !WeeklyKept(today, n, f)
  {}

  /** One more round adds exactly the Sunday `i` weeks ahead. */
  lemma WeeklyGrows(today: int, i: nat)
    requires i > 0 ==> Year(LastSunday(today)) >= 2000
    ensures forall f :: WeeklyKept(today, i + 1, f) <==> WeeklyKept(today, i, f) || f == LastSunday(today) + 7 * i
  {
    hide WeeklyKept, Year, LastSunday;
    forall f
      ensures WeeklyKept(today, i + 1, f) <==> WeeklyKept(today, i, f) || f == LastSunday(today) + 7 * i
    {
      WeeklyGrowsBy(today, i, f);
    }
  }

  lemma WeeklyGrowsBy(today: int, i: nat, f: int)
    requires i > 0 ==> Year(LastSunday(today)) >= 2000
    ensures WeeklyKept(today, i + 1, f) <==> WeeklyKept(today, i, f) || f == LastSunday(today) + 7 * i
  {
    SundayIsSunday(today);
    SundaysApart(LastSunday(today), f, i);
    hide Year, Weekday, LastSunday;
  }

  lemma SundayIsSunday(today: int)
    ensures Weekday(LastSunday(today)) == 0
  {}

  lemma SundaysApart(sunday: int, f: int, i: nat)
    requires Weekday(sunday) == 0
    ensures Weekday(f) == 0 && sunday <= f < sunday + 7 * (i + 1) ==> f < sunday + 7 * i || f == sunday + 7 * i
    ensures f == sunday + 7 * i ==> Weekday(f) == 0
  {
    var a, b := sunday / 7, f / 7;
    assert sunday == 7 * a && f == 7 * b + f % 7;
    if f == sunday + 7 * i { assert f == 7 * (a + i); }
  }

  lemma WeeklyStops(today: int, n: int)
    requires n >= 1 && Year(LastSunday(today)) < 2000
    ensures forall f :: WeeklyKept(today, 1, f) <==> WeeklyKept(today, n, f)
  {
    hide Year;
  }

  lemma AddKey(keys: set<string>, t: int)
    ensures forall f :: DateKey(f) in keys + {DateKey(t)} <==> DateKey(f) in keys || f == t
  {
    forall f | DateKey(f) in keys + {DateKey(t)}
      ensures DateKey(f) in keys || f == t
    {
      if DateKey(f) == DateKey(t) { KeyInjective(f, t); }
    }
  }

  lemma OneMore(keys: set<string>, key: string)
    ensures |keys + {key}| == |keys| + if key in keys then 0 else 1
  {
    if key in keys { assert keys + {key} == keys; }
  }

  lemma YearMonotone(s: int, t: int)
    requires s <= t
    ensures Year(s) <= Year(t)
  {
    MonthIndexMonotone(s, t);
    hide MonthIndex;
  }

  /** How many month-ends the monthly rule keeps. */
  function MonthCount(today: int, n: int): nat {
    if n < 1 then 0
    else if MonthIndex(today) <= Dec1999 then 1
    else
      MonthAfterIsBelow(today, n - 1);
      var first := MonthAfter(today, n - 1);
      MonthIndex(today) - (if first < Dec1999 then Dec1999 else first) + 1
  }

  /** One more round keeps one more, unless it comes to a month it has seen already. */
  lemma MonthCountGrows(today: int, count: nat)
    requires count > 0 ==> MonthAfter(today, count - 1) > Dec1999
    ensures MonthCount(today, count + 1) ==
            MonthCount(today, count) + if MonthlyKept(today, count, MonthEnd(MonthAfter(today, count))) then 0 else 1
  {
    hide MonthIndex, MonthStart, MonthLength, Overflows, MonthAfter;
    MonthEndIsEnd(MonthAfter(today, count));
    MonthAfterIsBelow(today, count);
    if count > 0 {
      MonthAfterIsBelow(today, count - 1);
      MonthAfterStep(today, count);
    } else {
      MonthAfterNone(today);
    }
  }

  lemma MonthCountStops(today: int, count: int, n: int)
    requires 1 <= count <= n && MonthAfter(today, count - 1) <= Dec1999
    ensures MonthCount(today, count) == MonthCount(today, n)
  {
    hide MonthIndex, MonthStart, MonthLength, Overflows;
    MonthAfterMoreSteps(today, count - 1, n - 1);
  }

  /** As many as asked for, or one less after an overflow, as long as the walk does not go back past December 1999. */
  lemma MonthCountIs(today: int, n: int)
    ensures n >= 1 && MonthAfter(today, n - 1) >= Dec1999 ==> MonthCount(today, n) == if Overflows(today, n - 1) then n - 1 else n
  {
    hide MonthIndex, MonthStart, MonthLength, Overflows;
    if n >= 1 { MonthAfterIsBelow(today, n - 1); }
    assert !Overflows(today, 0) by { NoOverflowYet(today); }
  }

  lemma NoOverflowYet(today: int)
    ensures !Overflows(today, 0)
  {}

  method MonthEndKeys(today: int, n: int) returns (keys: set<string>)
    ensures forall f :: DateKey(f) in keys <==> MonthlyKept(today, n, f)
    ensures forall k :: k in keys ==> exists f :: k == DateKey(f)
    ensures |keys| == MonthCount(today, n)
    ensures n >= 1 && MonthAfter(today, n - 1) >= Dec1999 ==> |keys| == if Overflows(today, n - 1) then n - 1 else n
  {
    MonthCountIs(today, n);
    hide MonthIndex, MonthStart, MonthLength, DateKey, Overflows, MonthlyKept, MonthAfter, AddDate, MonthCount;
    keys := {};
    NoMonths(today, 0);
    if n < 0 { NoMonths(today, n); }
    var m, count := today, 0;
    while count < n
      invariant 0 <= count && (count == 0 || count <= n)
      invariant m == StepBack(today, count)
      invariant count > 0 ==> MonthAfter(today, count - 1) > Dec1999
      invariant |keys| == MonthCount(today, count) && forall k :: k in keys ==> exists f :: k == DateKey(f)
      invariant forall f :: DateKey(f) in keys <==> MonthlyKept(today, count, f)
    {
      var firstOfNextMonth := AddDate(DateOf(Year(m), MonthOf(m), 1), 0, 1, 0);
      var monthEnd := AddDate(firstOfNextMonth, 0, 0, -1);
      MonthWalk(today, count);
      EndOfMonth(m);
      assert DateKey(monthEnd) in keys <==> MonthlyKept(today, count, monthEnd);
      AddKey(keys, monthEnd);
      OneMore(keys, DateKey(monthEnd));
      keys := keys + {DateKey(monthEnd)};
      MonthlyGrows(today, count);
      MonthCountGrows(today, count);
      count := count + 1;
      if Year(monthEnd) < 2000 {
        MonthlyStops(today, count, n);
        MonthCountStops(today, count, n);
        break;
      }
      m := AddDate(m, 0, -1, 0);
    }
  }

  lemma NoMonths(today: int, n: int)
    requires n <= 0
    ensures MonthCount(today, n) == 0 && forall f :: !MonthlyKept(today, n, f)
  {}

  lemma EndOfMonth(m: int)
    ensures AddDate(AddDate(DateOf(Year(m), MonthOf(m), 1), 0, 1, 0), 0, 0, -1) == MonthEnd(MonthIndex(m))
    ensures MonthIndex(MonthEnd(MonthIndex(m))) == MonthIndex(m)
  {
    hide MonthIndex, MonthStart, MonthLength;
    var k := MonthIndex(m);
    MonthEndIsEnd(k);
    MonthStep(k); MonthStep(k + 1);
    var first := DateOf(Year(m), MonthOf(m), 1);
    assert first == MonthStart(k) by { AddDateByIndex(m, 0, 0, 1 - DayOf(m)); }
    MonthUnique(first, k);
    AddDateByIndex(first, 0, 1, 0);
    AddDays(MonthStart(k + 1), -1);
  }

  /** One more round adds exactly the end of the month reached. */
  lemma MonthlyGrows(today: int, count: nat)
    requires count > 0 ==> MonthAfter(today, count - 1) > Dec1999
    ensures forall f :: MonthlyKept(today, count + 1, f) <==>
              MonthlyKept(today, count, f) || f == MonthEnd(MonthAfter(today, count))
  {
    forall f
      ensures MonthlyKept(today, count + 1, f) <==>
              MonthlyKept(today, count, f) || f == MonthEnd(MonthAfter(today, count))
    {
      MonthlyGrowsBy(today, count, f);
    }
  }

  lemma MonthlyGrowsBy(today: int, count: nat, f: int)
    requires count > 0 ==> MonthAfter(today, count - 1) > Dec1999
    ensures MonthlyKept(today, count + 1, f) <==>
              MonthlyKept(today, count, f) || f == MonthEnd(MonthAfter(today, count))
  {
    hide MonthIndex, MonthStart, MonthLength, Overflows, MonthAfter;
    MonthEndIsEnd(MonthAfter(today, count));
    MonthAfterIsBelow(today, count);
    if count > 0 { MonthAfterStep(today, count); } else { MonthAfterNone(today); }
  }

  lemma MonthAfterNone(today: int)
    ensures MonthAfter(today, 0) == MonthIndex(today)
  {}

  lemma {:induction false} MonthAfterIsBelow(today: int, i: nat)
    ensures MonthAfter(today, i) <= MonthIndex(today)
  {
    hide MonthIndex, MonthStart, MonthLength;
    if i > 0 { MonthAfterIsBelow(today, i - 1); MonthAfterStep(today, i); }
  }

  lemma {:induction false} MonthAfterMoreSteps(today: int, i: nat, j: nat)
    requires i <= j
    ensures MonthAfter(today, j) <= MonthAfter(today, i)
  {
    hide MonthIndex, MonthStart, MonthLength;
    if i < j { MonthAfterMoreSteps(today, i, j - 1); MonthAfterStep(today, j); }
  }

  /** Once a month before 2000 was reached, more rounds would add nothing. */
  lemma MonthlyStops(today: int, count: int, n: int)
    requires 1 <= count <= n && MonthAfter(today, count - 1) <= Dec1999
    ensures forall f :: MonthlyKept(today, count, f) <==> MonthlyKept(today, n, f)
  {
    hide MonthIndex, MonthStart, MonthLength, Overflows;
    MonthAfterMoreSteps(today, count - 1, n - 1);
    MonthAfterIsBelow(today, count - 1);
  }

  /** How many year-ends the yearly rule keeps: as many as asked for, but none before 2000. */
  function YearCount(today: int, n: int): nat {
    if n < 1 || Year(today) < 2000 then 0 else if Year(today) - n < 1999 then Year(today) - 1999 else n
  }

  /** Year by year: exactly the 31 Decembers of this year and the years before it, as many as asked for, from 2000 on. */
  method YearEndKeys(today: int, n: int) returns (keys: set<string>)
    ensures forall f :: DateKey(f) in keys <==> YearlyKept(today, n, f)
    ensures forall y :: DateKey(DateOf(y, 12, 31)) in keys <==> Year(today) - n < y <= Year(today) && y >= 2000
    ensures forall k :: k in keys ==> exists y :: k == DateKey(DateOf(y, 12, 31))
    ensures |keys| == YearCount(today, n)
  {
    hide MonthIndex, MonthStart, MonthLength, DateKey, DateOf, Year, MonthOf, DayOf, YearlyKept;
    keys := {};
    NoYears(today, 0);
    if n < 0 { NoYears(today, n); }
    var y, count := Year(today), 0;
    while count < n && y >= 2000
      invariant 0 <= count && (count == 0 || (count <= n && y >= 1999)) && y == Year(today) - count && |keys| == count
      invariant forall k :: k in keys ==> exists z :: k == DateKey(DateOf(z, 12, 31))
      invariant forall f :: DateKey(f) in keys <==> YearlyKept(today, count, f)
    {
      var lastDay := DateOf(y, 12, 31);
      AddKey(keys, lastDay);
      YearlyGrows(today, count);
      assert DateKey(lastDay) in keys <==> YearlyKept(today, count, lastDay);
      OneMore(keys, DateKey(lastDay));
      keys := keys + {DateKey(lastDay)};
      y, count := y - 1, count + 1;
    }
    YearlyStops(today, count, n);
    forall z
      ensures YearlyKept(today, n, DateOf(z, 12, 31)) <==> Year(today) - n < z <= Year(today) && z >= 2000
    {
      YearByYear(today, n, z);
    }
  }

  lemma NoYears(today: int, n: int)
    requires n <= 0
    ensures forall f :: !YearlyKept(today, n, f)
  {
    hide Year;
  }

  /** One more round adds exactly the end of the year reached. */
  lemma YearlyGrows(today: int, count: nat)
    requires Year(today) - count >= 2000
    ensures !YearlyKept(today, count, DateOf(Year(today) - count, 12, 31))
    ensures forall f :: YearlyKept(today, count + 1, f) <==> YearlyKept(today, count, f) || f == DateOf(Year(today) - count, 12, 31)
  {
    hide Year, MonthOf, DayOf, DateOf;
    NewYearsEve(Year(today) - count);
  }

  lemma YearByYear(today: int, n: int, y: int)
    ensures YearlyKept(today, n, DateOf(y, 12, 31)) <==> Year(today) - n < y <= Year(today) && y >= 2000
  {
    hide Year, MonthOf, DayOf, DateOf;
    NewYearsEve(y);
  }

  /** No year before 2000 is ever kept. */
  lemma YearlyStops(today: int, count: int, n: int)
    requires count == n || (Year(today) - count < 2000 && count <= n) || n < count == 0
    ensures forall f :: YearlyKept(today, count, f) <==> YearlyKept(today, n, f)
  {
    hide Year;
  }

  lemma NewYearsEve(y: int)
    ensures forall f :: f == DateOf(y, 12, 31) <==> Year(f) == y && MonthOf(f) == 12 && DayOf(f) == 31
  {
    hide MonthIndex, MonthStart;
    assert (12 * y + 11) % 12 == 11;
    CivilOfDate(y, 12, 31);
    forall f | Year(f) == y && MonthOf(f) == 12 && DayOf(f) == 31
      ensures f == DateOf(y, 12, 31)
    {
      CivilRoundTrip(f);
    }
  }

  // ----- Listing and deleting -----------------------------------------------

  datatype BackupFile = BackupFile(name: string, date: int, mtime: int, size: nat)

  datatype Listed = Ok(files: seq<BackupFile>) | ReadError

  /** The time of a `BackupFile` that was never set: the beginning of year one, in seconds since 1970. */
  const ZERO_TIME := -62135596800

  /** A backup file in the list; of those in `blind` neither time nor size can be found out. */
  function Entry(d: Disk, blind: set<string>, n: string): BackupFile
    requires n in d && NameDate(n).Some?
  {
    if n in blind then BackupFile(n, NameDate(n).value, ZERO_TIME, 0)
    else BackupFile(n, NameDate(n).value, d[n].mtime, |d[n].data|)
  }

  predicate IsEntry(d: Disk, blind: set<string>, b: BackupFile) {
    b.name in d && NameDate(b.name).Some? && b == Entry(d, blind, b.name)
  }

  /** An entry has name, date, time and size of a file in the directory; if it cannot be examined, the time Go prints as
      1 January of year 1, and no size. */
  lemma EntrySays(d: Disk, blind: set<string>, b: BackupFile)
    ensures IsEntry(d, blind, b) <==>
      && b.name in d && NameDate(b.name) == Some(b.date)
      && b.mtime == (if b.name in blind then 86400 * (1 - 719163) else d[b.name].mtime)
      && b.size == if b.name in blind then 0 else |d[b.name].data|
  {
    hide NameDate;
  }

  /** The backups among `names`, in that order. */
  function Select(d: Disk, blind: set<string>, names: seq<string>): seq<BackupFile>
    requires forall n :: n in names ==> n in d
  {
    if names == [] then [] else
    var n := names[|names| - 1];
    var rest := Select(d, blind, names[..|names| - 1]);
    if NameDate(n).Some? then rest + [Entry(d, blind, n)] else rest
  }

  lemma {:induction false} SelectMembers(d: Disk, blind: set<string>, names: seq<string>)
    requires forall n :: n in names ==> n in d
    ensures forall b :: b in Select(d, blind, names) <==> b.name in names && IsEntry(d, blind, b)
  {
    hide NameDate;
    if names != [] {
      var init, last := names[..|names| - 1], names[|names| - 1];
      SelectMembers(d, blind, init);
      assert forall n :: n in names <==> n in init || n == last;
    }
  }

  predicate ByDate(s: seq<BackupFile>) {
    forall i, j :: 0 <= i < j < |s| ==> s[i].date <= s[j].date
  }

  function Insert(b: BackupFile, s: seq<BackupFile>): seq<BackupFile> {
    if s == [] || s[|s| - 1].date <= b.date then s + [b]
    else Insert(b, s[..|s| - 1]) + [s[|s| - 1]]
  }

  lemma {:induction false} InsertPermutes(b: BackupFile, s: seq<BackupFile>)
    ensures multiset(Insert(b, s)) == multiset(s) + multiset{b}
  {
    if s != [] && s[|s| - 1].date > b.date {
      InsertPermutes(b, s[..|s| - 1]);
      assert s == s[..|s| - 1] + [s[|s| - 1]];
    }
  }

  lemma {:induction false} InsertSorts(b: BackupFile, s: seq<BackupFile>)
    requires ByDate(s)
    ensures ByDate(Insert(b, s))
  {
    if s != [] && s[|s| - 1].date > b.date {
      var init, last := s[..|s| - 1], s[|s| - 1];
      var r := Insert(b, init);
      InsertSorts(b, init);
      forall i | 0 <= i < |r|
        ensures r[i].date <= last.date
      {
        InsertPermutes(b, init);
        assert r[i] in multiset(r);
        assert r[i] == b || r[i] in init;
      }
    }
  }

  /** `sort.Slice` by date, which leaves the order within one day open. */
  function SortByDate(s: seq<BackupFile>): seq<BackupFile> {
    if s == [] then [] else Insert(s[|s| - 1], SortByDate(s[..|s| - 1]))
  }

  lemma {:induction false} SortByDateSorts(s: seq<BackupFile>)
    ensures ByDate(SortByDate(s)) && multiset(SortByDate(s)) == multiset(s)
  {
    if s != [] {
      SortByDateSorts(s[..|s| - 1]);
      InsertSorts(s[|s| - 1], SortByDate(s[..|s| - 1]));
      InsertPermutes(s[|s| - 1], SortByDate(s[..|s| - 1]));
      assert s == s[..|s| - 1] + [s[|s| - 1]];
    }
  }

  /** All backups of the directory, each once, ascending by date. */
  method ListBackups(d: Disk, listing: Listing, blind: set<string>) returns (r: Listed)
    requires ListingOf(listing, d)
    ensures r.ReadError? <==> listing.Unreadable?
    ensures r.Ok? ==> ByDate(r.files)
    ensures r.Ok? && listing.Entries? ==> multiset(r.files) == multiset(Select(d, blind, listing.names))
    ensures r.Ok? ==> forall b :: b in r.files <==> IsEntry(d, blind, b)
  {
    hide NameDate;
    if listing.Missing? { return Ok([]); }
    if listing.Unreadable? { return ReadError; }
    var names := listing.names;
    var files: seq<BackupFile> := [];
    for i := 0 to |names|
      invariant files == Select(d, blind, names[..i])
    {
      var name := names[i];
      assert names[..i + 1][..i] == names[..i];
      if NameDate(name).None? { continue; }
      files := files + [Entry(d, blind, name)];
    }
    assert names[..|names|] == names;
    SelectMembers(d, blind, names);
    r := Ok(SortByDate(files));
    SortByDateSorts(files);
    assert forall b :: b in r.files <==> b in multiset(r.files);
    assert forall b :: b in files <==> b in multiset(files);
  }

  /** The names of the newest backup day, or of the newest before a given date. */
  ghost predicate IsLatest(d: Disk, before: Option<int>, n: string) {
    && Eligible(d, before, n)
    && forall m :: Eligible(d, before, m) ==> NameDate(m).value <= NameDate(n).value
  }

  ghost predicate Eligible(d: Disk, before: Option<int>, n: string) {
    n in d && NameDate(n).Some? && (before.Some? ==> NameDate(n).value < before.value)
  }

  function OfDay(s: seq<BackupFile>, day: int): seq<BackupFile> {
    if s == [] then [] else
    OfDay(s[..|s| - 1], day) + if s[|s| - 1].date == day then [s[|s| - 1]] else []
  }

  lemma {:induction false} OfDayCount(s: seq<BackupFile>, day: int, b: BackupFile)
    ensures multiset(OfDay(s, day))[b] == if b.date == day then multiset(s)[b] else 0
  {
    if s != [] {
      OfDayCount(s[..|s| - 1], day, b);
      assert s == s[..|s| - 1] + [s[|s| - 1]];
    }
  }

  /** The date `LastBackupBefore` looks for, searching from the end of the list. */
  method TargetDay(files: seq<BackupFile>, before: Option<int>) returns (target: Option<int>)
    requires ByDate(files)
    ensures target.Some? ==> exists b :: b in files && b.date == target.value
    ensures target.Some? && before.Some? ==> target.value < before.value
    ensures forall b :: b in files && (before.Some? ==> b.date < before.value) ==>
              target.Some? && b.date <= target.value
  {
    if |files| == 0 { return None; }
    if before.None? {
      assert files[|files| - 1] in files;
      return Some(files[|files| - 1].date);
    }
    var i := |files| - 1;
    while i >= 0
      invariant -1 <= i < |files|
      invariant forall j :: i < j < |files| ==> files[j].date >= before.value
    {
      if files[i].date < before.value {
        assert files[i] in files;
        return Some(files[i].date);
      }
      i := i - 1;
    }
    return None;
  }

  /** `LastBackupBefore` returns exactly the files of the latest day there is (before
      the given date), every one of them once. */
  method LastBackupBefore(d: Disk, listing: Listing, blind: set<string>, before: Option<int>) returns (r: Listed)
    requires ListingOf(listing, d)
    ensures r.ReadError? <==> listing.Unreadable?
    ensures r.Ok? ==> forall n :: (exists b :: b in r.files && b.name == n) <==> IsLatest(d, before, n)
    ensures r.Ok? && r.files != [] && listing.Entries? ==>
              multiset(r.files) == multiset(OfDay(Select(d, blind, listing.names), r.files[0].date))
  {
    hide NameDate, ByDate, Select, OfDay;
    var all := ListBackups(d, listing, blind);
    if all.ReadError? { return ReadError; }
    var files := all.files;
    var day := TargetDay(files, before);
    if day.None? {
      LatestOfDay(d, blind, before, files, day);
      return Ok([]);
    }
    var selected := SelectDay(files, day.value);
    LatestOfDay(d, blind, before, files, day);
    if listing.Entries? { OfDaySame(files, Select(d, blind, listing.names), day.value); }
    r := Ok(selected);
  }

  method SelectDay(files: seq<BackupFile>, target: int) returns (selected: seq<BackupFile>)
    ensures selected == OfDay(files, target)
    ensures forall b :: b in selected <==> b in files && b.date == target
  {
    selected := [];
    for i := 0 to |files|
      invariant selected == OfDay(files[..i], target)
    {
      assert files[..i + 1][..i] == files[..i];
      if SameKey(files[i].date, target) { selected := selected + [files[i]]; }
    }
    assert files[..|files|] == files;
    OfDayMembers(files, target);
  }

  lemma OfDaySame(a: seq<BackupFile>, b: seq<BackupFile>, day: int)
    requires multiset(a) == multiset(b)
    ensures multiset(OfDay(a, day)) == multiset(OfDay(b, day))
  {
    forall f
      ensures multiset(OfDay(a, day))[f] == multiset(OfDay(b, day))[f]
    {
      OfDayCount(a, day, f);
      OfDayCount(b, day, f);
    }
  }

  lemma LatestOfDay(d: Disk, blind: set<string>, before: Option<int>, files: seq<BackupFile>, day: Option<int>)
    requires forall b :: b in files <==> IsEntry(d, blind, b)
    requires day.Some? ==> exists b :: b in files && b.date == day.value
    requires day.Some? && before.Some? ==> day.value < before.value
    requires forall b :: b in files && (before.Some? ==> b.date < before.value) ==> day.Some? && b.date <= day.value
    ensures forall n :: (exists b :: b in files && day == Some(b.date) && b.name == n) <==> IsLatest(d, before, n)
  {
    hide NameDate;
    forall n | Eligible(d, before, n)
      ensures exists b :: b in files && b.name == n && b.date == NameDate(n).value
    {
      assert IsEntry(d, blind, Entry(d, blind, n));
    }
    forall n
      ensures (exists b :: b in files && day == Some(b.date) && b.name == n) <==> IsLatest(d, before, n)
    {
      if IsLatest(d, before, n) {
        var w :| w in files && w.date == day.value;
        assert Eligible(d, before, w.name);
      }
    }
  }

  /** `dateKey(a) == dateKey(b)` */
  predicate SameKey(a: int, b: int)
    ensures SameKey(a, b) <==> a == b
  {
    hide DateKey;
    AddKey({}, b);
    DateKey(a) == DateKey(b)
  }

  lemma {:induction false} OfDayMembers(s: seq<BackupFile>, day: int)
    ensures forall b :: b in OfDay(s, day) <==> b in s && b.date == day
  {
    if s != [] {
      OfDayMembers(s[..|s| - 1], day);
      assert forall b :: b in s <==> b in s[..|s| - 1] || b == s[|s| - 1];
    }
  }

  /** What `Apply` leaves: everything that is not a backup, every backup some rule
      keeps, and the ones whose deletion failed. */
  function Pruned(d: Disk, today: int, r: Retain, stuck: set<string>): Disk {
    map n | n in d && (NameDate(n).None? || n in stuck || Keep(today, r, NameDate(n).value)) :: d[n]
  }

  /** The decision of the deletion loop, by cutoff and key sets. */
  predicate KeptByKeys(f: int, cutoff: int, sundays: set<string>, monthEnds: set<string>, yearEnds: set<string>) {
    var key := DateKey(f);
    var keep := !(f < cutoff);
    var keep := keep || key in sundays;
    var keep := keep || key in monthEnds;
    keep || key in yearEnds
  }

  /** The names the deletion loop removes from `files`. */
  function Doomed(files: seq<BackupFile>, today: int, r: Retain, stuck: set<string>): set<string> {
    set b | b in files && !Keep(today, r, b.date) && b.name !in stuck :: b.name
  }

  lemma DoomedArePruned(d: Disk, blind: set<string>, files: seq<BackupFile>, today: int, r: Retain, stuck: set<string>)
    requires forall b :: b in files <==> IsEntry(d, blind, b)
    ensures d - Doomed(files, today, r, stuck) == Pruned(d, today, r, stuck)
  {
    hide NameDate, Keep;
    forall n | n in d && NameDate(n).Some?
      ensures n in Doomed(files, today, r, stuck) <==> n !in stuck && !Keep(today, r, NameDate(n).value)
    {
      assert IsEntry(d, blind, Entry(d, blind, n));
    }
  }

  lemma PrunedSays(d: Disk, today: int, r: Retain, stuck: set<string>)
    ensures var e := Pruned(d, today, r, stuck);
      && (forall n :: n in e ==> n in d && e[n] == d[n])
      && (forall n :: n in d && (NameDate(n).None? || n in stuck || Keep(today, r, NameDate(n).value)) ==> n in e)
      && (forall n :: n in e && NameDate(n).Some? && n !in stuck ==> Keep(today, r, NameDate(n).value))
  {
    hide NameDate, Keep;
  }

  method Apply(dir: Folder, listing: Listing, blind: set<string>, today: int, r: Retain, stuck: set<string>) returns (ok: bool)
    requires ListingOf(listing, dir.files)
    modifies dir
    ensures ok <==> !listing.Unreadable?
    ensures dir.files == if ok then Pruned(old(dir.files), today, r, stuck) else old(dir.files)
    ensures forall n :: n in dir.files ==> n in old(dir.files) && dir.files[n] == old(dir.files)[n]
    ensures forall n :: n in old(dir.files) && (NameDate(n).None? || n in stuck) ==> n in dir.files
    ensures forall n :: n in old(dir.files) && NameDate(n).Some? && Keep(today, r, NameDate(n).value) ==> n in dir.files
    ensures ok ==> forall n :: n in dir.files && NameDate(n).Some? && n !in stuck ==> Keep(today, r, NameDate(n).value)
  {
    PrunedSays(dir.files, today, r, stuck);
    hide NameDate, ByDate, Select, DailyKept, WeeklyKept, MonthlyKept, YearlyKept, Keep, Pruned, KeptByKeys, AddDate;
    var all := ListBackups(dir.files, listing, blind);
    if all.ReadError? { return false; }
    var files := all.files;
    DoomedArePruned(dir.files, blind, files, today, r, stuck);
    if |files| == 0 { return true; }
    var dailyCutoff := AddDate(today, 0, 0, -r.daily);
    var keepSundays := SundayKeys(today, r.weekly);
    var keepMonthEnds := MonthEndKeys(today, r.monthly);
    var keepYearEnds := YearEndKeys(today, r.yearly);
    KeysDecide(today, r, dailyCutoff, keepSundays, keepMonthEnds, keepYearEnds);
    Delete(dir, files, today, r, dailyCutoff, keepSundays, keepMonthEnds, keepYearEnds, stuck);
    ok := true;
  }

  lemma KeysDecide(today: int, r: Retain, cutoff: int,
                   sundays: set<string>, monthEnds: set<string>, yearEnds: set<string>)
    requires cutoff == AddDate(today, 0, 0, -r.daily)
    requires forall f :: DateKey(f) in sundays <==> WeeklyKept(today, r.weekly, f)
    requires forall f :: DateKey(f) in monthEnds <==> MonthlyKept(today, r.monthly, f)
    requires forall f :: DateKey(f) in yearEnds <==> YearlyKept(today, r.yearly, f)
    ensures forall f :: KeptByKeys(f, cutoff, sundays, monthEnds, yearEnds) <==> Keep(today, r, f)
  {
    hide WeeklyKept, MonthlyKept, YearlyKept, AddDate, DateKey;
    AddDays(today, -r.daily);
  }

  /** The deletion loop. */
  method Delete(dir: Folder, files: seq<BackupFile>, today: int, r: Retain, cutoff: int,
                sundays: set<string>, monthEnds: set<string>, yearEnds: set<string>, stuck: set<string>)
    requires forall f :: KeptByKeys(f, cutoff, sundays, monthEnds, yearEnds) <==> Keep(today, r, f)
    modifies dir
    ensures dir.files == old(dir.files) - Doomed(files, today, r, stuck)
  {
    hide KeptByKeys, Keep;
    for i := 0 to |files|
      invariant dir.files == old(dir.files) - Doomed(files[..i], today, r, stuck)
    {
      var f := files[i];
      assert forall b :: b in files[..i + 1] <==> b in files[..i] || b == f;
      if KeptByKeys(f.date, cutoff, sundays, monthEnds, yearEnds) || f.name in stuck {
        assert Doomed(files[..i + 1], today, r, stuck) == Doomed(files[..i], today, r, stuck);
        continue;
      }
      dir.Issue(Remove(f.name));
      assert Doomed(files[..i + 1], today, r, stuck) == Doomed(files[..i], today, r, stuck) + {f.name};
    }
    assert files[..|files|] == files;
  }
}
