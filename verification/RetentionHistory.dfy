/** What the retention rules promise over many nights: the outcome does not depend on which earlier
    nights the program ran, and for which counts that needs no file from the future. */
module RetentionHistory {
  import opened Calendar
  import opened Files
  import opened Retention

  // ----- History independence -----------------------------------------------

  /** A rule that would keep a day on a later night keeps it on every earlier one, for all days up to
      the earlier night. */
  lemma KeepRulesAntitone(s: int, t: int, r: Retain, f: int)
    requires s <= t && f <= s
    ensures DailyKept(t, r.daily, f) ==> DailyKept(s, r.daily, f)
    ensures WeeklyKept(t, r.weekly, f) ==> WeeklyKept(s, r.weekly, f)
    ensures MonthlyKept(t, r.monthly, f) ==> MonthlyKept(s, r.monthly, f)
    ensures YearlyKept(t, r.yearly, f) ==> YearlyKept(s, r.yearly, f)
  {
    hide MonthIndex, MonthStart, Overflows, MonthAfter;
    YearMonotone(s, t);
    YearMonotone(f, s);
    MonthIndexMonotone(f, s);
    MonthIndexMonotone(s, t);
    if r.monthly >= 1 { MonthAfterMonotone(s, t, r.monthly - 1); }
  }

  /** A run on night `s` deletes a day that a run on the later night `t` would keep. */
  predicate Forgets(s: int, t: int, r: Retain, f: int) { s <= t && Keep(t, r, f) && !Keep(s, r, f) }

  /** Counts with which that happens: the daily rule of the earlier night reaches past the day, one of
      the others does not reach it yet. */
  predicate Forgetful(r: Retain) {
    || (r.weekly >= 1 && r.daily <= 5 - 7 * r.weekly)
    || (r.monthly >= 1 && r.daily <= -29)
    || (r.yearly >= 1 && r.daily <= -366)
  }

  /** Nights on which the weekly rule does not stop at its first Sunday. */
  predicate Modern(today: int) { Year(LastSunday(today)) >= 2000 }

  predicate Steady(r: Retain, today: int) { !Forgetful(r) && (r.daily >= -1 || Modern(today)) }

  /** Whatever a later night keeps, an earlier one keeps, if the day is not after the
      earlier night or the counts are not forgetful. */
  lemma KeepAntitone(s: int, t: int, r: Retain, f: int)
    requires s <= t && (f <= s || Steady(r, s)) && Keep(t, r, f)
    ensures Keep(s, r, f)
  {
    hide WeeklyKept, MonthlyKept, YearlyKept, Modern, Forgetful;
    if f <= s {
      KeepRulesAntitone(s, t, r, f);
    } else if r.daily < -1 {
      assert Modern(s);
      if WeeklyKept(t, r.weekly, f) { FutureSunday(s, t, r, f); }
      if MonthlyKept(t, r.monthly, f) { FutureMonthEnd(s, t, r, f); }
      if YearlyKept(t, r.yearly, f) { FutureYearEnd(s, t, r, f); }
    }
  }

  lemma FutureSunday(s: int, t: int, r: Retain, f: int)
    requires s < f && Modern(s) && WeeklyKept(t, r.weekly, f) && !Forgetful(r)
    ensures WeeklyKept(s, r.weekly, f) || DailyKept(s, r.daily, f)
  {
    hide Year;
  }

  lemma FutureMonthEnd(s: int, t: int, r: Retain, f: int)
    requires s < f && MonthlyKept(t, r.monthly, f) && !Forgetful(r)
    ensures MonthlyKept(s, r.monthly, f) || DailyKept(s, r.daily, f)
  {
    hide MonthIndex, MonthStart, MonthLength, MonthAfter;
    var j, k := MonthIndex(s), MonthIndex(f);
    MonthIndexMonotone(s, f);
    MonthAfterIsBelow(s, r.monthly - 1);
    if j < k { MonthStartMonotone(j + 1, k + 1); }
  }

  lemma FutureYearEnd(s: int, t: int, r: Retain, f: int)
    requires s < f && YearlyKept(t, r.yearly, f) && !Forgetful(r)
    ensures YearlyKept(s, r.yearly, f) || DailyKept(s, r.daily, f)
  {
    hide Year, MonthOf, DayOf;
    YearMonotone(s, f);
    if Year(s) < Year(f) { YearEndsApart(s, f); }
  }

  /** From any day to the end of a later year it is at least 365 days. */
  lemma YearEndsApart(s: int, f: int)
    requires Year(s) < Year(f) && MonthOf(f) == 12 && DayOf(f) == 31
    ensures f >= s + 365
  {
    hide MonthIndex, MonthStart, MonthLength;
    var y := Year(s);
    var next := DateOf(y + 1, 12, 31);
    CivilRoundTrip(f);
    assert MonthIndex(f) == 12 * Year(f) + 11;
    MonthStartMonotone(12 * (y + 1) + 11, MonthIndex(f));
    MonthStartMonotone(MonthIndex(s) + 1, 12 * (y + 1));
    YearEnd(y + 1);
    assert f >= next;
  }

  lemma YearEnd(y: int)
    ensures DateOf(y, 12, 31) >= MonthStart(12 * y) + 364
  {
    assert (12 * y) / 12 == y && (12 * y + 11) / 12 == y && (12 * y) % 12 == 0 && (12 * y + 11) % 12 == 11;
  }

  /** One night: the backups written, then `Apply`, during which some deletions may fail. */
  datatype Night = Night(today: int, created: Disk, stuck: set<string>)

  function After(d: Disk, nights: seq<Night>, r: Retain): Disk {
    if nights == [] then d else
    var n := nights[|nights| - 1];
    Pruned(After(d, nights[..|nights| - 1], r) + n.created, n.today, r, n.stuck)
  }

  /** Everything that was ever in the directory, in its last version. */
  function Ever(d: Disk, nights: seq<Night>): Disk {
    if nights == [] then d else Ever(d, nights[..|nights| - 1]) + nights[|nights| - 1].created
  }

  ghost predicate DatedBy(d: Disk, today: int) {
    forall n :: n in d && NameDate(n).Some? ==> NameDate(n).value <= today
  }

  predicate AllSteady(nights: seq<Night>, r: Retain) { forall i :: 0 <= i < |nights| ==> Steady(r, nights[i].today) }

  ghost predicate AllDated(d: Disk, nights: seq<Night>) {
    forall i :: 0 <= i < |nights| ==> DatedBy(d, nights[i].today) && DatedBy(nights[i].created, nights[i].today)
  }

  /** The nights follow each other, and no file is dated after the night it appears in, or
      the counts do not mind. */
  ghost predicate Ordered(d: Disk, nights: seq<Night>, r: Retain) {
    && (forall i, j :: 0 <= i < j < |nights| ==> nights[i].today <= nights[j].today)
    && (AllSteady(nights, r) || AllDated(d, nights))
  }

  /** After any sequence of nights, whatever deletions failed on the way, the files the last night's
      rules keep are all there, in their last version, and nothing is there that never was. */
  lemma {:induction false} NothingKeptIsLost(d: Disk, nights: seq<Night>, r: Retain)
    requires nights != [] && Ordered(d, nights, r)
    ensures var last := nights[|nights| - 1].today; var have := After(d, nights, r);
      && have.Keys <= Ever(d, nights).Keys
      && (forall n :: n in have ==> have[n] == Ever(d, nights)[n])
      && forall n :: n in Ever(d, nights) && (NameDate(n).None? || Keep(last, r, NameDate(n).value)) ==> n in have
  {
    hide NameDate, Keep, Steady;
    var init, last := nights[..|nights| - 1], nights[|nights| - 1];
    var have, ever := After(d, init, r), Ever(d, init);
    if init != [] {
      assert Ordered(d, init, r);
      NothingKeptIsLost(d, init, r);
      var prev := init[|init| - 1];
      forall n | n in ever && n !in last.created && (NameDate(n).None? || Keep(last.today, r, NameDate(n).value))
        ensures n in have
      {
        if NameDate(n).Some? {
          if !AllSteady(init, r) { EverDated(d, init, prev.today); }
          KeepAntitone(prev.today, last.today, r, NameDate(n).value);
        }
      }
    }
  }

  lemma {:induction false} EverDated(d: Disk, nights: seq<Night>, today: int)
    requires nights != [] && AllDated(d, nights) && forall i :: 0 <= i < |nights| ==> nights[i].today <= today
    ensures DatedBy(Ever(d, nights), today)
  {
    hide NameDate;
    var init, last := nights[..|nights| - 1], nights[|nights| - 1];
    assert DatedBy(d, last.today) && DatedBy(last.created, last.today);
    if init != [] { EverDated(d, init, today); }
  }

  /** Retention is independent of history: however often the program ran before and
      whichever deletions failed, a last night without failures leaves exactly what
      one single run on the last night would leave of all files there ever were. */
  lemma HistoryIndependent(d: Disk, nights: seq<Night>, r: Retain)
    requires nights != [] && Ordered(d, nights, r) && nights[|nights| - 1].stuck == {}
    ensures After(d, nights, r) == Pruned(Ever(d, nights), nights[|nights| - 1].today, r, {})
  {
    hide NameDate, Keep, Ordered;
    NothingKeptIsLost(d, nights, r);
  }

  // ----- When history matters -----------------------------------------------

  /** On nights after the first Sunday of 2000, exactly the forgetful counts let an earlier run delete what
      a later one would keep. */
  lemma ForgetfulIff(r: Retain)
    ensures (exists s, t, f :: Modern(s) && Forgets(s, t, r, f)) <==> Forgetful(r)
  {
    hide Modern, Forgets, Forgetful;
    forall s, t, f | Modern(s) && Forgets(s, t, r, f)
      ensures Forgetful(r)
    {
      ForgettingNeedsCounts(s, t, r, f);
    }
    if Forgetful(r) { var s, t, f := ForgottenDay(r); }
  }

  lemma ForgettingNeedsCounts(s: int, t: int, r: Retain, f: int)
    requires Modern(s) && Forgets(s, t, r, f)
    ensures Forgetful(r)
  {
    hide Modern, Keep;
    if !Forgetful(r) { KeepAntitone(s, t, r, f); }
  }

  /** A day that is lost, for every choice of forgetful counts. */
  lemma ForgottenDay(r: Retain) returns (s: int, t: int, f: int)
    requires Forgetful(r)
    ensures Modern(s) && Forgets(s, t, r, f)
  {
    hide Modern, Forgets;
    if r.weekly >= 1 && r.daily <= 5 - 7 * r.weekly {
      s := SATURDAY;
      f := SATURDAY - 6 + 7 * r.weekly;
      t := f;
      ForgottenSunday(r);
    } else if r.monthly >= 1 && r.daily <= -29 {
      s, t, f := JAN31, JAN31 + 28, JAN31 + 28;
      ForgottenMonthEnd(r);
    } else {
      s, t, f := JAN31 - 31, JAN31 + 334, JAN31 + 334;
      ForgottenYearEnd(r);
    }
  }

  /** 4 January and 31 January 2025 */
  const SATURDAY := 739255
  const JAN31 := 739282

  lemma Starts2025()
    ensures MonthStart(24299) == 739221 && MonthStart(24300) == 739252 && MonthStart(24301) == 739283
    ensures MonthStart(24302) == 739311 && MonthStart(24311) == 739586 && MonthStart(24312) == 739617
  {
    assert DaysBeforeYear(2024) == 738885 && DaysBeforeYear(2025) == 739251 && DaysBeforeYear(2026) == 739616;
    hide MonthStart, DaysBeforeYear;
    MonthInYear(2024, 11);
    MonthInYear(2025, 0); MonthInYear(2025, 1); MonthInYear(2025, 2); MonthInYear(2025, 11);
    MonthInYear(2026, 0);
  }

  lemma Months2025()
    ensures MonthIndex(SATURDAY) == 24300 && MonthIndex(SATURDAY - 6) == 24299
    ensures MonthIndex(JAN31) == 24300 && MonthEnd(24300) == JAN31
    ensures MonthIndex(JAN31 + 28) == 24301 && MonthEnd(24301) == JAN31 + 28
    ensures MonthIndex(JAN31 - 31) == 24299 && MonthIndex(JAN31 + 334) == 24311 && MonthEnd(24311) == JAN31 + 334
    ensures DayOf(JAN31 + 334) == 31
  {
    hide MonthIndex, MonthStart, MonthLength;
    Starts2025();
    MonthUnique(SATURDAY, 24300);
    MonthUnique(SATURDAY - 6, 24299);
    MonthUnique(JAN31, 24300);
    MonthUnique(JAN31 + 28, 24301);
    MonthUnique(JAN31 - 31, 24299);
    MonthUnique(JAN31 + 334, 24311);
  }

  /** The Sunday after the last one the weekly rule reaches from a Saturday. */
  lemma ForgottenSunday(r: Retain)
    requires r.weekly >= 1 && r.daily <= 5 - 7 * r.weekly
    ensures var f := SATURDAY - 6 + 7 * r.weekly; Modern(SATURDAY) && Forgets(SATURDAY, f, r, f)
  {
    hide *;
    var f := SATURDAY - 6 + 7 * r.weekly;
    SaturdayIsModern();
    SundaysFrom(SATURDAY, r.weekly, f);
    NoSundayEndsPeriod(SATURDAY, r, f);
    NotForSaturday(r, f);
  }

  lemma SaturdayIsModern()
    ensures Modern(SATURDAY) && LastSunday(SATURDAY) == SATURDAY - 6
  {
    hide Year, MonthIndex, MonthStart, DayOf;
    Months2025();
    YearOfMonth(SATURDAY - 6, 24299);
  }

  lemma SundaysFrom(s: int, n: int, f: int)
    requires n >= 1 && f == LastSunday(s) + 7 * n && Modern(s)
    ensures f % 7 == 0 && s < f && WeeklyKept(f, n, f) && !WeeklyKept(s, n, f)
  {
    hide Year;
    assert s % 7 < 7;
  }

  lemma NotForSaturday(r: Retain, f: int)
    requires r.daily <= 5 - 7 * r.weekly && f == SATURDAY - 6 + 7 * r.weekly && SATURDAY < f
    requires WeeklyKept(f, r.weekly, f) && !WeeklyKept(SATURDAY, r.weekly, f)
    requires !MonthlyKept(SATURDAY, r.monthly, f) && !YearlyKept(SATURDAY, r.yearly, f)
    ensures Forgets(SATURDAY, f, r, f)
  {
    hide WeeklyKept, MonthlyKept, YearlyKept;
  }

  lemma YearOfMonth(t: int, k: int)
    requires MonthIndex(t) == k
    ensures Year(t) == k / 12 && MonthOf(t) == k % 12 + 1
  {
    hide MonthIndex;
  }

  /** In January 2025 the monthly and yearly rules keep no later Sunday. */
  lemma NoSundayEndsPeriod(s: int, r: Retain, f: int)
    requires s == SATURDAY && s < f && f % 7 == 0
    ensures !MonthlyKept(s, r.monthly, f) && !YearlyKept(s, r.yearly, f)
  {
    hide MonthIndex, MonthStart, MonthLength, MonthAfter, DayOf;
    Months2025();
    MonthIndexMonotone(s, f);
    if YearlyKept(s, r.yearly, f) {
      CivilRoundTrip(f);
      assert MonthIndex(f) == 24311;
      MonthEndDay(f, 24311);
    }
  }

  lemma MonthEndDay(f: int, k: int)
    requires MonthIndex(f) == k && DayOf(f) == 31
    ensures f == MonthEnd(k)
  {
    hide MonthIndex, MonthStart;
    MonthStep(k);
  }

  lemma ForgottenMonthEnd(r: Retain)
    requires r.monthly >= 1 && r.daily <= -29
    ensures Modern(JAN31) && Forgets(JAN31, JAN31 + 28, r, JAN31 + 28)
  {
    Months2025();
    hide MonthIndex, MonthStart, MonthLength, MonthAfter;
    MonthAfterIsBelow(JAN31 + 28, r.monthly - 1);
    YearMonotone(SATURDAY - 6, LastSunday(JAN31));
  }

  lemma ForgottenYearEnd(r: Retain)
    requires r.yearly >= 1 && r.daily <= -366
    ensures Modern(JAN31 - 31) && Forgets(JAN31 - 31, JAN31 + 334, r, JAN31 + 334)
  {
    Months2025();
    hide MonthIndex, MonthStart, MonthLength, MonthAfter;
    YearMonotone(SATURDAY - 6, LastSunday(JAN31 - 31));
  }

  // ----- The same on files --------------------------------------------------

  /** Two nights with nothing new and no failing deletion leave what the second alone would leave. */
  predicate SecondSuffices(d: Disk, s: int, t: int, r: Retain) {
    var nights := [Night(s, map[], {}), Night(t, map[], {})];
    After(d, nights, r) == Pruned(Ever(d, nights), t, r, {})
  }

  lemma TwoNights(d: Disk, s: int, t: int, r: Retain)
    ensures SecondSuffices(d, s, t, r) <==> Pruned(Pruned(d, s, r, {}), t, r, {}) == Pruned(d, t, r, {})
  {
    hide Pruned;
    var first, second := Night(s, map[], {}), Night(t, map[], {});
    var nights := [first, second];
    assert nights[..1] == [first] && [first][..0] == [];
    assert After(d, [first], r) == Pruned(d + map[], s, r, {}) && d + map[] == d;
    assert Ever(d, [first]) == d + map[];
    assert Pruned(d, s, r, {}) + map[] == Pruned(d, s, r, {});
  }

  /** The second of two nights suffices for every directory exactly if the first deletes no day, of those file
      names can carry, that the second would keep. */
  lemma SecondSufficesIff(s: int, t: int, r: Retain)
    requires s <= t
    ensures (forall d :: SecondSuffices(d, s, t, r)) <==> forall f :: 0 <= Year(f) <= 9999 ==> !Forgets(s, t, r, f)
  {
    hide Year, Forgets, SecondSuffices;
    if forall f :: 0 <= Year(f) <= 9999 ==> !Forgets(s, t, r, f) {
      forall d
        ensures SecondSuffices(d, s, t, r)
      {
        NothingForgotten(d, s, t, r);
      }
    }
    forall f | 0 <= Year(f) <= 9999 && Forgets(s, t, r, f)
      ensures exists d :: !SecondSuffices(d, s, t, r)
    {
      BackupNameIsDated(f, "", "");
      FutureFileLost(BackupName(f, "", ""), File([], true, 0), s, t, r);
    }
  }

  lemma NothingForgotten(d: Disk, s: int, t: int, r: Retain)
    requires s <= t && forall f :: 0 <= Year(f) <= 9999 ==> !Forgets(s, t, r, f)
    ensures SecondSuffices(d, s, t, r)
  {
    TwoNights(d, s, t, r);
    hide Year, Keep, NameDate, SecondSuffices;
    forall n | n in d && NameDate(n).Some?
      ensures 0 <= Year(NameDate(n).value) <= 9999
    {
      NameYear(n);
    }
    assert Pruned(Pruned(d, s, r, {}), t, r, {}) == Pruned(d, t, r, {});
  }

  lemma NameYear(n: string)
    requires NameDate(n).Some?
    ensures 0 <= Year(NameDate(n).value) <= 9999
  {
    hide Year, ParseDate;
    ParseYear(n[13..21]);
  }

  lemma FutureFileLost(name: string, file: File, s: int, t: int, r: Retain)
    requires NameDate(name).Some? && Forgets(s, t, r, NameDate(name).value)
    ensures !SecondSuffices(map[name := file], s, t, r)
  {
    var d := map[name := file];
    TwoNights(d, s, t, r);
    hide Keep, NameDate, SecondSuffices;
    assert name in Pruned(d, t, r, {}) && name !in Pruned(d, s, r, {});
  }

  /** Every daily count below -1 loses a backup, if one Sunday is to be kept: on Saturday, 4 January 2025, the
      run deletes the backup dated the next day, which the run of that day alone would keep. */
  lemma FutureFilesNeedDailyCount(daily: int, host: string, db: string, file: File)
    requires daily <= -2
    ensures !SecondSuffices(map[BackupName(DateOf(2025, 1, 5), host, db) := file],
                            DateOf(2025, 1, 4), DateOf(2025, 1, 5), Retain(daily, 1, 0, 0))
  {
    hide *;
    var r, f := Retain(daily, 1, 0, 0), SATURDAY + 1;
    SaturdayDate();
    ForgottenSunday(r);
    BackupNameIsDated(f, host, db);
    FutureFileLost(BackupName(f, host, db), file, SATURDAY, f, r);
  }

  lemma SaturdayDate()
    ensures DateOf(2025, 1, 4) == SATURDAY && DateOf(2025, 1, 5) == SATURDAY + 1 && Year(SATURDAY + 1) == 2025
  {
    hide MonthStart, MonthIndex;
    Starts2025();
    MonthUnique(SATURDAY + 1, 24300);
  }
}
