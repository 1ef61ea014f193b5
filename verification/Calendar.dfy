/** Civil dates. A point in time is the number of its day (1 January of year 1 is
    day 1), and `Year`, `MonthOf`, `DayOf` read the Gregorian calendar off it. Months are
    counted through, 12 to the year, which is how `time.Date` normalises them. */
module Calendar {
  import opened Text

  predicate IsLeap(y: int) {
    y % 4 == 0 && (y % 100 != 0 || y % 400 == 0)
  }

  function DaysBeforeYear(y: int): int {
    var p := y - 1;
    365 * p + p / 4 - p / 100 + p / 400
  }

  /** The length of month `m`, counted from 0 for January. */
  function LengthOf(leap: bool, m: nat): (days: nat)
    requires m < 12
    ensures 28 <= days <= 31
  {
    if m == 1 then (if leap then 29 else 28)
    else if m in {3, 5, 8, 10} then 30
    else 31
  }

  function DaysBeforeMonth(leap: bool, m: nat): nat
    requires m < 12
  {
    var february := if leap then 29 else 28;
    if m == 0 then 0 else if m == 1 then 31 else
    31 + february + [0, 31, 61, 92, 122, 153, 184, 214, 245, 275][m - 2]
  }

  /** The first day of the month with index `k` = 12 * year + month - 1. */
  function MonthStart(k: int): int {
    DaysBeforeYear(k / 12) + DaysBeforeMonth(IsLeap(k / 12), k % 12) + 1
  }

  function MonthLength(k: int): (days: nat)
    ensures 28 <= days <= 31
  {
    LengthOf(IsLeap(k / 12), k % 12)
  }

  lemma YearStep(y: int)
    ensures DaysBeforeYear(y + 1) == DaysBeforeYear(y) + if IsLeap(y) then 366 else 365
  {
    DivStep(y - 1, 4);
    DivStep(y - 1, 100);
    DivStep(y - 1, 400);
  }

  lemma DivStep(p: int, n: int)
    requires n in {4, 100, 400}
    ensures (p + 1) / n == p / n + if (p + 1) % n == 0 then 1 else 0
  {}

  /** The months follow each other without gap, each as long as the calendar says. */
  lemma MonthStep(k: int)
    ensures MonthStart(k + 1) == MonthStart(k) + MonthLength(k)
  {
    var y, m := k / 12, k % 12;
    YearStep(y);
    if m == 11 {
      assert (k + 1) / 12 == y + 1 && (k + 1) % 12 == 0;
    } else {
      assert (k + 1) / 12 == y && (k + 1) % 12 == m + 1;
    }
  }

  lemma {:induction false} MonthStartMonotone(a: int, b: int)
    requires a <= b
    ensures MonthStart(a) + 28 * (b - a) <= MonthStart(b)
    decreases b - a
  {
    hide MonthStart;
    if a < b {
      MonthStep(b - 1);
      MonthStartMonotone(a, b - 1);
    }
  }

  lemma YearBounds(p: int)
    ensures 146097 * p - 699 <= 400 * DaysBeforeYear(p + 1) <= 146097 * p + 396
  {
    assert 4 * (p / 4) <= p <= 4 * (p / 4) + 3;
    assert 100 * (p / 100) <= p <= 100 * (p / 100) + 99;
    assert 400 * (p / 400) <= p <= 400 * (p / 400) + 399;
  }

  /** The year a day lies in. */
  function YearOf(t: int): (y: int)
    ensures DaysBeforeYear(y) < t <= DaysBeforeYear(y + 1)
  {
    var e := 400 * (t - 1) / 146097;
    YearBounds(e - 1); YearBounds(e); YearBounds(e + 1); YearBounds(e + 2);
    if t <= DaysBeforeYear(e + 1) then e
    else if t <= DaysBeforeYear(e + 2) then e + 1
    else e + 2
  }

  /** How many days of its year are over before day `t`. */
  function DayInYear(t: int): (d: nat)
    ensures t == DaysBeforeYear(YearOf(t)) + d + 1
    ensures d < if IsLeap(YearOf(t)) then 366 else 365
  {
    YearStep(YearOf(t));
    t - DaysBeforeYear(YearOf(t)) - 1
  }

  /** The month a day lies in. */
  function MonthIndex(t: int): (k: int)
    ensures MonthStart(k) <= t < MonthStart(k + 1)
  {
    hide MonthStart, DaysBeforeYear, DaysBeforeMonth, LengthOf, IsLeap, YearOf;
    var y := YearOf(t);
    var m := MonthWithin(IsLeap(y), DayInYear(t));
    MonthInYear(y, m);
    12 * y + m
  }

  lemma MonthInYear(y: int, m: nat)
    requires m < 12
    ensures MonthStart(12 * y + m) == DaysBeforeYear(y) + DaysBeforeMonth(IsLeap(y), m) + 1
    ensures MonthStart(12 * y + m + 1) == MonthStart(12 * y + m) + LengthOf(IsLeap(y), m)
  {
    hide DaysBeforeYear, DaysBeforeMonth, LengthOf, IsLeap;
    var k := 12 * y + m;
    assert k / 12 == y && k % 12 == m;
    MonthStep(k);
  }

  function MonthWithin(leap: bool, d: nat): (m: nat)
    requires d < if leap then 366 else 365
    ensures m < 12 && DaysBeforeMonth(leap, m) <= d < DaysBeforeMonth(leap, m) + LengthOf(leap, m)
  {
    if d < 31 then 0 else
    var e := d - (if leap then 60 else 59);
    if e < 0 then 1 else if e < 31 then 2 else if e < 61 then 3 else if e < 92 then 4
    else if e < 122 then 5 else if e < 153 then 6 else if e < 184 then 7 else if e < 214 then 8
    else if e < 245 then 9 else if e < 275 then 10 else 11
  }

  lemma MonthUnique(t: int, k: int)
    requires MonthStart(k) <= t < MonthStart(k + 1)
    ensures MonthIndex(t) == k
  {
    hide *;
    var j := MonthIndex(t);
    if j < k { MonthStartMonotone(j + 1, k); }
    if k < j { MonthStartMonotone(k + 1, j); }
  }

  lemma MonthIndexMonotone(s: int, t: int)
    requires s <= t
    ensures MonthIndex(s) <= MonthIndex(t)
  {
    hide *;
    var a, b := MonthIndex(s), MonthIndex(t);
    if b < a { MonthStartMonotone(b + 1, a); }
  }

  // Go's accessors.
  function Year(t: int): int { MonthIndex(t) / 12 }
  function MonthOf(t: int): (m: int)
    ensures 1 <= m <= 12
  { MonthIndex(t) % 12 + 1 }
  function DayOf(t: int): (d: int)
    ensures 1 <= d <= 31
  {
    hide *;
    MonthStep(MonthIndex(t));
    t - MonthStart(MonthIndex(t)) + 1
  }
  /** 0 is Sunday. */
  function Weekday(t: int): int { t % 7 }

  /** `time.Date` at midnight: months and days outside their range run over into
      the years and months next to them. */
  function DateOf(y: int, m: int, d: int): int {
    MonthStart(12 * y + m - 1) + d - 1
  }

  /** `Time.AddDate` */
  function AddDate(t: int, years: int, months: int, days: int): int {
    DateOf(Year(t) + years, MonthOf(t) + months, DayOf(t) + days)
  }

  lemma AddDateByIndex(t: int, years: int, months: int, days: int)
    ensures AddDate(t, years, months, days) == MonthStart(MonthIndex(t) + 12 * years + months) + DayOf(t) - 1 + days
  {
    hide MonthIndex, MonthStart;
    var k := MonthIndex(t);
    assert 12 * (Year(t) + years) + MonthOf(t) + months - 1 == k + 12 * years + months;
  }

  /** Taking a day apart and putting it together again gives the same day. */
  lemma CivilRoundTrip(t: int)
    ensures DateOf(Year(t), MonthOf(t), DayOf(t)) == t
  {
    hide MonthIndex, MonthStart;
    AddDateByIndex(t, 0, 0, 0);
  }

  /** A civil date the calendar knows is read back unchanged. */
  lemma CivilOfDate(y: int, m: int, d: int)
    requires 1 <= m <= 12 && 1 <= d <= MonthLength(12 * y + m - 1)
    ensures var t := DateOf(y, m, d); Year(t) == y && MonthOf(t) == m && DayOf(t) == d
  {
    hide MonthIndex, MonthStart;
    var k := 12 * y + m - 1;
    MonthStep(k);
    MonthUnique(DateOf(y, m, d), k);
    assert k / 12 == y && k % 12 == m - 1;
  }

  lemma AddDays(t: int, days: int)
    ensures AddDate(t, 0, 0, days) == t + days
  {
    hide MonthIndex, MonthStart;
    AddDateByIndex(t, 0, 0, days);
  }

  /** The months have their lengths in the Gregorian calendar. */
  lemma GregorianMonths(y: int, m: int)
    requires 1 <= m <= 12
    ensures MonthLength(12 * y + m - 1) ==
      if m in {4, 6, 9, 11} then 30
      else if m != 2 then 31
      else if y % 4 == 0 && (y % 100 != 0 || y % 400 == 0) then 29 else 28
  {
    hide LengthOf, IsLeap;
    var k := 12 * y + m - 1;
    assert k / 12 == y && k % 12 == m - 1;
    LengthTable(IsLeap(y), m);
    LeapYears(y);
  }

  lemma LengthTable(leap: bool, m: int)
    requires 1 <= m <= 12
    ensures LengthOf(leap, m - 1) == if m in {4, 6, 9, 11} then 30 else if m != 2 then 31 else if leap then 29 else 28
  {}

  lemma LeapYears(y: int)
    ensures IsLeap(y) <==> y % 4 == 0 && (y % 100 != 0 || y % 400 == 0)
  {}

  /** The first day of the calendar, and that 1 January 2000 was a Saturday. */
  lemma Anchors()
    ensures DateOf(1, 1, 1) == 1 && Weekday(DateOf(2000, 1, 1)) == 6
  {
    hide *;
    FirstMonths();
    FirstOfYear(1);
    FirstOfYear(2000);
    InWeek(DateOf(2000, 1, 1), 104302, 6);
  }

  lemma FirstOfYear(y: int)
    ensures DateOf(y, 1, 1) == MonthStart(12 * y)
  {
    hide MonthStart;
  }

  lemma InWeek(t: int, week: int, day: int)
    requires t == 7 * week + day && 0 <= day < 7
    ensures Weekday(t) == day
  {}

  lemma FirstMonths()
    ensures MonthStart(12) == 1 && MonthStart(24000) == 730120
  {
    assert DaysBeforeYear(1) == 0 && DaysBeforeYear(2000) == 730119;
    hide MonthStart, DaysBeforeYear;
    MonthInYear(1, 0);
    MonthInYear(2000, 0);
  }

  // ----- Dates as text ------------------------------------------------------

  predicate IsDigit(c: char) { '0' <= c <= '9' }

  predicate AllDigits(s: string) { forall i :: 0 <= i < |s| ==> IsDigit(s[i]) }

  function Digit(n: nat): (c: char)
    requires n < 10
    ensures IsDigit(c) && c as int - '0' as int == n
  {
    '0' + n as char
  }

  /** The digits of `n`, filled up with zeros to `width`. */
  function Pad(n: nat, width: nat): (s: string)
    ensures AllDigits(s) && |s| >= width
    decreases width, n
  {
    if width == 0 && n == 0 then ""
    else Pad(n / 10, if width == 0 then 0 else width - 1) + [Digit(n % 10)]
  }

  function Value(s: string): nat
    requires AllDigits(s)
  {
    if s == "" then 0 else 10 * Value(s[..|s| - 1]) + (s[|s| - 1] as int - '0' as int)
  }

  function Pow10(w: nat): nat { if w == 0 then 1 else 10 * Pow10(w - 1) }

  lemma {:induction false} PadValue(n: nat, width: nat)
    ensures Value(Pad(n, width)) == n
    decreases width, n
  {
    if width != 0 || n != 0 {
      var w := if width == 0 then 0 else width - 1;
      PadValue(n / 10, w);
      assert Pad(n, width)[..|Pad(n, width)| - 1] == Pad(n / 10, w);
    }
  }

  lemma {:induction false} PadWidth(n: nat, width: nat)
    requires n < Pow10(width)
    ensures |Pad(n, width)| == width
  {
    if width != 0 { PadWidth(n / 10, width - 1); }
  }

  lemma {:induction false} ValuePad(s: string)
    requires AllDigits(s)
    ensures Value(s) < Pow10(|s|) && Pad(Value(s), |s|) == s
  {
    if s != "" { ValuePad(s[..|s| - 1]); }
  }

  /** `t.Format("20060102")`, which `dateKey` returns. */
  function DateKey(t: int): string {
    var y := Year(t);
    (if y < 0 then "-" + Pad(-y, 4) else Pad(y, 4)) + Pad(MonthOf(t), 2) + Pad(DayOf(t), 2)
  }

  /** `time.Parse("20060102", s)` */
  function ParseDate(s: string): Option<int>
    requires |s| == 8 && AllDigits(s)
  {
    var y, m, d := Value(s[..4]), Value(s[4..6]), Value(s[6..]);
    if 1 <= m <= 12 && 1 <= d <= MonthLength(12 * y + m - 1) then Some(DateOf(y, m, d)) else None
  }

  lemma KeyParts(t: int)
    ensures |Pad(MonthOf(t), 2)| == 2 && |Pad(DayOf(t), 2)| == 2
    ensures 0 <= Year(t) <= 9999 ==> |DateKey(t)| == 8 && AllDigits(DateKey(t))
  {
    hide MonthIndex, MonthStart, Pad;
    assert Pow10(2) == 100;
    PadWidth(MonthOf(t), 2);
    PadWidth(DayOf(t), 2);
    if 0 <= Year(t) <= 9999 {
      assert Pow10(4) == 100 * Pow10(2);
      PadWidth(Year(t), 4);
    }
  }

  /** Two days with the same key are the same day, in every year. */
  lemma KeyInjective(s: int, t: int)
    requires DateKey(s) == DateKey(t)
    ensures s == t
  {
    hide MonthIndex, MonthStart, MonthLength, YearOf, DateOf, Value, Pad;
    KeyParts(s); KeyParts(t);
    var k, l := DateKey(s), DateKey(t);
    assert k[|k| - 2..] == Pad(DayOf(s), 2) && l[|l| - 2..] == Pad(DayOf(t), 2);
    assert k[|k| - 4..|k| - 2] == Pad(MonthOf(s), 2) && l[|l| - 4..|l| - 2] == Pad(MonthOf(t), 2);
    PadValue(DayOf(s), 2); PadValue(DayOf(t), 2);
    PadValue(MonthOf(s), 2); PadValue(MonthOf(t), 2);
    YearInjective(Year(s), k[..|k| - 4], Year(t), l[..|l| - 4]);
    CivilRoundTrip(s); CivilRoundTrip(t);
  }

  lemma YearInjective(y: int, k: string, z: int, l: string)
    requires k == if y < 0 then "-" + Pad(-y, 4) else Pad(y, 4)
    requires l == if z < 0 then "-" + Pad(-z, 4) else Pad(z, 4)
    requires k == l
    ensures y == z
  {
    hide Pad, Value;
    if y < 0 {
      assert k[0] == '-' && k[1..] == Pad(-y, 4);
      assert z < 0 by { assert !IsDigit('-'); }
      assert l[1..] == Pad(-z, 4);
      PadValue(-y, 4); PadValue(-z, 4);
    } else {
      PadValue(y, 4);
      assert IsDigit(k[0]);
      assert z >= 0;
      PadValue(z, 4);
    }
  }

  /** The date written into a file name is the date read out of it. */
  lemma KeyRoundTrip(t: int)
    requires 0 <= Year(t) <= 9999
    ensures |DateKey(t)| == 8 && AllDigits(DateKey(t)) && ParseDate(DateKey(t)) == Some(t)
  {
    hide MonthIndex, MonthStart, MonthLength, YearOf, DateOf, Value, Pad;
    KeyParts(t);
    var s := DateKey(t);
    assert s[..4] == Pad(Year(t), 4) && s[4..6] == Pad(MonthOf(t), 2) && s[6..] == Pad(DayOf(t), 2);
    PadValue(Year(t), 4); PadValue(MonthOf(t), 2); PadValue(DayOf(t), 2);
    CivilRoundTrip(t);
    MonthStep(MonthIndex(t));
    assert 12 * Year(t) + MonthOf(t) - 1 == MonthIndex(t);
  }

  /** The key digit by digit: four of the year, two of the month, two of the day. */
  lemma KeyDigits(t: int)
    requires 0 <= Year(t) <= 9999
    ensures var y, m, d := Year(t), MonthOf(t), DayOf(t);
      DateKey(t) == [Digit(y / 1000), Digit(y / 100 % 10), Digit(y / 10 % 10), Digit(y % 10)]
                    + [Digit(m / 10), Digit(m % 10)] + [Digit(d / 10), Digit(d % 10)]
  {
    hide MonthIndex, MonthStart, YearOf, Year, MonthOf, DayOf;
    TwoDigits(MonthOf(t));
    TwoDigits(DayOf(t));
    FourDigits(Year(t));
  }

  lemma TwoDigits(n: nat)
    requires n < 100
    ensures Pad(n, 2) == [Digit(n / 10), Digit(n % 10)]
  {
    assert Pad(n / 100, 0) == "";
    assert Pad(n / 10, 1) == Pad(n / 10 / 10, 0) + [Digit(n / 10 % 10)];
  }

  lemma FourDigits(n: nat)
    requires n < 10000
    ensures Pad(n, 4) == [Digit(n / 1000), Digit(n / 100 % 10), Digit(n / 10 % 10), Digit(n % 10)]
  {
    TwoDigits(n / 100);
    Quotients(n);
    var h := n / 100;
    LastDigit(n / 10, 3);
    LastDigit(n, 4);
    hide Digit, Pad;
  }

  lemma Quotients(n: nat)
    ensures n / 10 / 10 == n / 100 && n / 100 / 10 == n / 1000
  {}

  lemma LastDigit(n: nat, width: nat)
    requires width > 0
    ensures Pad(n, width) == Pad(n / 10, width - 1) + [Digit(n % 10)]
  {}

  /** Every accepted eight digits are the key of the day they are read as. */
  lemma ParseIsKey(s: string)
    requires |s| == 8 && AllDigits(s) && ParseDate(s).Some?
    ensures DateKey(ParseDate(s).value) == s
  {
    hide MonthIndex, MonthStart, MonthLength, YearOf, DateOf, Value, Pad;
    var y, m, d := Value(s[..4]), Value(s[4..6]), Value(s[6..]);
    CivilOfDate(y, m, d);
    ValuePad(s[..4]); ValuePad(s[4..6]); ValuePad(s[6..]);
    assert s == s[..4] + s[4..6] + s[6..];
  }

  lemma ParseYear(s: string)
    requires |s| == 8 && AllDigits(s) && ParseDate(s).Some?
    ensures 0 <= Year(ParseDate(s).value) <= 9999
  {
    hide MonthIndex, MonthStart, MonthLength, YearOf, DateOf, Value, Pad;
    var y, m, d := Value(s[..4]), Value(s[4..6]), Value(s[6..]);
    CivilOfDate(y, m, d);
    ValuePad(s[..4]);
    assert Pow10(4) == 10000;
  }
}
