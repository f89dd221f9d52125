/** Broken-down time to seconds since the Epoch, against the Gregorian calendar. */
module Calendar {
  import opened Bits

  predicate IsLeapYear(year: int) {
    CMod(year, 400) == 100 || (CMod(year, 100) != 0 && CMod(year, 4) == 0)
  }

  function LeapYearsToEnd(year: int): int {
    CDiv(year, 4) - CDiv(year, 100) + CDiv(year + 300, 400)
  }

  const OFFSETS: seq<int> := [1, 4, 3, 6, 1, 4, 6, 2, 5, 0, 3, 5]
  const MONTH_STARTS: seq<int> := [0, 31, 59, 90, 120, 151, 181, 212, 243, 273, 304, 334]

  function DaySum(year: int, mon: int, mday: int): int
    requires 0 <= mon < 12
  {
    var pseudo := if mon < 2 then year - 1 else year;
    pseudo + LeapYearsToEnd(pseudo) + OFFSETS[mon] + mday
  }

  function DayOfWeek(year: int, mon: int, mday: int): int
    requires 0 <= mon < 12
  {
    CMod(DaySum(year, mon, mday), 7)
  }

  function DayOfYear(year: int, mon: int, mday: int): int
    requires 0 <= mon < 12
  {
    mday - 1 + MONTH_STARTS[mon] + if mon >= 2 && IsLeapYear(year) then 1 else 0
  }

  function Days(year: int, mon: int, mday: int): int
    requires 0 <= mon < 12
  {
    DayOfYear(year, mon, mday) + 365 * year - 25567 + LeapYearsToEnd(year - 1)
  }

  class Tm {
    var sec: int
    var min: int
    var hour: int
    var mday: int
    var mon: int
    var year: int
    var wday: int
    var yday: int

    /** Seconds since the Epoch, filling in day of week and day of year on the way. */
    method Mktime() returns (seconds: int)
      requires 0 <= mon < 12
      modifies `wday, `yday
      ensures yday == DayOfYear(year, mon, mday) && wday == DayOfWeek(year, mon, mday)
      ensures seconds == Days(year, mon, mday) * 86400 + (hour * 60 + min) * 60 + sec
    {
      yday := mday - 1 + MONTH_STARTS[mon];
      if mon >= 2 && IsLeapYear(year) { yday := yday + 1; }
      wday := DayOfWeek(year, mon, mday);
      var days := yday + 365 * year - 25567 + LeapYearsToEnd(year - 1);
      var secondsSinceDay := (hour * 60 + min) * 60 + sec;
      seconds := days * 86400 + secondsSinceDay;
    }
  }

  // ----- The Gregorian calendar -----

  ghost predicate Leap(year: int) {
    var y := year + 1900;
    y % 400 == 0 || (y % 4 == 0 && y % 100 != 0)
  }

  ghost function MonthLength(year: int, mon: int): int
    requires 0 <= mon < 12
  {
    if mon == 1 then (if Leap(year) then 29 else 28)
    else if mon == 3 || mon == 5 || mon == 8 || mon == 10 then 30 else 31
  }

  datatype Date = Date(year: int, mon: int, mday: int)

  ghost predicate Valid(d: Date) {
    0 <= d.mon < 12 && 1 <= d.mday <= MonthLength(d.year, d.mon)
  }

  ghost function Next(d: Date): (n: Date)
    requires Valid(d)
    ensures Valid(n)
  {
    if d.mday < MonthLength(d.year, d.mon) then d.(mday := d.mday + 1)
    else if d.mon < 11 then Date(d.year, d.mon + 1, 1)
    else Date(d.year + 1, 0, 1)
  }

  ghost function DaysOf(d: Date): int
    requires Valid(d)
  {
    Days(d.year, d.mon, d.mday)
  }

  /** The leap years counted grow by one exactly over a leap year. */
  ghost predicate YearCounted(year: int) {
    LeapYearsToEnd(year) - LeapYearsToEnd(year - 1) == if IsLeapYear(year) then 1 else 0
  }

  lemma CDivStep(a: int, b: int)
    requires b > 0
    ensures a > 0 ==> CDiv(a, b) - CDiv(a - 1, b) == if a % b == 0 then 1 else 0
    ensures a <= 0 ==> CDiv(a, b) - CDiv(a - 1, b) == if (1 - a) % b == 0 then 1 else 0
  {
    if a > 0 { DivStep(a, b); } else { DivStep(1 - a, b); }
  }

  lemma DivStep(n: nat, b: int)
    requires n > 0 && b > 0
    ensures n / b - (n - 1) / b == if n % b == 0 then 1 else 0
  {
    var q, r := n / b, n % b;
    if r == 0 {
      DivUnique(n - 1, b, q - 1, b - 1);
    } else {
      DivUnique(n - 1, b, q, r - 1);
    }
  }

  ghost function CountStep(year: int): int { LeapYearsToEnd(year) - LeapYearsToEnd(year - 1) }

  ghost function One(b: bool): int { if b then 1 else 0 }

  lemma CountStepAfter(year: int)
    requires year > 0
    ensures CountStep(year) == One(year % 4 == 0) - One(year % 100 == 0) + One(year % 400 == 100)
  {
    CDivStep(year, 4);
    CDivStep(year, 100);
    CDivStep(year + 300, 400);
    Plus300(year);
    hide CDiv;
  }

  lemma Plus300(year: int)
    ensures (year + 300) % 400 == 0 <==> year % 400 == 100
    ensures (year + 300) % 400 == 1 <==> year % 400 == 101
  {
    var q, r := year / 400, year % 400;
    if r >= 100 { DivUnique(year + 300, 400, q + 1, r - 100); } else { DivUnique(year + 300, 400, q, r + 300); }
  }

  lemma CountStepUpTo(year: int)
    requires year <= 0
    ensures CountStep(year) == One(year % 4 == 1) - One(year % 100 == 1) + One(year <= -300 && year % 400 == 101)
  {
    CDivStep(year, 4);
    CDivStep(year, 100);
    CDivStep(year + 300, 400);
    Reflect(year, 4);
    Reflect(year, 100);
    Reflect(year + 300, 400);
    Plus300(year);
    hide CDiv;
  }

  lemma Reflect(a: int, b: int)
    requires b > 1
    ensures (1 - a) % b == 0 <==> a % b == 1
  {
    var q := a / b;
    if a % b == 1 { DivUnique(1 - a, b, -q, 0); }
    if a % b == 0 { DivUnique(1 - a, b, -q, 1); }
    if a % b > 1 { DivUnique(1 - a, b, -q - 1, b + 1 - a % b); }
  }

  /** The leap year test in terms of remainders that are never negative. */
  lemma LeapTest(year: int)
    ensures IsLeapYear(year) <==> (year >= 0 && year % 400 == 100) || (year % 100 != 0 && year % 4 == 0)
  {
    Negate(year, 4);
    Negate(year, 100);
  }

  lemma Negate(a: int, b: int)
    requires b > 0
    ensures CMod(a, b) == 0 <==> a % b == 0
    ensures a < 0 ==> CMod(a, b) <= 0
  {
    if a < 0 {
      var q, r := (-a) / b, (-a) % b;
      assert CMod(a, b) == -r;
      if r == 0 { DivUnique(a, b, -q, 0); } else { DivUnique(a, b, -q - 1, b - r); }
    }
  }

  /** How remainders by 4, 100 and 400 constrain each other. */
  ghost predicate Nested(r4: int, r100: int, r400: int) {
    && (r100 == 0 ==> r4 == 0) && (r100 == 1 ==> r4 == 1)
    && (r400 == 100 ==> r100 == 0) && (r400 == 101 ==> r100 == 1)
  }

  lemma RemaindersNested(year: int)
    ensures Nested(year % 4, year % 100, year % 400)
  {
    var q := year / 100;
    if year % 100 == 0 { DivUnique(year, 4, 25 * q, 0); }
    if year % 100 == 1 { DivUnique(year, 4, 25 * q, 1); }
    var p := year / 400;
    if year % 400 == 100 { DivUnique(year, 100, 4 * p + 1, 0); }
    if year % 400 == 101 { DivUnique(year, 100, 4 * p + 1, 1); }
  }

  lemma CountedBefore(year: int, r4: int, r100: int, r400: int, step: int, leap: bool)
    requires year < -2 && Nested(r4, r100, r400) && (r400 == 101 && year > -300 ==> year == -299)
    requires step == One(r4 == 1) - One(r100 == 1) + One(year <= -300 && r400 == 101)
    requires leap <==> r100 != 0 && r4 == 0
    requires 0 <= r4 < 4
    ensures step == One(leap) <==>
            r4 == 2 || r4 == 3 || r100 == 0 || (r100 == 1 && (r400 != 101 || year == -299))
  {
  }

  lemma CountedSince(year: int)
    requires year >= -2
    ensures YearCounted(year)
  {
    if year > 0 {
      hide IsLeapYear, LeapYearsToEnd;
      LeapTest(year);
      RemaindersNested(year);
      CountStepAfter(year);
      CountedAfter(year % 4, year % 100, year % 400, CountStep(year), IsLeapYear(year));
    } else {
      assert year == -2 || year == -1 || year == 0;
    }
  }

  lemma CountedAfter(r4: int, r100: int, r400: int, step: int, leap: bool)
    requires Nested(r4, r100, r400)
    requires step == One(r4 == 0) - One(r100 == 0) + One(r400 == 100)
    requires leap <==> r400 == 100 || (r100 != 0 && r4 == 0)
    ensures step == One(leap)
  {
  }

  /** When the leap year count is right: every year from 1898 on, and before that only in some. */
  lemma YearCountedIff(year: int)
    ensures YearCounted(year) <==>
            year >= -2 || year % 4 == 2 || year % 4 == 3 || year % 100 == 0
            || (year % 100 == 1 && (year % 400 != 101 || year == -299))
  {
    if year >= -2 {
      CountedSince(year);
    } else {
      LeapTest(year);
      RemaindersNested(year);
      CountStepUpTo(year);
      assert year % 400 == 101 && year > -300 ==> year == -299;
      CountedBefore(year, year % 4, year % 100, year % 400, CountStep(year), IsLeapYear(year));
    }
  }

  /** When the leap year test is right: not for the years 1600, 1200, ... */
  lemma LeapIff(year: int)
    ensures IsLeapYear(year) == Leap(year) <==> year >= 0 || (year + 1900) % 400 != 0
  {
    hide IsLeapYear;
    LeapTest(year);
    RemaindersNested(year);
    Plus1900(year);
  }

  lemma Plus1900(year: int)
    ensures (year + 1900) % 4 == year % 4 && (year + 1900) % 100 == year % 100
    ensures (year + 1900) % 400 == 0 <==> year % 400 == 100
  {
    var q, r := year / 400, year % 400;
    DivUnique(year + 1900, 4, year / 4 + 475, year % 4);
    DivUnique(year + 1900, 100, year / 100 + 19, year % 100);
    if r >= 100 { DivUnique(year + 1900, 400, q + 5, r - 100); } else { DivUnique(year + 1900, 400, q + 4, r + 300); }
  }

  /** The day after is one more, except after the end of a February or of a year before 1898 in
      which leap years are misjudged or miscounted. */
  lemma NextDayIff(d: Date)
    requires Valid(d)
    ensures DaysOf(Next(d)) == DaysOf(d) + 1 <==>
            !(d.mon == 1 && d.mday == MonthLength(d.year, 1) && IsLeapYear(d.year) != Leap(d.year))
            && !(d.mon == 11 && d.mday == 31 && !YearCounted(d.year))
  {
    hide LeapYearsToEnd, IsLeapYear, Leap;
  }

  lemma NextDay(d: Date)
    requires Valid(d) && d.year >= -2
    ensures DaysOf(Next(d)) == DaysOf(d) + 1
  {
    NextDayIff(d);
    LeapIff(d.year);
    YearCountedIff(d.year);
  }

  /** The first failure: 31 December 1897. */
  lemma NextDayFails()
    ensures Valid(Date(-3, 11, 31)) && DaysOf(Next(Date(-3, 11, 31))) == DaysOf(Date(-3, 11, 31)) + 2
  {
  }

  ghost predicate Before(a: Date, b: Date) {
    a.year < b.year || (a.year == b.year && (a.mon < b.mon || (a.mon == b.mon && a.mday < b.mday)))
  }

  ghost function YearStart(year: int): int { 365 * year - 25567 + LeapYearsToEnd(year - 1) }

  lemma DayOfYearRange(d: Date)
    requires Valid(d) && d.year >= -2
    ensures 0 <= DayOfYear(d.year, d.mon, d.mday) < 365 + if IsLeapYear(d.year) then 1 else 0
  {
    LeapIff(d.year);
  }

  lemma DayOfYearOrder(a: Date, b: Date)
    requires Valid(a) && Valid(b) && a.year == b.year >= -2 && Before(a, b)
    ensures DayOfYear(a.year, a.mon, a.mday) < DayOfYear(b.year, b.mon, b.mday)
  {
    LeapIff(a.year);
    if a.mon < b.mon { MonthOrder(a.year, a.mon, b.mon); }
  }

  lemma MonthOrder(year: int, m: int, n: int)
    requires 0 <= m < n < 12 && year >= -2
    ensures DayOfYear(year, m, MonthLength(year, m)) < DayOfYear(year, n, 1)
    decreases n - m
  {
    LeapIff(year);
    if m + 1 < n { MonthOrder(year, m, n - 1); }
  }

  lemma {:induction false} YearStartOrder(y: int, z: int)
    requires -2 <= y < z
    ensures YearStart(y) + 365 + (if IsLeapYear(y) then 1 else 0) <= YearStart(z)
    decreases z - y
  {
    YearCountedIff(z - 1);
    if y < z - 1 { YearStartOrder(y, z - 1); }
  }

  /** Later dates have larger day numbers, so no two dates share one. */
  lemma DaysMonotone(a: Date, b: Date)
    requires Valid(a) && Valid(b) && a.year >= -2 && Before(a, b)
    ensures DaysOf(a) < DaysOf(b)
  {
    DayOfYearRange(a);
    DayOfYearRange(b);
    if a.year < b.year { YearStartOrder(a.year, b.year); } else { DayOfYearOrder(a, b); }
  }

  ghost function Seconds(d: Date, sod: int): int
    requires Valid(d)
  {
    DaysOf(d) * 86400 + sod
  }

  /** Seconds since the Epoch order all moments from 1898 on, and tell them apart. */
  lemma SecondsInjective(a: Date, s: int, b: Date, t: int)
    requires Valid(a) && Valid(b) && a.year >= -2 && b.year >= -2 && 0 <= s < 86400 && 0 <= t < 86400
    ensures Before(a, b) || (a == b && s < t) <==> Seconds(a, s) < Seconds(b, t)
    ensures Seconds(a, s) == Seconds(b, t) ==> a == b && s == t
  {
    if Before(a, b) { DaysMonotone(a, b); }
    if Before(b, a) { DaysMonotone(b, a); }
  }

  /** The closed formula of POSIX:2008 section 4.15. */
  lemma PosixFormula(d: Date)
    requires Valid(d) && d.year >= 70
    ensures var y := d.year;
            DaysOf(d) == DayOfYear(y, d.mon, d.mday) + (y - 70) * 365 + (y - 69) / 4 - (y - 1) / 100 + (y + 299) / 400
  {
    assert (d.year - 69) / 4 == (d.year - 1) / 4 - 17;
  }

  lemma EpochIsZero()
    ensures DaysOf(Date(70, 0, 1)) == 0
  {
  }

  /** The weekday table agrees with counting days (day 0 was a Thursday) exactly when the sum it
      reduces is not negative and, from March on, the year's leap day is counted. */
  lemma WeekdayIff(d: Date)
    requires Valid(d)
    ensures DayOfWeek(d.year, d.mon, d.mday) == (DaysOf(d) + 4) % 7 <==>
            (d.mon < 2 || YearCounted(d.year))
            && (DaySum(d.year, d.mon, d.mday) >= 0 || DaySum(d.year, d.mon, d.mday) % 7 == 0)
  {
    hide DaysOf, DaySum, YearCounted, CMod;
    WeekdayCongruent(d);
    ModSign(DaySum(d.year, d.mon, d.mday));
  }

  lemma ModSign(s: int)
    ensures s >= 0 ==> CMod(s, 7) == s % 7
    ensures s < 0 ==> CMod(s, 7) <= 0 && (CMod(s, 7) == 0 <==> s % 7 == 0)
  {
    Negate(s, 7);
  }

  lemma Congruent(a: int, b: int, k: int, step: int)
    requires a - b == 7 * k - step && -6 <= step <= 6
    ensures a % 7 == b % 7 <==> step == 0
  {
  }

  lemma StepRange(year: int)
    ensures -2 <= CountStep(year) <= 3
  {
    if year > 0 { CountStepAfter(year); } else { CountStepUpTo(year); }
  }

  lemma WeekdayCongruent(d: Date)
    requires Valid(d)
    ensures (d.mon < 2 || YearCounted(d.year)) <==> DaySum(d.year, d.mon, d.mday) % 7 == (DaysOf(d) + 4) % 7
  {
    hide LeapYearsToEnd, IsLeapYear;
    var y, m := d.year, d.mon;
    var a, b := DaysOf(d) + 4, DaySum(y, m, d.mday);
    var t := MONTH_STARTS[m] - OFFSETS[m];
    TablesAgree(m);
    if m < 2 {
      assert a - b == t - 25563 + 364 * y;
      Congruent(a, b, (t - 25563) / 7 + 52 * y, 0);
    } else {
      var step := CountStep(y) - One(IsLeapYear(y));
      StepRange(y);
      assert a - b == t - 25564 + 364 * y - step;
      Congruent(a, b, (t - 25564) / 7 + 52 * y, step);
    }
  }

  lemma TablesAgree(m: int)
    requires 0 <= m < 12
    ensures (MONTH_STARTS[m] - OFFSETS[m] - if m < 2 then 25563 else 25564) % 7 == 0
  {
  }

  lemma Weekday(d: Date)
    requires Valid(d) && d.year >= -1
    ensures DayOfWeek(d.year, d.mon, d.mday) == (DaysOf(d) + 4) % 7
  {
    hide LeapYearsToEnd, IsLeapYear, DaysOf, DayOfWeek;
    YearCountedIff(d.year);
    LeapCountNonNegative(d.year);
    LeapCountNonNegative(d.year - 1);
    WeekdayIff(d);
  }

  lemma LeapCountNonNegative(year: int)
    requires year >= -2
    ensures LeapYearsToEnd(year) >= 0
  {
  }

  /** The table breaks down on 1 January 1898, where it gives a negative weekday. */
  lemma WeekdayFails()
    ensures Valid(Date(-2, 0, 1)) && DayOfWeek(-2, 0, 1) == -1
  {
  }
}
