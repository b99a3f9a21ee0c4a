/** The Gregorian calendar that localtime_r and mktime compute with, for a fixed offset from UTC: days are counted from
    1970-01-01 and dates are defined by stepping from one day to the next. */
module Calendar {

  datatype Date = Date(year: nat, month: nat, day: nat)

  predicate Leap(y: nat) {
    y % 4 == 0 && (y % 100 != 0 || y % 400 == 0)
  }

  function DaysInMonth(y: nat, m: nat): (d: nat)
    ensures 28 <= d <= 31
  {
    if m == 2 then (if Leap(y) then 29 else 28)
    else if m == 4 || m == 6 || m == 9 || m == 11 then 30
    else 31
  }

  predicate ValidDate(d: Date) {
    d.year >= 1970 && 1 <= d.month <= 12 && 1 <= d.day <= DaysInMonth(d.year, d.month)
  }

  function NextDay(d: Date): Date {
    if d.day < DaysInMonth(d.year, d.month) then d.(day := d.day + 1)
    else if d.month < 12 then Date(d.year, d.month + 1, 1)
    else Date(d.year + 1, 1, 1)
  }

  /** The date of day n; day 0 is 1970-01-01. */
  function DateOf(n: nat): (d: Date)
    ensures ValidDate(d)
  {
    if n == 0 then Date(1970, 1, 1) else NextDay(DateOf(n - 1))
  }

  /** 0 is Sunday; 1970-01-01 was a Thursday. */
  function Weekday(n: nat): (w: nat)
    ensures w < 7
  {
    (n + 4) % 7
  }

  function DaysInYear(y: nat): nat {
    if Leap(y) then 366 else 365
  }

  /** The day number of January 1st. */
  function YearStart(y: nat): nat
    requires y >= 1970
  {
    if y == 1970 then 0 else YearStart(y - 1) + DaysInYear(y - 1)
  }

  /** The days of the year before month m. */
  function MonthStart(y: nat, m: nat): nat
    requires 1 <= m <= 12
  {
    if m == 1 then 0 else MonthStart(y, m - 1) + DaysInMonth(y, m - 1)
  }

  function DayNumber(d: Date): nat
    requires ValidDate(d)
  {
    YearStart(d.year) + MonthStart(d.year, d.month) + d.day - 1
  }

  lemma MonthStarts(y: nat)
    ensures MonthStart(y, 12) + 31 == DaysInYear(y)
  {
    assert MonthStart(y, 4) == MonthStart(y, 2) + DaysInMonth(y, 2) + 31;
    assert MonthStart(y, 6) == MonthStart(y, 4) + 61;
    assert MonthStart(y, 8) == MonthStart(y, 6) + 61;
    assert MonthStart(y, 10) == MonthStart(y, 8) + 61;
    assert MonthStart(y, 12) == MonthStart(y, 10) + 61;
  }

  lemma DayNumberNext(d: Date)
    requires ValidDate(d)
    ensures ValidDate(NextDay(d)) && DayNumber(NextDay(d)) == DayNumber(d) + 1
  {
    MonthStarts(d.year);
  }

  lemma FirstDayNumber()
    ensures DayNumber(Date(1970, 1, 1)) == 0
  {
  }

  /** Dates and day numbers correspond one to one. */
  lemma {:induction false} DayNumberOfDate(n: nat)
    ensures DayNumber(DateOf(n)) == n
  {
    hide DayNumber, NextDay, ValidDate;
    if n == 0 {
      FirstDayNumber();
    } else {
      DayNumberOfDate(n - 1);
      DayNumberNext(DateOf(n - 1));
    }
  }

  /** Every valid date other than the first follows a valid date. */
  lemma PreviousDay(d: Date) returns (p: Date)
    requires ValidDate(d) && d != Date(1970, 1, 1)
    ensures ValidDate(p) && NextDay(p) == d
  {
    p := if d.day > 1 then d.(day := d.day - 1)
         else if d.month > 1 then Date(d.year, d.month - 1, DaysInMonth(d.year, d.month - 1))
         else Date(d.year - 1, 12, 31);
  }

  lemma {:induction false} DateOfDayNumber(d: Date)
    requires ValidDate(d)
    ensures DateOf(DayNumber(d)) == d
    decreases DayNumber(d)
  {
    if d != Date(1970, 1, 1) {
      var p := PreviousDay(d);
      DayNumberNext(p);
      DateOfDayNumber(p);
    }
  }

  lemma {:induction false} MonthStartGrows(y: nat, m: nat, n: nat)
    requires 1 <= m < n <= 12
    ensures MonthStart(y, m) + DaysInMonth(y, m) <= MonthStart(y, n)
    decreases n
  {
    if m < n - 1 {
      MonthStartGrows(y, m, n - 1);
    }
  }

  /** A date lies inside its year. */
  lemma WithinYear(d: Date)
    requires ValidDate(d)
    ensures YearStart(d.year) <= DayNumber(d) < YearStart(d.year + 1)
  {
    MonthStarts(d.year);
    if d.month < 12 {
      MonthStartGrows(d.year, d.month, 12);
    }
  }

  lemma {:induction false} YearStartGrows(y: nat, z: nat)
    requires 1970 <= y <= z
    ensures YearStart(y) + 365 * (z - y) <= YearStart(z) <= YearStart(y) + 366 * (z - y)
  {
    if y < z {
      YearStartGrows(y, z - 1);
    }
  }

  // ---------------------------------------------------------------- the 400-year cycle

  /** Days in 400 years; a whole number of weeks. */
  const CYCLE: nat := 146097

  /** Leap years before y. */
  function LeapsBefore(y: nat): int
    requires y > 0
  {
    (y - 1) / 4 - (y - 1) / 100 + (y - 1) / 400
  }

  lemma CountLeap(y: nat)
    requires y > 0
    ensures LeapsBefore(y + 1) == LeapsBefore(y) + if Leap(y) then 1 else 0
  {
    assert y / 4 == (y - 1) / 4 + if y % 4 == 0 then 1 else 0;
    assert y / 100 == (y - 1) / 100 + if y % 100 == 0 then 1 else 0;
    assert y / 400 == (y - 1) / 400 + if y % 400 == 0 then 1 else 0;
  }

  lemma {:induction false} YearStartInClosedForm(y: nat)
    requires y >= 1970
    ensures YearStart(y) == 365 * (y - 1970) + LeapsBefore(y) - 477
  {
    hide Leap;
    if y > 1970 {
      YearStartInClosedForm(y - 1);
      CountLeap(y - 1);
    }
  }

  /** The day one cycle after day 0. */
  lemma FirstCycle(n: nat, y: nat)
    requires n == 0 && y == 1970
    ensures DateOf(n + CYCLE) == Date(y + 400, 1, 1)
  {
    hide YearStart, DateOf, Leap;
    YearStartInClosedForm(y + 400);
    var d := Date(y + 400, 1, 1);
    DateOfDayNumber(d);
    assert DayNumber(d) == n + CYCLE;
  }

  lemma LeapRepeats(y: nat)
    ensures Leap(y + 400) == Leap(y)
  {
    assert (y + 400) % 4 == y % 4;
    assert (y + 400) % 100 == y % 100;
    assert (y + 400) % 400 == y % 400;
  }

  lemma NextDayInCycle(d: Date)
    ensures NextDay(d.(year := d.year + 400)) == NextDay(d).(year := NextDay(d).year + 400)
  {
    hide Leap;
    LeapRepeats(d.year);
  }

  /** After 400 years dates repeat, on the same weekdays. */
  lemma {:induction false} DatesRepeat(n: nat)
    ensures DateOf(n + CYCLE) == DateOf(n).(year := DateOf(n).year + 400)
    ensures Weekday(n + CYCLE) == Weekday(n)
  {
    hide NextDay, ValidDate, Weekday;
    SameWeekday(n);
    if n == 0 {
      FirstCycle(n, 1970);
    } else {
      DatesRepeat(n - 1);
      NextDayInCycle(DateOf(n - 1));
    }
  }

  lemma SameWeekday(n: nat)
    ensures Weekday(n + CYCLE) == Weekday(n)
  {
    assert n + CYCLE == n + 7 * 20871;
  }

  // ---------------------------------------------------------------- known facts

  /** The Gregorian rule for leap years. */
  lemma LeapRule(y: nat)
    ensures Leap(y) <==> y % 400 == 0 || (y % 4 == 0 && y % 100 != 0)
  {
    if y % 400 == 0 { FourDivides(y / 400); }
  }

  lemma FourDivides(k: nat)
    ensures (400 * k) % 4 == 0
  {
  }

  /** The lengths of the months. */
  lemma MonthLengths(y: nat, m: nat)
    requires 1 <= m <= 12
    ensures DaysInMonth(y, m) == [31, if Leap(y) then 29 else 28, 31, 30, 31, 30, 31, 31, 30, 31, 30, 31][m - 1]
  {
    hide Leap;
  }

  /** February 29th 2024 is day 19782 and was a Thursday. */
  lemma KnownDay(d: Date)
    requires d == Date(2024, 2, 29)
    ensures ValidDate(d) && DayNumber(d) == 19782 && Weekday(DayNumber(d)) == 4
  {
    hide YearStart;
    YearStartInClosedForm(d.year);
  }

  /** Weekdays follow each other, Saturday (6) by Sunday (0). */
  lemma WeekdaysFollow(n: nat)
    ensures Weekday(n + 1) == if Weekday(n) == 6 then 0 else Weekday(n) + 1
  {
  }
}
