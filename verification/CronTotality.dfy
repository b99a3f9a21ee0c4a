/** When the search of a cron expression can fail. It looks at 366*24*60*4 minutes, which are 1464 days; whether that is
    enough is a question about the Gregorian calendar. */
module CronTotality {
  import opened Wrappers
  import opened CronField
  import opened Calendar
  import opened CronExpression

  const WINDOW: nat := 366 * 4

  /** The search returns whatever time it starts from. */
  ghost predicate NeverFails(c: Cron, offset: int) {
    forall from: nat :: Representable(from, offset) ==> NextTime(c, offset, from).Some?
  }

  ghost predicate FitsWithin(c: Cron, n: nat) {
    exists k :: n <= k < n + WINDOW && DayFits(c, k)
  }

  /** Any 1464 days in a row contain one that fits. */
  ghost predicate EveryWindowFits(c: Cron) {
    forall n: nat :: FitsWithin(c, n)
  }

  lemma FitFound(c: Cron, offset: int, from: nat, m: nat)
    requires Representable(from, offset)
    requires MinuteOf(from, offset) < m <= MinuteOf(from, offset) + MAX_ITERATIONS && MinuteFits(c, m)
    ensures NextTime(c, offset, from).Some?
  {
    hide MinuteFits, MinuteOf, FirstFit;
  }

  /** A time of day that the expression selects, as a minute of the day. */
  lemma SomeMinute(c: Cron) returns (t: nat)
    requires WellFormed(c)
    ensures t < 1440
    ensures forall n: nat :: DayFits(c, n) ==> MinuteFits(c, n * 1440 + t)
  {
    hide DayFits;
    assert FieldOf(c, 0)[0] in c.minutes && FieldOf(c, 1)[0] in c.hours;
    var minute, hour := FieldOf(c, 0)[0], FieldOf(c, 1)[0];
    assert Low(0) <= minute <= High(0) && Low(1) <= hour <= High(1);
    t := hour * 60 + minute;
    forall n: nat | DayFits(c, n) ensures MinuteFits(c, n * 1440 + t) {
      SplitMinute(n, hour, minute);
    }
  }

  /** If every window of days contains a fitting one, the search cannot fail. */
  lemma WindowsSuffice(c: Cron, offset: int, from: nat)
    requires WellFormed(c) && EveryWindowFits(c) && Representable(from, offset)
    ensures NextTime(c, offset, from).Some?
  {
    hide DayFits, MinuteFits, MinuteOf, WellFormed;
    var t := SomeMinute(c);
    var first := MinuteOf(from, offset) + 1;
    var day, rest := first / 1440, first % 1440;
    assert FitsWithin(c, day + 1) && FitsWithin(c, day);
    var k :| day + 1 <= k < day + 1 + WINDOW && DayFits(c, k);
    var j :| day <= j < day + WINDOW && DayFits(c, j);
    var n := if k < day + WINDOW then k else if j == day && t < rest then k else j;
    FitFound(c, offset, from, n * 1440 + t);
  }

  lemma {:induction false} DayFitsRepeats(c: Cron, n: nat)
    ensures DayFits(c, n + CYCLE) <==> DayFits(c, n)
  {
    DatesRepeat(n);
  }

  lemma WindowRepeats(c: Cron, n: nat)
    ensures FitsWithin(c, n + CYCLE) <==> FitsWithin(c, n)
  {
    hide DayFits;
    if FitsWithin(c, n) {
      var k :| n <= k < n + WINDOW && DayFits(c, k);
      DayFitsRepeats(c, k);
      assert n + CYCLE <= k + CYCLE < n + CYCLE + WINDOW;
    }
    if FitsWithin(c, n + CYCLE) {
      var k :| n + CYCLE <= k < n + CYCLE + WINDOW && DayFits(c, k);
      DayFitsRepeats(c, k - CYCLE);
    }
  }

  /** The time point just before day n begins. */
  function Before(n: nat, offset: int): (tp: nat)
    requires n > 1 && offset <= 86400
    ensures Representable(tp, offset) && MinuteOf(tp, offset) == n * 1440 - 1
  {
    MinuteOfStart(n * 1440 - 1, offset);
    StartOf(n * 1440 - 1, offset)
  }

  /** A search started just before 1464 days none of which fits fails. */
  lemma EmptyWindowFails(c: Cron, offset: int, n: nat)
    requires n > 1 && offset <= 86400 && !FitsWithin(c, n)
    ensures NextTime(c, offset, Before(n, offset)).None?
  {
    hide DayFits, MinuteOf;
    var from := Before(n, offset);
    forall m: nat | n * 1440 <= m < n * 1440 + MAX_ITERATIONS ensures !MinuteFits(c, m) {
      assert n <= m / 1440 < n + WINDOW;
    }
  }

  /** The exact condition, for any expression: the search never fails if and only if every 1464 days in a row contain a
      day with a selected date and weekday. Times of day do not matter. */
  lemma NeverFailsIff(c: Cron, offset: int)
    requires WellFormed(c) && offset <= 86400
    ensures NeverFails(c, offset) <==> EveryWindowFits(c)
  {
    if EveryWindowFits(c) {
      forall from: nat | Representable(from, offset) ensures NextTime(c, offset, from).Some? {
        WindowsSuffice(c, offset, from);
      }
    }
    if NeverFails(c, offset) {
      forall n: nat ensures FitsWithin(c, n) {
        WindowRepeats(c, n);
        if !FitsWithin(c, n + CYCLE) {
          EmptyWindowFails(c, offset, n + CYCLE);
        }
      }
    }
  }

  /** It is enough to look at the windows that begin in one 400-year cycle, so the condition can be computed. */
  lemma {:induction false} OneCycleSuffices(c: Cron)
    ensures EveryWindowFits(c) <==> forall n: nat :: n < CYCLE ==> FitsWithin(c, n)
  {
    if forall n: nat :: n < CYCLE ==> FitsWithin(c, n) {
      forall n: nat ensures FitsWithin(c, n) {
        InCycle(c, n);
      }
    }
  }

  lemma {:induction false} InCycle(c: Cron, n: nat)
    requires forall i: nat :: i < CYCLE ==> FitsWithin(c, i)
    ensures FitsWithin(c, n)
  {
    hide FitsWithin;
    if n >= CYCLE {
      InCycle(c, n - CYCLE);
      WindowRepeats(c, n - CYCLE);
    }
  }

  // ---------------------------------------------------------------- classes of expressions

  predicate AllWeekdays(c: Cron) {
    forall w :: 0 <= w < 7 ==> w in c.weekdays
  }

  predicate AllDays(c: Cron) {
    forall d :: 1 <= d <= 31 ==> d in c.days
  }

  /** A day of a month that every year has; 1970 is a common year. */
  predicate YearlyDate(c: Cron, month: nat, day: nat) {
    month in c.months && day in c.days && ValidDate(Date(1970, month, day))
  }

  ghost predicate SelectsYearlyDate(c: Cron) {
    exists month: nat, day: nat :: YearlyDate(c, month, day)
  }

  /** A date of the following year lies less than two years ahead. */
  lemma NextYear(n: nat, d: Date)
    requires ValidDate(d) && d.year == DateOf(n).year + 1
    ensures n < DayNumber(d) <= n + 731
  {
    hide DateOf, DayNumber, YearStart;
    WithinYear(DateOf(n));
    DayNumberOfDate(n);
    WithinYear(d);
    YearStartGrows(DateOf(n).year, d.year + 1);
  }

  /** With all weekdays selected, one selected date that exists in every year is enough. */
  lemma WeekdaysFree(c: Cron, n: nat)
    requires AllWeekdays(c) && SelectsYearlyDate(c)
    ensures FitsWithin(c, n)
  {
    hide DateOf, DayNumber;
    var month: nat, day: nat :| YearlyDate(c, month, day);
    var d := Date(DateOf(n).year + 1, month, day);
    NextYear(n, d);
    DateOfDayNumber(d);
    assert DayFits(c, DayNumber(d));
  }

  lemma DayInMonth(d: Date, k: nat)
    requires ValidDate(d) && d.day == 1 && k < 28
    ensures ValidDate(d.(day := 1 + k)) && DayNumber(d.(day := 1 + k)) == DayNumber(d) + k
  {
  }

  /** With all days of the month selected, any month and weekday are enough: each month contains every weekday. */
  lemma DaysFree(c: Cron, n: nat)
    requires WellFormed(c) && AllDays(c)
    ensures FitsWithin(c, n)
  {
    hide DateOf, DayNumber;
    assert FieldOf(c, 3)[0] in c.months && FieldOf(c, 4)[0] in c.weekdays;
    var month, weekday := FieldOf(c, 3)[0], FieldOf(c, 4)[0];
    assert Low(3) <= month <= High(3) && Low(4) <= weekday <= High(4);
    var start := Date(DateOf(n).year + 1, month, 1);
    var k := (weekday - Weekday(DayNumber(start))) % 7;
    DayInMonth(start, k);
    var d := start.(day := 1 + k);
    NextYear(n, d);
    DateOfDayNumber(d);
    assert Weekday(DayNumber(d)) == weekday;
    assert DayFits(c, DayNumber(d));
  }

  /** From 2097 to 2103 there is no leap year. */
  lemma NoLeapYear(k: nat)
    requires YearStart(2097) <= k < YearStart(2097) + WINDOW
    ensures 2097 <= DateOf(k).year <= 2101 && !Leap(DateOf(k).year)
  {
    hide DateOf, YearStart, DayNumber, Leap;
    DayNumberOfDate(k);
    WithinYear(DateOf(k));
    var y := DateOf(k).year;
    if y < 2097 { YearStartGrows(y + 1, 2097); }
    YearStartGrows(2097, 2102);
    if y > 2101 { YearStartGrows(2102, y); }
    CommonYears(y);
  }

  lemma CommonYears(y: nat)
    requires 2097 <= y <= 2101
    ensures !Leap(y)
  {
  }

  lemma FitInCommonYear(c: Cron, k: nat)
    requires DayFits(c, k) && !Leap(DateOf(k).year)
    ensures SelectsYearlyDate(c)
  {
    hide DateOf;
    assert YearlyDate(c, DateOf(k).month, DateOf(k).day);
  }

  /** Without a date that exists in every year, the search fails when it starts as 2097 begins. */
  lemma LeapDayOnly(c: Cron)
    requires !SelectsYearlyDate(c)
    ensures !FitsWithin(c, YearStart(2097))
  {
    hide DateOf, YearStart, Leap, DayFits;
    if FitsWithin(c, YearStart(2097)) {
      var k :| YearStart(2097) <= k < YearStart(2097) + WINDOW && DayFits(c, k);
      NoLeapYear(k);
      FitInCommonYear(c, k);
    }
  }

  /** An expression for all weekdays never fails exactly when it selects a date that exists in every year; one that
      selects only February 29th does fail. */
  lemma AllWeekdaysNeverFailsIff(c: Cron, offset: int)
    requires WellFormed(c) && AllWeekdays(c) && offset <= 86400
    ensures NeverFails(c, offset) <==> SelectsYearlyDate(c)
  {
    NeverFailsIff(c, offset);
    if SelectsYearlyDate(c) {
      forall n: nat ensures FitsWithin(c, n) { WeekdaysFree(c, n); }
    } else {
      LeapDayOnly(c);
    }
  }

  /** An expression for all days of the month never fails. */
  lemma {:induction false} AllDaysNeverFails(c: Cron, offset: int)
    requires WellFormed(c) && AllDays(c)
    ensures NeverFails(c, offset)
  {
    forall n: nat ensures FitsWithin(c, n) { DaysFree(c, n); }
    forall from: nat | Representable(from, offset) ensures NextTime(c, offset, from).Some? {
      WindowsSuffice(c, offset, from);
    }
  }

  /** In general a date that exists in every year is necessary. */
  lemma YearlyDateIsNecessary(c: Cron, offset: int)
    requires WellFormed(c) && offset <= 86400 && NeverFails(c, offset)
    ensures SelectsYearlyDate(c)
  {
    NeverFailsIff(c, offset);
    if !SelectsYearlyDate(c) { LeapDayOnly(c); }
  }

  // ---------------------------------------------------------------- February 29th

  /** The fields of "0 0 29 2 *". */
  const LEAP_DAY: Cron := Cron("0 0 29 2 *", [0], [0], [29], [2], [0, 1, 2, 3, 4, 5, 6])

  /** The text is accepted and read as these fields. */
  lemma LeapDayIsRead()
    ensures FieldsAreRead(LEAP_DAY) && WellFormed(LEAP_DAY) && AllWeekdays(LEAP_DAY)
  {
    hide Words, Read, Accepted, WellFormed;
    LeapDayWords(LEAP_DAY.expression);
    OneValueIsRead(0, "0", 0, 59);
    OneValueIsRead(0, "0", 0, 23);
    OneValueIsRead(29, "29", 1, 31);
    OneValueIsRead(2, "2", 1, 12);
    StarIsRead();
    assert [0, 1, 2, 3, 4, 5, 6] == FieldOf(LEAP_DAY, 4);
    FieldsAreSound(LEAP_DAY);
  }

  lemma OneValueIsRead(v: nat, text: string, min: int, max: int)
    requires text == Decimal(v) && v <= MAX_INT && min <= v <= max
    ensures Accepted(text, min, max) && Lists([v], Read(text).value, min, max)
  {
    ReadShown(Form(Value(v), None));
  }

  lemma StarIsRead()
    ensures Accepted("*", 0, 6) && Lists([0, 1, 2, 3, 4, 5, 6], Read("*").value, 0, 6)
  {
    ReadShown(Form(Star, None));
  }

  lemma LeapDayWords(s: string)
    requires s == "0 0 29 2 *"
    ensures Words(s) == ["0", "0", "29", "2", "*"]
  {
    hide Words;
    NextWord("*", "");
    NextWord("2", " *");
    NextWord("29", " 2 *");
    NextWord("0", " 29 2 *");
    WordsFirst("", "0", " 0 29 2 *");
    assert s == "" + "0" + " 0 29 2 *";
    assert " " + "0" + " 29 2 *" == " 0 29 2 *" && " " + "29" + " 2 *" == " 29 2 *";
    assert " " + "2" + " *" == " 2 *" && " " + "*" + "" == " *";
    WordsOfBlank("");
  }

  /** A word after a blank. */
  lemma NextWord(word: string, rest: string)
    requires Solid(word) && (rest == [] || rest[0] == ' ')
    ensures Words(" " + word + rest) == [word] + Words(rest)
  {
    WordsFirst(" ", word, rest);
  }

  /** Searching from just before day n succeeds exactly if one of the 1464 days from n on fits. */
  lemma SearchFromDay(c: Cron, offset: int, n: nat)
    requires WellFormed(c) && n > 1 && offset <= 86400
    ensures NextTime(c, offset, Before(n, offset)).Some? <==> FitsWithin(c, n)
  {
    hide DayFits, MinuteFits, MinuteOf, WellFormed, NextTime;
    if FitsWithin(c, n) {
      var t := SomeMinute(c);
      var k :| n <= k < n + WINDOW && DayFits(c, k);
      FitFound(c, offset, Before(n, offset), k * 1440 + t);
    } else {
      EmptyWindowFails(c, offset, n);
    }
  }

  /** The search for February 29th succeeds when it starts as 2096 begins and fails when it starts as 2097 begins. */
  lemma LeapDayFails(offset: int)
    requires offset <= 86400
    ensures YearStart(2096) > 1 && YearStart(2097) > 1
    ensures NextTime(LEAP_DAY, offset, Before(YearStart(2096), offset)).Some?
    ensures NextTime(LEAP_DAY, offset, Before(YearStart(2097), offset)).None?
    ensures !NeverFails(LEAP_DAY, offset)
  {
    hide YearStart, DateOf, DayNumber, NextTime, Before, FitsWithin, LEAP_DAY;
    YearStartGrows(1970, 2096);
    YearStartGrows(1970, 2097);
    LeapDayIsRead();
    LeapDaySelects();
    LeapDayIn2096();
    SearchFromDay(LEAP_DAY, offset, YearStart(2096));
    LeapDayOnly(LEAP_DAY);
    SearchFromDay(LEAP_DAY, offset, YearStart(2097));
    AllWeekdaysNeverFailsIff(LEAP_DAY, offset);
  }

  lemma LeapDaySelects()
    ensures !SelectsYearlyDate(LEAP_DAY)
  {
  }

  lemma LeapDayIn2096()
    ensures FitsWithin(LEAP_DAY, YearStart(2096))
  {
    hide YearStart, DateOf, DayNumber;
    var d := Date(2096, 2, 29);
    WithinYear(d);
    YearStartGrows(2096, 2097);
    DateOfDayNumber(d);
    assert DayFits(LEAP_DAY, DayNumber(d));
  }

  // ---------------------------------------------------------------- one date on one weekday

  /** In four years in a row there is at most one leap day. */
  lemma FewLeapDays(y: nat, k: nat)
    requires y > 0 && 1 <= k <= 4
    ensures LeapsBefore(y) <= LeapsBefore(y + k) <= LeapsBefore(y) + 1
  {
    hide LeapsBefore;
    CountLeap(y);
    CountLeap(y + 1);
    CountLeap(y + 2);
    CountLeap(y + 3);
  }

  lemma {:induction false} MonthStartOf(y: nat, m: nat)
    requires 1 <= m <= 12
    ensures MonthStart(y, m) == MonthStart(1970, m) + if m > 2 && Leap(y) then 1 else 0
  {
    hide Leap;
    CommonYear();
    if m > 1 {
      MonthStartOf(y, m - 1);
    }
  }

  lemma CommonYear()
    ensures !Leap(1970)
  {
  }

  /** The same date k years later comes 365 * k days later, and one more when there is a leap day in between. */
  lemma YearsApart(d: Date, k: nat)
    requires ValidDate(d) && ValidDate(d.(year := d.year + k)) && 1 <= k <= 4
    ensures 365 * k <= DayNumber(d.(year := d.year + k)) - DayNumber(d) <= 365 * k + 1
  {
    hide Leap, LeapsBefore, YearStart, MonthStart;
    var y, z := d.year, d.year + k;
    YearStartInClosedForm(y);
    YearStartInClosedForm(z);
    MonthStartOf(y, d.month);
    MonthStartOf(z, d.month);
    CountLeap(y);
    CountLeap(z);
    FewLeapDays(y, k);
    FewLeapDays(y + 1, k);
  }

  /** The same date does not come back on the same weekday within 1464 days. */
  lemma SameDateOtherWeekday(n: nat, m: nat)
    requires n < m <= n + WINDOW
    requires DateOf(n).month == DateOf(m).month && DateOf(n).day == DateOf(m).day
    ensures Weekday(n) != Weekday(m)
  {
    hide DateOf, YearStart, DayNumber;
    var d, e := DateOf(n), DateOf(m);
    DayNumberOfDate(n);
    DayNumberOfDate(m);
    WithinYear(d);
    WithinYear(e);
    if e.year < d.year {
      YearStartGrows(e.year + 1, d.year);
    } else if e.year > d.year + 5 {
      YearStartGrows(d.year + 1, e.year);
    }
    var k := e.year - d.year;
    assert e == d.(year := d.year + k);
    if k == 5 {
      FiveYearsApart(d);
    } else {
      YearsApart(d, k);
    }
  }

  lemma FiveYearsApart(d: Date)
    requires ValidDate(d) && ValidDate(d.(year := d.year + 5))
    ensures DayNumber(d.(year := d.year + 5)) - DayNumber(d) > WINDOW
  {
    hide Leap, YearStart, MonthStart;
    YearStartGrows(d.year, d.year + 5);
    MonthStartOf(d.year, d.month);
    MonthStartOf(d.year + 5, d.month);
  }

  /** An expression for one date on one weekday fails from some start: the date may fall on that weekday, but then it
      does not within the next 1464 days. */
  lemma OneDateOneWeekdayFails(c: Cron, offset: int)
    requires WellFormed(c) && |c.months| == |c.days| == |c.weekdays| == 1 && offset <= 86400
    ensures !NeverFails(c, offset)
  {
    hide DayFits, DateOf, WellFormed;
    NeverFailsIff(c, offset);
    if EveryWindowFits(c) {
      assert FitsWithin(c, 0);
      var n :| 0 <= n < WINDOW && DayFits(c, n);
      assert FitsWithin(c, n + 1);
      var m :| n + 1 <= m < n + 1 + WINDOW && DayFits(c, m);
      OneFit(c, n);
      OneFit(c, m);
      SameDateOtherWeekday(n, m);
    }
  }

  lemma OneFit(c: Cron, n: nat)
    requires |c.months| == |c.days| == |c.weekdays| == 1 && DayFits(c, n)
    ensures DateOf(n).month == c.months[0] && DateOf(n).day == c.days[0] && Weekday(n) == c.weekdays[0]
  {
    hide DateOf;
  }
}
