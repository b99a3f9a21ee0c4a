/** What a cron expression means, said with dates and times of day: independent of how the source breaks down a time
    and of how it searches. */
module CronMeaning {
  import opened Wrappers
  import opened CronField
  import opened Calendar
  import opened CronExpression

  /** The time point lies in that second of local time; time points are nanoseconds. */
  predicate IsAt(tp: nat, offset: int, d: Date, hour: nat, minute: nat, second: nat) {
    && ValidDate(d) && hour < 24 && minute < 60 && second < 60
    && tp / 1_000_000_000 + offset == DayNumber(d) * 86400 + hour * 3600 + minute * 60 + second
  }

  lemma Parts(day: nat, hour: nat, minute: nat, second: nat)
    requires hour < 24 && minute < 60 && second < 60
    ensures var l := day * 86400 + hour * 3600 + minute * 60 + second;
            l / 86400 == day && l % 86400 / 3600 == hour && l % 3600 / 60 == minute && l % 60 == second
  {
    var l := day * 86400 + hour * 3600 + minute * 60 + second;
    InHours(day * 24 + hour, minute * 60 + second);
    InHours(hour, minute * 60 + second);
    InMinutes(minute, second);
    InMinutes(day * 1440 + hour * 60 + minute, second);
    SecondsOfDay(day, hour * 3600 + minute * 60 + second);
    HoursOfDay(hour, minute * 60 + second);
    assert l == (day * 24 + hour) * 3600 + (minute * 60 + second);
    assert l == (day * 1440 + hour * 60 + minute) * 60 + second;
  }

  lemma SecondsOfDay(q: nat, r: nat)
    requires r < 86400
    ensures (q * 86400 + r) / 86400 == q && (q * 86400 + r) % 86400 == r
  {
  }

  lemma HoursOfDay(q: nat, r: nat)
    requires r < 3600
    ensures (q * 3600 + r) / 3600 == q
  {
  }

  /** Every time point lies in one second of local time. */
  lemma HasTime(tp: nat, offset: int) returns (d: Date, hour: nat, minute: nat, second: nat)
    requires tp / 1_000_000_000 + offset >= 0
    ensures IsAt(tp, offset, d, hour, minute, second)
  {
    var l := tp / 1_000_000_000 + offset;
    d, hour, minute, second := DateOf(l / 86400), l % 86400 / 3600, l % 3600 / 60, l % 60;
    hide DateOf, DayNumber;
    DayNumberOfDate(l / 86400);
    WholeHours(l);
    WholeMinutes(l % 3600);
    SixtyInHour(l);
  }

  lemma WholeMinutes(r: nat)
    ensures r == r / 60 * 60 + r % 60
  {
  }

  lemma SixtyInHour(l: nat)
    ensures l % 3600 % 60 == l % 60
  {
    assert l == 60 * (60 * (l / 3600) + l % 3600 / 60) + l % 3600 % 60;
  }

  /** Exactly when a time point matches: its minute, hour, day of the month, month and weekday are all selected. */
  lemma MatchesIff(c: Cron, offset: int, tp: nat, d: Date, hour: nat, minute: nat, second: nat)
    requires IsAt(tp, offset, d, hour, minute, second) && Representable(tp, offset)
    ensures Matches(c, offset, tp) <==>
      minute in c.minutes && hour in c.hours && d.day in c.days && d.month in c.months
      && Weekday(DayNumber(d)) in c.weekdays
  {
    hide DateOf, DayNumber;
    Parts(DayNumber(d), hour, minute, second);
    DateOfDayNumber(d);
  }

  /** The date and the time of day are selected in all five fields. */
  predicate InAllFields(c: Cron, d: Date, hour: nat, minute: nat)
    requires ValidDate(d)
  {
    minute in c.minutes && hour in c.hours && d.day in c.days && d.month in c.months
    && Weekday(DayNumber(d)) in c.weekdays
  }

  /** The second of local time that a time point lies in is selected. */
  ghost predicate Selected(c: Cron, offset: int, tp: nat) {
    exists d, hour, minute, second :: IsAt(tp, offset, d, hour, minute, second) && InAllFields(c, d, hour, minute)
  }

  lemma MatchesIsSelected(c: Cron, offset: int, tp: nat)
    requires Representable(tp, offset)
    ensures Matches(c, offset, tp) <==> Selected(c, offset, tp)
  {
    hide Matches;
    var d, hour, minute, second := HasTime(tp, offset);
    MatchesIff(c, offset, tp, d, hour, minute, second);
    if Selected(c, offset, tp) {
      var d', hour', minute', second' :|
        IsAt(tp, offset, d', hour', minute', second') && InAllFields(c, d', hour', minute');
      MatchesIff(c, offset, tp, d', hour', minute', second');
    }
  }

  /** The local minute of a time point. */
  function LocalMinute(tp: nat, offset: int): int {
    (tp / 1_000_000_000 + offset) / 60
  }

  /** The beginning of a later minute, at most 366 * 24 * 60 * 4 minutes later, that is selected in all five fields, no
      instant in an earlier one of these minutes being selected. */
  ghost predicate IsAnswer(c: Cron, offset: int, from: nat, tp: nat) {
    && tp % 1_000_000_000 == 0 && (tp / 1_000_000_000 + offset) % 60 == 0
    && LocalMinute(from, offset) < LocalMinute(tp, offset) <= LocalMinute(from, offset) + 2_108_160
    && Selected(c, offset, tp)
    && forall u: nat :: u < tp && LocalMinute(from, offset) < LocalMinute(u, offset) ==> !Selected(c, offset, u)
  }

  /** That is the answer of the search, and there is no other. */
  lemma AnswerIff(c: Cron, offset: int, from: nat, tp: nat)
    requires Representable(from, offset)
    ensures NextTime(c, offset, from) == Some(tp) <==> IsAnswer(c, offset, from, tp)
  {
    hide NextTime, Selected, Matches;
    NextTimeIsEarliest(c, offset, from, tp);
    if Representable(tp, offset) { MatchesIsSelected(c, offset, tp); }
    forall u: nat | Representable(u, offset) ensures Matches(c, offset, u) <==> Selected(c, offset, u) {
      MatchesIsSelected(c, offset, u);
    }
  }

  /** It throws exactly when none of these minutes is selected. */
  lemma NoAnswerIff(c: Cron, offset: int, from: nat)
    requires Representable(from, offset)
    ensures NextTime(c, offset, from) == None <==>
      forall u: nat :: LocalMinute(from, offset) < LocalMinute(u, offset) <= LocalMinute(from, offset) + 2_108_160
        ==> !Selected(c, offset, u)
  {
    hide NextTime, Selected, Matches;
    NextTimeFails(c, offset, from);
    forall u: nat | Representable(u, offset) ensures Matches(c, offset, u) <==> Selected(c, offset, u) {
      MatchesIsSelected(c, offset, u);
    }
  }

  /** Every answer is a date and a time of day, to the minute, that is selected in all five fields. */
  lemma AnswerIsADate(c: Cron, offset: int, from: nat, tp: nat) returns (d: Date, hour: nat, minute: nat)
    requires Representable(from, offset) && NextTime(c, offset, from) == Some(tp)
    ensures IsAt(tp, offset, d, hour, minute, 0)
    ensures minute in c.minutes && hour in c.hours && d.day in c.days && d.month in c.months
    ensures Weekday(DayNumber(d)) in c.weekdays
  {
    hide NextTime, Matches;
    NextTimeIsEarliest(c, offset, from, tp);
    var second;
    d, hour, minute, second := HasTime(tp, offset);
    Parts(DayNumber(d), hour, minute, second);
    MatchesIff(c, offset, tp, d, hour, minute, second);
  }

  // ---------------------------------------------------------------- the five fields

  function Five(minute: nat, hour: nat, day: nat, month: nat, weekday: nat): seq<Form> {
    [Form(Value(minute), None), Form(Value(hour), None), Form(Value(day), None), Form(Value(month), None),
     Form(Value(weekday), None)]
  }

  /** The order of the fields and their limits: five values are accepted exactly within these limits, and select just
      that minute, hour, day of the month, month and weekday. */
  lemma FiveValues(minute: nat, hour: nat, day: nat, month: nat, weekday: nat)
    requires AllShowable(Five(minute, hour, day, month, weekday))
    ensures Parses(Text(Five(minute, hour, day, month, weekday))) <==>
      minute <= 59 && hour <= 23 && 1 <= day <= 31 && 1 <= month <= 12 && weekday <= 6
  {
    hide Text, Parses;
    var fs := Five(minute, hour, day, month, weekday);
    DocumentedExpression(fs);
    assert forall k :: 0 <= k < 5 ==> fs[k].step == None;
    assert Complaint(fs[0], Low(0), High(0)).None? <==> minute <= 59;
    assert Complaint(fs[1], Low(1), High(1)).None? <==> hour <= 23;
    assert Complaint(fs[2], Low(2), High(2)).None? <==> 1 <= day <= 31;
    assert Complaint(fs[3], Low(3), High(3)).None? <==> 1 <= month <= 12;
    assert Complaint(fs[4], Low(4), High(4)).None? <==> weekday <= 6;
  }

  lemma FiveValuesSelect(c: Cron, minute: nat, hour: nat, day: nat, month: nat, weekday: nat)
    requires AllShowable(Five(minute, hour, day, month, weekday))
    requires FieldsAreRead(c) && c.expression == Text(Five(minute, hour, day, month, weekday))
    ensures c.minutes == [minute] && c.hours == [hour] && c.days == [day] && c.months == [month]
    ensures c.weekdays == [weekday]
  {
    hide Text, Words, Read, Lists;
    var fs := Five(minute, hour, day, month, weekday);
    WordsOfText(fs);
    assert fs[0].base == Value(minute) && fs[1].base == Value(hour) && fs[2].base == Value(day);
    OneValue(FieldOf(c, 0), fs[0], Words(c.expression)[0], Low(0), High(0));
    OneValue(FieldOf(c, 1), fs[1], Words(c.expression)[1], Low(1), High(1));
    OneValue(FieldOf(c, 2), fs[2], Words(c.expression)[2], Low(2), High(2));
    OneValue(FieldOf(c, 3), fs[3], Words(c.expression)[3], Low(3), High(3));
    OneValue(FieldOf(c, 4), fs[4], Words(c.expression)[4], Low(4), High(4));
  }

  lemma OneValue(values: seq<int>, f: Form, text: string, min: int, max: int)
    requires f.base.Value? && f.step.None? && Showable(f.base) && text == Show(f)
    requires Read(text).Ok? && Lists(values, Read(text).value, min, max)
    ensures values == [f.base.v]
  {
    ReadShown(f);
    IncreasingUnique(values, [f.base.v]);
  }

  const STARS: seq<Form> := seq(5, _ => Form(Star, None))

  /** Five stars select everything. */
  lemma StarsSelect(c: Cron, x: int)
    requires FieldsAreRead(c) && c.expression == Text(STARS)
    ensures x in c.minutes <==> 0 <= x <= 59
    ensures x in c.hours <==> 0 <= x <= 23
    ensures x in c.days <==> 1 <= x <= 31
    ensures x in c.months <==> 1 <= x <= 12
    ensures x in c.weekdays <==> 0 <= x <= 6
  {
    hide Text, Words, Read;
    WordsOfText(STARS);
    ReadShown(Form(Star, None));
    assert Lists(FieldOf(c, 0), Form(Star, None), Low(0), High(0));
    assert Lists(FieldOf(c, 1), Form(Star, None), Low(1), High(1));
    assert Lists(FieldOf(c, 2), Form(Star, None), Low(2), High(2));
    assert Lists(FieldOf(c, 3), Form(Star, None), Low(3), High(3));
    assert Lists(FieldOf(c, 4), Form(Star, None), Low(4), High(4));
  }
}
