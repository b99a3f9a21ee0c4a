/** A cron expression: construction from text, and the minute-by-minute search for the next time it names. Time points
    are non-negative counts of clock ticks; local time is UTC plus a fixed offset in seconds and is not negative. */
module CronExpression {
  import opened Wrappers
  import opened CronField
  import opened Calendar

  /** std::chrono::system_clock counts nanoseconds. */
  const TICKS: nat := 1_000_000_000

  const MAX_ITERATIONS: nat := 366 * 24 * 60 * 4

  datatype Cron = Cron(
    expression: string, minutes: seq<int>, hours: seq<int>, days: seq<int>, months: seq<int>, weekdays: seq<int>)

  /** The five fields with their limits. */
  function Low(k: nat): int {
    if k == 2 || k == 3 then 1 else 0
  }

  function High(k: nat): int {
    if k == 0 then 59 else if k == 1 then 23 else if k == 2 then 31 else if k == 3 then 12 else 6
  }

  function FieldOf(c: Cron, k: nat): seq<int> {
    if k == 0 then c.minutes else if k == 1 then c.hours else if k == 2 then c.days
    else if k == 3 then c.months else c.weekdays
  }

  predicate WellFormed(c: Cron) {
    forall k :: 0 <= k < 5 ==> FieldOf(c, k) != [] && forall x :: x in FieldOf(c, k) ==> Low(k) <= x <= High(k)
  }

  /** The expression is accepted: five words, each an accepted field. */
  predicate Parses(expression: string) {
    var w := Words(expression);
    |w| == 5 && forall k :: 0 <= k < 5 ==> Accepted(w[k], Low(k), High(k))
  }

  ghost predicate FieldsAreRead(c: Cron) {
    Parses(c.expression) &&
    forall k :: 0 <= k < 5 ==> Lists(FieldOf(c, k), Read(Words(c.expression)[k]).value, Low(k), High(k))
  }

  /** Field k is wrong in this way and the fields before it are accepted. */
  ghost predicate ErrorAt(w: seq<string>, k: nat, e: CronError)
    requires |w| == 5
  {
    k < 5 && FieldRead(w[k], Low(k), High(k), Err(e)) && forall j :: 0 <= j < k ==> Accepted(w[j], Low(j), High(j))
  }

  ghost predicate IsFirstError(w: seq<string>, e: CronError)
    requires |w| == 5
  {
    exists k: nat :: ErrorAt(w, k, e)
  }

  /** The constructor. */
  method Create(expression: string) returns (r: Result<Cron, CronError>)
    ensures r.Ok? <==> Parses(expression)
    ensures r.Ok? ==> r.value.expression == expression && FieldsAreRead(r.value) && WellFormed(r.value)
    ensures r == Err(WrongFieldCount) <==> |Words(expression)| != 5
    ensures r.Err? && |Words(expression)| == 5 ==> IsFirstError(Words(expression), r.error)
  {
    hide Words, Accepted, Lists, Read, Complaint, FieldRead, Selects;
    var tokens := ReadWords(expression);
    if |tokens| != 5 {
      return Err(WrongFieldCount);
    }
    var minutes := ParseField(tokens[0], 0, 59);
    FieldOutcome(tokens[0], 0, 59, minutes);
    if minutes.Err? { assert ErrorAt(tokens, 0, minutes.error); return Err(minutes.error); }
    var hours := ParseField(tokens[1], 0, 23);
    FieldOutcome(tokens[1], 0, 23, hours);
    if hours.Err? { assert ErrorAt(tokens, 1, hours.error); return Err(hours.error); }
    var days := ParseField(tokens[2], 1, 31);
    FieldOutcome(tokens[2], 1, 31, days);
    if days.Err? { assert ErrorAt(tokens, 2, days.error); return Err(days.error); }
    var months := ParseField(tokens[3], 1, 12);
    FieldOutcome(tokens[3], 1, 12, months);
    if months.Err? { assert ErrorAt(tokens, 3, months.error); return Err(months.error); }
    var weekdays := ParseField(tokens[4], 0, 6);
    FieldOutcome(tokens[4], 0, 6, weekdays);
    if weekdays.Err? { assert ErrorAt(tokens, 4, weekdays.error); return Err(weekdays.error); }
    var c := Cron(expression, minutes.value, hours.value, days.value, months.value, weekdays.value);
    FieldsAreSound(c);
    return Ok(c);
  }

  lemma FieldsAreSound(c: Cron)
    requires FieldsAreRead(c)
    ensures WellFormed(c)
  {
    forall k | 0 <= k < 5
      ensures FieldOf(c, k) != [] && forall x :: x in FieldOf(c, k) ==> Low(k) <= x <= High(k)
    {
      AcceptedSelects(Words(c.expression)[k], Low(k), High(k), FieldOf(c, k));
    }
  }

  // ---------------------------------------------------------------- documented expressions

  predicate AllShowable(fs: seq<Form>) {
    forall k :: 0 <= k < |fs| ==> Showable(fs[k].base) && (fs[k].step.Some? ==> 0 <= fs[k].step.value <= MAX_INT)
  }

  /** Documented fields written one after the other. */
  function Text(fs: seq<Form>): string
    requires AllShowable(fs)
  {
    if fs == [] then "" else " " + Show(fs[0]) + Text(fs[1..])
  }

  lemma ShownIsSolid(f: Form)
    requires Showable(f.base) && (f.step.Some? ==> f.step.value >= 0)
    ensures Solid(Show(f))
  {
  }

  lemma {:induction false} WordsOfText(fs: seq<Form>)
    requires AllShowable(fs)
    ensures |Words(Text(fs))| == |fs|
    ensures forall k :: 0 <= k < |fs| ==> Words(Text(fs))[k] == Show(fs[k])
  {
    hide Words, Show, Solid, Blank;
    if fs == [] {
      NoWords();
    } else {
      ShownIsSolid(fs[0]);
      FirstWord(fs);
      WordsOfText(fs[1..]);
    }
  }

  lemma NoWords()
    ensures Words("") == []
  {
  }

  lemma FirstWord(fs: seq<Form>)
    requires AllShowable(fs) && fs != []
    ensures Words(Text(fs)) == [Show(fs[0])] + Words(Text(fs[1..]))
  {
    hide Words, Show, Solid;
    ShownIsSolid(fs[0]);
    WordsFirst(" ", Show(fs[0]), Text(fs[1..]));
  }

  /** The documented grammar: five documented fields are accepted exactly when there is no zero step and every value
      and range fits its field. */
  lemma {:induction false} DocumentedExpression(fs: seq<Form>)
    requires AllShowable(fs)
    ensures Parses(Text(fs)) <==>
      |fs| == 5 && forall k :: 0 <= k < 5 ==> fs[k].step != Some(0) && Complaint(fs[k], Low(k), High(k)).None?
  {
    WordsOfText(fs);
    if |fs| == 5 {
      forall k | 0 <= k < 5
        ensures Accepted(Words(Text(fs))[k], Low(k), High(k)) <==>
          fs[k].step != Some(0) && Complaint(fs[k], Low(k), High(k)).None?
      {
        ReadShown(fs[k]);
      }
    }
  }

  // ---------------------------------------------------------------- broken-down time

  datatype Tm = Tm(date: Date, hour: nat, min: nat, sec: nat, wday: nat)

  /** The seconds since the epoch of a time point: std::chrono::system_clock::to_time_t drops the fraction. */
  function ToTimeT(tp: nat): nat {
    tp / TICKS
  }

  /** Local time is not negative. */
  predicate Representable(tp: nat, offset: int) {
    ToTimeT(tp) + offset >= 0
  }

  /** localtime_r. */
  function LocalTime(t: int, offset: int): (tm: Tm)
    requires t + offset >= 0
    ensures ValidDate(tm.date)
  {
    var l := t + offset;
    Tm(DateOf(l / 86400), l % 86400 / 3600, l % 3600 / 60, l % 60, Weekday(l / 86400))
  }

  /** mktime: hours, minutes and seconds may lie outside their usual ranges, and the weekday is not looked at. */
  function MakeTime(tm: Tm, offset: int): int
    requires ValidDate(tm.date)
  {
    DayNumber(tm.date) * 86400 + tm.hour * 3600 + tm.min * 60 + tm.sec - offset
  }

  lemma MakeLocal(t: int, offset: int, min: nat, sec: nat)
    requires t + offset >= 0
    ensures MakeTime(LocalTime(t, offset).(min := min, sec := sec), offset)
         == t - (t + offset) % 3600 + min * 60 + sec
  {
    hide DateOf, DayNumber;
    DayNumberOfDate((t + offset) / 86400);
    WholeHours(t + offset);
  }

  lemma InHours(q: nat, r: nat)
    requires r < 3600
    ensures (q * 3600 + r) % 3600 == r
  {
  }

  lemma WholeHours(l: nat)
    ensures l == l / 86400 * 86400 + l % 86400 / 3600 * 3600 + l % 3600
  {
    var day, hour, rest := l / 86400, l % 86400 / 3600, l % 86400 % 3600;
    assert l == (24 * day + hour) * 3600 + rest;
    InHours(24 * day + hour, rest);
  }

  predicate Fits(c: Cron, tm: Tm) {
    tm.min in c.minutes && tm.hour in c.hours && tm.date.day in c.days && tm.date.month in c.months
    && tm.wday in c.weekdays
  }

  predicate Matches(c: Cron, offset: int, tp: nat)
    requires Representable(tp, offset)
  {
    Fits(c, LocalTime(ToTimeT(tp), offset))
  }

  // ---------------------------------------------------------------- the search

  /** The local minute, counted from 1970-01-01 00:00, that a time point lies in. */
  function MinuteOf(tp: nat, offset: int): nat
    requires Representable(tp, offset)
  {
    (ToTimeT(tp) + offset) / 60
  }

  predicate MinuteFits(c: Cron, m: nat) {
    m % 60 in c.minutes && m % 1440 / 60 in c.hours && DayFits(c, m / 1440)
  }

  predicate DayFits(c: Cron, n: nat) {
    DateOf(n).day in c.days && DateOf(n).month in c.months && Weekday(n) in c.weekdays
  }

  lemma {:induction false} MatchesIsMinuteFits(c: Cron, offset: int, tp: nat)
    requires Representable(tp, offset)
    ensures Matches(c, offset, tp) <==> MinuteFits(c, MinuteOf(tp, offset))
  {
    var l := ToTimeT(tp) + offset;
    Clock(l);
  }

  lemma InMinutes(q: nat, r: nat)
    requires r < 60
    ensures (q * 60 + r) / 60 == q && (q * 60 + r) % 60 == r
  {
  }

  lemma InDays(q: nat, r: nat)
    requires r < 1440
    ensures (q * 1440 + r) / 1440 == q && (q * 1440 + r) % 1440 == r
  {
  }

  lemma SplitMinute(n: nat, hour: nat, minute: nat)
    requires hour < 24 && minute < 60
    ensures var m := n * 1440 + (hour * 60 + minute);
            m % 60 == minute && m % 1440 / 60 == hour && m / 1440 == n
  {
    InDays(n, hour * 60 + minute);
    InMinutes(hour, minute);
    InMinutes(n * 24 + hour, minute);
    assert n * 1440 + (hour * 60 + minute) == (n * 24 + hour) * 60 + minute;
  }

  lemma MinuteOfDay(l: nat)
    ensures l / 60 == l / 86400 * 1440 + (l % 86400 / 3600 * 60 + l % 3600 / 60)
  {
    WholeHours(l);
    var day, hour, min := l / 86400, l % 86400 / 3600, l % 3600 / 60;
    assert l == 60 * (day * 1440 + hour * 60 + min) + l % 3600 % 60;
  }

  lemma Clock(l: nat)
    ensures l / 60 / 1440 == l / 86400
    ensures l / 60 % 60 == l % 3600 / 60
    ensures l / 60 % 1440 / 60 == l % 86400 / 3600
  {
    WholeHours(l);
    SplitMinute(l / 86400, l % 86400 / 3600, l % 3600 / 60);
    MinuteOfDay(l);
  }

  /** The first fitting minute among the budget minutes from m on. */
  function FirstFit(c: Cron, m: nat, budget: nat): (r: Option<nat>)
    ensures r.Some? ==> m <= r.value < m + budget && MinuteFits(c, r.value)
    ensures r.Some? ==> forall n :: m <= n < r.value ==> !MinuteFits(c, n)
    ensures r.None? ==> forall n :: m <= n < m + budget ==> !MinuteFits(c, n)
    decreases budget
  {
    if budget == 0 then None
    else if MinuteFits(c, m) then Some(m)
    else FirstFit(c, m + 1, budget - 1)
  }

  /** The time point at which a local minute begins. */
  function StartOf(m: nat, offset: int): int {
    (m * 60 - offset) * TICKS
  }

  lemma StartsLater(tp: nat, offset: int, m: nat)
    requires Representable(tp, offset)
    ensures StartOf(m, offset) > tp <==> m > MinuteOf(tp, offset)
  {
    TickOrder(tp, m * 60 - offset);
  }

  lemma TickOrder(tp: nat, t: int)
    ensures t * TICKS > tp <==> t > ToTimeT(tp)
    ensures t >= 0 ==> ToTimeT(t * TICKS) == t
  {
  }

  /** What the search is for: the first fitting minute after the one that from lies in, among the next 366*24*60*4. */
  function NextTime(c: Cron, offset: int, from: nat): (r: Option<nat>)
    requires Representable(from, offset)
    ensures r.Some? ==> r.value > from
  {
    match FirstFit(c, MinuteOf(from, offset) + 1, MAX_ITERATIONS)
    case None => None
    case Some(m) => StartsLater(from, offset, m); Some(StartOf(m, offset))
  }

  /** Matching the beginning of a later minute is a question about that minute. */
  lemma MatchesAtStart(c: Cron, offset: int, from: nat, m: nat, t: int)
    requires Representable(from, offset) && m > MinuteOf(from, offset) && t == m * 60 - offset
    ensures var tp := t * TICKS;
            tp == StartOf(m, offset) && tp > from && Representable(tp, offset)
                && (Matches(c, offset, tp) <==> MinuteFits(c, m))
  {
    StartsLater(from, offset, m);
    TickOrder(from, m * 60 - offset);
    MatchesIsMinuteFits(c, offset, StartOf(m, offset));
  }

  /** Adding one to the minutes and normalising gives the beginning of the next minute. */
  lemma NextMinute(from: nat, offset: int)
    requires Representable(from, offset)
    ensures var tm := LocalTime(ToTimeT(from), offset);
            MakeTime(tm.(sec := 0, min := tm.min + 1), offset) == (MinuteOf(from, offset) + 1) * 60 - offset
  {
    var tm := LocalTime(ToTimeT(from), offset);
    MakeLocal(ToTimeT(from), offset, tm.min + 1, 0);
  }

  method NextExecutionTime(c: Cron, offset: int, from: nat) returns (r: Option<nat>)
    requires Representable(from, offset)
    ensures r == NextTime(c, offset, from)
  {
    hide FirstFit, Matches, MinuteFits, LocalTime, MakeTime, MinuteOf, StartOf;
    var tm := LocalTime(ToTimeT(from), offset);
    NextMinute(from, offset);
    tm := tm.(sec := 0, min := tm.min + 1);
    var t := MakeTime(tm, offset);
    ghost var first := MinuteOf(from, offset) + 1;
    var i := 0;
    while i < MAX_ITERATIONS
      invariant 0 <= i <= MAX_ITERATIONS
      invariant t == (first + i) * 60 - offset
      invariant forall m :: first <= m < first + i ==> !MinuteFits(c, m)
    {
      MatchesAtStart(c, offset, from, first + i, t);
      var tp := t * TICKS;
      if Matches(c, offset, tp) {
        return Some(tp);
      }
      t := t + 60;
      i := i + 1;
    }
    return None;
  }

  // ---------------------------------------------------------------- exactness

  /** u lies in one of the minutes that are searched. */
  predicate Searched(u: nat, offset: int, from: nat)
    requires Representable(from, offset)
  {
    Representable(u, offset) && MinuteOf(from, offset) < MinuteOf(u, offset) <= MinuteOf(from, offset) + MAX_ITERATIONS
  }

  /** tp is the beginning of a local minute. */
  predicate Aligned(tp: nat, offset: int) {
    tp % TICKS == 0 && (ToTimeT(tp) + offset) % 60 == 0
  }

  /** The earliest matching whole minute: no instant of an earlier searched minute matches. */
  ghost predicate Earliest(c: Cron, offset: int, from: nat, tp: nat)
    requires Representable(from, offset)
  {
    Aligned(tp, offset) && Searched(tp, offset, from) && Matches(c, offset, tp)
    && forall u: nat :: u < tp && Searched(u, offset, from) ==> !Matches(c, offset, u)
  }

  lemma AlignedStart(tp: nat, offset: int)
    requires Representable(tp, offset)
    ensures StartOf(MinuteOf(tp, offset), offset) <= tp
    ensures Aligned(tp, offset) <==> StartOf(MinuteOf(tp, offset), offset) == tp
  {
    TickOrder(tp, MinuteOf(tp, offset) * 60 - offset);
    assert tp == ToTimeT(tp) * TICKS + tp % TICKS;
  }

  lemma MinuteOfStart(m: nat, offset: int)
    requires m * 60 - offset >= 0
    ensures StartOf(m, offset) >= 0 && Representable(StartOf(m, offset), offset)
    ensures MinuteOf(StartOf(m, offset), offset) == m && Aligned(StartOf(m, offset), offset)
  {
    TickOrder(0, m * 60 - offset);
    AlignedStart(StartOf(m, offset), offset);
  }

  /** The search is exact: it answers tp exactly when tp is the earliest matching minute of the window. */
  lemma NextTimeIsEarliest(c: Cron, offset: int, from: nat, tp: nat)
    requires Representable(from, offset)
    ensures NextTime(c, offset, from) == Some(tp) <==> Earliest(c, offset, from, tp)
  {
    hide FirstFit, MinuteFits, Matches;
    var first := MinuteOf(from, offset) + 1;
    var r := FirstFit(c, first, MAX_ITERATIONS);
    if NextTime(c, offset, from) == Some(tp) {
      var m := r.value;
      StartsLater(from, offset, m);
      TickOrder(from, m * 60 - offset);
      MinuteOfStart(m, offset);
      MatchesIsMinuteFits(c, offset, tp);
      forall u: nat | u < tp && Searched(u, offset, from) ensures !Matches(c, offset, u) {
        StartsLater(u, offset, m);
        MatchesIsMinuteFits(c, offset, u);
      }
    }
    if Earliest(c, offset, from, tp) {
      MatchesIsMinuteFits(c, offset, tp);
      AlignedStart(tp, offset);
      var m := MinuteOf(tp, offset);
      assert MinuteFits(c, m);
      if r.value < m {
        StartsLater(from, offset, r.value);
        TickOrder(from, r.value * 60 - offset);
        MinuteOfStart(r.value, offset);
        var u := StartOf(r.value, offset);
        MatchesIsMinuteFits(c, offset, u);
      }
    }
  }

  /** It throws exactly when no instant of the searched minutes matches. */
  lemma {:induction false} NextTimeFails(c: Cron, offset: int, from: nat)
    requires Representable(from, offset)
    ensures NextTime(c, offset, from) == None
       <==> forall u: nat :: Searched(u, offset, from) ==> !Matches(c, offset, u)
  {
    hide FirstFit, MinuteFits, Matches;
    var r := FirstFit(c, MinuteOf(from, offset) + 1, MAX_ITERATIONS);
    if r.None? {
      forall u: nat | Searched(u, offset, from) ensures !Matches(c, offset, u) {
        MatchesIsMinuteFits(c, offset, u);
      }
    } else {
      var u := NextTime(c, offset, from).value;
      NextTimeIsEarliest(c, offset, from, u);
    }
  }
}
