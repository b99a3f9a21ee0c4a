/** The process ends when a cron search fails inside a worker, where nothing catches the exception. Which expressions
    can bring that about is a question about the calendar. */
module SchedulerCrashes {
  import opened Wrappers
  import opened CronExpression
  import opened CronTotality
  import opened SchedulerModel
  import opened SchedulerSearches
  import opened SchedulerFutures

  ghost predicate SelectsADay(c: Cron) {
    exists n: nat :: DayFits(c, n)
  }

  /** Some day fits, but not in every 1464 days. Both can be computed from one 400-year cycle. */
  ghost predicate Hazardous(c: Cron) {
    SelectsADay(c) && !EveryWindowFits(c)
  }

  /** Some run that asks for no other cron expressions ends in a failing search; it may ask for any other tasks. */
  ghost predicate CanCrash(offset: int, cs: iset<Cron>) {
    exists from, es :: Possible(Init(offset, from), es) && AllAsk(es, cs) && Run(Init(offset, from), es).crashed
  }

  // ---------------------------------------------------------------- what a crash needs

  /** The step that crashes computes the next time of an expression for which some day fits but too rarely. */
  lemma CrashStep(s: State, e: Event, cs: iset<Cron>) returns (c: Cron)
    requires AllFrom(s, cs) && (forall c :: c in cs ==> WellFormed(c))
    requires Enabled(s, e) && Apply(s, e).crashed
    ensures c in cs && Hazardous(c)
  {
    hide SelectsADay, SelectsAMinute, WellFormed, Representable, NextTime, EveryWindowFits;
    OnlyComputeCrashes(s, e);
    var task := s.tasks[s.workers[e.w].id];
    c := task.cron.value;
    MinuteIsOfADay(c);
    if EveryWindowFits(c) { WindowsSuffice(c, s.offset, s.now); }
  }

  lemma MinuteIsOfADay(c: Cron)
    requires SelectsAMinute(c)
    ensures SelectsADay(c)
  {
    hide DayFits;
    var m: nat :| MinuteFits(c, m);
    assert DayFits(c, m / 1440);
  }

  lemma OnlyComputeCrashes(s: State, e: Event)
    requires Enabled(s, e) && Apply(s, e).crashed
    ensures e.Compute? && s.workers[e.w].id in s.tasks && s.tasks[s.workers[e.w].id].cron.Some?
    ensures NextTime(s.tasks[s.workers[e.w].id].cron.value, s.offset, s.now).None?
  {
    hide Representable, NextTime;
    if !Writes(e) { NothingWritten(s, e); }
  }

  lemma {:induction false} CrashNeedsHazard(s: State, es: seq<Event>, cs: iset<Cron>) returns (c: Cron)
    requires AllFrom(s, cs) && (forall c :: c in cs ==> WellFormed(c))
    requires !s.crashed && Possible(s, es) && AllAsk(es, cs) && Run(s, es).crashed
    ensures c in cs && Hazardous(c)
    decreases |es|
  {
    hide AllFrom, Hazardous, WellFormed, Asks;
    assert Asks(es[0], cs);
    var t := Apply(s, es[0]);
    if t.crashed {
      c := CrashStep(s, es[0], cs);
    } else {
      AllFromStep(s, es[0], cs);
      c := CrashNeedsHazard(t, es[1..], cs);
    }
  }

  /** The process does not end in a failing search if no expression asked for is hazardous, as when its search never
      fails. */
  lemma NeverCrashes(s: State, es: seq<Event>, cs: iset<Cron>)
    requires AllFrom(s, cs) && (forall c :: c in cs ==> WellFormed(c) && !Hazardous(c))
    requires !s.crashed && Possible(s, es) && AllAsk(es, cs)
    ensures !Run(s, es).crashed
  {
    if Run(s, es).crashed {
      var c := CrashNeedsHazard(s, es, cs);
    }
  }

  // ---------------------------------------------------------------- what a crash takes

  /** An expression whose search succeeds when it is scheduled and fails when its task has run brings the process
      down. */
  lemma CrashRun(c: Cron, offset: int, from: nat, later: nat) returns (es: seq<Event>)
    requires Representable(from, offset) && NextTime(c, offset, from).Some?
    requires NextTime(c, offset, from).value <= later && NextTime(c, offset, later).None?
    ensures Possible(Init(offset, from), es) && AllAsk(es, iset{c}) && Run(Init(offset, from), es).crashed
  {
    hide NextTime;
    var init := Init(offset, from);
    es := UntilTaken(OnCron(Some(c)), offset, from, later);
    var a := Apply(Run(init, es), Finish(0));
    Then(init, es, Finish(0));
    es := es + [Finish(0)];
    var b := Apply(a, Decide(0));
    Then(init, es, Decide(0));
    es := es + [Decide(0)];
    assert b.workers[0] == Computing(1);
    Then(init, es, Compute(0));
    es := es + [Compute(0)];
  }

  lemma {:induction false} WindowComesBack(c: Cron, n: nat, cycles: nat)
    ensures FitsWithin(c, n + cycles * Calendar.CYCLE) <==> FitsWithin(c, n)
  {
    hide FitsWithin;
    if cycles > 0 {
      WindowComesBack(c, n, cycles - 1);
      WindowRepeats(c, n + (cycles - 1) * Calendar.CYCLE);
    }
  }

  /** A search started just before a fitting day answers a time on that day or before. */
  lemma FoundByTheDay(c: Cron, offset: int, n: nat)
    requires WellFormed(c) && n > 1 && offset <= 86400 && DayFits(c, n)
    ensures NextTime(c, offset, Before(n, offset)).Some?
    ensures NextTime(c, offset, Before(n, offset)).value < StartOf((n + 1) * 1440, offset)
  {
    hide DayFits, MinuteFits, MinuteOf, WellFormed;
    var t := SomeMinute(c);
    FitFound(c, offset, Before(n, offset), n * 1440 + t);
  }

  lemma LaterDay(offset: int, n: nat, m: nat)
    requires 1 < n < m && offset <= 86400
    ensures StartOf((n + 1) * 1440, offset) <= StartOf(m * 1440, offset)
    ensures Before(m, offset) == StartOf(m * 1440, offset) - 60 * TICKS
  {
  }

  /** Every hazardous expression alone can end the process. */
  lemma HazardCrashes(c: Cron, offset: int)
    requires WellFormed(c) && offset <= 86400 && Hazardous(c)
    ensures CanCrash(offset, iset{c})
  {
    hide DayFits, WellFormed, FitsWithin, NextTime, Before, StartOf, Representable, Possible, Run;
    var d: nat :| DayFits(c, d);
    var e: nat :| !FitsWithin(c, e);
    DayFitsRepeats(c, d);
    var n := d + Calendar.CYCLE;
    var m := e + (n + 2) * Calendar.CYCLE;
    WindowComesBack(c, e, n + 2);
    FoundByTheDay(c, offset, n);
    LaterDay(offset, n, m - 1);
    LaterDay(offset, n, m);
    EmptyWindowFails(c, offset, m);
    var from, later := Before(n, offset), Before(m, offset);
    assert NextTime(c, offset, from).value <= later;
    var es := CrashRun(c, offset, from, later);
    assert Possible(Init(offset, from), es) && AllAsk(es, iset{c}) && Run(Init(offset, from), es).crashed;
  }

  /** The exact condition, for any set of expressions: some run crashes if and only if one of them names a day, but not
      in every 1464 days. */
  lemma CrashIff(offset: int, cs: iset<Cron>)
    requires offset <= 86400 && forall c :: c in cs ==> WellFormed(c)
    ensures CanCrash(offset, cs) <==> exists c :: c in cs && Hazardous(c)
  {
    hide Hazardous, WellFormed, Possible, Run, Asks;
    if CanCrash(offset, cs) {
      var from, es :| Possible(Init(offset, from), es) && AllAsk(es, cs) && Run(Init(offset, from), es).crashed;
      var c := CrashNeedsHazard(Init(offset, from), es, cs);
    }
    if c :| c in cs && Hazardous(c) {
      HazardCrashes(c, offset);
      var from, es :| Possible(Init(offset, from), es) && AllAsk(es, iset{c}) && Run(Init(offset, from), es).crashed;
      MoreToAsk(es, c, cs);
    }
  }

  lemma MoreToAsk(es: seq<Event>, c: Cron, cs: iset<Cron>)
    requires AllAsk(es, iset{c}) && c in cs
    ensures AllAsk(es, cs)
  {
    forall i | 0 <= i < |es| ensures Asks(es[i], cs) {
      assert Asks(es[i], iset{c});
    }
  }

  /** A task scheduled for February 29th can end the process. */
  lemma LeapDayCrashes(offset: int)
    requires offset <= 86400
    ensures CanCrash(offset, iset{LEAP_DAY})
  {
    hide CanCrash, FitsWithin, DayFits, LEAP_DAY, NextTime, Before, NeverFails, WellFormed;
    LeapDayIsRead();
    LeapDayFails(offset);
    NeverFailsIff(LEAP_DAY, offset);
    LeapDayIn2096();
    SomeDayFits(LEAP_DAY, Calendar.YearStart(2096));
    HazardCrashes(LEAP_DAY, offset);
  }

  lemma SomeDayFits(c: Cron, n: nat)
    requires FitsWithin(c, n)
    ensures SelectsADay(c)
  {
  }
}
