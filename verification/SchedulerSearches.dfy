/** The cron expressions that the records of the task scheduler hold: they were asked for, and each search for them that
    succeeded once succeeds again later. */
module SchedulerSearches {
  import opened CronExpression
  import opened CronTotality
  import opened SchedulerModel
  import opened SchedulerTheorems

  ghost predicate SelectsAMinute(c: Cron) {
    exists m: nat :: MinuteFits(c, m)
  }

  /** The cron expressions asked for are among cs. */
  ghost predicate Asks(e: Event, cs: iset<Cron>) {
    e.Allocate? && e.request.OnCron? && e.request.parsed.Some? ==> e.request.parsed.value in cs
  }

  ghost predicate AllAsk(es: seq<Event>, cs: iset<Cron>) {
    forall i :: 0 <= i < |es| ==> Asks(es[i], cs)
  }

  ghost predicate TaskFrom(t: Task, cs: iset<Cron>) {
    t.cron.Some? ==> t.cron.value in cs && SelectsAMinute(t.cron.value)
  }

  ghost predicate SubmissionFrom(b: Submission, cs: iset<Cron>) {
    match b
    case Allocated(r) => Asks(Allocate(r), cs)
    case Ready(t) => TaskFrom(t, cs)
  }

  /** Every record holds an expression that was asked for and whose first search succeeded. */
  ghost predicate AllFrom(s: State, cs: iset<Cron>) {
    && (forall id :: id in s.tasks ==> TaskFrom(s.tasks[id], cs))
    && (forall id :: id in s.submissions ==> SubmissionFrom(s.submissions[id], cs))
  }

  predicate Writes(e: Event) {
    e.Allocate? || e.Prepare? || e.Submit? || e.Cancel? || e.Compute?
  }

  lemma NothingWritten(s: State, e: Event)
    requires Enabled(s, e) && !Writes(e)
    ensures Apply(s, e).tasks == s.tasks && Apply(s, e).submissions == s.submissions && Apply(s, e).crashed == s.crashed
  {
    hide Representable, Spawn, TakeStep;
    if e.Take? { TakeEffect(s, e.w, e.k); }
  }

  lemma FirstSearchFits(request: Request, offset: int, now: nat, cs: iset<Cron>)
    requires Representable(now, offset) && Build(request, offset, now).Some? && Asks(Allocate(request), cs)
    ensures TaskFrom(Build(request, offset, now).value, cs)
  {
    if request.OnCron? {
      var c := request.parsed.value;
      assert MinuteFits(c, FirstFit(c, MinuteOf(now, offset) + 1, MAX_ITERATIONS).value);
    }
  }

  lemma TaskFromWrite(t: Task, due: int, cs: iset<Cron>)
    requires TaskFrom(t, cs)
    ensures TaskFrom(t.(due := due), cs) && TaskFrom(t.(cancelled := true), cs)
  {
  }

  lemma AllFromStep(s: State, e: Event, cs: iset<Cron>)
    requires AllFrom(s, cs) && Enabled(s, e) && Asks(e, cs)
    ensures AllFrom(Apply(s, e), cs)
  {
    hide TaskFrom, Asks, Representable, Build, TakeStep, DecideStep, RequeueStep, StartStep, InQueue, NextDue;
    if !Writes(e) {
      NothingWritten(s, e);
    } else if e.Prepare? && Build(s.submissions[e.id].request, s.offset, s.now).Some? {
      FirstSearchFits(s.submissions[e.id].request, s.offset, s.now, cs);
    } else if e.Cancel? && e.id in s.tasks {
      TaskFromWrite(s.tasks[e.id], 0, cs);
    } else if e.Compute? && !Apply(s, e).crashed {
      var id := s.workers[e.w].id;
      TaskFromWrite(s.tasks[id], Apply(s, e).tasks[id].due, cs);
    }
  }

  lemma {:induction false} AllFromRun(s: State, es: seq<Event>, cs: iset<Cron>)
    requires AllFrom(s, cs) && Possible(s, es) && AllAsk(es, cs)
    ensures AllFrom(Run(s, es), cs)
    decreases |es|
  {
    hide AllFrom, Asks;
    if es != [] {
      assert Asks(es[0], cs);
      AllFromStep(s, es[0], cs);
      AllFromRun(Apply(s, es[0]), es[1..], cs);
    }
  }

  ghost const ANY: iset<Cron> := iset c: Cron | true

  /** In a reachable state every expression of a record selects some minute, because its first search found one. */
  lemma ReachableFrom(s: State)
    requires Reachable(s)
    ensures AllFrom(s, ANY)
  {
    var offset, now, es :| Possible(Init(offset, now), es) && Run(Init(offset, now), es) == s;
    AllFromRun(Init(offset, now), es, ANY);
  }

  // ---------------------------------------------------------------- searching again later

  lemma {:induction false} DayComesBack(c: Cron, n: nat, cycles: nat)
    ensures DayFits(c, n + cycles * Calendar.CYCLE) <==> DayFits(c, n)
  {
    hide DayFits;
    if cycles > 0 {
      DayComesBack(c, n, cycles - 1);
      DayFitsRepeats(c, n + (cycles - 1) * Calendar.CYCLE);
    }
  }

  lemma MinuteComesBack(c: Cron, m: nat, cycles: nat)
    requires MinuteFits(c, m)
    ensures MinuteFits(c, m + 1440 * (cycles * Calendar.CYCLE))
  {
    hide DayFits;
    DayComesBack(c, m / 1440, cycles);
    SameTimeOfDay(m, cycles * Calendar.CYCLE);
  }

  lemma SameTimeOfDay(m: nat, days: nat)
    ensures (m + 1440 * days) / 1440 == m / 1440 + days
    ensures (m + 1440 * days) % 1440 / 60 == m % 1440 / 60
    ensures (m + 1440 * days) % 60 == m % 60
  {
    var day, hour, minute := m / 1440, m % 1440 / 60, m % 1440 % 60;
    SplitMinute(day, hour, minute);
    SplitMinute(day + days, hour, minute);
    assert m == day * 1440 + (hour * 60 + minute);
    assert m + 1440 * days == (day + days) * 1440 + (hour * 60 + minute);
  }

  /** There is always a later time at which the search succeeds. */
  lemma SearchesLater(c: Cron, offset: int, now: nat) returns (wait: nat)
    requires SelectsAMinute(c) && Representable(now, offset)
    ensures Representable(now + wait, offset) && NextTime(c, offset, now + wait).Some?
  {
    hide MinuteFits, NextTime;
    var m: nat :| MinuteFits(c, m);
    var cycles := MinuteOf(now, offset) + 2;
    MinuteComesBack(c, m, cycles);
    var next := m + 1440 * (cycles * Calendar.CYCLE);
    assert next - 1 > MinuteOf(now, offset);
    StartsLater(now, offset, next - 1);
    wait := StartOf(next - 1, offset) - now;
    StartIsMinute(next - 1, offset, now);
    FitFound(c, offset, now + wait, next);
  }

  lemma StartIsMinute(m: nat, offset: int, now: nat)
    requires StartOf(m, offset) > now
    ensures Representable(StartOf(m, offset), offset) && MinuteOf(StartOf(m, offset), offset) == m
  {
    MinuteOfStart(m, offset);
  }
}
