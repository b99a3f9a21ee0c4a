/** When tasks of the scheduler are due, said with the requested delays, intervals and expressions. */
module SchedulerTimes {
  import opened Wrappers
  import opened CronExpression
  import opened CronMeaning
  import opened SchedulerModel
  import opened SchedulerTheorems

  // ---------------------------------------------------------------- single due times

  /** The first due time. Delays and intervals are milliseconds, and the clock counts nanoseconds. */
  lemma FirstDue(s: State, id: nat)
    requires Enabled(s, Prepare(id))
    ensures var request, t := s.submissions[id].request, Apply(s, Prepare(id));
            match request
            case Once(delay) =>
              && t.submissions[id] == Ready(Task(s.now + delay * 1_000_000, None, 0, false, false))
            case Every(interval) =>
              && t.submissions[id] == Ready(Task(s.now + interval * 1_000_000, None, interval * 1_000_000, true, false))
            case OnCron(None) => id !in t.submissions
            case OnCron(Some(c)) =>
              if id in t.submissions then
                && t.submissions[id].Ready? && t.submissions[id].task.cron == Some(c)
                && t.submissions[id].task.periodic && !t.submissions[id].task.cancelled
                && t.submissions[id].task.due > s.now && IsAnswer(c, s.offset, s.now, t.submissions[id].task.due)
              else forall tp: nat :: !IsAnswer(c, s.offset, s.now, tp)
  {
    hide NextTime, Representable, IsAnswer;
    match s.submissions[id].request
    case Once(_) =>
    case Every(_) =>
    case OnCron(parsed) =>
      if parsed.Some? {
        forall tp: nat ensures NextTime(parsed.value, s.offset, s.now) == Some(tp) <==>
            IsAnswer(parsed.value, s.offset, s.now, tp) {
          AnswerIff(parsed.value, s.offset, s.now, tp);
        }
      }
  }

  /** The next due time of a periodic task, computed after its body has ended: counted from that moment, not from the
      due time before. A failing search ends the process. */
  lemma NextDueTime(s: State, w: nat)
    requires Enabled(s, Compute(w))
    ensures var id, t := s.workers[w].id, Apply(s, Compute(w));
            var task := s.tasks[id];
            id in t.tasks &&
            match task.cron
            case None => t.tasks[id] == task.(due := if task.interval > 0 then s.now + task.interval else task.due)
                         && !t.crashed
            case Some(c) =>
              if t.crashed then forall tp: nat :: !IsAnswer(c, s.offset, s.now, tp)
              else
                && t.tasks[id].due > s.now && t.tasks[id] == task.(due := t.tasks[id].due)
                && IsAnswer(c, s.offset, s.now, t.tasks[id].due)
  {
    hide NextTime, Representable, IsAnswer;
    var task := s.tasks[s.workers[w].id];
    if task.cron.Some? {
      var c := task.cron.value;
      forall tp: nat ensures NextTime(c, s.offset, s.now) == Some(tp) <==> IsAnswer(c, s.offset, s.now, tp) {
        AnswerIff(c, s.offset, s.now, tp);
      }
    }
  }

  // ---------------------------------------------------------------- no begin before the first due time

  /** The id is taken, and neither its record nor any of its begins is due before time t. */
  ghost predicate DueFrom(s: State, id: nat, t: int) {
    && id < s.nextId
    && (id in s.submissions ==> s.submissions[id].Ready? && s.submissions[id].task.due >= t)
    && (id in s.tasks ==> s.tasks[id].due >= t)
    && (forall k :: 0 <= k < |s.begun| && s.begun[k].id == id ==> s.begun[k].due >= t)
  }

  lemma DueFromCompute(s: State, w: nat, id: nat, t: int)
    requires Inv(s) && DueFrom(s, id, t) && Enabled(s, Compute(w))
    ensures DueFrom(Apply(s, Compute(w)), id, t)
  {
    hide InQueue, Held, OneHolder, QueueIsOwner, IsAnswer, Representable;
    NextDueTime(s, w);
    var i := s.workers[w].id;
    assert HasBegun(s.begun, i);
    var k :| 0 <= k < |s.begun| && s.begun[k].id == i;
    assert s.begun[k].due <= s.begun[k].at <= s.now;
  }

  lemma DueFromStep(s: State, e: Event, id: nat, t: int)
    requires Inv(s) && DueFrom(s, id, t) && Enabled(s, e)
    ensures DueFrom(Apply(s, e), id, t)
  {
    hide InQueue, Inv, Representable, Spawn, Without, NextDue, Build, ComputeStep;
    if e.Compute? { DueFromCompute(s, e.w, id, t); }
  }

  lemma {:induction false} DueFromRun(s: State, es: seq<Event>, id: nat, t: int)
    requires Inv(s) && DueFrom(s, id, t) && Possible(s, es)
    ensures DueFrom(Run(s, es), id, t)
    decreases |es|
  {
    if es != [] {
      OwnedStep(s, es[0]);
      LoggedStep(s, es[0]);
      ConservedStep(s, es[0]);
      DueFromStep(s, es[0], id, t);
      DueFromRun(Apply(s, es[0]), es[1..], id, t);
    }
  }

  /** A task with a delay, or with an interval, does not begin before that much time has passed since the call. */
  lemma DelayIsKept(s: State, id: nat, es: seq<Event>, k: nat)
    requires Reachable(s) && Enabled(s, Prepare(id)) && Possible(Apply(s, Prepare(id)), es)
    requires s.submissions[id].request.Once? || s.submissions[id].request.Every?
    requires k < |Run(Apply(s, Prepare(id)), es).begun| && Run(Apply(s, Prepare(id)), es).begun[k].id == id
    ensures var request := s.submissions[id].request;
            Run(Apply(s, Prepare(id)), es).begun[k].at
              >= s.now + (if request.Once? then request.delay else request.interval) * 1_000_000
  {
    Invariant(s);
    FirstDue(s, id);
    var a := Apply(s, Prepare(id));
    OwnedStep(s, Prepare(id));
    LoggedStep(s, Prepare(id));
    ConservedStep(s, Prepare(id));
    RunKeeps(a, es);
    DueFromRun(a, es, id, a.submissions[id].task.due);
  }

  // ---------------------------------------------------------------- cron tasks keep their times

  /** A due time of a cron task is the beginning of a minute that its expression selects. */
  ghost predicate OnTime(cron: Option<Cron>, offset: int, due: int) {
    cron.Some? ==>
      due >= 0 && due % 1_000_000_000 == 0 && (due / 1_000_000_000 + offset) % 60 == 0
      && Selected(cron.value, offset, due)
  }

  ghost predicate AllOnTime(s: State) {
    && (forall id :: id in s.submissions && s.submissions[id].Ready? ==>
          OnTime(s.submissions[id].task.cron, s.offset, s.submissions[id].task.due))
    && (forall id :: id in s.tasks ==> OnTime(s.tasks[id].cron, s.offset, s.tasks[id].due))
    && (forall k :: 0 <= k < |s.begun| ==>
          s.begun[k].id in s.tasks && OnTime(s.tasks[s.begun[k].id].cron, s.offset, s.begun[k].due))
  }

  lemma AnswerIsOnTime(c: Cron, offset: int, from: nat, tp: nat)
    requires IsAnswer(c, offset, from, tp)
    ensures OnTime(Some(c), offset, tp)
  {
  }

  lemma OnTimePrepare(s: State, id: nat)
    requires Owned(s) && AllOnTime(s) && Enabled(s, Prepare(id))
    ensures AllOnTime(Apply(s, Prepare(id)))
  {
    hide OnTime, IsAnswer, Owned, Build, Representable;
    FirstDue(s, id);
    var t := Apply(s, Prepare(id));
    NoCron(s.offset);
    if id in t.submissions && t.submissions[id].task.cron.Some? {
      AnswerIsOnTime(t.submissions[id].task.cron.value, s.offset, s.now, t.submissions[id].task.due);
    }
  }

  lemma NoCron(offset: int)
    ensures forall due :: OnTime(None, offset, due)
  {
  }

  lemma OnTimeCompute(s: State, w: nat)
    requires Owned(s) && AllOnTime(s) && Enabled(s, Compute(w))
    ensures AllOnTime(Apply(s, Compute(w)))
  {
    hide OnTime, IsAnswer, Owned, NextDue, Representable;
    NextDueTime(s, w);
    NoCron(s.offset);
    var id, t := s.workers[w].id, Apply(s, Compute(w));
    if s.tasks[id].cron.Some? && !t.crashed {
      AnswerIsOnTime(s.tasks[id].cron.value, s.offset, s.now, t.tasks[id].due);
    }
  }

  lemma OnTimeStep(s: State, e: Event)
    requires Owned(s) && AllOnTime(s) && Enabled(s, e)
    ensures AllOnTime(Apply(s, e))
  {
    hide OnTime, InQueue, QueueIsOwner, WorkersAreOwners, OneHolder, Representable, Spawn, Without, PrepareStep,
        ComputeStep;
    if e.Prepare? {
      OnTimePrepare(s, e.id);
    } else if e.Compute? {
      OnTimeCompute(s, e.w);
    }
  }

  lemma {:induction false} OnTimeRun(s: State, es: seq<Event>)
    requires Owned(s) && AllOnTime(s) && Possible(s, es)
    ensures AllOnTime(Run(s, es))
    decreases |es|
  {
    hide AllOnTime, Owned;
    if es != [] {
      OwnedStep(s, es[0]);
      OnTimeStep(s, es[0]);
      OnTimeRun(Apply(s, es[0]), es[1..]);
    }
  }

  /** In every run a cron task begins only for times that its expression selects, and not before them. */
  lemma CronTasksKeepTheirTimes(s: State, k: nat)
    requires Reachable(s) && k < |s.begun|
    ensures s.begun[k].id in s.tasks
    ensures s.tasks[s.begun[k].id].cron.Some? ==>
      && 0 <= s.begun[k].due <= s.begun[k].at
      && s.begun[k].due % 1_000_000_000 == 0 && (s.begun[k].due / 1_000_000_000 + s.offset) % 60 == 0
      && Selected(s.tasks[s.begun[k].id].cron.value, s.offset, s.begun[k].due)
  {
    hide Selected;
    NeverEarly(s, k);
    var offset, now, es :| Possible(Init(offset, now), es) && Run(Init(offset, now), es) == s;
    OnTimeRun(Init(offset, now), es);
  }
}
