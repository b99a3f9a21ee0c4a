/** Whole sequences of calls and thread steps carried out by a scheduler object: what is proved about the runs of the
    transition system is proved about the object. */
module SchedulerReplay {
  import opened CronExpression
  import opened SchedulerModel
  import opened SchedulerTheorems
  import opened TaskScheduler

  /** A call of a method, or a step of the clock or of a worker. */
  datatype Call =
    | CallSchedule(expression: string) | CallOnce(delay: int) | CallPeriodic(interval: int) | CallCancel(id: nat)
    | CallStart(threads: nat) | CallStop | CallJoin
    | StepClock(ticks: nat) | StepWorker(w: nat)

  /** The events of a schedule call that is refused. */
  lemma RefusedRun(s: State, request: Request)
    requires Owned(s) && Enabled(s, Tick(0))
    ensures var es := [Allocate(request), Prepare(s.nextId)];
            Possible(s, es) && Run(s, es) == Apply(Apply(s, Allocate(request)), Prepare(s.nextId))
  {
    var a := Apply(s, Allocate(request));
    Then(s, [], Allocate(request));
    assert [] + [Allocate(request)] == [Allocate(request)];
    Then(s, [Allocate(request)], Prepare(s.nextId));
    assert [Allocate(request)] + [Prepare(s.nextId)] == [Allocate(request), Prepare(s.nextId)];
  }

  lemma OneEvent(s: State, e: Event)
    requires Enabled(s, e)
    ensures Possible(s, [e]) && Run(s, [e]) == Apply(s, e)
  {
    hide Enabled, Apply;
    assert [e][1..] == [];
  }

  /** The next step of a worker, if it has not left its loop. */
  method StepTheWorker(c: TaskScheduler, w: nat) returns (ghost e: Event)
    requires Owned(c.Model()) && Enabled(c.Model(), Tick(0)) && w in c.workers && c.workers[w] != Exited
    modifies c
    ensures Enabled(old(c.Model()), e) && c.Model() == Apply(old(c.Model()), e)
  {
    hide OneHolder, QueueIsOwner, Numbered, InQueue, Representable;
    match c.workers[w]
    case AtCheck =>
      e := Check(w);
      c.CheckRunning(w);
    case AtLock =>
      var task, k := c.TakeTask(w);
      e := Take(w, k);
    case Parked =>
      e := Wake(w);
      c.EndWait(w);
    case Running(_) =>
      e := Finish(w);
      c.EndBody(w);
    case Deciding(_) =>
      e := Decide(w);
      var again := c.DecideAgain(w);
    case Computing(_) =>
      e := Compute(w);
      var ok := c.ComputeNext(w);
    case Pushing(_) =>
      e := Requeue(w);
      c.PushAgain(w);
  }

  /** A schedule call. */
  method Submitting(c: TaskScheduler, call: Call) returns (ghost es: seq<Event>)
    requires call.CallSchedule? || call.CallOnce? || call.CallPeriodic?
    requires Owned(c.Model()) && Enabled(c.Model(), Tick(0))
    modifies c
    ensures Possible(old(c.Model()), es) && c.Model() == Run(old(c.Model()), es)
  {
    hide Owned, Representable, Parses, FieldsAreRead, Build, Possible, Run;
    ghost var id := c.nextId;
    ghost var request;
    match call {
      case CallSchedule(expression) =>
        var r;
        r, request := c.Schedule(expression);
        if r.Err? {
          RefusedRun(old(c.Model()), request);
          return [Allocate(request), Prepare(id)];
        }
      case CallOnce(delay) =>
        request := Once(delay);
        var once := c.ScheduleOnce(delay);
      case CallPeriodic(interval) =>
        request := Every(interval);
        var periodic := c.SchedulePeriodic(interval);
    }
    es := [Allocate(request), Prepare(id), Submit(id)];
  }

  /** A call of another method, or a step of the clock or of a worker, if it is possible now. Stop can return only when
      all workers have left, and calls of start and stop do not overlap. */
  method Performing(c: TaskScheduler, call: Call) returns (ghost es: seq<Event>)
    requires !call.CallSchedule? && !call.CallOnce? && !call.CallPeriodic?
    requires Owned(c.Model()) && Enabled(c.Model(), Tick(0))
    modifies c
    ensures Possible(old(c.Model()), es) && c.Model() == Run(old(c.Model()), es)
  {
    ghost var e := Tick(0);
    match call {
      case CallCancel(id) =>
        e := Cancel(id);
        var found := c.CancelTask(id);
      case CallStart(threads) =>
        if c.stopping { return []; }
        e := Start(threads);
        c.StartWorkers(threads);
      case CallStop =>
        if c.stopping { return []; }
        e := Stop;
        c.RequestStop();
      case CallJoin =>
        if !c.stopping || exists w :: w in c.workers && c.workers[w] != Exited { return []; }
        e := Stopped;
        c.JoinWorkers();
      case StepClock(ticks) =>
        e := Tick(ticks);
        c.Advance(ticks);
      case StepWorker(w) =>
        if w !in c.workers || c.workers[w] == Exited { return []; }
        e := StepTheWorker(c, w);
      case _ =>
    }
    OneEvent(old(c.Model()), e);
    es := [e];
  }

  lemma {:induction false} OwnedRun(s: State, es: seq<Event>)
    requires Owned(s) && Possible(s, es)
    ensures Owned(Run(s, es))
    decreases |es|
  {
    hide Owned;
    if es != [] {
      OwnedStep(s, es[0]);
      OwnedRun(Apply(s, es[0]), es[1..]);
    }
  }

  /** Calls and steps in any order. What is not possible at its turn, or comes after a failing search has ended the
      process, is left out; the rest is a run of the transition system. */
  method Replay(c: TaskScheduler, calls: seq<Call>) returns (ghost es: seq<Event>)
    requires Owned(c.Model())
    modifies c
    ensures Possible(old(c.Model()), es) && c.Model() == Run(old(c.Model()), es)
  {
    hide Owned, Representable;
    es := [];
    var i := 0;
    while i < |calls|
      invariant 0 <= i <= |calls| && Owned(c.Model())
      invariant Possible(old(c.Model()), es) && c.Model() == Run(old(c.Model()), es)
    {
      if !c.crashed && Representable(c.now, c.offset) {
        var call := calls[i];
        ghost var before := c.Model();
        ghost var fs;
        if call.CallSchedule? || call.CallOnce? || call.CallPeriodic? {
          fs := Submitting(c, call);
        } else {
          fs := Performing(c, call);
        }
        OwnedRun(before, fs);
        RunAppend(old(c.Model()), es, fs);
        es := es + fs;
      }
      i := i + 1;
    }
  }

  /** So the state of a new scheduler object after any calls and steps is a reachable one. */
  method ReplayNew(offset: int, now: nat, calls: seq<Call>) returns (c: TaskScheduler)
    ensures Reachable(c.Model())
  {
    c := new TaskScheduler(offset, now);
    InitIsOwned(offset, now);
    ghost var es := Replay(c, calls);
    assert Possible(Init(offset, now), es) && Run(Init(offset, now), es) == c.Model();
  }

  lemma InitIsOwned(offset: int, now: nat)
    ensures Owned(Init(offset, now))
  {
  }
}
