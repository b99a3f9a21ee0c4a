/** Whole sequences of calls and thread steps carried out by an actuator object: what is proved about the runs of the
    transition system is proved about the object. */
module ActuatorReplay {
  import opened ActuatorModel
  import opened DelayedTaskActuator

  /** A call of a method, or a step of the clock, of a thread or of a caller of getTaskResult. */
  datatype Call =
    | CallSchedule(delay: int, hasTask: bool) | CallGet(id: int) | CallCancel(id: int) | CallDestruct
    | StepClock(milliseconds: nat) | StepThread(id: int) | StepCaller(w: nat)

  /** Carries out the call or step if it is possible now. */
  method Performing(c: DelayedTaskActuator, call: Call) returns (ghost es: seq<Event>)
    modifies c
    ensures Possible(old(c.Model()), es) && c.Model() == Run(old(c.Model()), es)
  {
    ghost var e := Tick(0);
    match call {
      case CallSchedule(delay, hasTask) =>
        if !c.alive { return []; }
        var r := c.ScheduleTask(delay, hasTask);
        if r.Err? { return []; }
        e := Event.Schedule(delay);
      case CallGet(id) =>
        if !c.alive { return []; }
        e := Ask(id);
        var w := c.BeginCall(id);
      case CallCancel(id) =>
        if !c.alive { return []; }
        e := Cancel(id);
        var cancelled := c.CancelTask(id);
      case CallDestruct =>
        if !c.alive { return []; }
        e := Destroy;
        c.Destruct();
      case StepClock(milliseconds) =>
        e := Tick(milliseconds);
        c.Advance(milliseconds);
      case StepThread(id) =>
        if id !in c.threads || !c.threads[id].Sleeping? || c.threads[id].until > c.now { return []; }
        e := Fire(id);
        var ran := c.WakeThread(id);
      case StepCaller(w) =>
        if w !in c.waiters || c.waiters[w].Returned? || c.waiters[w].Threw? { return []; }
        e := CallerStep(c, w);
    }
    RunOfOne(old(c.Model()), e);
    es := [e];
  }

  /** A caller evaluates its condition, or wakes up for no reason. */
  method CallerStep(c: DelayedTaskActuator, w: nat) returns (ghost e: Event)
    requires w in c.waiters && !c.waiters[w].Returned? && !c.waiters[w].Threw?
    modifies c
    ensures Enabled(old(c.Model()), e) && c.Model() == Apply(old(c.Model()), e)
  {
    if c.waiters[w].Parked? {
      e := Spurious(w);
      c.EndWait(w);
    } else {
      e := Evaluate(w);
      var answer := c.GetTaskResult(w, c.waiters[w].id);
    }
  }

  /** Calls and steps in any order. What is not possible at its turn is left out; the rest is a run of the transition
      system. */
  method Replay(c: DelayedTaskActuator, calls: seq<Call>) returns (ghost es: seq<Event>)
    modifies c
    ensures Possible(old(c.Model()), es) && c.Model() == Run(old(c.Model()), es)
  {
    es := [];
    var i := 0;
    while i < |calls|
      invariant 0 <= i <= |calls|
      invariant Possible(old(c.Model()), es) && c.Model() == Run(old(c.Model()), es)
    {
      ghost var fs := Performing(c, calls[i]);
      RunAppend(old(c.Model()), es, fs);
      es := es + fs;
      i := i + 1;
    }
  }

  /** So the state of a new actuator object after any calls and steps is a reachable one. */
  method ReplayNew(now: nat, calls: seq<Call>) returns (c: DelayedTaskActuator)
    ensures Reachable(c.Model())
  {
    c := new DelayedTaskActuator(now);
    ghost var es := Replay(c, calls);
    assert Possible(Init(now), es) && Run(Init(now), es) == c.Model();
  }
}
