/** The scheduler object. Each method carries out one or more events of the transition system, those that the code
    performs between one release of the lock and the next. Thread bodies and the clock are outside. */
module TaskScheduler {
  import opened Wrappers
  import opened CronField
  import opened CronExpression
  import opened SchedulerModel

  /** The exceptions that schedule lets through. */
  datatype ScheduleError = Malformed(error: CronError) | NoNextTime

  class TaskScheduler {
    const offset: int
    /** The reading of the system clock. */
    var now: nat
    var nextId: nat
    var tasks: map<nat, Task>
    var queue: seq<Entry>
    var running: bool
    var nextWorker: nat
    var workers: map<nat, Worker>
    /** Whether a stop call is waiting, and whether the process has ended. */
    var stopping: bool
    var crashed: bool
    /** Where other schedule calls are, and what happened so far. */
    ghost var submissions: map<nat, Submission>
    ghost var begun: seq<Begun>
    ghost var dropped: set<nat>

    ghost function Model(): State
      reads this
    {
      State(offset, now, nextId, submissions, tasks, queue, running, stopping, nextWorker, workers, crashed, begun,
          dropped)
    }

    constructor (offset: int, now: nat)
      ensures Model() == Init(offset, now)
    {
      this.offset := offset;
      this.now := now;
      nextId, tasks, queue := 1, map[], [];
      running, nextWorker, workers := false, 0, map[];
      submissions, stopping, crashed, begun, dropped := map[], false, false, [], {};
    }

    /** Parses the expression and searches for its next time. */
    method Prepared(expression: string) returns (r: Result<Task, ScheduleError>, ghost request: Request)
      requires Representable(now, offset)
      ensures r.Ok? ==> IsRecordOf(r.value, expression, offset, now)
      ensures r.Err? && r.error.Malformed? <==> !Parses(expression)
      ensures r.Err? && r.error.Malformed? ==>
        if |Words(expression)| == 5 then IsFirstError(Words(expression), r.error.error)
        else r.error.error == WrongFieldCount
      ensures request.OnCron? && (request.parsed.Some? <==> Parses(expression))
      ensures request.parsed.Some? ==>
          request.parsed.value.expression == expression && FieldsAreRead(request.parsed.value)
      ensures Build(request, offset, now) == if r.Ok? then Some(r.value) else None
      ensures r == Err(NoNextTime) <==> request.parsed.Some? && NextTime(request.parsed.value, offset, now).None?
    {
      hide FieldsAreRead, WellFormed, Parses, Representable, Words, IsFirstError;
      var cron := Create(expression);
      if cron.Err? {
        return Err(Malformed(cron.error)), OnCron(None);
      }
      request := OnCron(Some(cron.value));
      var next := NextExecutionTime(cron.value, offset, now);
      if next.None? {
        return Err(NoNextTime), request;
      }
      return Ok(Task(next.value, Some(cron.value), 0, true, false)), request;
    }

    /** schedule: the id is used up even when the expression is refused. */
    method Schedule(expression: string) returns (r: Result<nat, ScheduleError>, ghost request: Request)
      requires Owned(Model()) && !crashed && Representable(now, offset)
      modifies this
      ensures request.OnCron? && (request.parsed.Some? <==> Parses(expression))
      ensures request.parsed.Some? ==>
          request.parsed.value.expression == expression && FieldsAreRead(request.parsed.value)
      ensures r.Ok? <==> Build(request, offset, old(now)).Some?
      ensures r.Ok? ==> r.value == old(nextId)
      ensures r.Ok? ==> Submitted(old(Model()), request, Model())
      ensures r.Err? ==> Model() == Apply(Apply(old(Model()), Allocate(request)), Prepare(old(nextId)))
    {
      hide FieldsAreRead, WellFormed, Parses, Owned, Submitted, Representable, Build, IsRecordOf, NextTime;
      var id := nextId;
      nextId := nextId + 1;
      var scheduled;
      scheduled, request := Prepared(expression);
      if scheduled.Err? {
        submissions := submissions - {id};
        NotBuilt(old(Model()), request);
        return Err(scheduled.error), request;
      }
      BuiltIsSubmitted(old(Model()), request);
      Push(id, scheduled.value);
      return Ok(id), request;
    }

    /** The locked section that ends each of the three schedule calls. */
    method Push(id: nat, scheduled: Task)
      modifies this`tasks, this`queue, this`submissions
      ensures tasks == old(tasks)[id := scheduled] && queue == old(queue) + [Entry(id, scheduled.due)]
      ensures submissions == old(submissions) - {id}
    {
      tasks := tasks[id := scheduled];
      queue := queue + [Entry(id, scheduled.due)];
      submissions := submissions - {id};
    }

    method ScheduleOnce(delay: int) returns (id: nat)
      requires Owned(Model()) && !crashed && Representable(now, offset)
      modifies this
      ensures id == old(nextId) && Submitted(old(Model()), Once(delay), Model())
    {
      id := nextId;
      nextId := nextId + 1;
      var scheduled := Task(now + delay * MILLISECOND, None, 0, false, false);
      BuiltIsSubmitted(old(Model()), Once(delay));
      Push(id, scheduled);
    }

    method SchedulePeriodic(interval: int) returns (id: nat)
      requires Owned(Model()) && !crashed && Representable(now, offset)
      modifies this
      ensures id == old(nextId) && Submitted(old(Model()), Every(interval), Model())
    {
      id := nextId;
      nextId := nextId + 1;
      var scheduled := Task(now + interval * MILLISECOND, None, interval * MILLISECOND, true, false);
      BuiltIsSubmitted(old(Model()), Every(interval));
      Push(id, scheduled);
    }

    /** cancel: looks through the queue and marks the task. */
    method CancelTask(id: nat) returns (found: bool)
      requires Owned(Model()) && !crashed && Representable(now, offset)
      modifies this`tasks
      ensures found <==> Queued(old(Model()), id)
      ensures Model() == Apply(old(Model()), Cancel(id))
    {
      var i := 0;
      while i < |queue|
        invariant 0 <= i <= |queue| && tasks == old(tasks)
        invariant forall j :: 0 <= j < i ==> queue[j].id != id
      {
        if queue[i].id == id {
          tasks := tasks[id := tasks[id].(cancelled := true)];
          return true;
        }
        i := i + 1;
      }
      return false;
    }

    method StartWorkers(threads: nat)
      requires !stopping && !crashed && Representable(now, offset)
      modifies this`running, this`workers, this`nextWorker
      ensures Model() == Apply(old(Model()), Start(threads))
    {
      var wasRunning := running;
      running := true;
      if wasRunning {
        return;
      }
      var i := 0;
      while i < threads
        invariant 0 <= i <= threads && running && nextWorker == old(nextWorker) + i
        invariant workers == Spawn(old(workers), old(nextWorker), i)
      {
        workers := workers[nextWorker := AtCheck];
        nextWorker := nextWorker + 1;
        i := i + 1;
      }
    }

    /** The first part of stop; the second one returns when every worker has left its loop. */
    method RequestStop()
      requires !stopping && !crashed && Representable(now, offset)
      modifies this`running, this`stopping
      ensures Model() == Apply(old(Model()), Stop)
    {
      var wasRunning := running;
      running := false;
      stopping := wasRunning;
    }

    method JoinWorkers()
      requires Enabled(Model(), Stopped)
      modifies this`workers, this`stopping
      ensures Model() == Apply(old(Model()), Stopped)
    {
      workers := map[];
      stopping := false;
    }

    // The steps of the clock and of the threads outside the locked sections.

    method Advance(ticks: nat)
      requires Enabled(Model(), Tick(ticks))
      modifies this`now
      ensures Model() == Apply(old(Model()), Tick(ticks))
    {
      now := now + ticks;
    }

    /** The loop condition. */
    method CheckRunning(w: nat)
      requires Enabled(Model(), Check(w))
      modifies this`workers
      ensures Model() == Apply(old(Model()), Check(w))
    {
      workers := workers[w := if running then AtLock else Exited];
    }

    /** The end of a wait, by a notification, by its time limit or for no reason. */
    method EndWait(w: nat)
      requires Enabled(Model(), Wake(w))
      modifies this`workers
      ensures Model() == Apply(old(Model()), Wake(w))
    {
      workers := workers[w := AtCheck];
    }

    /** The end of a task body, with or without an exception. */
    method EndBody(w: nat)
      requires Enabled(Model(), Finish(w))
      modifies this`workers
      ensures Model() == Apply(old(Model()), Finish(w))
    {
      workers := workers[w := Deciding(workers[w].id)];
    }

    /** The head of workerLoop, from taking the lock to releasing it; gives the task to run, if there is one. */
    method TakeTask(w: nat) returns (task: Option<nat>, ghost k: nat)
      requires Owned(Model()) && !crashed && Representable(now, offset) && w in workers && workers[w] == AtLock
      modifies this
      ensures Enabled(old(Model()), Take(w, k)) && Model() == Apply(old(Model()), Take(w, k))
      ensures task == if Model().workers[w].Running? then Some(Model().workers[w].id) else None
    {
      if queue == [] {
        workers := workers[w := Parked];
        return None, 0;
      }
      var at := TopOf(queue);
      k := at;
      var id := queue[at].id;
      if tasks[id].cancelled {
        queue := queue[..at] + queue[at + 1..];
        workers := workers[w := AtCheck];
        return None, k;
      }
      if tasks[id].due <= now {
        queue := queue[..at] + queue[at + 1..];
        workers := workers[w := Running(id)];
        begun := begun + [Begun(id, tasks[id].due, now)];
        return Some(id), k;
      }
      workers := workers[w := Parked];
      return None, k;
    }

    /** After the body: whether the task is to be scheduled again. */
    method DecideAgain(w: nat) returns (again: bool)
      requires Enabled(Model(), Decide(w))
      modifies this`workers, this`dropped
      ensures Model() == Apply(old(Model()), Decide(w))
      ensures again <==> Model().workers[w].Computing?
    {
      var id := workers[w].id;
      if tasks[id].periodic && !tasks[id].cancelled && running {
        workers := workers[w := Computing(id)];
        return true;
      }
      if tasks[id].periodic && !tasks[id].cancelled {
        dropped := dropped + {id};
      }
      workers := workers[w := AtCheck];
      return false;
    }

    /** The new due time; false when the cron search throws. */
    method ComputeNext(w: nat) returns (ok: bool)
      requires Enabled(Model(), Compute(w))
      modifies this`tasks, this`workers, this`crashed
      ensures Model() == Apply(old(Model()), Compute(w))
      ensures ok <==> !crashed
    {
      var id := workers[w].id;
      var task := tasks[id];
      if task.cron.Some? {
        var next := NextExecutionTime(task.cron.value, offset, now);
        if next.None? {
          crashed := true;
          return false;
        }
        task := task.(due := next.value);
      } else if task.interval > 0 {
        task := task.(due := now + task.interval);
      }
      tasks := tasks[id := task];
      workers := workers[w := Pushing(id)];
      return true;
    }

    method PushAgain(w: nat)
      requires Enabled(Model(), Requeue(w))
      modifies this`queue, this`workers
      ensures Model() == Apply(old(Model()), Requeue(w))
    {
      var id := workers[w].id;
      queue := queue + [Entry(id, tasks[id].due)];
      workers := workers[w := AtCheck];
    }
  }

  /** The record of a cron task that is scheduled now. */
  predicate IsRecordOf(task: Task, expression: string, offset: int, now: nat)
    requires Representable(now, offset)
  {
    && Parses(expression) && task.cron.Some? && task.cron.value.expression == expression
    && task.periodic && !task.cancelled && task.interval == 0
    && NextTime(task.cron.value, offset, now) == Some(task.due)
  }

  /** A schedule call that nothing interrupts. */
  ghost predicate Submitted(s: State, request: Request, t: State)
  {
    var id := s.nextId;
    Possible(s, [Allocate(request), Prepare(id), Submit(id)])
        && t == Run(s, [Allocate(request), Prepare(id), Submit(id)])
  }

  lemma BuiltIsSubmitted(s: State, request: Request)
    requires Owned(s) && !s.crashed && Representable(s.now, s.offset) && Build(request, s.offset, s.now).Some?
    ensures var task := Build(request, s.offset, s.now).value;
            Submitted(s, request, s.(nextId := s.nextId + 1, submissions := s.submissions - {s.nextId},
              tasks := s.tasks[s.nextId := task], queue := s.queue + [Entry(s.nextId, task.due)]))
  {
    hide Build, Representable;
    var id := s.nextId;
    var a := Apply(s, Allocate(request));
    var b := Apply(a, Prepare(id));
    assert b.submissions - {id} == s.submissions - {id};
    Then(s, [], Allocate(request));
    assert [] + [Allocate(request)] == [Allocate(request)];
    Then(s, [Allocate(request)], Prepare(id));
    assert [Allocate(request)] + [Prepare(id)] == [Allocate(request), Prepare(id)];
    Then(s, [Allocate(request), Prepare(id)], Submit(id));
    assert [Allocate(request), Prepare(id)] + [Submit(id)] == [Allocate(request), Prepare(id), Submit(id)];
  }

  lemma NotBuilt(s: State, request: Request)
    requires !s.crashed && Representable(s.now, s.offset) && Build(request, s.offset, s.now).None?
    ensures Apply(Apply(s, Allocate(request)), Prepare(s.nextId))
         == s.(nextId := s.nextId + 1, submissions := s.submissions - {s.nextId})
  {
    assert s.submissions[s.nextId := Allocated(request)] - {s.nextId} == s.submissions - {s.nextId};
  }
}
