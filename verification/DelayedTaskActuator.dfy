/** The actuator object. Each method is one critical section and carries out one event of the transition system; a
    future is named by the id of its task. */
module DelayedTaskActuator {
  import opened Wrappers
  import opened ActuatorModel

  datatype ActuatorError = NegativeDelay | NullTask | Destroyed | NotAvailable

  /** What one evaluation of the wait condition in getTaskResult leads to. */
  datatype Answer = Blocked | Future(id: int) | Failed(error: ActuatorError)

  class DelayedTaskActuator {
    var results: set<int>
    var pendingTasks: map<int, bool>
    var nextTaskId: int
    var alive: bool
    /** The clock, and where the threads and the callers of getTaskResult are. */
    var now: nat
    var threads: map<int, Thread>
    var nextWaiter: nat
    var waiters: map<nat, Waiter>
    /** What happened so far. */
    ghost var claims: seq<Claim>
    ghost var ran: seq<int>

    ghost function Model(): State
      reads this
    {
      State(now, results, pendingTasks, nextTaskId, alive, threads, nextWaiter, waiters, claims, ran)
    }

    constructor (now: nat)
      ensures Model() == Init(now)
    {
      this.now := now;
      results, pendingTasks, nextTaskId, alive := {}, map[], 0, true;
      threads, nextWaiter, waiters, claims, ran := map[], 0, map[], [], [];
    }

    /** Refuses a negative delay or a missing task, in that order, and otherwise starts a thread. */
    method ScheduleTask(delay: int, hasTask: bool) returns (r: Result<int, ActuatorError>)
      requires alive
      modifies this
      ensures delay < 0 ==> r == Err(NegativeDelay)
      ensures delay >= 0 && !hasTask ==> r == Err(NullTask)
      ensures r.Err? ==> Model() == old(Model())
      ensures delay >= 0 && hasTask ==>
          r == Ok(old(nextTaskId)) && Model() == Apply(old(Model()), Event.Schedule(delay))
    {
      if delay < 0 {
        return Err(NegativeDelay);
      }
      if !hasTask {
        return Err(NullTask);
      }
      var taskId := nextTaskId;
      nextTaskId := nextTaskId + 1;
      pendingTasks := pendingTasks[taskId := true];
      threads := threads[taskId := Sleeping(now + delay)];
      results := results + {taskId};
      return Ok(taskId);
    }

    // The steps of the clock and of the callers outside the critical sections.

    method Advance(milliseconds: nat)
      modifies this`now
      ensures Model() == Apply(old(Model()), Tick(milliseconds))
    {
      now := now + milliseconds;
    }

    /** A call of getTaskResult begins. */
    method BeginCall(taskId: int) returns (w: nat)
      requires alive
      modifies this`nextWaiter, this`waiters
      ensures w == old(nextWaiter) && Model() == Apply(old(Model()), Ask(taskId))
    {
      w := nextWaiter;
      nextWaiter := nextWaiter + 1;
      waiters := waiters[w := Awake(taskId)];
    }

    /** A wait that ends without a notification. */
    method EndWait(w: nat)
      requires Enabled(Model(), Spurious(w))
      modifies this`waiters
      ensures Model() == Apply(old(Model()), Spurious(w))
    {
      waiters := waiters[w := Awake(waiters[w].id)];
    }

    /** The thread body after the sleep; says whether the task was run. */
    method WakeThread(taskId: int) returns (ranTask: bool)
      requires Enabled(Model(), Fire(taskId))
      modifies this
      ensures Model() == Apply(old(Model()), Fire(taskId))
      ensures ranTask <==> alive
    {
      if !alive {
        threads := threads[taskId := Quit];
        return false;
      }
      ran := ran + [taskId];
      threads := threads[taskId := Fired];
      if taskId in pendingTasks {
        pendingTasks := pendingTasks[taskId := false];
        pendingTasks := pendingTasks - {taskId};
      }
      waiters := NotifyAll(waiters);
      assert pendingTasks == old(pendingTasks) - {taskId};
      return true;
    }

    method IsPendingLocked(taskId: int) returns (pending: bool)
      ensures pending <==> IsPending(Model(), taskId)
    {
      if taskId in pendingTasks {
        return pendingTasks[taskId];
      }
      return false;
    }

    /** One evaluation of the wait condition by a caller of getTaskResult, and what follows it. */
    method GetTaskResult(w: nat, taskId: int) returns (a: Answer)
      requires Enabled(Model(), Evaluate(w)) && waiters[w].id == taskId
      modifies this
      ensures Model() == Apply(old(Model()), Evaluate(w))
      ensures match a
              case Blocked => waiters[w] == Parked(taskId)
              case Future(id) => waiters[w] == Returned(taskId) && id == taskId
              case Failed(e) => waiters[w] == Threw(taskId) && e == if alive then NotAvailable else Destroyed
    {
      var pending := IsPendingLocked(taskId);
      if taskId !in results && pending {
        waiters := waiters[w := Parked(taskId)];
        return Blocked;
      }
      if !alive {
        waiters := waiters[w := Threw(taskId)];
        return Failed(Destroyed);
      }
      if taskId in results {
        results := results - {taskId};
        waiters := waiters[w := Returned(taskId)];
        claims := claims + [Got(taskId)];
        return Future(taskId);
      }
      waiters := waiters[w := Threw(taskId)];
      return Failed(NotAvailable);
    }

    method CancelTask(taskId: int) returns (cancelled: bool)
      requires alive
      modifies this`results, this`pendingTasks, this`claims
      ensures Model() == Apply(old(Model()), Cancel(taskId))
      ensures cancelled <==> Model() != old(Model())
    {
      if taskId !in pendingTasks {
        return false;
      }
      if taskId in results {
        results := results - {taskId};
        pendingTasks := pendingTasks - {taskId};
        claims := claims + [Cancelled(taskId)];
        return true;
      }
      return false;
    }

    /** The destructor. */
    method Destruct()
      requires alive
      modifies this`results, this`pendingTasks, this`alive, this`waiters
      ensures Model() == Apply(old(Model()), Destroy)
    {
      alive := false;
      pendingTasks := map[];
      results := {};
      waiters := NotifyAll(waiters);
    }
  }
}
