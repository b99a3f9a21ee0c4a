/** What can still happen in the task scheduler: which tasks can begin again after a stop or after a cancel that came
    too late, and that stop comes to an end. */
module SchedulerFutures {
  import opened CronExpression
  import opened SchedulerModel
  import opened SchedulerTheorems
  import opened SchedulerSearches

  // ---------------------------------------------------------------- a task begins in some run

  /** The run es from s is possible and starts the body of the task. */
  predicate BeginsIn(s: State, es: seq<Event>, id: nat) {
    Possible(s, es) && exists k :: |s.begun| <= k < |Run(s, es).begun| && Run(s, es).begun[k].id == id
  }

  predicate NoCancel(es: seq<Event>) {
    forall i :: 0 <= i < |es| ==> !es[i].Cancel?
  }

  /** Some run starts the task; with cancels false, one in which nothing is cancelled. */
  ghost predicate CanBegin(s: State, id: nat, cancels: bool) {
    exists es :: BeginsIn(s, es, id) && (cancels || NoCancel(es))
  }

  lemma BegunIsKept(s: State, e: Event)
    requires Enabled(s, e)
    ensures s.begun <= Apply(s, e).begun
  {
    hide Representable, InQueue, Without, Top, Spawn, Build, NextDue;
  }

  /** If it can begin after one more event it can begin. */
  lemma BeginsAfter(s: State, e: Event, id: nat, cancels: bool)
    requires Enabled(s, e) && (cancels || !e.Cancel?) && CanBegin(Apply(s, e), id, cancels)
    ensures CanBegin(s, id, cancels)
  {
    BegunIsKept(s, e);
    hide Enabled, Apply;
    var es :| BeginsIn(Apply(s, e), es, id) && (cancels || NoCancel(es));
    var all := [e] + es;
    assert all[1..] == es;
    assert Run(s, all) == Run(Apply(s, e), es);
    assert BeginsIn(s, all, id);
  }

  lemma BeginsNow(s: State, w: nat, k: nat, id: nat, cancels: bool)
    requires Enabled(s, Take(w, k)) && |Apply(s, Take(w, k)).begun| == |s.begun| + 1
    requires Apply(s, Take(w, k)).begun[|s.begun|].id == id
    ensures CanBegin(s, id, cancels)
  {
    hide Enabled, Apply;
    var es := [Take(w, k)];
    assert es[1..] == [];
    assert Run(s, es) == Apply(s, Take(w, k));
    assert BeginsIn(s, es, id) && NoCancel(es);
  }

  /** A task that is silent does not begin. */
  lemma SilentCannotBegin(s: State, id: nat, cancels: bool)
    requires Inv(s) && Silent(s, id)
    ensures !CanBegin(s, id, cancels)
  {
    if CanBegin(s, id, cancels) {
      var es :| BeginsIn(s, es, id) && (cancels || NoCancel(es));
      SilentForever(s, es, id);
    }
  }

  // ---------------------------------------------------------------- after a stop

  lemma TopIsDue(s: State, id: nat, k: nat)
    requires Owned(s) && Top(s.queue, k) && Queued(s, id) && id in s.tasks && s.tasks[id].due <= s.now
    ensures s.queue[k].id in s.tasks && s.tasks[s.queue[k].id].due <= s.now
  {
    var i :| 0 <= i < |s.queue| && s.queue[i].id == id;
  }

  /** As many new workers as there are entries take them one after the other, until the task is begun. */
  lemma CrewBegins(s: State, first: nat, id: nat)
    requires Owned(s) && Enabled(s, Tick(0)) && s.running
    requires forall w :: first <= w < first + |s.queue| ==> w in s.workers && s.workers[w] == AtCheck
    requires Queued(s, id) && id in s.tasks && !s.tasks[id].cancelled && s.tasks[id].due <= s.now
    ensures CanBegin(s, id, false)
    decreases |s.queue|
  {
    hide OneHolder, WorkersAreOwners, Numbered, InQueue, CanBegin, Representable;
    assert s.queue != [] by { EmptyQueue(s.queue, id); }
    var k := TopOf(s.queue);
    TopIsDue(s, id, k);
    var a := Apply(s, Check(first));
    var b := Apply(a, Take(first, k));
    if s.queue[k].id == id {
      BeginsNow(a, first, k, id, false);
    } else {
      OwnedStep(s, Check(first));
      OwnedStep(a, Take(first, k));
      QueueIdsDiffer(s);
      WithoutMembers(s.queue, k, id);
      CrewBegins(b, first + 1, id);
      BeginsAfter(a, Take(first, k), id, false);
    }
    BeginsAfter(s, Check(first), id, false);
  }

  lemma EmptyQueue(q: seq<Entry>, id: nat)
    requires InQueue(q, id)
    ensures q != []
  {
  }

  lemma CrewIsThere(s: State, n: nat)
    requires Enabled(s, Start(n)) && !s.running
    ensures var t := Apply(s, Start(n));
            t == s.(running := true, nextWorker := t.nextWorker, workers := t.workers)
            && forall w :: s.nextWorker <= w < s.nextWorker + n ==> w in t.workers && t.workers[w] == AtCheck
  {
    hide Representable;
    Spawned(s.workers, s.nextWorker, n);
  }

  /** A queued task begins after a new start, without anything being cancelled. */
  lemma StartBegins(s: State, id: nat)
    requires Owned(s) && Enabled(s, Tick(0)) && !s.running && !s.stopping
    requires Queued(s, id) && id in s.tasks && !s.tasks[id].cancelled
    ensures CanBegin(s, id, false)
  {
    hide InQueue, CanBegin, Representable;
    var n := |s.queue|;
    var a := Apply(s, Start(n));
    OwnedStep(s, Start(n));
    CrewIsThere(s, n);
    var wait := if s.tasks[id].due > s.now then s.tasks[id].due - s.now else 0;
    LaterIsRepresentable(s.now, wait, s.offset);
    var b := Apply(a, Tick(wait));
    OwnedStep(a, Tick(wait));
    CrewBegins(b, s.nextWorker, id);
    BeginsAfter(a, Tick(wait), id, false);
    BeginsAfter(s, Start(n), id, false);
  }

  // ---------------------------------------------------------------- progress

  /** A due task is taken up: a worker that is waiting, once awake, begins the top of the queue. */
  lemma DueTaskBegins(s: State, w: nat, k: nat)
    requires Reachable(s) && Enabled(s, Wake(w)) && s.running && Top(s.queue, k)
    requires s.queue[k].id in s.tasks && s.tasks[s.queue[k].id].due <= s.now && !s.tasks[s.queue[k].id].cancelled
    ensures var es := [Wake(w), Check(w), Take(w, k)];
            Possible(s, es) && Run(s, es).begun == s.begun + [Begun(s.queue[k].id, s.queue[k].key, s.now)]
  {
    hide Logged, Conserved, Reachable;
    Invariant(s);
    var a := Apply(s, Wake(w));
    var b := Apply(a, Check(w));
    assert Enabled(b, Take(w, k));
    RunOfThree(s, Wake(w), Check(w), Take(w, k));
  }

  predicate StepOf(e: Event, w: nat) {
    (e.Check? || e.Take? || e.Wake? || e.Finish? || e.Decide? || e.Compute? || e.Requeue?) && e.w == w
  }

  /** Stop comes to an end: once the scheduler is not running, every step of a worker brings it nearer to leaving its
      loop ... */
  lemma WorkersLeave(s: State, e: Event, w: nat)
    requires Enabled(s, e) && !s.running && StepOf(e, w)
    ensures var t := Apply(s, e);
            !t.running && w in t.workers && (t.crashed || Remaining(t.workers[w]) < Remaining(s.workers[w]))
  {
    hide Representable, InQueue, NextDue, TakeStep;
    if e.Take? { TakeEffect(s, e.w, e.k); }
  }

  /** ... and no other event, except a start or the end of the stop call itself, moves it. */
  lemma OthersDoNotInterfere(s: State, e: Event, w: nat)
    requires Enabled(s, e) && !s.running && w in s.workers && !StepOf(e, w) && e != Stopped && !e.Start?
    ensures !Apply(s, e).running && w in Apply(s, e).workers && Apply(s, e).workers[w] == s.workers[w]
  {
    hide Representable, InQueue, Build, NextDue, TakeStep;
    if e.Take? { TakeEffect(s, e.w, e.k); }
  }

  /** Until it has left its loop a worker always has a next step. */
  lemma WorkerIsNotStuck(s: State, w: nat)
    requires Reachable(s) && Enabled(s, Tick(0)) && w in s.workers && s.workers[w] != Exited
    ensures exists e :: StepOf(e, w) && Enabled(s, e)
  {
    hide Logged, Conserved, Reachable, Representable;
    Invariant(s);
    NextStepIsEnabled(s, w);
  }

  // ---------------------------------------------------------------- stop comes to an end

  /** The steps that the first n workers can still take. */
  function Outstanding(workers: map<nat, Worker>, n: nat): nat {
    if n == 0 then 0
    else Outstanding(workers, n - 1) + if n - 1 in workers then Remaining(workers[n - 1]) else 0
  }

  lemma {:induction false} OutstandingAfter(workers: map<nat, Worker>, w: nat, pc: Worker, n: nat)
    requires w in workers
    ensures Outstanding(workers[w := pc], n) ==
      Outstanding(workers, n) + if w < n then Remaining(pc) - Remaining(workers[w]) else 0
  {
    if n > 0 { OutstandingAfter(workers, w, pc, n - 1); }
  }

  lemma {:induction false} OutstandingAtLeast(workers: map<nat, Worker>, w: nat, n: nat)
    requires w in workers && w < n
    ensures Outstanding(workers, n) >= Remaining(workers[w])
  {
    if w < n - 1 { OutstandingAtLeast(workers, w, n - 1); }
  }

  predicate IsWorkerStep(e: Event) {
    e.Check? || e.Take? || e.Wake? || e.Finish? || e.Decide? || e.Compute? || e.Requeue?
  }

  function WorkerSteps(es: seq<Event>): nat {
    if es == [] then 0 else WorkerSteps(es[1..]) + if IsWorkerStep(es[0]) then 1 else 0
  }

  lemma OneWorkerMoves(s: State, e: Event)
    requires Enabled(s, e) && IsWorkerStep(e)
    ensures var t := Apply(s, e);
            e.w in s.workers && e.w in t.workers && t.workers == s.workers[e.w := t.workers[e.w]]
            && t.nextWorker == s.nextWorker
  {
    hide Representable, InQueue, NextDue, Top;
  }

  lemma CallersKeepWorkers(s: State, e: Event)
    requires Enabled(s, e) && !IsWorkerStep(e) && !e.Start?
    ensures var t := Apply(s, e);
            (e == Stopped || t.workers == s.workers) && t.nextWorker == s.nextWorker && (!s.running ==> !t.running)
            && (e == Stopped ==> t.workers == map[])
  {
    hide Representable, InQueue, Build;
  }

  lemma {:induction false} NothingOutstanding(n: nat)
    ensures Outstanding(map[], n) == 0
  {
    if n > 0 { NothingOutstanding(n - 1); }
  }

  /** Each worker step uses up one outstanding step. */
  lemma StepIsCounted(s: State, e: Event)
    requires Owned(s) && Enabled(s, e) && !s.running && !e.Start?
    ensures var t := Apply(s, e);
            !t.running && t.nextWorker == s.nextWorker
            && Outstanding(t.workers, t.nextWorker) <= Outstanding(s.workers, s.nextWorker)
            && (IsWorkerStep(e) ==> Outstanding(s.workers, s.nextWorker) > 0)
            && (IsWorkerStep(e) ==>
                t.crashed || Outstanding(t.workers, t.nextWorker) < Outstanding(s.workers, s.nextWorker))
  {
    if IsWorkerStep(e) {
      ComputeStays(s, e);
      hide Apply, Enabled, Outstanding;
      OneWorkerMoves(s, e);
      WorkersLeave(s, e, e.w);
      OutstandingAtLeast(s.workers, e.w, s.nextWorker);
      OutstandingAfter(s.workers, e.w, Apply(s, e).workers[e.w], s.nextWorker);
    } else {
      hide Apply, Outstanding;
      CallersKeepWorkers(s, e);
      NothingOutstanding(s.nextWorker);
    }
  }

  lemma ComputeStays(s: State, e: Event)
    requires Enabled(s, e) && IsWorkerStep(e)
    ensures Remaining(s.workers[e.w]) > 0
    ensures Apply(s, e).crashed ==> Apply(s, e).workers == s.workers
  {
    hide Representable, InQueue, NextDue, Top;
  }

  /** Once the scheduler is not running its workers take only so many steps, however they interleave with each other and
      with callers, as long as nobody calls start. */
  lemma {:induction false} StopIsBounded(s: State, es: seq<Event>)
    requires Owned(s) && !s.running && Possible(s, es)
    requires forall i :: 0 <= i < |es| ==> !es[i].Start?
    ensures WorkerSteps(es) <= Outstanding(s.workers, s.nextWorker)
    decreases |es|
  {
    if es != [] {
      var t := Apply(s, es[0]);
      StepIsCounted(s, es[0]);
      OwnedStep(s, es[0]);
      if t.crashed {
        assert es[1..] == [];
      } else {
        StopIsBounded(t, es[1..]);
      }
    }
  }

  /** And when none of them can take another step, stop can return, unless the process is gone. */
  lemma StopReturns(s: State)
    requires Reachable(s) && s.stopping && Representable(s.now, s.offset)
    requires forall w, e :: StepOf(e, w) ==> !Enabled(s, e)
    ensures s.crashed || Enabled(s, Stopped)
  {
    hide Reachable, Representable;
    if !s.crashed {
      forall w | w in s.workers ensures s.workers[w] == Exited {
        if s.workers[w] != Exited { WorkerIsNotStuck(s, w); }
      }
    }
  }

  // ---------------------------------------------------------------- exactly which tasks can begin

  /** The worker will push the task again if the search for its next time succeeds. */
  predicate WillPush(s: State, w: nat)
    requires w in s.workers && Holds(s.workers[w]) && s.workers[w].id in s.tasks
  {
    var pc := s.workers[w];
    pc.Pushing? || pc.Computing? || (s.tasks[pc.id].periodic && s.running)
  }

  /** Some worker has the task and will push it again. */
  ghost predicate CanReturn(s: State, id: nat) {
    exists w :: HeldBy(s, w, id) && id in s.tasks && WillPush(s, w)
  }

  /** If worker w is to search for the next time of its task, it finds one now; without a cron expression there is no
      search. */
  predicate SearchSucceeds(s: State, w: nat)
    requires w in s.workers && Representable(s.now, s.offset)
  {
    var pc := s.workers[w];
    Holds(pc) && pc.id in s.tasks && WillPush(s, w) && !pc.Pushing? ==> NextDue(s.tasks[pc.id], s.offset, s.now).Some?
  }

  /** The next step of a worker. */
  function NextStep(s: State, w: nat): Event
    requires w in s.workers && s.workers[w] != Exited
  {
    match s.workers[w]
    case AtCheck => Check(w)
    case AtLock => Take(w, if s.queue == [] then 0 else TopOf(s.queue))
    case Parked => Wake(w)
    case Running(_) => Finish(w)
    case Deciding(_) => Decide(w)
    case Computing(_) => Compute(w)
    case Pushing(_) => Requeue(w)
  }

  lemma NextStepIsEnabled(s: State, w: nat)
    requires Owned(s) && Enabled(s, Tick(0)) && w in s.workers && s.workers[w] != Exited
    ensures StepOf(NextStep(s, w), w) && Enabled(s, NextStep(s, w))
  {
    hide Representable, InQueue, OneHolder;
  }

  function Ahead(pc: Worker): nat {
    match pc
    case Running(_) => 3
    case Deciding(_) => 2
    case Computing(_) => 1
    case _ => 0
  }

  /** The holder of a task that will be pushed again goes on to push it. */
  lemma HolderGoesOn(s: State, w: nat, id: nat)
    requires Owned(s) && Enabled(s, Tick(0)) && HeldBy(s, w, id) && id in s.tasks
    requires WillPush(s, w) && SearchSucceeds(s, w)
    requires Enabled(s, NextStep(s, w))
    ensures var t := Apply(s, NextStep(s, w));
            Enabled(t, Tick(0)) && t.running == s.running && t.stopping == s.stopping
            && id in t.tasks && !t.tasks[id].cancelled
            && (if s.workers[w].Pushing? then w in t.workers && t.workers[w] == AtCheck && Queued(t, id)
                else HeldBy(t, w, id) && WillPush(t, w) && SearchSucceeds(t, w)
                     && Ahead(t.workers[w]) < Ahead(s.workers[w]))
  {
    hide Representable, InQueue, OneHolder, NextDue;
    if s.workers[w].Pushing? {
      PushedMembers(s.queue, Entry(id, s.tasks[id].due), id);
    }
  }

  lemma CancelsDoNotHurt(s: State, id: nat)
    requires CanBegin(s, id, false)
    ensures CanBegin(s, id, true)
  {
    hide BeginsIn;
  }

  /** Waiting brings a time at which the search of a worker succeeds, and changes nothing else. */
  lemma WaitToSearch(s: State, v: nat) returns (wait: nat)
    requires Owned(s) && AllFrom(s, ANY) && Enabled(s, Tick(0)) && v in s.workers
    ensures var t := Apply(s, Tick(wait));
            t == s.(now := s.now + wait) && Owned(t) && AllFrom(t, ANY) && Enabled(t, Tick(0)) && SearchSucceeds(t, v)
  {
    hide SelectsAMinute, NextTime, InQueue, Representable, OneHolder;
    wait := 0;
    var pc := s.workers[v];
    if Holds(pc) && pc.id in s.tasks && s.tasks[pc.id].cron.Some? {
      wait := SearchesLater(s.tasks[pc.id].cron.value, s.offset, s.now);
    }
  }

  /** A worker step takes a queued task out of the queue only to begin it, unless it is cancelled. */
  lemma QueuedStays(s: State, v: nat, id: nat)
    requires Owned(s) && Enabled(s, Tick(0)) && v in s.workers && s.workers[v] != Exited
    requires Queued(s, id) && id in s.tasks && !s.tasks[id].cancelled
    requires Enabled(s, NextStep(s, v)) && SearchSucceeds(s, v)
    ensures var t := Apply(s, NextStep(s, v));
            (NextStep(s, v).Take? && |t.begun| == |s.begun| + 1 && t.begun[|s.begun|].id == id)
            || (Enabled(t, Tick(0)) && t.running == s.running && t.stopping == s.stopping
                && Queued(t, id) && id in t.tasks && !t.tasks[id].cancelled)
  {
    hide Representable, InQueue, NextDue, Without, TopOf;
    var e := NextStep(s, v);
    if e.Take? && s.queue != [] {
      WithoutIsQueue(s, e.k, id);
    } else if e.Requeue? {
      PushedMembers(s.queue, Entry(s.workers[v].id, s.tasks[s.workers[v].id].due), id);
    }
  }

  lemma WithoutIsQueue(s: State, k: nat, id: nat)
    requires Owned(s) && k < |s.queue|
    ensures InQueue(Without(s.queue, k), id) <==> InQueue(s.queue, id) && id != s.queue[k].id
  {
    hide InQueue, Without;
    QueueIdsDiffer(s);
    WithoutMembers(s.queue, k, id);
  }

  /** A queued task that is not cancelled can begin, whatever the scheduler is doing: it can be stopped, its workers can
      leave, and the next start takes the task up. Nothing needs to be cancelled. */
  lemma QueuedBegins(s: State, id: nat)
    requires Owned(s) && AllFrom(s, ANY) && Enabled(s, Tick(0))
    requires Queued(s, id) && id in s.tasks && !s.tasks[id].cancelled
    ensures CanBegin(s, id, false)
    decreases s.running, Outstanding(s.workers, s.nextWorker)
  {
    OwnedStops(s);
    hide Owned, InQueue, CanBegin, Representable, NextStep, SearchSucceeds, AllFrom, Outstanding;
    if s.running {
      OwnedStep(s, Stop);
      AllFromStep(s, Stop, ANY);
      QueuedBegins(Apply(s, Stop), id);
      BeginsAfter(s, Stop, id, false);
    } else if !s.stopping {
      StartBegins(s, id);
    } else if v :| v in s.workers && s.workers[v] != Exited {
      WorkerThenQueued(s, v, id);
    } else {
      OwnedStep(s, Stopped);
      StartBegins(Apply(s, Stopped), id);
      BeginsAfter(s, Stopped, id, false);
    }
  }

  lemma OwnedStops(s: State)
    requires Owned(s)
    ensures !(s.running && s.stopping)
  {
  }

  /** While stop waits: a worker makes its next step, after the time that its search needs. */
  lemma WorkerThenQueued(s: State, v: nat, id: nat)
    requires Owned(s) && AllFrom(s, ANY) && Enabled(s, Tick(0)) && !s.running && s.stopping
    requires Queued(s, id) && id in s.tasks && !s.tasks[id].cancelled
    requires v in s.workers && s.workers[v] != Exited
    ensures CanBegin(s, id, false)
    decreases s.running, Outstanding(s.workers, s.nextWorker), 0
  {
    hide Owned, InQueue, CanBegin, Representable, NextStep, SearchSucceeds, AllFrom, Outstanding, Apply;
    var wait := WaitToSearch(s, v);
    var a := Apply(s, Tick(wait));
    NextStepIsEnabled(a, v);
    var e := NextStep(a, v);
    QueuedStays(a, v, id);
    StepIsCounted(a, e);
    OwnedStep(a, e);
    AllFromStep(a, e, ANY);
    var t := Apply(a, e);
    if e.Take? && |t.begun| == |a.begun| + 1 && t.begun[|a.begun|].id == id {
      BeginsNow(a, e.w, e.k, id, false);
    } else {
      QueuedBegins(t, id);
      BeginsAfter(a, e, id, false);
    }
    BeginsAfter(s, Tick(wait), id, false);
  }

  /** A held task that will be pushed again can begin again. */
  lemma HeldBegins(s: State, w: nat, id: nat)
    requires Owned(s) && AllFrom(s, ANY) && Enabled(s, Tick(0)) && HeldBy(s, w, id) && id in s.tasks
    requires WillPush(s, w) && SearchSucceeds(s, w)
    ensures CanBegin(s, id, false)
    decreases Ahead(s.workers[w])
  {
    hide Owned, InQueue, CanBegin, Representable, NextStep, Apply, WillPush, SearchSucceeds, AllFrom;
    NextStepIsEnabled(s, w);
    var e := NextStep(s, w);
    HolderGoesOn(s, w, id);
    OwnedStep(s, e);
    AllFromStep(s, e, ANY);
    if s.workers[w].Pushing? {
      QueuedBegins(Apply(s, e), id);
    } else {
      HeldBegins(Apply(s, e), w, id);
    }
    BeginsAfter(s, e, id, false);
  }

  /** The holder will not push the task again. */
  ghost predicate Fading(s: State, w: nat, id: nat) {
    id in s.tasks && HeldBy(s, w, id) && !WillPush(s, w)
  }

  lemma FadingDecide(s: State, w: nat, id: nat)
    requires Inv(s) && Fading(s, w, id) && Enabled(s, Decide(w))
    ensures Silent(Apply(s, Decide(w)), id) && Apply(s, Decide(w)).begun == s.begun
  {
    hide Representable, Logged, Conserved, InQueue, Held;
    HeldAfterMove(s.workers, w, AtCheck);
    var t := DecideStep(s, w);
    assert t.workers == s.workers[w := AtCheck];
    assert Has(s.workers[w], id) && !Has(AtCheck, id);
    assert !Held(t.workers, id);
    assert !InQueue(t.queue, id);
  }

  lemma FadingStep(s: State, e: Event, w: nat, id: nat)
    requires Inv(s) && Fading(s, w, id) && Enabled(s, e) && e != Decide(w)
    ensures Fading(Apply(s, e), w, id)
    ensures s.begun <= Apply(s, e).begun
    ensures forall k :: |s.begun| <= k < |Apply(s, e).begun| ==> Apply(s, e).begun[k].id != id
  {
    hide Representable, Logged, Conserved, Without, InQueue, NextDue, Build, Held, Spawn;
    if e.Take? && s.queue != [] {
      QueuedAt(s, e.k);
    }
    if e.Start? {
      Spawned(s.workers, s.nextWorker, e.threads);
    }
  }

  lemma {:induction false} FadingForever(s: State, es: seq<Event>, w: nat, id: nat)
    requires Inv(s) && Fading(s, w, id) && Possible(s, es)
    ensures s.begun <= Run(s, es).begun
    ensures forall k :: |s.begun| <= k < |Run(s, es).begun| ==> Run(s, es).begun[k].id != id
    decreases |es|
  {
    if es != [] {
      var t := Apply(s, es[0]);
      OwnedStep(s, es[0]);
      LoggedStep(s, es[0]);
      ConservedStep(s, es[0]);
      if es[0] == Decide(w) {
        FadingDecide(s, w, id);
        SilentForever(t, es[1..], id);
      } else {
        FadingStep(s, es[0], w, id);
        FadingForever(t, es[1..], w, id);
      }
      hide Apply, Enabled, Inv, Fading, Silent;
      forall k | |s.begun| <= k < |Run(s, es).begun| ensures Run(s, es).begun[k].id != id {
        if k < |t.begun| { assert t.begun[k] == Run(s, es).begun[k]; }
      }
    }
  }

  lemma CannotReturn(s: State, id: nat)
    requires Inv(s) && id in s.tasks && !Queued(s, id) && !CanReturn(s, id)
    ensures !CanBegin(s, id, true)
  {
    hide Inv, WillPush, InQueue, BeginsIn;
    if Held(s.workers, id) {
      var w :| w in s.workers && Holds(s.workers[w]) && s.workers[w].id == id;
      assert HeldBy(s, w, id) && Fading(s, w, id);
      forall es ensures !BeginsIn(s, es, id) {
        Unbegun(s, es, w, id);
      }
    } else {
      SilentCannotBegin(s, id, true);
    }
  }

  lemma Unbegun(s: State, es: seq<Event>, w: nat, id: nat)
    requires Inv(s) && Fading(s, w, id)
    ensures !BeginsIn(s, es, id)
  {
    if Possible(s, es) { FadingForever(s, es, w, id); }
  }

  /** Exactly which tasks can begin, in every reachable state, with or without further cancels: those that are queued
      and not cancelled, and those that a worker has and will push again, because it is rescheduling them already, or
      because they are periodic, their body runs, and the scheduler runs. */
  lemma CanBeginIff(s: State, id: nat, cancels: bool)
    requires Reachable(s) && Enabled(s, Tick(0)) && id in s.tasks
    ensures CanBegin(s, id, cancels) <==> (Queued(s, id) && !s.tasks[id].cancelled) || CanReturn(s, id)
  {
    hide Reachable, Representable, InQueue, CanBegin, AllFrom, Logged, Conserved;
    Invariant(s);
    ReachableFrom(s);
    if Queued(s, id) && !s.tasks[id].cancelled {
      QueuedBegins(s, id);
    } else if CanReturn(s, id) {
      var w :| HeldBy(s, w, id) && id in s.tasks && WillPush(s, w);
      var wait := WaitToSearch(s, w);
      HeldBegins(Apply(s, Tick(wait)), w, id);
      BeginsAfter(s, Tick(wait), id, false);
    } else if s.tasks[id].cancelled {
      SilentCannotBegin(s, id, true);
    } else {
      CannotReturn(s, id);
    }
    if CanBegin(s, id, false) { CancelsDoNotHurt(s, id); }
  }

  /** Stop does not cancel anything: when it has returned, a task can begin again if and only if it is queued and was
      not cancelled itself; it does not take further cancels to see it begin. */
  lemma BeginsAgainIff(s: State, id: nat, cancels: bool)
    requires Reachable(s) && Enabled(s, Tick(0)) && !s.running && !s.stopping && id in s.tasks
    ensures CanBegin(s, id, cancels) <==> Queued(s, id) && !s.tasks[id].cancelled
  {
    hide Reachable, Logged, Conserved, Representable, CanBegin, InQueue, WillPush;
    Invariant(s);
    CanBeginIff(s, id, cancels);
  }

  /** Which cancels come too late. A cancel that does not find the task changes nothing, and the task can begin again
      afterwards if and only if a worker has it and will push it again. */
  lemma MissedCancelIff(s: State, id: nat)
    requires Reachable(s) && Enabled(s, Cancel(id)) && id in s.tasks && !Queued(s, id)
    ensures Apply(s, Cancel(id)) == s
    ensures CanBegin(Apply(s, Cancel(id)), id, true) <==> CanReturn(s, id)
  {
    hide Reachable, Representable, InQueue, CanBegin, CanReturn;
    CanBeginIff(s, id, true);
  }

  /** In one case the run is short: a due task at the top is taken up by the first worker of the next start. */
  lemma StopKeepsTheQueue(s: State, k: nat)
    requires Reachable(s) && Enabled(s, Stopped) && Top(s.queue, k)
    requires s.queue[k].key <= s.now && !s.running && s.queue[k].id in s.tasks && !s.tasks[s.queue[k].id].cancelled
    ensures var es := [Stopped, Start(1), Check(s.nextWorker), Take(s.nextWorker, k)];
            Possible(s, es) && Run(s, es).begun == s.begun + [Begun(s.queue[k].id, s.queue[k].key, s.now)]
  {
    hide Reachable, Logged, Conserved, Representable, InQueue, Without, Build, NextDue;
    Invariant(s);
    var w := s.nextWorker;
    var a := Apply(s, Stopped);
    var b := Apply(a, Start(1));
    var c := Apply(b, Check(w));
    assert Enabled(c, Take(w, k));
    RunOfFour(s, Stopped, Start(1), Check(w), Take(w, k));
  }

  /** A cancel that does not find the task in the queue changes nothing. In particular a task that is running is not
      cancelled: when its body has finished, it can be computed a new due time and be queued again. */
  lemma CancelMissesARunningTask(s: State, id: nat, w: nat)
    requires Reachable(s) && Enabled(s, Cancel(id)) && HeldBy(s, w, id) && s.workers[w].Running?
    requires s.running && id in s.tasks && s.tasks[id].periodic && NextDue(s.tasks[id], s.offset, s.now).Some?
    ensures Apply(s, Cancel(id)) == s
    ensures var es := [Cancel(id), Finish(w), Decide(w), Compute(w), Requeue(w)];
            Possible(s, es) && Queued(Run(s, es), id) && id in Run(s, es).tasks && !Run(s, es).tasks[id].cancelled
  {
    Invariant(s);
    AfterTheBody(s, w);
    var es := [Cancel(id), Finish(w), Decide(w), Compute(w), Requeue(w)];
    assert es[1..] == [Finish(w), Decide(w), Compute(w), Requeue(w)];
  }

  lemma AfterTheBody(s: State, w: nat)
    requires Inv(s) && !s.crashed && Representable(s.now, s.offset)
    requires w in s.workers && s.workers[w].Running?
    requires var id := s.workers[w].id;
             id in s.tasks && s.running && s.tasks[id].periodic && NextDue(s.tasks[id], s.offset, s.now).Some?
    ensures var id := s.workers[w].id;
            var es := [Finish(w), Decide(w), Compute(w), Requeue(w)];
            Possible(s, es) && Queued(Run(s, es), id) && id in Run(s, es).tasks && !Run(s, es).tasks[id].cancelled
  {
    var id := s.workers[w].id;
    var a := Apply(s, Finish(w));
    var b := Apply(a, Decide(w));
    var c := Apply(b, Compute(w));
    var d := Apply(c, Requeue(w));
    assert d.queue[|c.queue|].id == id;
    RunOfFour(s, Finish(w), Decide(w), Compute(w), Requeue(w));
  }

  /** A run that submits one task and starts one worker, which is about to look for a task. */
  lemma UntilStarted(request: Request, offset: int, from: nat) returns (es: seq<Event>)
    requires Representable(from, offset) && Build(request, offset, from).Some?
    ensures Possible(Init(offset, from), es)
    ensures forall i :: 0 <= i < |es| && es[i].Allocate? ==> es[i].request == request
    ensures var task := Build(request, offset, from).value;
            Run(Init(offset, from), es) ==
              State(offset, from, 2, map[], map[1 := task], [Entry(1, task.due)], true, false, 1, map[0 := AtLock],
                false, [], {})
  {
    hide Build;
    var init := Init(offset, from);
    RunOfFour(init, Allocate(request), Prepare(1), Submit(1), Start(1));
    es := [Allocate(request), Prepare(1), Submit(1), Start(1)];
    var s := Run(init, es);
    Then(init, es, Check(0));
    es := es + [Check(0)];
    assert s.submissions == map[];
  }

  /** A run that ends with the worker in the body of the task. */
  lemma UntilTaken(request: Request, offset: int, from: nat, later: nat) returns (es: seq<Event>)
    requires Representable(from, offset) && Build(request, offset, from).Some?
    requires Build(request, offset, from).value.due <= later && from <= later
    ensures Possible(Init(offset, from), es)
    ensures forall i :: 0 <= i < |es| && es[i].Allocate? ==> es[i].request == request
    ensures var s := Run(Init(offset, from), es);
            s.offset == offset && s.now == later && s.running && !s.stopping && !s.crashed && s.queue == []
            && 0 in s.workers && s.workers[0] == Running(1)
            && 1 in s.tasks && s.tasks[1] == Build(request, offset, from).value
  {
    NotCancelledYet(request, offset, from);
    hide Build, Possible, Run, Representable;
    var init := Init(offset, from);
    es := UntilStarted(request, offset, from);
    LaterIsRepresentable(from, later - from, offset);
    Then(init, es, Tick(later - from));
    es := es + [Tick(later - from)];
    Then(init, es, Take(0, 0));
    es := es + [Take(0, 0)];
  }

  lemma NotCancelledYet(request: Request, offset: int, from: nat)
    requires Representable(from, offset) && Build(request, offset, from).Some?
    ensures !Build(request, offset, from).value.cancelled
  {
  }

  /** Such states are reached: a cancel while the only task runs misses it, and then an interval task can begin again
      and a one-time task cannot. */
  lemma ACancelMisses(request: Request, offset: int, from: nat)
    requires Representable(from, offset) && !request.OnCron?
    ensures exists s :: (
      Reachable(s) && Enabled(s, Cancel(1)) && 1 in s.tasks && !Queued(s, 1)
      && (CanBegin(Apply(s, Cancel(1)), 1, true) <==> request.Every?))
  {
    var task := Build(request, offset, from).value;
    var later := if task.due > from then task.due else from;
    var es := UntilTaken(request, offset, from, later);
    LaterIsRepresentable(from, later - from, offset);
    hide CanBegin, Possible, Run, Representable, InQueue;
    var s := Run(Init(offset, from), es);
    assert Reachable(s);
    Invariant(s);
    assert !Queued(s, 1) && HeldBy(s, 0, 1) by { if Queued(s, 1) { EmptyQueue(s.queue, 1); } }
    assert WillPush(s, 0) <==> request.Every?;
    assert forall w :: HeldBy(s, w, 1) ==> w == 0;
    MissedCancelIff(s, 1);
  }

  /** A task is dropped: an interval task whose body runs while the scheduler is told to stop. */
  lemma ATaskIsDropped(interval: int, offset: int, from: nat)
    requires Representable(from, offset)
    ensures exists s :: Reachable(s) && 1 in s.dropped
  {
    var request := Every(interval);
    var task := Build(request, offset, from).value;
    var later := if task.due > from then task.due else from;
    var init := Init(offset, from);
    var es := UntilTaken(request, offset, from, later);
    LaterIsRepresentable(from, later - from, offset);
    hide Possible, Run, Representable;
    var s := Run(init, es);
    var t := DroppedByStop(s);
    RunAppend(init, es, [Stop, Finish(0), Decide(0)]);
    assert Reachable(t);
  }

  lemma DroppedByStop(s: State) returns (t: State)
    requires Enabled(s, Tick(0)) && s.running && !s.stopping && 0 in s.workers && s.workers[0] == Running(1)
    requires 1 in s.tasks && s.tasks[1].periodic && !s.tasks[1].cancelled
    ensures var es := [Stop, Finish(0), Decide(0)];
            Possible(s, es) && Run(s, es) == t && 1 in t.dropped
  {
    hide Representable, InQueue;
    var a := Apply(s, Stop);
    var b := Apply(a, Finish(0));
    t := Apply(b, Decide(0));
    RunOfThree(s, Stop, Finish(0), Decide(0));
  }

  /** A task outlasts a stop: one that is not yet due when the only worker leaves. */
  lemma ATaskOutlastsStop(delay: int, offset: int, from: nat)
    requires Representable(from, offset) && delay > 0
    ensures exists s :: Reachable(s) && Enabled(s, Tick(0)) && !s.running && !s.stopping && Queued(s, 1)
  {
    var request := Once(delay);
    var init := Init(offset, from);
    var es := UntilStarted(request, offset, from);
    hide Possible, Run, Representable, InQueue, Without, Spawn, NextDue;
    Then(init, es, Stop);
    es := es + [Stop];
    var s := Run(init, es);
    Then(init, es, Take(0, 0));
    es := es + [Take(0, 0)];
    var t := Run(init, es);
    assert t == Move(s, 0, Parked);
    var u := LastWorkerLeaves(t);
    RunAppend(init, es, [Wake(0), Check(0), Stopped]);
    assert Reachable(u);
    QueuedAt(u, 0);
  }

  lemma LastWorkerLeaves(s: State) returns (t: State)
    requires Enabled(s, Tick(0)) && !s.running && s.stopping && s.workers == map[0 := Parked]
    ensures var es := [Wake(0), Check(0), Stopped];
            Possible(s, es) && Run(s, es) == t && t == s.(stopping := false, workers := map[])
  {
    hide Representable;
    var a := Apply(s, Wake(0));
    var b := Apply(a, Check(0));
    assert b.workers == map[0 := Exited];
    t := Apply(b, Stopped);
    RunOfThree(s, Wake(0), Check(0), Stopped);
  }
}
