/** What holds in every run of the task scheduler. */
module SchedulerTheorems {
  import opened CronExpression
  import opened SchedulerModel

  // ---------------------------------------------------------------- the log of started tasks

  /** Each new due time of such a task lies after the time at which it is computed. */
  predicate Advances(task: Task) {
    task.cron.Some? || task.interval > 0
  }

  /** A task that began before may begin again for this due time. */
  predicate Follows(earlier: Begun, due: int, task: Task) {
    && task.periodic && earlier.due <= due && (Advances(task) ==> earlier.due < due)
    && (task.cron.Some? ==> earlier.at < due)
    && (task.cron.None? && task.interval > 0 ==> earlier.at + task.interval <= due)
  }

  /** Nothing begins early. */
  ghost predicate Punctual(begun: seq<Begun>, tasks: map<nat, Task>, now: nat) {
    forall k :: 0 <= k < |begun| ==>
      begun[k].due <= begun[k].at <= now && begun[k].id in tasks && begun[k].due <= tasks[begun[k].id].due
  }

  ghost predicate Ordered(begun: seq<Begun>, tasks: map<nat, Task>)
    requires forall k :: 0 <= k < |begun| ==> begun[k].id in tasks
  {
    forall j, k :: 0 <= j < k < |begun| && begun[j].id == begun[k].id ==>
      Follows(begun[j], begun[k].due, tasks[begun[k].id])
  }

  /** What is queued again has moved on. */
  ghost predicate QueueFollows(begun: seq<Begun>, q: seq<Entry>, tasks: map<nat, Task>)
    requires forall k :: 0 <= k < |begun| ==> begun[k].id in tasks
  {
    forall k :: 0 <= k < |begun| && InQueue(q, begun[k].id) ==>
      Follows(begun[k], tasks[begun[k].id].due, tasks[begun[k].id])
  }

  ghost predicate WorkersFollow(begun: seq<Begun>, workers: map<nat, Worker>, tasks: map<nat, Task>)
    requires forall k :: 0 <= k < |begun| ==> begun[k].id in tasks
  {
    && (forall w :: w in workers && (workers[w].Computing? || workers[w].Pushing?) ==>
          workers[w].id in tasks && tasks[workers[w].id].periodic)
    && (forall w, k :: w in workers && workers[w].Pushing? && 0 <= k < |begun| && begun[k].id == workers[w].id ==>
          Follows(begun[k], tasks[begun[k].id].due, tasks[begun[k].id]))
  }

  ghost predicate Logged(s: State) {
    && Punctual(s.begun, s.tasks, s.now) && Ordered(s.begun, s.tasks)
    && QueueFollows(s.begun, s.queue, s.tasks) && WorkersFollow(s.begun, s.workers, s.tasks)
  }

  lemma LoggedTake(s: State, w: nat, k: nat)
    requires Owned(s) && Logged(s) && Enabled(s, Take(w, k))
    ensures Logged(TakeStep(s, w, k))
  {
    hide InQueue, Without, Representable, OneHolder;
    if s.queue != [] {
      forall id ensures InQueue(Without(s.queue, k), id) <==> InQueue(s.queue, id) && id != s.queue[k].id {
        WithoutMembers(s.queue, k, id);
      }
      QueuedAt(s, k);
    }
  }

  lemma LoggedPush(s: State, e: Event)
    requires Owned(s) && Logged(s) && Enabled(s, e) && (e.Submit? || e.Requeue?)
    ensures Logged(Apply(s, e))
  {
    hide InQueue, QueueIsOwner, Representable, OneHolder;
    var id := if e.Submit? then e.id else s.workers[e.w].id;
    var t := Apply(s, e);
    forall i ensures InQueue(t.queue, i) <==> InQueue(s.queue, i) || i == id {
      PushedMembers(s.queue, Entry(id, t.tasks[id].due), i);
    }
  }

  lemma LoggedWrite(s: State, e: Event)
    requires Owned(s) && Logged(s) && Enabled(s, e) && (e.Cancel? || e.Compute?)
    ensures Logged(Apply(s, e))
  {
    hide InQueue, QueueIsOwner, Representable, CancelStep, ComputeStep;
    if e.Cancel? { LoggedCancel(s, e.id); } else { LoggedCompute(s, e.w); }
  }

  lemma LoggedCancel(s: State, id: nat)
    requires Owned(s) && Logged(s)
    ensures Logged(CancelStep(s, id))
  {
    hide InQueue, QueueIsOwner, OneHolder, WorkersAreOwners;
  }

  lemma LoggedCompute(s: State, w: nat)
    requires Owned(s) && Logged(s) && Enabled(s, Compute(w))
    ensures Logged(ComputeStep(s, w))
  {
    hide InQueue, QueueIsOwner, Representable;
  }

  lemma LoggedStep(s: State, e: Event)
    requires Owned(s) && Logged(s) && Enabled(s, e)
    ensures Logged(Apply(s, e))
  {
    hide InQueue, QueueIsOwner, OneHolder, Representable, TakeStep, SubmitStep, RequeueStep, CancelStep, ComputeStep;
    match e
    case Take(w, k) => LoggedTake(s, w, k);
    case Submit(_) => LoggedPush(s, e);
    case Requeue(_) => LoggedPush(s, e);
    case Cancel(_) => LoggedWrite(s, e);
    case Compute(_) => LoggedWrite(s, e);
    case _ => LoggedOther(s, e);
  }

  lemma FollowAfterMove(begun: seq<Begun>, workers: map<nat, Worker>, tasks: map<nat, Task>, w: nat, pc: Worker)
    requires forall k :: 0 <= k < |begun| ==> begun[k].id in tasks
    requires WorkersFollow(begun, workers, tasks)
    requires !pc.Pushing? && (pc.Computing? ==> pc.id in tasks && tasks[pc.id].periodic)
    ensures WorkersFollow(begun, workers[w := pc], tasks)
  {
  }

  lemma FollowAfterSpawn(begun: seq<Begun>, workers: map<nat, Worker>, tasks: map<nat, Task>, first: nat, threads: nat)
    requires forall k :: 0 <= k < |begun| ==> begun[k].id in tasks
    requires WorkersFollow(begun, workers, tasks)
    ensures WorkersFollow(begun, Spawn(workers, first, threads), tasks)
  {
    Spawned(workers, first, threads);
  }

  lemma LaterIsPunctual(begun: seq<Begun>, tasks: map<nat, Task>, now: nat, later: nat)
    requires Punctual(begun, tasks, now) && now <= later
    ensures Punctual(begun, tasks, later)
  {
  }

  /** Steps that neither begin a task nor change a record or the queue. */
  lemma LoggedOther(s: State, e: Event)
    requires Owned(s) && Logged(s) && Enabled(s, e)
    requires !e.Take? && !e.Submit? && !e.Requeue? && !e.Cancel? && !e.Compute?
    ensures Logged(Apply(s, e))
  {
    BegunAreKnown(s);
    hide InQueue, Owned, Representable, Spawn, Punctual, Ordered, QueueFollows, WorkersFollow, Build;
    var t := Apply(s, e);
    if e.Start? && !s.running {
      FollowAfterSpawn(s.begun, s.workers, s.tasks, s.nextWorker, e.threads);
    } else if e.Tick? {
      LaterIsPunctual(s.begun, s.tasks, s.now, t.now);
    } else if e.Stopped? {
      FollowNobody(s);
    } else if e.Check? || e.Wake? || e.Finish? || e.Decide? {
      FollowAfterMove(s.begun, s.workers, s.tasks, e.w, t.workers[e.w]);
    }
  }

  lemma BegunAreKnown(s: State)
    requires Punctual(s.begun, s.tasks, s.now)
    ensures forall k :: 0 <= k < |s.begun| ==> s.begun[k].id in s.tasks
  {
  }

  lemma FollowNobody(s: State)
    requires forall k :: 0 <= k < |s.begun| ==> s.begun[k].id in s.tasks
    ensures WorkersFollow(s.begun, map[], s.tasks)
  {
  }

  // ---------------------------------------------------------------- nothing else is lost

  predicate HasBegun(begun: seq<Begun>, id: nat) {
    exists k :: 0 <= k < |begun| && begun[k].id == id
  }

  ghost predicate Held(workers: map<nat, Worker>, id: nat) {
    exists w :: w in workers && Holds(workers[w]) && workers[w].id == id
  }

  /** The only ways for a task to leave the scheduler: it is cancelled, it was to run once and began, or it was running
      when the scheduler stopped. */
  ghost predicate Left(s: State, id: nat)
    requires id in s.tasks
  {
    s.tasks[id].cancelled || (!s.tasks[id].periodic && HasBegun(s.begun, id)) || id in s.dropped
  }

  ghost predicate Conserved(s: State) {
    && (forall id :: id in s.tasks ==> InQueue(s.queue, id) || Held(s.workers, id) || Left(s, id))
    && (forall w :: w in s.workers && Holds(s.workers[w]) ==> HasBegun(s.begun, s.workers[w].id))
    && (forall id :: id in s.dropped ==> id in s.tasks && !InQueue(s.queue, id) && !Held(s.workers, id))
  }

  /** The worker has the task. */
  predicate Has(pc: Worker, id: nat) {
    Holds(pc) && pc.id == id
  }

  /** What moving one worker does to the held ids. */
  lemma HeldAfterMove(workers: map<nat, Worker>, w: nat, pc: Worker)
    requires OneHolder(workers) && w in workers
    ensures forall id :: Held(workers[w := pc], id) <==> (Held(workers, id) && !Has(workers[w], id)) || Has(pc, id)
  {
    var moved := workers[w := pc];
    forall id ensures Held(moved, id) <==> (Held(workers, id) && !Has(workers[w], id)) || Has(pc, id) {
      if Held(workers, id) && !Has(workers[w], id) {
        var v :| v in workers && Holds(workers[v]) && workers[v].id == id;
        assert v in moved && moved[v] == workers[v];
      }
      if Has(pc, id) { assert moved[w] == pc; }
      if Held(moved, id) && !Has(pc, id) {
        var v :| v in moved && Holds(moved[v]) && moved[v].id == id;
        assert v in workers && workers[v] == moved[v];
      }
    }
  }

  lemma HeldAfterSpawn(workers: map<nat, Worker>, first: nat, threads: nat)
    requires forall w :: w in workers ==> w < first
    ensures forall id :: Held(Spawn(workers, first, threads), id) <==> Held(workers, id)
  {
    var all := Spawn(workers, first, threads);
    Spawned(workers, first, threads);
    forall id ensures Held(all, id) <==> Held(workers, id) {
      if Held(workers, id) {
        var v :| v in workers && Holds(workers[v]) && workers[v].id == id;
        assert v in all && all[v] == workers[v];
      }
    }
  }

  lemma BegunGrows(begun: seq<Begun>, b: Begun)
    ensures forall id :: HasBegun(begun + [b], id) <==> HasBegun(begun, id) || id == b.id
  {
    assert (begun + [b])[|begun|] == b;
    forall id ensures HasBegun(begun + [b], id) <==> HasBegun(begun, id) || id == b.id {
      if HasBegun(begun, id) {
        var k :| 0 <= k < |begun| && begun[k].id == id;
        assert (begun + [b])[k] == begun[k];
      }
    }
  }

  lemma ConservedTake(s: State, w: nat, k: nat)
    requires Owned(s) && Conserved(s) && Enabled(s, Take(w, k))
    ensures Conserved(TakeStep(s, w, k))
  {
    hide InQueue, Without, Representable, OneHolder, Held, HasBegun;
    var t := TakeStep(s, w, k);
    HeldAfterMove(s.workers, w, t.workers[w]);
    assert t.workers == s.workers[w := t.workers[w]];
    if s.queue != [] {
      QueuedAt(s, k);
      BegunGrows(s.begun, Begun(s.queue[k].id, s.tasks[s.queue[k].id].due, s.now));
    }
    forall id | id in t.tasks ensures InQueue(t.queue, id) || Held(t.workers, id) || Left(t, id) {
      assert InQueue(s.queue, id) || Held(s.workers, id) || Left(s, id);
      if s.queue != [] {
        WithoutMembers(s.queue, k, id);
        assert HasBegun(s.begun, id) ==> HasBegun(t.begun, id);
        assert id == s.queue[k].id && t.workers[w].Running? ==> Has(t.workers[w], id);
      }
    }
    forall id | id in t.dropped ensures !InQueue(t.queue, id) && !Held(t.workers, id) {
      if s.queue != [] { WithoutMembers(s.queue, k, id); }
    }
  }

  lemma ConservedPush(s: State, e: Event)
    requires Owned(s) && Conserved(s) && Enabled(s, e) && (e.Submit? || e.Requeue?)
    ensures Conserved(Apply(s, e))
  {
    hide InQueue, QueueIsOwner, Representable, OneHolder, Held, HasBegun;
    var id := if e.Submit? then e.id else s.workers[e.w].id;
    var t := Apply(s, e);
    if e.Requeue? {
      HeldAfterMove(s.workers, e.w, AtCheck);
      HeldAt(s.workers, e.w);
    }
    forall i ensures InQueue(t.queue, i) <==> InQueue(s.queue, i) || i == id {
      PushedMembers(s.queue, Entry(id, t.tasks[id].due), i);
    }
  }

  lemma HeldAt(workers: map<nat, Worker>, w: nat)
    requires w in workers && Holds(workers[w])
    ensures Held(workers, workers[w].id)
  {
  }

  /** Steps that move one worker and leave the queue alone. */
  lemma ConservedMove(s: State, e: Event)
    requires Owned(s) && Conserved(s) && Enabled(s, e)
    requires e.Check? || e.Wake? || e.Finish? || e.Decide? || e.Compute?
    ensures Conserved(Apply(s, e))
  {
    hide InQueue, QueueIsOwner, Representable, OneHolder, Held, HasBegun;
    HeldAfterMove(s.workers, e.w, Apply(s, e).workers[e.w]);
    if Holds(s.workers[e.w]) { HeldAt(s.workers, e.w); }
  }

  lemma ConservedStopped(s: State)
    requires Conserved(s) && Enabled(s, Stopped)
    ensures Conserved(Apply(s, Stopped))
  {
    hide InQueue, HasBegun;
    assert forall id :: !Held(s.workers, id);
  }

  lemma ConservedStep(s: State, e: Event)
    requires Owned(s) && Conserved(s) && Enabled(s, e)
    ensures Conserved(Apply(s, e))
  {
    hide InQueue, QueueIsOwner, OneHolder, Representable, Held, HasBegun, TakeStep, SubmitStep, RequeueStep,
        DecideStep, ComputeStep;
    match e
    case Take(w, k) => ConservedTake(s, w, k);
    case Submit(_) => ConservedPush(s, e);
    case Requeue(_) => ConservedPush(s, e);
    case Start(threads) =>
      Spawned(s.workers, s.nextWorker, threads);
      HeldAfterSpawn(s.workers, s.nextWorker, threads);
    case Stopped => ConservedStopped(s);
    case Tick(_) =>
    case Allocate(_) =>
    case Prepare(_) =>
    case Cancel(_) =>
    case Stop =>
    case _ => ConservedMove(s, e);
  }

  // ---------------------------------------------------------------- runs

  ghost predicate Inv(s: State) {
    Owned(s) && Logged(s) && Conserved(s)
  }

  /** Every reachable state. */
  ghost predicate Reachable(s: State) {
    exists offset, now, es :: Possible(Init(offset, now), es) && Run(Init(offset, now), es) == s
  }

  lemma {:induction false} RunKeeps(s: State, es: seq<Event>)
    requires Inv(s) && Possible(s, es)
    ensures Inv(Run(s, es))
    decreases |es|
  {
    if es != [] {
      OwnedStep(s, es[0]);
      LoggedStep(s, es[0]);
      ConservedStep(s, es[0]);
      RunKeeps(Apply(s, es[0]), es[1..]);
    }
  }

  lemma Invariant(s: State)
    requires Reachable(s)
    ensures Inv(s)
  {
    var offset, now, es :| Possible(Init(offset, now), es) && Run(Init(offset, now), es) == s;
    RunKeeps(Init(offset, now), es);
  }

  /** In every interleaving each task is in at most one place, so it never overlaps itself: never queued twice, never
      queued while a worker has it, never with two workers, and in neither place while it is being scheduled. */
  lemma OnePlace(s: State, id: nat)
    requires Reachable(s)
    ensures forall i, j ::
      0 <= i < |s.queue| && 0 <= j < |s.queue| && s.queue[i].id == id && s.queue[j].id == id ==> i == j
    ensures forall v :: HeldBy(s, v, id) ==> !Queued(s, id)
    ensures forall v, w :: HeldBy(s, v, id) && HeldBy(s, w, id) ==> v == w
    ensures id in s.submissions ==> !Queued(s, id) && forall v :: !HeldBy(s, v, id)
  {
    hide Logged, Conserved, Representable, Reachable;
    Invariant(s);
  }

  /** A task scheduled once begins at most once, and one that begins again does so for a due time that is not earlier,
      and later when it is a cron task or has a positive interval. */
  lemma BeginsInOrder(s: State, j: nat, k: nat)
    requires Reachable(s) && j < k < |s.begun| && s.begun[j].id == s.begun[k].id
    ensures s.begun[k].id in s.tasks
    ensures var task := s.tasks[s.begun[k].id];
            task.periodic && s.begun[j].due <= s.begun[k].due
            && (task.cron.Some? || task.interval > 0 ==> s.begun[j].due < s.begun[k].due)
  {
    Invariant(s);
  }

  /** An interval counts from the begin of a task at the earliest: it is not due again, and does not begin again, before
      its interval has passed since it began. A cron task is due again only after it began. */
  lemma BeginsSpaced(s: State, j: nat, k: nat)
    requires Reachable(s) && j < k < |s.begun| && s.begun[j].id == s.begun[k].id
    ensures s.begun[k].id in s.tasks
    ensures var task := s.tasks[s.begun[k].id];
            (task.cron.None? && task.interval > 0 ==>
              s.begun[k].due >= s.begun[j].at + task.interval && s.begun[k].at >= s.begun[j].at + task.interval)
            && (task.cron.Some? ==> s.begun[k].at >= s.begun[k].due > s.begun[j].at)
  {
    Invariant(s);
  }

  /** Nothing begins before it is due. */
  lemma NeverEarly(s: State, k: nat)
    requires Reachable(s) && k < |s.begun|
    ensures s.begun[k].due <= s.begun[k].at <= s.now
  {
    Invariant(s);
  }

  /** The due time of a queued task does not change, and it is the one that the heap has seen. */
  lemma QueuedDueIsFixed(s: State, e: Event, id: nat)
    requires Reachable(s) && Enabled(s, e) && Queued(s, id)
    ensures id in s.tasks && id in Apply(s, e).tasks && Apply(s, e).tasks[id].due == s.tasks[id].due
    ensures forall i :: 0 <= i < |s.queue| && s.queue[i].id == id ==> s.queue[i].key == s.tasks[id].due
  {
    hide Logged, Conserved, Representable, Reachable;
    Invariant(s);
  }

  /** So the heap order is never stale: the entry that a worker takes has the least due time of all queued tasks. */
  lemma TakesTheEarliest(s: State, w: nat, k: nat, i: nat)
    requires Reachable(s) && Enabled(s, Take(w, k)) && i < |s.queue|
    ensures s.queue[k].id in s.tasks && s.queue[i].id in s.tasks
    ensures s.tasks[s.queue[k].id].due <= s.tasks[s.queue[i].id].due
  {
    hide Logged, Conserved, Representable, Reachable;
    Invariant(s);
  }

  /** The unlocked accesses do not race: a record changes only by a cancel of a queued task, under the lock, or by the
      one worker that holds it, while it is not queued. */
  lemma WhoWrites(s: State, e: Event, id: nat)
    requires Reachable(s) && Enabled(s, e) && id in s.tasks && Apply(s, e).tasks[id] != s.tasks[id]
    ensures (e == Cancel(id) && Queued(s, id) && forall w :: !HeldBy(s, w, id))
         || (e.Compute? && HeldBy(s, e.w, id) && !Queued(s, id) && forall w :: HeldBy(s, w, id) ==> w == e.w)
  {
    hide Logged, Conserved, Representable, Reachable;
    Invariant(s);
  }

  /** No task gets lost: a submitted one is queued or with a worker, unless it left in one of three ways. */
  lemma NothingIsLost(s: State, id: nat)
    requires Reachable(s) && id in s.tasks
    ensures Queued(s, id) || (exists w :: HeldBy(s, w, id)) || Left(s, id)
  {
    Invariant(s);
    if Held(s.workers, id) {
      var w :| w in s.workers && Holds(s.workers[w]) && s.workers[w].id == id;
      assert HeldBy(s, w, id);
    }
  }

  // ---------------------------------------------------------------- cancelled and dropped tasks

  /** The task is known and will not begin: it is cancelled, or nobody has it. */
  ghost predicate Silent(s: State, id: nat) {
    id in s.tasks && (s.tasks[id].cancelled || (!InQueue(s.queue, id) && !Held(s.workers, id)))
  }

  lemma SilentStep(s: State, e: Event, id: nat)
    requires Inv(s) && Silent(s, id) && Enabled(s, e)
    ensures Silent(Apply(s, e), id)
    ensures s.begun <= Apply(s, e).begun
    ensures forall k :: |s.begun| <= k < |Apply(s, e).begun| ==> Apply(s, e).begun[k].id != id
  {
    hide Representable, Held, HasBegun, OneHolder, Logged, Conserved, InQueue, WorkersAreOwners;
    assert WorkersAreOwners(s.workers, s.queue, s.tasks);
    var t := Apply(s, e);
    match e
    case Take(w, k) =>
      HeldAfterMove(s.workers, w, t.workers[w]);
      if s.queue != [] {
        QueuedAt(s, k);
        WithoutMembers(s.queue, k, id);
      }
    case Submit(i) => PushedMembers(s.queue, Entry(i, t.tasks[i].due), id);
    case Requeue(w) =>
      HeldAt(s.workers, w);
      HeldAfterMove(s.workers, w, AtCheck);
      PushedMembers(s.queue, Entry(s.workers[w].id, t.tasks[s.workers[w].id].due), id);
    case Start(threads) => HeldAfterSpawn(s.workers, s.nextWorker, threads);
    case Stopped => NoneHeld();
    case Tick(_) =>
    case Allocate(_) =>
    case Prepare(_) =>
    case Cancel(_) =>
    case Stop =>
    case _ => SilentMove(s, e, id);
  }

  lemma SilentMove(s: State, e: Event, id: nat)
    requires Inv(s) && Silent(s, id) && Enabled(s, e)
    requires e.Check? || e.Wake? || e.Finish? || e.Decide? || e.Compute?
    ensures Silent(Apply(s, e), id) && Apply(s, e).begun == s.begun
  {
    hide Representable, Held, HasBegun, OneHolder, Logged, Conserved, InQueue;
    if Holds(s.workers[e.w]) { HeldAt(s.workers, e.w); }
    HeldAfterMove(s.workers, e.w, Apply(s, e).workers[e.w]);
  }

  lemma NoneHeld()
    ensures forall id :: !Held(map[], id)
  {
  }

  lemma {:induction false} SilentForever(s: State, es: seq<Event>, id: nat)
    requires Inv(s) && Silent(s, id) && Possible(s, es)
    ensures Silent(Run(s, es), id)
    ensures forall k :: |s.begun| <= k < |Run(s, es).begun| ==> Run(s, es).begun[k].id != id
    ensures |s.begun| <= |Run(s, es).begun|
    ensures s.begun <= Run(s, es).begun
    decreases |es|
  {
    if es != [] {
      var t := Apply(s, es[0]);
      OwnedStep(s, es[0]);
      LoggedStep(s, es[0]);
      ConservedStep(s, es[0]);
      SilentStep(s, es[0], id);
      SilentForever(t, es[1..], id);
      forall k | |s.begun| <= k < |Run(s, es).begun| ensures Run(s, es).begun[k].id != id {
        if k < |t.begun| { assert t.begun[k] == Run(s, es).begun[k]; }
      }
    }
  }

  /** Cancel is final: when it finds the task in the queue, the task does not begin in any continuation. */
  lemma CancelIsFinal(s: State, id: nat, es: seq<Event>)
    requires Reachable(s) && Enabled(s, Cancel(id)) && Queued(s, id)
    requires Possible(Apply(s, Cancel(id)), es)
    ensures forall k :: |s.begun| <= k < |Run(Apply(s, Cancel(id)), es).begun| ==>
      Run(Apply(s, Cancel(id)), es).begun[k].id != id
  {
    Invariant(s);
    OwnedStep(s, Cancel(id));
    LoggedStep(s, Cancel(id));
    ConservedStep(s, Cancel(id));
    SilentForever(Apply(s, Cancel(id)), es, id);
  }

  /** A periodic task that was running when the scheduler stopped never begins again, even after a new start. */
  lemma DroppedNeverReturns(s: State, id: nat, es: seq<Event>)
    requires Reachable(s) && id in s.dropped && Possible(s, es)
    ensures forall k :: |s.begun| <= k < |Run(s, es).begun| ==> Run(s, es).begun[k].id != id
  {
    Invariant(s);
    SilentForever(s, es, id);
  }

  // ---------------------------------------------------------------- start and stop

  /** When stop has returned there are no workers left, and no task begins until the next start. */
  lemma {:induction false} QuietAfterStop(s: State, es: seq<Event>)
    requires Inv(s) && !s.running && !s.stopping && Possible(s, es)
    requires forall i :: 0 <= i < |es| ==> !es[i].Start?
    ensures Run(s, es).workers == map[] && Run(s, es).begun == s.begun && !Run(s, es).running
    decreases |es|
  {
    if es != [] {
      OwnedStep(s, es[0]);
      LoggedStep(s, es[0]);
      ConservedStep(s, es[0]);
      QuietAfterStop(Apply(s, es[0]), es[1..]);
    }
  }

  // ---------------------------------------------------------------- single steps

  /** The number of steps that a worker can still take once the scheduler is not running. */
  function Remaining(pc: Worker): nat {
    match pc
    case Exited => 0
    case AtCheck => 1
    case Parked => 2
    case Pushing(_) => 2
    case Deciding(_) => 2
    case Computing(_) => 3
    case Running(_) => 3
    case AtLock => 4
  }

  lemma TakeEffect(s: State, w: nat, k: nat)
    requires Enabled(s, Take(w, k))
    ensures var t := TakeStep(s, w, k);
            t.tasks == s.tasks && t.submissions == s.submissions && t.crashed == s.crashed && t.running == s.running
            && w in t.workers && t.workers == s.workers[w := t.workers[w]] && Remaining(t.workers[w]) < 4
  {
    hide Representable, Without, InQueue;
  }

  lemma LaterIsRepresentable(now: nat, wait: nat, offset: int)
    requires Representable(now, offset)
    ensures Representable(now + wait, offset)
  {
  }
}
