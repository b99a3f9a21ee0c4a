/** The task scheduler as a transition system: each event is one atomic step of a caller or of a worker thread, that
    is, a section run under the lock or one unlocked access to shared data. Any interleaving is a sequence of enabled
    events. */
module SchedulerModel {
  import opened Wrappers
  import opened CronExpression

  /** Clock ticks in a millisecond. */
  const MILLISECOND: int := 1_000_000

  /** The record shared between the callers, the queue and the workers; due is its next_execution. */
  datatype Task = Task(due: int, cron: Option<Cron>, interval: int, periodic: bool, cancelled: bool)

  /** What a caller asks for. A malformed expression has no parsed form; delays and intervals are in milliseconds. */
  datatype Request = OnCron(parsed: Option<Cron>) | Once(delay: int) | Every(interval: int)

  /** A schedule call under way: its id is taken, then its record is built, then the record is pushed. */
  datatype Submission = Allocated(request: Request) | Ready(task: Task)

  /** Where a worker thread is in workerLoop. */
  datatype Worker =
    | AtCheck | AtLock | Parked | Exited
    | Running(id: nat) | Deciding(id: nat) | Computing(id: nat) | Pushing(id: nat)

  /** A queue entry. The heap orders entries by the due times that it saw when they were pushed. */
  datatype Entry = Entry(id: nat, key: int)

  /** A task body began: which task, for which due time, and when. */
  datatype Begun = Begun(id: nat, due: int, at: int)

  datatype State = State(
    offset: int, now: nat,
    nextId: nat, submissions: map<nat, Submission>,
    tasks: map<nat, Task>, queue: seq<Entry>,
    running: bool, stopping: bool, nextWorker: nat, workers: map<nat, Worker>,
    crashed: bool,
    begun: seq<Begun>, dropped: set<nat>)

  datatype Event =
    | Tick(ticks: nat)
    | Allocate(request: Request) | Prepare(id: nat) | Submit(id: nat)
    | Cancel(id: nat)
    | Start(threads: nat) | Stop | Stopped
    | Check(w: nat) | Take(w: nat, k: nat) | Wake(w: nat)
    | Finish(w: nat) | Decide(w: nat) | Compute(w: nat) | Requeue(w: nat)

  predicate Holds(pc: Worker) {
    pc.Running? || pc.Deciding? || pc.Computing? || pc.Pushing?
  }

  predicate InQueue(q: seq<Entry>, id: nat) {
    exists i :: 0 <= i < |q| && q[i].id == id
  }

  predicate Queued(s: State, id: nat) {
    InQueue(s.queue, id)
  }

  predicate HeldBy(s: State, w: nat, id: nat) {
    w in s.workers && Holds(s.workers[w]) && s.workers[w].id == id
  }

  function Init(offset: int, now: nat): State {
    State(offset, now, 1, map[], map[], [], false, false, 0, map[], false, [], {})
  }

  // ---------------------------------------------------------------- steps of callers

  /** Builds the record; None stands for the exception that a malformed or failing cron expression throws. */
  function Build(request: Request, offset: int, now: nat): Option<Task>
    requires Representable(now, offset)
  {
    match request
    case Once(delay) => Some(Task(now + delay * MILLISECOND, None, 0, false, false))
    case Every(interval) => Some(Task(now + interval * MILLISECOND, None, interval * MILLISECOND, true, false))
    case OnCron(parsed) =>
      if parsed.None? then None else
        match NextTime(parsed.value, offset, now)
        case None => None
        case Some(due) => Some(Task(due, parsed, 0, true, false))
  }

  function AllocateStep(s: State, request: Request): State {
    s.(nextId := s.nextId + 1, submissions := s.submissions[s.nextId := Allocated(request)])
  }

  function PrepareStep(s: State, id: nat): State
    requires Representable(s.now, s.offset) && id in s.submissions && s.submissions[id].Allocated?
  {
    match Build(s.submissions[id].request, s.offset, s.now)
    case None => s.(submissions := s.submissions - {id})
    case Some(task) => s.(submissions := s.submissions[id := Ready(task)])
  }

  function SubmitStep(s: State, id: nat): State
    requires id in s.submissions && s.submissions[id].Ready?
  {
    var task := s.submissions[id].task;
    s.(submissions := s.submissions - {id}, tasks := s.tasks[id := task], queue := s.queue + [Entry(id, task.due)])
  }

  /** Marks the record of a queued task. */
  function CancelStep(s: State, id: nat): State {
    if Queued(s, id) && id in s.tasks then s.(tasks := s.tasks[id := s.tasks[id].(cancelled := true)]) else s
  }

  /** The threads that start creates. */
  function Spawn(workers: map<nat, Worker>, first: nat, threads: nat): map<nat, Worker>
    decreases threads
  {
    if threads == 0 then workers else Spawn(workers, first, threads - 1)[first + threads - 1 := AtCheck]
  }

  lemma {:induction false} Spawned(workers: map<nat, Worker>, first: nat, threads: nat)
    ensures var r := Spawn(workers, first, threads);
            forall w :: (w in r <==> w in workers || first <= w < first + threads)
              && (w in r ==> r[w] == if first <= w < first + threads then AtCheck else workers[w])
    decreases threads
  {
    if threads > 0 { Spawned(workers, first, threads - 1); }
  }

  function StartStep(s: State, threads: nat): State {
    if s.running then s
    else s.(running := true, nextWorker := s.nextWorker + threads,
            workers := Spawn(s.workers, s.nextWorker, threads))
  }

  function StopStep(s: State): State {
    if !s.running then s else s.(running := false, stopping := true)
  }

  // ---------------------------------------------------------------- steps of workers

  function Move(s: State, w: nat, pc: Worker): State {
    s.(workers := s.workers[w := pc])
  }

  /** Entry k may be the top of the heap. */
  predicate Top(q: seq<Entry>, k: nat) {
    k < |q| && forall i :: 0 <= i < |q| ==> q[k].key <= q[i].key
  }

  /** An entry with the least key, as the priority queue gives it. */
  function TopOf(q: seq<Entry>): (k: nat)
    requires q != []
    ensures Top(q, k)
  {
    if |q| == 1 then 0 else
      var k := TopOf(q[1..]) + 1;
      assert q[k] == q[1..][k - 1];
      assert forall i :: 1 <= i < |q| ==> q[i] == q[1..][i - 1];
      if q[0].key <= q[k].key then 0 else k
  }

  function Without(q: seq<Entry>, k: nat): seq<Entry>
    requires k < |q|
  {
    q[..k] + q[k + 1..]
  }

  /** The locked section at the head of the loop. */
  function TakeStep(s: State, w: nat, k: nat): State
    requires s.queue != [] ==> Top(s.queue, k) && s.queue[k].id in s.tasks
  {
    if s.queue == [] then Move(s, w, Parked) else
      var id := s.queue[k].id;
      var task := s.tasks[id];
      if task.cancelled then Move(s, w, AtCheck).(queue := Without(s.queue, k))
      else if task.due <= s.now then
        Move(s, w, Running(id)).(queue := Without(s.queue, k), begun := s.begun + [Begun(id, task.due, s.now)])
      else Move(s, w, Parked)
  }

  function DecideStep(s: State, w: nat): State
    requires w in s.workers && s.workers[w].Deciding? && s.workers[w].id in s.tasks
  {
    var id := s.workers[w].id;
    var task := s.tasks[id];
    if task.periodic && !task.cancelled && s.running then Move(s, w, Computing(id))
    else Move(s, w, AtCheck).(dropped := if task.periodic && !task.cancelled then s.dropped + {id} else s.dropped)
  }

  /** The next due time of a periodic task, computed without the lock; None when the cron search throws. */
  function NextDue(task: Task, offset: int, now: nat): Option<int>
    requires Representable(now, offset)
  {
    match task.cron
    case Some(c) => (match NextTime(c, offset, now) case None => None case Some(due) => Some(due))
    case None => Some(if task.interval > 0 then now + task.interval else task.due)
  }

  /** A failing search inside a worker is not caught and ends the process. */
  function ComputeStep(s: State, w: nat): State
    requires w in s.workers && s.workers[w].Computing? && s.workers[w].id in s.tasks
    requires Representable(s.now, s.offset)
  {
    var id := s.workers[w].id;
    match NextDue(s.tasks[id], s.offset, s.now)
    case None => s.(crashed := true)
    case Some(due) => Move(s, w, Pushing(id)).(tasks := s.tasks[id := s.tasks[id].(due := due)])
  }

  function RequeueStep(s: State, w: nat): State
    requires w in s.workers && s.workers[w].Pushing? && s.workers[w].id in s.tasks
  {
    var id := s.workers[w].id;
    Move(s, w, AtCheck).(queue := s.queue + [Entry(id, s.tasks[id].due)])
  }

  // ---------------------------------------------------------------- runs

  /** The events that can happen next. Calls of start and stop do not overlap. */
  predicate Enabled(s: State, e: Event) {
    !s.crashed && Representable(s.now, s.offset) &&
    match e
    case Tick(_) => true
    case Allocate(_) => true
    case Prepare(id) => id in s.submissions && s.submissions[id].Allocated?
    case Submit(id) => id in s.submissions && s.submissions[id].Ready?
    case Cancel(_) => true
    case Start(_) => !s.stopping
    case Stop => !s.stopping
    case Stopped => s.stopping && forall w :: w in s.workers ==> s.workers[w] == Exited
    case Check(w) => w in s.workers && s.workers[w] == AtCheck
    case Take(w, k) => w in s.workers && s.workers[w] == AtLock
                       && (s.queue != [] ==> Top(s.queue, k) && s.queue[k].id in s.tasks)
    case Wake(w) => w in s.workers && s.workers[w] == Parked
    case Finish(w) => w in s.workers && s.workers[w].Running?
    case Decide(w) => w in s.workers && s.workers[w].Deciding? && s.workers[w].id in s.tasks
    case Compute(w) => w in s.workers && s.workers[w].Computing? && s.workers[w].id in s.tasks
    case Requeue(w) => w in s.workers && s.workers[w].Pushing? && s.workers[w].id in s.tasks
  }

  function Apply(s: State, e: Event): State
    requires Enabled(s, e)
  {
    match e
    case Tick(d) => s.(now := s.now + d)
    case Allocate(request) => AllocateStep(s, request)
    case Prepare(id) => PrepareStep(s, id)
    case Submit(id) => SubmitStep(s, id)
    case Cancel(id) => CancelStep(s, id)
    case Start(threads) => StartStep(s, threads)
    case Stop => StopStep(s)
    case Stopped => s.(stopping := false, workers := map[])
    case Check(w) => Move(s, w, if s.running then AtLock else Exited)
    case Take(w, k) => TakeStep(s, w, k)
    case Wake(w) => Move(s, w, AtCheck)
    case Finish(w) => Move(s, w, Deciding(s.workers[w].id))
    case Decide(w) => DecideStep(s, w)
    case Compute(w) => ComputeStep(s, w)
    case Requeue(w) => RequeueStep(s, w)
  }

  /** Every event of es is enabled in its turn. */
  predicate Possible(s: State, es: seq<Event>)
    decreases |es|
  {
    es == [] || (Enabled(s, es[0]) && Possible(Apply(s, es[0]), es[1..]))
  }

  function Run(s: State, es: seq<Event>): State
    requires Possible(s, es)
    decreases |es|
  {
    if es == [] then s else Run(Apply(s, es[0]), es[1..])
  }

  /** One more step at the end of a run. */
  lemma {:induction false} Then(s: State, es: seq<Event>, e: Event)
    requires Possible(s, es) && Enabled(Run(s, es), e)
    ensures Possible(s, es + [e]) && Run(s, es + [e]) == Apply(Run(s, es), e)
    decreases |es|
  {
    hide Enabled, Apply;
    if es == [] {
      assert [] + [e] == [e] && [e][1..] == [];
    } else {
      Then(Apply(s, es[0]), es[1..], e);
      assert (es + [e])[1..] == es[1..] + [e];
    }
  }

  /** One run after another. */
  lemma {:induction false} RunAppend(s: State, es: seq<Event>, fs: seq<Event>)
    requires Possible(s, es) && Possible(Run(s, es), fs)
    ensures Possible(s, es + fs) && Run(s, es + fs) == Run(Run(s, es), fs)
    decreases |es|
  {
    hide Enabled, Apply;
    if es == [] {
      assert es + fs == fs;
    } else {
      RunAppend(Apply(s, es[0]), es[1..], fs);
      assert (es + fs)[1..] == es[1..] + fs;
    }
  }

  lemma RunOfThree(s: State, e: Event, f: Event, g: Event)
    requires Enabled(s, e) && Enabled(Apply(s, e), f) && Enabled(Apply(Apply(s, e), f), g)
    ensures Possible(s, [e, f, g]) && Run(s, [e, f, g]) == Apply(Apply(Apply(s, e), f), g)
  {
    hide Enabled, Apply;
    Then(s, [], e);
    assert [] + [e] == [e];
    Then(s, [e], f);
    assert [e] + [f] == [e, f];
    Then(s, [e, f], g);
    assert [e, f] + [g] == [e, f, g];
  }

  lemma RunOfFour(s: State, e: Event, f: Event, g: Event, h: Event)
    requires Enabled(s, e) && Enabled(Apply(s, e), f) && Enabled(Apply(Apply(s, e), f), g)
    requires Enabled(Apply(Apply(Apply(s, e), f), g), h)
    ensures Possible(s, [e, f, g, h]) && Run(s, [e, f, g, h]) == Apply(Apply(Apply(Apply(s, e), f), g), h)
  {
    hide Enabled, Apply;
    RunOfThree(s, e, f, g);
    Then(s, [e, f, g], h);
    assert [e, f, g] + [h] == [e, f, g, h];
  }

  // ---------------------------------------------------------------- ownership

  /** No id is queued twice, and the key that the heap orders by is still the due time of the task. */
  ghost predicate QueueIsOwner(q: seq<Entry>, tasks: map<nat, Task>) {
    && (forall i, j :: 0 <= i < j < |q| ==> q[i].id != q[j].id)
    && (forall i :: 0 <= i < |q| ==> q[i].id in tasks && q[i].key == tasks[q[i].id].due)
  }

  /** What a worker holds is neither queued nor cancelled. */
  ghost predicate WorkersAreOwners(workers: map<nat, Worker>, q: seq<Entry>, tasks: map<nat, Task>) {
    forall w :: w in workers && Holds(workers[w]) ==>
      workers[w].id in tasks && !tasks[workers[w].id].cancelled && !InQueue(q, workers[w].id)
  }

  /** No two workers hold the same task. */
  ghost predicate OneHolder(workers: map<nat, Worker>) {
    forall v, w :: v in workers && w in workers && Holds(workers[v]) && Holds(workers[w])
        && workers[v].id == workers[w].id
      ==> v == w
  }

  ghost predicate Numbered(s: State) {
    && (forall id :: id in s.submissions ==> id < s.nextId && id !in s.tasks)
    && (forall id :: id in s.tasks ==> id < s.nextId)
    && (forall w :: w in s.workers ==> w < s.nextWorker)
    && (!s.running && !s.stopping ==> s.workers == map[])
    && !(s.running && s.stopping)
  }

  /** Each task is in one place: in a schedule call, once in the queue, or with one worker. */
  ghost predicate Owned(s: State) {
    QueueIsOwner(s.queue, s.tasks) && WorkersAreOwners(s.workers, s.queue, s.tasks) && OneHolder(s.workers)
        && Numbered(s)
  }

  lemma WithoutMembers(q: seq<Entry>, k: nat, id: nat)
    requires k < |q| && forall i, j :: 0 <= i < j < |q| ==> q[i].id != q[j].id
    ensures InQueue(Without(q, k), id) <==> InQueue(q, id) && id != q[k].id
  {
    var r := Without(q, k);
    assert forall i :: 0 <= i < k ==> r[i] == q[i];
    assert forall i :: k < i < |q| ==> r[i - 1] == q[i];
    assert forall i :: 0 <= i < |r| ==> r[i] == q[if i < k then i else i + 1];
  }

  lemma WithoutKeeps(q: seq<Entry>, k: nat, tasks: map<nat, Task>)
    requires QueueIsOwner(q, tasks) && k < |q|
    ensures QueueIsOwner(Without(q, k), tasks)
  {
    var r := Without(q, k);
    assert forall i :: 0 <= i < |r| ==> r[i] == q[if i < k then i else i + 1];
  }

  lemma PushedMembers(q: seq<Entry>, e: Entry, id: nat)
    ensures InQueue(q + [e], id) <==> InQueue(q, id) || id == e.id
  {
    assert (q + [e])[|q|] == e;
    assert forall i :: 0 <= i < |q| ==> (q + [e])[i] == q[i];
  }

  lemma PushedKeeps(q: seq<Entry>, id: nat, tasks: map<nat, Task>)
    requires QueueIsOwner(q, tasks) && id in tasks && !InQueue(q, id)
    ensures QueueIsOwner(q + [Entry(id, tasks[id].due)], tasks)
  {
  }

  lemma OwnedTake(s: State, w: nat, k: nat)
    requires Owned(s) && Enabled(s, Take(w, k))
    ensures Owned(TakeStep(s, w, k))
  {
    hide InQueue, QueueIsOwner, Without, Representable;
    if s.queue != [] {
      WithoutKeeps(s.queue, k, s.tasks);
      forall id ensures InQueue(Without(s.queue, k), id) <==> InQueue(s.queue, id) && id != s.queue[k].id {
        QueueIdsDiffer(s);
        WithoutMembers(s.queue, k, id);
      }
      QueuedAt(s, k);
    }
  }

  lemma QueueIdsDiffer(s: State)
    requires QueueIsOwner(s.queue, s.tasks)
    ensures forall i, j :: 0 <= i < j < |s.queue| ==> s.queue[i].id != s.queue[j].id
  {
  }

  lemma QueuedAt(s: State, k: nat)
    requires k < |s.queue|
    ensures InQueue(s.queue, s.queue[k].id)
  {
  }

  lemma OwnedPush(s: State, e: Event)
    requires Owned(s) && Enabled(s, e) && (e.Submit? || e.Requeue?)
    ensures Owned(Apply(s, e))
  {
    hide InQueue, QueueIsOwner, Representable;
    var id := if e.Submit? then e.id else s.workers[e.w].id;
    var t := Apply(s, e);
    if e.Submit? { NewRecord(s.queue, s.tasks, id, s.submissions[id].task); }
    PushedKeeps(s.queue, id, t.tasks);
    forall i ensures InQueue(t.queue, i) <==> InQueue(s.queue, i) || i == id {
      PushedMembers(s.queue, Entry(id, t.tasks[id].due), i);
    }
  }

  lemma NewRecord(q: seq<Entry>, tasks: map<nat, Task>, id: nat, task: Task)
    requires QueueIsOwner(q, tasks) && (id in tasks && InQueue(q, id) ==> task.due == tasks[id].due)
    ensures QueueIsOwner(q, tasks[id := task]) && (id !in tasks ==> !InQueue(q, id))
  {
  }

  lemma OwnedWrite(s: State, e: Event)
    requires Owned(s) && Enabled(s, e) && (e.Cancel? || e.Compute?)
    ensures Owned(Apply(s, e))
  {
    hide InQueue, QueueIsOwner, Representable;
    var t := Apply(s, e);
    var id := if e.Cancel? then e.id else s.workers[e.w].id;
    if id in s.tasks {
      NewRecord(s.queue, s.tasks, id, t.tasks[id]);
    }
  }

  lemma OwnedMove(s: State, e: Event)
    requires Owned(s) && Enabled(s, e) && (e.Check? || e.Wake? || e.Finish? || e.Decide?)
    ensures Owned(Apply(s, e))
  {
    hide InQueue, QueueIsOwner, Representable;
  }

  lemma OwnedStart(s: State, threads: nat)
    requires Owned(s) && Enabled(s, Start(threads))
    ensures Owned(Apply(s, Start(threads)))
  {
    hide InQueue, QueueIsOwner, Representable, Spawn;
    Spawned(s.workers, s.nextWorker, threads);
  }

  lemma {:induction false} OwnedStep(s: State, e: Event)
    requires Owned(s) && Enabled(s, e)
    ensures Owned(Apply(s, e))
  {
    hide InQueue, QueueIsOwner, Representable, TakeStep, SubmitStep, RequeueStep, CancelStep, ComputeStep, DecideStep,
      StartStep, Move, OneHolder;
    match e
    case Take(w, k) => OwnedTake(s, w, k);
    case Submit(_) => OwnedPush(s, e);
    case Requeue(_) => OwnedPush(s, e);
    case Cancel(_) => OwnedWrite(s, e);
    case Compute(_) => OwnedWrite(s, e);
    case Start(threads) => OwnedStart(s, threads);
    case Tick(_) =>
    case Allocate(_) =>
    case Prepare(_) =>
    case Stop =>
    case Stopped => NoWorkers();
    case _ => OwnedMove(s, e);
  }

  lemma NoWorkers()
    ensures OneHolder(map[])
  {
  }
}
