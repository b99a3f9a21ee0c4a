/** The delayed task actuator as a transition system. Every method and the body of every task thread run under the
    mutex, so each event is one critical section; a caller waiting on the condition variable has its own state. */
module ActuatorModel {

  /** The detached thread of a task: asleep until a time, done with the task, or gone without running it. */
  datatype Thread = Sleeping(until: nat) | Fired | Quit

  /** A call of getTaskResult: about to evaluate its condition, blocked, or finished. */
  datatype Waiter = Awake(id: int) | Parked(id: int) | Returned(id: int) | Threw(id: int)

  /** A future handed out, or a task cancelled. */
  datatype Claim = Got(id: int) | Cancelled(id: int)

  /** results holds the ids whose future has not been handed out. The log says what was claimed and which bodies ran. */
  datatype State = State(
    now: nat, results: set<int>, pending: map<int, bool>, nextTaskId: int, alive: bool,
    threads: map<int, Thread>, nextWaiter: nat, waiters: map<nat, Waiter>,
    claims: seq<Claim>, ran: seq<int>)

  datatype Event =
    | Tick(milliseconds: nat)
    | Schedule(delay: nat)
    | Fire(id: int)
    | Ask(id: int) | Evaluate(w: nat) | Spurious(w: nat)
    | Cancel(id: int)
    | Destroy

  function Init(now: nat): State {
    State(now, {}, map[], 0, true, map[], 0, map[], [], [])
  }

  /** isTaskPendingLocked. */
  predicate IsPending(s: State, id: int) {
    id in s.pending && s.pending[id]
  }

  /** The condition that getTaskResult waits for. */
  predicate Condition(s: State, id: int) {
    id in s.results || !IsPending(s, id)
  }

  function WakeUp(w: Waiter): Waiter {
    if w.Parked? then Awake(w.id) else w
  }

  /** notify_all. */
  function NotifyAll(waiters: map<nat, Waiter>): (r: map<nat, Waiter>)
    ensures forall w :: w in r <==> w in waiters
    ensures forall w :: w in r ==> r[w] == WakeUp(waiters[w])
  {
    map w | w in waiters :: WakeUp(waiters[w])
  }

  function ScheduleStep(s: State, delay: nat): State {
    var id := s.nextTaskId;
    s.(nextTaskId := id + 1, pending := s.pending[id := true], results := s.results + {id},
       threads := s.threads[id := Sleeping(s.now + delay)])
  }

  /** What the thread does when its sleep is over; the pending mark is not looked at before the task runs. */
  function FireStep(s: State, id: int): State {
    if !s.alive then s.(threads := s.threads[id := Quit])
    else s.(threads := s.threads[id := Fired], ran := s.ran + [id], pending := s.pending - {id},
            waiters := NotifyAll(s.waiters))
  }

  function EvaluateStep(s: State, w: nat): State
    requires w in s.waiters
  {
    var id := s.waiters[w].id;
    if !Condition(s, id) then s.(waiters := s.waiters[w := Parked(id)])
    else if !s.alive || id !in s.results then s.(waiters := s.waiters[w := Threw(id)])
    else s.(waiters := s.waiters[w := Returned(id)], results := s.results - {id}, claims := s.claims + [Got(id)])
  }

  /** cancelTask does not notify. */
  function CancelStep(s: State, id: int): State {
    if id in s.pending && id in s.results then
      s.(results := s.results - {id}, pending := s.pending - {id}, claims := s.claims + [Cancelled(id)])
    else s
  }

  function DestroyStep(s: State): State {
    s.(alive := false, pending := map[], results := {}, waiters := NotifyAll(s.waiters))
  }

  /** Calls begin while the actuator exists; its threads and the callers already waiting may outlive it. */
  predicate Enabled(s: State, e: Event) {
    match e
    case Tick(_) => true
    case Schedule(_) => s.alive
    case Fire(id) => id in s.threads && s.threads[id].Sleeping? && s.threads[id].until <= s.now
    case Ask(_) => s.alive
    case Evaluate(w) => w in s.waiters && s.waiters[w].Awake?
    case Spurious(w) => w in s.waiters && s.waiters[w].Parked?
    case Cancel(_) => s.alive
    case Destroy => s.alive
  }

  function Apply(s: State, e: Event): State
    requires Enabled(s, e)
  {
    match e
    case Tick(d) => s.(now := s.now + d)
    case Schedule(delay) => ScheduleStep(s, delay)
    case Fire(id) => FireStep(s, id)
    case Ask(id) => s.(nextWaiter := s.nextWaiter + 1, waiters := s.waiters[s.nextWaiter := Awake(id)])
    case Evaluate(w) => EvaluateStep(s, w)
    case Spurious(w) => s.(waiters := s.waiters[w := Awake(s.waiters[w].id)])
    case Cancel(id) => CancelStep(s, id)
    case Destroy => DestroyStep(s)
  }

  predicate Possible(s: State, es: seq<Event>)
    decreases |es|
  {
    es == [] || (Enabled(s, es[0]) && Possible(Apply(s, es[0]), es[1..]))
  }

  function Run(s: State, es: seq<Event>): State
    requires Possible(s, es)
    decreases |es|
  {
    if es == [] then s else Run(Apply(s, es[0]), es[1..])
  }

  /** One run after another. */
  lemma {:induction false} RunAppend(s: State, es: seq<Event>, fs: seq<Event>)
    requires Possible(s, es) && Possible(Run(s, es), fs)
    ensures Possible(s, es + fs) && Run(s, es + fs) == Run(Run(s, es), fs)
    decreases |es|
  {
    hide Enabled, Apply;
    if es == [] {
      assert es + fs == fs;
    } else {
      RunAppend(Apply(s, es[0]), es[1..], fs);
      assert (es + fs)[1..] == es[1..] + fs;
    }
  }

  lemma RunOfOne(s: State, e: Event)
    requires Enabled(s, e)
    ensures Possible(s, [e]) && Run(s, [e]) == Apply(s, e)
  {
    hide Enabled, Apply;
    assert [e][1..] == [];
  }

  lemma RunOfThree(s: State, e: Event, f: Event, g: Event)
    requires Enabled(s, e) && Enabled(Apply(s, e), f) && Enabled(Apply(Apply(s, e), f), g)
    ensures Possible(s, [e, f, g]) && Run(s, [e, f, g]) == Apply(Apply(Apply(s, e), f), g)
  {
    hide Enabled, Apply;
    var a := Apply(s, e);
    var b := Apply(a, f);
    assert [e, f, g][1..] == [f, g] && [f, g][1..] == [g] && [g][1..] == [];
    assert Possible(b, [g]) && Run(b, [g]) == Apply(b, g);
    assert Possible(a, [f, g]) && Run(a, [f, g]) == Apply(b, g);
  }

  ghost predicate Reachable(s: State) {
    exists now, es :: Possible(Init(now), es) && Run(Init(now), es) == s
  }

  // ---------------------------------------------------------------- invariants

  predicate Claimed(s: State, id: int) {
    exists k :: 0 <= k < |s.claims| && s.claims[k].id == id
  }

  predicate WasCancelled(s: State, id: int) {
    exists k :: 0 <= k < |s.claims| && s.claims[k] == Cancelled(id)
  }

  predicate Ran(s: State, id: int) {
    exists k :: 0 <= k < |s.ran| && s.ran[k] == id
  }

  /** Ids are issued in order, each with its thread. */
  ghost predicate Issued(s: State) {
    && s.nextTaskId >= 0
    && (forall id :: id in s.threads <==> 0 <= id < s.nextTaskId)
    && (forall k :: 0 <= k < |s.claims| ==> 0 <= s.claims[k].id < s.nextTaskId)
    && (forall w :: w in s.waiters ==> w < s.nextWaiter)
  }

  /** While the actuator lives, the futures not handed out are those of the unclaimed tasks. */
  ghost predicate FuturesAccounted(s: State) {
    if s.alive then forall id :: id in s.results <==> 0 <= id < s.nextTaskId && !Claimed(s, id) else s.results == {}
  }

  predicate Sleeps(s: State, id: int) {
    id in s.threads && s.threads[id].Sleeping?
  }

  /** While the actuator lives, the pending tasks are those that sleep and were not cancelled. */
  ghost predicate PendingAccounted(s: State) {
    && (forall id :: id in s.pending ==> s.pending[id])
    && if s.alive then forall id :: id in s.pending <==> Sleeps(s, id) && !WasCancelled(s, id) else s.pending == map[]
  }

  ghost predicate ClaimedOnce(s: State) {
    forall j, k :: 0 <= j < k < |s.claims| ==> s.claims[j].id != s.claims[k].id
  }

  ghost predicate RanOnce(s: State) {
    && (forall id :: id in s.threads ==> (s.threads[id].Fired? <==> Ran(s, id)))
    && (forall k :: 0 <= k < |s.ran| ==> s.ran[k] in s.threads)
    && (forall j, k :: 0 <= j < k < |s.ran| ==> s.ran[j] != s.ran[k])
    && (s.alive ==> forall id :: id in s.threads ==> !s.threads[id].Quit?)
  }

  /** Every blocked caller waits for something that has not happened: its condition is false. */
  ghost predicate WaitersJustified(s: State) {
    forall w :: w in s.waiters && s.waiters[w].Parked? ==> !Condition(s, s.waiters[w].id)
  }

  ghost predicate Inv(s: State) {
    Issued(s) && FuturesAccounted(s) && PendingAccounted(s) && ClaimedOnce(s) && RanOnce(s) && WaitersJustified(s)
  }

  lemma ClaimsGrow(s: State, t: State, c: Claim)
    requires t.claims == s.claims + [c]
    ensures forall id :: Claimed(t, id) <==> Claimed(s, id) || id == c.id
    ensures forall id :: WasCancelled(t, id) <==> WasCancelled(s, id) || Cancelled(id) == c
  {
    assert t.claims[|s.claims|] == c;
    assert forall k :: 0 <= k < |s.claims| ==> t.claims[k] == s.claims[k];
  }

  lemma RanGrows(s: State, t: State, id: int)
    requires t.ran == s.ran + [id]
    ensures forall i :: Ran(t, i) <==> Ran(s, i) || i == id
  {
    assert t.ran[|s.ran|] == id;
    assert forall k :: 0 <= k < |s.ran| ==> t.ran[k] == s.ran[k];
  }

  lemma SameLog(s: State, t: State)
    ensures t.claims == s.claims ==>
        forall id :: (Claimed(t, id) <==> Claimed(s, id)) && (WasCancelled(t, id) <==> WasCancelled(s, id))
    ensures t.ran == s.ran ==> forall id :: Ran(t, id) <==> Ran(s, id)
  {
  }

  lemma LogMembers(s: State)
    requires Issued(s) && RanOnce(s)
    ensures forall k :: 0 <= k < |s.claims| ==> Claimed(s, s.claims[k].id)
    ensures forall k :: 0 <= k < |s.ran| ==> Ran(s, s.ran[k])
    ensures forall id :: Claimed(s, id) ==> 0 <= id < s.nextTaskId
    ensures forall id :: WasCancelled(s, id) ==> Claimed(s, id)
    ensures forall id :: Ran(s, id) ==> id in s.threads
  {
    forall id | WasCancelled(s, id) ensures Claimed(s, id) {
      var k :| 0 <= k < |s.claims| && s.claims[k] == Cancelled(id);
      assert s.claims[k].id == id;
    }
  }

  lemma FuturesStep(s: State, e: Event)
    requires Inv(s) && Enabled(s, e)
    ensures FuturesAccounted(Apply(s, e))
  {
    LogMembers(s);
    hide Claimed, WasCancelled, Ran, RanOnce, ClaimedOnce, WaitersJustified, PendingAccounted;
    var t := Apply(s, e);
    SameLog(s, t);
    if |t.claims| > |s.claims| { ClaimsGrow(s, t, t.claims[|s.claims|]); }
  }

  lemma PendingStep(s: State, e: Event)
    requires Inv(s) && Enabled(s, e)
    ensures PendingAccounted(Apply(s, e))
  {
    LogMembers(s);
    hide Claimed, WasCancelled, Ran, RanOnce, ClaimedOnce, WaitersJustified, FuturesAccounted;
    var t := Apply(s, e);
    SameLog(s, t);
    if |t.claims| > |s.claims| { ClaimsGrow(s, t, t.claims[|s.claims|]); }
  }

  lemma ClaimedOnceStep(s: State, e: Event)
    requires Inv(s) && Enabled(s, e)
    ensures ClaimedOnce(Apply(s, e))
  {
    LogMembers(s);
    hide Claimed, WasCancelled, Ran, RanOnce, WaitersJustified;
  }

  lemma RanOnceStep(s: State, e: Event)
    requires Inv(s) && Enabled(s, e)
    ensures RanOnce(Apply(s, e))
  {
    LogMembers(s);
    hide Claimed, WasCancelled, Ran, ClaimedOnce, WaitersJustified, FuturesAccounted, PendingAccounted;
    var t := Apply(s, e);
    SameLog(s, t);
    if e.Fire? { RanOnceFire(s, e.id); }
  }

  lemma RanOnceFire(s: State, id: int)
    requires Inv(s) && Enabled(s, Fire(id))
    ensures RanOnce(FireStep(s, id))
  {
    LogMembers(s);
    hide Claimed, WasCancelled, Ran, ClaimedOnce, WaitersJustified, FuturesAccounted, PendingAccounted;
    var t := FireStep(s, id);
    SameLog(s, t);
    if s.alive { RanGrows(s, t, id); }
  }

  lemma IssuedStep(s: State, e: Event)
    requires Inv(s) && Enabled(s, e)
    ensures Issued(Apply(s, e))
  {
    hide Claimed, WasCancelled, Ran, ClaimedOnce, RanOnce, WaitersJustified;
  }

  /** Nobody is left waiting: a step that makes a condition true wakes the waiters, except that cancel never does and
      never needs to, because a task that somebody waits for has no future left to cancel. */
  lemma WaitersStep(s: State, e: Event)
    requires Inv(s) && Enabled(s, e)
    ensures WaitersJustified(Apply(s, e))
  {
    hide Claimed, WasCancelled, Ran, ClaimedOnce, RanOnce;
    assert forall w :: w in s.waiters && s.waiters[w].Parked? ==> s.waiters[w].id !in s.results;
  }

  lemma InvStep(s: State, e: Event)
    requires Inv(s) && Enabled(s, e)
    ensures Inv(Apply(s, e))
  {
    hide Issued, FuturesAccounted, PendingAccounted, ClaimedOnce, RanOnce, WaitersJustified, Apply;
    IssuedStep(s, e);
    FuturesStep(s, e);
    PendingStep(s, e);
    ClaimedOnceStep(s, e);
    RanOnceStep(s, e);
    WaitersStep(s, e);
  }

  lemma {:induction false} RunKeeps(s: State, es: seq<Event>)
    requires Inv(s) && Possible(s, es)
    ensures Inv(Run(s, es))
    decreases |es|
  {
    if es != [] {
      InvStep(s, es[0]);
      RunKeeps(Apply(s, es[0]), es[1..]);
    }
  }

  lemma Invariant(s: State)
    requires Reachable(s)
    ensures Inv(s)
  {
    var now, es :| Possible(Init(now), es) && Run(Init(now), es) == s;
    RunKeeps(Init(now), es);
  }

  // ---------------------------------------------------------------- no lost wakeup

  /** A blocked caller waits for a task that is still pending, whose future is gone, and whose thread has not fired. */
  lemma NoStrandedWaiter(s: State, w: nat)
    requires Reachable(s) && w in s.waiters && s.waiters[w].Parked?
    ensures var id := s.waiters[w].id;
            s.alive && IsPending(s, id) && id !in s.results && id in s.threads && s.threads[id].Sleeping?
  {
    hide RanOnce, ClaimedOnce, Reachable;
    Invariant(s);
  }

  /** Every step that makes the condition of a blocked caller true also unblocks it. */
  lemma WakesWhenTrue(s: State, e: Event, w: nat)
    requires Reachable(s) && Enabled(s, e) && w in s.waiters && s.waiters[w].Parked?
    requires Condition(Apply(s, e), s.waiters[w].id)
    ensures Apply(s, e).waiters[w] == Awake(s.waiters[w].id) && (e == Fire(s.waiters[w].id) || e == Destroy)
  {
    hide RanOnce, ClaimedOnce, Reachable;
    Invariant(s);
    WaitersStep(s, e);
  }

  /** A blocked caller gets away: when enough time has passed the thread of its task can fire, and then the caller
      leaves with an error. */
  lemma BlockedCallerLeaves(s: State, w: nat)
    requires Reachable(s) && w in s.waiters && s.waiters[w].Parked?
    ensures var id := s.waiters[w].id;
            var rest := if id in s.threads && s.threads[id].Sleeping? && s.threads[id].until > s.now
                        then s.threads[id].until - s.now else 0;
            var es := [Tick(rest), Fire(id), Evaluate(w)];
            Possible(s, es) && w in Run(s, es).waiters && Run(s, es).waiters[w] == Threw(id)
  {
    NoStrandedWaiter(s, w);
    var id := s.waiters[w].id;
    var rest := if s.threads[id].until > s.now then s.threads[id].until - s.now else 0;
    var a := Apply(s, Tick(rest));
    var b := Apply(a, Fire(id));
    assert b.waiters[w] == Awake(id) && Condition(b, id);
    RunOfThree(s, Tick(rest), Fire(id), Evaluate(w));
  }

  // ---------------------------------------------------------------- a caller that blocked gets nothing

  /** The caller can no longer be handed a future. */
  ghost predicate Hopeless(s: State, w: nat) {
    w in s.waiters && !s.waiters[w].Returned? && (s.alive ==> Claimed(s, s.waiters[w].id))
  }

  lemma HopelessStep(s: State, e: Event, w: nat)
    requires Inv(s) && Enabled(s, e) && Hopeless(s, w)
    ensures Hopeless(Apply(s, e), w)
  {
    hide Claimed, WasCancelled, Ran, RanOnce, ClaimedOnce;
    var t := Apply(s, e);
    SameLog(s, t);
    if |t.claims| > |s.claims| { ClaimsGrow(s, t, t.claims[|s.claims|]); }
  }

  lemma {:induction false} HopelessForever(s: State, es: seq<Event>, w: nat)
    requires Inv(s) && Possible(s, es) && Hopeless(s, w)
    ensures Hopeless(Run(s, es), w)
    decreases |es|
  {
    if es != [] {
      InvStep(s, es[0]);
      HopelessStep(s, es[0], w);
      HopelessForever(Apply(s, es[0]), es[1..], w);
    }
  }

  /** getTaskResult returns a future only without blocking: a caller that once blocked never returns one. */
  lemma BlockedCallerNeverReturns(s: State, es: seq<Event>, w: nat)
    requires Reachable(s) && Possible(s, es) && w in s.waiters && s.waiters[w].Parked?
    ensures w in Run(s, es).waiters && !Run(s, es).waiters[w].Returned?
  {
    NoStrandedWaiter(s, w);
    Invariant(s);
    HopelessForever(s, es, w);
  }

  // ---------------------------------------------------------------- claims

  /** For each id at most one getTaskResult or cancelTask ever succeeds. */
  lemma SingleClaim(s: State, j: nat, k: nat)
    requires Reachable(s) && j < k < |s.claims|
    ensures s.claims[j].id != s.claims[k].id && 0 <= s.claims[k].id < s.nextTaskId
  {
    Invariant(s);
  }

  /** Each id is issued once: the next one has no thread, no claim, no run and no pending mark yet. */
  lemma IssuedOnce(s: State)
    requires Reachable(s) && s.alive
    ensures var id := s.nextTaskId;
            id !in s.threads && !Claimed(s, id) && !Ran(s, id) && id !in s.results && id !in s.pending
  {
    Invariant(s);
    LogMembers(s);
    hide Claimed, WasCancelled, Ran;
  }

  /** When cancelTask succeeds: the thread still sleeps, and no future and no cancellation was handed out before. */
  lemma CancelSucceedsIff(s: State, id: int)
    requires Reachable(s) && Enabled(s, Cancel(id))
    ensures Apply(s, Cancel(id)) != s <==>
      id in s.threads && s.threads[id].Sleeping? && !Claimed(s, id)
  {
    Invariant(s);
    LogMembers(s);
    hide Claimed, WasCancelled, Ran;
  }

  /** When getTaskResult returns at once: an issued id that is not claimed, whether its task has run or not. */
  lemma ReturnsIff(s: State, w: nat)
    requires Reachable(s) && s.alive && Enabled(s, Evaluate(w))
    ensures Apply(s, Evaluate(w)).waiters[w].Returned? <==>
      0 <= s.waiters[w].id < s.nextTaskId && !Claimed(s, s.waiters[w].id)
  {
    Invariant(s);
  }

  // ---------------------------------------------------------------- bodies

  /** Each body runs at most once, and it has run exactly when its thread fired. */
  lemma RunsOnce(s: State, j: nat, k: nat, id: int)
    requires Reachable(s)
    ensures j < k < |s.ran| ==> s.ran[j] != s.ran[k]
    ensures Ran(s, id) <==> id in s.threads && s.threads[id].Fired?
  {
    Invariant(s);
    LogMembers(s);
    hide Claimed, WasCancelled, Ran;
  }

  /** No body starts after destruction. */
  lemma {:induction false} NothingRunsAfterDestruction(s: State, es: seq<Event>)
    requires !s.alive && Possible(s, es)
    ensures Run(s, es).ran == s.ran && !Run(s, es).alive
    decreases |es|
  {
    if es != [] {
      NothingRunsAfterDestruction(Apply(s, es[0]), es[1..]);
    }
  }

  /** The thread of the task sleeps until the given time, and has not fired earlier. */
  ghost predicate SleepsUntil(s: State, id: int, until: int) {
    && id in s.threads
    && (s.threads[id].Sleeping? ==> s.threads[id].until == until)
    && (s.threads[id].Fired? ==> s.now >= until)
  }

  lemma {:induction false} SleepsOn(s: State, es: seq<Event>, id: int, until: int)
    requires Inv(s) && SleepsUntil(s, id, until) && Possible(s, es)
    ensures SleepsUntil(Run(s, es), id, until)
    decreases |es|
  {
    if es != [] {
      InvStep(s, es[0]);
      SleepsStep(s, es[0], id, until);
      SleepsOn(Apply(s, es[0]), es[1..], id, until);
    }
  }

  lemma SleepsStep(s: State, e: Event, id: int, until: int)
    requires Inv(s) && SleepsUntil(s, id, until) && Enabled(s, e)
    ensures SleepsUntil(Apply(s, e), id, until)
  {
    hide Claimed, WasCancelled, Ran, RanOnce, ClaimedOnce, FuturesAccounted, PendingAccounted, WaitersJustified;
  }

  /** A delayed task is delayed: in every run its body does not start before the delay has passed since scheduleTask,
      and while its thread sleeps it can wake exactly from then on. */
  lemma DelayIsKept(s: State, delay: nat, es: seq<Event>)
    requires Reachable(s) && Enabled(s, Schedule(delay)) && Possible(Apply(s, Schedule(delay)), es)
    ensures var id, t := s.nextTaskId, Run(Apply(s, Schedule(delay)), es);
            && (id in t.ran ==> t.now >= s.now + delay)
            && id in t.threads
            && (t.threads[id].Sleeping? ==> (Enabled(t, Fire(id)) <==> t.now >= s.now + delay))
  {
    var a := Apply(s, Schedule(delay));
    var id, t := s.nextTaskId, Run(a, es);
    Invariant(s);
    InvStep(s, Schedule(delay));
    SleepsOn(a, es, id, s.now + delay);
    RunKeeps(a, es);
    if id in t.ran {
      LogMembers(t);
    }
  }

  /** isTaskPending, while the actuator lives: the id was issued, its thread has not fired, and it was not cancelled. */
  lemma PendingIff(s: State, id: int)
    requires Reachable(s) && s.alive
    ensures IsPending(s, id) <==> 0 <= id < s.nextTaskId && !Ran(s, id) && Cancelled(id) !in s.claims
  {
    Invariant(s);
    LogMembers(s);
    assert WasCancelled(s, id) <==> Cancelled(id) in s.claims;
    hide Claimed, WasCancelled, Ran;
  }

  /** A cancelled task still runs: cancelling takes its future away, but its thread goes on to run the body. */
  lemma CancelledTaskStillRuns(s: State, id: int)
    requires Reachable(s) && Enabled(s, Cancel(id)) && Apply(s, Cancel(id)) != s
    ensures id in s.threads && s.threads[id].Sleeping?
    ensures var rest := if s.threads[id].until > s.now then s.threads[id].until - s.now else 0;
            var es := [Cancel(id), Tick(rest), Fire(id)];
            Possible(s, es) && Run(s, es).ran == s.ran + [id]
  {
    CancelSucceedsIff(s, id);
    var rest := if s.threads[id].until > s.now then s.threads[id].until - s.now else 0;
    var a := Apply(s, Cancel(id));
    var b := Apply(a, Tick(rest));
    assert b.threads == s.threads;
    RunOfThree(s, Cancel(id), Tick(rest), Fire(id));
  }

  /** Such a cancel is reached: the first task can be cancelled as soon as it is scheduled. */
  lemma ACancelSucceeds(now: nat, delay: nat)
    ensures var s := Apply(Init(now), Schedule(delay));
            Reachable(s) && Enabled(s, Cancel(0)) && Apply(s, Cancel(0)) != s
  {
    var es := [Schedule(delay)];
    var s := Apply(Init(now), Schedule(delay));
    assert es[1..] == [];
    assert Possible(s, es[1..]) && Run(s, es[1..]) == s;
    assert Possible(Init(now), es);
    assert Run(Init(now), es) == s;
  }

  /** A caller that blocks is reached too: the second one to ask for a task that has not run. */
  lemma ACallerBlocks(now: nat, delay: nat)
    ensures exists s :: Reachable(s) && 1 in s.waiters && s.waiters[1].Parked?
  {
    var a := Apply(Init(now), Schedule(delay));
    var b := Apply(a, Ask(0));
    var c := Apply(b, Evaluate(0));
    var d := Apply(c, Ask(0));
    var e := Apply(d, Evaluate(1));
    var es := [Schedule(delay), Ask(0), Evaluate(0), Ask(0), Evaluate(1)];
    RunOfThree(b, Evaluate(0), Ask(0), Evaluate(1));
    assert es[1..] == [Ask(0), Evaluate(0), Ask(0), Evaluate(1)];
    assert es[1..][1..] == [Evaluate(0), Ask(0), Evaluate(1)];
    assert Possible(Init(now), es);
    assert Run(Init(now), es) == e;
    assert Reachable(e);
  }
}
