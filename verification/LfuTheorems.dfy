/** What holds of every run of an LFU cache. */
module LfuTheorems {
  import opened CacheTrace
  import opened LfuPolicy

  ghost function Step<K, V>(s: State<K, V>, capacity: nat, op: Op<K, V>): State<K, V> {
    match op
    case Put(k, v) => AfterPut(s, capacity, k, v)
    case Get(k) => AfterGet(s, k)
    case ConstGet(k) => s
    case Remove(k) => AfterRemove(s, k)
    case Clear => AfterClear(s)
  }

  ghost function Run<K, V>(capacity: nat, trace: seq<Op<K, V>>): State<K, V> {
    if trace == [] then State(map[], 0) else Step(Run(capacity, trace[..|trace| - 1]), capacity, trace[|trace| - 1])
  }

  // ---------- Counts and times read off the trace ----------

  /** A put or a non-const get of key k. */
  predicate Uses<K(==), V>(op: Op<K, V>, k: K) {
    (op.Put? || op.Get?) && op.key == k
  }

  /** Time passes with every operation but the const get. */
  function Time<K, V>(trace: seq<Op<K, V>>): nat {
    if trace == [] then 0
    else Time(trace[..|trace| - 1]) + if trace[|trace| - 1].ConstGet? then 0 else 1
  }

  /** The time of the last use of key k. */
  function LastTouch<K(==), V>(trace: seq<Op<K, V>>, k: K): nat {
    if trace == [] then 0
    else
      var init := trace[..|trace| - 1];
      if Uses(trace[|trace| - 1], k) then Time(init) else LastTouch(init, k)
  }

  /** How often key k is used after position i. */
  function UsesAfter<K(==), V>(trace: seq<Op<K, V>>, i: nat, k: K): nat {
    if |trace| <= i + 1 then 0
    else UsesAfter(trace[..|trace| - 1], i, k) + if Uses(trace[|trace| - 1], k) then 1 else 0
  }

  /** Key k was put at position i while it was not cached, and has been cached ever since. */
  ghost predicate InsertedAt<K, V>(capacity: nat, trace: seq<Op<K, V>>, i: nat, k: K) {
    && i < |trace|
    && trace[i].Put? && trace[i].key == k
    && k !in Run(capacity, trace[..i]).entries
    && forall j :: i < j <= |trace| ==> k in Run(capacity, trace[..j]).entries
  }

  // ---------- The state of a run ----------

  /** Every cached key has a use count of 1 + its uses since its insertion, and the stamp of its last use. */
  ghost predicate Explained<K, V>(capacity: nat, trace: seq<Op<K, V>>, k: K, e: Entry<V>) {
    && e.touched == LastTouch(trace, k) < Time(trace)
    && exists i :: InsertedAt(capacity, trace, i, k) && e.freq == 1 + UsesAfter(trace, i, k)
  }

  lemma InsertedExtend<K, V>(capacity: nat, init: seq<Op<K, V>>, op: Op<K, V>, i: nat, k: K)
    requires InsertedAt(capacity, init, i, k)
    requires k in Run(capacity, init + [op]).entries
    ensures InsertedAt(capacity, init + [op], i, k)
    ensures UsesAfter(init + [op], i, k) == UsesAfter(init, i, k) + if Uses(op, k) then 1 else 0
  {
    var trace := init + [op];
    assert trace[..i] == init[..i];
    assert trace[..|init|] == init;
    forall j | i < j <= |trace|
      ensures k in Run(capacity, trace[..j]).entries
    {
      if j <= |init| {
        assert trace[..j] == init[..j];
      } else {
        assert trace[..j] == trace;
      }
    }
  }

  lemma InsertedNow<K, V>(capacity: nat, init: seq<Op<K, V>>, k: K, v: V)
    requires k !in Run(capacity, init).entries
    ensures InsertedAt(capacity, init + [Put(k, v)], |init|, k)
  {
    var trace := init + [Put(k, v)];
    assert trace[..|init|] == init;
    assert trace[..|trace|] == trace;
  }

  /** One operation changes the entry of one key only, apart from evicting, removing or clearing. */
  lemma StepEntry<K, V>(s: State<K, V>, capacity: nat, op: Op<K, V>, k: K)
    requires k in Step(s, capacity, op).entries
    ensures k in s.entries && !Uses(op, k) ==> Step(s, capacity, op).entries[k] == s.entries[k]
    ensures k in s.entries && Uses(op, k) ==> Step(s, capacity, op).entries[k].freq == s.entries[k].freq + 1
    ensures Uses(op, k) ==> Step(s, capacity, op).entries[k].touched == s.clock
    ensures k !in s.entries ==> op.Put? && op.key == k && Step(s, capacity, op).entries[k].freq == 1
  {
  }

  lemma {:induction false} RunExplained<K, V>(capacity: nat, trace: seq<Op<K, V>>, k: K)
    requires k in Run(capacity, trace).entries
    ensures Explained(capacity, trace, k, Run(capacity, trace).entries[k])
  {
    var init, op := trace[..|trace| - 1], trace[|trace| - 1];
    var s := Run(capacity, init);
    assert trace == init + [op];
    RunClock(capacity, init);
    StepEntry(s, capacity, op, k);
    if k in s.entries {
      RunExplained(capacity, init, k);
      var i :| InsertedAt(capacity, init, i, k) && s.entries[k].freq == 1 + UsesAfter(init, i, k);
      InsertedExtend(capacity, init, op, i, k);
    } else {
      InsertedNow(capacity, init, k, op.value);
    }
  }

  lemma {:induction false} RunClock<K, V>(capacity: nat, trace: seq<Op<K, V>>)
    ensures Run(capacity, trace).clock == Time(trace)
  {
    if trace != [] {
      RunClock(capacity, trace[..|trace| - 1]);
    }
  }

  lemma {:induction false} RunStamps<K, V>(capacity: nat, trace: seq<Op<K, V>>)
    ensures Stamped(Run(capacity, trace)) && DistinctStamps(Run(capacity, trace).entries)
  {
    if trace != [] {
      RunStamps(capacity, trace[..|trace| - 1]);
    }
  }

  lemma EvictedKeys<K, V>(s: State<K, V>) returns (w: K)
    requires DistinctStamps(s.entries) && s.entries != map[]
    ensures IsVictim(s.entries, w) && Evicted(s.entries) == s.entries - {w}
    ensures Evicted(s.entries).Keys == s.entries.Keys - {w}
    ensures |Evicted(s.entries)| == |s.entries| - 1
  {
    VictimExists(s.entries, |s.entries|);
    w :| IsVictim(s.entries, w);
    EvictedIs(s.entries, w);
    assert Evicted(s.entries).Keys == s.entries.Keys - {w};
  }

  /** A cache never grows beyond its capacity. */
  lemma {:induction false} RunSize<K, V>(capacity: nat, trace: seq<Op<K, V>>)
    requires capacity > 0
    ensures |Run(capacity, trace).entries| <= capacity
  {
    if trace != [] {
      var init, op := trace[..|trace| - 1], trace[|trace| - 1];
      var s, s' := Run(capacity, init), Run(capacity, trace);
      RunSize(capacity, init);
      RunStamps(capacity, init);
      if op.Put? && op.key !in s.entries {
        if |s.entries| >= capacity {
          var w := EvictedKeys(s);
          assert s'.entries.Keys == Evicted(s.entries).Keys + {op.key};
        } else {
          assert s'.entries.Keys == s.entries.Keys + {op.key};
        }
      } else {
        assert s'.entries.Keys <= s.entries.Keys;
        SubsetSize(s'.entries.Keys, s.entries.Keys);
      }
    }
  }

  lemma {:induction false} SubsetSize<T>(a: set<T>, b: set<T>)
    requires a <= b
    ensures |a| <= |b|
  {
    assert b == a + (b - a);
  }

  // ---------- The victim ----------

  /** In every run, a put that needs room evicts exactly one entry: the one with the least use count since its
      insertion, and among those the one whose last use is the oldest. */
  lemma VictimIsLeastFrequent<K, V>(capacity: nat, trace: seq<Op<K, V>>, k: K, v: V) returns (w: K)
    requires capacity > 0
    requires k !in Run(capacity, trace).entries && |Run(capacity, trace).entries| >= capacity
    ensures w in Run(capacity, trace).entries
    ensures Run(capacity, trace + [Put(k, v)]).entries.Keys == Run(capacity, trace).entries.Keys - {w} + {k}
    ensures forall x, i, j ::
              x in Run(capacity, trace).entries && x != w && InsertedAt(capacity, trace, i, w)
                  && InsertedAt(capacity, trace, j, x) ==>
                || UsesAfter(trace, i, w) < UsesAfter(trace, j, x)
                || (UsesAfter(trace, i, w) == UsesAfter(trace, j, x) && LastTouch(trace, w) < LastTouch(trace, x))
    ensures exists i :: InsertedAt(capacity, trace, i, w)
  {
    var s := Run(capacity, trace);
    RunStamps(capacity, trace);
    w := EvictedKeys(s);
    assert (trace + [Put(k, v)])[..|trace|] == trace;
    assert Run(capacity, trace + [Put(k, v)]).entries.Keys == Evicted(s.entries).Keys + {k};
    RunExplained(capacity, trace, w);
    forall x, i, j | x in s.entries && x != w && InsertedAt(capacity, trace, i, w) && InsertedAt(capacity, trace, j, x)
      ensures || UsesAfter(trace, i, w) < UsesAfter(trace, j, x)
              || (UsesAfter(trace, i, w) == UsesAfter(trace, j, x) && LastTouch(trace, w) < LastTouch(trace, x))
    {
      RunExplained(capacity, trace, x);
      InsertedOnce(capacity, trace, w);
      InsertedOnce(capacity, trace, x);
      assert Before(s.entries[w], s.entries[x]);
    }
  }

  lemma InsertedOnce<K, V>(capacity: nat, trace: seq<Op<K, V>>, k: K)
    ensures forall i, j :: InsertedAt(capacity, trace, i, k) && InsertedAt(capacity, trace, j, k) ==> i == j
  {
  }

  // ---------- Coherence and conservation ----------

  /** A hit returns the value of the latest put: the cache is a part of the unbounded map driven by the same trace. */
  lemma {:induction false} Coherence<K, V>(capacity: nat, trace: seq<Op<K, V>>)
    ensures forall k :: k in Run(capacity, trace).entries ==>
                          k in RefRun(trace) && RefRun(trace)[k] == Run(capacity, trace).entries[k].value
  {
    if trace != [] {
      Coherence(capacity, trace[..|trace| - 1]);
    }
  }

  /** What a get finds after a run, and only that: the value of the latest put of its key, if the key is cached. */
  lemma AnswerIff<K, V>(capacity: nat, trace: seq<Op<K, V>>, k: K, v: V)
    ensures k in Run(capacity, trace).entries && Run(capacity, trace).entries[k].value == v <==>
      k in Run(capacity, trace).entries && exists j :: LatestPut(trace, j, k, v)
  {
    Coherence(capacity, trace);
    RefRunIsLatestPut(trace, k, v);
  }

  /** While there is room, and whenever its key is cached already, a put evicts nothing. */
  lemma PutWithRoom<K, V>(capacity: nat, trace: seq<Op<K, V>>, k: K, v: V)
    requires k in Run(capacity, trace).entries || |Run(capacity, trace).entries| < capacity
    ensures Run(capacity, trace + [Put(k, v)]).entries.Keys == Run(capacity, trace).entries.Keys + {k}
    ensures forall x :: x in Run(capacity, trace).entries && x != k ==>
      Run(capacity, trace + [Put(k, v)]).entries[x] == Run(capacity, trace).entries[x]
  {
    assert (trace + [Put(k, v)])[..|trace|] == trace;
  }

  /** What an operation evicts. */
  ghost function Victim<K, V>(s: State<K, V>, capacity: nat, op: Op<K, V>): set<K> {
    if op.Put? && op.key !in s.entries && |s.entries| >= capacity then s.entries.Keys - Evicted(s.entries).Keys else {}
  }

  ghost function Lost<K, V>(capacity: nat, trace: seq<Op<K, V>>): set<K> {
    if trace == [] then {}
    else
      var init := trace[..|trace| - 1];
      LossStep(Lost(capacity, init), trace[|trace| - 1], Victim(Run(capacity, init), capacity, trace[|trace| - 1]))
  }

  lemma StepKeys<K, V>(s: State<K, V>, capacity: nat, op: Op<K, V>)
    ensures Step(s, capacity, op).entries.Keys ==
            match op {
              case Put(k, _) => s.entries.Keys - Victim(s, capacity, op) + {k}
              case Get(_) => s.entries.Keys
              case ConstGet(_) => s.entries.Keys
              case Remove(k) => s.entries.Keys - {k}
              case Clear => {}
            }
    ensures Victim(s, capacity, op) <= s.entries.Keys
    ensures op.Put? && op.key in s.entries ==> Victim(s, capacity, op) == {}
  {
    if op.Put? && op.key !in s.entries {
      assert Evicted(s.entries).Keys <= s.entries.Keys;
    }
  }

  /** Only evictions lose keys: what the unbounded map holds is cached or was evicted since its last put, never both. */
  lemma {:induction false} Conservation<K, V>(capacity: nat, trace: seq<Op<K, V>>)
    ensures RefRun(trace).Keys == Run(capacity, trace).entries.Keys + Lost(capacity, trace)
    ensures Run(capacity, trace).entries.Keys !! Lost(capacity, trace)
  {
    hide Step, Victim;
    if trace != [] {
      var init, op := trace[..|trace| - 1], trace[|trace| - 1];
      Conservation(capacity, init);
      StepKeys(Run(capacity, init), capacity, op);
    }
  }
}
