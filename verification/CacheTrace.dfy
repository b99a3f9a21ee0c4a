/** Traces of cache operations, and the unbounded map such a trace drives. */
module CacheTrace {

  datatype Op<K, V> =
    | Put(key: K, value: V)
    | Get(key: K)
    | ConstGet(key: K)
    | Remove(key: K)
    | Clear

  /** The map an unbounded store would hold. */
  function RefStep<K, V>(m: map<K, V>, op: Op<K, V>): map<K, V> {
    match op
    case Put(k, v) => m[k := v]
    case Get(_) => m
    case ConstGet(_) => m
    case Remove(k) => m - {k}
    case Clear => map[]
  }

  function RefRun<K, V>(trace: seq<Op<K, V>>): map<K, V> {
    if trace == [] then map[] else RefStep(RefRun(trace[..|trace| - 1]), trace[|trace| - 1])
  }

  /** The operation concerns key k. */
  predicate Names<K(==), V>(op: Op<K, V>, k: K) {
    !op.Clear? && op.key == k
  }

  /** The unbounded map holds, for each key, the value of the latest put since the last remove or clear. */
  ghost predicate LatestPut<K, V>(trace: seq<Op<K, V>>, i: nat, k: K, v: V) {
    && i < |trace|
    && trace[i] == Put(k, v)
    && forall j :: i < j < |trace| ==>
        !trace[j].Clear? && trace[j] != Remove(k) && !(trace[j].Put? && trace[j].key == k)
  }

  lemma {:induction false} RefRunIsLatestPut<K, V>(trace: seq<Op<K, V>>, k: K, v: V)
    ensures k in RefRun(trace) && RefRun(trace)[k] == v <==> exists i :: LatestPut(trace, i, k, v)
  {
    if trace != [] {
      var n := |trace| - 1;
      var init, op := trace[..n], trace[n];
      RefRunIsLatestPut(init, k, v);
      if op == Put(k, v) {
        assert LatestPut(trace, n, k, v);
      }
      if i: nat :| LatestPut(init, i, k, v) && !op.Clear? && op != Remove(k) && !(op.Put? && op.key == k) {
        assert LatestPut(trace, i, k, v);
      }
      if i: nat :| LatestPut(trace, i, k, v) {
        assert trace[i] == Put(k, v);
        if i < n {
          assert LatestPut(init, i, k, v);
          assert trace[n] == op;
        }
      }
    }
  }

  /** 1 + the position of the last operation that names k, or 0. */
  function LastUse<K(==), V>(trace: seq<Op<K, V>>, k: K): nat {
    if trace == [] then 0
    else if Names(trace[|trace| - 1], k) then |trace|
    else LastUse(trace[..|trace| - 1], k)
  }

  lemma {:induction false} LastUseBound<K, V>(trace: seq<Op<K, V>>, k: K)
    ensures LastUse(trace, k) <= |trace|
    ensures LastUse(trace, k) > 0 ==> Names(trace[LastUse(trace, k) - 1], k)
    ensures forall i :: LastUse(trace, k) <= i < |trace| ==> !Names(trace[i], k)
  {
    if trace != [] {
      LastUseBound(trace[..|trace| - 1], k);
    }
  }

  /** The keys that the unbounded map still holds but that were evicted since their last put; `victim` is what an
      operation evicts. */
  function LossStep<K, V>(lost: set<K>, op: Op<K, V>, victim: set<K>): set<K> {
    match op
    case Put(k, _) => lost - {k} + victim
    case Get(_) => lost
    case ConstGet(_) => lost
    case Remove(k) => lost - {k}
    case Clear => {}
  }
}
