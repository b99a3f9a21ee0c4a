/** What holds of every run of an LRU cache. */
module LruTheorems {
  import opened CacheTrace
  import opened LruSpec

  function Step<K(==), V>(s: seq<(K, V)>, capacity: nat, op: Op<K, V>): seq<(K, V)> {
    match op
    case Put(k, v) => AfterPut(s, capacity, k, v)
    case Get(k) => AfterGet(s, k)
    case ConstGet(k) => AfterGet(s, k)
    case Remove(k) => DropKey(s, k)
    case Clear => []
  }

  function Run<K(==), V>(capacity: nat, trace: seq<Op<K, V>>): seq<(K, V)> {
    if trace == [] then [] else Step(Run(capacity, trace[..|trace| - 1]), capacity, trace[|trace| - 1])
  }

  function Keys<K, V>(s: seq<(K, V)>): set<K> {
    set i | 0 <= i < |s| :: s[i].0
  }

  // ---------- Distinct keys, bounded size ----------

  lemma {:induction false} DropKeyDistinct<K, V>(s: seq<(K, V)>, k: K)
    requires Distinct(s)
    ensures Distinct(DropKey(s, k))
  {
    if s != [] {
      DropKeyDistinct(s[1..], k);
      var rest := DropKey(s[1..], k);
      assert forall i :: 0 <= i < |rest| ==> rest[i] in s[1..];
    }
  }

  lemma {:induction false} DropKeyLength<K, V>(s: seq<(K, V)>, k: K)
    requires Distinct(s)
    ensures |DropKey(s, k)| == if Lookup(s, k).Some? then |s| - 1 else |s|
  {
    if s != [] {
      if s[0].0 == k {
        assert forall i :: 0 <= i < |s[1..]| ==> s[1..][i] == s[i + 1];
        AbsentDropKey(s[1..], k);
      } else {
        DropKeyLength(s[1..], k);
      }
    }
  }

  lemma DropKeyShape<K, V>(s: seq<(K, V)>, k: K)
    requires Distinct(s)
    ensures Distinct(DropKey(s, k))
    ensures |DropKey(s, k)| == if Lookup(s, k).Some? then |s| - 1 else |s|
  {
    DropKeyDistinct(s, k);
    DropKeyLength(s, k);
  }

  lemma {:induction false} RunShape<K, V>(capacity: nat, trace: seq<Op<K, V>>)
    requires capacity > 0
    ensures Distinct(Run(capacity, trace)) && |Run(capacity, trace)| <= capacity
  {
    if trace != [] {
      RunShape(capacity, trace[..|trace| - 1]);
      StepShape(Run(capacity, trace[..|trace| - 1]), capacity, trace[|trace| - 1]);
    }
  }

  lemma StepShape<K, V>(s: seq<(K, V)>, capacity: nat, op: Op<K, V>)
    requires capacity > 0 && Distinct(s) && |s| <= capacity
    ensures Distinct(Step(s, capacity, op)) && |Step(s, capacity, op)| <= capacity
  {
    hide DropKey, Lookup;
    if !op.Clear? {
      DropKeyShape(s, op.key);
    }
  }

  // ---------- Inclusion: a larger cache holds whatever a smaller one holds ----------

  /** s is l with some entries left out. */
  predicate Sub<K(==), V(==)>(s: seq<(K, V)>, l: seq<(K, V)>) {
    if s == [] then true
    else if l == [] then false
    else if s[0] == l[0] then Sub(s[1..], l[1..])
    else Sub(s, l[1..])
  }

  lemma {:induction false} SubCons<K, V>(s: seq<(K, V)>, x: (K, V), l: seq<(K, V)>)
    requires Sub(s, l)
    ensures Sub(s, [x] + l)
    decreases |l|, 1
  {
    assert ([x] + l)[1..] == l;
    if s != [] && s[0] == x {
      SubTail(s, l);
    }
  }

  lemma {:induction false} SubTail<K, V>(s: seq<(K, V)>, l: seq<(K, V)>)
    requires s != [] && Sub(s, l)
    ensures Sub(s[1..], l)
    decreases |l|, 0
  {
    assert l == [l[0]] + l[1..];
    if s[0] != l[0] {
      SubTail(s, l[1..]);
    }
    SubCons(s[1..], l[0], l[1..]);
  }

  lemma {:induction false} SubMembers<K, V>(s: seq<(K, V)>, l: seq<(K, V)>)
    requires Sub(s, l)
    ensures |s| <= |l|
    ensures forall i :: 0 <= i < |s| ==> s[i] in l
  {
    if s != [] {
      if s[0] == l[0] {
        SubMembers(s[1..], l[1..]);
      } else {
        SubMembers(s, l[1..]);
      }
    }
  }

  lemma {:induction false} SubDropKey<K, V>(s: seq<(K, V)>, l: seq<(K, V)>, k: K)
    requires Sub(s, l)
    ensures Sub(DropKey(s, k), DropKey(l, k))
  {
    if s != [] {
      if s[0] == l[0] {
        SubDropKey(s[1..], l[1..], k);
        if s[0].0 != k {
          assert DropKey(s, k)[1..] == DropKey(s[1..], k);
          assert DropKey(l, k)[1..] == DropKey(l[1..], k);
        }
      } else {
        SubDropKey(s, l[1..], k);
        if l[0].0 != k {
          SubCons(DropKey(s, k), l[0], DropKey(l[1..], k));
        }
      }
    }
  }

  lemma {:induction false} SubInit<K, V>(s: seq<(K, V)>, l: seq<(K, V)>)
    requires s != [] && Sub(s, l)
    ensures Sub(s[..|s| - 1], l)
    ensures Sub(s[..|s| - 1], l[..|l| - 1])
  {
    var s', l' := s[..|s| - 1], l[..|l| - 1];
    if s[0] == l[0] {
      if |s| > 1 {
        SubInit(s[1..], l[1..]);
        assert s'[1..] == s[1..][..|s| - 2];
        assert |l| > 1;
        assert l'[1..] == l[1..][..|l| - 2];
      }
    } else {
      SubInit(s, l[1..]);
      SubCons(s', l[0], l[1..]);
      SubCons(s', l[0], l[1..][..|l| - 2]);
      assert l == [l[0]] + l[1..];
      assert l' == [l[0]] + l[1..][..|l| - 2];
    }
  }

  lemma SubLookup<K, V>(s: seq<(K, V)>, l: seq<(K, V)>, k: K)
    requires Sub(s, l) && Distinct(l)
    ensures Lookup(s, k).Some? ==> Lookup(l, k) == Lookup(s, k)
  {
    if Lookup(s, k).Some? {
      SubMembers(s, l);
      var p := (k, Lookup(s, k).value);
      var j :| 0 <= j < |l| && l[j] == p;
      LookupAt(l, j);
    }
  }

  /** The relation between the runs of a smaller and a larger cache. */
  ghost predicate Included<K, V>(s: seq<(K, V)>, small: nat, l: seq<(K, V)>, large: nat) {
    && Sub(s, l)
    && |l| - |s| <= large - small
  }

  lemma InclusionStep<K, V>(s: seq<(K, V)>, small: nat, l: seq<(K, V)>, large: nat, op: Op<K, V>)
    requires 0 < small <= large
    requires Distinct(s) && |s| <= small
    requires Distinct(l) && |l| <= large
    requires Included(s, small, l, large)
    ensures Included(Step(s, small, op), small, Step(l, large, op), large)
  {
    if !op.Clear? {
      var k := op.key;
      SubLookup(s, l, k);
      SubDropKey(s, l, k);
      DropKeyShape(s, k);
      DropKeyShape(l, k);
      SubMembers(s, l);
      if Lookup(s, k).None? {
        AbsentDropKey(s, k);
      }
      if Lookup(l, k).None? {
        AbsentDropKey(l, k);
      }
      if op.Put? {
        InclusionPut(s, small, l, large, k, op.value);
      }
    }
  }

  lemma InclusionPut<K, V>(s: seq<(K, V)>, small: nat, l: seq<(K, V)>, large: nat, k: K, v: V)
    requires 0 < small <= large
    requires |s| <= small && |l| <= large && Distinct(l) && Distinct(s)
    requires Included(s, small, l, large)
    ensures Included(AfterPut(s, small, k, v), small, AfterPut(l, large, k, v), large)
  {
    var s', l' := AfterPut(s, small, k, v), AfterPut(l, large, k, v);
    SubLookup(s, l, k);
    SubDropKey(s, l, k);
    DropKeyShape(s, k);
    DropKeyShape(l, k);
    if Lookup(s, k).None? {
      AbsentDropKey(s, k);
    }
    if s != [] {
      SubInit(s, l);
      SubInitMoved(s, l, k);
    }
    assert s'[0] == l'[0];
    assert Sub(s'[1..], l'[1..]);
  }

  /** Evicting the smaller cache's last entry keeps the inclusion when the larger one only moves k to the front. */
  lemma SubInitMoved<K, V>(s: seq<(K, V)>, l: seq<(K, V)>, k: K)
    requires s != [] && Sub(s, l)
    ensures Lookup(s, k).None? ==> Sub(s[..|s| - 1], DropKey(l, k))
  {
    if Lookup(s, k).None? {
      SubDropKey(s, l, k);
      AbsentDropKey(s, k);
      SubInit(s, DropKey(l, k));
    }
  }

  /** No Belady anomaly: on the same trace the smaller cache is a sublist of the larger one, entry for entry. */
  lemma {:induction false} Inclusion<K, V>(small: nat, large: nat, trace: seq<Op<K, V>>)
    requires 0 < small <= large
    ensures Included(Run(small, trace), small, Run(large, trace), large)
  {
    if trace != [] {
      var init := trace[..|trace| - 1];
      Inclusion(small, large, init);
      RunShape(small, init);
      RunShape(large, init);
      InclusionStep(Run(small, init), small, Run(large, init), large, trace[|trace| - 1]);
    }
  }

  /** Every hit in the smaller cache is the same hit in the larger one. */
  lemma HitsAreIncluded<K, V>(small: nat, large: nat, trace: seq<Op<K, V>>, k: K)
    requires 0 < small <= large
    ensures Lookup(Run(small, trace), k).Some? ==> Lookup(Run(large, trace), k) == Lookup(Run(small, trace), k)
  {
    Inclusion(small, large, trace);
    RunShape(large, trace);
    SubLookup(Run(small, trace), Run(large, trace), k);
  }

  // ---------- Coherence and conservation ----------

  /** A hit returns the value of the latest put: the cache is a part of the unbounded map driven by the same trace. */
  lemma {:induction false} Coherence<K, V>(capacity: nat, trace: seq<Op<K, V>>)
    ensures forall p :: p in Run(capacity, trace) ==> p.0 in RefRun(trace) && RefRun(trace)[p.0] == p.1
  {
    if trace != [] {
      var init, op := trace[..|trace| - 1], trace[|trace| - 1];
      Coherence(capacity, init);
      var s := Run(capacity, init);
      assert forall i :: 0 <= i < |s| ==> s[i] in s;
      assert forall p :: p in Run(capacity, trace) ==> p in s || (op.Put? && p == (op.key, op.value));
    }
  }

  /** What an operation evicts. */
  function Victim<K(==), V>(s: seq<(K, V)>, capacity: nat, op: Op<K, V>): set<K> {
    if op.Put? && Lookup(s, op.key).None? && |s| >= capacity && s != [] then {s[|s| - 1].0} else {}
  }

  function Lost<K(==), V>(capacity: nat, trace: seq<Op<K, V>>): set<K> {
    if trace == [] then {}
    else
      var init := trace[..|trace| - 1];
      LossStep(Lost(capacity, init), trace[|trace| - 1], Victim(Run(capacity, init), capacity, trace[|trace| - 1]))
  }

  lemma KeysOfDropKey<K, V>(s: seq<(K, V)>, k: K)
    ensures Keys(DropKey(s, k)) == Keys(s) - {k}
  {
    var r := DropKey(s, k);
    forall x | x in Keys(s) - {k}
      ensures x in Keys(r)
    {
      var i :| 0 <= i < |s| && s[i].0 == x;
      assert s[i] in r;
      var j :| 0 <= j < |r| && r[j] == s[i];
    }
    forall x | x in Keys(r)
      ensures x in Keys(s) - {k}
    {
      var j :| 0 <= j < |r| && r[j].0 == x;
      assert r[j] in s;
      var i :| 0 <= i < |s| && s[i] == r[j];
    }
  }

  lemma KeysOfCons<K, V>(p: (K, V), s: seq<(K, V)>)
    ensures Keys([p] + s) == {p.0} + Keys(s)
  {
    var r := [p] + s;
    assert r[0] == p;
    assert forall i :: 0 <= i < |s| ==> r[i + 1] == s[i];
    assert forall i :: 0 < i < |r| ==> r[i] == s[i - 1];
  }

  lemma KeysOfInit<K, V>(s: seq<(K, V)>)
    requires Distinct(s) && s != []
    ensures Keys(s[..|s| - 1]) == Keys(s) - {s[|s| - 1].0}
  {
  }

  lemma KeysOfStep<K, V>(s: seq<(K, V)>, capacity: nat, op: Op<K, V>)
    requires Distinct(s)
    ensures Keys(Step(s, capacity, op)) ==
            match op {
              case Put(k, _) => Keys(s) - Victim(s, capacity, op) + {k}
              case Get(_) => Keys(s)
              case ConstGet(_) => Keys(s)
              case Remove(k) => Keys(s) - {k}
              case Clear => {}
            }
  {
    if !op.Clear? {
      KeysOfDropKey(s, op.key);
      LookupKeys(s, op.key);
      if op.Put? {
        KeysOfCons((op.key, op.value), DropKey(s, op.key));
        KeysOfCons((op.key, op.value), s);
        if s != [] {
          KeysOfInit(s);
          KeysOfCons((op.key, op.value), s[..|s| - 1]);
        }
      } else if Lookup(s, op.key).Some? {
        KeysOfCons((op.key, Lookup(s, op.key).value), DropKey(s, op.key));
      }
    }
  }

  lemma LookupKeys<K, V>(s: seq<(K, V)>, k: K)
    ensures Lookup(s, k).Some? <==> k in Keys(s)
  {
    if Lookup(s, k).Some? {
      var i :| 0 <= i < |s| && s[i] == (k, Lookup(s, k).value);
    }
  }

  /** Only evictions lose keys: what the unbounded map holds is cached or was evicted since its last put, never both. */
  lemma {:induction false} Conservation<K, V>(capacity: nat, trace: seq<Op<K, V>>)
    requires capacity > 0
    ensures RefRun(trace).Keys == Keys(Run(capacity, trace)) + Lost(capacity, trace)
    ensures Keys(Run(capacity, trace)) !! Lost(capacity, trace)
  {
    if trace != [] {
      var init, op := trace[..|trace| - 1], trace[|trace| - 1];
      Conservation(capacity, init);
      RunShape(capacity, init);
      KeysOfStep(Run(capacity, init), capacity, op);
      if !op.Clear? {
        LookupKeys(Run(capacity, init), op.key);
      }
    }
  }

  // ---------- Least recently used ----------

  /** The list is ordered by last use, newest first. */
  ghost predicate Recency<K, V>(trace: seq<Op<K, V>>, s: seq<(K, V)>) {
    forall i, j :: 0 <= i < j < |s| ==> LastUse(trace, s[i].0) > LastUse(trace, s[j].0)
  }

  lemma {:induction false} DropKeyRecency<K, V>(trace: seq<Op<K, V>>, s: seq<(K, V)>, k: K)
    requires Recency(trace, s)
    ensures Recency(trace, DropKey(s, k))
  {
    if s != [] {
      DropKeyRecency(trace, s[1..], k);
      var rest := DropKey(s[1..], k);
      assert forall i :: 0 <= i < |rest| ==> rest[i] in s[1..];
    }
  }

  /** Keys other than the one an operation names keep their order. */
  lemma RecencyExtend<K, V>(init: seq<Op<K, V>>, op: Op<K, V>, s: seq<(K, V)>, v: V)
    requires !op.Clear? && Recency(init, s)
    requires forall i :: 0 <= i < |s| ==> s[i].0 != op.key
    ensures Recency(init + [op], s)
    ensures Recency(init + [op], [(op.key, v)] + s)
  {
    var trace := init + [op];
    assert trace[..|trace| - 1] == init;
    forall i | 0 <= i < |s|
      ensures LastUse(trace, s[i].0) == LastUse(init, s[i].0) <= |init|
    {
      LastUseBound(init, s[i].0);
    }
  }

  lemma RecencyStep<K, V>(init: seq<Op<K, V>>, op: Op<K, V>, s: seq<(K, V)>, capacity: nat)
    requires Recency(init, s)
    ensures Recency(init + [op], Step(s, capacity, op))
  {
    match op
    case Clear =>
    case Put(k, v) =>
      if Lookup(s, k).Some? {
        DropKeyRecency(init, s, k);
        RecencyExtend(init, op, DropKey(s, k), v);
      } else {
        RecencyExtend(init, op, s, v);
        if s != [] {
          RecencyExtend(init, op, s[..|s| - 1], v);
        }
      }
    case Remove(k) =>
      DropKeyRecency(init, s, k);
      var rest := DropKey(s, k);
      if rest != [] {
        RecencyExtend(init, op, rest, rest[0].1);
      }
    case _ =>
      if Lookup(s, op.key).Some? {
        DropKeyRecency(init, s, op.key);
        RecencyExtend(init, op, DropKey(s, op.key), Lookup(s, op.key).value);
      } else if s != [] {
        RecencyExtend(init, op, s, s[0].1);
      }
  }

  lemma {:induction false} RecencyHolds<K, V>(capacity: nat, trace: seq<Op<K, V>>)
    ensures Recency(trace, Run(capacity, trace))
  {
    if trace != [] {
      var init, op := trace[..|trace| - 1], trace[|trace| - 1];
      RecencyHolds(capacity, init);
      RecencyStep(init, op, Run(capacity, init), capacity);
      assert trace == init + [op];
    }
  }

  /** What a get finds after a run, and only that: the value of the latest put of its key, if the key is cached. */
  lemma AnswerIff<K, V>(capacity: nat, trace: seq<Op<K, V>>, k: K, v: V)
    requires capacity > 0
    ensures Lookup(Run(capacity, trace), k).Some? <==> k in Keys(Run(capacity, trace))
    ensures (k, v) in Run(capacity, trace) <==>
      k in Keys(Run(capacity, trace)) && exists j :: LatestPut(trace, j, k, v)
    ensures (k, v) in Run(capacity, trace) <==>
      Lookup(Run(capacity, trace), k).Some? && Lookup(Run(capacity, trace), k).value == v
  {
    var s := Run(capacity, trace);
    RunShape(capacity, trace);
    Coherence(capacity, trace);
    RefRunIsLatestPut(trace, k, v);
    LookupKeys(s, k);
    if (k, v) in s {
      var i :| 0 <= i < |s| && s[i] == (k, v);
      LookupAt(s, i);
    }
    if k in Keys(s) {
      var i :| 0 <= i < |s| && s[i].0 == k;
      assert s[i] in s;
    }
  }

  /** While there is room, and whenever its key is cached already, a put evicts nothing. */
  lemma PutWithRoom<K, V>(capacity: nat, trace: seq<Op<K, V>>, k: K, v: V)
    requires capacity > 0
    requires k in Keys(Run(capacity, trace)) || |Run(capacity, trace)| < capacity
    ensures Keys(Run(capacity, trace + [Put(k, v)])) == Keys(Run(capacity, trace)) + {k}
    ensures Run(capacity, trace + [Put(k, v)])[0] == (k, v)
  {
    var s := Run(capacity, trace);
    assert (trace + [Put(k, v)])[..|trace|] == trace;
    LookupKeys(s, k);
    KeysOfDropKey(s, k);
    KeysOfCons((k, v), DropKey(s, k));
    KeysOfCons((k, v), s);
  }

  /** The evicted entry is the unique cached one whose last use is the oldest. */
  lemma VictimIsLeastRecent<K, V>(capacity: nat, trace: seq<Op<K, V>>, op: Op<K, V>, w: K)
    requires capacity > 0
    requires w in Victim(Run(capacity, trace), capacity, op)
    ensures w in Keys(Run(capacity, trace))
    ensures forall k :: k in Keys(Run(capacity, trace)) && k != w ==> LastUse(trace, w) < LastUse(trace, k)
    ensures Keys(Run(capacity, trace + [op])) == Keys(Run(capacity, trace)) - {w} + {op.key}
  {
    RecencyHolds(capacity, trace);
    RunShape(capacity, trace);
    KeysOfStep(Run(capacity, trace), capacity, op);
    assert (trace + [op])[..|trace|] == trace;
  }
}
