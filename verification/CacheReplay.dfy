/** Whole traces of operations carried out by the cache objects: what is proved about the runs of the two policies is
    proved about the caches. */
module CacheReplay {
  import opened Wrappers
  import opened CacheTrace
  import Lfu = LfuCache
  import Lru = LruCache
  import LfuPolicy
  import LfuRuns = LfuTheorems
  import LruSpec
  import LruRuns = LruTheorems

  predicate Asks<K, V>(op: Op<K, V>) {
    op.Get? || op.ConstGet?
  }

  /** A get of either kind finds the value that is held for its key, if there is one, and all else finds nothing. */
  ghost predicate Answered<K, V>(entries: map<K, LfuPolicy.Entry<V>>, op: Op<K, V>, answer: Option<V>) {
    if (op.Get? || op.ConstGet?) && op.key in entries then answer == Some(entries[op.key].value) else answer == None
  }

  /** What is answered at position i of the trace. */
  ghost predicate LfuAnswer<K, V>(capacity: nat, trace: seq<Op<K, V>>, i: nat, answer: Option<V>)
    requires i < |trace|
  {
    Answered(LfuRuns.Run(capacity, trace[..i]).entries, trace[i], answer)
  }

  ghost predicate LfuAnswers<K, V>(capacity: nat, trace: seq<Op<K, V>>, answers: seq<Option<V>>) {
    forall i :: 0 <= i < |answers| && i < |trace| ==> LfuAnswer(capacity, trace, i, answers[i])
  }

  ghost predicate LruAnswer<K, V>(capacity: nat, trace: seq<Op<K, V>>, i: nat, answer: Option<V>)
    requires i < |trace|
  {
    answer == if Asks(trace[i]) then LruSpec.Lookup(LruRuns.Run(capacity, trace[..i]), trace[i].key) else None
  }

  ghost predicate LruAnswers<K, V>(capacity: nat, trace: seq<Op<K, V>>, answers: seq<Option<V>>) {
    forall i :: 0 <= i < |answers| && i < |trace| ==> LruAnswer(capacity, trace, i, answers[i])
  }

  /** Over a whole replay: a get of k answers v exactly if k is cached and v is the value of the latest put of k since
      the last remove of k and the last clear. */
  lemma LfuAnswersAreLatestPuts<K, V>(capacity: nat, trace: seq<Op<K, V>>, answers: seq<Option<V>>, i: nat, v: V)
    requires LfuAnswers(capacity, trace, answers) && i < |answers| == |trace|
    requires trace[i].Get? || trace[i].ConstGet?
    ensures answers[i] == Some(v) <==>
      trace[i].key in LfuRuns.Run(capacity, trace[..i]).entries && exists j :: LatestPut(trace[..i], j, trace[i].key, v)
  {
    hide LfuRuns.Run;
    assert LfuAnswer(capacity, trace, i, answers[i]);
    LfuRuns.AnswerIff(capacity, trace[..i], trace[i].key, v);
  }

  lemma LruAnswersAreLatestPuts<K, V>(capacity: nat, trace: seq<Op<K, V>>, answers: seq<Option<V>>, i: nat, v: V)
    requires capacity > 0 && LruAnswers(capacity, trace, answers) && i < |answers| == |trace|
    requires trace[i].Get? || trace[i].ConstGet?
    ensures answers[i] == Some(v) <==>
      trace[i].key in LruRuns.Keys(LruRuns.Run(capacity, trace[..i]))
      && exists j :: LatestPut(trace[..i], j, trace[i].key, v)
  {
    hide LruRuns.Run;
    assert LruAnswer(capacity, trace, i, answers[i]);
    LruRuns.AnswerIff(capacity, trace[..i], trace[i].key, v);
  }

  lemma LfuRunNext<K, V>(capacity: nat, trace: seq<Op<K, V>>, i: nat)
    requires i < |trace|
    ensures LfuRuns.Run(capacity, trace[..i + 1]) == LfuRuns.Step(LfuRuns.Run(capacity, trace[..i]), capacity, trace[i])
  {
    assert trace[..i + 1][..i] == trace[..i];
  }

  lemma LruRunNext<K, V>(capacity: nat, trace: seq<Op<K, V>>, i: nat)
    requires i < |trace|
    ensures LruRuns.Run(capacity, trace[..i + 1]) == LruRuns.Step(LruRuns.Run(capacity, trace[..i]), capacity, trace[i])
  {
    assert trace[..i + 1][..i] == trace[..i];
  }

  lemma LfuStart<K, V>(capacity: nat, trace: seq<Op<K, V>>)
    ensures LfuRuns.Run(capacity, trace[..0]) == LfuPolicy.State(map[], 0) && LfuAnswers(capacity, trace, [])
  {
  }

  lemma LruStart<K, V>(capacity: nat, trace: seq<Op<K, V>>)
    ensures LruRuns.Run(capacity, trace[..0]) == [] && LruAnswers(capacity, trace, [])
  {
  }

  lemma LfuAnswersGrow<K, V>(capacity: nat, trace: seq<Op<K, V>>, answers: seq<Option<V>>, answer: Option<V>)
    requires LfuAnswers(capacity, trace, answers) && |answers| < |trace|
    requires LfuAnswer(capacity, trace, |answers|, answer)
    ensures LfuAnswers(capacity, trace, answers + [answer])
  {
    hide LfuAnswer;
  }

  lemma LruAnswersGrow<K, V>(capacity: nat, trace: seq<Op<K, V>>, answers: seq<Option<V>>, answer: Option<V>)
    requires LruAnswers(capacity, trace, answers) && |answers| < |trace|
    requires LruAnswer(capacity, trace, |answers|, answer)
    ensures LruAnswers(capacity, trace, answers + [answer])
  {
    hide LruAnswer;
  }

  /** One operation of an LFU cache; the answer of a put, remove or clear is None. */
  method LfuStep<K(==), V(==)>(c: Lfu.LFUCache<K, V>, op: Op<K, V>) returns (answer: Option<V>)
    requires c.Valid()
    modifies c, c.nodes
    ensures c.Valid() && fresh(c.nodes - old(c.nodes))
    ensures c.model == LfuRuns.Step(old(c.model), c.capacity, op)
    ensures Answered(old(c.model).entries, op, answer)
  {
    hide Lfu.Linked, LfuPolicy.AfterPut, LfuPolicy.AfterGet, LfuPolicy.AfterRemove;
    answer := None;
    match op
    case Put(k, v) => var ok := c.Put(k, v);
    case Get(k) => answer := c.Get(k);
    case ConstGet(k) => answer := c.ConstGet(k);
    case Remove(k) => var found := c.Remove(k);
    case Clear => c.Clear();
  }

  /** A new LFU cache driven by a trace is in the state of the run, and answers as the run does. */
  method ReplayLfu<K(==), V(==)>(c: Lfu.LFUCache<K, V>, trace: seq<Op<K, V>>) returns (answers: seq<Option<V>>)
    requires c.Valid() && c.model == LfuPolicy.State(map[], 0)
    modifies c, c.nodes
    ensures c.Valid() && fresh(c.nodes - old(c.nodes))
    ensures c.model == LfuRuns.Run(c.capacity, trace)
    ensures |answers| == |trace| && LfuAnswers(c.capacity, trace, answers)
  {
    hide LfuRuns.Run, LfuRuns.Step, LfuAnswers, Answered, Lfu.LFUCache.Valid, Lfu.LFUCache.Holds;
    answers := [];
    LfuStart(c.capacity, trace);
    var i := 0;
    while i < |trace|
      invariant 0 <= i <= |trace| && |answers| == i
      invariant c.Valid() && fresh(c.nodes - old(c.nodes))
      invariant c.model == LfuRuns.Run(c.capacity, trace[..i])
      invariant LfuAnswers(c.capacity, trace, answers)
    {
      var answer := LfuStep(c, trace[i]);
      LfuRunNext(c.capacity, trace, i);
      LfuAnswersGrow(c.capacity, trace, answers, answer);
      answers := answers + [answer];
      i := i + 1;
    }
    assert trace[..i] == trace;
  }

  method LruStep<K(==), V(==)>(c: Lru.LRUCache<K, V>, op: Op<K, V>) returns (answer: Option<V>)
    requires c.Valid()
    modifies c, c.cacheList
    ensures c.Valid() && forall n :: n in c.cacheList ==> n in old(c.cacheList) || fresh(n)
    ensures c.Contents() == LruRuns.Step(old(c.Contents()), c.capacity, op)
    ensures answer == if Asks(op) then LruSpec.Lookup(old(c.Contents()), op.key) else None
  {
    hide Lru.Linked, Lru.View, LruSpec.AfterPut, LruSpec.AfterGet, LruSpec.DropKey, LruSpec.Lookup;
    answer := None;
    match op
    case Put(k, v) => var ok := c.Put(k, v);
    case Get(k) => answer := c.Get(k);
    case ConstGet(k) => answer := c.Get(k);
    case Remove(k) => var found := c.Remove(k);
    case Clear => c.Clear();
  }

  method ReplayLru<K(==), V(==)>(c: Lru.LRUCache<K, V>, trace: seq<Op<K, V>>) returns (answers: seq<Option<V>>)
    requires c.Valid() && c.Contents() == []
    modifies c, c.cacheList
    ensures c.Valid() && c.Contents() == LruRuns.Run(c.capacity, trace)
    ensures |answers| == |trace| && LruAnswers(c.capacity, trace, answers)
  {
    hide LruRuns.Run, LruRuns.Step, LruSpec.Lookup, LruAnswers;
    answers := [];
    LruStart(c.capacity, trace);
    var i := 0;
    while i < |trace|
      invariant 0 <= i <= |trace| && |answers| == i
      invariant c.Valid() && forall n :: n in c.cacheList ==> n in old(c.cacheList) || fresh(n)
      invariant c.Contents() == LruRuns.Run(c.capacity, trace[..i])
      invariant LruAnswers(c.capacity, trace, answers)
    {
      var answer := LruStep(c, trace[i]);
      LruRunNext(c.capacity, trace, i);
      LruAnswersGrow(c.capacity, trace, answers, answer);
      answers := answers + [answer];
      i := i + 1;
    }
    assert trace[..i] == trace;
  }
}
