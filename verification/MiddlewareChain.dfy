/** MiddlewareChain::execute: a re-entrant `next` over one shared index.

    In one execution every position of the chain is handled at most once, so what a middleware does to the chain is
    described by one number: how often it calls `next` while it is handled. */
module MiddlewareChain {

  datatype Middleware = Middleware(nextCalls: nat)

  function Range(a: nat, b: nat): (r: seq<nat>)
    requires a <= b
    ensures |r| == b - a
    ensures forall i :: 0 <= i < |r| ==> r[i] == a + i
  {
    seq(b - a, i => a + i)
  }

  /** The index after k pending calls of `next` that start at index a, worked off one after the other. */
  function End(chain: seq<Middleware>, a: nat, k: nat): (b: nat)
    ensures a <= b && (a <= |chain| ==> b <= |chain|)
    decreases |chain| - a
  {
    if k == 0 || a >= |chain| then a else End(chain, a + 1, k - 1 + chain[a].nextCalls)
  }

  /** Nested calls are worked off in the same order as pending ones. */
  lemma {:induction false} EndComposes(chain: seq<Middleware>, a: nat, j: nat, k: nat)
    ensures End(chain, End(chain, a, j), k) == End(chain, a, j + k)
    decreases |chain| - a
  {
    if j > 0 && a < |chain| {
      EndComposes(chain, a + 1, j - 1 + chain[a].nextCalls, k);
    }
  }

  class Chain {
    var middlewares: seq<Middleware>

    constructor ()
      ensures middlewares == []
    {
      middlewares := [];
    }

    method Add(middleware: Middleware)
      modifies this
      ensures middlewares == old(middlewares) + [middleware]
    {
      middlewares := middlewares + [middleware];
    }

    function Size(): (n: nat)
      reads this
      ensures n == |middlewares|
    {
      |middlewares|
    }

    /** Handles the first End(..) middlewares of the chain, in order, each once; see CountingLaw. */
    method Execute() returns (handled: seq<nat>)
      ensures handled == Range(0, End(middlewares, 0, 1))
    {
      var run := new Execution(middlewares);
      run.Next();
      handled := run.handled;
    }
  }

  /** The state captured by the closure of one execute call, and the positions handled so far. */
  class Execution {
    const chain: seq<Middleware>
    var index: nat
    var handled: seq<nat>

    constructor (chain: seq<Middleware>)
      ensures this.chain == chain && index == 0 && handled == []
    {
      this.chain := chain;
      index := 0;
      handled := [];
    }

    method Next()
      modifies this
      ensures index == End(chain, old(index), 1)
      ensures handled == old(handled) + Range(old(index), index)
      decreases |chain| - index, 0
    {
      if index < |chain| {
        var current := chain[index];
        handled := handled + [index];
        index := index + 1;
        Handle(current);
      }
    }

    /** The middleware's side of the protocol: it may call the closure any number of times. */
    method Handle(middleware: Middleware)
      modifies this
      ensures index == End(chain, old(index), middleware.nextCalls)
      ensures handled == old(handled) + Range(old(index), index)
      decreases |chain| - index, 1
    {
      for k := 0 to middleware.nextCalls
        invariant old(index) <= index == End(chain, old(index), k)
        invariant handled == old(handled) + Range(old(index), index)
      {
        EndComposes(chain, old(index), k, 1);
        Next();
      }
    }
  }

  // ---------- The counting law ----------

  /** How often the first n middlewares call `next`. */
  function Calls(chain: seq<Middleware>, n: nat): nat
    requires n <= |chain|
  {
    if n == 0 then 0 else Calls(chain, n - 1) + chain[n - 1].nextCalls
  }

  lemma {:induction false} EndIsLeast(chain: seq<Middleware>, a: nat, k: nat)
    requires a <= |chain|
    ensures var m := End(chain, a, k);
            && (forall j :: a <= j < m ==> k + Calls(chain, j) - Calls(chain, a) > j - a)
            && (m == |chain| || k + Calls(chain, m) - Calls(chain, a) == m - a)
    decreases |chain| - a
  {
    if k > 0 && a < |chain| {
      EndIsLeast(chain, a + 1, k - 1 + chain[a].nextCalls);
    }
  }

  /** The number of handled middlewares is the least m with 1 + (calls of the first m) == m, or else the whole chain. */
  lemma CountingLaw(chain: seq<Middleware>, m: nat)
    requires m <= |chain|
    ensures m == End(chain, 0, 1) <==>
            && (forall j :: 0 <= j < m ==> 1 + Calls(chain, j) != j)
            && (m == |chain| || 1 + Calls(chain, m) == m)
  {
    EndIsLeast(chain, 0, 1);
    var e := End(chain, 0, 1);
    if m < e {
      assert 1 + Calls(chain, m) > m;
    } else if e < m {
      assert 1 + Calls(chain, e) == e;
    }
  }

  lemma {:induction false} OneCallEach(chain: seq<Middleware>, n: nat)
    requires n <= |chain|
    requires forall i :: 0 <= i < n ==> chain[i].nextCalls == 1
    ensures Calls(chain, n) == n
  {
    if n > 0 {
      OneCallEach(chain, n - 1);
    }
  }

  /** The documented use: while every middleware calls `next` once the chain goes on, and the first one that does not
      call it is the last one handled. */
  lemma ShortCircuit(chain: seq<Middleware>, n: nat)
    requires n <= |chain|
    requires forall i :: 0 <= i < n ==> chain[i].nextCalls == 1
    ensures n == |chain| ==> End(chain, 0, 1) == n
    ensures n < |chain| && chain[n].nextCalls == 0 ==> End(chain, 0, 1) == n + 1
  {
    forall j | 0 <= j <= n
      ensures Calls(chain, j) == j
    {
      OneCallEach(chain, j);
    }
    if n == |chain| {
      CountingLaw(chain, n);
    } else if chain[n].nextCalls == 0 {
      CountingLaw(chain, n + 1);
    }
  }
}
