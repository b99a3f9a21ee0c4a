/** The contents of an LRU cache as a plain list, most recently used first, and what each operation does to it. */
module LruSpec {
  import opened Wrappers

  ghost predicate Distinct<K, V>(s: seq<(K, V)>) {
    forall i, j :: 0 <= i < j < |s| ==> s[i].0 != s[j].0
  }

  function Lookup<K(==), V>(s: seq<(K, V)>, k: K): (r: Option<V>)
    ensures r.Some? ==> (k, r.value) in s
    ensures r.None? ==> forall i :: 0 <= i < |s| ==> s[i].0 != k
  {
    if s == [] then None else if s[0].0 == k then Some(s[0].1) else Lookup(s[1..], k)
  }

  function DropKey<K(==), V>(s: seq<(K, V)>, k: K): (r: seq<(K, V)>)
    ensures forall i :: 0 <= i < |r| ==> r[i] in s && r[i].0 != k
    ensures forall i :: 0 <= i < |s| && s[i].0 != k ==> s[i] in r
  {
    if s == [] then [] else if s[0].0 == k then DropKey(s[1..], k) else [s[0]] + DropKey(s[1..], k)
  }

  function AfterPut<K(==), V>(s: seq<(K, V)>, capacity: nat, k: K, v: V): seq<(K, V)> {
    if Lookup(s, k).Some? then [(k, v)] + DropKey(s, k)
    else if |s| >= capacity && s != [] then [(k, v)] + s[..|s| - 1]
    else [(k, v)] + s
  }

  function AfterGet<K(==), V>(s: seq<(K, V)>, k: K): seq<(K, V)> {
    match Lookup(s, k)
    case Some(v) => [(k, v)] + DropKey(s, k)
    case None => s
  }

  lemma DropKeyCons<K, V>(p: (K, V), s: seq<(K, V)>, k: K)
    ensures DropKey([p] + s, k) == if p.0 == k then DropKey(s, k) else [p] + DropKey(s, k)
  {
    assert ([p] + s)[1..] == s;
  }

  lemma {:induction false} AbsentDropKey<K, V>(s: seq<(K, V)>, k: K)
    requires forall i :: 0 <= i < |s| ==> s[i].0 != k
    ensures DropKey(s, k) == s
  {
    if s != [] {
      assert s[0] in s;
      AbsentDropKey(s[1..], k);
    }
  }

  lemma {:induction false} LookupAt<K, V>(s: seq<(K, V)>, i: nat)
    requires Distinct(s) && i < |s|
    ensures Lookup(s, s[i].0) == Some(s[i].1)
  {
    if i > 0 {
      LookupAt(s[1..], i - 1);
    }
  }

  /** Changing only the value stored under k does not show once k is dropped. */
  lemma {:induction false} SameDropKey<K, V>(s: seq<(K, V)>, t: seq<(K, V)>, k: K)
    requires |s| == |t|
    requires forall i :: 0 <= i < |s| ==> s[i].0 == t[i].0 && (s[i].0 != k ==> s[i] == t[i])
    ensures DropKey(s, k) == DropKey(t, k)
  {
    if s != [] {
      SameDropKey(s[1..], t[1..], k);
    }
  }
}
