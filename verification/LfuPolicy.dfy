/** The policy "least frequent, ties by least recent": a plain map of entries with use counts and time stamps. */
module LfuPolicy {
  import opened Wrappers

  /** `freq` counts the insertion and every later put or get; `touched` is the time of the last of them. */
  datatype Entry<V> = Entry(value: V, freq: nat, touched: nat)

  datatype State<K, V> = State(entries: map<K, Entry<V>>, clock: nat)

  predicate Before<V>(a: Entry<V>, b: Entry<V>) {
    a.freq < b.freq || (a.freq == b.freq && a.touched < b.touched)
  }

  /** w is the entry with the lexicographically least (freq, touched). */
  ghost predicate IsVictim<K, V>(entries: map<K, Entry<V>>, w: K) {
    w in entries && forall k :: k in entries && k != w ==> Before(entries[w], entries[k])
  }

  lemma VictimIsUnique<K, V>(entries: map<K, Entry<V>>, w: K, x: K)
    requires IsVictim(entries, w) && IsVictim(entries, x)
    ensures w == x
  {
  }

  /** Time stamps are in the past. */
  ghost predicate Stamped<K, V>(s: State<K, V>) {
    forall k :: k in s.entries ==> s.entries[k].touched < s.clock
  }

  /** No two entries carry the same time stamp. */
  ghost predicate DistinctStamps<K, V>(entries: map<K, Entry<V>>) {
    forall j, k :: j in entries && k in entries && j != k ==> entries[j].touched != entries[k].touched
  }

  lemma {:induction false} VictimExists<K, V>(entries: map<K, Entry<V>>, n: nat)
    requires entries != map[] && n == |entries|
    requires DistinctStamps(entries)
    ensures exists w :: IsVictim(entries, w)
    decreases n
  {
    var k :| k in entries;
    var rest := entries - {k};
    if rest == map[] {
      assert entries.Keys == rest.Keys + {k};
      assert IsVictim(entries, k);
    } else {
      assert entries.Keys == rest.Keys + {k};
      VictimExists(rest, n - 1);
      var w :| IsVictim(rest, w);
      if Before(entries[k], entries[w]) {
        assert IsVictim(entries, k);
      } else {
        assert IsVictim(entries, w);
      }
    }
  }

  /** What is left after an eviction. */
  ghost function Evicted<K, V>(entries: map<K, Entry<V>>): map<K, Entry<V>> {
    map k | k in entries && !IsVictim(entries, k) :: entries[k]
  }

  lemma EvictedIs<K, V>(entries: map<K, Entry<V>>, w: K)
    requires IsVictim(entries, w)
    ensures Evicted(entries) == entries - {w}
  {
    assert forall k :: k in entries && k != w ==> !IsVictim(entries, k);
  }

  ghost function Touch<K, V>(s: State<K, V>, k: K, v: V): State<K, V>
    requires k in s.entries
  {
    State(s.entries[k := Entry(v, s.entries[k].freq + 1, s.clock)], s.clock + 1)
  }

  ghost function AfterPut<K, V>(s: State<K, V>, capacity: nat, k: K, v: V): State<K, V> {
    if k in s.entries then Touch(s, k, v)
    else
      var kept := if |s.entries| >= capacity then Evicted(s.entries) else s.entries;
      State(kept[k := Entry(v, 1, s.clock)], s.clock + 1)
  }

  ghost function AfterGet<K, V>(s: State<K, V>, k: K): State<K, V> {
    if k in s.entries then Touch(s, k, s.entries[k].value) else State(s.entries, s.clock + 1)
  }

  ghost function AfterRemove<K, V>(s: State<K, V>, k: K): State<K, V> {
    State(s.entries - {k}, s.clock + 1)
  }

  ghost function AfterClear<K, V>(s: State<K, V>): State<K, V> {
    State(map[], s.clock + 1)
  }

  function Lookup<K, V>(s: State<K, V>, k: K): (r: Option<V>)
    ensures r.Some? <==> k in s.entries
    ensures r.Some? ==> r.value == s.entries[k].value
  {
    if k in s.entries then Some(s.entries[k].value) else None
  }
}
