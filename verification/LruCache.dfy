/** LRUCache: a list of nodes, most recently used first, and a map from keys to nodes of that list. */
module LruCache {
  import opened Wrappers
  import opened NodeLists
  import opened LruSpec

  // ---------- The class ----------

  class Node<K, V> {
    const key: K
    var value: V

    constructor (key: K, value: V)
      ensures this.key == key && this.value == value
    {
      this.key := key;
      this.value := value;
    }
  }

  ghost predicate KeysDistinct<K, V>(nodes: seq<Node<K, V>>) {
    forall i, j :: 0 <= i < j < |nodes| ==> nodes[i].key != nodes[j].key
  }

  ghost function View<K, V>(nodes: seq<Node<K, V>>): (s: seq<(K, V)>)
    reads nodes
    ensures |s| == |nodes|
    ensures forall i :: 0 <= i < |nodes| ==> s[i] == (nodes[i].key, nodes[i].value)
  {
    seq(|nodes|, i requires 0 <= i < |nodes| reads nodes => (nodes[i].key, nodes[i].value))
  }

  lemma ViewCons<K, V>(n: Node<K, V>, nodes: seq<Node<K, V>>)
    ensures View([n] + nodes) == [(n.key, n.value)] + View(nodes)
  {
  }

  lemma EraseFirst<K, V>(nodes: seq<Node<K, V>>)
    requires nodes != []
    ensures [nodes[0]] + Erase(nodes, nodes[0]) == nodes
  {
  }

  lemma DistinctCons<K, V>(n: Node<K, V>, nodes: seq<Node<K, V>>)
    requires KeysDistinct(nodes)
    requires forall i :: 0 <= i < |nodes| ==> nodes[i].key != n.key
    ensures KeysDistinct([n] + nodes)
  {
  }

  lemma EraseKeys<K, V>(nodes: seq<Node<K, V>>, n: Node<K, V>)
    requires KeysDistinct(nodes) && n in nodes
    ensures |Erase(nodes, n)| == |nodes| - 1
    ensures KeysDistinct(Erase(nodes, n))
    ensures forall i :: 0 <= i < |nodes| - 1 ==> Erase(nodes, n)[i] in nodes && Erase(nodes, n)[i].key != n.key
    ensures forall i :: 0 <= i < |nodes| && nodes[i].key != n.key ==> nodes[i] in Erase(nodes, n)
  {
    var p := EraseAt(nodes, n);
    var r := Erase(nodes, n);
    hide Erase;
    assert forall i :: 0 <= i < |r| ==> r[i] == nodes[if i < p then i else i + 1];
    forall i | 0 <= i < |nodes| && i != p
      ensures nodes[i] in r
    {
      assert r[if i < p then i else i - 1] == nodes[i];
    }
  }

  lemma {:induction false} EraseView<K, V>(nodes: seq<Node<K, V>>, n: Node<K, V>)
    requires KeysDistinct(nodes) && n in nodes
    ensures View(Erase(nodes, n)) == DropKey(View(nodes), n.key)
  {
    hide Erase, DropKey, View;
    var first, rest := nodes[0], nodes[1..];
    assert nodes == [first] + rest;
    EraseCons(first, rest, n);
    ViewCons(first, rest);
    DropKeyCons((first.key, first.value), View(rest), n.key);
    if first == n {
      AbsentDropKey(View(rest), n.key);
    } else {
      EraseView(rest, n);
      ViewCons(first, Erase(rest, n));
    }
  }

  /** The list and the map hold the same nodes, each under its own key. */
  ghost predicate Linked<K, V>(nodes: seq<Node<K, V>>, m: map<K, Node<K, V>>) {
    && KeysDistinct(nodes)
    && (forall i :: 0 <= i < |nodes| ==> nodes[i].key in m && m[nodes[i].key] == nodes[i])
    && (forall k :: k in m ==> m[k] in nodes && m[k].key == k)
  }

  lemma LinkedErase<K, V>(nodes: seq<Node<K, V>>, m: map<K, Node<K, V>>, n: Node<K, V>)
    requires Linked(nodes, m) && n in nodes
    ensures Linked(Erase(nodes, n), m - {n.key})
    ensures Linked([n] + Erase(nodes, n), m)
    ensures |Erase(nodes, n)| == |nodes| - 1
  {
    hide Erase;
    EraseKeys(nodes, n);
    var rest := Erase(nodes, n);
    forall i | 0 <= i < |rest|
      ensures rest[i].key in m && m[rest[i].key] == rest[i] && rest[i].key != n.key
    {
      var j :| 0 <= j < |nodes| && nodes[j] == rest[i];
    }
    DistinctCons(n, rest);
    forall k | k in m
      ensures m[k] in [n] + rest && (k != n.key ==> m[k] in rest)
    {
      var j :| 0 <= j < |nodes| && nodes[j] == m[k];
    }
  }

  lemma LinkedPush<K, V>(nodes: seq<Node<K, V>>, m: map<K, Node<K, V>>, n: Node<K, V>)
    requires Linked(nodes, m) && n.key !in m
    ensures Linked([n] + nodes, m[n.key := n])
  {
  }

  lemma LinkedPop<K, V>(nodes: seq<Node<K, V>>, m: map<K, Node<K, V>>)
    requires Linked(nodes, m) && nodes != []
    ensures Linked(nodes[..|nodes| - 1], m - {nodes[|nodes| - 1].key})
  {
    var last := nodes[|nodes| - 1];
    forall k | k in m && k != last.key
      ensures m[k] in nodes[..|nodes| - 1]
    {
      var i :| 0 <= i < |nodes| && nodes[i] == m[k];
      assert nodes[..|nodes| - 1][i] == m[k];
    }
  }

  /** std::list::splice of one node to the front. */
  lemma SpliceFront<K, V>(nodes: seq<Node<K, V>>, m: map<K, Node<K, V>>, n: Node<K, V>)
    requires Linked(nodes, m) && n in nodes
    ensures Linked([n] + Erase(nodes, n), m)
    ensures |[n] + Erase(nodes, n)| == |nodes|
    ensures View([n] + Erase(nodes, n)) == [(n.key, n.value)] + DropKey(View(nodes), n.key)
    ensures n == nodes[0] ==> [n] + Erase(nodes, n) == nodes
  {
    EraseView(nodes, n);
    LinkedErase(nodes, m, n);
    ViewCons(n, Erase(nodes, n));
    EraseFirst(nodes);
  }

  class LRUCache<K(==), V(==)> {
    var cacheList: seq<Node<K, V>>
    var cacheMap: map<K, Node<K, V>>
    const capacity: nat

    ghost predicate Valid()
      reads this
    {
      && 0 < capacity
      && |cacheList| <= capacity
      && Linked(cacheList, cacheMap)
    }

    /** The entries, most recently used first. */
    ghost function Contents(): (s: seq<(K, V)>)
      reads this, cacheList
      requires Valid()
      ensures |s| == |cacheList| <= capacity
    {
      View(cacheList)
    }

    lemma ContentsDistinct()
      requires Valid()
      ensures Distinct(Contents())
    {
    }

    constructor (capacity: nat)
      requires 0 < capacity
      ensures Valid() && this.capacity == capacity && Contents() == []
    {
      this.capacity := capacity;
      cacheList := [];
      cacheMap := map[];
    }

    /** The source's constructor: capacity 0 throws std::invalid_argument. */
    static method Create(capacity: nat) returns (r: Result<LRUCache<K, V>, string>)
      ensures r.Ok? <==> capacity > 0
      ensures r.Ok? ==> fresh(r.value) && r.value.Valid() && r.value.capacity == capacity && r.value.Contents() == []
    {
      if capacity == 0 {
        return Err("Cache capacity must be greater than 0");
      }
      var c := new LRUCache<K, V>(capacity);
      r := Ok(c);
    }

    lemma KeyIndex(key: K) returns (i: nat)
      requires Valid() && key in cacheMap
      ensures i < |cacheList| && cacheList[i] == cacheMap[key]
      ensures Lookup(Contents(), key) == Some(cacheMap[key].value)
    {
      i :| 0 <= i < |cacheList| && cacheList[i] == cacheMap[key];
      ContentsDistinct();
      LookupAt(Contents(), i);
    }

    lemma KeyAbsent(key: K)
      requires Valid() && key !in cacheMap
      ensures Lookup(Contents(), key) == None
      ensures forall n :: n in cacheList ==> n.key != key
    {
    }

    method MoveToFront(n: Node<K, V>)
      requires Valid() && n in cacheList
      modifies this`cacheList
      ensures Valid() && cacheList == [n] + Erase(old(cacheList), n)
      ensures Contents() == [(n.key, n.value)] + DropKey(old(Contents()), n.key)
    {
      SpliceFront(cacheList, cacheMap, n);
      hide Linked, DropKey, Erase, View;
      if n != cacheList[0] {
        cacheList := [n] + Erase(cacheList, n);
      }
    }

    /** Both overloads of get: even the const one moves the entry to the front. */
    method Get(key: K) returns (value: Option<V>)
      requires Valid()
      modifies this`cacheList
      ensures Valid()
      ensures value == Lookup(old(Contents()), key)
      ensures Contents() == AfterGet(old(Contents()), key)
      ensures forall n :: n in cacheList <==> n in old(cacheList)
    {
      if key !in cacheMap {
        KeyAbsent(key);
        return None;
      }
      var i := KeyIndex(key);
      var n := cacheMap[key];
      EraseKeys(cacheList, n);
      MoveToFront(n);
      value := Some(n.value);
    }

    method Put(key: K, value: V) returns (ok: bool)
      requires Valid()
      modifies this, cacheList
      ensures ok && Valid()
      ensures Contents() == AfterPut(old(Contents()), capacity, key, value)
      ensures forall n :: n in cacheList ==> n in old(cacheList) || fresh(n)
    {
      ok := true;
      if key in cacheMap {
        var i := KeyIndex(key);
        Overwrite(cacheMap[key], value);
        return;
      }
      KeyAbsent(key);
      if |cacheList| >= capacity {
        EvictLast();
      }
      EmplaceFront(key, value);
    }

    method EmplaceFront(key: K, value: V)
      requires Valid() && key !in cacheMap && |cacheList| < capacity
      modifies this
      ensures Valid()
      ensures Contents() == [(key, value)] + old(Contents())
      ensures forall n :: n in cacheList ==> n in old(cacheList) || fresh(n)
    {
      var n := new Node(key, value);
      LinkedPush(cacheList, cacheMap, n);
      ViewCons(n, cacheList);
      cacheList := [n] + cacheList;
      cacheMap := cacheMap[key := n];
    }

    method Overwrite(n: Node<K, V>, value: V)
      requires Valid() && n in cacheList
      modifies this`cacheList, n
      ensures Valid()
      ensures Contents() == [(n.key, value)] + DropKey(old(Contents()), n.key)
      ensures forall x :: x in cacheList ==> x in old(cacheList)
    {
      ghost var before := Contents();
      n.value := value;
      SameDropKey(before, Contents(), n.key);
      EraseKeys(cacheList, n);
      MoveToFront(n);
    }

    method EvictLast()
      requires Valid() && cacheList != []
      modifies this
      ensures Valid()
      ensures cacheList == old(cacheList)[..|old(cacheList)| - 1]
      ensures Contents() == old(Contents())[..|old(cacheList)| - 1]
      ensures cacheMap.Keys <= old(cacheMap).Keys
    {
      var last := cacheList[|cacheList| - 1];
      LinkedPop(cacheList, cacheMap);
      cacheMap := cacheMap - {last.key};
      cacheList := cacheList[..|cacheList| - 1];
    }

    method Remove(key: K) returns (found: bool)
      requires Valid()
      modifies this
      ensures Valid()
      ensures found == Lookup(old(Contents()), key).Some?
      ensures Contents() == DropKey(old(Contents()), key)
      ensures forall n :: n in cacheList ==> n in old(cacheList)
    {
      if key !in cacheMap {
        KeyAbsent(key);
        AbsentDropKey(Contents(), key);
        return false;
      }
      var i := KeyIndex(key);
      var n := cacheMap[key];
      EraseView(cacheList, n);
      LinkedErase(cacheList, cacheMap, n);
      cacheList := Erase(cacheList, n);
      cacheMap := cacheMap - {key};
      found := true;
    }

    method Clear()
      requires Valid()
      modifies this
      ensures Valid() && Contents() == [] && cacheList == []
    {
      cacheList := [];
      cacheMap := map[];
    }

    method Size() returns (n: nat)
      requires Valid()
      ensures n == |Contents()| <= capacity
    {
      n := |cacheList|;
    }

    method Contains(key: K) returns (found: bool)
      requires Valid()
      ensures found == Lookup(Contents(), key).Some?
    {
      found := key in cacheMap;
      if found {
        var i := KeyIndex(key);
      } else {
        KeyAbsent(key);
      }
    }
  }
}
