/** LFUCache: one list of nodes per use count, newest first, a map from keys to nodes, and the least count in use.

    Some contracts below say `P(x) == true` for a predicate P. The verifier takes a bare predicate in a contract apart
    into the quantifiers of its definition; the comparison hands it on whole, which keeps the proofs small. */
module LfuCache {
  import opened Wrappers
  import opened NodeLists
  import opened LfuPolicy

  /** A list node. The source overwrites a node's value in place, but gives an entry a new node for a new count. */
  class Node<K, V> {
    const key: K
    var value: V
    const freq: nat

    constructor (key: K, value: V, freq: nat)
      ensures this.key == key && this.value == value && this.freq == freq
    {
      this.key := key;
      this.value := value;
      this.freq := freq;
    }
  }

  // ---------- The linked structure: lists, key map m, and the policy's entries e ----------

  /** Node n stands in the list of count f, is the one its key maps to, and f is the entry's use count. */
  ghost predicate Slot<K, V>(n: Node<K, V>, f: nat, m: map<K, Node<K, V>>, e: map<K, Entry<V>>) {
    n.freq == f && n.key in m && m[n.key] == n && n.key in e && e[n.key].freq == f
  }

  /** Every listed node is in its slot. */
  ghost predicate Slots<K, V>(lists: map<nat, seq<Node<K, V>>>, m: map<K, Node<K, V>>, e: map<K, Entry<V>>) {
    forall f, i :: f in lists && 0 <= i < |lists[f]| ==> Slot(lists[f][i], f, m, e)
  }

  /** A list is ordered newest first by the time stamps of its keys. */
  ghost predicate NewestFirst<K, V>(nodes: seq<Node<K, V>>, e: map<K, Entry<V>>) {
    && (forall i :: 0 <= i < |nodes| ==> nodes[i].key in e)
    && (forall i, j :: 0 <= i < j < |nodes| ==> e[nodes[i].key].touched > e[nodes[j].key].touched)
  }

  ghost predicate Sorted<K, V>(lists: map<nat, seq<Node<K, V>>>, e: map<K, Entry<V>>) {
    forall f :: f in lists ==> NewestFirst(lists[f], e)
  }

  /** Every node of the key map is listed. */
  ghost predicate Listed<K, V>(lists: map<nat, seq<Node<K, V>>>, m: map<K, Node<K, V>>) {
    forall k :: k in m ==> m[k].key == k && m[k].freq in lists && m[k] in lists[m[k].freq]
  }

  ghost predicate Index<K, V>(lists: map<nat, seq<Node<K, V>>>, m: map<K, Node<K, V>>, e: map<K, Entry<V>>) {
    m.Keys == e.Keys && Slots(lists, m, e) && Sorted(lists, e) && Listed(lists, m)
  }

  /** No empty list is kept, and counts start at 1. */
  ghost predicate NoEmpty<T>(lists: map<nat, seq<T>>) {
    forall f :: f in lists ==> f >= 1 && lists[f] != []
  }

  /** The least element, or 0 for the empty set. */
  ghost predicate IsMin(m: nat, s: set<nat>) {
    if s == {} then m == 0 else m in s && forall x :: x in s ==> m <= x
  }

  ghost predicate Consistent<K, V>(lists: map<nat, seq<Node<K, V>>>, m: map<K, Node<K, V>>, e: map<K, Entry<V>>) {
    Index(lists, m, e) && NoEmpty(lists)
  }

  function ListOf<T>(lists: map<nat, seq<T>>, f: nat): seq<T> {
    if f in lists then lists[f] else []
  }

  /** The lists without the list of count f, should that one be empty. */
  function Pruned<T>(lists: map<nat, seq<T>>, f: nat): map<nat, seq<T>> {
    if f in lists && lists[f] == [] then lists - {f} else lists
  }

  /** The lists after node n was erased and an empty list dropped. */
  function Without<K(==), V(==)>(lists: map<nat, seq<Node<K, V>>>, n: Node<K, V>): map<nat, seq<Node<K, V>>> {
    Pruned(lists[n.freq := Erase(ListOf(lists, n.freq), n)], n.freq)
  }

  /** The lists after node n was put to the front of the list of its count. */
  function With<K, V>(lists: map<nat, seq<Node<K, V>>>, n: Node<K, V>): map<nat, seq<Node<K, V>>> {
    lists[n.freq := [n] + ListOf(lists, n.freq)]
  }

  /** Erasing a node from its list keeps all other nodes ... */
  lemma EraseOthers<K, V>(l: seq<Node<K, V>>, e: map<K, Entry<V>>, n: Node<K, V>)
    requires NewestFirst(l, e) && n in l
    ensures forall i :: 0 <= i < |Erase(l, n)| ==> Erase(l, n)[i] in l && Erase(l, n)[i].key != n.key
    ensures forall i :: 0 <= i < |l| && l[i] != n ==> l[i] in Erase(l, n)
  {
    var p := EraseAt(l, n);
    var r := Erase(l, n);
    hide Erase;
    CutMembers(l, p);
    KeysDiffer(l, e);
  }

  lemma CutMembers<T>(l: seq<T>, p: nat)
    requires p < |l|
    ensures var r := l[..p] + l[p + 1..];
            (forall i :: 0 <= i < |r| ==> r[i] == l[if i < p then i else i + 1])
            && forall i :: 0 <= i < |l| && i != p ==> l[i] in r
  {
    var r := l[..p] + l[p + 1..];
    forall i | 0 <= i < |l| && i != p ensures l[i] in r {
      assert r[if i < p then i else i - 1] == l[i];
    }
  }

  lemma KeysDiffer<K, V>(l: seq<Node<K, V>>, e: map<K, Entry<V>>)
    requires NewestFirst(l, e)
    ensures forall i, j :: 0 <= i < |l| && 0 <= j < |l| && i != j ==> l[i].key != l[j].key
  {
  }

  /** ... and their order. */
  lemma EraseOrder<K, V>(l: seq<Node<K, V>>, e: map<K, Entry<V>>, n: Node<K, V>)
    requires NewestFirst(l, e) && n in l
    ensures NewestFirst(Erase(l, n), e)
  {
    hide Erase;
    var p := EraseAt(l, n);
    CutOrder(l, e, p);
  }

  lemma CutOrder<K, V>(l: seq<Node<K, V>>, e: map<K, Entry<V>>, p: nat)
    requires NewestFirst(l, e) && p < |l|
    ensures NewestFirst(l[..p] + l[p + 1..], e)
  {
    var r := l[..p] + l[p + 1..];
    assert forall i :: 0 <= i < |r| ==> r[i] == l[if i < p then i else i + 1];
  }

  lemma NewestFirstWithout<K, V>(l: seq<Node<K, V>>, e: map<K, Entry<V>>, k: K)
    requires NewestFirst(l, e)
    requires forall i :: 0 <= i < |l| ==> l[i].key != k
    ensures NewestFirst(l, e - {k})
  {
  }

  lemma SlotsErase<K, V>(lists: map<nat, seq<Node<K, V>>>, m: map<K, Node<K, V>>, e: map<K, Entry<V>>,
      n: Node<K, V>, r: seq<Node<K, V>>)
    requires Slots(lists, m, e) && n.freq in lists && n.key in m && m[n.key] == n
    requires forall i :: 0 <= i < |r| ==> r[i] in lists[n.freq] && r[i].key != n.key
    ensures Slots(lists[n.freq := r], m - {n.key}, e - {n.key})
  {
    var lists' := lists[n.freq := r];
    forall f, i | f in lists' && 0 <= i < |lists'[f]|
      ensures Slot(lists'[f][i], f, m - {n.key}, e - {n.key})
    {
      var x := lists'[f][i];
      assert f == n.freq || x == lists[f][i];
      assert x in lists[f];
      var j :| 0 <= j < |lists[f]| && lists[f][j] == x;
      assert Slot(lists[f][j], f, m, e);
    }
  }

  lemma SortedErase<K, V>(lists: map<nat, seq<Node<K, V>>>, m: map<K, Node<K, V>>, e: map<K, Entry<V>>,
      n: Node<K, V>, r: seq<Node<K, V>>)
    requires Sorted(lists, e) && NewestFirst(r, e)
    requires Slots(lists[n.freq := r], m - {n.key}, e - {n.key})
    ensures Sorted(lists[n.freq := r], e - {n.key})
  {
    var lists' := lists[n.freq := r];
    forall f | f in lists'
      ensures NewestFirst(lists'[f], e - {n.key})
    {
      assert forall i :: 0 <= i < |lists'[f]| ==> Slot(lists'[f][i], f, m - {n.key}, e - {n.key});
      NewestFirstWithout(lists'[f], e, n.key);
    }
  }

  lemma ListedErase<K, V>(lists: map<nat, seq<Node<K, V>>>, m: map<K, Node<K, V>>, n: Node<K, V>,
      r: seq<Node<K, V>>)
    requires Listed(lists, m) && n.freq in lists && n.key in m && m[n.key] == n
    requires forall i :: 0 <= i < |lists[n.freq]| && lists[n.freq][i] != n ==> lists[n.freq][i] in r
    ensures Listed(lists[n.freq := r], m - {n.key})
  {
    var l := lists[n.freq];
    forall k | k in m && k != n.key && m[k].freq == n.freq
      ensures m[k] in r
    {
      var i :| 0 <= i < |l| && l[i] == m[k];
    }
  }

  /** The node of a key stands in a list, which is ordered. */
  lemma NodeListed<K, V>(lists: map<nat, seq<Node<K, V>>>, m: map<K, Node<K, V>>, e: map<K, Entry<V>>, k: K)
    requires Index(lists, m, e) && k in m
    ensures m[k].key == k && m[k].freq in lists && m[k] in lists[m[k].freq] && NewestFirst(lists[m[k].freq], e)
  {
    hide Slots, NewestFirst;
  }

  lemma IndexErase<K, V>(lists: map<nat, seq<Node<K, V>>>, m: map<K, Node<K, V>>, e: map<K, Entry<V>>, n: Node<K, V>)
    requires Index(lists, m, e) && n.key in m && m[n.key] == n
    ensures n.freq in lists && Index(lists[n.freq := Erase(lists[n.freq], n)], m - {n.key}, e - {n.key})
  {
    hide Slots, Sorted, Listed, NewestFirst, Erase;
    NodeListed(lists, m, e, n.key);
    var l := lists[n.freq];
    EraseOthers(l, e, n);
    EraseOrder(l, e, n);
    var r := Erase(l, n);
    SlotsErase(lists, m, e, n, r);
    SortedErase(lists, m, e, n, r);
    ListedErase(lists, m, n, r);
  }

  lemma IndexPruned<K, V>(lists: map<nat, seq<Node<K, V>>>, m: map<K, Node<K, V>>, e: map<K, Entry<V>>, f: nat)
    requires Index(lists, m, e)
    ensures Index(Pruned(lists, f), m, e)
  {
  }

  lemma {:induction false} Detached<K, V>(lists: map<nat, seq<Node<K, V>>>, m: map<K, Node<K, V>>,
      e: map<K, Entry<V>>, n: Node<K, V>)
    requires Consistent(lists, m, e) && n.key in m && m[n.key] == n
    ensures n.freq in lists && lists[n.freq := Erase(lists[n.freq], n)].Keys == lists.Keys
    ensures Consistent(Without(lists, n), m - {n.key}, e - {n.key})
  {
    IndexErase(lists, m, e, n);
    var lists' := lists[n.freq := Erase(lists[n.freq], n)];
    hide Index, Erase;
    IndexPruned(lists', m - {n.key}, e - {n.key}, n.freq);
  }

  lemma NewestFirstPush<K, V>(l: seq<Node<K, V>>, e: map<K, Entry<V>>, n: Node<K, V>, x: Entry<V>)
    requires NewestFirst(l, e) && n.key !in e
    requires forall k :: k in e ==> e[k].touched < x.touched
    ensures NewestFirst(l, e[n.key := x])
    ensures NewestFirst([n] + l, e[n.key := x])
  {
  }

  lemma SlotsPush<K, V>(lists: map<nat, seq<Node<K, V>>>, m: map<K, Node<K, V>>, e: map<K, Entry<V>>, n: Node<K, V>,
      x: Entry<V>)
    requires Slots(lists, m, e) && n.key !in m && x.freq == n.freq
    ensures Slots(With(lists, n), m[n.key := n], e[n.key := x])
  {
    var lists' := With(lists, n);
    forall f, i | f in lists' && 0 <= i < |lists'[f]|
      ensures Slot(lists'[f][i], f, m[n.key := n], e[n.key := x])
    {
      if f != n.freq {
        assert Slot(lists[f][i], f, m, e);
      } else if i > 0 {
        assert Slot(lists[f][i - 1], f, m, e);
      }
    }
  }

  lemma ListedPush<K, V>(lists: map<nat, seq<Node<K, V>>>, m: map<K, Node<K, V>>, n: Node<K, V>)
    requires Listed(lists, m)
    ensures Listed(With(lists, n), m[n.key := n])
  {
    var l := ListOf(lists, n.freq);
    assert ([n] + l)[0] == n;
    forall k | k in m && m[k].freq == n.freq
      ensures m[k] in [n] + l
    {
      var i :| 0 <= i < |l| && l[i] == m[k];
      assert ([n] + l)[i + 1] == m[k];
    }
  }

  lemma SortedPush<K, V>(lists: map<nat, seq<Node<K, V>>>, e: map<K, Entry<V>>, n: Node<K, V>, x: Entry<V>)
    requires Sorted(lists, e) && n.key !in e
    requires forall k :: k in e ==> e[k].touched < x.touched
    ensures Sorted(With(lists, n), e[n.key := x])
  {
    forall f | f in With(lists, n)
      ensures NewestFirst(With(lists, n)[f], e[n.key := x])
    {
      NewestFirstPush(ListOf(lists, f), e, n, x);
    }
  }

  /** A new node for key n.key, whose old node, if any, is no longer listed. */
  lemma Attached<K, V>(lists: map<nat, seq<Node<K, V>>>, m: map<K, Node<K, V>>, e: map<K, Entry<V>>, n: Node<K, V>,
      x: Entry<V>)
    requires Consistent(lists, m - {n.key}, e - {n.key}) && n.freq >= 1 && x.freq == n.freq
    requires forall k :: k in e ==> e[k].touched < x.touched
    ensures Consistent(With(lists, n), m[n.key := n], e[n.key := x])
    ensures With(lists, n).Keys == lists.Keys + {n.freq}
  {
    hide Slots, Listed, Sorted;
    var m', e' := m - {n.key}, e - {n.key};
    assert m'[n.key := n] == m[n.key := n];
    assert e'[n.key := x] == e[n.key := x];
    SlotsPush(lists, m', e', n, x);
    ListedPush(lists, m', n);
    SortedPush(lists, e', n, x);
  }

  lemma MinWith<T>(m: nat, lists: map<nat, seq<T>>, f: nat)
    requires IsMin(m, lists.Keys) && NoEmpty(lists) && f >= 1
    ensures IsMin(if m == 0 || f < m then f else m, lists.Keys + {f})
  {
  }

  lemma CountOfKey<K, V>(lists: map<nat, seq<Node<K, V>>>, m: map<K, Node<K, V>>, e: map<K, Entry<V>>, k: K)
    requires Index(lists, m, e) && k in e
    ensures k in m && e[k].freq == m[k].freq && m[k].freq in lists
  {
    var n := m[k];
    var i :| 0 <= i < |lists[n.freq]| && lists[n.freq][i] == n;
    assert Slot(lists[n.freq][i], n.freq, m, e);
  }

  /** Of two nodes in one list the one behind was touched earlier. */
  lemma LastIsOldest<K, V>(l: seq<Node<K, V>>, e: map<K, Entry<V>>, n: Node<K, V>)
    requires NewestFirst(l, e) && n in l && n.key != l[|l| - 1].key
    ensures n.key in e && l[|l| - 1].key in e && e[l[|l| - 1].key].touched < e[n.key].touched
  {
    var i :| 0 <= i < |l| && l[i] == n;
  }

  /** The last node of the list of the least count is the policy's victim. */
  lemma LastOfMinIsVictim<K, V>(lists: map<nat, seq<Node<K, V>>>, m: map<K, Node<K, V>>, e: map<K, Entry<V>>, min: nat)
    requires Consistent(lists, m, e) && IsMin(min, lists.Keys) && min in lists
    ensures lists[min] != []
    ensures var w := lists[min][|lists[min]| - 1];
            w.key in m && m[w.key] == w && IsVictim(e, w.key)
  {
    var l := lists[min];
    var w := l[|l| - 1];
    assert Slot(w, min, m, e);
    hide Slots, Sorted, Listed, NewestFirst;
    forall k | k in e && k != w.key
      ensures Before(e[w.key], e[k])
    {
      CountOfKey(lists, m, e, k);
      assert m[k].freq in lists.Keys;
      NodeListed(lists, m, e, k);
      if m[k].freq == min { LastIsOldest(l, e, m[k]); }
    }
  }

  lemma EmptyExactly<K, V>(lists: map<nat, seq<Node<K, V>>>, m: map<K, Node<K, V>>, e: map<K, Entry<V>>, min: nat)
    requires Consistent(lists, m, e) && IsMin(min, lists.Keys)
    ensures min in lists <==> m != map[]
  {
    if min in lists {
      assert Slot(lists[min][0], min, m, e);
    }
    if m != map[] {
      var k :| k in m;
      assert m[k].freq in lists.Keys;
    }
  }

  /** std::min_element over the counts in use. */
  method MinElement(s: set<nat>) returns (m: nat)
    requires s != {}
    ensures IsMin(m, s)
  {
    m :| m in s;
    var rest := s - {m};
    while rest != {}
      invariant m in s && rest <= s
      invariant forall x :: x in s && x !in rest ==> m <= x
      decreases rest
    {
      var x :| x in rest;
      if x < m {
        m := x;
      }
      rest := rest - {x};
    }
  }

  // ---------- The class ----------

  class LFUCache<K(==), V(==)> {
    var freqListMap: map<nat, seq<Node<K, V>>>
    var keyMap: map<K, Node<K, V>>
    const capacity: nat
    var minFreq: nat

    /** What the policy knows: the entries with use counts and time stamps, and the time. */
    ghost var model: State<K, V>

    /** All nodes in use. */
    ghost var nodes: set<Node<K, V>>

    ghost predicate Valid()
      reads this, nodes
    {
      && 0 < capacity
      && |keyMap| <= capacity
      && Linked(freqListMap, keyMap, minFreq, model) == true
      && Holds(keyMap, model.entries, nodes, {})
    }

    /** The nodes of all keys but those in `except` hold the entries' values. */
    static ghost predicate Holds(m: map<K, Node<K, V>>, e: map<K, Entry<V>>, nodes: set<Node<K, V>>, except: set<K>)
      reads nodes
    {
      forall k :: k in m && k !in except ==> k in e && m[k] in nodes && m[k].value == e[k].value
    }

    constructor (capacity: nat)
      requires 0 < capacity
      ensures Valid() && this.capacity == capacity && model == State(map[], 0)
    {
      this.capacity := capacity;
      freqListMap := map[];
      keyMap := map[];
      minFreq := 0;
      model := State(map[], 0);
      nodes := {};
    }

    /** The source's constructor: a capacity of 0 or less throws std::invalid_argument. */
    static method Create(capacity: int) returns (r: Result<LFUCache<K, V>, string>)
      ensures r.Ok? <==> capacity > 0
      ensures r.Ok? ==>
          fresh(r.value) && r.value.Valid() && r.value.capacity == capacity && r.value.model == State(map[], 0)
    {
      if capacity <= 0 {
        return Err("LFUCache::LFUCache: Cache capacity must be greater than 0");
      }
      var c := new LFUCache<K, V>(capacity);
      r := Ok(c);
    }

    /** Deletes the list of count freq if it has become empty, and re-derives the minimum if it was that list's. */
    method RemoveEmptyFreqList(freq: nat)
      requires IsMin(minFreq, freqListMap.Keys) == true
      modifies this`freqListMap, this`minFreq
      ensures freqListMap == Pruned(old(freqListMap), freq)
      ensures IsMin(minFreq, freqListMap.Keys) == true
    {
      if freq !in freqListMap {
        return;
      }
      if freqListMap[freq] == [] {
        freqListMap := freqListMap - {freq};
        assert freqListMap.Keys == old(freqListMap).Keys - {freq};
        if freq == minFreq {
          if freqListMap.Keys != {} {
            minFreq := MinElement(freqListMap.Keys);
          } else {
            minFreq := 0;
          }
        } else {
          assert minFreq in freqListMap.Keys;
        }
      }
    }

    /** Takes a node out of its list. */
    method Detach(n: Node<K, V>)
      requires IsMin(minFreq, freqListMap[n.freq := Erase(ListOf(freqListMap, n.freq), n)].Keys) == true
      modifies this`freqListMap, this`minFreq
      ensures freqListMap == Without(old(freqListMap), n)
      ensures IsMin(minFreq, freqListMap.Keys) == true
    {
      hide IsMin, Erase, ListOf, Pruned;
      freqListMap := freqListMap[n.freq := Erase(ListOf(freqListMap, n.freq), n)];
      RemoveEmptyFreqList(n.freq);
    }

    /** Puts a new node to the front of the list of its count and makes its key map to it. */
    method EmplaceFront(key: K, value: V, freq: nat) returns (n: Node<K, V>)
      modifies this`freqListMap, this`keyMap
      ensures fresh(n) && n.key == key && n.value == value && n.freq == freq
      ensures freqListMap == With(old(freqListMap), n)
      ensures keyMap == old(keyMap)[key := n]
    {
      hide ListOf;
      n := new Node(key, value, freq);
      freqListMap := freqListMap[freq := [n] + ListOf(freqListMap, freq)];
      keyMap := keyMap[key := n];
    }

    /** Moves an accessed entry to the front of the list of the next count. Its value may just have been overwritten. */
    method UpdateFrequency(n: Node<K, V>)
      requires 0 < capacity && |keyMap| <= capacity
      requires Linked(freqListMap, keyMap, minFreq, model) == true
      requires n.key in keyMap && keyMap[n.key] == n
      requires Holds(keyMap, model.entries, nodes, {n.key})
      modifies this
      ensures Valid()
      ensures n.key in old(model).entries && model == Touch(old(model), n.key, n.value)
      ensures fresh(nodes - old(nodes))
    {
      hide Linked, Consistent, Without, With, IsMin, Erase, ListOf, Stamped, Slot;
      Located(freqListMap, keyMap, minFreq, model, n);
      Detach(n);
      var node := EmplaceFront(n.key, n.value, n.freq + 1);
      Moved(old(freqListMap), old(keyMap), old(minFreq), minFreq, old(model), n, node);
      assert n.key in model.entries && Holds(keyMap, model.entries, nodes, {node.key});
      NoteUse(node);
    }

    /** The rest of an access: the least count, and what the policy knows, follow the new node. */
    method NoteUse(node: Node<K, V>)
      requires 0 < capacity && |keyMap| <= capacity
      requires Linked(freqListMap, keyMap, if minFreq == 0 || node.freq < minFreq then node.freq else minFreq,
                      Touched(model, node.key, node.value)) == true
      requires node.key in keyMap && keyMap[node.key] == node && node.key in model.entries
      requires Holds(keyMap, model.entries, nodes, {node.key})
      modifies this`minFreq, this`model, this`nodes
      ensures Valid()
      ensures model == Touch(old(model), node.key, node.value)
      ensures nodes == old(nodes) + {node}
    {
      hide Linked;
      if minFreq == 0 || node.freq < minFreq {
        minFreq := node.freq;
      }
      model := Touched(model, node.key, node.value);
      nodes := nodes + {node};
    }

    /** The key is not there: only time passes. */
    ghost method MissNoted()
      requires Valid()
      modifies this`model
      ensures Valid() && model == State(old(model).entries, old(model).clock + 1)
    {
      hide Linked;
      KeysAgree(freqListMap, keyMap, minFreq, model);
      model := State(model.entries, model.clock + 1);
    }

    /** The non-const get: a hit counts as a use. */
    method Get(key: K) returns (value: Option<V>)
      requires Valid()
      modifies this
      ensures Valid()
      ensures value.Some? <==> key in old(model).entries
      ensures value.Some? ==> value.value == old(model).entries[key].value
      ensures model == AfterGet(old(model), key)
      ensures fresh(nodes - old(nodes))
    {
      hide Linked, Touch;
      KeysAgree(freqListMap, keyMap, minFreq, model);
      if key !in keyMap {
        MissNoted();
        return None;
      }
      var n := keyMap[key];
      value := Some(n.value);
      UpdateFrequency(n);
    }

    /** The const get: no use is counted. */
    method ConstGet(key: K) returns (value: Option<V>)
      requires Valid()
      ensures value.Some? <==> key in model.entries
      ensures value.Some? ==> value.value == model.entries[key].value
    {
      hide Linked;
      KeysAgree(freqListMap, keyMap, minFreq, model);
      value := if key in keyMap then Some(keyMap[key].value) else None;
    }

    /** Evicts the last entry of the list of the least count; it fails only in an empty cache. */
    method EvictLfuItem() returns (ok: bool)
      requires Valid()
      modifies this
      ensures Valid()
      ensures ok <==> old(keyMap) != map[]
      ensures ok ==> |keyMap| == |old(keyMap)| - 1
      ensures ok ==> model == State(Evicted(old(model).entries), old(model).clock)
      ensures keyMap.Keys <= old(keyMap).Keys && nodes == old(nodes)
    {
      hide Linked, IsMin, Erase, ListOf, Without, Evicted;
      VictimStands(freqListMap, keyMap, minFreq, model);
      if minFreq !in freqListMap {
        return false;
      }
      var minFreqList := freqListMap[minFreq];
      var lfu := minFreqList[|minFreqList| - 1];
      var keyToRemove := lfu.key;
      Located(freqListMap, keyMap, minFreq, model, lfu);
      keyMap := keyMap - {keyToRemove};
      Detach(lfu);
      Removed(old(freqListMap), old(keyMap), old(minFreq), minFreq, old(model), lfu, model.clock);
      model := State(model.entries - {keyToRemove}, model.clock);
      ok := true;
    }

    method Put(key: K, value: V) returns (ok: bool)
      requires Valid()
      modifies this, nodes
      ensures ok && Valid()
      ensures model == AfterPut(old(model), capacity, key, value)
      ensures fresh(nodes - old(nodes))
    {
      hide Linked, Evicted, Touch;
      KeysAgree(freqListMap, keyMap, minFreq, model);
      if key in keyMap {
        Overwrite(keyMap[key], value);
        return true;
      }
      if |keyMap| >= capacity {
        NotEmpty(keyMap, capacity);
        var evicted := EvictLfuItem();
        if !evicted {
          return false;
        }
      }
      Insert(key, value);
      ok := true;
    }

    /** The key exists: update the value and count the use. */
    method Overwrite(n: Node<K, V>, value: V)
      requires Valid() && n.key in keyMap && keyMap[n.key] == n
      modifies this, n
      ensures Valid()
      ensures n.key in old(model).entries && model == Touch(old(model), n.key, value)
      ensures fresh(nodes - old(nodes))
    {
      hide Linked, Touch;
      KeysAgree(freqListMap, keyMap, minFreq, model);
      n.value := value;
      assert forall k :: k in keyMap && k != n.key ==> keyMap[k] != n;
      UpdateFrequency(n);
    }

    /** A new key with use count 1. */
    method Insert(key: K, value: V)
      requires Valid() && key !in keyMap && |keyMap| < capacity
      modifies this
      ensures Valid()
      ensures model == State(old(model).entries[key := Entry(value, 1, old(model).clock)], old(model).clock + 1)
      ensures fresh(nodes - old(nodes))
    {
      hide Linked, With;
      var n := EmplaceFront(key, value, 1);
      Inserted(old(freqListMap), old(keyMap), minFreq, model, n);
      minFreq := 1;
      model := State(model.entries[key := Entry(value, 1, model.clock)], model.clock + 1);
      nodes := nodes + {n};
    }

    method Remove(key: K) returns (found: bool)
      requires Valid()
      modifies this
      ensures Valid()
      ensures found == (key in old(model).entries)
      ensures model == AfterRemove(old(model), key)
      ensures nodes == old(nodes)
    {
      hide Linked;
      KeysAgree(freqListMap, keyMap, minFreq, model);
      if key !in keyMap {
        MinusAbsent(model.entries, key);
        MissNoted();
        return false;
      }
      var n := keyMap[key];
      Unlink(n);
      found := true;
    }

    method Unlink(n: Node<K, V>)
      requires Valid() && n.key in keyMap && keyMap[n.key] == n
      modifies this
      ensures Valid()
      ensures model == AfterRemove(old(model), n.key)
      ensures nodes == old(nodes)
    {
      hide Linked, IsMin, Erase, ListOf, Without;
      Located(freqListMap, keyMap, minFreq, model, n);
      Detach(n);
      Removed(old(freqListMap), keyMap, old(minFreq), minFreq, model, n, model.clock + 1);
      keyMap := keyMap - {n.key};
      model := State(model.entries - {n.key}, model.clock + 1);
    }

    method Clear()
      requires Valid()
      modifies this
      ensures Valid()
      ensures model == AfterClear(old(model))
      ensures nodes == {}
    {
      hide Linked;
      EmptyLinked<K, V>(model.clock + 1);
      freqListMap := map[];
      keyMap := map[];
      minFreq := 0;
      model := State(map[], model.clock + 1);
      nodes := {};
    }

    method Size() returns (n: nat)
      requires Valid()
      ensures n == |model.entries| <= capacity
      ensures n == 0 <==> model.entries == map[]
    {
      hide Linked;
      KeysAgree(freqListMap, keyMap, minFreq, model);
      n := |keyMap|;
    }

    method Contains(key: K) returns (found: bool)
      requires Valid()
      ensures found <==> key in model.entries
    {
      hide Linked;
      KeysAgree(freqListMap, keyMap, minFreq, model);
      found := key in keyMap;
    }
  }

  ghost function Touched<K, V>(s: State<K, V>, k: K, v: V): State<K, V> {
    if k in s.entries then Touch(s, k, v) else s
  }

  /** Everything the cache keeps about its pure parts. */
  ghost predicate Linked<K, V>(lists: map<nat, seq<Node<K, V>>>, m: map<K, Node<K, V>>, min: nat, s: State<K, V>) {
    Consistent(lists, m, s.entries) && Stamped(s) && IsMin(min, lists.Keys)
  }

  lemma Located<K, V>(lists: map<nat, seq<Node<K, V>>>, m: map<K, Node<K, V>>, min: nat, s: State<K, V>, n: Node<K, V>)
    requires Linked(lists, m, min, s) == true && n.key in m && m[n.key] == n
    ensures n.freq in lists && n.key in s.entries && s.entries[n.key].freq == n.freq
    ensures IsMin(min, lists[n.freq := Erase(ListOf(lists, n.freq), n)].Keys) == true
  {
    var i :| 0 <= i < |lists[n.freq]| && lists[n.freq][i] == n;
    assert Slot(lists[n.freq][i], n.freq, m, s.entries);
    assert lists[n.freq := Erase(lists[n.freq], n)].Keys == lists.Keys;
  }

  lemma Moved<K, V>(lists: map<nat, seq<Node<K, V>>>, m: map<K, Node<K, V>>, min0: nat, min: nat, s: State<K, V>,
      n: Node<K, V>, node: Node<K, V>)
    requires Linked(lists, m, min0, s) == true && n.key in m && m[n.key] == n
    requires IsMin(min, Without(lists, n).Keys) == true
    requires node.key == n.key && node.freq == n.freq + 1
    ensures Linked(With(Without(lists, n), node), m[n.key := node],
                   if min == 0 || node.freq < min then node.freq else min,
                   Touched(s, n.key, node.value)) == true
    ensures |m[n.key := node]| == |m|
  {
    hide Index, Slot, Without, With, Stamped;
    Located(lists, m, min0, s, n);
    Detached(lists, m, s.entries, n);
    Reattached(Without(lists, n), m, s, node);
    MinWith(min, Without(lists, n), node.freq);
    assert m[n.key := node].Keys == m.Keys;
  }

  lemma Reattached<K, V>(lists: map<nat, seq<Node<K, V>>>, m: map<K, Node<K, V>>, s: State<K, V>, n: Node<K, V>)
    requires Consistent(lists, m - {n.key}, s.entries - {n.key}) && Stamped(s) && n.freq >= 1
    ensures Consistent(With(lists, n), m[n.key := n], s.entries[n.key := Entry(n.value, n.freq, s.clock)])
    ensures With(lists, n).Keys == lists.Keys + {n.freq}
    ensures Stamped(State(s.entries[n.key := Entry(n.value, n.freq, s.clock)], s.clock + 1))
  {
    Attached(lists, m, s.entries, n, Entry(n.value, n.freq, s.clock));
  }

  lemma KeysAgree<K, V>(lists: map<nat, seq<Node<K, V>>>, m: map<K, Node<K, V>>, min: nat, s: State<K, V>)
    requires Linked(lists, m, min, s) == true
    ensures m.Keys == s.entries.Keys && |m| == |s.entries|
    ensures forall k :: k in m ==> m[k].key == k
    ensures Linked(lists, m, min, State(s.entries, s.clock + 1)) == true
  {
  }

  lemma MinusAbsent<K, V>(m: map<K, V>, k: K)
    requires k !in m
    ensures m - {k} == m
  {
  }

  lemma LargerByOne<K, V>(m: map<K, V>, k: K, v: V)
    requires k !in m
    ensures |m[k := v]| == |m| + 1
  {
    assert m[k := v].Keys == m.Keys + {k};
  }

  lemma NotEmpty<K, V>(m: map<K, V>, n: nat)
    requires |m| >= n > 0
    ensures m != map[]
  {
  }

  lemma VictimStands<K, V>(lists: map<nat, seq<Node<K, V>>>, m: map<K, Node<K, V>>, min: nat, s: State<K, V>)
    requires Linked(lists, m, min, s) == true
    ensures min in lists <==> m != map[]
    ensures min in lists ==> lists[min] != [] &&
                             var w := lists[min][|lists[min]| - 1];
                             w.key in m && m[w.key] == w && Evicted(s.entries) == s.entries - {w.key}
  {
    hide Index, Slot, NoEmpty;
    EmptyExactly(lists, m, s.entries, min);
    if min in lists {
      LastOfMinIsVictim(lists, m, s.entries, min);
      EvictedIs(s.entries, lists[min][|lists[min]| - 1].key);
    }
  }

  lemma Removed<K, V>(lists: map<nat, seq<Node<K, V>>>, m: map<K, Node<K, V>>, min0: nat, min: nat, s: State<K, V>,
      n: Node<K, V>, clock: nat)
    requires Linked(lists, m, min0, s) == true && n.key in m && m[n.key] == n && s.clock <= clock
    requires IsMin(min, Without(lists, n).Keys) == true
    ensures Linked(Without(lists, n), m - {n.key}, min, State(s.entries - {n.key}, clock)) == true
    ensures |m - {n.key}| == |m| - 1
  {
    hide Index, Slot, Without;
    Detached(lists, m, s.entries, n);
    assert m.Keys == (m - {n.key}).Keys + {n.key};
  }

  lemma Inserted<K, V>(lists: map<nat, seq<Node<K, V>>>, m: map<K, Node<K, V>>, min: nat, s: State<K, V>, n: Node<K, V>)
    requires Linked(lists, m, min, s) == true && n.key !in m && n.freq == 1
    ensures Linked(With(lists, n), m[n.key := n], 1,
                   State(s.entries[n.key := Entry(n.value, 1, s.clock)], s.clock + 1)) == true
    ensures |m[n.key := n]| == |m| + 1
  {
    hide Index, With, Stamped, Slot;
    KeysAgree(lists, m, min, s);
    MinusAbsent(m, n.key);
    MinusAbsent(s.entries, n.key);
    Reattached(lists, m, s, n);
    MinWith(min, lists, 1);
    LargerByOne(m, n.key, n);
  }

  lemma EmptyLinked<K, V>(clock: nat)
    ensures Linked<K, V>(map[], map[], 0, State(map[], clock)) == true
  {
  }
}
