/** std::list::erase on a list given as the sequence of its nodes; an iterator is the node it points to. */
module NodeLists {

  function Erase<T(==)>(s: seq<T>, x: T): seq<T> {
    if s == [] then [] else if s[0] == x then s[1..] else [s[0]] + Erase(s[1..], x)
  }

  lemma EraseCons<T>(y: T, s: seq<T>, x: T)
    ensures Erase([y] + s, x) == if y == x then s else [y] + Erase(s, x)
  {
    assert ([y] + s)[1..] == s;
  }

  /** Erasing an element cuts the list at one position. */
  lemma {:induction false} EraseAt<T>(s: seq<T>, x: T) returns (p: nat)
    requires x in s
    ensures p < |s| && s[p] == x
    ensures Erase(s, x) == s[..p] + s[p + 1..]
  {
    if s[0] == x {
      p := 0;
    } else {
      var q := EraseAt(s[1..], x);
      p := q + 1;
      assert s[..p] == [s[0]] + s[1..][..q];
    }
  }
}
