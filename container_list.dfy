/**
 The effects of Go's `container/list` operations that the LRU engine uses
 (PushFront, MoveToFront, Remove, Front, Back), on a list abstracted as the
 sequence of the keys its cells hold, head first.  A cell that has been
 unlinked is "detached": removing it again or moving it to the front changes
 nothing, which is what `container/list` does for an element that no longer
 belongs to the list.
 */
module ContainerList {

  /** No key occurs in two cells. */
  predicate Distinct<K(==)>(s: seq<K>)
  {
    forall i, j :: 0 <= i < j < |s| ==> s[i] != s[j]
  }

  /** The position of the first cell holding `k`. */
  function IndexOf<K(==)>(s: seq<K>, k: K): (i: nat)
    requires k in s
    ensures i < |s| && s[i] == k
    ensures forall j :: 0 <= j < i ==> s[j] != k
  {
    if s[0] == k then 0 else 1 + IndexOf(s[1..], k)
  }

  /** Cutting one cell out of a list with distinct keys keeps the keys distinct. */
  lemma DistinctCut<K>(s: seq<K>, i: nat)
    requires Distinct(s) && i < |s|
    ensures Distinct(s[..i] + s[i + 1..])
    ensures forall x :: x in s[..i] + s[i + 1..] <==> x in s && x != s[i]
  {
    var r := s[..i] + s[i + 1..];
    assert forall a :: 0 <= a < |r| ==> r[a] == if a < i then s[a] else s[a + 1];
    forall x | x in s && x != s[i]
      ensures x in r
    {
      var a :| 0 <= a < |s| && s[a] == x;
      assert r[if a < i then a else a - 1] == x;
    }
  }

  /**
   `list.Remove(e)` for the cell holding `k`: that one cell is unlinked and the
   others keep their order.  When no cell holds `k` (a detached element) the
   list is unchanged.
   */
  function Unlink<K(==)>(s: seq<K>, k: K): (r: seq<K>)
    ensures k !in s ==> r == s
    ensures k in s ==> |r| == |s| - 1 && r == s[..IndexOf(s, k)] + s[IndexOf(s, k) + 1..]
    ensures forall x :: x in r ==> x in s
    ensures Distinct(s) ==> Distinct(r) && k !in r && forall x :: x in s && x != k ==> x in r
  {
    if k in s then
      var i := IndexOf(s, k);
      if Distinct(s) then DistinctCut(s, i); s[..i] + s[i + 1..]
      else s[..i] + s[i + 1..]
    else
      s
  }

  /**
   `list.MoveToFront(e)` for the cell holding `k`: it becomes the head and the
   other cells keep their relative order; a detached element leaves the list
   as it is.  Either way the list keeps its length and its keys.
   */
  function MoveToFront<K(==)>(s: seq<K>, k: K): (r: seq<K>)
    ensures |r| == |s|
    ensures forall x :: x in r ==> x in s
    ensures forall x :: x in s ==> x in r
    ensures k in s ==> r[0] == k && r[1..] == Unlink(s, k)
    ensures k !in s ==> r == s
    ensures Distinct(s) ==> Distinct(r)
  {
    if k in s then [k] + Unlink(s, k) else s
  }

  /** `list.Back()`: the tail cell, the least recently used key. */
  function Back<K>(s: seq<K>): K
    requires s != []
  {
    s[|s| - 1]
  }
}
