/**
 What each operation of the LRU engine does, stated on the specification
 functions of `LruSpec`: the exact eviction victim, where a touched key ends up
 in the recency list, what happens to detached keys, and what no operation
 changes.
 */
module LruProperties {
  import opened ContainerList
  import opened LruSpec

  /**
   Setting a key that `lookup` does not know: `isNew` is true, the key becomes
   the head with the new counter as its count, and the tail is evicted exactly
   when the list was longer than the capacity, in which case the length stays
   the same; every other key keeps its item and its place.
   */
  lemma SetNew<K, V>(c: Cache<K, V>, key: K, value: V)
    requires Valid(c) && key !in c.lookup
    ensures var (r, isNew) := Set(c, key, value);
      && isNew
      && r.items[0] == key
      && r.lookup[key] == LRUItem(key, value, c.count + 1)
      && (match Victim(c)
          case Some(victim) =>
            && r.items[1..] == c.items[..|c.items| - 1]
            && victim !in r.lookup && victim !in r.items
            && r.lookup.Keys == c.lookup.Keys - {victim} + {key}
            && |r.items| == |c.items|
          case None =>
            && r.items[1..] == c.items
            && r.lookup.Keys == c.lookup.Keys + {key}
            && |r.items| == |c.items| + 1)
      && forall k :: k in r.lookup && k != key ==> r.lookup[k] == c.lookup[k]
  {
  }

  /**
   Setting a key that is listed and is not the key the eviction takes:
   `isNew` is false, its count goes up by one, its value is replaced and it
   becomes the head, the others keeping their relative order; when the list
   was longer than the capacity the tail is evicted first, so the list
   shrinks by one and `lookup` loses the tail's key and nothing else.
   */
  lemma SetListed<K, V>(c: Cache<K, V>, key: K, value: V)
    requires Valid(c) && key in c.items && Victim(c) != Some(key)
    ensures var (r, isNew) := Set(c, key, value);
      var old_ := c.lookup[key];
      && !isNew
      && r.lookup[key] == LRUItem(key, value, old_.count + 1)
      && r.items[0] == key
      && (match Victim(c)
          case Some(victim) =>
            && r.items[1..] == Unlink(c.items[..|c.items| - 1], key)
            && victim !in r.lookup && victim !in r.items
            && r.lookup.Keys == c.lookup.Keys - {victim}
            && |r.items| == |c.items| - 1
          case None =>
            && r.items[1..] == Unlink(c.items, key)
            && r.lookup.Keys == c.lookup.Keys
            && |r.items| == |c.items|)
      && forall k :: k in r.lookup && k != key ==> r.lookup[k] == c.lookup[k]
  {
    var evicted := if |c.items| > c.capacity then Evict(c) else c;
    assert key in evicted.lookup && key in evicted.items;
    var updated := c.lookup[key].(count := c.lookup[key].count + 1, value := value);
    assert Set(c, key, value) == (Cache(c.capacity, c.count + 1, MoveToFront(evicted.items, key), evicted.lookup[key := updated]), false);
  }

  /**
   When the list is full and the key being set is its tail, the update-branch
   eviction removes the key itself: it ends in neither the list nor `lookup`,
   so `Read` no longer finds it, and `isNew` is still false.
   */
  lemma SetEvictsItself<K, V>(c: Cache<K, V>, key: K, value: V)
    requires Valid(c) && |c.items| == c.capacity + 1 && key == Back(c.items)
    ensures var (r, isNew) := Set(c, key, value);
      && !isNew
      && key !in r.items && key !in r.lookup
      && Read(r, key) == None
      && r.items == c.items[..|c.items| - 1]
      && r.lookup == c.lookup - {key}
  {
  }

  /**
   Setting a detached key (in `lookup`, in no list cell) updates its item in
   place but does not bring it back into the list: `MoveToFront` on an
   unlinked element does nothing.  The tail may still be evicted first, and
   then it leaves `lookup` too; every other item stays as it was.
   */
  lemma SetDetached<K, V>(c: Cache<K, V>, key: K, value: V)
    requires Valid(c) && key in c.lookup && key !in c.items
    ensures var (r, isNew) := Set(c, key, value);
      && !isNew
      && key !in r.items
      && Read(r, key) == Some(value)
      && r.lookup[key].count == c.lookup[key].count + 1
      && r.items == (if |c.items| > c.capacity then c.items[..|c.items| - 1] else c.items)
    ensures Set(c, key, value).0.lookup
      == (if |c.items| > c.capacity then c.lookup - {Back(c.items)} else c.lookup)[key := c.lookup[key].(count := c.lookup[key].count + 1, value := value)]
  {
    var evicted := if |c.items| > c.capacity then Evict(c) else c;
    assert key in evicted.lookup && key !in evicted.items;
    var updated := c.lookup[key].(count := c.lookup[key].count + 1, value := value);
    assert Set(c, key, value) == (Cache(c.capacity, c.count + 1, evicted.items, evicted.lookup[key := updated]), false);
  }

  /**
   `Get` of a key `lookup` knows: its count goes up by one, a listed key moves
   to the head with the others in their old relative order, a detached key
   stays detached; no other item changes.  A miss only bumps the counter.
   */
  lemma GetEffect<K, V>(c: Cache<K, V>, key: K)
    requires Valid(c)
    ensures var (r, v) := Get(c, key);
      if key in c.lookup then
        && v == Some(c.lookup[key].value)
        && r.lookup.Keys == c.lookup.Keys
        && r.lookup[key] == c.lookup[key].(count := c.lookup[key].count + 1)
        && (forall k :: k in r.lookup && k != key ==> r.lookup[k] == c.lookup[k])
        && (if key in c.items then r.items[0] == key && r.items[1..] == Unlink(c.items, key)
            else r.items == c.items)
      else
        v == None && r == c.(count := c.count + 1)
  {
  }

  /**
   A key just touched by `Get` or `Set` is the most recently used one: it is
   the head, so the next eviction takes another key whenever the list holds
   at least two.
   */
  lemma TouchedIsNotNextVictim<K, V>(c: Cache<K, V>, key: K, value: V)
    requires Valid(c) && key in c.items
    ensures var r := Get(c, key).0;
      r.items[0] == key && (|r.items| >= 2 ==> Back(r.items) != key)
    ensures var r := Set(c, key, value).0;
      Victim(c) != Some(key) ==> r.items[0] == key && (|r.items| >= 2 ==> Back(r.items) != key)
  {
    var g := Get(c, key).0;
    if |g.items| >= 2 {
      assert g.items[0] == g.items[|g.items| - 1] ==> false by {
        assert Distinct(g.items);
      }
    }
    var s := Set(c, key, value).0;
    if Victim(c) != Some(key) && |s.items| >= 2 {
      SetListed(c, key, value);
      assert Distinct(s.items);
    }
  }

  /**
   `Remove` reports whether `lookup` knows the key and never changes `lookup`:
   a removed key stays readable, and removing it again still reports true
   without changing anything.
   */
  lemma RemoveTwice<K, V>(c: Cache<K, V>, key: K)
    requires Valid(c)
    ensures var (r1, ok1) := Remove(c, key);
      var (r2, ok2) := Remove(r1, key);
      && ok1 == ok2 == (key in c.lookup)
      && r2 == r1
      && Read(r1, key) == Read(c, key)
  {
  }

  /** After `Purge` the engine is the one `NewLRU` builds for the same capacity. */
  lemma PurgeRestarts<K, V>(c: Cache<K, V>, requested: int)
    requires Valid(c) && IsInt(requested) && c.capacity == NewLRU<K, V>(requested).capacity
    ensures Purge(c) == NewLRU<K, V>(requested)
  {
  }
}
