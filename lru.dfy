/**
 The `LRU` struct of `lru.go` as a class whose methods change its fields in
 place, each proved to agree with the specification function of the same
 name in `LruSpec`.  The Go list of cells is the field `items` (keys, head
 first); the Go map of keys to list elements is `lookup`, holding the item of
 each element.  The public wrappers only take and release the mutex around
 the unlocked bodies, so each method here is that body.
 */
module Lru {
  import ContainerList
  import LruSpec

  class LRU<K(==), V> {
    var items: seq<K>
    var lookup: map<K, LruSpec.LRUItem<K, V>>
    var capacity: int
    var count: int

    /** The engine state this object holds. */
    function Model(): LruSpec.Cache<K, V>
      reads this
    {
      LruSpec.Cache(capacity, count, items, lookup)
    }

    ghost predicate Valid()
      reads this
    {
      LruSpec.Valid(Model())
    }

    /** `NewLRU`. */
    constructor (requested: int)
      requires LruSpec.IsInt(requested)
      ensures Valid() && Model() == LruSpec.NewLRU(requested)
    {
      var reduced := LruSpec.Sub(requested, 1);
      if reduced <= 0 {
        reduced := LruSpec.DefaultCapacity;
      }
      items := [];
      lookup := map[];
      capacity := reduced;
      count := 0;
    }

    /** `set`: insert or update, evicting the tail first when the list is longer than the capacity. */
    method Set(key: K, value: V) returns (isNew: bool)
      requires Valid()
      modifies this
      ensures Valid()
      ensures (Model(), isNew) == LruSpec.Set(old(Model()), key, value)
    {
      ghost var evicted := if |items| > capacity then LruSpec.Evict(Model()) else Model();
      count := count + 1;
      var cnt := |items|;
      if key !in lookup {
        if cnt > capacity {
          Evict();
        }
        assert items == evicted.items && lookup == evicted.lookup;
        isNew := true;
        var item := LruSpec.LRUItem(key, value, count);
        items := [key] + items;
        lookup := lookup[key := item];
        return;
      }
      var item := lookup[key];
      if cnt > capacity {
        Evict();
      }
      assert items == evicted.items && lookup == evicted.lookup;
      item := item.(count := item.count + 1, value := value);
      // The item is shared with `lookup[key]` unless the eviction just deleted that entry.
      if key in lookup {
        lookup := lookup[key := item];
      }
      items := ContainerList.MoveToFront(items, key);
      isNew := false;
    }

    /** `get` and `Get`: on a hit, bump the item's count, move it to the head and return its value. */
    method Get(key: K) returns (value: LruSpec.Option<V>)
      requires Valid()
      modifies this
      ensures Valid()
      ensures (Model(), value) == LruSpec.Get(old(Model()), key)
    {
      count := count + 1;
      if key !in lookup {
        return LruSpec.None;
      }
      var item := lookup[key];
      item := item.(count := item.count + 1);
      lookup := lookup[key := item];
      items := ContainerList.MoveToFront(items, key);
      value := LruSpec.Some(item.value);
    }

    /** `readEntery`: the item `lookup` holds for `key`, changing nothing. */
    method ReadEntry(key: K) returns (elem: LruSpec.Option<LruSpec.LRUItem<K, V>>)
      ensures elem == LruSpec.ReadEntry(Model(), key)
    {
      if key !in lookup {
        return LruSpec.None;
      }
      elem := LruSpec.Some(lookup[key]);
    }

    /** `read` and `Read`: the value `lookup` holds for `key`, changing nothing. */
    method Read(key: K) returns (value: LruSpec.Option<V>)
      ensures value == LruSpec.Read(Model(), key)
    {
      if key in lookup {
        value := LruSpec.Some(lookup[key].value);
      } else {
        value := LruSpec.None;
      }
    }

    /** `Len`: the number of list cells. */
    method Len() returns (l: int)
      ensures l == |Model().items|
    {
      l := |items|;
    }

    /** `remove`: unlink the key's cell when `lookup` knows the key; `lookup` is kept. */
    method Remove(key: K) returns (ok: bool)
      requires Valid()
      modifies this
      ensures Valid()
      ensures (Model(), ok) == LruSpec.Remove(old(Model()), key)
    {
      var elem := ReadEntry(key);
      if elem.None? {
        return false;
      }
      items := ContainerList.Unlink(items, key);
      return true;
    }

    /** `reset` (`Purge`): clear the list, zero the counter, then delete the lookup keys one by one. */
    method Purge()
      requires Valid()
      modifies this
      ensures Valid()
      ensures Model() == LruSpec.Purge(old(Model()))
    {
      items := [];
      count := 0;
      while lookup != map[]
        invariant items == [] && count == 0 && capacity == old(capacity)
        decreases |lookup|
      {
        var k :| k in lookup;
        lookup := lookup - {k};
      }
    }

    /** `evict`: pop the tail and delete its item's key from `lookup`. */
    method Evict()
      requires Valid() && items != []
      modifies this
      ensures Valid()
      ensures Model() == LruSpec.Evict(old(Model()))
    {
      var item := PopBack();
      lookup := lookup - {item.key};
    }

    /** `popBack`: unlink the tail cell and return its item. */
    method PopBack() returns (elem: LruSpec.LRUItem<K, V>)
      requires Valid() && items != []
      modifies this
      ensures Valid()
      ensures elem.key == old(ContainerList.Back(items)) && elem == old(lookup[ContainerList.Back(items)])
      ensures items == old(items[..|items| - 1])
      ensures lookup == old(lookup) && count == old(count) && capacity == old(capacity)
    {
      elem := lookup[items[|items| - 1]];
      items := items[..|items| - 1];
    }

    /** `popFront`: unlink the head cell and return its item. */
    method PopFront() returns (elem: LruSpec.LRUItem<K, V>)
      requires Valid() && items != []
      modifies this
      ensures Valid()
      ensures elem.key == old(items[0]) && elem == old(lookup[items[0]])
      ensures items == old(items[1..])
      ensures lookup == old(lookup) && count == old(count) && capacity == old(capacity)
    {
      elem := lookup[items[0]];
      items := items[1..];
    }

    /** `dump`: pop every cell from the front, collecting the items head to tail. */
    method Dump() returns (entries: seq<LruSpec.LRUItem<K, V>>)
      requires Valid()
      modifies this
      ensures Valid()
      ensures (Model(), entries) == LruSpec.Dump(old(Model()))
    {
      var cnt := |items|;
      entries := [];
      var i := 0;
      while i < cnt
        invariant 0 <= i <= cnt == |old(items)|
        invariant Valid()
        invariant items == old(items)[i..]
        invariant lookup == old(lookup) && count == old(count) && capacity == old(capacity)
        invariant |entries| == i
        invariant forall j :: 0 <= j < i ==> entries[j] == lookup[old(items)[j]]
      {
        var value := PopFront();
        entries := entries + [value];
        i := i + 1;
      }
      assert entries == LruSpec.Dump(old(Model())).1;
    }
  }
}
