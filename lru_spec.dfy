/**
 The LRU engine of `lru.go` as values: the engine's state is a `Cache` and each
 unlocked operation (`set`, `get`, `read`, `remove`, `reset`, `evict`, `dump`)
 is a function from the old state to the new state and its result.  The class
 in module `Lru` performs the same operations in place and is proved to agree
 with these functions.

 The recency list holds the keys of its cells, head (most recently used)
 first; `lookup` maps a key to the item of its list element.  `remove` unlinks
 a cell but keeps the key in `lookup`, so `lookup` may hold keys that are in
 no list cell ("detached" keys): the invariant is that every listed key is in
 `lookup`, not that the two hold the same keys.
 */
module LruSpec {
  import opened ContainerList

  datatype Option<T> = None | Some(value: T)

  /** One cache entry: key, value and its own touch count (`LRUItem`). */
  datatype LRUItem<K, V> = LRUItem(key: K, value: V, count: int)

  /** The engine's state: fixed capacity, global touch counter, recency list and lookup table. */
  datatype Cache<K, V> = Cache(capacity: int, count: int, items: seq<K>, lookup: map<K, LRUItem<K, V>>)

  const DefaultCapacity: int := 16

  // Go's `int` on a 64-bit platform.
  const MinInt: int := -0x8000_0000_0000_0000
  const MaxInt: int := 0x7FFF_FFFF_FFFF_FFFF
  const Modulus: int := 0x1_0000_0000_0000_0000

  predicate IsInt(x: int)
  {
    MinInt <= x <= MaxInt
  }

  /** Go's `a - b` on 64-bit ints: the exact difference brought back into range by two's-complement wrap-around. */
  function Sub(a: int, b: int): (r: int)
    requires IsInt(a) && IsInt(b)
    ensures IsInt(r)
    ensures IsInt(a - b) ==> r == a - b
    ensures r == a - b || r == a - b + Modulus || r == a - b - Modulus
  {
    var d := a - b;
    if d < MinInt then d + Modulus else if d > MaxInt then d - Modulus else d
  }

  /**
   The engine invariant.  The capacity is at least one; the list holds at most
   `capacity + 1` cells (eviction fires only once the list is longer than the
   capacity); listed keys are distinct and all in `lookup`; every item records
   its own key; and no item has been touched more often than the whole engine.
   */
  predicate Valid<K(==), V>(c: Cache<K, V>)
  {
    && c.capacity >= 1
    && |c.items| <= c.capacity + 1
    && Distinct(c.items)
    && (forall k :: k in c.items ==> k in c.lookup)
    && 0 <= c.count
    && (forall k :: k in c.lookup ==> c.lookup[k].key == k && 1 <= c.lookup[k].count <= c.count)
  }

  /**
   `NewLRU(requested)`: an empty engine whose capacity is `requested - 1`,
   replaced by the default 16 when that is not positive.  The list therefore
   holds `requested` entries for `requested >= 2` and 17 otherwise; the one
   exception is the smallest Go int, where `requested - 1` wraps around to the
   largest one.
   */
  function NewLRU<K(==), V>(requested: int): (c: Cache<K, V>)
    requires IsInt(requested)
    ensures Valid(c) && c.items == [] && c.lookup == map[] && c.count == 0
    ensures requested >= 2 ==> c.capacity == requested - 1
    ensures MinInt < requested <= 1 ==> c.capacity == DefaultCapacity
    ensures requested == MinInt ==> c.capacity == MaxInt
  {
    var capacity := Sub(requested, 1);
    Cache(if capacity <= 0 then DefaultCapacity else capacity, 0, [], map[])
  }

  /** The key `evict` removes when the list is longer than the capacity: its tail. */
  function Victim<K, V>(c: Cache<K, V>): Option<K>
  {
    if |c.items| > c.capacity && c.items != [] then Some(Back(c.items)) else None
  }

  /**
   `evict`: pop the tail cell and delete its key from `lookup`.  The tail must
   exist (popping from an empty `container/list` fails), which every caller
   guarantees: `set` evicts only when the list is longer than a capacity of at
   least one.
   */
  function Evict<K(==), V>(c: Cache<K, V>): (r: Cache<K, V>)
    requires c.items != []
    ensures |r.items| == |c.items| - 1
    ensures r.items == c.items[..|c.items| - 1] && r.count == c.count && r.capacity == c.capacity
    ensures Valid(c) ==> Valid(r) && Back(c.items) !in r.items && Back(c.items) !in r.lookup
    ensures forall k :: k in c.lookup && k != Back(c.items) ==> k in r.lookup && r.lookup[k] == c.lookup[k]
    ensures r.lookup == c.lookup - {Back(c.items)}
  {
    var victim := Back(c.items);
    c.(items := c.items[..|c.items| - 1], lookup := c.lookup - {victim})
  }

  /**
   `set(key, value)`: bump the global counter; if the list is longer than the
   capacity, evict its tail (on both branches); then either push a new item at
   the head (key not in `lookup`), or bump the old item's count, replace its
   value and move it to the head.  The old item is the one `lookup` held
   before the eviction: if the eviction took the key itself, the update lands
   on a discarded item and the key ends up in neither structure.  Returns the
   new state and `isNew`.
   */
  function Set<K(==), V>(c: Cache<K, V>, key: K, value: V): (r: (Cache<K, V>, bool))
    requires Valid(c)
    ensures Valid(r.0)
    ensures r.1 <==> key !in c.lookup
    ensures r.0.capacity == c.capacity && r.0.count == c.count + 1
  {
    var count := c.count + 1;
    var evicted := if |c.items| > c.capacity then Evict(c) else c;
    if key !in c.lookup then
      var item := LRUItem(key, value, count);
      (Cache(c.capacity, count, [key] + evicted.items, evicted.lookup[key := item]), true)
    else
      var item := c.lookup[key];
      var updated := item.(count := item.count + 1, value := value);
      var lookup := if key in evicted.lookup then evicted.lookup[key := updated] else evicted.lookup;
      (Cache(c.capacity, count, MoveToFront(evicted.items, key), lookup), false)
  }

  /** `readEntery` / `read`: the item `lookup` holds for `key`, if any. */
  function ReadEntry<K(==), V>(c: Cache<K, V>, key: K): (r: Option<LRUItem<K, V>>)
    ensures r.Some? <==> key in c.lookup
    ensures r.Some? ==> r.value == c.lookup[key]
  {
    if key in c.lookup then Some(c.lookup[key]) else None
  }

  /** `Read`: the value of the item `lookup` holds for `key` (nil when absent). */
  function Read<K(==), V>(c: Cache<K, V>, key: K): (r: Option<V>)
    ensures r.Some? <==> key in c.lookup
    ensures r.Some? ==> r.value == c.lookup[key].value
  {
    match ReadEntry(c, key)
    case None => None
    case Some(item) => Some(item.value)
  }

  /**
   `get` and `Get`: bump the global counter; on a hit, bump the item's count
   and move its cell to the head, and return the value.  The value returned is
   always the one `Read` would have returned.
   */
  function Get<K(==), V>(c: Cache<K, V>, key: K): (r: (Cache<K, V>, Option<V>))
    requires Valid(c)
    ensures Valid(r.0)
    ensures r.1 == Read(c, key)
    ensures r.0.capacity == c.capacity && r.0.count == c.count + 1
  {
    var count := c.count + 1;
    if key !in c.lookup then
      (c.(count := count), None)
    else
      var item := c.lookup[key];
      var touched := item.(count := item.count + 1);
      (c.(count := count, items := MoveToFront(c.items, key), lookup := c.lookup[key := touched]), Some(item.value))
  }

  /**
   `remove`: when `lookup` knows the key, unlink its cell (nothing happens to a
   cell already unlinked) and report true; `lookup` is never touched.
   */
  function Remove<K(==), V>(c: Cache<K, V>, key: K): (r: (Cache<K, V>, bool))
    requires Valid(c)
    ensures Valid(r.0)
    ensures r.1 <==> key in c.lookup
    ensures r.0.lookup == c.lookup && r.0.count == c.count && r.0.capacity == c.capacity
    ensures key in c.items ==> |r.0.items| == |c.items| - 1
    ensures key in c.items ==> r.0.items == c.items[..IndexOf(c.items, key)] + c.items[IndexOf(c.items, key) + 1..]
    ensures key !in c.items ==> r.0 == c
    ensures key !in r.0.items
  {
    match ReadEntry(c, key)
    case None => (c, false)
    case Some(_) => (c.(items := Unlink(c.items, key)), true)
  }

  /** `reset` (`Purge`): empty list and lookup table, counter back to zero, capacity kept. */
  function Purge<K(==), V>(c: Cache<K, V>): (r: Cache<K, V>)
    requires Valid(c)
    ensures Valid(r)
    ensures |r.items| == 0 && |r.lookup| == 0 && r.count == 0 && r.capacity == c.capacity
  {
    Cache(c.capacity, 0, [], map[])
  }

  /**
   `dump`: pop every cell from the front and return the items in head-to-tail
   order.  The list ends empty; `lookup` and the counter stay as they were, so
   every key becomes detached.
   */
  function Dump<K(==), V>(c: Cache<K, V>): (r: (Cache<K, V>, seq<LRUItem<K, V>>))
    requires Valid(c)
    ensures Valid(r.0) && r.0.items == []
    ensures r.0.lookup == c.lookup && r.0.count == c.count && r.0.capacity == c.capacity
    ensures |r.1| == |c.items|
    ensures forall i :: 0 <= i < |c.items| ==> r.1[i].key == c.items[i] && r.1[i] == c.lookup[c.items[i]]
  {
    (c.(items := []), seq(|c.items|, i requires 0 <= i < |c.items| => c.lookup[c.items[i]]))
  }
}
