/**
 The scenarios of `lru_test.go` on the specification: the capacities
 `NewLRU` picks, and a run of `Set` calls with fresh keys followed by `Get`,
 `Read`, `Remove` and `Purge`.  The fill of a fresh engine is proved once for
 any number of distinct keys and any capacity.
 */
module LruScenarios {
  import opened ContainerList
  import opened LruSpec
  import LruProperties

  /**
   `Set(keys[i], values[i])` for i = 0, 1, ... in order, starting from `c`;
   the flag says whether every call reported a new key.
   */
  function SetAll<K(==), V>(c: Cache<K, V>, keys: seq<K>, values: seq<V>): (r: (Cache<K, V>, bool))
    requires Valid(c) && |keys| == |values|
    ensures Valid(r.0)
    ensures r.0.capacity == c.capacity && r.0.count == c.count + |keys|
    decreases |keys|
  {
    if keys == [] then
      (c, true)
    else
      var n := |keys| - 1;
      var (prev, allNew) := SetAll(c, keys[..n], values[..n]);
      var (next, isNew) := Set(prev, keys[n], values[n]);
      (next, allNew && isNew)
  }

  function Min(a: int, b: int): int
  {
    if a < b then a else b
  }

  /**
   One `Set` of a fresh key on an engine whose `lookup` holds only listed
   keys: the key becomes the head and the old list follows it, cut to
   `capacity` cells when it was longer than the capacity.
   */
  lemma SetFresh<K, V>(c: Cache<K, V>, key: K, value: V)
    requires Valid(c) && key !in c.lookup
    requires forall k :: k in c.lookup ==> k in c.items
    ensures var (r, isNew) := Set(c, key, value);
      && isNew
      && |r.items| == Min(|c.items| + 1, c.capacity + 1)
      && r.items[0] == key && r.lookup[key].value == value
      && (forall j :: 1 <= j < |r.items| ==> r.items[j] == c.items[j - 1] && r.lookup[r.items[j]] == c.lookup[c.items[j - 1]])
      && (forall k :: k in r.lookup ==> k in r.items)
  {
    SetFreshItems(c, key, value);
    SetFreshLookup(c, key, value);
  }

  /** The list part of `SetFresh`: the new key, then the old list cut to `capacity` cells. */
  lemma SetFreshItems<K, V>(c: Cache<K, V>, key: K, value: V)
    requires Valid(c) && key !in c.lookup
    ensures var r := Set(c, key, value).0;
      && |r.items| == Min(|c.items| + 1, c.capacity + 1)
      && r.items[0] == key
      && (forall j :: 1 <= j < |r.items| ==> r.items[j] == c.items[j - 1])
  {
    LruProperties.SetNew(c, key, value);
    var r := Set(c, key, value).0;
    var kept := if |c.items| > c.capacity then c.items[..|c.items| - 1] else c.items;
    assert r.items[1..] == kept;
    forall j | 1 <= j < |r.items|
      ensures r.items[j] == c.items[j - 1]
    {
      assert r.items[j] == r.items[1..][j - 1];
    }
  }

  /** The `lookup` part of `SetFresh`: the listed keys keep their items and `lookup` still holds only listed keys. */
  lemma SetFreshLookup<K, V>(c: Cache<K, V>, key: K, value: V)
    requires Valid(c) && key !in c.lookup
    requires forall k :: k in c.lookup ==> k in c.items
    ensures var r := Set(c, key, value).0;
      && r.lookup[key].value == value
      && (forall j :: 1 <= j < |r.items| ==> r.lookup[r.items[j]] == c.lookup[c.items[j - 1]])
      && (forall k :: k in r.lookup ==> k in r.items)
  {
    SetFreshItems(c, key, value);
    LruProperties.SetNew(c, key, value);
    var r := Set(c, key, value).0;
    forall k | k in r.lookup
      ensures k in r.items
    {
      if k != key {
        assert k in c.lookup && k in c.items;
        assert |c.items| > c.capacity ==> Victim(c) == Some(Back(c.items)) && k != Back(c.items);
        var j :| 0 <= j < |c.items| && c.items[j] == k;
        assert j + 1 < |r.items|;
        assert r.items[j + 1] == k;
      }
    }
  }

  /**
   The shape of an engine after fresh keys `keys` were set in order with no
   removal: the list holds the last `capacity + 1` keys (or all of them, if
   fewer), most recent first, each with its value, and `lookup` holds exactly
   the listed keys.
   */
  ghost predicate Filled<K, V>(r: Cache<K, V>, keys: seq<K>, values: seq<V>)
    requires |keys| == |values|
  {
    && |r.items| == Min(|keys|, r.capacity + 1)
    && (forall j :: 0 <= j < |r.items| ==> r.items[j] == keys[|keys| - 1 - j])
    && (forall j :: 0 <= j < |r.items| ==> r.items[j] in r.lookup && r.lookup[r.items[j]].value == values[|keys| - 1 - j])
    && (forall k :: k in r.lookup ==> k in r.items)
  }

  /**
   Setting distinct keys into an empty engine: every call reports a new key
   and the engine ends `Filled`: the older keys were evicted one per call.
   */
  lemma {:induction false} FillFresh<K, V>(c: Cache<K, V>, keys: seq<K>, values: seq<V>)
    requires Valid(c) && c.items == [] && c.lookup == map[]
    requires |keys| == |values| && Distinct(keys)
    ensures SetAll(c, keys, values).1
    ensures Filled(SetAll(c, keys, values).0, keys, values)
    decreases |keys|
  {
    if keys != [] {
      var n := |keys| - 1;
      var ks, vs := keys[..n], values[..n];
      assert Distinct(ks);
      FillFresh(c, ks, vs);
      var prev := SetAll(c, ks, vs).0;
      FillShift(prev, keys, values);
      SetFresh(prev, keys[n], values[n]);
      FillStep(prev, Set(prev, keys[n], values[n]).0, keys, values);
      assert SetAll(c, keys, values) == (Set(prev, keys[n], values[n]).0, true);
    }
  }

  /**
   One more fresh key on top of a fill: when `r` is what `SetFresh` says
   `Set` makes of `prev` for the last key, `r` is filled with one key more.
   */
  lemma FillStep<K, V>(prev: Cache<K, V>, r: Cache<K, V>, keys: seq<K>, values: seq<V>)
    requires |keys| == |values| > 0
    requires |prev.items| == Min(|keys| - 1, prev.capacity + 1)
    requires forall j :: 0 <= j < |prev.items| ==> prev.items[j] == keys[|keys| - 2 - j]
    requires forall j :: 0 <= j < |prev.items| ==> prev.items[j] in prev.lookup && prev.lookup[prev.items[j]].value == values[|keys| - 2 - j]
    requires r.capacity == prev.capacity >= 1
    requires |r.items| == Min(|prev.items| + 1, prev.capacity + 1)
    requires r.items[0] == keys[|keys| - 1] && r.items[0] in r.lookup && r.lookup[r.items[0]].value == values[|keys| - 1]
    requires forall j :: 1 <= j < |r.items| ==> r.items[j] == prev.items[j - 1] && r.items[j] in r.lookup && r.lookup[r.items[j]] == prev.lookup[prev.items[j - 1]]
    requires forall k :: k in r.lookup ==> k in r.items
    ensures Filled(r, keys, values)
  {
    var n := |keys| - 1;
    forall j | 0 <= j < |r.items|
      ensures r.items[j] == keys[n - j]
      ensures r.items[j] in r.lookup && r.lookup[r.items[j]].value == values[n - j]
    {
      if j > 0 {
        assert r.items[j] == prev.items[j - 1] && r.lookup[r.items[j]] == prev.lookup[prev.items[j - 1]];
      }
    }
  }

  /** The previous fill seen against the longer key sequence: each listed key sits one place further from the new last key. */
  lemma FillShift<K, V>(prev: Cache<K, V>, keys: seq<K>, values: seq<V>)
    requires |keys| == |values| > 0 && Distinct(keys)
    requires Filled(prev, keys[..|keys| - 1], values[..|values| - 1])
    ensures keys[|keys| - 1] !in prev.lookup
    ensures forall k :: k in prev.lookup ==> k in prev.items
    ensures |prev.items| == Min(|keys| - 1, prev.capacity + 1)
    ensures forall j :: 0 <= j < |prev.items| ==> prev.items[j] == keys[|keys| - 2 - j]
    ensures forall j :: 0 <= j < |prev.items| ==> prev.items[j] in prev.lookup && prev.lookup[prev.items[j]].value == values[|keys| - 2 - j]
  {
    var n := |keys| - 1;
    var ks, vs := keys[..n], values[..n];
    forall j | 0 <= j < |prev.items|
      ensures prev.items[j] == keys[n - 1 - j]
      ensures prev.items[j] in prev.lookup && prev.lookup[prev.items[j]].value == values[n - 1 - j]
    {
      assert ks[n - 1 - j] == keys[n - 1 - j] && vs[n - 1 - j] == values[n - 1 - j];
    }
  }

  /**
   In a filled engine the keys older than the last `|r.items|` are gone:
   they are in neither the list nor `lookup`.
   */
  lemma FilledEvicted<K, V>(r: Cache<K, V>, keys: seq<K>, values: seq<V>, i: int)
    requires |keys| == |values| && Filled(r, keys, values) && Distinct(keys)
    requires 0 <= i < |keys| - |r.items|
    ensures keys[i] !in r.items && keys[i] !in r.lookup
  {
    forall j | 0 <= j < |r.items|
      ensures r.items[j] != keys[i]
    {
      assert r.items[j] == keys[|keys| - 1 - j];
    }
  }

  /** `TestLRUCapacity`: the capacities `NewLRU` picks for 0, 8, 16 and -1 are all positive. */
  lemma TestLRUCapacity()
    ensures NewLRU<int, int>(0).capacity == DefaultCapacity
    ensures NewLRU<int, int>(8).capacity == 7
    ensures NewLRU<int, int>(16).capacity == 15
    ensures NewLRU<int, int>(-1).capacity == DefaultCapacity
  {
  }

  /**
   `TestLRU`, for any ten distinct keys: after `NewLRU(8)` and ten `Set`
   calls every call reported a new key and the list holds eight entries, the
   first two keys evicted; `Get` of the ninth key returns its value and makes
   it the head; `Read` still finds it; `Remove` of it succeeds and leaves
   seven; `Purge` leaves nothing and a zero counter.
   */
  lemma TestLRU<K, V>(keys: seq<K>, values: seq<V>)
    requires |keys| == 10 && |values| == 10 && Distinct(keys)
    ensures SetAll(NewLRU<K, V>(8), keys, values).1
    ensures var c1 := SetAll(NewLRU<K, V>(8), keys, values).0;
      && |c1.items| == 8
      && keys[0] !in c1.lookup && keys[1] !in c1.lookup
      && AfterFill(c1, keys[8], values[8], keys[0])
  {
    var c0 := NewLRU<K, V>(8);
    FillFresh(c0, keys, values);
    var c1 := SetAll(c0, keys, values).0;
    FilledEvicted(c1, keys, values, 0);
    FilledEvicted(c1, keys, values, 1);
    assert c1.items[1] == keys[8];
    TouchListed(c1, keys[8], values[8], keys[0]);
  }

  /**
   The rest of `TestLRU` from the filled engine: `Get` of a listed key
   returns its value and makes it the head (so the head is no longer the
   oldest key), `Read` then finds it, `Remove` of it succeeds and shortens the
   list by one, and `Purge` empties everything.
   */
  ghost predicate AfterFill<K, V>(c1: Cache<K, V>, key: K, value: V, oldest: K)
    requires Valid(c1)
  {
    var (c2, v) := Get(c1, key);
    && v == Some(value)
    && |c2.items| > 0 && c2.items[0] == key && c2.items[0] != oldest
    && Read(c2, key) == Some(value)
    && |c2.items| == |c1.items|
    && var (c3, ok) := Remove(c2, key);
    && ok
    && |c3.items| == |c1.items| - 1
    && var c4 := Purge(c3);
    && c4.count == 0 && c4.items == [] && c4.lookup == map[]
  }

  lemma TouchListed<K, V>(c1: Cache<K, V>, key: K, value: V, oldest: K)
    requires Valid(c1) && key in c1.items && c1.lookup[key].value == value && key != oldest
    ensures AfterFill(c1, key, value, oldest)
  {
    LruProperties.GetEffect(c1, key);
  }
}
