# LRU cache engine of mitghi/cache, modelled in Dafny

This project models the LRU engine of the Go package `cache` (`lru.go`). The
engine is a fixed-capacity key/value cache that evicts the least recently used
entry. It keeps four pieces of state:

- a recency list of cells (Go's `container/list`), head = most recently used;
- a `lookup` map from each key to its list element;
- `capacity`, fixed at construction;
- `count`, a global touch counter.

Each cell holds an `LRUItem`: key, value and the item's own touch count.

The model has three layers:

- `container_list.dfy` (module `ContainerList`): the effects of the
  `container/list` operations the engine calls. The list is represented by the
  sequence of the keys its cells hold. Removing a cell that is no longer in the
  list, or moving it to the front, does nothing.
- `lru_spec.dfy` (module `LruSpec`): the engine state as a value (`Cache`),
  the engine invariant `Valid`, and one function per unlocked operation
  (`NewLRU`, `set`, `get`, `readEntery`/`read`, `remove`, `reset`, `evict`,
  `dump`). `lru_properties.dfy` (module `LruProperties`) states what each
  operation does: the exact eviction victim, where a touched key ends up, how
  detached keys behave, and what stays the same.
- `lru.dfy` (module `Lru`): the `LRU` struct as a class with the fields
  `items`, `lookup`, `capacity` and `count`. Its methods update those fields in
  place. `Set`, `Get`, `ReadEntry`, `Read`, `Remove`, `Purge`, `Evict` and
  `Dump` are proved to produce the state and result of the `LruSpec` function
  of the same name; the constructor builds the state `LruSpec.NewLRU` gives.
  `PopBack`, `PopFront` and `Len` have no `LruSpec` counterpart: their
  contracts state the new state and the result directly. Every method that
  changes the fields keeps `Valid`.

`lru_scenarios.dfy` (module `LruScenarios`) replays the two tests in
`lru_test.go`. The fill phase is proved once, by induction, for any number of
distinct keys and any capacity.

The model follows the code:

- The map only over-approximates the list. `remove` unlinks the cell but keeps
  `lookup[key]`. The removed key stays readable through `Read` and `Get`, a
  second `Remove` reports true again, and `Set` treats the key as an update that
  does not bring it back into the list. So the invariant is "every listed key is
  in `lookup`", not a one-to-one match. Only `evict` and `reset` delete map
  entries. The doc comment of `remove` suggests a full removal; the model
  follows the code.
- `capacity` is the requested value minus one, and eviction fires only when the
  list held more than `capacity` cells before the call. So the list can hold
  `capacity + 1` cells: `NewLRU(n)` keeps `n` entries for `n >= 2`. For
  `n <= 1` it keeps 17 entries. This differs from the doc comment of `NewLRU`,
  which promises a capacity of 16 for `n <= 0`. The smallest 64-bit int is a
  special case: `capacity - 1` wraps around to the largest int, and the model
  computes that subtraction with explicit wrap-around.
- `set` checks for eviction on the update branch as well. If the list is full
  and the key being updated is the tail, the key evicts itself. It then ends up
  in neither the list nor the map (`LruProperties.SetEvictsItself`).
- `evict` needs a non-empty list. This always holds: the capacity is at least
  1, and `set` evicts only when the list is longer than the capacity. Dafny
  checks this at the call in `LruSpec.Set` and `Lru.LRU.Set`.

## Model

| member | source | states |
|---|---|---|
| `ContainerList.Unlink` | lru.go:274-286 | `list.Remove` on the cell holding a key: exactly one cell goes and the others keep their order; a key in no cell leaves the list unchanged; a list of distinct keys stays distinct, loses exactly that key and keeps every other one |
| `ContainerList.MoveToFront` | lru.go:189-191 | `list.MoveToFront`: a listed key becomes the head with the other cells behind it in their old relative order; an unlinked key leaves the list as it is; the length, the set of keys and distinctness are preserved |
| `ContainerList.Back` | lru.go:309 | `list.Back()`: the last cell of a non-empty list, the least recently used key |
| `LruSpec.Sub` | lru.go:73 | Go's 64-bit subtraction: the result is always a valid 64-bit int, equals the exact difference when that fits, and otherwise differs from it by 2^64 |
| `LruSpec.NewLRU` | lru.go:68-81 | a new engine is valid, empty, has counter 0 and capacity `requested - 1` for `requested >= 2`, 16 for every other requested value except the smallest int, and the largest int for the smallest one (wrap-around); so the capacity is always at least 1 |
| `LruSpec.Evict` | lru.go:294-303 | evicting removes exactly the tail cell (the least recently used key), leaving the other cells in their order; it deletes that key from `lookup` and keeps every other item; the counter and the capacity stay the same, and the invariant is kept |
| `LruSpec.Set` | lru.go:161-197 | `set` keeps the invariant (so the list never exceeds `capacity + 1` cells), reports `isNew` exactly when the key was not in `lookup`, bumps the counter by one and keeps the capacity; its eviction call always finds a non-empty list |
| `LruSpec.ReadEntry` | lru.go:227-237 | finds an item exactly when `lookup` knows the key, and then it is that key's item |
| `LruSpec.Read` | lru.go:244-253 | finds a value exactly when `lookup` knows the key (including removed, detached keys), and then it is that item's value |
| `LruSpec.Get` | lru.go:202-220 | `get` keeps the invariant, bumps the counter by one, keeps the capacity, and returns exactly what `Read` would have returned in the state before the call |
| `LruSpec.Remove` | lru.go:274-286 | `remove` keeps the invariant, reports true exactly when `lookup` knows the key, never changes `lookup`, the counter or the capacity, unlinks exactly the key's cell when the key was listed, leaving the other cells in their old order, and otherwise changes nothing; afterwards the key is in no cell |
| `LruSpec.Purge` | lru.go:260-266 | `reset` leaves a valid engine with an empty list, an empty `lookup` and counter 0, keeping the capacity |
| `LruSpec.Dump` | lru.go:323-340 | `dump` returns one item per cell, head to tail, each carrying the key of its cell; the list ends empty and `lookup`, the counter and the capacity stay as they were |
| `LruProperties.SetNew` | lru.go:170-179 | setting a key unknown to `lookup`: `isNew` holds, the key becomes the head with the new counter as its count; when the list was longer than the capacity the tail is evicted from both structures and the length stays the same, otherwise the list grows by one; every other item stays as it was |
| `LruProperties.SetListed` | lru.go:181-194 | setting a listed key that the eviction does not take: `isNew` is false, its count goes up by one, its value is replaced, it becomes the head with the rest in their old relative order; when the list was longer than the capacity the tail is evicted first, the list shrinks by one and `lookup` loses exactly the tail's key; no other item changes |
| `LruProperties.SetEvictsItself` | lru.go:186-191 | when the list is full and the key being set is its tail, the key ends up in neither the list nor `lookup`, `Read` no longer finds it, and `isNew` is still false |
| `LruProperties.SetDetached` | lru.go:181-191 | setting a detached key (in `lookup`, in no cell) updates its value and count, but the key does not come back into the list; the tail is still evicted when the list is longer than the capacity; the new `lookup` is the old one minus the evicted key (if any) with the key's item updated, so no other item changes |
| `LruProperties.GetEffect` | lru.go:100-114 | `Get` on a known key returns its value, bumps its count, moves a listed key to the head with the rest in order and leaves a detached key detached; no other item changes; on a miss it returns nothing and only the counter changes |
| `LruProperties.TouchedIsNotNextVictim` | lru.go:209-217 | after `Get` of a listed key, or `Set` of one that the eviction does not take, that key is the head, so the next eviction takes another key whenever at least two are listed |
| `LruProperties.RemoveTwice` | lru.go:274-286 | `Remove` returns the same answer twice in a row, exactly when `lookup` knows the key; the second call changes nothing; the removed key stays readable with its old value |
| `LruProperties.PurgeRestarts` | lru.go:260-266 | after `Purge` the engine equals a freshly constructed one with the same capacity |
| `LruScenarios.SetAll` | lru_test.go:82-92 | a run of `Set` calls keeps the invariant and the capacity, and bumps the counter once per call |
| `LruScenarios.SetFresh` | lru.go:171-178 | one `Set` of a fresh key into an engine whose `lookup` holds only listed keys: the key becomes the head with its value and the old list follows it, cut to `capacity` cells when it was full; `lookup` still holds only listed keys |
| `LruScenarios.FillFresh` | lru_test.go:82-96 | setting any number of distinct keys into an empty engine: every call reports a new key; the list holds the last `capacity + 1` keys (or all of them), most recent first, each with its own value; the older keys have left `lookup` |
| `LruScenarios.FilledEvicted` | lru_test.go:82-96 | after such a fill, every key older than the last `|items|` ones is in neither the list nor `lookup` (so the first keys set are the ones evicted) |
| `LruScenarios.TestLRUCapacity` | lru_test.go:52-68 | `NewLRU` gives capacity 16 for 0 and -1, 7 for 8 and 15 for 16, so all are positive |
| `LruScenarios.TestLRU` | lru_test.go:70-122 | for any ten distinct keys, `NewLRU(8)` and ten `Set` calls report a new key every time and leave 8 entries with the first two keys evicted; the rest of the test then holds (`LruScenarios.TouchListed`) |
| `LruScenarios.TouchListed` | lru_test.go:97-121 | from such an engine, `Get` of a listed key returns its value and makes it the head (no longer the oldest key), `Read` finds it, `Remove` succeeds and leaves one cell fewer, and `Purge` leaves no cells, no keys and counter 0 |
| `Lru.LRU.constructor` | lru.go:68-81 | a new object holds exactly the state `LruSpec.NewLRU` describes, and it satisfies the invariant |
| `Lru.LRU.Set` | lru.go:161-197 | updates the fields in place to the state and `isNew` that `LruSpec.Set` gives, and keeps the invariant |
| `Lru.LRU.Get` | lru.go:202-220 | updates the fields in place to the state and value that `LruSpec.Get` gives, and keeps the invariant |
| `Lru.LRU.ReadEntry` | lru.go:227-237 | returns the item `lookup` holds for the key and changes nothing |
| `Lru.LRU.Read` | lru.go:120-131 | returns the value `lookup` holds for the key; it has no `modifies` clause, so the list order, `lookup`, the counter and every count stay untouched |
| `Lru.LRU.Len` | lru.go:150-155 | returns the number of list cells and changes nothing (detached keys are not counted) |
| `Lru.LRU.Remove` | lru.go:135-140 | updates the fields to the state and answer that `LruSpec.Remove` gives, and keeps the invariant |
| `Lru.LRU.Purge` | lru.go:143-147 | empties the list, zeroes the counter and deletes the `lookup` keys one at a time in a loop, ending in the state `LruSpec.Purge` gives |
| `Lru.LRU.Evict` | lru.go:294-303 | pops the tail and deletes the popped item's key from `lookup`, ending in the state `LruSpec.Evict` gives |
| `Lru.LRU.PopBack` | lru.go:308-310 | needs a non-empty list; unlinks the tail cell and returns its item, whose key is that cell's key; `lookup` and the counter are unchanged |
| `Lru.LRU.PopFront` | lru.go:315-317 | needs a non-empty list; unlinks the head cell and returns its item, whose key is that cell's key; `lookup` and the counter are unchanged |
| `Lru.LRU.Dump` | lru.go:323-340 | pops the front once per cell in a loop, collecting the items; ends in the state and item sequence that `LruSpec.Dump` gives |

## Left out

- Locking: the `sync.RWMutex` taken by every public method only serialises callers. Each public method is modelled as its unlocked body.
- Error results: `set` returns `ELRUINVALTYPE` when a list cell does not hold an `*LRUItem` (lru.go:181-185), and `dump` returns `ELRUFATAL` when a popped cell holds a nil item (lru.go:331-334). Neither branch can be taken, because every cell the engine creates holds a non-nil item, which the typed model guarantees; so `Set` and `Dump` return no error value.
- The single-value type assertions in `get` (lru.go:213), `popBack` (lru.go:309), `popFront` (lru.go:316) and `dump` (lru.go:330) would panic on a cell of another type; they are not error branches and cannot fail for the same reason. `get` has no error path at all: its error result is always nil, so `Get` returns none.
- LruSpec.Set: does not model the 64-bit wrap-around of `count` and of an item's `Count`; they are unbounded integers, since wrapping needs 2^63 touches.
- LruSpec.Get: does not model the same wrap-around of `count` and `Count`, for the same reason.
- Lru.LRU.Dump: returns the items as values. In Go, the returned pointers alias the items still held by `lookup`, so a later `Set` of a dumped key would be visible through the returned slice; the model does not capture that aliasing.
- Missing versus nil values: Go returns a nil interface for a miss, so a stored nil value looks like a miss. The model returns `None` for a miss and `Some(v)` for any stored value.
- Keys are any type with equality that is reflexive, standing in for Go's `interface{}` keys. Two kinds of Go key fall outside that. A NaN float key never equals itself: every `set` of it pushes a new cell, and the `delete` in `evict` (lru.go:298) cannot remove it. A key whose dynamic type is not comparable (a slice, a map) makes the map access panic. Go's `int` is taken to be 64 bits wide, which fixes the wrap-around in `NewLRU`. The `user_%d` strings of `TestLRU` are replaced by any ten distinct keys (`fmt.Sprintf` is not modelled).
- Go's `container/list` internals (element pointers and links) are not modelled; only the effects of PushFront, MoveToFront, Remove, Front, Back, Init and Len on the key sequence are. After `Init`, old elements still claim membership, but `reset` clears `lookup` at the same time, so no key can reach them.
- The nil-ing of the evicted item's key and value in `evict` only helps the garbage collector and cannot be observed.
- Struct padding, the `LRUItem` accessors `K`/`V`/`C`, the interface declarations in `base.go`, the test's struct-layout printing and its `hasPositiveLRUS` bitmask helper contain no cache logic.
