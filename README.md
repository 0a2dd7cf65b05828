# A verified model of the simplelru LRU/TTL cache

This project models `LRU`, the single-threaded cache of package `simplelru`
(`simplelru/lruImpl.go`), in Dafny, and proves properties of that model.

The cache keeps two structures that should move in lockstep:

- `cache`, an index from keys to elements of a recency list;
- `evictList`, whose front is the most recently used entry and whose back is
  the least recently used one. Each entry holds a key, a value and the time
  it was last updated.

It also has a capacity (0 = unlimited), a time-to-live (0 = entries never
expire) and an optional eviction callback that receives every removed
`(key, value)` pair.

The project has three modules:

- `Seqs` (`seqs.dfy`) holds the two list operations the cache uses,
  written on sequences: `Promote` moves an element to the front, and `Drop`
  unlinks one.
- `LruModel` (`lru_model.dfy`) holds the cache state as a value, `Store`,
  and each state transition as a function. It defines the invariant
  `Coherent`:
  - the list keys are distinct;
  - every list key is indexed with a live handle;
  - every live handle has its list entry.

  It also defines the capacity bound `WithinCapacity`: with a positive
  capacity the list holds at most that many entries, and with a negative
  one (which only `Resize` can set) it is empty. It holds the lemmas about
  the model.
- `SimpleLru` (`lru.dfy`) is the class `LRU`. Its fields are the list, the
  index, the capacity, the TTL, whether a callback was given, and the log
  of callback calls. Its methods update these fields in place. Its
  invariant `Valid` is `Coherent` together with `WithinCapacity`; the
  constructor establishes it and every method keeps it.
  - The mutators `Set`, `Remove`, `RemoveOldest`, `Resize`, `EvictOldest`
    and `RemoveElement` are each proved to perform exactly the matching
    transition of `LruModel`.
  - `Get` and `Purge` have no transition function: their new state is
    stated directly (`Get` moves the entry to the front; `Purge` empties
    both structures and logs the old list's pairs as a multiset).
  - `Contains`, `Peek` and `Len` are functions of the state, and `Keys` is
    a method that changes nothing and returns `UnexpiredTail` of the list.

The model follows the code, including where the code does not do what its
comments and names suggest:

- **`Set` of a new key never adds an entry.** The code stores the nil
  element returned by the failed lookup (lines 69-71). The key ends up
  indexed with a nil handle, and the list and `Len` do not change.
  `SetNewKeyDangles` and `SetNeverGrows` state this.
  `CapacityTwoScenario` works through one concrete sequence of calls:
  three `Set`s of new keys into a cache of capacity 2 leave the list
  empty, evict nothing, and leave three keys indexed with nil handles.
- **`Set` evicts at most once.** The capacity check (lines 73-75) is an
  `if`, not a loop: it removes the back entry once, not until the list is
  within capacity. Since `Set` never lengthens the list, this still keeps
  the capacity bound; `SetEvictsOnlyOnce` shows a store over capacity by
  two that `Set` leaves over capacity by one.
- **Later uses of such a key panic.** `Get`, `Peek` and `Remove` of that key
  dereference the nil handle. So does `expired` when a TTL is set, and so
  does `Purge` when a callback is set. Each of these panics is a
  precondition of the corresponding member, via `Dangling`.
- **`Contains` without a TTL reports a key with a nil handle as present.**
  It only looks in the index.
- **`Peek` of a key that is indexed but expired returns `(nil, true)`.** The
  found flag is the result of the map lookup.
- **`Get` of a stored nil value returns `(nil, false)`, but still moves the
  entry to the front.**
- **`Resize(n)` with `n` below zero can return more than it evicted.** It
  returns `Len - n`, but evicting stops once the list is empty. It also
  stores `n` as the capacity unchanged, negative values included.
- **`Keys` stops at the first expired entry from the back.** It does not
  skip expired entries and keep going.

Time is an explicit integer parameter `now`, in nanoseconds. An entry
stamped `t` with TTL `ttl` is expired at `now` exactly when `ttl != 0` and
`now - t > ttl`.

## Model

| member | source | states |
|---|---|---|
| SimpleLru.LRU.constructor | simplelru/lruImpl.go:35-51 | a capacity or TTL of zero or below becomes 0 (no limit), other values are kept; list, index and log start empty; the invariant, including the capacity bound, holds |
| SimpleLru.LRU.Set | simplelru/lruImpl.go:54-78 | performs `SetStep` on the state, keeps the invariant and the capacity bound, and never lengthens the list; requires that an indexed key not have a nil handle (else `item.Value = e` panics) |
| SimpleLru.LRU.Get | simplelru/lruImpl.go:80-89 | on an indexed, unexpired key: moves its entry to the front with the others in order, and returns the stored value, found exactly when that value is not nil; otherwise nothing changes and `(nil, false)` is returned; index and log never change |
| SimpleLru.LRU.Contains | simplelru/lruImpl.go:91-94 | true exactly when the key is indexed and either there is no TTL or its entry is at most `ttl` old (inclusive); reads the state without changing it |
| SimpleLru.LRU.Peek | simplelru/lruImpl.go:96-106 | the found flag is "indexed", expired or not; the value is the entry's value when `Contains` holds, and nil otherwise; nothing changes |
| SimpleLru.LRU.Remove | simplelru/lruImpl.go:108-114 | returns true exactly when the key was indexed, and then removes that entry (`RemoveAt`); otherwise the state is unchanged; afterwards the key is neither indexed nor listed, and the invariant holds |
| SimpleLru.LRU.RemoveOldest | simplelru/lruImpl.go:116-124 | on a non-empty list, returns the back entry's key and value with `ok` and removes it (`DropOldest`); on an empty list, returns `(nil, nil, false)` and changes nothing |
| SimpleLru.LRU.Len | simplelru/lruImpl.go:126-128 | the list length equals the number of keys indexed with a live handle; keys with nil handles are not counted |
| SimpleLru.LRU.Keys | simplelru/lruImpl.go:130-139 | the loop, which tests `expired` as the code does, returns exactly `UnexpiredTail` of the list (whose keys and timestamps `UnexpiredTailKeys` and `UnexpiredTailSpec` describe) |
| SimpleLru.LRU.Purge | simplelru/lruImpl.go:141-150 | ends with list and index empty and the invariant holding; the earlier log is kept as a prefix; with a callback, the pairs appended are, as a multiset, exactly the `(key, value)` pairs of the old list, each reported once; without one, nothing is logged |
| SimpleLru.LRU.Resize | simplelru/lruImpl.go:152-162 | returns `max(0, Len - n)`; removes the oldest entry that many times (`DropOldestTimes`); the list keeps its first `Len - min(diff, Len)` entries; the log gains the removed pairs back first (with a callback); the capacity becomes `n` as given, and the list is within it |
| LruModel.Expired | simplelru/lruImpl.go:184-196 | never true without a TTL; with a TTL, true for a key that is not listed; for a key at any list position, true exactly when a TTL is set and that entry is more than `ttl` old; requires a live handle when a TTL is set (else line 190 panics) |
| LruModel.UnexpiredTail | simplelru/lruImpl.go:131-139 | the walk of `Keys` from position `n - 1` towards the front; returns at most `n` keys |
| LruModel.RemoveAt | simplelru/lruImpl.go:172-182 | the list loses one entry; the index keeps exactly its other keys; the log keeps its old contents as a prefix and grows by one pair exactly when there is a callback |
| LruModel.DropOldest | simplelru/lruImpl.go:164-170 | on an empty list, nothing changes; otherwise the list loses its back entry and that entry's key leaves the index |
| LruModel.DropOldestTimes | simplelru/lruImpl.go:157-159 | `m` removals keep the first `Len - min(m, Len)` entries of the list |
| LruModel.Refresh | simplelru/lruImpl.go:60-71 | keeps the list length and the log; a key with a live handle gets the fresh entry first and the index is unchanged; any other key leaves the list as it was and is indexed with a nil handle |
| LruModel.EvictIfOver | simplelru/lruImpl.go:73-75 | over capacity, the list loses exactly its back entry; otherwise nothing changes; a list over capacity by at most one ends within it |
| LruModel.SetStep | simplelru/lruImpl.go:54-78 | never lengthens the list, and so keeps the capacity bound |
| LruModel.ResizeFits | simplelru/lruImpl.go:152-162 | after `Resize(n)` removes `max(0, Len - n)` entries, the list is within the new capacity `n`: at most `n` entries when `n` is positive, and none when `n` is negative |
| SimpleLru.LRU.EvictOldest | simplelru/lruImpl.go:164-170 | performs `DropOldest`: removes the back entry if there is one, else changes nothing; keeps the invariant |
| SimpleLru.LRU.RemoveElement | simplelru/lruImpl.go:172-182 | performs `RemoveAt`: unlinks the entry, deletes its key from the index, and logs the pair when there is a callback; the key is then neither indexed nor listed |
| LruModel.RemoveAtSpec | simplelru/lruImpl.go:172-182 | removing the entry at `i` keeps the invariant; its key leaves both index and list; the list loses one entry; every other key stays indexed exactly when it was; the log gains the pair exactly once with a callback and nothing without |
| LruModel.DropOldestTimesSpec | simplelru/lruImpl.go:152-162 | `m` calls of removeOldest remove the last `min(m, Len)` entries: the front part of the list is kept, exactly the removed keys leave the index, the pairs are logged back first, and the invariant holds |
| LruModel.SetKeepsCoherence | simplelru/lruImpl.go:54-78 | `Set` keeps the list/index invariant |
| LruModel.RefreshKeepsCoherence | simplelru/lruImpl.go:60-71 | the part of `Set` before the capacity check keeps the invariant, both for a live key and for a new key |
| LruModel.PromoteKeepsCoherence | simplelru/lruImpl.go:82 | moving an entry to the front (Get's `MoveToFront`) keeps the invariant |
| LruModel.SetNeverGrows | simplelru/lruImpl.go:66-75 | `Set` never lengthens the list, and shortens it by at most one |
| LruModel.SetNilIsNoOp | simplelru/lruImpl.go:56-58 | `Set` with a nil key or a nil value leaves index, list and log unchanged |
| LruModel.SetLiveKeyPromotes | simplelru/lruImpl.go:60-75 | for a key with a live handle: the fresh entry (new value, stamped `now`) is first and the other entries follow in their old order; the index is unchanged; the capacity check then cuts the last entry off exactly when the list was over capacity |
| LruModel.SetNewKeyDangles | simplelru/lruImpl.go:66-75 | for a key that is not indexed: afterwards it is indexed with a nil handle and not listed; the list is unchanged unless the capacity check removed its back entry |
| LruModel.SetEvictsBack | simplelru/lruImpl.go:73-75 | when the list is over capacity after the refresh, exactly its back entry is evicted: the key leaves list and index and the pair is logged once; otherwise list and log are as after the refresh |
| LruModel.SetThenGetHits | simplelru/lruImpl.go:54-89 | after `Set(k, v)` of a live key with non-negative capacity and TTL, `k` is first in the list with value `v`, is indexed live, and is not expired at the same instant, so `Get` returns `(v, true)` |
| LruModel.ExpiredAt | simplelru/lruImpl.go:184-196 | for a listed key, expired exactly when a TTL is set and more than `ttl` nanoseconds have passed since its entry was updated |
| LruModel.ExpiryBoundary | simplelru/lruImpl.go:184-196 | the TTL boundary is inclusive: not expired at `t + ttl`, and expired at `t + ttl + 1` exactly when a TTL is set |
| LruModel.ExpiryIsMonotone | simplelru/lruImpl.go:184-196 | once expired, a key stays expired as time moves on; with a TTL set, a key that is not indexed is always expired |
| LruModel.UnexpiredTailKeys | simplelru/lruImpl.go:130-139 | what `Keys` returns is the keys of positions `n-1, n-2, …`, back first |
| LruModel.UnexpiredTailSpec | simplelru/lruImpl.go:130-139 | the entries whose keys `Keys` returns are each within their TTL, and the walk stops at the first entry past its TTL even when entries nearer the front are still live |
| LruModel.SetEvictsOnlyOnce | simplelru/lruImpl.go:73-75 | a concrete store of three entries under capacity 1: `Set` of a listed key leaves two entries, because the capacity check removes one entry only |
| LruModel.LiveCount | simplelru/lruImpl.go:126-128 | the number of keys indexed with a live handle equals the list length |
| LruModel.ReportedStep | simplelru/lruImpl.go:142-147 | one step of Purge's walk (report `(k, value)`, delete `k`) keeps the relation "reported pairs plus pairs of still-indexed entries = pairs of the list" |
| LruModel.CapacityTwoScenario | simplelru/lruImpl.go:54-78 | `Set(1)`, `Set(2)`, `Set(3)` into an empty cache of capacity 2 leave list and log empty and all three keys indexed with nil handles; `Contains(1)` without a TTL still holds |

## Left out

- Wall-clock time: `time.Now` and `time.Since` become an integer parameter `now`, in nanoseconds.
- Integer width: capacities, TTLs and time stamps are unbounded integers. The model has no `int64` overflow and no saturation of `time.Since`.
- `container/list` internals: the pointers `prev` and `next`, `Init`, and the element-to-list back pointer become a sequence. A handle is either nil or the list slot holding its key.
- The eviction callback: its own effects and any reentrant calls into the cache are left out. Only the log of `(key, value)` pairs it receives is kept, and only when a callback was given.
- SimpleLru.LRU.Purge: the log is stated as a multiset of the old list's pairs, because Go's map iteration order is unspecified.
- Panics are preconditions, not outcomes. A `Purge` that panics partway leaves a partly emptied index, which is not modelled.
- `NewLRU`'s error result is always nil and is not modelled.
- `simplelru/lru.go` declares only the `LRUCache` interface and is not part of this model.
- Concurrency: the type is not safe for concurrent use, and no synchronisation is modelled.
- `interface{}` keys and values become generic `K` and `V` with an explicit nil case. The run-time panic on a key type that is not comparable is not modelled.
