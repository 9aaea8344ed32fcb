# LRU caches: single-lock and sharded

A Dafny model of two in-memory least-recently-used caches written in Go:

- **The single-lock cache** (`naive-mutex/lru/lru.go`). One recency list
  (front = most recently used), one index from key to list entry, and a
  capacity. It works from its zero value through `lazyInit`.
- **The sharded cache** (`sharded/lru/lru.go`, `sharded/lru/shard.go`,
  `sharded/lru/options.go`). `nshards` shards, each one a small
  list-and-index cache with capacity `cap / nshards`. A key goes to shard
  `fnv32a(bytes(key)) & uint32(nshards - 1)`. The cache is configured by
  options that `New` applies in order.

The modules are:

- `Recency`: the state both caches share, written as functions on a
  sequence of `Entry(key, val)`, front first. It defines:
  - the index `Index` (the map from each key to its entry's value);
  - the operations `Put` (add), `Touch` (get), `Delete` (remove),
    `DropBack` (evict) and `Visit` (traverse);
  - `Without`, a reference definition of "the other entries in their old
    order".

  Its lemmas say what each operation does to the list, the index, the
  length and the order.
- `ShardStore`: `shard.go` as a class `Shard` with fields `cap`, `len`,
  `order` and `idx`. Every method is proved against the `Recency`
  functions. They all keep the invariant:
  - the keys are distinct;
  - `idx == Index(order)`;
  - `len == |order|`;
  - `len <= cap` when `cap > 0`.
- `NaiveLru`: the single-lock cache as a class. `hasList` is false only in
  the zero value, before `lazyInit` runs. `Traverse` and `TraverseReverse`
  are loops proved against `Visit`.
- `Router`: how a key picks its shard. It covers:
  - `intBytes`, proved to be a little-endian encoding modulo `2^(8 il)`;
  - 32-bit FNV-1a as a left fold over the bytes;
  - the `uint32` mask. The mask always gives a valid index, and for
    `1 <= nshards <= 2^32` it reaches every shard exactly when `nshards` is
    a power of two.
- `ShardedLru`: the sharded front end, the options, and Go's truncating
  division.
  - Its invariant: the shards are distinct, each one is valid, each has
    capacity `cap / nshards`, and each holds only keys that route to it.
  - `Add`, `Get` and `Remove` are proved in terms of `Value(key)`, the value
    held by the shard the key routes to.

Two behaviours of the code that its comments do not suggest:

- **Shard choice.** The shard is picked with the mask `h & (nshards - 1)`.
  `Router.MaskCoverage` proves that, for `1 <= nshards <= 2^32`, the mask
  reaches every shard exactly when `nshards` is a power of two; otherwise
  some shards never receive a key.
- **Traversal.** The doc comment at `sharded/lru/lru.go:89-90` says that
  `Traverse` calls `fn` for each element in the LRU. But `Traverse` and
  `TraverseReverse` leave the outer loop with `break L` as soon as the
  first shard's list runs out, so they visit only `shards[0]`, whatever
  `fn` returns. `ShardedLru.LRU.TraverseMissesLaterShards` shows that an
  entry held by any later shard is never handed to `fn`.

## Model

| member | source | states |
|---|---|---|
| Recency.Find | sharded/lru/shard.go:37 | the index lookup `s.idx[k]`: it finds the first entry holding `k`, and finds nothing exactly when `k` is not in the list |
| Recency.Index | sharded/lru/shard.go:14 | the index map has exactly the list's keys |
| Recency.Reversed | naive-mutex/lru/lru.go:144-159 | back-to-front order: same length, element `i` is element `n-1-i` of the list |
| Recency.IndexAt | sharded/lru/shard.go:14 | in a duplicate-free list, the index maps every entry's key to that entry's value |
| Recency.LookupIsIndex | sharded/lru/shard.go:68-77 | a lookup through the list agrees with the index lookup |
| Recency.IndexSize | sharded/lru/shard.go:29 | the index has as many keys as the list has entries, so the counter is both |
| Recency.PushFrontIndex | sharded/lru/shard.go:43 | pushing a new key to the front keeps keys distinct and adds exactly that key to the index |
| Recency.RemoveAtIndex | sharded/lru/shard.go:87-93 | unlinking one entry keeps keys distinct and removes exactly its key from the index |
| Recency.RemoveAtIsWithout | sharded/lru/shard.go:87-93 | unlinking one entry leaves the other entries in their order |
| Recency.MoveToFrontSpec | sharded/lru/shard.go:73 | moving an entry to the front permutes the list, keeps the index, and leaves the others in order |
| Recency.MoveToFrontPermutes | sharded/lru/shard.go:73 | moving an entry to the front keeps the same entries (multiset) |
| Recency.TouchSpec | sharded/lru/shard.go:68-77 | get: a hit puts the entry first with the others in order and the index unchanged; a miss changes nothing |
| Recency.PutExisting | sharded/lru/shard.go:37-42 | add of a present key: the new value is stored and first, the others keep their order, the length is unchanged |
| Recency.PutNew | sharded/lru/shard.go:43-48 | add of a new key: it is first with the old entries behind it; only when a positive capacity is exceeded is the old back entry evicted, from list and index |
| Recency.PutWithinCapacity | sharded/lru/shard.go:46-48 | after add, a list within a positive capacity stays within it |
| Recency.PutThenLookup | sharded/lru/shard.go:32-50 | after add(k, v), looking up k gives v |
| Recency.PutIndexKeys | sharded/lru/shard.go:32-50 | add stores v under k and changes no other key's value; another key can only disappear (by eviction) |
| Recency.DeleteSpec | sharded/lru/shard.go:96-105 | remove: the key leaves list and index, the others keep their order, and the length drops by one exactly when the key was present |
| Recency.DropBackSpec | sharded/lru/shard.go:79-85 | evicting removes exactly the back entry, from list and index |
| Recency.VisitAll | naive-mutex/lru/lru.go:125-140 | when fn accepts every entry, traversal hands over the whole list |
| Recency.VisitStops | naive-mutex/lru/lru.go:125-140 | traversal stops right after the first entry fn refuses |
| ShardStore.Shard.constructor | sharded/lru/shard.go:19-26 | newShard: empty list, empty index, zero count, the given capacity |
| ShardStore.Shard.Len | sharded/lru/shard.go:29 | the counter equals the list length and the index size |
| ShardStore.Shard.Add | sharded/lru/shard.go:32-50 | the new list is `Put(old list, k, v, cap)`; the index holds `v` for `k` and no other key gains or changes a value; the shard invariant is kept |
| ShardStore.Shard.Front | sharded/lru/shard.go:54-64 | nothing exactly when the shard is empty, otherwise the front entry, whose value the index holds; nothing changes |
| ShardStore.Shard.Get | sharded/lru/shard.go:68-77 | the result is the list lookup, the list becomes `Touch(old list, k)`, and the index and count are unchanged |
| ShardStore.Shard.RemoveOldest | sharded/lru/shard.go:79-85 | a no-op when empty; otherwise returns and removes the back entry, drops its key, and decrements the count |
| ShardStore.Shard.RemoveElement | sharded/lru/shard.go:87-93 | removes the given entry from list and index and decrements the count |
| ShardStore.Shard.RemoveKey | sharded/lru/shard.go:96-105 | the list becomes `Delete(old list, key)`, the key leaves the index, and the count drops by one only if the key was present |
| NaiveLru.LRU.constructor | naive-mutex/lru/lru.go:23-30 | New(cap): an empty list and index with the given capacity |
| NaiveLru.LRU.Zero | naive-mutex/lru/lru.go:9-15 | the zero value: no list, capacity 0 (unbounded) |
| NaiveLru.LRU.LazyInit | naive-mutex/lru/lru.go:37-42 | afterwards a list exists, and no entry is ever discarded |
| NaiveLru.LRU.Len | naive-mutex/lru/lru.go:33 | the list length, which is also the index size |
| NaiveLru.LRU.Add | naive-mutex/lru/lru.go:45-63 | the new list is `Put(old list, k, v, cap)`, and the invariant including `len <= cap` is kept |
| NaiveLru.LRU.PeekFront | naive-mutex/lru/lru.go:67-77 | nothing when empty, otherwise the front entry; no entry changes |
| NaiveLru.LRU.Get | naive-mutex/lru/lru.go:81-90 | the result is the list lookup, the list becomes `Touch(old list, k)`, and the index is unchanged |
| NaiveLru.LRU.RemoveOldest | naive-mutex/lru/lru.go:92-98 | a no-op when empty; otherwise removes and returns the back entry |
| NaiveLru.LRU.RemoveElement | naive-mutex/lru/lru.go:100-105 | removes the given entry from list and index |
| NaiveLru.LRU.Remove | naive-mutex/lru/lru.go:108-117 | the list becomes `Delete(old list, key)` and the key leaves the index |
| NaiveLru.LRU.Traverse | naive-mutex/lru/lru.go:125-140 | the entries handed to fn are `Visit(list, fn)`: front to back, up to and including the first refused one |
| NaiveLru.LRU.TraverseReverse | naive-mutex/lru/lru.go:144-159 | the entries handed to fn are `Visit(Reversed(list), fn)` |
| Router.IntBytes | sharded/lru/lru.go:184-200 | intBytes returns `il` bytes |
| Router.IntBytesLittleEndian | sharded/lru/lru.go:184-200 | byte `j` is `(i >> 8j) & 0xff`, and the bytes read back little-endian give `i mod 2^(8 il)` |
| Router.DigitsValue | sharded/lru/lru.go:189-198 | the base-256 digits of `x` read back little-endian give `x mod 256^n` |
| Router.FnvFoldAppend | sharded/lru/lru.go:138-170 | hashing `a + b` is hashing `b` from the state after `a`: FNV-1a is a left fold over the bytes |
| Router.BitAnd | sharded/lru/lru.go:173 | a bitwise AND is at most either operand |
| Router.MaskIndex | sharded/lru/lru.go:173 | `h & uint32(nshards - 1)` is always a valid shard index (0 when there is one shard) |
| Router.ShardIndex | sharded/lru/lru.go:137-174 | a key's shard index, computed from the key's bytes alone, is always in range |
| Router.BitAndLowMask | sharded/lru/lru.go:173 | masking with `2^t - 1` keeps the low `t` bits |
| Router.PowerOfTwoReachesAll | sharded/lru/lru.go:173 | with `nshards` a power of two, every shard index is the mask of some hash |
| Router.NonPowerOfTwoMissesAShard | sharded/lru/lru.go:173 | with `nshards` not a power of two, some shard index below `nshards` is the mask of no hash |
| Router.MaskCoverage | sharded/lru/lru.go:173 | the mask reaches every shard if and only if `nshards` is a power of two |
| ShardedLru.GoDivSpec | sharded/lru/lru.go:34 | Go's `cap / nshards` truncates toward zero: the remainder is smaller than the divisor and has the sign of the dividend |
| ShardedLru.ShardCapacity | sharded/lru/lru.go:34-38 | with `cap >= nshards` every shard has room for at least one entry and the shards together hold at most `cap`; otherwise every shard is unbounded |
| ShardedLru.Setting.Set | sharded/lru/options.go:13-23 | withCapacity sets `cap` and withShards sets `nshards`; each leaves the other field as it was |
| ShardedLru.Setting.Apply | sharded/lru/options.go:9-11 | apply calls the option on the LRU: it changes exactly the option's field |
| ShardedLru.LastSettingWins | sharded/lru/lru.go:27-29 | options applied in order: the last setter of each field wins |
| ShardedLru.ConfigureSnoc | sharded/lru/lru.go:27-29 | applying one more option sets it on top of the earlier ones |
| ShardedLru.TotalLenBound | sharded/lru/lru.go:43-50 | shards of at most `c` entries hold at most `nshards * c` together |
| ShardedLru.LRU.RoutedLookup | sharded/lru/lru.go:76-78 | a key held by any shard is found by routing to that key's shard |
| ShardedLru.HeldAfterRemove | sharded/lru/lru.go:81-83 | deleting a key from the shard it routes to leaves nothing held for it, and every other key keeps its value |
| ShardedLru.RoutesToAfterAdd | sharded/lru/lru.go:62-65 | a shard that gains only a key routed to it still holds only keys routed to it |
| ShardedLru.LRU.Zero | sharded/lru/lru.go:13-17 | the zero value: no shards, `cap` and `nshards` 0 |
| ShardedLru.LRU.constructor | sharded/lru/lru.go:25-40 | New: options applied in order, `nshards` clamped to at least 1, `nshards` fresh empty shards of capacity `cap / nshards` |
| ShardedLru.LRU.LazyInit | sharded/lru/lru.go:54-59 | the zero value gets one empty shard with the whole capacity; an allocated cache is left unchanged |
| ShardedLru.LRU.Len | sharded/lru/lru.go:43-50 | after lazyInit, the sum of the shards' entry counts |
| ShardedLru.LRU.SumShardLens | sharded/lru/lru.go:45-49 | the loop adds up every shard's counter |
| ShardedLru.LRU.WithinCapacity | sharded/lru/lru.go:34-38 | with `cap >= nshards` the whole cache never holds more than `cap` entries |
| ShardedLru.LRU.Add | sharded/lru/lru.go:62-65 | for a key that is not a byte slice: after lazyInit only the key's shard changes, to `Put(old, k, v, cap / nshards)`, and the cache then holds `v` for `k` |
| ShardedLru.LRU.AddToShard | sharded/lru/lru.go:64 | for a key that is not a byte slice, on an allocated cache: only the key's shard changes, to `Put(old, k, v, cap / nshards)`; the routing invariant is kept and the cache then holds `v` for `k` |
| ShardedLru.LRU.PeekFront | sharded/lru/lru.go:69-72 | the front entry of the shard that the int key 1 routes to, or nothing when that shard is empty |
| ShardedLru.LRU.Get | sharded/lru/lru.go:76-78 | for a key that is not a byte slice: the value the cache holds for the key (the routed shard's lookup), with that entry promoted; no shard's index changes |
| ShardedLru.LRU.Remove | sharded/lru/lru.go:81-83 | for a key that is not a byte slice: the routed shard's list becomes `Delete(old, key)`, only that shard's index loses the key, and the cache holds nothing for the key |
| ShardedLru.LRU.Traverse | sharded/lru/lru.go:91-107 | visits only `shards[0]`: the result is `Visit(shards[0] list, fn)`, or nothing for the zero value |
| ShardedLru.LRU.TraverseReverse | sharded/lru/lru.go:111-127 | visits only `shards[0]`, back to front: `Visit(Reversed(shards[0] list), fn)` |
| ShardedLru.LRU.TraverseMissesLaterShards | sharded/lru/lru.go:89-107 | with a callback that accepts everything, the traversal hands `fn` all of `shards[0]` and no entry held by any later shard, although the doc comment promises every element |

## Left out

- Locking: `sync.Mutex` and the atomic shard counter become sequential
  execution and a plain `int` field. The fuzzy snapshot that `Len` and
  `Traverse` take under concurrency is not modelled.
- The shard counter is an `int32` in Go. Its wrap-around after `2^31`
  entries is not modelled.
- Keys are limited to byte slices, strings and `int`. A byte slice can be
  routed (`Router.KeyBytes`), but a shard cannot store or look it up: a
  `[]byte` is not comparable, so `s.idx[k]` panics with "hash of
  unhashable type". Only strings and `int` reach a shard's index. Not
  modelled:
  - the `byter` and `stringer` cases, which call user methods;
  - the `binary.Write` case (`toBytes`) and the `gob` fallback, which are
    foreign encoders;
  - the panics when those encoders fail;
  - pointer keys.
- Keys compare by value in the datatype. Go compares interface values
  dynamically.
- `container/list` is an abstract sequence. Finding an element is a search
  by key (`Recency.Find`), not a pointer held in the index.
- `hash/fnv`'s internals are not verified. Its 32-bit FNV-1a is written out
  as a fold on `bv32`.
- `il` (`strconv.IntSize / 8`) is fixed at 8, as on a 64-bit platform.
  `IntBytes` also accepts 4.
- `int` keys are unbounded integers. On a 64-bit platform only their low
  64 bits are hashed, which is what `IntBytes` computes for any integer.
- On the zero value, `Traverse` and `TraverseReverse` of the single-lock
  cache dereference a nil list, and `Get` and `Remove` of the sharded cache
  index a nil slice. These panics are preconditions instead (`hasList`,
  `shards != []`). `Get` and `Remove` of the single-lock cache call
  `lazyInit` first and are modelled with it.
- Map pre-sizing hints (`cap + 1`) affect performance only and are not
  modelled.
- Traversal callbacks are pure functions `(K, V) -> bool`. A callback that
  changes the cache while it is being traversed is not modelled.
- Go's `nil` results, such as `(nil, false)`, become `Option.None`.
- `NaiveLru.LRU.Traverse` and `NaiveLru.LRU.TraverseReverse` require a list
  to exist. In Go, traversing the zero value dereferences a nil list.
- ShardedLru.LRU.Add: requires a key that is not a byte slice. In Go,
  `shard.add` panics at `s.idx[k]` (`sharded/lru/shard.go:37`) on a
  `[]byte` key, after `lazyInit` has run.
- ShardedLru.LRU.AddToShard: requires a key that is not a byte slice, for
  the same panic at `sharded/lru/shard.go:37`.
- ShardedLru.LRU.Get: requires a key that is not a byte slice. In Go,
  `shard.get` panics at `s.idx[key]` (`sharded/lru/shard.go:72`).
- ShardedLru.LRU.Remove: requires a key that is not a byte slice. In Go,
  `shard.removeKey` panics at `s.idx[key]` (`sharded/lru/shard.go:100`).
- The single-lock cache is generic over keys that support equality, so a
  non-comparable key cannot be given to it at all; in Go the same map
  index panics.
