# HashMap: a verified model in Dafny

This project models the two hash maps of the HashMap repository and proves what each
operation does.

- **Open addressing** (`hash_map_oa.py`).
  - The table is a sequence of slots searched by quadratic probing.
  - `remove` deletes by turning an entry into a tombstone.
- **Separate chaining** (`hash_map_sc.py`).
  - The table is a sequence of buckets, and each bucket is a chain of (key, value) pairs.
  - `find_mode` counts values with this map.
- **Prime-capacity policy.** Both maps round their capacity up to an odd prime. The rounding is done by `_next_prime` and `_is_prime`, which are duplicated in both files and modelled once.

Layout:

- `common.dfy` (module `Common`):
  - `Option`, which stands for Python's `None` or a value;
  - `LoadAtLeast`, the integer form of the load-factor comparisons.
- `primes.dfy` (module `Primes`):
  - `IsPrime` and `NextPrime` as loops, proved against the predicates `Prime` and `IsNextPrime`;
  - a proof from Euclid's argument that `_next_prime` terminates.
- `hash_map_oa.dfy` (module `OpenAddressing`):
  - the datatype `Slot = Empty | Entry(key, value, tombstone)`;
  - `class HashMap`, whose fields `buckets`, `size` and `capacity` its methods update;
  - the invariant `Valid()`: `capacity` is prime, and `size` is the number of live (non-tombstone) entries, `LiveCount`.
- `chains.dfy` (module `Chains`):
  - the chaining table as values;
  - the layout invariant `Chained`: each pair sits in bucket `hash(key) % capacity`, and a chain holds each key once;
  - the map a table spells, `BucketsMap`;
  - one lemma per chain update, stating the new map.
- `hash_map_sc.dfy` (module `SeparateChaining`):
  - `class HashMap` over a sequence of chains;
  - its meaning `Contents()`, the map its buckets spell;
  - every operation stated against `Contents()`.
- `find_mode.dfy` (module `ModeFinder`):
  - `find_mode` as its three loops over a chaining map of default capacity 11;
  - the result proved to be the maximum occurrence count and exactly the values having it.

Behaviour of the source that the model keeps:

- Stored values are `Option<V>`, because a Python value may be `None`.
  - In the open-addressing map, `get` answers `None` for such a key, and `contains_key` then answers false.
  - In the chaining map, `contains_key` looks at the chain, so it answers true.
- The open-addressing `put` writes at the first probe slot that is empty, a tombstone or holds the key.
  - A tombstone on the probe path before the key's live slot is reused.
  - That leaves two live entries for one key. `get` scans in slot order, so it returns the entry in the lower slot, which may be the stale one.
  - `StaleValueAfterPut` builds such a table, with the stale entry in the lower slot, and proves that `get` returns the stale value. Live keys are therefore stated as a set, never as unique slots.
  - A rebuild re-puts the live entries in slot order, and a later put of a key overwrites the earlier one, so it keeps whichever entry it re-puts last.
- `resize_table(2)` overrides the capacity to 2 after the constructor has rounded 2 up to 3.
  - The storage keeps the 3 slots or buckets the constructor allocated, and the third stays empty.
  - The `Valid()` predicates allow exactly this case.
  - The constructor itself turns a request of 2 into 3, and the model follows the code here.
- The open-addressing probe loop has no bound in the source.
  - The model stops it after `capacity` steps and proves, in `ProbeRepeats`, that the probe sequence repeats with period `capacity`.
  - A probe that has not stopped by then never stops, where the source would loop forever.
  - `FindStop`, `Store`, `Put`, `ResizeTable`, `Rebuild` and `PutAll` report this case with a `done`/`found` result that is false.
  - `Store` and `ResizeTable` then change nothing.
  - A failing `Put` below load 1/2 changes nothing. At load 1/2 or more it may already have grown the table, keeping its live keys and bringing in no new pair.

## Model

| member | source | states |
|---|---|---|
| Common.LoadAtLeast | hash_map_oa.py:125-129 | the integer test is true exactly when the real load factor size/capacity is at least num/den |
| Primes.IsPrime | hash_map_oa.py:52-70 | for every n >= 0 the answer is true exactly when n is prime: 2 and 3 yes, 0, 1 and even numbers no, otherwise trial division by odd factors up to the square root |
| Primes.NextPrime | hash_map_oa.py:39-50 | the result is the smallest odd prime at or above the request; the loop terminates |
| Primes.OddPrimeAtLeast | hash_map_sc.py:50-51 | above every n lies an odd prime, so the stepping loop of `_next_prime` stops |
| Primes.NextPrimeUnique | hash_map_sc.py:42-53 | the rounding rule determines its result |
| Primes.NextPrimeOfOddPrime | hash_map_sc.py:47-53 | an odd prime request is kept as it is |
| Primes.NextPrimeOfTwo | hash_map_oa.py:44-50 | a request of 2 rounds up to 3 |
| Primes.NextPrimeOfTwenty | hash_map_oa.py:311 | the constructor turns a requested capacity of 20 into 23 |
| Primes.NextPrimeOfDouble | hash_map_oa.py:93-94 | rounding the even request 2·capacity up to an odd prime lands strictly above it |
| Primes.PrimeAboveTwoIsOdd | hash_map_oa.py:61-62 | every prime above 2 is odd |
| OpenAddressing.ProbeRepeats | hash_map_oa.py:116-119 | the probe (h0 + i²) mod capacity depends on i only modulo capacity |
| OpenAddressing.FirstStopUnique | hash_map_oa.py:106-119 | the step at which the probe loop first stops is unique |
| OpenAddressing.LiveCountUpdate | hash_map_oa.py:110-115 | writing one slot changes the live count by whether the old and the new slot are live |
| OpenAddressing.LiveKeysStore | hash_map_oa.py:100-122 | storing a live entry for k where no other key was live adds k to the live keys and removes none |
| OpenAddressing.LivePairsMembers | hash_map_oa.py:213-223 | a pair is listed exactly when some slot holds it as a live entry |
| OpenAddressing.LivePairsSet | hash_map_oa.py:159-161 | the pairs the iteration lists are exactly the pairs of the live entries |
| OpenAddressing.LivePairSetWrite | hash_map_oa.py:113-115 | writing a live entry (k, v) into a slot brings in the pair (k, v) and no other live pair |
| OpenAddressing.LivePairsKeys | hash_map_oa.py:213-223 | the keys listed are exactly the live keys |
| OpenAddressing.TombstonedKeys | hash_map_oa.py:195-200 | tombstoning every live entry for k removes k, and only k, from the live keys |
| OpenAddressing.TombstonedIdempotent | hash_map_oa.py:195-200 | removing a key twice is removing it once; removing an absent key changes no slot |
| OpenAddressing.HashMap.constructor | hash_map_oa.py:13-27 | a valid empty map whose capacity is the request rounded up to the next odd prime, all slots empty |
| OpenAddressing.HashMap.Iterate | hash_map_oa.py:225-246 | the scan yields the live (key, value) pairs in slot order, `size` of them |
| OpenAddressing.HashMap.GetKeysAndValues | hash_map_oa.py:213-223 | the live pairs in slot order, `size` of them, and a pair is listed exactly when a live slot holds it |
| OpenAddressing.HashMap.Get | hash_map_oa.py:169-179 | the value of the first live entry for the key in slot order, or None when the key has no live entry |
| OpenAddressing.HashMap.ContainsKey | hash_map_oa.py:181-188 | false for a key without a live entry; otherwise true exactly when the first live entry's value is not None |
| OpenAddressing.HashMap.Remove | hash_map_oa.py:190-200 | every live entry for the key becomes a tombstone and no other slot changes; the key leaves the live keys; an absent key changes nothing; a present key lowers `size`; `Valid()` is kept |
| OpenAddressing.HashMap.Clear | hash_map_oa.py:202-210 | capacity kept, `size` 0, every slot empty, no live key |
| OpenAddressing.HashMap.EmptyBuckets | hash_map_oa.py:131-140 | the number of empty or tombstone slots among the first `capacity` is `capacity - size` |
| OpenAddressing.HashMap.FindStop | hash_map_oa.py:96-119 | when found, i is the first probe step whose slot is empty, a tombstone or holds the key; otherwise no probe step ever stops |
| OpenAddressing.NeverStops | hash_map_oa.py:117-118 | the quadratic probe repeats with period capacity, so a probe that stops at none of its first capacity slots stops at none ever |
| OpenAddressing.HashMap.Store | hash_map_oa.py:96-122 | done exactly when the probe stops; the slot of the first stop, and only it, becomes a live entry (key, value); the key joins the live keys; otherwise nothing changes; `Valid()` is kept |
| OpenAddressing.HashMap.Write | hash_map_oa.py:110-115 | the slot becomes a live entry (key, value); `size` grows by one unless the slot was live |
| OpenAddressing.HashMap.Put | hash_map_oa.py:88-122 | the key joins the live keys with a live entry (key, value), and the only new live pair is (key, value). Below load 1/2 the capacity is kept and the first probe stop is overwritten. At load 1/2 or more the capacity becomes the next odd prime at or above twice the old one, with no tombstones. Afterwards `2·size <= capacity + 1` and `Valid()` holds. When the probe never stops, the live keys are kept and no pair is new, and below load 1/2 nothing changes |
| OpenAddressing.HashMap.Grow | hash_map_oa.py:93-94 | at load 1/2 or more the live keys are kept, every live pair afterwards was a live pair before, tombstones are dropped, the capacity becomes the next odd prime above 2·capacity, and the table is less than half full |
| OpenAddressing.HashMap.ResizeTable | hash_map_oa.py:142-167 | a request below `size` changes nothing. Otherwise the live keys are kept, every live pair afterwards was a live pair before, no tombstone survives, the capacity is at least the request, and it is the request rounded up to an odd prime (2 kept as 2) when the entries fit without growing |
| OpenAddressing.HashMap.Rebuild | hash_map_oa.py:150-162 | putting every live entry into the fresh table in slot order gives a valid table with the same live keys, only pairs that were live before, and no tombstones |
| OpenAddressing.HashMap.PutAll | hash_map_oa.py:159-162 | putting a listing into an empty table, in order, yields exactly the listed keys and only listed pairs, without tombstones. The table grows only if the listing fills half of it |
| OpenAddressing.HashMap.PutInto | hash_map_oa.py:160-162 | one put into the fresh table stores (key, value) as a live entry. It adds the key to the live keys and no other pair to the live pairs, brings in no tombstone, raises the size by at most one, and leaves the capacity alone below half load |
| OpenAddressing.HashMap.NewTable | hash_map_oa.py:149-158 | the fresh table is empty and valid, with the request rounded up to the next odd prime, or exactly 2 for a request of 2 |
| OpenAddressing.PutWithoutGrowth | hash_map_oa.py:96-122 | below load 1/2, `put` writes (key, value) at the probe's first stop and changes no other slot |
| OpenAddressing.RemoveThenContains | hash_map_oa.py:190-200 | after `remove(k)`, `contains_key(k)` is false |
| OpenAddressing.ClearThenGet | hash_map_oa.py:202-210 | after `clear()`, `get` answers None and nothing is listed |
| OpenAddressing.SevenSlotTable | hash_map_oa.py:13-27 | a request of 7 gives 7 empty slots; a key whose hash is 6 probes slot 6, then slot 0 |
| OpenAddressing.TombstoneOnProbePath | hash_map_oa.py:106-119 | after put("b"), put("a") and remove("b") with both keys hashing to 6, "a" is live in slot 0 and slot 6 is a tombstone |
| OpenAddressing.StaleValueAfterPut | hash_map_oa.py:108-115 | put("a", 2) reuses the tombstone in slot 6 although "a" is live in slot 0, so `get("a")` answers the stale 1 |
| Chains.ChainFind | hash_map_sc.py:99-101 | the position of the key's node in a chain when the chain holds the key, and None exactly when no node holds it |
| Chains.ChainMapPairs | hash_map_sc.py:101-106 | a chain with distinct keys spells exactly its own pairs |
| Chains.ChainMapExtend | hash_map_sc.py:154-155 | putting the next pair of a chain with distinct keys adds a key the map lacks so far |
| Chains.SpellsBucketsMap | hash_map_sc.py:98-99 | every pair of a chained table is in its map with its value, and every key of the map has a node in bucket `hash(key) % capacity` |
| Chains.SpellsUnique | hash_map_sc.py:98-99 | a chained table spells one map only |
| Chains.Lookup | hash_map_sc.py:167-175 | a key is in the map exactly when its own bucket holds it, and the node's value is the key's value |
| Chains.SetValueKeeps | hash_map_sc.py:103-104 | overwriting a node's value keeps the layout and updates that key's value in the map |
| Chains.InsertKeeps | hash_map_sc.py:105-107 | adding a node for a new key to its bucket keeps the layout and adds the key with its value |
| Chains.RemoveKeeps | hash_map_sc.py:193-197 | unlinking a node keeps the layout and removes its key from the map |
| Chains.BucketReady | hash_map_sc.py:152-155 | a bucket's keys are distinct and new to the buckets before it |
| Chains.KeyCount | hash_map_sc.py:106-107 | in a chained table the number of keys equals the total chain length |
| Chains.FlattenLists | hash_map_sc.py:204-210 | the pairs of a chained table, bucket by bucket, agree with its map, repeat no key and cover every key |
| Chains.AllEmpty | hash_map_sc.py:129-132 | empty buckets hold nothing and spell the empty map |
| SeparateChaining.HashMap.constructor | hash_map_sc.py:14-30 | a valid empty map whose capacity is the request rounded up to the next odd prime, with that many empty buckets |
| SeparateChaining.HashMap.Get | hash_map_sc.py:163-175 | the stored value of the key, or None when absent |
| SeparateChaining.HashMap.ContainsKey | hash_map_sc.py:177-187 | true exactly when the key is in the map, even when its value is None |
| SeparateChaining.HashMap.Put | hash_map_sc.py:91-107 | the map gets key := value; `size` grows by one exactly for a new key; the capacity is kept below load 1, and otherwise becomes the next odd prime at or above twice the old one; `Valid()` (layout, size = total chain length <= capacity) is kept |
| SeparateChaining.HashMap.SetValue | hash_map_sc.py:103-104 | the node's key is in the map and now maps to the new value; `size` is kept |
| SeparateChaining.HashMap.InsertNode | hash_map_sc.py:105-107 | a key new to the map is added with its value and `size` grows by one |
| SeparateChaining.HashMap.ResizeTable | hash_map_sc.py:134-160 | a request below 1 changes nothing. Otherwise the map and `size` are kept, the capacity is at least the request, and it is the request rounded up to an odd prime (2 kept as 2) when the entries fit |
| SeparateChaining.HashMap.Rehash | hash_map_sc.py:142-155 | a fresh valid map of the rounded-up capacity holding exactly this map's pairs |
| SeparateChaining.HashMap.CopyInto | hash_map_sc.py:152-155 | putting every node, bucket by bucket, into an empty map yields the same map and size; that map grows only if too small |
| SeparateChaining.HashMap.CopyBucket | hash_map_sc.py:153-155 | one bucket's nodes join those of the buckets before it |
| SeparateChaining.HashMap.PutChain | hash_map_sc.py:154-155 | putting a chain of new, distinct keys adds exactly its pairs and its length to the table |
| SeparateChaining.HashMap.Remove | hash_map_sc.py:189-197 | the key leaves the map, all other pairs stay; `size` drops by one exactly when the key was present |
| SeparateChaining.HashMap.UnlinkNode | hash_map_sc.py:196-197 | the node's key leaves the map and `size` drops by one |
| SeparateChaining.HashMap.Clear | hash_map_sc.py:125-132 | capacity kept, `size` 0, empty map, `capacity` empty buckets |
| SeparateChaining.HashMap.EmptyBuckets | hash_map_sc.py:109-117 | between `capacity - size` and `capacity`, and `capacity` exactly when the map is empty |
| SeparateChaining.HashMap.GetKeysAndValues | hash_map_sc.py:200-210 | the chains concatenated in bucket-index order, each in chain order (`Flatten`): `size` pairs, each agreeing with the map, no key twice, every key of the map listed |
| SeparateChaining.PutThenGet | hash_map_sc.py:91-107 | after `put(k, v)`, `get(k)` answers v and `size <= capacity` |
| SeparateChaining.RemoveThenContains | hash_map_sc.py:189-197 | after `remove(k)`, `contains_key(k)` is false and every other key keeps its value |
| ModeFinder.TallyStep | hash_map_sc.py:223-226 | counting one more value adds one to its count, starting from 1 for a new value |
| ModeFinder.CountOne | hash_map_sc.py:223-226 | the body of the counting loop turns the tally of s into the tally of s + [v] |
| ModeFinder.CountAll | hash_map_sc.py:220-226 | the map ends up holding, for every value of the input, its number of occurrences, and nothing else |
| ModeFinder.LargestCount | hash_map_sc.py:228-233 | the largest count listed, attained by some pair, or 0 for an empty listing |
| ModeFinder.KeysWithCount | hash_map_sc.py:234-236 | the keys of the listing whose count is the frequency, in listing order |
| ModeFinder.KeysWithWitness | hash_map_sc.py:234-236 | every selected key comes from a pair with that count |
| ModeFinder.KeysWithAt | hash_map_sc.py:234-236 | the key of every pair with that count is selected |
| ModeFinder.KeysWithDistinct | hash_map_sc.py:234-236 | selecting from pairs with distinct keys selects no key twice |
| ModeFinder.ModesExact | hash_map_sc.py:234-236 | the selected keys are exactly the input values occurring `frequency` times |
| ModeFinder.ModesOfListing | hash_map_sc.py:228-236 | over any listing of the tally, the largest count and the keys having it are the largest multiplicity and exactly the values occurring that often, once each, empty only for empty input |
| ModeFinder.FindMode | hash_map_sc.py:213-238 | frequency is the largest number of occurrences (0 for empty input); modes holds each value occurring that often, once, and is empty only for empty input |
| ModeFinder.FruitModes | hash_map_sc.py:432-434 | ["apple", "apple", "grape", "melon", "peach"] gives (["apple"], 2) |

## Left out

- `__str__`, `get_size`, `get_capacity` and the `if __name__ == "__main__"` blocks: they format output, read a field or print. Two of the printed examples are stated as `NextPrimeOfTwenty` and `FruitModes`.
- `table_load` as a float: `LoadAtLeast` states its comparisons exactly in integers. The threshold is `2·size >= capacity` for open addressing and `size >= capacity` for chaining.
- The hash functions `hash_function_1/2`: the hash is a parameter `K -> nat` of each map.
- `DynamicArray`, `LinkedList` and `HashEntry` from `a6_include`, which is not part of this model. They are modelled as follows:
  - the array is a `seq` field the methods reassign;
  - a linked list is a `seq<(K, Option<V>)>`;
  - an entry is the `Slot` datatype.
- The position of a new node in its chain: the model puts it at the head, because `LinkedList.insert` is not part of this model. No contract depends on the order within a chain.
- The iterator protocol of the open-addressing map (`__iter__`/`__next__`, with its cursor field and the exception that ends it): it is modelled as an index scan, `Iterate`, over every slot.
- Whether quadratic probing always finds a stop: this is not proved. The probe is cut off after `capacity` steps, which `ProbeRepeats` shows loses nothing, and a `done`/`found` flag reports the case where the source loops forever.
- OpenAddressing.HashMap.Put: when the table grows, the contract does not say at which slot the entry lands. It states that the key is live with the new value, the new capacity and that no tombstones remain.
- OpenAddressing.HashMap.ResizeTable, OpenAddressing.HashMap.Rebuild and OpenAddressing.HashMap.PutAll: they state that the live keys are kept and that every live pair afterwards was live before. They do not state which value survives for a key that had two live entries, which is the one re-put last.
- OpenAddressing.HashMap.Grow: it states the same, for the same reason.
- SeparateChaining.HashMap.EmptyBuckets: it states bounds, not the exact count, which depends on how the hash spreads the keys.
- Negative capacities: requests are `nat`, and `_is_prime` of a negative number is not modelled.
