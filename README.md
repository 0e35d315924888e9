# intmap in Dafny

This project models the core of `intmap`, a hash map specialised to integer keys. Every key is first
canonicalised to an unsigned integer of a fixed width (`u8` … `u128`). Its bucket is then
`(PRIME * key) mod 2^W`, cast to a 64-bit `usize` and and-ed with a mask. The map keeps
`2^size` chains (no array at all before the first allocation) and stores each pair in the chain its
key hashes to. `count` tracks the number of pairs, and the array doubles whenever
`count * 1000 / capacity` exceeds the load factor, counted in parts per thousand.

The model is layered like the program:

- `int.dfy` (module `Int`): the unsigned widths, wrapping multiplication, the `usize` cast, bitwise and, and `calc_index`.
- `int_key.dfy` (module `IntKey`): the key types, `into_int` and the prime constants.
- `buckets.dfy` (module `Buckets`): the bucket array as a value, `seq<seq<(nat, V)>>`.
  - The representation invariant `Represents(cache, width, mask, contents)` says the array stores exactly the map `contents`, each key once, in the chain its key hashes to.
  - The chain operations the map uses, and lemmas saying what each does to that invariant.
- `lib.dfy` (module `IntMaps`): `class IntMap<V>` with the fields of the Rust struct (`cache`, `size`, `mod_mask`, `count`, `load_factor`) and a ghost field `Contents`.
  - `Valid()` ties the fields to `Contents`. Every method's contract is stated against `Contents`.
  - The loops of `reserve`, `ensure_load_rate`, `increase_cache`, `retain` and `collisions` are `while` or `for` loops with invariants.
- `entry.dfy` (module `Entries`): the entry API. An occupied entry holds the position of its pair, and a vacant entry holds the key.
- `iter.dfy` (module `Iters`): the iterators. `iter` is the chains concatenated in bucket order, and `keys` and `values` are its projections. `iter_mut` and `values_mut` overwrite values in place, `drain` empties the chains front to back, and `extend` and `from_iter` insert in order.

## Model

| member | source | states |
|---|---|---|
| Int.WrappingMul | src/int.rs:26 | `prime.wrapping_mul(self)` is the product reduced modulo 2^W, so it is below 2^W |
| Int.AsUsize | src/int.rs:28 | `hash as usize` keeps the low 64 bits: the result is below 2^64 and equals the input when it already fits |
| Int.CalcIndex | src/int.rs:25-29 | the bucket index is never above the mask |
| Int.CalcIndexInRange | src/int.rs:28 | with mask `2^n - 1` the index is below `2^n`, a valid position in an array of `2^n` chains |
| Int.CalcIndexMaskZero | src/int.rs:28 | with mask 0 every key goes to chain 0 |
| Int.CalcIndexLowBits | src/int.rs:26-28 | for `n` no wider than the key type and `usize`, the index with mask `2^n - 1` is `(prime * key) mod 2^n`: wrapping and cast keep the low bits |
| Int.BitAndLowMask | src/int.rs:28 | and-ing with `2^n - 1` is reduction modulo `2^n` |
| Int.BitAndAtMost | src/int.rs:28 | `a & b <= b` |
| Int.ModulusIsPow2 | src/int.rs:10-15 | each width's modulus is 2 to its bit count, and `usize` is 64 bits |
| IntKey.Prime | src/int_key.rs:73-83 | every width's prime lies strictly between 0 and 2^W and is odd |
| IntKey.PrimeValues | src/int_key.rs:73-77 | the constants `MAX - {4, 14, 4, 58, 158}` are 251, 65521, 4294967291, 2^64 − 59 and 2^128 − 159 |
| IntKey.SignedAsUnsigned | src/int_key.rs:98-100 | `x as uW` for a signed `x` keeps non-negative values and maps a negative `x` to `x + 2^W` |
| IntKey.FromBeBytes | src/int_key.rs:152-155 | the big-endian value of `n` octets is below 256^n |
| IntKey.BytePowers | src/int_key.rs:148-166 | 4 octets span exactly the `u32` range and 16 octets exactly the `u128` range |
| IntKey.IntoInt | src/int_key.rs:64-66 | `into_int` lands in the range of the key type's integer type |
| IntKey.FromBeBytesInjective | src/int_key.rs:152-166 | distinct octet sequences of equal length give distinct integers |
| IntKey.IntoIntInjective | src/int_key.rs:50-52 | two different valid keys of the same type never give the same integer |
| IntKey.SignedSharesPrime | src/int_key.rs:96 | a signed key hashes with its unsigned counterpart's prime |
| IntKey.DelegatingKeys | src/int_key.rs:117-121 | NonZero and `Wrapping` keys take `into_int` and `PRIME` from the wrapped key |
| IntKey.Ipv4Example | src/int_key.rs:152-155 | `192.168.0.1` canonicalises to `0xC0A80001` |
| Buckets.BucketOf | src/lib.rs:150 | a key's chain index never exceeds the mask |
| Buckets.FlattenAppend | src/iter.rs:30-33 | concatenating the chains distributes over splitting the array |
| Buckets.FlattenMember | src/iter.rs:30-33 | a pair is listed exactly when some chain holds it |
| Buckets.FlattenUpdate | src/lib.rs:481-485 | replacing one chain changes the number of listed pairs by the difference in that chain's length |
| Buckets.FlattenEmptyChains | src/lib.rs:320-326 | an array of empty chains lists nothing |
| Buckets.KeySetSize | src/lib.rs:487-505 | a chain whose keys are distinct has exactly as many distinct keys as pairs, so its length is the number of keys sharing that bucket |
| Buckets.EmptyRepresents | src/lib.rs:428 | freshly allocated empty chains represent the empty map |
| Buckets.UpdateChain | src/lib.rs:157-163 | replacing one chain by one that holds exactly the new map's keys for that bucket keeps the invariant for the new map |
| Buckets.FindKey | src/lib.rs:153 | `position(kv.0 == key)`: the first index holding the key, or none when no pair has it |
| Buckets.FindKeyAnswers | src/lib.rs:212-222 | in the key's own chain the search finds the pair exactly when the key is in the map, and finds the map's value |
| Buckets.SwapRemove | src/lib.rs:156 | `swap_remove(i)`: one shorter, the last pair moved into slot `i`, every other slot unchanged |
| Buckets.DropsDistinct | src/entry.rs:85 | removing a pair from a chain keeps its keys distinct |
| Buckets.RemoveFromChain | src/entry.rs:82-87 | removing the pair at a position removes exactly its key from the map and one pair from the array |
| Buckets.RemoveKeyFromChain | src/lib.rs:271-291 | swap-removing a key from its chain removes exactly that key, lowering the pair count by one when it was present |
| Buckets.UpsertIntoChain | src/lib.rs:147-166 | swap-remove then push represents `contents[key := value]`, adding one pair only for a new key |
| Buckets.UpsertReplace | src/lib.rs:153-155 | replacing a present key keeps the number of pairs |
| Buckets.UpsertFresh | src/lib.rs:190-193 | pushing an absent key represents the map with that key added, one pair more |
| Buckets.StoreInChain | src/entry.rs:77-79 | overwriting the value at a position represents the map with that key's value replaced, same number of pairs |
| Buckets.Filter | src/lib.rs:354-361 | `Vec::retain`: keeps exactly the pairs satisfying the predicate, never more pairs than before |
| Buckets.FilterKeysDistinct | src/lib.rs:354-361 | retaining keeps a chain's keys distinct |
| Buckets.FilterChain | src/lib.rs:354-364 | retaining one chain drops exactly that chain's failing keys from the map, and as many pairs as it removed |
| Buckets.FlattenKeysDistinct | src/iter.rs:30-33 | no key occurs twice in the concatenated chains |
| Buckets.ListingSize | src/lib.rs:481-485 | a duplicate-free listing of exactly a map's entries is as long as the map |
| Buckets.FlattenListsContents | src/iter.rs:29-43 | the concatenated chains list exactly the map's entries, each once, as many as the map holds |
| Buckets.FlattenBucketOrder | src/iter.rs:29-34 | items come in non-decreasing bucket order |
| Buckets.InsertAllKeys | src/iter.rs:222-229 | after inserting a sequence of pairs, the keys are the old ones plus every key mentioned |
| Buckets.InsertAllLast | src/iter.rs:222-229 | the value stored for a key is the last one the sequence gave it (a later duplicate wins) |
| Buckets.InsertAllUntouched | src/iter.rs:222-229 | a key the sequence never mentions keeps its value |
| Buckets.InsertAllListing | src/lib.rs:432-435 | inserting a duplicate-free listing of a map into an empty map rebuilds that map |
| Buckets.FlattenRebuilds | src/lib.rs:430-435 | re-inserting everything the old array lists gives back the same map |
| Buckets.RehashStep | src/lib.rs:432-435 | pushing the next listed pair onto its chain in the new array keeps the new array representing the pairs pushed so far |
| Buckets.CountNonEmpty | src/lib.rs:467-469 | the number of non-empty chains is at most the capacity and the number of pairs, and positive when any pair is stored |
| Buckets.Tally | src/lib.rs:492-499 | one more occurrence of a key: a missing counter starts at 1, an existing one goes up by 1, nothing else changes |
| Buckets.HistogramCounts | src/lib.rs:487-505 | the histogram has an entry for length `L` exactly when `L > 1` and some chain has length `L`, and then it is the number of such chains |
| Buckets.UniformChainsOfLength | src/lib.rs:487-505 | when every chain has length `L`, all chains are counted under `L` and none under another length |
| Buckets.UniformHistogram | src/lib.rs:487-505 | when every chain has the same length `L > 1`, the histogram is `{L: number of chains}` |
| IntMaps.LimNext | src/lib.rs:415-426 | one more doubling takes `lim()` from 0 to 2, and otherwise doubles it |
| IntMaps.ReserveSize | src/lib.rs:126-131 | `reserve` stops at the first size at or above the current one whose `lim()` covers what is needed |
| IntMaps.ReserveExamples | src/lib.rs:62-77 | `with_capacity(0)` allocates nothing, `with_capacity(8)` gives 8 chains, `with_capacity(20)` gives 32 |
| IntMaps.Overloaded | src/lib.rs:454 | a load above the factor implies the capacity is at most `count * 1000`, so the doubling loop terminates |
| IntMaps.LoadSize | src/lib.rs:447-457 | `ensure_load_rate` stops at the first size at or above the current one that is allocated and within the load factor |
| IntMaps.FewerPairsThanChains | src/lib.rs:454 | below a load factor of 1000, an array within the factor has more chains than pairs |
| IntMaps.KeepsChains | src/lib.rs:447-457 | on an allocated size, `ensure_load_rate` keeps the size exactly when the rounded-down load `count * 1000 / capacity` is within the factor |
| IntMaps.WithinFactor | src/lib.rs:454 | `count * 1000 <= load_factor * capacity` is a sufficient condition for the rounded-down load to be within the factor |
| IntMaps.IntMap.constructor | src/lib.rs:83-91 | `new_with()`/`default()`: empty, no array, size 0, mask 0, count 0, load factor 909 |
| IntMaps.IntMap.New | src/lib.rs:52-60 | `new()`: the same empty map with `u64` keys |
| IntMaps.IntMap.WithCapacity | src/lib.rs:74-78 | an empty map whose array `reserve(capacity)` grew to at least `capacity` chains, with size `ReserveSize(0, capacity)` |
| IntMaps.IntMap.Reserve | src/lib.rs:126-131 | afterwards capacity ≥ count + additional; size is `ReserveSize`; the map is unchanged |
| IntMaps.IntMap.IncreaseCache | src/lib.rs:423-444 | doubles the capacity (0 to 2), sets the mask to `lim() - 1`, keeps exactly the same pairs and count, and places every pair by the new mask |
| IntMaps.IntMap.EnsureLoadRate | src/lib.rs:447-457 | ends allocated, with `count * 1000 / capacity ≤ load_factor`, at size `LoadSize`, with the map unchanged |
| IntMaps.IntMap.SetLoadFactor | src/lib.rs:115-118 | stores the new factor and re-establishes it by `ensure_load_rate`, map unchanged |
| IntMaps.IntMap.Insert | src/lib.rs:147-166 | the map becomes `old[key := value]`; returns the old value if the key was present; count grows only for a new key; the load check runs before the pair is placed |
| IntMaps.IntMap.InsertIntoChain | src/lib.rs:149-165 | the swap-remove-and-push on an allocated array, with the same result and no change of capacity |
| IntMaps.IntMap.FewerPairsThanChainsIf | src/lib.rs:454 | a valid array within a load factor below 1000 has more chains than pairs |
| IntMaps.IntMap.InsertChecked | src/lib.rs:182-196 | inserts (count + 1, returns true) exactly when the key was absent; otherwise returns false and leaves the map unchanged |
| IntMaps.IntMap.IsEmpty | src/lib.rs:380-382 | true exactly when the map holds nothing |
| IntMaps.IntMap.Len | src/lib.rs:461-463 | `count` is the number of keys in the map |
| IntMaps.IntMap.Get | src/lib.rs:212-222 | `Some(value)` exactly for a stored key, `None` otherwise, including on an unallocated map |
| IntMaps.IntMap.GetMut | src/lib.rs:243-255 | a slot exactly for a stored key, and that slot holds the key's pair |
| IntMaps.IntMap.ContainsKey | src/lib.rs:304-306 | true exactly when the key is stored |
| IntMaps.IntMap.At | src/entry.rs:58-61 | reading through a slot gives the map's value for the slot's key |
| IntMaps.IntMap.Store | src/entry.rs:77-79 | writing through a slot replaces only that key's value; keys, count and capacity are unchanged |
| IntMaps.IntMap.Remove | src/lib.rs:271-291 | returns the value of a present key and removes it, count − 1; on an absent key or an unallocated map returns `None` and changes nothing |
| IntMaps.IntMap.RemoveInChain | src/lib.rs:276-290 | the index loop over the chain with `swap_remove`, same result on an allocated array |
| IntMaps.IntMap.Clear | src/lib.rs:320-326 | empties the map, count 0, capacity and mask unchanged |
| IntMaps.IntMap.Retain | src/lib.rs:349-365 | keeps exactly the pairs the predicate accepts, with capacity unchanged and count consistent |
| IntMaps.IntMap.Capacity | src/lib.rs:477-479 | 0 exactly before the first allocation, otherwise `2^size ≥ 2`, and every key's bucket index is within it |
| IntMaps.IntMap.Load | src/lib.rs:467-469 | the number of non-empty chains is at most the capacity and the number of pairs, and positive for a non-empty map |
| IntMaps.IntMap.AssertCount | src/lib.rs:481-485 | `count` always equals the number of pairs in the chains |
| IntMaps.IntMap.Collisions | src/lib.rs:487-505 | returns a `u64`-keyed map equal to the histogram of chain lengths above one |
| IntMaps.Rehash | src/lib.rs:428-435 | pushing each pair of a duplicate-free listing onto its chain in `lim` new chains gives an array of `lim` chains representing exactly those pairs |
| IntMaps.ReplaceOrPush | src/lib.rs:151-163 | the chain becomes `Upsert(chain, key, value)`, and the old value is returned exactly when the key was found |
| IntMaps.SwapRemoveKey | src/lib.rs:280-290 | the chain loses the key's pair by `swap_remove`, and its value is returned, or nothing when it is absent |
| IntMaps.RetainChains | src/lib.rs:353-364 | the filtered array represents exactly the kept pairs, and `removed` counts the dropped ones |
| IntMaps.CountUp | src/lib.rs:491-499 | one counter goes up: inserted as 1 when absent, incremented through `get_mut` when present |
| IntMaps.StartCount | src/lib.rs:492-494 | an absent counter starts at 1 |
| IntMaps.Increment | src/lib.rs:495-497 | a present counter goes up by 1 in place |
| IntMaps.Locate | src/lib.rs:243-255 | for a stored key, a slot holding it and its current value |
| IntMaps.KeptStep | src/lib.rs:353-361 | retaining chain `i` extends the kept map by that chain's verdicts |
| IntMaps.KeptAll | src/lib.rs:349-365 | after every chain, exactly the accepted pairs remain |
| IntMaps.Eq | src/lib.rs:548-551 | two maps are equal exactly when they hold the same pairs, independent of insertion order; symmetric |
| IntMaps.AllFoundIn | src/lib.rs:549-550 | every pair of one map is found by `get` in the other exactly when its entries are contained in the other's |
| IntMaps.ListedAllFound | src/lib.rs:549 | checking the listed pairs one by one is checking containment of the map |
| IntMaps.RoomyInserts | src/lib.rs:62-77 | after `with_capacity(20)` and twelve inserts at the default factor, capacity is still 32 with 12 pairs |
| IntMaps.InsertSequential | src/lib.rs:147-166 | inserting keys `0..n-1` where the load never exceeds the factor stores exactly those keys without rebuilding the array |
| IntMaps.DenseCollisions | src/lib.rs:487-505 | with load factor 2.0 and 8 chains, 16 sequential `u64` keys give the histogram `{2: 8}` |
| IntMaps.EightChainBucket | src/int.rs:25-29 | with 8 chains, `u64` key `k` lands in chain `5k mod 8`, since the `u64` prime is 5 modulo 8 |
| IntMaps.SixteenKeysInPairs | src/lib.rs:487-505 | keys 0 to 15 in 8 chains leave every chain with exactly two pairs |
| IntMaps.ChainOfPair | src/int.rs:25-29 | chain `b` holds exactly keys `5b mod 8` and `5b mod 8 + 8` |
| Entries.IndicesAsWritten | src/entry.rs:34-43 | `indices` as written fails exactly when no array is allocated, and otherwise agrees with `Indices` |
| Entries.UnallocatedEntryPanics | src/entry.rs:35-37 | on a map that has not allocated (as `new()` leaves it) `indices` indexes an empty array |
| Entries.Indices | src/entry.rs:34-43 | a position exactly when the key is stored, and that position holds the key's pair |
| Entries.EntryOf | src/entry.rs:18-32 | `Occupied` exactly when the key is stored, at its pair's position; `Vacant` otherwise |
| Entries.OccupiedGet | src/entry.rs:58-74 | `get`/`get_mut`/`into_mut` reach the value stored for the entry's key |
| Entries.OccupiedInsert | src/entry.rs:77-79 | replaces the value in place and returns the old one; keys, count and capacity unchanged |
| Entries.OccupiedRemove | src/entry.rs:82-87 | returns the value, swap-removes the pair from its chain, count − 1 |
| Entries.VacantInsert | src/entry.rs:98-101 | count + 1, and the returned slot, looked up again after any rebuild, holds the key and the new value |
| Entries.TalliesCount | src/lib.rs:514-529 | counting a sequence yields, for each number in it, its number of occurrences, and no other key |
| Entries.TalliesSnoc | src/lib.rs:516-522 | counting one more number tallies it on top of the earlier counts |
| Entries.CountOne | src/lib.rs:516-522 | one pass of the counting loop tallies the number |
| Entries.AddOneToCounter | src/lib.rs:521 | `*counter += 1` after the match tallies the number |
| Entries.CounterFor | src/lib.rs:517-520 | the match yields a slot for the number, inserting 0 when vacant |
| Entries.CountWithEntries | src/lib.rs:514-529 | counting through entries from a fresh map gives the tallies of the sequence |
| Entries.CountingExample | src/lib.rs:514-529 | counting `[10,30,10,40,50,50,60,50]` gives `{10:2, 30:1, 40:1, 50:3, 60:1}`, with 20 absent |
| Entries.ExampleTallies | src/lib.rs:514-529 | those tallies, built one number at a time |
| Entries.ReinsertThroughEntry | src/entry.rs:98-101 | insert 65 → "foo", remove it, insert "bar" through the vacant entry: the map is exactly `{65: "bar"}` |
| Iters.Iter | src/iter.rs:29-43 | `iter()`/`into_iter()` yield each stored pair exactly once and nothing else, so `len()` items with distinct keys |
| Iters.ListingIndexed | src/iter.rs:37-43 | a listing of the map, read position by position, gives the map's value for each item's key and contains every entry |
| Iters.IterInBucketOrder | src/iter.rs:29-34 | items come chain by chain, so bucket indices never decrease |
| Iters.Keys | src/iter.rs:90-101 | `keys()` lists every stored key exactly once, `len()` of them |
| Iters.KeysListed | src/iter.rs:94-96 | the first components of a listing of the map are exactly its keys |
| Iters.Values | src/iter.rs:112-123 | `values()` has as many items as `keys()`, and item `i` is the value stored for key `i` |
| Iters.MapChains | src/iter.rs:64-78 | overwriting every value keeps the array's shape, each chain as long as before |
| Iters.MapChainsRepresents | src/iter.rs:72-78 | overwriting the values in place keeps every pair in its chain, so the array represents the mapped map with as many pairs |
| Iters.MapChainsPlaced | src/iter.rs:72-78 | keys and their chains are unchanged |
| Iters.MapChainsSound | src/iter.rs:72-78 | every stored pair carries the mapped value |
| Iters.MapChainsComplete | src/iter.rs:72-78 | every mapped entry is stored in its key's chain |
| Iters.FlattenSameShape | src/iter.rs:72-78 | arrays of equally long chains list equally many pairs |
| Iters.UpdateValues | src/iter.rs:72-78 | `iter_mut` writing `f(k, v)` through every item: the array is `MapChains` of the old one, the map is the mapped map, count and capacity unchanged |
| Iters.UpdateValuesOnly | src/iter.rs:134-146 | `values_mut` writing `g(v)`: only the values change |
| Iters.OverwriteChains | src/iter.rs:64-78 | the nested loop over chains and pairs computes `MapChains` |
| Iters.FlattenFromFirst | src/iter.rs:199-203 | with the chains before `i` empty, the listing starts with chain `i` |
| Iters.FlattenFront | src/iter.rs:30-33 | the listing is the first chain followed by the rest |
| Iters.FlattenNothing | src/iter.rs:199-203 | an array that lists nothing has only empty chains |
| Iters.FirstNonEmpty | src/iter.rs:202 | finds the first non-empty chain, or reports that all are empty |
| Iters.DrainNext | src/iter.rs:207-218 | yields nothing exactly when nothing is left; otherwise yields the front of `iter()`, removes it from its chain and the map, count − 1, capacity unchanged |
| Iters.FlattenDropsFront | src/iter.rs:199-203 | dropping the first pair of the first non-empty chain drops the first listed pair |
| Iters.TakeFront | src/iter.rs:211-216 | takes the front pair of the first non-empty chain, removing its key, count − 1 |
| Iters.DrainAll | src/iter.rs:198-218 | fully drained: yields exactly `iter()` in order, every chain empty, count 0, capacity unchanged |
| Iters.Extend | src/iter.rs:222-229 | `extend` leaves the map `InsertAll(old, pairs)`: inserting each pair in order, a later duplicate winning |
| Iters.FromIter | src/iter.rs:233-245 | `with_capacity(lower_bound)` then the inserts in order: the map is `InsertAll(empty, pairs)` at the default load factor |

## Left out

- The `f32`/`f64` load-factor conversions (`set_load_factor`'s `* 1000. as usize`, `get_load_factor`, `load_rate`): floating point. `IntMap.SetLoadFactor` takes the factor already in parts per thousand.
- `Debug` formatting, the derived `Clone`, the serde adapter, and `highest_prime.rs`, which is not a module of the crate.
- That the 64- and 128-bit constants are prime is not proved. Only their values and oddness are.
- Keys in the map are `nat`s, the canonical integers. `IntKey.IntoInt` proves they lie below 2^W, and `Int.CalcIndex` reduces the product modulo 2^W, so nothing else depends on the width.
- Only 64-bit targets are modelled: `usize` is 64 bits, and `usize`/`isize` keys use the `u64` prime. The 16- and 32-bit `cfg` variants are left out.
- `count * 1000` and `2u64.pow(size)` are not checked for `usize` overflow. Integers are unbounded, and the model does not reach those sizes.
- IntMaps.IntMap.Retain: the predicate is a pure function `(nat, V) -> bool`. An `FnMut` closure with side effects of its own is not modelled.
- Lifetimes and borrows of entries and iterators. Entries and iterators are operations on the map object: a `&mut V` is a `Slot` (chain index, position), read by `At` and written by `Store`.
- Iters.Iter: `into_iter()` consumes the map. It is modelled by `Iter`, since both yield the same pairs in the same order.
- `Drain` dropped before it is exhausted: the program defines no count adjustment for what remains, so only single steps and full draining are modelled.
- Iters.DrainNext: `Vec::drain(..)` truncates a chain up front and then hands out its pairs. The model removes the pairs one at a time, in the same order and with the same count.
- Iters.FromIter: the iterator's `size_hint` lower bound is a free parameter, not derived from the pairs.
- The benchmarks and the test drivers. They serve only as evidence for the properties above.
- The counting doc test at src/lib.rs:524 asserts `Some(&2)` for 10, and `Entries.CountingExample` proves the same.
- The load factor is checked before a pair is placed, not after, as the code does it. So `count * 1000 / capacity ≤ load_factor` holds at the start of each insert, not at its end.

## Findings

| source | as written | input that shows it | evidently intended | confidence | as-written member | corrected member |
|---|---|---|---|---|---|---|
| src/entry.rs:34-43 | `indices` indexes `cache[calc_index(key)]` with no emptiness check, while `new()` leaves `cache` empty | `IntMap::new().entry(10)`, as the counting doc test at src/lib.rs:514-529 does, indexes an empty vector | treat an unallocated map as "not found" (`Vacant`), as `get`, `get_mut` and `remove` do | not executed; `entry.rs` calls `int_map.calc_index(key)`, which this `lib.rs` does not define, so the two files come from different versions of the crate | Entries.IndicesAsWritten, Entries.UnallocatedEntryPanics | Entries.Indices, Entries.EntryOf |
