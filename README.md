# Two hash maps and find_mode, in Dafny

This project models the two hash tables of the HashMap assignment
repository and proves what they do.

- **Open addressing (`hash_map_oa.py`).** A fixed-length array of slots.
  Each slot is empty or holds an entry with a tombstone flag. Collisions
  are resolved by quadratic probing, `(home + j*j) % capacity`. Removal
  sets the tombstone flag. `put` doubles the capacity first when the load
  is at least one half. `resize_table` re-puts every live entry into a new
  table.
- **Separate chaining (`hash_map_sc.py`).** An array of chains. Key `k`
  lives in chain `hash(k) % capacity`. There is no automatic growth.
  `resize_table` re-puts every node into a table of the new capacity.
- **`find_mode`.** A free function beside the chaining table. It counts a
  sequence of strings in one chaining table. It then collects the most
  frequent values, using a second table to avoid listing a value twice.

Files:

- `common.dfy`: the `Option` type.
- `probing.dfy` (module `Probing`): the slot array as a value. It holds
  the walks that `get`, `contains_key`, `remove` and `put` make along the
  probe sequence, written as functions, and the lemmas about them.
- `quirks.dfy` (module `ProbeQuirks`): concrete runs that show where the
  open-addressing code departs from a map.
- `hash_map_oa.dfy` (module `OpenAddressing`): the open-addressing
  `HashMap` class. It has the source's fields, and its methods run the
  source's loops in place on an `array`. Each method is proved against the
  functions of `Probing`.
- `chains.dfy` (module `Chains`): a chain as a sequence of key/value
  nodes, head first, with the chain operations the table calls. It also
  relates the bucket array to the map of its concatenated chains.
- `frequency.dfy` (module `Frequency`): what `find_mode` computes, stated
  without hash maps. That is, each value's count, the largest count, and
  the values reaching it in order of first occurrence.
- `hash_map_sc.dfy` (module `SeparateChaining`): the chaining `HashMap`
  class, proved against the map it stands for (`Contents()`), and the
  `find_mode` method.

The open-addressing table is modelled as the code is written, not as its
comments intend. The points where it departs from a map are:

- `put` tests the tombstone flag of the home slot rather than the probed
  slot. A home-slot tombstone of a different key is overwritten without
  counting the entry and without looking further down the path.
  Tombstones elsewhere are never reused.
- A tombstoned match off the home slot gets the new value but stays
  tombstoned.
- `get` walks past a tombstoned match, while `contains_key` stops at it
  and returns false.
- Every probe loop is unbounded.

Because `(home + j*j) % capacity` repeats with period `capacity`, a loop
that has not stopped within `capacity` probes never stops. The model walks
that far and reports the endless case as `Loops`, or as `loops == true`
for the methods. For the walks themselves, and for `Store` (put's walk
on the current table), lemmas prove that this happens exactly when the
source's loop would run forever. When `put` first resizes, or when
`resize_table` re-puts its entries, `loops` comes with a ghost witness: the
slot array and the key of the nested put whose walk, as `PutDiverges`
states, never meets an empty slot or the key.

The open-addressing loops can really run forever. A table of 8 slots that
holds three keys homed at slot 0 fills slots 0, 1 and 4. Its load of 3/8 is
below one half, yet a fourth key homed at 0 then never meets an empty
slot.

The open-addressing `size` can also fall below zero. Both effects are
exhibited in `ProbeQuirks`, where every put is also shown to see a load
below one half, so that none of them resizes first.

Measured against the map the table is meant to implement, the code
behaves as follows, and the model follows the code:

- A tombstoned match does not stop `get`'s walk; `get` walks on and may
  return the value of a later live slot for the key
  (hash_map_oa.py:176-182).
- `put` reuses a tombstone only on the home slot, since its test reads the
  home slot rather than the probed one (hash_map_oa.py:89-92). `size` is
  not incremented for that reuse, so put "a", remove "a", put "b" ends
  with size 0 while "b" is live.
- The code keeps `size <= capacity`: every reachable state has `size` at
  most the live slots, and the live slots are at most the capacity. What
  the tombstone reuse breaks is `size` equalling the number of live slots,
  and `size >= 0`: a second remove after the reuse above drives `size` to
  -1 (hash_map_oa.py:88-92, 238-239).
- The separate-chaining table calls `insert` on its chain
  (hash_map_sc.py:68-70). The chain helper is not part of this model;
  insertion at the head is assumed, which only changes the order of
  `get_keys`.

## Model

| member | source | states |
|---|---|---|
| OpenAddressing.HashMap.constructor | hash_map_oa.py:14-26 | `capacity` empty slots, size 0; the table is clean and stands for the empty map |
| OpenAddressing.HashMap.TableLoad | hash_map_oa.py:106-112 | the load times the capacity is the size, and the load is at least 1/2 exactly when `2 * size >= capacity` |
| OpenAddressing.LoadHalf | hash_map_oa.py:63-66 | the real-valued test `size / capacity >= 0.5` is the integer test `2 * size >= capacity` |
| OpenAddressing.HashMap.Put | hash_map_oa.py:54-104 | below the load trigger the array and capacity are kept and the key is stored where `Insert` says; at or above it, the table is first rehashed into at least twice the capacity with the same map and no tombstone; `size` grows by what `Insert` counts; on a clean, exactly counted table the map becomes `old map[key := value]`; `loops` only with a witness table and key whose probe walk never ends: the old table and `key` itself when no resize happens, a clean rehashed table of at least twice the capacity and a stored key otherwise |
| OpenAddressing.HashMap.Store | hash_map_oa.py:68-104 | the probe walk of put, in place: the new slots are `Insert`'s, `size` grows by the count `Insert` reports, and nothing changes when it loops |
| OpenAddressing.HashMap.PutFacts | hash_map_oa.py:68-104 | `size` never overcounts the live slots, and on a clean, exactly counted table put keeps it clean and exact and updates the map at `key` |
| OpenAddressing.HashMap.ResizeTable | hash_map_oa.py:129-157 | a new capacity below 1 or below `size` changes nothing; otherwise, unless a re-put loops, the new array is fresh, its capacity is at least the new capacity, it is clean, `size` counts its live slots and the map is unchanged; `loops` only with a clean table of at least the new capacity and a stored key whose re-put walk never ends |
| OpenAddressing.HashMap.Rehashed | hash_map_oa.py:143-153 | re-putting every live slot, in slot order, into a fresh table of the new capacity: unless a re-put loops, the temporary table is clean, its size counts its live slots, its capacity is at least the new one and its map is the old map; `loops` only with a clean table and a stored key whose walk never ends |
| OpenAddressing.HashMap.Get | hash_map_oa.py:159-182 | the result is `Lookup`'s: the value of the first live slot for the key on the probe path, `None` at an empty home or empty probed slot, `loops` when the walk never stops |
| OpenAddressing.HashMap.ContainsKey | hash_map_oa.py:184-215 | the result is `Contains`'s: false when `size < 1` or the home slot is empty, otherwise whether the first slot carrying the key is live |
| OpenAddressing.HashMap.Remove | hash_map_oa.py:217-242 | a live first match is tombstoned and `size` and the live count drop by one; an absent key or tombstoned first match changes nothing; on a clean table the key leaves the map |
| OpenAddressing.HashMap.Clear | hash_map_oa.py:244-252 | size 0, same capacity, every slot empty, the empty map |
| OpenAddressing.HashMap.EmptyBuckets | hash_map_oa.py:114-127 | the count of empty or tombstoned slots is the capacity minus the live slots |
| OpenAddressing.HashMap.GetKeys | hash_map_oa.py:254-267 | the keys of the live slots in slot order, as many as the live slots (so with EmptyBuckets they add up to the capacity), and exactly the keys of the map |
| OpenAddressing.EmptyTable | hash_map_oa.py:20-22 | an array of empty slots is clean, has no live slot and stands for the empty map |
| Probing.ProbePeriodic | hash_map_oa.py:100 | the probe index `(home + j*j) % cap` repeats with period `cap` |
| Probing.ProbeWraps | hash_map_oa.py:182 | every probe index is one of the first `cap` ones |
| Probing.FirstStopIsFirst | hash_map_oa.py:176-182 | the bounded walk returns exactly the first probe that stops, and nothing exactly when none of the first `cap` probes stops |
| Probing.NoStopMeansLoops | hash_map_oa.py:205-213 | the bounded walk finds no stop exactly when no probe index, however large, stops the walk |
| Probing.FirstStopAgree | hash_map_oa.py:235-242 | changing slots the walk does not decide on leaves its stop in place |
| Probing.FirstStopNoTombs | hash_map_oa.py:176-182 | without tombstones, the walks of get and contains_key stop at the same probe |
| Probing.InsertAccounting | hash_map_oa.py:68-104 | put's size increment is at most its increase of live slots, which is at most one |
| Probing.InsertLoops | hash_map_oa.py:84-101 | put's walk reports `Loops` exactly when `PutDiverges`: the home slot is live with another key and no probe, however far, meets an empty slot or the key |
| Probing.LookupLoops | hash_map_oa.py:168-182 | get never returns exactly when the home slot is occupied and no probe meets an empty slot or a live entry for the key |
| Probing.ContainsThenLookup | hash_map_oa.py:205-210 | when contains_key answers true, get returns the value of the same slot |
| Probing.CleanUnique | hash_map_oa.py:144-157 | a table built by puts alone has no tombstone and no key with two live slots |
| Probing.CleanStop | hash_map_oa.py:159-182 | in such a table every stored key's walk stops at its slot |
| Probing.InsertAtStop | hash_map_oa.py:84-104 | in a clean table put stores the key where its walk stops, counting it exactly when that slot was empty |
| Probing.OtherKeyStays | hash_map_oa.py:103 | storing a key where its walk stops leaves every other stored key's walk unchanged |
| Probing.CleanSet | hash_map_oa.py:103 | storing a key where its walk stops keeps the table clean |
| Probing.InsertClean | hash_map_oa.py:144-152 | put into a clean table keeps it clean, updates the map at the key, and counts one exactly when the key was new |
| Probing.CleanLookup | hash_map_oa.py:159-215 | in a clean, exactly counted table get and contains_key agree with the map for stored keys and never report an absent key present |
| Probing.RemovalTombstones | hash_map_oa.py:235-239 | remove tombstones a live slot carrying the key, one live slot fewer; with no key twice live, the key leaves the map |
| Probing.CleanRemoval | hash_map_oa.py:217-242 | in a clean table remove finds a slot to tombstone exactly for the stored keys |
| Probing.InsertThenLookup | hash_map_oa.py:54-104 | after put into a clean table, get returns the new value and contains_key answers true |
| Probing.RemoveThenAbsent | hash_map_oa.py:217-242 | after remove in a clean table, contains_key answers false and get finds no value |
| Probing.LiveCountUpdate | hash_map_oa.py:238-239 | writing one slot changes the live count by what that slot loses and gains |
| Probing.LiveKeysCount | hash_map_oa.py:254-267 | the live keys are as many as the live slots and are exactly the map's keys |
| Probing.MappingKeys | hash_map_oa.py:264-265 | the map's keys are exactly the keys of live slots |
| Probing.MappingPrefixKeys | hash_map_oa.py:147-151 | a key in the map of the slots re-put so far is in the map of the whole old table |
| Probing.MappingValue | hash_map_oa.py:177-179 | a key with one live slot maps to that slot's value |
| Probing.MappingSet | hash_map_oa.py:73 | storing a key live where no other slot holds it live updates the map at the key |
| Probing.MappingTomb | hash_map_oa.py:238 | tombstoning the only live slot of a key removes the key from the map |
| ProbeQuirks.GetAndContainsDisagree | hash_map_oa.py:89-92 | after put b, put a, remove b, put a, remove a (all homed at 0, each put at a load below one half): get still returns a value for a, contains_key says false, and size is below the live count |
| ProbeQuirks.SizeGoesNegative | hash_map_oa.py:88-92 | after put a, remove a, put b, remove b (both homed at 0, each put at a load below one half) size is -1 |
| ProbeQuirks.PutLoopsBelowHalfLoad | hash_map_oa.py:89-101 | three keys homed at 0 in 8 slots, each put at a load below one half, leave a clean table at load 3/8, and a fourth such key makes put probe forever |
| SeparateChaining.HashMap.constructor | hash_map_sc.py:14-26 | `capacity` empty chains, size 0, the empty map |
| SeparateChaining.HashMap.Put | hash_map_sc.py:54-75 | only the key's home chain changes, by head insertion when the key is absent and by updating its node otherwise; capacity unchanged; the map becomes `old map[key := value]`; size grows by one exactly when the key was absent |
| SeparateChaining.HashMap.Get | hash_map_sc.py:135-149 | the map's value for the key, or `None` when the key is absent |
| SeparateChaining.HashMap.ContainsKey | hash_map_sc.py:151-164 | true exactly when the key is in the map |
| SeparateChaining.HashMap.Remove | hash_map_sc.py:166-179 | only the home chain changes, to the chain remove leaves; an absent key leaves every chain as it was; the key leaves the map; size drops by one exactly when the key was present |
| SeparateChaining.HashMap.Clear | hash_map_sc.py:100-108 | size 0, same capacity, every chain empty, the empty map |
| SeparateChaining.HashMap.EmptyBuckets | hash_map_sc.py:77-90 | the number of empty chains, at most the capacity, with the rest at most the size, and equal to the capacity exactly when the map is empty |
| SeparateChaining.HashMap.TableLoad | hash_map_sc.py:92-98 | the load times the capacity is the size, and the load is 0 exactly when the map is empty |
| SeparateChaining.HashMap.ResizeTable | hash_map_sc.py:110-133 | a new capacity below 1 changes nothing; otherwise the capacity becomes the new one over a fresh array, and the map and size are unchanged, also when the new capacity is below the size |
| SeparateChaining.HashMap.Rehashed | hash_map_sc.py:121-128 | putting every node, chain by chain and head first, into a new table of the new capacity gives a table with the same map and the same size |
| SeparateChaining.HashMap.PutNodes | hash_map_sc.py:127-128 | putting the nodes of one chain in order turns the table's map into the map after those puts, one more entry per node when every node brings a new key |
| SeparateChaining.HashMap.GetKeys | hash_map_sc.py:181-195 | the keys of the chains in bucket order, head first; as many as the size, each once, and exactly the keys of the map |
| SeparateChaining.FindMode | hash_map_sc.py:198-237 | the frequency returned is the largest count of any value, and the values are the modes in order of first occurrence |
| SeparateChaining.CountValues | hash_map_sc.py:205-215 | the first loop of find_mode leaves a table mapping each value of the input to its count |
| SeparateChaining.ListModes | hash_map_sc.py:217-237 | the second loop of find_mode, over that table, returns the largest count and the modes |
| SeparateChaining.EmptyCountBounds | hash_map_sc.py:86-88 | the number of empty chains is at most the number of chains, at least the chains minus the nodes, and all chains are empty exactly when there are no nodes |
| Chains.ToMapKeys | hash_map_sc.py:144 | a chain's map has exactly the chain's keys |
| Chains.FindToMap | hash_map_sc.py:144-149 | contains finds a key exactly when the chain's map has it, and returns its value there |
| Chains.UpdateToMap | hash_map_sc.py:74-75 | assigning the value of the found node keeps the keys and updates the chain's map at the key |
| Chains.RemoveFirstToMap | hash_map_sc.py:175-179 | remove reports success exactly when the key is present; the chain is one node shorter then, and the key leaves its map |
| Chains.PrependHomed | hash_map_sc.py:68-70 | inserting an absent key homed at the chain's bucket keeps the chain homed and without repeated keys |
| Chains.ReplaceChain | hash_map_sc.py:63-75 | writing a chain back into the key's home bucket keeps every key in its home chain and changes the whole map only at that key |
| Chains.FlatAt | hash_map_sc.py:142-144 | the whole table's map at a key is the map of the key's home chain |
| Chains.FlatHomed | hash_map_sc.py:63-69 | when every chain holds only keys homed there, without repeats, no key occurs twice in the whole table |
| Chains.PutAllToMap | hash_map_sc.py:125-128 | putting the nodes of a sequence without repeated keys into an empty map builds the sequence's map |
| Chains.ChainStep | hash_map_sc.py:125-128 | re-putting chain by chain, each node brings a key not put before, since earlier chains hold keys homed below the current bucket |
| Frequency.CountsMeaning | hash_map_sc.py:209-215 | the counting map has exactly the values of the input, each mapped to its number of occurrences |
| Frequency.DistinctMeaning | hash_map_sc.py:231-235 | the distinct values are the input's values, each once |
| Frequency.DistinctOrder | hash_map_sc.py:223-235 | the distinct values are listed in order of first occurrence |
| Frequency.MaxCountMeaning | hash_map_sc.py:223-227 | no value occurs more often than the largest count; a nonempty input has a value that often; the count is 0 exactly for the empty input |
| Frequency.WithCountMeaning | hash_map_sc.py:232-235 | the values kept are exactly those counted the given number of times, none twice when the input repeats none |
| Frequency.WithCountPositions | hash_map_sc.py:221-235 | the values kept form an order-preserving subsequence: kept values at positions a < b stand in the input at positions i < j |
| Frequency.ModesMeaning | hash_map_sc.py:217-237 | the modes are exactly the values occurring the largest number of times, each once |
| Frequency.ModesOrder | hash_map_sc.py:221-235 | the modes are values of the input, listed in strictly increasing order of their first occurrences |
| Frequency.TallyAbove | hash_map_sc.py:224-228 | a value counted more often than the largest count so far restarts the list with itself and keeps the loop invariant |
| Frequency.TallyLevel | hash_map_sc.py:232-235 | a value counted as often as the largest count so far is appended exactly when not yet marked, keeping the loop invariant |
| Frequency.TallyBelow | hash_map_sc.py:221-235 | a value counted less often changes nothing and keeps the loop invariant |
| Frequency.FruitExample | hash_map_sc.py:426-429 | on apple, apple, grape, melon, melon, peach, the modes are apple and melon, with frequency 2 |

## Left out

- `__str__`, `get_size`, `get_capacity` and the demonstration blocks of both files are left out. They only print or return a field.
- The helper module `a6_include` is not part of this model.
  - `DynamicArray` is modelled as a Dafny `array`, or a `seq` where the code only appends.
  - `HashEntry` is modelled as the `Slot` datatype.
  - `LinkedList` is modelled as a sequence of nodes. Its `insert` is taken to insert at the head, which fixes the order of `get_keys`.
  - The hash functions are modelled as a `string -> nat` parameter of each table. `find_mode` takes it as a parameter instead of naming `hash_function_1`; its result does not depend on it.
- Floating-point `table_load` is modelled as an exact `real` quotient. Rounding is not modelled, and the load test is stated in integers.
- Operations that compute `% capacity` require `capacity >= 1`, because the source then divides by zero. The constructors accept capacity 0, as the source does. A negative capacity is not modelled: capacities are `nat`.
- FindMode: inputs of length 1 or 2 are excluded by its precondition. There the source builds a table of capacity `1 // 3 == 0` or `2 // 3 == 0`, and its first call, `contains_key` (hash_map_sc.py:210), divides by zero computing the home bucket (hash_map_sc.py:158).
- OpenAddressing.HashMap.Put: after a resize that would loop, the witness gives the table and key of the nested put that diverges, but not which slot of the old table it came from.
- OpenAddressing.HashMap.ResizeTable: the slot layout of the new table is not stated. Only the map, the absence of tombstones, the size and the capacity bound are.
- The open-addressing probe loops are modelled by walks of at most `capacity` probes, with the endless case reported as `Loops` or `loops`. For a single walk, lemmas show this matches the unbounded loop exactly; for put and resize_table, `loops` is backed by a witness walk that never ends, and the converse, that every endless run is reported, is stated only for put's walk on the current table. Nothing about probe lengths or running time is modelled.
- OpenAddressing.HashMap.Put: the map is stated only for a clean, exactly counted table. On other tables a quirk can leave a key twice live, and the contract gives only the new slots.
- SeparateChaining.HashMap.ResizeTable: the layout of the new chains is not stated. Only the map, the size and the capacity are.
- put assigns the value of a found node in place (hash_map_sc.py:74-75). The model states this as replacing the home chain by the chain with that node's value updated; node identity is not modelled.
