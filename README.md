# hash_table in Dafny

This project models the generic hash table of the Rust crate `hash_table` and the
premade hash functions it ships for text and unsigned integers.

`HashTable<T>` has three parts:

- a vector of optional slots;
- a capacity;
- a flag that says whether the table may grow.

A value's home slot is its hash modulo the capacity. `insert` puts the value in
the first empty slot at or after the home slot, and the slot after the last one
is slot 0. When the table is full, `insert` either reports "capacity reached" or
doubles the capacity and re-inserts the old occupants in slot order. `get` and
`remove` stop at once when the home slot is empty. Otherwise they check the home
slot and then every other slot once, in wrap-around order, and skip empty slots.
`remove` deletes the matching slot from the vector, so the later slots move down
by one.

Files:

- `probing.dfy` (module `Probing`) describes the slot sequence as a value. It
  defines:
  - the stored elements as a multiset;
  - the number of taken slots;
  - where an insertion lands (`Place`);
  - the slot sequence that growth builds (`Refill`);
  - the slot at which a probe for a value stops (`ProbeHit`, `HitAfter`).

  It proves the facts the table relies on. One example: on a slot sequence of
  full length that is not full, a probe always reaches an empty slot. That is
  the reason the probing recursion of `insert` ends.
- `tables.dfy` (module `Tables`) holds the class `HashTable`. Its fields are
  `capacity`, `growable` and `cells`. The element type's hash is a function
  fixed at construction. `insert`, `grow_cells`, `insert_next_index`, `remove`,
  `remove_next` and `insert_vector` are methods that update the fields. Each is
  proved against the functions of `Probing`. `get`, `get_next`, `get_index`,
  `size`, `is_empty` and `calculate_next_index_for_reccursion` only read the
  state, so they are functions.
- `type_hashes.dfy` (module `TypeHashes`) holds the premade hashes. An unsigned
  integer hashes to its own value. Text hashes to the sum of its code points,
  computed by the loop of `hash_string_like_types` and proved equal to the
  recursive sum `CodePointSum`.
- `scenarios.dfy` (module `Scenarios`) states the crate's unit tests as client
  methods, plus the inputs behind the two findings below.

A panic of the Rust code is a precondition of the member that would panic. Such
a panic is an `.expect` on a slot read past the end of the vector, or a `% 0`.
The precondition is exactly the condition under which the code does not panic:

- `InsertInRange` covers `insert`.
- `ProbeInRange` covers `get` and `remove`.

On a vector of full length both reduce to a capacity above zero. The one
error the code returns, `Err("Capacity reached")`, is the value `Err(CapacityReached)`.

Two behaviours of the code matter for what follows:

- `is_empty` compares the number of empty slots with the capacity
  (src/lib.rs:59-62). After a removal has shortened the slot vector it is
  false even at size 0; this is the second finding below.
- `insert_vector` panics on a failed insert (src/lib.rs:142-143) and otherwise
  returns `Ok`, so it never returns the capacity error.

## Model

| member | source | states |
|---|---|---|
| Tables.HashFunction | src/lib.rs:10-16 | the home slot is below the table size and is the Euclidean remainder of the hash; a hash already below the size is its own home slot |
| Tables.HashTable.constructor | src/lib.rs:51-57 | exactly `capacity` slots, all empty, with the given capacity and growability; size is 0 and the table is empty |
| Tables.HashTable.IsEmpty | src/lib.rs:59-62 | true exactly when the slot sequence still has full length and no slot is taken |
| Tables.HashTable.Size | src/lib.rs:118-120 | the number of taken slots equals the number of stored elements, counted with multiplicity, and is at most the number of slots |
| Tables.HashTable.GetIndex | src/lib.rs:89-98 | some value exactly when slot `index` is taken, and then it is the value that slot holds, one of the stored elements |
| Tables.HashTable.NextIndex | src/lib.rs:233-240 | the slot after `prev` is `(prev + 1) mod capacity`, so it stays below the capacity; below the last slot it is `prev + 1` |
| Tables.HashTable.Get | src/lib.rs:100-116 | returns `x` exactly when the home slot is taken and some slot holds `x`, otherwise none; equivalently, `x` exactly when `ProbeHit` finds a slot; only ever returns a value equal to `x` |
| Tables.HashTable.GetNext | src/lib.rs:187-208 | returns `x` exactly when some slot strictly after `prev` and before the probe returns to the home slot holds `x`, in wrap-around order |
| Tables.HashTable.Insert | src/lib.rs:64-87 | full and not growable: error, nothing changes; not full: the new slots are `Place` of the old ones from the home slot; full and growable: capacity doubles and the slots are `Place` of `Refill` of the old ones, probed from the home slot under the old capacity; on success the elements gain exactly `x` and size rises by one |
| Tables.HashTable.InsertAt | src/lib.rs:75-86 | the home slot is filled if empty, otherwise the probe goes on after it; the new slots are `Place` of the old ones |
| Tables.HashTable.GrowCells | src/lib.rs:154-169 | capacity doubles; the slots are the old occupants re-inserted in slot order into empty slots (`Refill`); full length; the stored elements are unchanged |
| Tables.HashTable.InsertNextIndex | src/lib.rs:171-185 | fills the first empty slot reached after `prev` and changes no other slot |
| Tables.HashTable.Remove | src/lib.rs:122-138 | returns what `get` would; on a hit the slot is deleted from the sequence, so it becomes one shorter and later slots move down; the capacity is unchanged and the elements lose one `x`; on a miss nothing changes; after a hit the table is never empty again |
| Tables.HashTable.RemoveNext | src/lib.rs:210-231 | deletes the slot that `get_next` would find and returns its value; without a hit nothing changes |
| Tables.HashTable.InsertVector | src/lib.rs:140-146 | returns `Ok`; the new capacity and slots are `InsertAll` of the old ones, that is one `insert` step per value in the given order; the elements gain exactly the multiset of the values and size rises by their number |
| Tables.InsertStep | src/lib.rs:64-87 | one successful `insert` on a slot sequence of full length: full length kept, one more taken slot, exactly `x` added, and the capacity doubles exactly when the table was full |
| Tables.InsertStepCases | src/lib.rs:64-87 | an insertion step is placement from the home slot, or, on a full table, placement after growth and refill, probed from the home slot under the old capacity |
| Tables.InsertAll | src/lib.rs:140-146 | inserting the values in order keeps full length, never shrinks the capacity (and keeps it when the table may not grow) and adds one taken slot per value |
| Tables.InsertAllStep | src/lib.rs:141-145 | one more value is one more `insert` step applied to the state the earlier values left, and that step has room |
| Tables.InsertAllElements | src/lib.rs:140-146 | inserting the values in order adds exactly their multiset to the elements |
| Tables.HashTable.StoredIsFound | src/lib.rs:100-116 | on a slot sequence of full length in which every element's home slot is taken, `get` finds every stored element |
| Tables.HashTable.InsertRehomed | src/lib.rs:64-87 | `insert` with the home slot computed after growth: the same slot contents as `insert` except for that home slot; keeps every element's home slot taken; the new value is stored and its home slot taken |
| Tables.HashTable.RemoveClearing | src/lib.rs:122-138 | `remove` that empties the matching slot in place: the same return value as `get`; the slot sequence keeps its length, and then the table is empty exactly when its size is 0 |
| Probing.ElementsHold | src/lib.rs:118-120 | a value is among the stored elements exactly when some slot holds it |
| Probing.Occupied | src/lib.rs:118-120 | the number of taken slots is the size of the element multiset and at most the number of slots |
| Probing.Vacant | src/lib.rs:59-62 | empty slots and taken slots together are all the slots |
| Probing.EmptyCells | src/lib.rs:55 | `n` slots, all empty, holding no element |
| Probing.Delete | src/lib.rs:131 | `Vec::remove`: one slot fewer; earlier slots unchanged; later slots move down by one; the deleted slot's element is removed from the multiset |
| Probing.Offset | src/lib.rs:233-240 | `k` probe steps after `home` is `(home + k) mod cap` |
| Probing.FreeStep | src/lib.rs:171-185 | the number of probe steps to the first empty slot: the slot it names is empty and every slot before it is taken; no answer on a full-length sequence means every slot is taken |
| Probing.NotFullHasFree | src/lib.rs:67-87 | a full-length slot sequence that is not full has an empty slot on the probe from any home slot, so the insertion recursion ends |
| Probing.Place | src/lib.rs:74-86 | an insertion keeps the length, adds exactly `x` to the elements and one taken slot, leaves the home slot taken, and on an empty home slot just fills it |
| Probing.PlaceFillsFirstFree | src/lib.rs:171-185 | the filled slot is the first empty one at or after the home slot in wrap-around order, and no other slot changes |
| Probing.PlaceKeepsTaken | src/lib.rs:181 | an insertion leaves every taken slot as it was |
| Probing.PlaceIsFound | src/lib.rs:74-86 | after an insertion the home slot is taken and some slot holds the value |
| Probing.Refill | src/lib.rs:154-169 | growth builds `cap` slots that hold the same elements as before |
| Probing.RefillStep | src/lib.rs:161-166 | one more old slot refilled either changes nothing, when it was empty, or places its occupant from its new home slot |
| Probing.PlaceKeepsHomesTaken | src/lib.rs:171-185 | an insertion probed from the value's own home slot keeps every element's home slot taken |
| Probing.RefillHomesTaken | src/lib.rs:154-169 | after growth every element's home slot under the new capacity is taken |
| Probing.IndexIn | src/lib.rs:194-207 | the first slot in a range that holds `x`; no earlier slot in the range holds it |
| Probing.HitAfter | src/lib.rs:187-208 | the slot found holds `x` and lies strictly after `prev` and before the home slot in wrap-around order; no slot visited before it holds `x`; none means no slot in that stretch holds `x` |
| Probing.HitAfterStep | src/lib.rs:211-230 | one probe step: the next slot holds `x`, or the search goes on after it |
| Probing.ProbeHit | src/lib.rs:100-116 | the slot found holds `x`; a slot is found exactly when the home slot is taken and some slot holds `x` |
| Probing.HitIsFirstInProbeOrder | src/lib.rs:187-208 | the slot found is the first one holding `x` in probe order from the home slot |
| TypeHashes.HashUsize | src/premade_type_hashes.rs:3-7 | a `usize` hashes to its own value |
| TypeHashes.HashU8 | src/premade_type_hashes.rs:8-12 | a `u8` hashes to its own value, below 256 |
| TypeHashes.HashU16 | src/premade_type_hashes.rs:14-18 | a `u16` hashes to its own value, below 65536 |
| TypeHashes.HashU32 | src/premade_type_hashes.rs:20-24 | a `u32` hashes to its own value, below 2^32 |
| TypeHashes.HashStringLikeTypes | src/premade_type_hashes.rs:96-100 | the running sum over the characters ends at the sum of all their code points |
| TypeHashes.CodePointSumAppend | src/premade_type_hashes.rs:97-98 | appending a character raises the hash by exactly its code point |
| TypeHashes.ShortTextHashes | src/premade_type_hashes.rs:96-99 | the empty text hashes to 0, and a one-character text to its code point |
| TypeHashes.CollidingLetters | src/lib.rs:251-254 | "a" hashes to 97 and "k" to 107, and both have home slot 7 in ten slots |
| TypeHashes.AnagramsCollide | src/premade_type_hashes.rs:96-100 | texts with the same characters in any order hash alike |
| TypeHashes.CodePointSumSplit | src/premade_type_hashes.rs:96-100 | a character anywhere in a text adds its code point to the hash |
| Scenarios.Letter | src/lib.rs:360-364 | the one-letter text `'a' + i` hashes to `97 + i` |
| Scenarios.NewTableIsEmpty | src/lib.rs:263-267 | a new table of ten slots is empty and has size 0 |
| Scenarios.TwoInserts | src/lib.rs:269-284 | two inserts give size 2, and the table is not empty |
| Scenarios.CollidingInserts | src/lib.rs:286-348 | "a" and "k" share home slot 7; after both are inserted, the size is 2 and "k" is found and removed |
| Scenarios.GetByIndex | src/lib.rs:297-307 | after one insert, the value's home slot holds it |
| Scenarios.RemoveStoredAndMissing | src/lib.rs:322-354 | removing a stored value returns it; removing from an empty table returns none |
| Scenarios.GrowingTable | src/lib.rs:356-367 | 26 letters in a growable ten-slot table give size 26 and capacity 40 |
| Scenarios.NonGrowableTable | src/lib.rs:369-384 | a ten-slot table that may not grow accepts exactly ten letters, then reports CapacityReached, and the size stays 10 |
| Scenarios.InsertVec | src/lib.rs:386-395 | nine distinct `u32` values inserted as one vector give size 9 |
| Scenarios.StaleHomeBeforeGrowth | src/lib.rs:74-86 | 0 and 2 fill a two-slot table under the identity hash |
| Scenarios.StaleHomeGrowth | src/lib.rs:154-169 | growth to four slots puts 0 and 2 in their home slots 0 and 2 |
| Scenarios.StaleHomeAfterInsert | src/lib.rs:64-87 | 3, probed from slot 3 mod 2 = 1, lands in slot 1, and slot 3 stays empty |
| Scenarios.StaleHomeAfterGrowth | src/lib.rs:64-72 | 3 is stored, yet `get(3)` returns none |
| Scenarios.RehomedAfterGrowth | src/lib.rs:64-72 | with the home slot computed after growth, `get(3)` returns 3 |
| Scenarios.Alphabet | src/lib.rs:360-364 | the 26 one-letter texts from "a" to "z", in order |
| Scenarios.InsertLettersRehomed | src/lib.rs:356-367 | with the home slot computed after growth, the table holds exactly the alphabet and every home slot is taken |
| Scenarios.LetterIsFound | src/lib.rs:100-116 | each letter of such a table is found by `get` |
| Scenarios.LookUpLetters | src/lib.rs:100-116 | looking up every letter of such a table finds each one |
| Scenarios.RehomedGrowthKeepsMembership | src/lib.rs:356-367 | with the home slot computed after growth, all 26 letters are found after growing from 10 to 20 to 40 slots |
| Scenarios.RemoveShortensSlots | src/lib.rs:122-138 | on a one-slot table, after inserting and removing 5 the size is 0 but the table is not empty, and a further insert would read past the end |
| Scenarios.ClearingKeepsSlots | src/lib.rs:122-138 | with the slot emptied in place, the same sequence leaves the table empty |

## Left out

- The `Display` implementation (src/lib.rs:28-44) and the `println!` calls in the tests are output formatting and I/O.
- The `f32` and `f64` hashes (src/premade_type_hashes.rs:68-78) are floating-point saturating casts.
- The hashes of the signed types and of `u64` and `u128` (src/premade_type_hashes.rs:26-66) depend on the platform width of `usize` and on two's-complement wrapping.
- Integers are unbounded. The `usize` overflow of the text sum (src/premade_type_hashes.rs:98) and of `capacity * 2` (src/lib.rs:155) is not modelled.
- `&str`, `str` and `String` (src/premade_type_hashes.rs:80-94) are one Dafny string type. Their three `hash` implementations all call `hash_string_like_types`, so they are the one function `CodePointSum`, which the tables use as the text hash.
- The `Hashable` trait is the function `hash`, fixed at construction. `PartialEq` is Dafny equality, and `Clone` is value copying.
- Panics (`.expect` on a missing slot, `% 0`, and `insert_vector`'s `.expect` on a failed insert) are not modelled as behaviour. The member that would panic has a precondition instead.
- Tables.HashTable.InsertVector: requires a slot sequence of full length and enough room (or growability) for every value. Without that room the code panics, which is a precondition here, so the method does not model the values inserted before the panic.
- Tables.HashTable.GrowCells: requires a capacity above zero. Its only caller is `insert`, which panics in `hash_function` on capacity 0 before it can grow, so the model does not state growth from 0 slots.
- Tables.HashTable.Get: does not state the probe order itself; `Probing.HitIsFirstInProbeOrder` states it for slot sequences of full length.
- Tables.HashTable.RemoveClearing: states emptiness only for a table whose slot sequence had full length before the call.
- The `Result` returned by `grow_cells` and `insert_next_index` is always `Ok`, so these two are modelled as methods without a result.

## Findings

| source | as written | input that shows it | evidently intended | confidence | as-written member | corrected member |
|---|---|---|---|---|---|---|
| src/lib.rs:64-87 | `insert` computes the home slot before `grow_cells` doubles the capacity, so after a growth the new value is probed from `hash % old_capacity` | identity hash, growable table of 2 slots: insert 0, 2 and 3; the slots become `[0, 3, 2, empty]`, and `get(3)` stops at empty slot 3 and returns none although 3 is stored | the new value is probed from its home slot under the capacity after growth, so `get` finds every stored value | not executed | Scenarios.StaleHomeAfterGrowth | Tables.HashTable.InsertRehomed |
| src/lib.rs:122-138 | `remove` deletes the matching slot with `Vec::remove`, so the vector gets shorter while `_capacity` stays the same | non-growable table of 1 slot: insert 5, then remove 5; `size()` is 0 but `is_empty()` is false, and a further `insert` reads slot 0 of an empty vector and panics | the matching slot is emptied in place and the vector keeps `capacity` slots | not executed | Scenarios.RemoveShortensSlots | Tables.HashTable.RemoveClearing |
