# Open-addressing string hash table, modelled in Dafny

This project models the hash table engine of `src/hash_table.c`. The table
maps string keys to string values. It keeps a fixed array of 53 buckets and a
`count` field. A bucket is empty (`NULL`), a tombstone (the shared
`HT_DELETED_ITEM` sentinel) or an owned key/value item. Collisions are resolved
by open addressing with double hashing. The bucket for attempt `i` of key `s`
is `(ht_hash(s, HT_PRIME_1, n) + i * (ht_hash(s, HT_PRIME_2, n) + 1)) % n`.

- `hashing.dfy` (module `Hashing`) holds the polynomial string hash `ht_hash`
  and the probe `ht_get_hash`, written as functions. It also holds the number
  theory behind the probe: for a prime size it visits every bucket once per
  cycle, unless the step is a multiple of the size.
- `buckets.dfy` (module `Buckets`) treats the bucket array as a value
  (`seq<Slot>`). It defines what each of the three probe walks does: where the
  walk ends, what `ht_search` returns, which bucket `ht_insert` writes, and
  which buckets `ht_delete` turns into tombstones. Its lemmas state the
  properties of the table: round trips, overwrite, non-interference between
  keys, and the live-entry count.
- `hash_table.dfy` (module `HashTables`) holds the class `HashTable`. It has
  the fields `size`, `count` and `items: array<Slot>`. `ht_new` is its
  constructor. `ht_insert`, `ht_search` and `ht_delete` are methods with the
  source's `while` loops. Each method is proved to leave the array exactly as
  the matching `Buckets` function says.

The source's walk loops have no attempt bound. The methods therefore require
`Ends(walk, items[..], key, a1, a2)`: some attempt in the first cycle of `n`
attempts reaches a bucket that ends the walk. For search this is an empty
bucket or a live entry for the key. For insert it is an empty bucket, a
tombstone or a live entry for the key. For delete it is an empty bucket. The
probe repeats itself every `n` attempts (`ProbeIsPeriodic`). So by
`WalkEndsWithinOneCycle`, this precondition holds exactly when the source's
loop terminates. `FullCycleWalkEnds` shows it always holds when the size is
prime, the key's step is usable, and the array has a suitable bucket anywhere.

`HT_PRIME_1` and `HT_PRIME_2` are used by `ht_get_hash` but defined in no
source file. They are the constructor parameters `a1` and `a2`. No proved
property depends on their values.

The code is followed as written, including these quirks:
- `ht_insert` writes into the first tombstone it meets without looking further
  for the key (`InsertAtTombstoneDuplicates`).
- `ht_delete` goes on walking after a match.
- `ht_delete` decrements `count` once whatever it removed.
- The table never resizes.

The comment at src/prime.h:1-18 describes resizing at load factors 0.7 and
0.1, but no code implements it. The code also has no bound on the number of
attempts, and its delete does not stop at the first match. The model follows
the code in all three points.

## Model

| member | source | states |
|---|---|---|
| `Hashing.Hash` | src/hash_table.c:67-76 | `ht_hash(s, a, m)` is a bucket number in `[0, m)` |
| `Hashing.HashAfter` | src/hash_table.c:69-74 | the accumulator of `ht_hash`'s loop stays in `[0, m)` after every iteration |
| `Hashing.HashIsPolyMod` | src/hash_table.c:57-76 | `ht_hash(s, a, m)` equals the key read as base-`a` digits, the sum of `a^(len-1-i) * s[i]`, taken modulo `m` |
| `Hashing.ReducedAfterEachStep` | src/hash_table.c:71-74 | reducing the accumulator modulo `m` after every iteration gives the remainder of the unreduced sum |
| `Hashing.UnreducedIsPoly` | src/hash_table.c:57-63 | the loop's unreduced terms, plus the value of the rest of the key, make up the key's whole base-`a` value |
| `Hashing.HornerModIsHash` | src/hash_table.c:67-76 | the pow-based loop agrees with Horner evaluation `acc := (acc * a + c) mod m` |
| `Hashing.HashOfFour` | src/hash_table.c:67-76 | the one-character key `"4"` (code 52) hashes to 52 in a 53-bucket table under every base |
| `Hashing.GetHash` | src/hash_table.c:80-86 | `ht_get_hash` returns a bucket in `[0, n)`; attempt 0 gives `ht_hash(s, HT_PRIME_1, n)` |
| `Hashing.ProbeIndex` | src/hash_table.c:85 | `(h + attempt * step) % n` is a bucket in `[0, n)` and is `h` at attempt 0 |
| `Hashing.ProbeIsPeriodic` | src/hash_table.c:85 | attempts `i` and `i mod n` visit the same bucket |
| `Hashing.ProbeStallsWhenStepIsSize` | src/hash_table.c:85 | when `ht_hash(s, HT_PRIME_2, n) = n-1` every attempt returns the first bucket |
| `Hashing.ProbeIsInjective` | src/hash_table.c:80-86 | for a prime `n` and a second hash other than `n-1`, attempts `0..n-1` visit pairwise different buckets |
| `Hashing.ProbeCoversAllBuckets` | src/hash_table.c:80-86 | under the same conditions, every bucket is visited by some attempt below `n` |
| `Hashing.MaxSizeIsPrime` | src/hash_table.h:4 | the table size 53 is prime |
| `Hashing.StepOfFourIsSize` | src/hash_table.c:83-85 | as written, every attempt for key `"4"` in a 53-bucket table returns bucket 52 |
| `Hashing.FixedGetHash` | src/hash_table.c:80-86 | the corrected probe (second hash taken modulo `n-1`) returns a bucket in `[0, n)`, starting at `ht_hash(s, HT_PRIME_1, n)` |
| `Hashing.FixedProbeVisitsEveryBucketOnce` | src/hash_table.c:84-85 | for a prime `n`, the corrected probe's attempts `0..n-1` are pairwise different and cover every bucket, for every key |
| `Buckets.FirstStop` | src/hash_table.c:134-144 | the attempt where a walk ends: it ends the walk, and every earlier attempt lets the walk go on |
| `Buckets.WalkEndsWithinOneCycle` | src/hash_table.c:134-144 | if any attempt, however late, ends a walk, then one of the first `n` attempts does |
| `Buckets.FullCycleWalkEnds` | src/hash_table.c:80-86 | with a prime size and a usable step, a walk ends if any bucket of the array would end it |
| `Buckets.Lookup` | src/hash_table.c:130-146 | the search returns the value of the first live entry for the key on its probe path, with only tombstones and other keys before it; it returns nothing only on reaching an empty bucket first |
| `Buckets.LookupDependsOnlyOnStops` | src/hash_table.c:134-144 | the search result changes only through the buckets that end its walk; tombstones and other keys are passed over |
| `Buckets.InsertTarget` | src/hash_table.c:96-120 | insert writes the first bucket on the path that is empty, a tombstone, or holds the key; every earlier bucket holds another key |
| `Buckets.InsertThenLookup` | src/hash_table.c:94-146 | round trip: after `ht_insert(k, v)` the search for `k` ends and returns `v` |
| `Buckets.InsertTwiceOverwrites` | src/hash_table.c:104-108 | a second insert of `k` writes the same bucket, which then holds a live entry, so `count` is unchanged; the last value wins |
| `Buckets.InsertKeepsOtherLookups` | src/hash_table.c:94-122 | inserting `k` leaves every value found for another key where it was |
| `Buckets.InsertAtTombstoneDuplicates` | src/hash_table.c:113-117 | when insert stops at a tombstone while the key is still live further on, two live entries hold the key, and search returns the new value |
| `Buckets.Live` | src/hash_table.h:13-17 | the number of live entries, which `count` is meant to track, is at most the number of buckets |
| `Buckets.InsertLive` | src/hash_table.c:104-121 | insert's `count` update matches the change in the number of live entries |
| `Buckets.DeleteFrom` | src/hash_table.c:155-165 | the delete walk over a range of attempts keeps the number of buckets |
| `Buckets.DeleteFromEffect` | src/hash_table.c:155-165 | the delete walk turns each live entry for the key on its path into a tombstone; every other bucket is unchanged; `removed` counts the entries that went |
| `Buckets.DeleteThenLookup` | src/hash_table.c:151-167 | after `ht_delete(k)` the search for `k` ends and finds nothing |
| `Buckets.DeleteAbsentKeepsSlots` | src/hash_table.c:155-165 | deleting a key that search does not find changes no bucket |
| `Buckets.DeleteKeepsOtherLookups` | src/hash_table.c:147-160 | deleting `k` leaves what search finds for every other key unchanged |
| `Buckets.DeleteCountRightOnlyForOneRemoval` | src/hash_table.c:166 | the unconditional decrement keeps `count` equal to the live entries if and only if the walk removed exactly one entry |
| `Buckets.DeleteAbsentMiscounts` | src/hash_table.c:166 | deleting an absent key leaves the buckets alone but makes `count` differ from the number of live entries |
| `Buckets.CorrectedDeleteCount` | src/hash_table.c:155-166 | decrementing once per removed entry keeps `count` equal to the live entries, and leaves it unchanged for an absent key |
| `Buckets.AllEmptyEnds` | src/hash_table.c:26-33 | in a new table every walk ends at its first attempt, and search finds nothing |
| `Buckets.DeleteOfFourNeverEnds` | src/hash_table.c:151-165 | as written, after inserting `"4"` into a new table, no attempt of the delete walk for `"4"` reaches an empty bucket |
| `HashTables.HashTable.constructor` | src/hash_table.c:26-33 | `ht_new`: 53 buckets, all empty, `count` 0 |
| `HashTables.HashTable.Insert` | src/hash_table.c:94-122 | exactly the target bucket becomes `Occupied(key, value)`; `count` grows by one unless a live entry for the key was replaced |
| `HashTables.HashTable.Search` | src/hash_table.c:130-146 | returns `Lookup` of the current buckets and changes nothing |
| `HashTables.HashTable.Delete` | src/hash_table.c:151-167 | the buckets become those of the delete walk, and `count` drops by exactly one |
| `HashTables.OverwriteThenDelete` | src/hash_table.c:94-167 | on a new table: insert `k`, `v1`, then insert `k`, `v2`; this leaves one entry, and search returns `v2`; after delete, search finds nothing |

## Left out

- `ht_new_item`, `ht_del_item` and `ht_del_hash_table` (src/hash_table.c:11-19, 38-52) only allocate and free memory. Entries are values here, so they are not modelled. Destroying a table is not modelled either. Note that `ht_del_hash_table` would also free the static tombstone sentinel, because it only tests for `NULL`.
- Resizing, load factors, base size and `next_prime`/`is_prime`: the code has none of them, and src/prime.h only declares the prime functions.
- `ht_hash` computes powers with floating-point `pow` and accumulates in a `long`. The model uses exact integer powers. Overflow and rounding are not modelled. Neither are the wrap-around of `attempt * (hash_b + 1)` and of `count` in `int`.
- Character codes are non-negative. C's remainder of a negative sum, from a signed `char` above 127, is not modelled.
- `HT_PRIME_1` and `HT_PRIME_2` are not defined in any file. They are constructor parameters.
- Null-pointer arguments and allocation failure are not modelled.
- `ht_search` returns a pointer into the table. The model returns a copy of the value.
- HashTables.HashTable.Insert, HashTables.HashTable.Search and HashTables.HashTable.Delete require that their walk ends. On inputs where it does not, the source loops forever. The model shows such inputs exist (`DeleteOfFourNeverEnds`) but does not model the non-terminating run.
- The compile-level defects of the header are not modelled: the stray `;` in `HASH_TABLE_MAX_SIZE`, the missing `;` after the `ht_del_item` declaration, and the missing `<math.h>`.

## Findings

The table class reproduces the code as written, so that its contracts describe
the source. The corrected definitions stand beside it, each with its intended
property proved.

| source | as written | input that shows it | evidently intended | confidence | as-written member | corrected member |
|---|---|---|---|---|---|---|
| src/hash_table.c:84-85 | the probe step `hash_b + 1` equals the size when `hash_b = size - 1`, so a walk never leaves its first bucket | on a new 53-bucket table, `ht_insert("4", v)` then `ht_delete("4")`: `"4"` hashes to 52 under any `HT_PRIME_2`, and the delete loop revisits bucket 52 (now a tombstone) forever | a step in `[1, size-1]`, for example the second hash taken modulo `size - 1` before adding 1, so that a prime size gives a full cycle for every key | high; proved, not executed | `Buckets.DeleteOfFourNeverEnds` | `Hashing.FixedProbeVisitsEveryBucketOnce` |
| src/hash_table.c:166 | `ht->count--` runs after every delete walk, whether it removed no entry, one, or several | `ht_delete(ht, "a")` on a new table leaves no entries and `count` at -1 | decrement once per entry removed, so that `count` stays the number of live entries | high; proved, not executed | `Buckets.DeleteAbsentMiscounts` | `Buckets.CorrectedDeleteCount` |
