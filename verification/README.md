# SnugKV storage core in Dafny

This project models the storage core of SnugKV and proves what each part promises. Every module is
ordinary Dafny 4.11; `dafny verify dfyconfig.toml` checks the whole project.

The parts, in the system's own terms:

- **Segmented arena** (`ArenaSizing`, `ArenaLayout`, `ArenaAllocator`, `ArenaRefs`, `ArenaRuns`). Size classes,
  segments, free lists threaded through the freed blocks, released segments and their holes, generation-checked
  references, inline references, and the growth planner. The invariant says which block belongs to whom;
  every allocator step moves one block between a live value, a free list and the allocator's hands.
  Whole runs of stores, drops and reads answer as a list of byte strings does.
- **Hash values** (`FieldOrder`, `Probing`, `Uvarint`, `PackedHash`, `IndexedRecords`, `IndexedHash`,
  `HotHash`, `HashSpec`, `HashCommands`, `HashPartial`, `HashRuns`). Packed bytes (SH1, and SH3 with deadlines), the
  indexed buffer (SH4) edited in place, and the HOT table. `HashKey` carries a hash through all of them;
  runs of HSET, batched HSET, HSETEX, HPEXPIREAT, HDEL, HGET and HGETALL, with thawing and freezing in
  between, answer as one plain map.
- **Cuckoo filter** (`Bits`, `CuckooSlots`, `CuckooFilter`, `CuckooCount`, `CuckooBytes`). Kick chains and
  their exact rollback, growth, deletion, and conservation of tags over runs.
- **Count-Min sketch** (`Sums`, `CountMin`, `CountMinMerge`, `CountMinStore`). Row sums, weighted merge with
  64-bit wrap-around written out, stored bytes, and runs over many keys.
- **Codecs** (`Positional`, `Radix`, `Identifiers`, `Hex`, `Uuid`, `Ulid`, `Integers`, `Repetition`,
  `Registry`). Limb arithmetic with every 64-bit product and 32-bit quotient cut to its width, base58,
  big decimals, hex with its case mask, UUID, ULID, canonical integers, repetition, and the choice of a
  record.
- **Expiration** (`Expiration`, `ExpirationCleanup`). The indexed heap and bounded cleanup.
- **Batches and compaction** (`BatchOrder`, `BatchPlan`, `EntryPack`, `Compaction`).

Hash functions are arbitrary functions throughout. Each command runs under its shard's lock in the code
and is one step here; a command reads the clock once, except cleanup, which reads it once per shard.
`grant`, `budget` and `limit` parameters stand for the answer of the memory limit. Go's `container/heap`
is written out in `Expiration`; `sort.Slice` is any sorted order. Integer widths that matter (32-bit
words, 64-bit products, signed 64-bit sums, 18-bit generations) are explicit.

Where the code and its comments differ, the code is followed. The comment above `nextGeneration` speaks of
2^18 generations; the code cycles through 2^18 - 1 of them, and that is the period used here.

Promises a reader might expect that the code keeps only under a condition:

- An HSET is not all-or-nothing. A hash in the indexed form takes writes in place until one has no room; the
  rebuilt buffer that holds the rest may be too large, or refused by the memory limit when it is published,
  and the writes in place stay (`HashPartial.HalfHset` has an input for each). `HashCommands.HashKey.Set`
  proves that the command makes all of its writes or changes nothing if and only if
  `HashCommands.AllOrNothing` holds of the hash before it: the size and memory limits let it pass, or the
  writes before the first one without room change nothing. `HashKey.SetResults` proves the same of a
  batch, which also passes whenever it meets or makes the HOT form. `IndexedHash.EditsWhole` is the
  condition for the edit of the buffer alone, before any publication.
- `cuckooCount` counts every copy twice if and only if the number of buckets divides the item's fingerprint
  (`CuckooCount.Count` with `CuckooCount.BucketsCoincide`; `CuckooCount.CountedTwice` is an input).
- A Count-Min merge can count an item too low if and only if its weights can cancel counts: the code accepts
  single counters among which one of positive and one of negative weight count something
  (`CountMinMerge.MergeCovers` and `CountMinMerge.CancelsUndercount`). Weights of one sign never can, and
  weights of both signs within 32 bits always can.
- A deadline command that names a field twice may answer differently the second time
  (`HashSpec.NamedTwice`); `HashSpec.ExpirePointwise` says exactly when.

## Model

| member | source | states |
|---|---|---|
| `ArenaSizing.SizeClassSound` | internal/arena/arena.go:178-284 | the class of a length has room for header and value, a bucket in range, and the block size its bucket fixes |
| `ArenaSizing.SizeClassBestFit` | internal/arena/arena.go:178-284 | no shared bucket with a smaller block would hold the value |
| `ArenaSizing.ComputeGeometric` | internal/arena/arena.go:178-284 | the class loop between 1 KiB and 4 KiB stops at the first block that fits |
| `ArenaSizing.ComputeLarge` | internal/arena/arena.go:178-284 | the loop over Go's own size classes stops at the first that fits |
| `ArenaSizing.ComputeDedicatedBlock` | internal/arena/arena.go:308-315 | the search over the size table gives the block that DedicatedLeast is about |
| `ArenaSizing.DedicatedLeast` | internal/arena/arena.go:300-315 | of all sizes the Go runtime hands out (its classes, whole pages above) the dedicated block is the least that holds the value |
| `ArenaSizing.SegmentSizeSound` | internal/arena/arena.go:322-364 | a new segment holds the block it is opened for, and is the block itself above 8 KiB |
| `ArenaLayout.OffsetFits` | internal/arena/arena.go:54-86 | every block offset fits the 13-bit field; a block above one segment is its whole segment |
| `ArenaLayout.PopKeeps` | internal/arena/arena.go:429-471 | taking the head of a free list keeps the arena invariant |
| `ArenaLayout.ReserveKeeps` | internal/arena/arena.go:429-471 | reserving fresh bytes keeps the arena invariant |
| `ArenaLayout.CommitKeeps` | internal/arena/arena.go:466-470 | writing generation and value into a reserved block keeps the invariant and makes the value readable |
| `ArenaLayout.RetireKeeps` | internal/arena/arena.go:536-562 | taking a live block back keeps every other value |
| `ArenaLayout.ParkKeeps` | internal/arena/arena.go:536-562 | pushing a block on its free list keeps the invariant, the link living in the block's own bytes |
| `ArenaLayout.ReleaseKeeps` | internal/arena/arena.go:536-562 | releasing a dedicated segment leaves no block and no list entry in it |
| `ArenaAllocator.RefFields` | internal/arena/arena.go:54-86 | segment, offset and length come back from the packed location |
| `ArenaAllocator.InlineRoundTrip` | internal/arena/arena.go:103-139 | an inline reference carries its payload whatever generation it has |
| `ArenaAllocator.SameGeneration` | internal/arena/arena.go:88-98 | two steps share a generation exactly when they are a multiple of 2^18 - 1 apart |
| `ArenaAllocator.NextGenerationCycles` | internal/arena/arena.go:92-98 | the counter runs through 1 to 2^18 - 1 and starts again, never giving zero |
| `ArenaAllocator.Arena.ViewLive` | internal/arena/arena.go:473-497 | a live reference reads exactly the bytes it was given for |
| `ArenaAllocator.Arena.ViewAccepts` | internal/arena/arena.go:473-497 | View accepts a reference if and only if the block's present owner is a multiple of the period younger and its length fits |
| `ArenaAllocator.Arena.ViewStale` | internal/arena/arena.go:473-497 | View rejects a freed reference while fewer than 2^18 - 1 steps have passed |
| `ArenaAllocator.Arena.LiveApart` | internal/arena/arena.go:429-562 | two live values never share a byte |
| `ArenaAllocator.Arena.FreeListsSound` | internal/arena/arena.go:536-562 | free-list entries are distinct, of their bucket's one size, in segments that are not released, linked through their bytes, apart from live values; the dedicated bucket is empty |
| `ArenaAllocator.Arena.Alloc` | internal/arena/arena.go:429-471 | the new reference is live with the given bytes, all others keep theirs and no block moves or changes size; memory grows by what the shape of the arena predicts |
| `ArenaAllocator.Arena.AllocInline` | internal/arena/arena.go:103-116 | values of one to eight bytes become inline references that consume a generation and no memory |
| `ArenaAllocator.Arena.Free` | internal/arena/arena.go:536-562 | the reference dies, all others live on, and no block but a released dedicated one goes, moves or changes size; total memory changes by FreeGrowth minus the bytes released |
| `ArenaAllocator.Arena.GrowthFor` | internal/arena/arena.go:379-427 | the simulation without changes equals the growth of the real allocations |
| `ArenaRuns.PutValue` | internal/arena/arena.go:429-471 | one value stored inline or in a block: its reference reads as the value, earlier ones read as before, and only a block costs memory |
| `ArenaRuns.AllocateAll` | internal/arena/arena.go:429-471 | allocating values in order grows memory by the predicted total; every returned reference reads as its value and every earlier one as before |
| `ArenaRuns.PlanThenAllocate` | internal/arena/arena.go:379-471 | planned growth equals the growth of MemoryBytes and of TotalMemoryBytes, and viewing each new reference gives its value |
| `ArenaRuns.Step` | internal/arena/arena.go:429-562 | one store, inline store, drop or read refines the list of cells |
| `ArenaRuns.Run` | internal/arena/arena.go:429-562 | over every legal run from an empty arena the reads answer as a list of byte strings |
| `Bits.NextPowerOfTwoCorrect` | internal/engine/cuckoo.go:58-70 | the bit smearing gives the least power of two not below its argument |
| `Bits.AndPredecessor` | internal/engine/hash_indexed.go:28-28 | the test n and n-1 finds exactly the powers of two |
| `Bits.MaskIsMod` | internal/engine/hash_indexed.go:57-69 | masking with slots-1 is the remainder by slots |
| `CuckooSlots.AltInvolution` | internal/engine/cuckoo.go:116-118 | the alternate bucket of the alternate bucket is the bucket itself, modulo a power of two |
| `CuckooSlots.KickStep` | internal/engine/cuckoo.go:332-357 | one kick conserves the tags of slots and hand together, and one roll-back step undoes it |
| `CuckooSlots.KickInsert` | internal/engine/cuckoo.go:332-357 | succeeds if and only if a chain of at most maxIterations kicks reaches a free slot; success adds exactly the new tag, failure leaves every slot as it was |
| `CuckooSlots.FilterFind` | internal/engine/cuckoo.go:263-300 | a sub-filter finds a tag if and only if it holds it |
| `CuckooSlots.PlaceDirect` | internal/engine/cuckoo.go:286-330 | succeeds if and only if one of the two buckets has a free slot, and adds exactly the new tag |
| `CuckooSlots.RemoveOne` | internal/engine/cuckoo.go:388-412 | exactly one copy of the tag goes, if there is one |
| `CuckooFilter.NewFilter` | internal/engine/cuckoo.go:130-148 | refused exactly outside the capacity range, otherwise one blank sub-filter whose bucket count is the least power of two not below half the capacity |
| `CuckooFilter.Filter.Contains` | internal/engine/cuckoo.go:302-309 | true if and only if some sub-filter holds the tag |
| `CuckooFilter.Filter.Insert` | internal/engine/cuckoo.go:359-386 | adds exactly one tag and keeps numItems exact, or changes nothing; fails if and only if no slot, no chain of kicks and no growth is left; recursion ends after one growth |
| `CuckooFilter.Filter.GrowAndInsert` | internal/engine/cuckoo.go:380-386 | after growth the second attempt always succeeds |
| `CuckooFilter.Filter.Grow` | internal/engine/cuckoo.go:150-180 | appends an empty sub-filter of the same shape, or is refused |
| `CuckooFilter.Filter.Delete` | internal/engine/cuckoo.go:388-412 | removes one tag if present and keeps the item counter exact |
| `CuckooFilter.Run` | internal/engine/cuckoo.go:302-412 | over every run of inserts, and of deletes and queries of items still held, no held item is reported absent, no such delete fails, and numItems is the number of items held; no unique insert of a held tag is made, and every other insert is while fewer operations than the 65535 possible sub-filters have come |
| `CuckooCount.Count` | internal/engine/cuckoo.go:311-321 | the number of copies, doubled if and only if the two buckets coincide |
| `CuckooCount.BucketsCoincide` | internal/engine/cuckoo.go:116-128 | the two buckets coincide if and only if the number of buckets divides the fingerprint, so never from 256 buckets on |
| `CuckooCount.CountedTwice` | internal/engine/cuckoo.go:311-321 | one item inserted once into the smallest filter is counted twice |
| `CuckooBytes.FilterRoundTrip` | internal/engine/cuckoo.go:193-261 | every filter reads back from its bytes |
| `CuckooBytes.BytesRoundTrip` | internal/engine/cuckoo.go:193-261 | accepted bytes encode again to themselves, but for the four spare header bytes |
| `CuckooBytes.Encode` | internal/engine/cuckoo.go:193-218 | the encoding loop writes header and sub-filters in order |
| `CuckooBytes.Decode` | internal/engine/cuckoo.go:220-261 | the decoding loop accepts exactly the well-formed bytes |
| `CuckooBytes.StoreThenLoad` | internal/engine/cuckoo.go:193-261 | a filter stored and loaded holds the same tags with the same counters |
| `Uvarint.RoundTrip` | internal/engine/hash.go:37-55 | every 64-bit number reads back, whatever follows it |
| `FieldOrder.Search` | internal/engine/hash.go:405-407 | binary search finds the first field that is not below the target, and tells whether the target is there |
| `FieldOrder.PutField` | internal/engine/hash.go:404-423 | inserting or overwriting at the found place keeps the order, is the map update (`FieldOrder.UpsertKeeps`), and tells whether the field is new |
| `FieldOrder.UpsertKeeps` | internal/engine/hash.go:404-423 | the edited list is sorted and stands for the updated map |
| `FieldOrder.SortedUnique` | internal/engine/hash.go:81-95 | one map has one sorted list of pairs |
| `FieldOrder.RewritesNothing` | internal/engine/hash_indexed.go:156-182 | writes leave a map unchanged if and only if every field already has its last written value |
| `FieldOrder.LiveHashPairs` | internal/engine/hash_field_expiry.go:9-18 | exactly the pairs that are not expired, still sorted |
| `FieldOrder.KeepOthers` | internal/engine/hash.go:923-937 | the map without the named fields, and how many were there |
| `PackedHash.PackedRoundTrip` | internal/engine/hash.go:99-227 | packing and unpacking sorted pairs returns them with their deadlines, in either layout |
| `PackedHash.EncodeSorted` | internal/engine/hash.go:99-147 | fails exactly on unsorted, repeated or too large input, otherwise writes the packed form |
| `PackedHash.FitsRoundTrip` | internal/engine/hash.go:99-227 | whatever the encoder accepts reads back |
| `PackedHash.Decode` | internal/engine/hash.go:160-227 | the loop accepts exactly the well-formed records and returns their pairs |
| `PackedHash.Lookup` | internal/engine/hash.go:229-290 | the early-stopping scan agrees with the live fields of the decoded record, for every field and time |
| `PackedHash.UnpackSound` | internal/engine/hash.go:160-227 | a decoded record is sorted, and only SH3 has deadlines |
| `Probing.ProbeDecides` | internal/engine/hash_indexed.go:57-69 | a linear probe ends at the field, or at a free slot that proves the field absent |
| `Probing.InsertKeeps` | internal/engine/hash_indexed.go:110-118 | filling the free slot of a probe keeps every record reachable |
| `Probing.RoomLeft` | internal/engine/hash_indexed.go:57-69 | a table below capacity has an empty slot |
| `IndexedRecords.PutKeeps` | internal/engine/hash_indexed.go:174-177 | pointing the probed slot at a new record sets that field and nothing else |
| `IndexedHash.CheckMeta` | internal/engine/hash_indexed.go:19-32 | accepts exactly the headers with a power-of-two slot count of at least eight and room for slots and used bytes |
| `IndexedHash.ReadRecord` | internal/engine/hash_indexed.go:40-50 | the record that a slot word names |
| `IndexedHash.Find` | internal/engine/hash_indexed.go:57-74 | the probing loop ends on every sound table, at the field or at its free slot |
| `IndexedHash.Lookup` | internal/engine/hash_indexed.go:137-152 | the value of the field in the map that the buffer holds |
| `IndexedHash.Decode` | internal/engine/hash_indexed.go:123-135 | the sorted pairs of the map that the buffer holds |
| `IndexedHash.Encode` | internal/engine/hash_indexed.go:87-121 | fails exactly on no pairs, a deadline, a repeated field or more than 32 MiB; otherwise a valid buffer holding the pairs |
| `IndexedHash.EncodeThenDecode` | internal/engine/hash_indexed.go:87-135 | decode of encode returns the sorted pairs |
| `IndexedHash.AppendMeans` | internal/engine/hash_indexed.go:174-180 | the byte writes of an append change one slot, the records and the used size, and nothing else |
| `IndexedHash.SetInPlace` | internal/engine/hash_indexed.go:158-181 | the edit is made in place if and only if the table stays below seven tenths and the free bytes hold the record; it then sets the field and keeps the count exact |
| `IndexedHash.Rebuild` | internal/engine/hash_indexed.go:162-173 | decode, update, encode is the sequential map update; refused only when the result does not fit |
| `IndexedHash.Set` | internal/engine/hash_indexed.go:156-182 | the writes before the first one without room, judged on the buffer before the edit, are made in place; fails if and only if there is such a write and the whole result fits no buffer, otherwise the rest is in a rebuilt buffer still to be published; the edit is all or nothing if and only if `EditsWhole` holds |
| `HotHash.HotHash.Find` | internal/engine/hash_hot.go:71-96 | finds the field if and only if the table holds it |
| `HotHash.HotHash.Rehash` | internal/engine/hash_hot.go:98-115 | every record stays reachable |
| `HotHash.HotHash.Set` | internal/engine/hash_hot.go:127-152 | map update; the answer tells whether the field is new |
| `HotHash.HotHash.Get` | internal/engine/hash_hot.go:154-167 | the map's value |
| `HotHash.HotHash.Delete` | internal/engine/hash_hot.go:169-213 | removes the named fields and counts each present one once |
| `HotHash.HotHash.Pairs` | internal/engine/hash_hot.go:215-235 | the map's pairs, sorted |
| `HotHash.NewHotHash` | internal/engine/hash_hot.go:39-52 | a table holding exactly the given pairs |
| `HotHash.BuildThenList` | internal/engine/hash_hot.go:39-235 | listing a table built from sorted pairs returns those pairs |
| `HashSpec.LiveLater` | internal/engine/hash_field_expiry.go:9-18 | dropping dead fields early changes nothing later |
| `HashSpec.ResultsStep` | internal/engine/hash.go:531-545 | a field is there after some writes if it was there before or one of them names it |
| `HashSpec.ExpirePointwise` | internal/engine/hash_field_expiry.go:68-113 | deletions and new deadlines depend on each field alone, however often it is named; so does each answer, except for a field named before whose new deadline now blocks the condition |
| `HashSpec.NamedTwice` | internal/engine/hash_field_expiry.go:68-113 | a field named twice with NX is answered 1 and then 0 |
| `HashSpec.SetExPlain` | internal/engine/hash_field_expiry.go:578-603 | HSETEX without options is HSET |
| `HashCommands.HashKey.DeadlinesArePacked` | internal/engine/hash_hot.go:266-394 | only the SH3 form ever holds a deadline |
| `HashCommands.HashKey.Get` | internal/engine/hash.go:588-620 | HGET answers from the live map in every form |
| `HashCommands.HashKey.GetAll` | internal/engine/hash.go:863-888 | HGETALL returns the live map, sorted, in every form |
| `HashCommands.HashKey.Set` | internal/engine/hash.go:338-470 | HSET is the sequential map update on the live fields with the count of new ones; it succeeds if and only if the form it is in passes the size and memory limits; refused, exactly the writes made in place stay; all or nothing if and only if `AllOrNothing` holds before it |
| `HashCommands.AllOrNothingIs` | internal/engine/hash.go:338-470 | the writes made in place leave the live fields as they were if and only if every field so written already had its last value |
| `HashPartial.HalfHset` | internal/engine/hash.go:374-394 | from an absent key, an HSET that is refused after its first write, which stays: by the memory limit although its fields fit a buffer, or because they fit none |
| `HashCommands.HashKey.SetResults` | internal/engine/hash.go:476-579 | the batch answers each command as if applied one by one, through thawing before or promotion after; it succeeds if and only if it meets or makes the HOT form or passes as an HSET does; refused, exactly the writes made in place stay; all or nothing exactly as an HSET |
| `HashCommands.HashKey.Del` | internal/engine/hash.go:889-963 | HDEL removes the named live fields, counts them, and drops the key with its last field; it succeeds if and only if the hash is HOT, nothing is removed, or what is left is nothing or fits and is granted |
| `HashCommands.HashKey.Thaw` | internal/engine/hash_hot.go:266-346 | moves to the HOT form exactly when enough live fields without deadlines are there, keeping the live map |
| `HashCommands.HashKey.Freeze` | internal/engine/hash_hot.go:348-394 | moves back to a cold form with the same fields, or changes nothing; fails if and only if the hash is HOT and its cold form is too large or not granted |
| `HashCommands.HashKey.ExpireAt` | internal/engine/hash_field_expiry.go:28-143 | the answers and the live fields are those of the plain map, in every form; it succeeds if and only if the key is absent, or it can leave the HOT form, no present field meets an unknown condition, and a changed result fits and is granted |
| `HashCommands.HashKey.SetEx` | internal/engine/hash_field_expiry.go:514-625 | FXX and FNX are judged on the live fields before the command; deadlines are given, kept or cleared; any other outcome leaves the live fields as they were; it succeeds if and only if the hash can leave the HOT form, the condition is known and an admitted result fits and is granted |
| `HashRuns.Step` | internal/engine/hash.go:338-963 | one command does and answers what the plain map does, is carried out if and only if it passes in the form it meets, and refused leaves exactly the writes of an HSET made in place |
| `HashRuns.Run` | internal/engine/hash.go:338-963 | over every run from an absent key, refusals included: each command meets a form that holds the live fields of one plain map, is carried out if and only if it passes there, and then answers as that map; a refused one leaves on the map exactly the writes that the buffer it met had room for |
| `CountMin.IncreaseBalanced` | internal/engine/cms.go:164-189 | an increment keeps every row equal to the count |
| `CountMin.CellBound` | internal/engine/cms.go:164-189 | no counter exceeds the count |
| `CountMin.IncreaseCovers` | internal/engine/cms.go:164-189 | an increment raises every counter of its item |
| `CountMin.QueryBounds` | internal/engine/cms.go:151-162 | a query is at least what came and at most the count |
| `CountMin.Counter.QueryItem` | internal/engine/cms.go:151-162 | the least of the item's counters |
| `CountMin.Counter.Increment` | internal/engine/cms.go:164-189 | refused exactly on overflow and then without effect; otherwise adds to one counter per row |
| `CountMinMerge.CheckedProduct` | internal/engine/cms.go:340-358 | a count that passes the check bounds every product of a counter with the weight within 64 bits, also for the least weight |
| `CountMinMerge.TotalCount` | internal/engine/cms.go:338-353 | the exact weighted count; accepted if and only if every product passes its check, no running sum overflows and the sum is not negative |
| `CountMinMerge.MergeCell` | internal/engine/cms.go:355-367 | the exact weighted counter although its products are not checked; accepted if and only if no running sum overflows and it fits 32 bits |
| `CountMinMerge.Merge` | internal/engine/cms.go:292-373 | accepted if and only if sizes agree and count and counters are accepted, for weights of any sign; then the counter-wise weighted sum, balanced again |
| `CountMinMerge.AcceptedUp` | internal/engine/cms.go:334-368 | with no negative weight a merge is refused only when the count or a counter really overflows |
| `CountMinMerge.MergeBalanced` | internal/engine/cms.go:334-368 | rows of a weighted sum add up to the weighted sum of the counts |
| `CountMinMerge.MergeCovers` | internal/engine/cms.go:334-368 | unless its weights can cancel counts, an accepted merge counts no item too low |
| `CountMinMerge.UndercountCancels` | internal/engine/cms.go:334-368 | an accepted merge of any size that counts an item too low has weights that can cancel counts |
| `CountMinMerge.CancelsUndercount` | internal/engine/cms.go:334-368 | for all weights that can cancel counts the code accepts a merge that counts an item too low, though no source does |
| `CountMinMerge.MixedSigns` | internal/engine/cms.go:334-368 | weights of both signs within 32 bits can always cancel counts |
| `CountMinMerge.OneSignKeeps` | internal/engine/cms.go:334-368 | weights of one sign never can |
| `CountMinStore.SketchRoundTrip` | internal/engine/cms.go:75-117 | every sketch reads back from its bytes |
| `CountMinStore.Init` | internal/engine/cms.go:34-49 | refused exactly on dimensions out of range, otherwise all zero |
| `CountMinStore.IncrBy` | internal/engine/cms.go:214-248 | all increments in order with the estimate after each, or none |
| `CountMinStore.Step` | internal/engine/cms.go:191-373 | each command succeeds if and only if its arguments are accepted, and then has its effect, sizes included; stored sketches stay balanced and, unless a merge can cancel counts, covering |
| `CountMinStore.Run` | internal/engine/cms.go:191-373 | over every run from an empty store each command succeeds if and only if the store it meets accepts it, and then has its effect there, otherwise none; each row of each stored sketch sums to its count, and no item is counted too low while no merge can cancel counts |
| `CountMinStore.QueryKey` | internal/engine/cms.go:250-271 | the stored estimate lies between what came and the count |
| `Positional.CanonUnique` | internal/codec/identifier.go:350-400 | a number has one digit list without leading zeros |
| `Radix.MulLimb` | internal/codec/identifier.go:373-377 | the 64-bit product of a limb loses no bit and its carry stays below the multiplier |
| `Radix.MulAdd` | internal/codec/identifier.go:371-381 | limbs times multiplier plus value, exactly |
| `Radix.Decode` | internal/codec/identifier.go:353-391 | fails exactly on a character that is no digit, otherwise the bytes of the number without leading zeros |
| `Radix.DivLimb` | internal/codec/identifier.go:429-433 | the 32-bit quotient of a limb loses no bit |
| `Radix.DivPass` | internal/codec/identifier.go:427-437 | long division of the limbs |
| `Radix.Append` | internal/codec/identifier.go:401-449 | the digits of the number in the radix, without leading zeros |
| `Identifiers.ChunkPowers` | internal/codec/identifier.go:451-451 | the chunk divisors are 58^5 and 10^9 |
| `Identifiers.EncodesBack` | internal/codec/identifier.go:457-483 | base58 encode of decode returns every text of the alphabet |
| `Identifiers.DecodesBack` | internal/codec/identifier.go:457-483 | base58 decode of encode returns every byte string |
| `Identifiers.Decode58` | internal/codec/identifier.go:457-469 | fails exactly outside the alphabet; leading ones become zero bytes |
| `Identifiers.Encode58` | internal/codec/identifier.go:471-483 | leading zero bytes become ones |
| `Identifiers.EncodeKey` | internal/codec/identifier.go:312-321 | accepts exactly the texts of 32-byte keys, and the bytes encode back to the text |
| `Identifiers.DecodeKey` | internal/codec/identifier.go:327-348 | the text of a 32-byte key, if its length agrees |
| `Identifiers.EncodeDecimal` | internal/codec/identifier.go:502-515 | accepts canonical decimals of 65 to 256 bits, and the bytes write back the text |
| `Identifiers.DecimalBack` | internal/codec/identifier.go:502-533 | decimal text without a leading zero survives the limb form |
| `Identifiers.DecodeDecimal` | internal/codec/identifier.go:521-533 | the decimal text of the bytes, if its length agrees |
| `Hex.Encode` | internal/codec/identifier.go:167-214 | accepts exactly hex text and its record decodes to it, in any mixture of cases |
| `Hex.Decode` | internal/codec/identifier.go:216-287 | the checks on flags and lengths, and the digits that body and mask spell |
| `Uuid.Encode` | internal/codec/codec.go:543-567 | accepts exactly lower-case UUID text, and the bytes write it back |
| `Uuid.Decode` | internal/codec/codec.go:569-604 | the text of sixteen bytes |
| `Uuid.TextIsUuid` | internal/codec/codec.go:543-604 | the text of any sixteen bytes is accepted |
| `Uuid.TextInjective` | internal/codec/codec.go:543-604 | different bytes have different text |
| `Ulid.Encode` | internal/codec/codec.go:633-672 | accepts exactly ULID text and packs its 128-bit number |
| `Ulid.Decode` | internal/codec/codec.go:674-719 | 26 digits of the same number, the first at most seven |
| `Ulid.TextBack` | internal/codec/codec.go:633-719 | the packed bytes of a ULID read back as its text |
| `Ulid.TextValue` | internal/codec/codec.go:633-719 | the text of sixteen bytes spells their 128-bit number |
| `Ulid.TextInjective` | internal/codec/codec.go:633-719 | different bytes have different text |
| `Integers.CanonicalInt64` | internal/codec/codec.go:265-312 | parses exactly the canonical text of 64-bit integers, the least included |
| `Integers.IntegerBack` | internal/codec/codec.go:314-340 | the zigzag varint decodes to the text |
| `Repetition.EncodeRepeat` | internal/codec/compression.go:63-98 | accepts exactly values of one repeated byte |
| `Repetition.EncodePeriodic` | internal/codec/compression.go:104-135 | the least period from 2 to 64, or none |
| `Repetition.PeriodicExpands` | internal/codec/compression.go:104-153 | a periodic value is its pattern, expanded |
| `Repetition.Expand` | internal/codec/compression.go:136-144 | copying ever longer prefixes fills the buffer with the pattern |
| `Repetition.DecodePeriodic` | internal/codec/compression.go:146-165 | the expanded pattern, or refused |
| `Registry.EncodeScalar` | internal/codec/codec.go:87-120 | the unverified UUID, ULID and integer records decode to the value, and are chosen whenever they apply |
| `Registry.EncodeHexForeground` | internal/codec/identifier.go:49-68 | chosen if and only if the text is hex and no short run of decimal digits; the record is shorter and its decoding check never fails |
| `Registry.Encode` | internal/codec/codec.go:87-162 | the chosen record decodes to the value and is no longer than it; UUID, ULID, shorter integer and hex text get their own codec |
| `Registry.EncodeGeneral` | internal/codec/compression.go:334-385 | the background record decodes to the value, whatever LZ4 and Zstandard do |
| `Registry.EncodeThenDecode` | internal/codec/codec.go:87-239 | both choices decode under every limit that admits the length |
| `Expiration.Queue.Swap` | internal/engine/expiration.go:18-22 | positions stay the inverse of the items |
| `Expiration.Queue.Push` | internal/engine/expiration.go:23-27 | a new deadline, heap order kept |
| `Expiration.Queue.RemoveAt` | internal/engine/expiration.go:28-35 | one deadline gone, heap order kept |
| `Expiration.Queue.Schedule` | internal/engine/expiration.go:48-76 | sets, changes or removes exactly one deadline and keeps heap and positions in order |
| `Expiration.Queue.AtFor` | internal/engine/expiration.go:37-46 | the deadline last set |
| `Expiration.FinalIsLast` | internal/engine/expiration.go:48-76 | the deadline after a run is the one set last for the key |
| `Expiration.FinalOnlyNamed` | internal/engine/expiration.go:48-76 | a key no call names has no deadline |
| `Expiration.Run` | internal/engine/expiration.go:48-76 | after any run of schedule calls positions and heap are in order and hold the last deadlines |
| `Expiration.RootFirst` | internal/engine/expiration.go:16-17 | the root is due first |
| `ExpirationCleanup.Shard.Clean` | internal/engine/expiration.go:86-97 | removes only due keys, earliest first, up to the limit, and all due keys below it |
| `ExpirationCleanup.Cleanup` | internal/engine/expiration.go:80-103 | over all shards: only due keys go, their number is returned, and below the limit no due key is left |
| `BatchOrder.Regroup` | internal/engine/commands.go:346-360 | counting offsets group the items by shard, each shard in its original order |
| `BatchOrder.GroupedPermutes` | internal/engine/commands.go:346-360 | the grouping is a permutation of the batch |
| `BatchOrder.GroupedStore` | internal/engine/commands.go:323-403 | applying shard by shard leaves the store of the original order |
| `BatchOrder.ApplyByShard` | internal/engine/commands.go:346-403 | the shard-local loop computes the store of the original order |
| `BatchPlan.Plan` | internal/engine/commands.go:199-238 | the planned growth is the sum over shards of what their items cost |
| `BatchPlan.Allocate` | internal/engine/commands.go:276-294 | every arena grows by what its own items cost, inline ones costing nothing; each reference reads as its item in its arena, and earlier ones read as before |
| `BatchPlan.SetBatch` | internal/engine/commands.go:199-294 | the charge is the sum of the costs and equals the growth of the arenas; viewing each reference gives its item; over the budget nothing is allocated |
| `EntryPack.PackRoundTrip` | internal/engine/entry_pack.go:41-74 | an entry whose fields fit comes back bit for bit |
| `EntryPack.UnpackRoundTrip` | internal/engine/entry_pack.go:41-74 | every pair of words is the packing of what it unpacks to |
| `Compaction.MoveOne` | internal/engine/compact.go:212-227 | a value moves into the fresh arena, inline again if it was, with its entry fields and metadata; values moved before stay readable |
| `Compaction.Rebuild` | internal/engine/compact.go:229-251 | the new index, entries and metadata of the moved items |
| `Compaction.Compact` | internal/engine/compact.go:173-279 | refused if and only if the fresh arena would pass the limit, and then unchanged; otherwise every key shows the same bytes, type, codec, flags and metadata through new references |

## Left out

- Shaped hashes, the JSON-shape catalog, lists, sets, sorted sets, streams and search.
- Key-level deadlines inside hash commands, wrong-type errors, HPERSIST, HPTTL, HGETEX and HGETDEL: one branch each over the forms modelled here.
- Store-wide memory counters outside the arenas; activity stamps, eviction and optimizer policy.
- LZ4, Zstandard, float, timestamp, boolean and unsigned codecs and the Solana layout: arbitrary functions in `Registry`, because the code checks their results where it uses them.
- The background choice among hex, base58 and big-decimal records: the three codecs are proved on their own, and the choice keeps the shortest that decodes.
- Bloom filters, the network agent, configuration and command-line tools.
- Mutexes and goroutines: every operation is one step under its lock.
- Aliasing of returned slices: arena segments are byte sequences, so a view is the bytes at the time of the call.
- ArenaAllocator.Arena.Alloc: needs a value whose block is at most maxArenaBlock and fewer than 2^25 segments; beyond that the code panics.
- HotHash.HotHash.Set: needs a payload below 4 GiB, because offsets are 32-bit words; `HashRuns.Run` asks for less than 4 GiB written in all.
- HashCommands.HashKey.SetResults: reads the clock once, where the code reads it for each phase.
- IndexedHash.ReadRecord: reports an error for a record that runs past the used bytes; the code's unsigned subtraction in that malformed case is not modelled.
- IndexedHash.Find: promises its result on sound buffers only; on malformed ones just that no byte outside the buffer is read.
- PackedHash.Lookup: on records that do not decode, the scan may answer before it meets the defect, and nothing is promised.
- Compaction.Compact: HOT tables are frozen before; the scratch limit and the order by length only choose which shards and in what order.
- BatchPlan.Plan: key, index and entry bytes of the charge, which belong to code outside these files.
- CountMinStore.Step: a merged tally below zero counts as zero, the least that a sketch can answer.
- CountMinStore.Init: dimensions from error rate and probability use floating point and are left out.
- CuckooFilter.NewFilter: the hash of an item is an arbitrary function.
