# Hash tables of the benchmark: model and proofs

A Dafny model of the three hash tables whose source is in the repository, and of
the lock and the hash arithmetic that come with the first one. Everything is
proved for all inputs, all runs and any hash function.

**The Boost open-addressing table** (`Wrappers`, `Words`, `FiniteSets`,
`Prober`, `SizePolicy`, `Group`, `TableInvariant`, `TableCore`, `Table`,
`TableIterator`). Groups of 15 slots, each with a metadata byte per slot and an
overflow byte. A lookup stops at the first group whose overflow bit for the hash
modulo 8 is clear, which is right because every stored element's whole probe
prefix is marked and nothing clears a mark while the element is there. The
insertion loop has no exit test; it stops because triangular probing visits
every group and the maximum load keeps a slot free. The class `Table` refines a
finite map over every run; the two iterator increments visit the same slots.

**The group without SIMD** (`GroupWords`, `Group15Words`). The bit-interleaved
pair of 64-bit words, on bit-vectors, refines the bytes of `Group`.

**The reader/writer spinlock** (`RwSpinlock`). A transition system with one step
for each load, compare-and-swap, fetch_sub and store of any number of threads.

**Hash arithmetic** (`Mulx`, `HashRange`). The four-limb multiplication, and the
block-wise against the streaming hash of a byte range.

**The dynamic perfect hash table** (`CountSort`, `FphIndex`, `FphSlots`,
`FphState`, `FphIterate`, `FphBuild`, `FphFill`, `FphRebuild`, `FphInsert`,
`FphRelocate`, `FphTable`, `FphStale`). Every key has one slot. Free slots carry
one of two filler keys, which may also be stored keys. An insertion into a taken
slot relocates the key's whole bucket, and with it possibly the fillers' own
slots.

**The two-choice bucketed table** (`TwoWayModel`, `TwoWayRefine`,
`TwoWayTermination`, `TwoWayErase`, `TwoWaySums`, `TwoWayTable`). `insert` and
`grow` call each other, and `grow` can be re-entered from its own reinsertion
loop. The run is modelled with a bound on the nesting of grow calls; when it
stops and when it cannot are theorems about every bound.

## What the code does that its documentation does not say

- `Ceil2` is documented as the least power of two not below its argument; for 1
  it returns 2, as an assertion beside it says. The model follows the code, and
  `Ceil2IsLeast` states both.
- Lines 3125-3126 of `dynamic_fph_table.hpp` combine a flag about the old second
  filler with the address of the newly drawn one. If the old second filler was
  stored in the moved bucket, the first filler was not, and the new one belongs
  in the first one's old, free slot, then that slot keeps the new second filler's
  key, which an absent key equal to it then finds. `RelocationExact` says this is
  the only way a relocation goes wrong, in both directions; `StaleMarkHappens`
  gives a concrete table, which also meets all hypotheses of `RelocationExact`;
  `RelocationSafe`, `InsertSlow` and `Run` use the condition a caller can test
  beforehand.
- The constructor of the perfect hash table takes a number of buckets, but the
  empty build it ends with always makes eight slots.
- `reserve(n)` of the Boost table may leave the maximum load below n: arrays of
  the right capacity are kept, and with them what erasures took off the maximum
  load. With 29 slots, 29 keys of one overflow bit that start in one group, five
  of them erased from the full group: the maximum load is 24, and `reserve(25)`
  asks for the 29 slots that are there. `Reserve` states the exact condition.
- `TwoWay::contains` of the largest key is true exactly when its two slots are
  unevenly filled, and inserting that key counts an entry that is not stored.
- `TwoWay::insert` does not terminate once more than 2*BUCKET keys share a hash,
  or more than BUCKET keys have the hash 0, which names slot 0 twice at every
  capacity. Any other hash names two slots from level 64 on, some only there,
  as 2^63 + 2^31. `SameHashExact` is the exact condition for keys that share
  one hash, `NeverStops` a concrete table.

## Modelling choices

- Hash functions are arbitrary. Random draws, shuffles and generated keys are
  nondeterministic choices. Weak compare-and-swap may fail at any time.
- `mlf` is exactly 7/8 and the load factor of the perfect hash table exactly 3/5.
- The Boost arrays are arrays of groups and of rows of 15 elements; a null
  element pointer is an element array of length 0, with two dummy groups.
  Requests beyond 2^60 elements, which no 64-bit machine can allocate, are
  excluded by preconditions.
- A mask over a group is a sequence of 15 booleans; `DropLowest` ties it to the
  integer masks of the interleaved group. The 16-bit view of the two words is
  taken little-endian, as the repository's platforms have it.
- The perfect hash table's buffers are sequences held in fields that the methods
  reassign; its bucket lists hold slot numbers instead of pointers. The number of
  buckets of a build is any power of two of at least 2, so the floating-point
  formula for it does not matter.
- The slots of the two-choice table are cells of an array updated in place; the
  arbitrary contents of freshly allocated memory are written as 0, which nothing
  reads before it is overwritten.
- In the spinlock the masks are read arithmetically: bit 31, bit 30 and the
  remainder modulo 2^30 of the word.

## Model

| member | source | states |
|---|---|---|
| Prober.Pow2QuadraticProber.Next | src/boost_unordered.hpp:5750-5755 | One step advances the position by the step number modulo the range and says whether the range is not exhausted |
| Prober.ProbeStep | src/boost_unordered.hpp:5750-5755 | Repeated steps compute the start plus a triangular number |
| Prober.ProbeInjective | src/boost_unordered.hpp:5733-5755 | Two different steps below a power-of-two range size never meet |
| Prober.ProbePermutation | src/boost_unordered.hpp:5733-5755 | For every start and every power-of-two size the first mask+1 positions are a permutation of all groups |
| Prober.ProbeReachesAll | src/boost_unordered.hpp:5738-5760 | Every group is probed within the first mask+1 steps |
| SizePolicy.SizeIsLeastPower | src/boost_unordered.hpp:5702-5714 | The group count chosen for a request is the least power of two, at least 2, that covers it |
| SizePolicy.SizeIndexInRange | src/boost_unordered.hpp:5702-5709 | Requests that can be allocated get a size index by which a 64-bit word can be shifted |
| SizePolicy.PositionInRange | src/boost_unordered.hpp:5718-5721 | Every hash word is mapped to an existing group, selected by its high bits |
| SizePolicy.CapacityForCovers | src/boost_unordered.hpp:7135-7138 | The allocated capacity covers the request and is the least of its form that does; the extra slot is the sentinel |
| SizePolicy.CapacityForLeast | src/boost_unordered.hpp:7135-7138 | The capacity for n is the least of 29, 59, 119 and so on that is at least n |
| SizePolicy.CapacityForIdempotent | src/boost_unordered.hpp:6683-6690 | Requesting exactly an allocated capacity allocates that capacity, so a rehash to it is no change |
| SizePolicy.CapacityForBound | src/boost_unordered.hpp:7135-7138 | Capacity does not jump past the power of two that already covers the request |
| Group.ReducedHash | src/boost_unordered.hpp:5590-5612 | The reduced hash is the low byte, or eight more for the two reserved bytes; it avoids both of them and keeps the hash modulo 8 |
| Group.MatchReallyOccupied | src/boost_unordered.hpp:6817-6821 | The same mask without the sentinel of the last group |
| Group.CountrZero | src/boost_unordered.hpp:6595 | The position taken from a mask is its lowest one |
| GroupWords.SetImplEffect | src/boost_unordered.hpp:5621-5645 | Writing a nibble of one slot into an interleaved word reads back there, and changes no other slot and no overflow bit |
| GroupWords.SetByte | src/boost_unordered.hpp:5614-5619 | Writing both nibbles writes exactly that byte of the group |
| GroupWords.MarkByte | src/boost_unordered.hpp:5546-5549 | Setting the top bit of a 16-bit lane sets exactly that overflow bit and touches no slot byte |
| GroupWords.MatchFinds | src/boost_unordered.hpp:5647-5666 | The lane folding of match_impl finds exactly the slots whose byte is n, for every n |
| GroupWords.AvailableFinds | src/boost_unordered.hpp:5560-5581 | The two foldings find exactly the available slots and exactly the others |
| GroupWords.OccupiedAt | src/boost_unordered.hpp:5568-5573 | The lane test says exactly whether the slot byte is nonzero |
| GroupWords.SentinelAt | src/boost_unordered.hpp:5513-5521 | The two masked comparisons say exactly whether the last byte is the sentinel mark |
| GroupWords.OverflowAt | src/boost_unordered.hpp:5541-5544 | The 16-bit lane test reads exactly the overflow bit of the hash modulo 8 |
| GroupWords.LowBitsAreByte | src/boost_unordered.hpp:5551-5559 | The gathered bits, modulo 8, are the slot byte modulo 8 |
| GroupWords.DropLowest | src/boost_unordered.hpp:6601 | On the integer mask, mask &= mask-1 is dropping the lowest matching slot |
| Group15Words.Group15.Set | src/boost_unordered.hpp:5502-5506 | On the words, set is the byte-level set |
| Group15Words.Group15.SetSentinel | src/boost_unordered.hpp:5508-5511 | On the words, set_sentinel is the byte-level one |
| Group15Words.Group15.Reset | src/boost_unordered.hpp:5523-5527 | On the words, reset is the byte-level reset |
| Group15Words.Group15.MarkOverflow | src/boost_unordered.hpp:5546-5549 | On the words, mark_overflow is the byte-level one |
| Group15Words.Group15.IsSentinel | src/boost_unordered.hpp:5513-5521 | Agrees with the byte-level answer at every position |
| Group15Words.Group15.Match | src/boost_unordered.hpp:5536-5539 | The integer mask stands for the byte-level mask and has no bit above the 15 slots |
| Group15Words.Group15.IsNotOverflowed | src/boost_unordered.hpp:5541-5544 | Agrees with the byte-level answer for every hash |
| Group15Words.Group15.MaybeCausedOverflow | src/boost_unordered.hpp:5551-5559 | Agrees with the byte-level answer: the overflow bit of the stored reduced hash modulo 8 |
| Group15Words.Group15.MatchAvailable | src/boost_unordered.hpp:5560-5566 | The integer mask stands for the byte-level mask |
| Group15Words.Group15.MatchOccupied | src/boost_unordered.hpp:5575-5581 | The integer mask stands for the byte-level mask |
| Group15Words.Group15.IsOccupied | src/boost_unordered.hpp:5568-5573 | Agrees with the byte-level answer at every position |
| Group15Words.Run | src/boost_unordered.hpp:5489-5668 | After every sequence of set, reset, set_sentinel and mark_overflow the words stand for the bytes after the same sequence |
| TableInvariant.FillKeepsTable | src/boost_unordered.hpp:7226-7244 | Filling the first free slot of the probe, with the full groups before it marked, adds exactly the new entry and keeps every entry reachable by its whole marked probe prefix |
| TableInvariant.EmptyKeepsTable | src/boost_unordered.hpp:7119-7128 | Resetting a slot removes exactly its entry; no overflow bit is cleared, so all others stay reachable |
| TableInvariant.StopProvesAbsent | src/boost_unordered.hpp:6604-6613 | Stopping at the first group without the overflow bit of hash modulo 8 is right: the key is then absent |
| TableInvariant.SearchStep | src/boost_unordered.hpp:6583-6613 | One more group searched without a match, and when that ends the search the key is absent, also with the dummy groups |
| TableInvariant.SearchHit | src/boost_unordered.hpp:6588-6603 | A slot selected by the reduced hash that compares equal is the stored entry; the sentinel is never compared |
| TableInvariant.FullPrefixIsShort | src/boost_unordered.hpp:7226-7244 | While some slot is free, fewer than all groups have been probed, so the loop without exit test stops |
| TableInvariant.FreeCellExists | src/boost_unordered.hpp:7232-7236 | With fewer entries than the capacity there is an available slot other than the sentinel |
| TableInvariant.FreshTable | src/boost_unordered.hpp:5911-5936 | Freshly initialised groups with the sentinel set are an empty table |
| TableCore.GrowthGivesRoom | src/boost_unordered.hpp:6978-6992 | Growth arrays have a maximum load of at least size+1, and their capacity can be allocated |
| TableCore.RequestCoversSize | src/boost_unordered.hpp:6683-6690 | A request of ceil(size/mlf) gives a maximum load of at least size |
| TableCore.NewArrays | src/boost_unordered.hpp:5938-5958 | Arrays for n elements, dummy groups for none; either way an empty table for lookup |
| TableCore.FindInGroup | src/boost_unordered.hpp:6588-6603 | The candidates of a group are compared lowest first; the result is the stored entry or no slot of the group matches |
| TableCore.FindIn | src/boost_unordered.hpp:6579-6614 | find returns a slot holding x if and only if x is stored |
| TableCore.NosizeUncheckedEmplaceAt | src/boost_unordered.hpp:7226-7244 | Stops without an exit test; takes the lowest free slot of the first probed group that has one, marks exactly the full groups before it with the bit hash modulo 8, and stores the entry |
| TableCore.TransferElements | src/boost_unordered.hpp:7146-7153 | The loop over all elements moves each entry once: the new arrays hold exactly their own and the old entries |
| TableCore.TransferStep | src/boost_unordered.hpp:6918-6938 | The next element of the loop is an entry not moved yet |
| Table.Table.constructor | src/boost_unordered.hpp:6326-6334 | An empty table with the least capacity that covers n, none for 0, and the whole capacity up to 29, else the floor of 7/8 of it, as maximum load |
| Table.Table.Find | src/boost_unordered.hpp:6566-6570 | A slot holding the key, with its value, if and only if the key is stored |
| Table.Table.EmplaceImpl | src/boost_unordered.hpp:8995-9020 | Inserts unless present, returns the slot holding the key, and keeps 0 <= size <= ml <= capacity; reallocates only at the maximum load, then to the least capacity c with 7c >= 8(size + size/61 + 1) and its full maximum load |
| Table.Table.UncheckedEmplaceAt | src/boost_unordered.hpp:6823-6831 | Adds exactly the entry in place |
| Table.Table.UncheckedEmplaceWithRehash | src/boost_unordered.hpp:6839-6861 | Adds the entry to larger arrays first and moves everything over; the returned slot still holds the entry |
| Table.Table.UncheckedRehash | src/boost_unordered.hpp:7146-7181 | Keeps exactly the same entries and the positions already taken in the new arrays |
| Table.Table.EraseAt | src/boost_unordered.hpp:7119-7128 | Resets the slot only; ml drops by one exactly if the slot may have caused overflow, and never below size |
| Table.Table.Erase | src/boost_unordered.hpp:8857-8869 | Removes exactly the key and reports whether it was there; only its slot is reset, and ml drops by one exactly if that slot may have caused overflow |
| Table.Table.Clear | src/boost_unordered.hpp:6645-6663 | Every group is wiped, overflow bytes included, the sentinel restored, and ml reset to the full maximum load of the capacity |
| Table.Table.Rehash | src/boost_unordered.hpp:6683-6690 | Keeps the entries; the capacity is the least c with c >= n and 7c >= 8 size, none for an empty table and n = 0; arrays of that capacity are left alone, others start with their full maximum load |
| Table.Table.Reserve | src/boost_unordered.hpp:6692-6695 | Keeps the entries; the capacity is the least c with 7c >= 8n and 7c >= 8 size; the present maximum load is at least n if and only if arrays of another capacity were allocated or it was so before |
| Table.RehashRequest | src/boost_unordered.hpp:6683-6690 | The computed capacity reproduces itself and admits the current size |
| Table.GrowsToNext | src/boost_unordered.hpp:6978-6992 | From full load without erasures growth goes to the least capacity whose load admits one more entry |
| Table.Fill | src/boost_unordered.hpp:8995-9020 | n different keys put into a new or cleared table keep its arrays if and only if n is at most 29 with capacity up to 29, or 8n <= 7 capacity above; otherwise it ends with the least capacity that admits n in this sense |
| Table.Run | src/boost_unordered.hpp:6549-7244 | Every run of emplace, erase, clear, rehash and reserve refines the same operations on a finite map |
| TableIterator.FoundIn | src/boost_unordered.hpp:8547-8562 | The lowest bit of a group mask is the next occupied slot, and the sentinel test recognises exactly the last slot |
| TableIterator.TableIterator.IncrementRegular | src/boost_unordered.hpp:8530-8563 | Goes to the next occupied slot, or to the end when that is the sentinel |
| TableIterator.TableIterator.ScanGroup | src/boost_unordered.hpp:8535-8545 | The byte-by-byte part: the next occupied slot of the group, or the start of the next group with nothing skipped |
| TableIterator.TableIterator.IncrementInterleaved | src/boost_unordered.hpp:8565-8592 | Goes to the same slot as the regular increment on every table |
| TableIterator.Begin | src/boost_unordered.hpp:8760-8766 | The first occupied slot, or the end, also for a table without elements |
| TableIterator.Traverse | src/boost_unordered.hpp:8524-8592 | From begin by increment every occupied slot is visited exactly once, in slot order, and then the end is reached, with either increment; without elements the end is reached at once |
| TableIterator.TableMarksOk | src/boost_unordered.hpp:5911-5936 | Every table carries the sentinel mark exactly in its last slot |
| TableIterator.VisitsAreEntries | src/boost_unordered.hpp:8524-8592 | The elements visited are exactly the entries of the map, each key once |
| TableIterator.TraverseTable | src/boost_unordered.hpp:8524-8592 | From begin to end, over any arrays a lookup is right on, those without elements included: exactly the entries, each key once |
| TableIterator.Elements | src/boost_unordered.hpp:8524-8592 | The same for every table: its entries, each key once, as many as its size |
| RwSpinlock.InitInv | src/boost_unordered.hpp:4536 | The initial word 0 satisfies the invariant |
| RwSpinlock.StepInv | src/boost_unordered.hpp:4581-4678 | Every load, compare-and-swap, fetch_sub and store of any thread keeps the invariant, with stale loads and spurious failures |
| RwSpinlock.RunInv | src/boost_unordered.hpp:4581-4678 | Every state of every run from a state with the invariant has it |
| RwSpinlock.Safety | src/boost_unordered.hpp:4526-4536 | In every run and with any number of threads: never two writers, never a writer beside a reader, the low 30 bits are the number of readers, and bit 31 means the word is exactly 0x80000000 |
| RwSpinlock.ReleaseKeepsOthers | src/boost_unordered.hpp:4611-4678 | The store of 0 in unlock meets no reader and no pending bit; the fetch_sub of unlock_shared never borrows from the flags |
| RwSpinlock.PendingStep | src/boost_unordered.hpp:4641-4672 | While the pending bit is set no step adds a reader, only a thread becoming the writer clears it, and some thread is inside lock() |
| RwSpinlock.PendingDrains | src/boost_unordered.hpp:4595-4619 | Over any stretch of a run with the bit set the reader count never increases |
| RwSpinlock.AcquireWhenFree | src/boost_unordered.hpp:4641-4656 | With no holder a load and a swap of one thread in lock() acquire |
| RwSpinlock.LockCanBeTaken | src/boost_unordered.hpp:4641-4672 | From every state of the invariant, releases of the present holders and the steps of a thread in lock() make a run in which it becomes the writer |
| RwSpinlock.TryLockSharedExact | src/boost_unordered.hpp:4581-4593 | A try_lock_shared without interruption reads, adding one to the word, if and only if no thread writes, no writer is pending and the reader count is below 2^30-1; otherwise it returns with nothing changed |
| RwSpinlock.TryLockExact | src/boost_unordered.hpp:4621-4639 | A try_lock without interruption writes if and only if no thread holds the lock; otherwise it returns with nothing changed |
| RwSpinlock.LockSharedRound | src/boost_unordered.hpp:4595-4609 | Under the same condition as try_lock_shared a load and a swap of lock_shared make the thread a reader beside the others, or the weak swap fails: both, and nothing else |
| RwSpinlock.LockSharedWaits | src/boost_unordered.hpp:4595-4609 | Without it no number of steps of lock_shared alone changes anything |
| RwSpinlock.LockRound | src/boost_unordered.hpp:4641-4672 | A load and a swap of lock write if nobody holds the lock, set the pending bit if only readers do and it is clear, and otherwise change nothing |
| RwSpinlock.LockWaits | src/boost_unordered.hpp:4641-4672 | While somebody holds the lock no number of steps of lock alone takes it |
| RwSpinlock.ReadersShare | src/boost_unordered.hpp:4595-4609 | Any number of readers up to 2^30-1 hold the lock at once in a run from the initial state |
| Mulx.HalvesAreProduct | src/boost_unordered.hpp:1212-1239 | The four-limb arithmetic gives the low and the high word of the full product; no carry is lost and the high word does not overflow |
| Mulx.Mulx64IsXor | src/boost_unordered.hpp:1212-1239 | The portable mulx64 is the low word xor the high word of the 128-bit product, as the other two versions compute |
| HashRange.Read64Is | src/boost_unordered.hpp:10166-10179 | The block read is the little-endian word of its eight bytes |
| HashRange.ReadTailIs | src/boost_unordered.hpp:10221-10241 | The overlapping reads of a tail of 0 to 7 bytes give the little-endian word of exactly its bytes |
| HashRange.AbsorbXor | src/boost_unordered.hpp:10207-10219 | Mixing the length in first or last gives the same |
| HashRange.HashIs | src/boost_unordered.hpp:10193-10244 | Closed form: the start value, the length and every mixed block of eight bytes, the last with what remains, are xored once each and mixed with the multiplier moved on by q for every block |
| HashRange.HashTellsLength | src/boost_unordered.hpp:10207-10208 | If the multiplication by k is injective, ranges that differ only in zero bytes at the end of their last block have different hashes |
| HashRange.HashBlocks | src/boost_unordered.hpp:10193-10244 | The random-access version computes the reference function and its closed form on every byte sequence and seed |
| HashRange.HashStream | src/boost_unordered.hpp:10246-10350 | The one-byte-at-a-time version computes the same function and closed form |
| CountSort.RankOrder | src/dynamic_fph_table.hpp:1008-1022 | Places are ordered by key and then by index, so they are all different |
| CountSort.PlacedMeansSorted | src/dynamic_fph_table.hpp:1008-1022 | An array with every index at its place is a permutation sorted by key |
| CountSort.CountSortOutIndex | src/dynamic_fph_table.hpp:987-1023 | Writes a permutation of [0, n) in non-increasing (or non-decreasing) key order, ties in index order of the same direction, for every bound on the keys |
| CountSort.SumUp | src/dynamic_fph_table.hpp:1005-1007 | Prefix sums turn counts per key into counts up to the key |
| FphIndex.Ceil2IsLeast | src/dynamic_fph_table.hpp:287-298 | The least power of two not below x, except that 1 gives 2 |
| FphIndex.OffsetIsCyclicShift | src/dynamic_fph_table.hpp:3820-3828 | Adding a mapped-back offset to a hash shifts its slot cyclically, whatever the low bits carry |
| FphSlots.FillOk | src/dynamic_fph_table.hpp:2824-2829 | The swaps of an insertion keep the two tables inverse permutations and add exactly one filled slot |
| FphSlots.UnfillOk | src/dynamic_fph_table.hpp:2742-2748 | The swaps of an erase keep them inverse and free exactly one slot |
| FphSlots.UnfillUndoesFill | src/dynamic_fph_table.hpp:2742-2748 | Freeing a slot just filled restores exactly the filled set |
| FphSlots.FilledCount | src/dynamic_fph_table.hpp:2824-2829 | filled_count_ is the number of slots whose place is below it |
| FphSlots.ShiftInjective | src/dynamic_fph_table.hpp:3528-3539 | Under one offset distinct base slots stay distinct, and an offset is determined by where it puts one hash |
| FphSlots.SearchOffset | src/dynamic_fph_table.hpp:2910-2928 | The search over free slots finds a fitting offset if and only if any offset fits |
| FphSlots.FillPattern | src/dynamic_fph_table.hpp:2929-2940 | Marks exactly the pattern's slots filled |
| FphSlots.PlacePattern | src/dynamic_fph_table.hpp:3521-3554 | Places the pattern at a fitting offset, or none exists |
| FphSlots.TestHashVecSelfCollision | src/dynamic_fph_table.hpp:2569-2588 | Passes exactly if all base slots differ, and leaves the scratch table all false |
| FphState.OtherBucketsStay | src/dynamic_fph_table.hpp:2044-2058 | Changing one bucket parameter moves only that bucket's keys |
| FphState.GetSlotPosIs | src/dynamic_fph_table.hpp:2044-2058 | In numbers: the bucket is given by the high bits of the mixed hash, the slot by those of the hash mixed with the optional bit, shifted cyclically by the offset |
| FphState.LookupExact | src/dynamic_fph_table.hpp:1848-1867 | The single comparison of find and contains succeeds for exactly the stored keys, also for a key equal to a filler |
| FphState.EmptyExact | src/dynamic_fph_table.hpp:2448-2462 | IsSlotEmpty is exact even when a filler is itself stored |
| FphState.StoreKeepsState | src/dynamic_fph_table.hpp:2823-2839 | Storing a key in its own free slot |
| FphState.EraseKeepsState | src/dynamic_fph_table.hpp:2720-2762 | Erasing and writing the slot's marker back |
| FphState.ClearedState | src/dynamic_fph_table.hpp:1916-1938 | Markers everywhere are an empty table |
| FphIterate.GetNextSlotAddress | src/dynamic_fph_table.hpp:2464-2479 | The next filled slot cyclically with none between, or none if no other slot is filled |
| FphIterate.CollectSlots | src/dynamic_fph_table.hpp:1277-1284 | Iteration visits every filled slot exactly once |
| FphBuild.GroupKeys | src/dynamic_fph_table.hpp:3390-3411 | Each bucket lists exactly the indices of its keys |
| FphBuild.TestAllBuckets | src/dynamic_fph_table.hpp:3446-3460 | Passes exactly if no bucket has two keys with one base slot |
| FphBuild.PlaceBucket | src/dynamic_fph_table.hpp:3490-3565 | Finds a parameter that puts the bucket on distinct free slots, with optional bit 1 only if no offset fits with 0, or neither bit has an offset |
| FphBuild.PlaceStep | src/dynamic_fph_table.hpp:3519-3554 | Placing one more bucket keeps all placed keys on slots of their own, which are exactly the filled ones |
| FphBuild.PlaceBuckets | src/dynamic_fph_table.hpp:3482-3572 | Success places every bucket; failure is at a bucket which, with those before it placed, no parameter puts on distinct free slots |
| FphBuild.PlacementInjective | src/dynamic_fph_table.hpp:3439-3575 | After success GetSlotPos is injective on the input keys, the filled slots are exactly theirs and as many |
| FphBuild.SearchSeed2 | src/dynamic_fph_table.hpp:3437-3575 | For fixed first seeds: failure only after 1000 tries, in each of which 1000 second seeds made some bucket collide with itself or some bucket of the order had no place left |
| FphBuild.SearchSeeds | src/dynamic_fph_table.hpp:3369-3588 | Success delivers such a placement with the buckets sorted by size, largest first; failure only after 10 times 100 first seeds each of which failed; for no keys it always succeeds |
| FphRebuild.DrawFillers | src/dynamic_fph_table.hpp:3618-3643 | Two fillers with different slots, or 100001 draws that all fall on the slot of the first one |
| FphRebuild.FillSlots | src/dynamic_fph_table.hpp:3621-3746 | Every entry in its slot, every other slot marked |
| FphRebuild.FilledState | src/dynamic_fph_table.hpp:3618-3746 | A placement filled in this way is a correct table of exactly the entries |
| FphRebuild.ListedBuckets | src/dynamic_fph_table.hpp:3761-3770 | The bucket lists rebuilt by iteration list exactly the stored keys, in the counted numbers |
| FphRebuild.CollectedMap | src/dynamic_fph_table.hpp:1684-1692 | The elements collected for a rehash are the entries of the table |
| FphRebuild.RehashBitsIs | src/dynamic_fph_table.hpp:1672-1682 | The number of slots for a rehash is the least power of two from 8 up that is at least count and of which the entries are at most 3/5, or 2^31 |
| FphInsert.FreeBucket | src/dynamic_fph_table.hpp:2881-2897 | Frees exactly the bucket's slots, found again from hashes and parameter |
| FphInsert.SearchParam | src/dynamic_fph_table.hpp:2863-2953 | From the present optional bit upward finds a parameter for the bucket with the new key, with the first of these bits for which any offset fits, or no offset fits with any of them |
| FphInsert.FoundRelocates | src/dynamic_fph_table.hpp:2863-2953 | A parameter found puts the bucket and the new key on distinct slots free of other buckets; all other entries keep theirs |
| FphInsert.RelocatedBuckets | src/dynamic_fph_table.hpp:3051-3063 | After a relocation the moved bucket lists exactly its new slots, the others are unchanged |
| FphRelocate.Vacate | src/dynamic_fph_table.hpp:3018-3049 | The bucket's elements go to a buffer and their slots are marked free |
| FphRelocate.Resettle | src/dynamic_fph_table.hpp:3051-3063 | The buffered elements land in their new slots, also where old and new slots overlap |
| FphRelocate.RepairMarksNewSlot | src/dynamic_fph_table.hpp:3107-3117 | The first filler's new slot, when free, carries the second filler's mark |
| FphRelocate.RepairMarksOldSlot | src/dynamic_fph_table.hpp:3119-3130 | The old slot gets the first filler's mark back except in the one case of a stale mark |
| FphRelocate.RepairFillers | src/dynamic_fph_table.hpp:3071-3132 | The fillers end in different slots and the recorded address is the first one's slot |
| FphRelocate.RelocationKeeps | src/dynamic_fph_table.hpp:3018-3063 | Every stored key is in its own slot after the move |
| FphRelocate.RelocationExact | src/dynamic_fph_table.hpp:2999-3152 | The relocation gives a correct table of the old entries and the new one if and only if the stale-mark case does not occur |
| FphRelocate.RelocationSafe | src/dynamic_fph_table.hpp:2999-3152 | It always does when the second filler is not a stored key of the moved bucket |
| FphStale.StaleMarkHappens | src/dynamic_fph_table.hpp:3122-3130 | A correct concrete table and the relocation found for it, on which lines 3125-3126 leave a mark that makes an absent key found |
| FphStale.SearchTakesParam | src/dynamic_fph_table.hpp:2863-2953 | That relocation is the one the search takes: the bucket collides with itself under optional bit 0, and under 1 the first offset tried fits |
| FphTable.DynamicFphTable.Create | src/dynamic_fph_table.hpp:1424-1450 | A new table is a correct empty one of eight slots, unless the drawing of the fillers gives up |
| FphTable.DynamicFphTable.Find | src/dynamic_fph_table.hpp:1848-1867 | The slot of k if and only if k is stored |
| FphTable.DynamicFphTable.Erase | src/dynamic_fph_table.hpp:2786-2800 | Removes exactly the key and reports whether it was there |
| FphTable.DynamicFphTable.EraseAt | src/dynamic_fph_table.hpp:2720-2776 | Removes the entry of one slot; tables, lists and marker follow, and begin is the next filled slot |
| FphTable.DynamicFphTable.Clear | src/dynamic_fph_table.hpp:1892-1938 | Empties the table; seeds and parameters stay |
| FphTable.DynamicFphTable.Build | src/dynamic_fph_table.hpp:3184-3772 | On success a valid table of exactly the entries, whose keys are distinct |
| FphTable.DynamicFphTable.Rehash | src/dynamic_fph_table.hpp:1672-1712 | Keeps the entries and ends with the least number of slots from 8 up that is at least count and of which the entries are at most 3/5, or 2^31; with that many slots already nothing changes and nothing fails |
| FphTable.DynamicFphTable.Insert | src/dynamic_fph_table.hpp:2803-3163 | Adds exactly the new entry, or reports it present; valid afterwards if and only if no mark was left stale. The slots double exactly if 5(n+1) > 3 slots + 4 before, up to 2^31, so that afterwards 5n <= 3 slots + 4. Without that a stored key is reported with nothing changed, a key whose slot is free is inserted for certain, and a failure or a stale mark needs the conditions of the taken-slot path |
| FphTable.DynamicFphTable.Expand | src/dynamic_fph_table.hpp:2805-2809 | Keeps the entries, and doubles the slots exactly if 5(n+1) > 3 slots + 4, up to 2^31; otherwise nothing changes and nothing fails |
| FphTable.DynamicFphTable.InsertNoExpand | src/dynamic_fph_table.hpp:2811-3158 | Reports exactly the stored keys as present; inserts without fail a key whose slot is free; fails only if the slot is taken and the bucket cannot be placed or a new second filler may be needed |
| FphTable.ExpandMakesRoom | src/dynamic_fph_table.hpp:2805-2809 | The comparison made is that one, the rehash it asks for doubles the slots, and then one more entry is within the load |
| FphTable.DynamicFphTable.InsertFast | src/dynamic_fph_table.hpp:2823-2839 | The free-slot path |
| FphTable.DynamicFphTable.InsertSlow | src/dynamic_fph_table.hpp:2840-3158 | The taken-slot path: it fails only if no parameter places the bucket with the new key or one brings the fillers together; otherwise only the bucket's parameter changes; a stale mark needs the second filler stored and the first not, both in the bucket of the new key, and the first one's slot free |
| FphTable.RelocateBucket | src/dynamic_fph_table.hpp:2999-3152 | The relocation as one step: state, bucket lists and fillers; it fails only where a new second filler is needed |
| FphTable.DrawSecond | src/dynamic_fph_table.hpp:3072-3093 | A new second filler off the first one's slot and different from the key found there, or 10001 draws that will not do |
| FphTable.DynamicFphTable.TestHazard | src/dynamic_fph_table.hpp:2840-3158 | The condition that admits a stale mark is one a caller can test before the insertion |
| FphTable.RunStep | src/dynamic_fph_table.hpp:1848-3163 | One operation of a run: it can fail only if it builds anew or must relocate a bucket that cannot be placed or needs a new second filler |
| FphTable.Run | src/dynamic_fph_table.hpp:1848-3163 | Every run of insert, erase, clear and rehash refines the same operations on a map, up to an insertion under that condition or a failure, which is one of an insertion or a rehash; the load stays within 3/5 of the slots, rounded up, and no slots are added before an insertion would exceed it |
| TwoWayModel.Used | src/TwoWay.hpp:46-48 | The count of used cells: exactly the cells before it are used |
| TwoWayModel.IndexIs | src/TwoWay.hpp:38-40 | The two slots are the hash modulo the capacity and the hash without its low 32 bits modulo the capacity |
| TwoWayModel.PlacesInEmptier | src/TwoWay.hpp:43-61 | One attempt changes one cell: the first free one of the slot with fewer used cells, of the first slot on a tie; it fails exactly if both slots are full |
| TwoWayModel.InsertRun | src/TwoWay.hpp:37-62 | Keeps used cells a prefix in every slot, through nested growth |
| TwoWayRefine.PutHolds | src/TwoWay.hpp:54-60 | A new key in the first empty cell of one of its slots is stored there and nowhere else |
| TwoWayRefine.PlaceRepresents | src/TwoWay.hpp:43-61 | One attempt, if it succeeds, adds exactly the entry and counts it |
| TwoWayRefine.EntriesAreMap | src/TwoWay.hpp:133-138 | The nested loops of grow list exactly the stored entries, each once |
| TwoWayRefine.InsertRefines | src/TwoWay.hpp:37-62 | insert adds exactly the new entry, however deeply grow is nested in it |
| TwoWayRefine.GrowRefines | src/TwoWay.hpp:126-140 | grow ends with exactly the old entries in a larger table, also when its own reinsertion grows again |
| TwoWayTermination.FitsNeverGrows | src/TwoWay.hpp:49-53 | If one of the two slots of the new key is named by at most BUCKET keys, or the slots differ and together are named by at most 2*BUCKET, insert does not call grow |
| TwoWayTermination.InsertStops | src/TwoWay.hpp:37-62 | If at some level at or above the present one every key, the new one included, has room in that sense, insert stops without passing that level |
| TwoWayTermination.GrowStops | src/TwoWay.hpp:126-140 | The same for grow, measured by the distance to the level |
| TwoWayTermination.InsertRunStable | src/TwoWay.hpp:37-62 | The depth at which the modelled run is cut off does not matter once it stops |
| TwoWayTermination.SameHashBound | src/TwoWay.hpp:38-42 | A table holds at most 2*BUCKET keys with one hash at every capacity, and at most BUCKET with the hash 0, whose two slots are one |
| TwoWayTermination.InsertDiverges | src/TwoWay.hpp:49-53 | With one key more than that, insert never stops, whatever depth of growth it is given |
| TwoWayTermination.SameHashExact | src/TwoWay.hpp:37-62 | For keys that all share a hash h, insert stops if and only if they, with the new one, are at most BUCKET for h = 0 and at most 2*BUCKET otherwise |
| TwoWayTermination.NeverStops | src/TwoWay.hpp:37-62 | A concrete table, made by one insertion, and a key whose insertion never stops |
| TwoWayErase.RemoveHolds | src/TwoWay.hpp:102-110 | Shifting the later cells down removes exactly the erased key and keeps used cells a prefix |
| TwoWayErase.PassedMeansAbsent | src/TwoWay.hpp:86-94 | A search past every used cell of both slots shows absence |
| TwoWayErase.WithoutCellIs | src/TwoWay.hpp:104-110 | Cell by cell, what the shift leaves |
| TwoWayErase.HoldsUnique | src/TwoWay.hpp:64-78 | A table holds at most one map |
| TwoWayErase.EmptyMarkIsLost | src/TwoWay.hpp:35-61 | Inserting the key EMPTY, at whatever depth of growth it stops, counts an entry that is not stored: no map is represented afterwards |
| TwoWaySums.MapSumAt | src/TwoWay.hpp:184-193 | The sum of a map's values does not depend on the order |
| TwoWaySums.TableSum | src/TwoWay.hpp:184-193 | The entries of the table sum to the values of the map |
| TwoWayTable.TwoWay.constructor | src/TwoWay.hpp:28-31 | Eight empty slots representing the empty map |
| TwoWayTable.TwoWay.Insert | src/TwoWay.hpp:37-62 | In place, computes the modelled run; exactly one cell of the table as it is, or, if both slots are full, of the table it has grown to, takes the entry: the first free one of the emptier slot, of the first slot on a tie |
| TwoWayTable.TwoWay.Grow | src/TwoWay.hpp:126-140 | In place, computes the modelled growth, re-entering itself through insert |
| TwoWayTable.TwoWay.Find | src/TwoWay.hpp:64-78 | The value of a stored key, and the number of steps counted |
| TwoWayTable.TwoWay.Contains | src/TwoWay.hpp:80-95 | True exactly for stored keys below EMPTY; for EMPTY exactly when its two slots are unevenly filled; and the steps counted |
| TwoWayTable.TwoWay.Erase | src/TwoWay.hpp:97-124 | Removes exactly the key: the cells after it move down by one and the last is marked empty |
| TwoWayTable.TwoWay.ShiftDown | src/TwoWay.hpp:104-108 | The in-place shift of the cells after the erased one |
| TwoWayTable.TwoWay.Clear | src/TwoWay.hpp:142-145 | Every cell marked empty: the empty map, with the capacity kept |
| TwoWayTable.TwoWay.SumAllValues | src/TwoWay.hpp:184-193 | The sum of the map's values modulo 2^64 |
| TwoWayTable.Run | src/TwoWay.hpp:37-145 | Every run of insertions, erases and clears whose keys have room at some level ends and refines the same operations on a map |

## Left out

- FphTable.DynamicFphTable.Insert: valid afterwards only if no mark was left stale, because the code itself leaves one in the case that RelocationExact describes.
- FphTable.Run: stops before an insertion under the stale-mark condition and after a failed build or draw, because the code gives no guarantee from there on.
- FphTable.DynamicFphTable.Build: does not say for which entries a build fails, because that depends on the seeds drawn; SearchSeeds and DrawFillers say what must have been drawn.
- TwoWayTable.Run: asks that every key has room at some level, because without such a level insert may not terminate.
- TwoWayTable.TwoWay.Insert: does not model the wrap-around of a capacity doubled 61 times, because memory ends before.
- TwoWayTable.TwoWay.Find: asks that the key is stored, because the original loop runs past the slot otherwise.
- TableCore.NewArrays: does not model allocation failure, exceptions, rollback and destruction.
- HashRange.HashBlocks: covers the 64-bit overloads, not those for 32-bit size_t, which have the same shape.
- Group15Words.Group15.Set: the SSE2 and NEON instructions themselves; their byte-level meaning is the module Group.
- RwSpinlock.StepInv: sequentially consistent steps only; weak memory orders and the back-off of yield are not modelled.
- Fairness of the spinlock: a thread in lock() can always be scheduled to acquire, but nothing says that it will be.
- Growth and reuse of buffer capacities in the perfect hash table, its copy, move and swap, and its unused dual-bucket variant.
- Move, copy, merge, swap and erase_if of the Boost table, and its statistics counters.
- How likely a build of the perfect hash table succeeds within its numbers of attempts.
- Benchmark drivers, performance counters, printing, serialization, and the tables whose source is not in the repository.
