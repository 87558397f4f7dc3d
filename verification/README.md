# Accounts database: a verified model

This project models the core algorithms and protocols of the accounts database of a Solana validator and proves what they
are for. Each fast or concurrent piece is connected to a simple definition of what it must do. Together the modules cover:

- **The accounts hash** (`AccountsHash`, `DedupMerge`, `NewestEntries`, `Merkle`, `MerkleSlices`, `Flattening`, `PubkeyBins`): a k-way,
  newest-wins merge of sorted slot groups by pubkey bin, in parallel, whose hashes are fed, scattered over files and three
  tree levels at a time, into a Merkle root. The simple definition: of every pubkey the last entry, in key order, and the
  plain fanout tree over it. A hasher is an arbitrary function of the list of hashes fed to it.
- **The accounts index** (`RollingBits`, `SlotLists`, `ScanProtocol`, `AccountsIndexObject`, `IndexIteration`,
  `ScanAccounts`, `StartupDedup`): fork-aware lookup, purging, the protection of ongoing scans as a state machine over
  every run, paged iteration, whole scans among other threads and in-place de-duplication. The class `AccountsIndex`
  performs the steps of the state machine in place.
- **Rent partitions** (`RentPartitions`): tiling of the key space, the inverse function, coverage over chains of slots.
- **The buffered reader** (`BufferedReading`): a sliding window over a file under every pattern of short reads.
- **Account locks** (`AccountLocking`): a reader-writer lock table over whole runs, with batches.
- **The shrink race** (`ShrinkRace`): a three-read lookup against a two-step swap, in every interleaving.
- **Recent blockhashes** (`RecentBlockhashes`) and **publishing order** (`PublishOrder`).

Some properties hold only under a condition. They are stated as equivalences, each with an input on which they fail:

- `RollingBitField::insert` loses or miscounts a slot exactly when the window is empty and the slot is not above all of
  `excess`; roots added in order never meet this (`Insert`, `SlotLost`).
- `get_prior` is documented as the highest item below a slot. The code misses slot 0 when it is the only such item and the
  bound is above 1, and answers slot 0 for bound 0 (`GetPrior`, `PriorMissed`).
- `partition_from_pubkey` gives an index that is no partition exactly for prefixes between n widths and the maximum
  (`InverseExactly`, `RecordedWhereCollected`, `NoPartition`).
- `get_partitions` collects exactly what is due if and only if the step is a `CoveredStep` (`CollectedExactly`,
  `RentSkipped`).
- A purge is harmless for a query on every slot list exactly when the ancestors of the query below the bound are roots and
  no root up to the bound that it cannot see lies above a slot that it can see (`PurgeHarmlessExactly`). Without a bound,
  and for a scan of roots at m, this is when no alive root lies above m or none lies at or below it (`UnboundedClean`).
- No key gets a partition index beyond the vector of rent-paying accounts if and only if n + 1 widths reach all prefixes
  below the maximal one (`IndexInBoundsExactly`, `IndexOutOfBounds`).
- The offset reported by a reader is right after a read if and only if it was right before or the requirement is positive
  (`Read`, `OffsetDelayed`). After an I/O error the reader is as it should be if and only if its window began at the front
  of the buffer (`SpoiltExactly`, `WindowSpoiled`).
- `read_into_buffer` is documented to stop at the end of the file. The code does not return when the file is shorter than
  what its valid length calls for (`ReadIntoBuffer`, `NeverFull`, `NeverRead`).
- The first assertion in the drop of a shrink holds exactly when the last change of the slot since its old store was
  fetched installed a store of that id, or there was none and the reference agreed with its store
  (`SwapAssertedExactly`); the second one always holds (`FinishAsserted`). `OverlappingShrinks` and `EquivalentKeepsId` are
  families of runs on both sides.

Elsewhere, too, the model follows the code where its documentation differs: `remove_older_duplicate_pubkeys` returns the
removed entries and not a set of pubkeys, and `update_slot_list` asks for no new reference when the entry at the other slot
is not cached, not only for the one at its own slot.

Panics of checked additions are results (`None`, `Overflow`) with an exact condition. Indices and offsets are unbounded
numbers; where the source's 64-bit arithmetic matters the bounds are proved. All files belong to one project:
`dafny verify dfyconfig.toml`.

## Model

| member | source | states |
|---|---|---|
| `AccountsHash.RestOfHashCalculation` | accounts-db/src/accounts_hash.rs:1211-1236 | for all slot groups sorted by pubkey, and for every way the parallel fold and reduce cuts the 65536 bins: the result is the plain fanout-16 root over the newest entry of every pubkey in key order, zero-lamport entries dropped or replaced as asked, with the exact lamport sum; the overflow panic happens exactly when that sum exceeds 64 bits |
| `AccountsHash.HashCalculation` | accounts-db/src/accounts_hash.rs:1211-1236 | the same for every admissible number of bins, so the result does not depend on it |
| `AccountsHash.DeDupAccounts` | accounts-db/src/accounts_hash.rs:812-875 | the files and the sum account for exactly the newest entries of the bins in range, whatever the split tree |
| `AccountsHash.Combine` | accounts-db/src/accounts_hash.rs:840-870 | joining two partial results accounts for the concatenation of what they account for, including the overflow cases |
| `AccountsHash.ListingConcat` | accounts-db/src/accounts_hash.rs:812-875 | listings of neighbouring bin ranges concatenate to the listing of the joint range |
| `AccountsHash.AllBins` | accounts-db/src/accounts_hash.rs:812-875 | all bins together list every pubkey |
| `DedupMerge.DeDupAccountsInParallel` | accounts-db/src/accounts_hash.rs:1139-1206 | one bin yields the hashes and lamports of its newest entries in key order; the panic exactly on overflow; the file never outgrows its allocation; the loop terminates |
| `DedupMerge.AddNextItem` | accounts-db/src/accounts_hash.rs:1063-1130 | placing a pointer terminates and keeps the working set strictly descending, one pointer per group, with every key not yet emitted covered by its own group or by a newer one |
| `DedupMerge.MovePast` | accounts-db/src/accounts_hash.rs:1101-1127 | when a key is in the working set already, the pointer of the older group moves on and coverage is kept |
| `DedupMerge.SkipPointer` | accounts-db/src/accounts_hash.rs:1101-1127 | a pointer may skip a key that a newer group points at |
| `DedupMerge.ReplacePointer` | accounts-db/src/accounts_hash.rs:1101-1127 | a newer pointer may take the place of an older one at the same key |
| `DedupMerge.TakeLeast` | accounts-db/src/accounts_hash.rs:1165-1202 | what is popped is the least key not yet emitted, in its newest version, and the merge goes on above it |
| `DedupMerge.LastIsLeast` | accounts-db/src/accounts_hash.rs:1165-1174 | the last pointer of the working set has the least key left, and no newer group holds that key |
| `DedupMerge.InitializeDedupWorkingSet` | accounts-db/src/accounts_hash.rs:996-1060 | the initial working set covers every key of the bin; the returned number is the number of entries in the bin |
| `DedupMerge.EmittedFits` | accounts-db/src/accounts_hash.rs:1157-1161 | what is emitted never exceeds the number of entries counted at the start |
| `DedupMerge.GetItem` | accounts-db/src/accounts_hash.rs:879-916 | the last entry of the pointed-to key in its group, and the pointer to the next larger key of the bin, if there is one |
| `DedupMerge.FindFirstPubkeyInBin` | accounts-db/src/accounts_hash.rs:956-992 | in data sorted by bin, the least index whose key is in the bin, or none exactly when there is none |
| `DedupMerge.BinarySearchForFirstPubkeyInBin` | accounts-db/src/accounts_hash.rs:920-952 | the same for the binary search over doubled keys, which never reports a match |
| `DedupMerge.AddItem` | accounts-db/src/accounts_hash.rs:1176-1194 | one item adds its lamports with an overflow check and its hash, or the hash of its key, or nothing |
| `NewestEntries.NewestWins` | accounts-db/src/accounts_hash.rs:1063-1130 | the newest version of a key is its last entry in the highest-numbered group that holds it |
| `NewestEntries.SortedEntriesLists` | accounts-db/src/accounts_hash.rs:1139-1206 | the reference listing is strictly ascending and holds exactly the newest entry of every key |
| `NewestEntries.ListingUnique` | accounts-db/src/accounts_hash.rs:1139-1206 | there is only one such listing |
| `PubkeyBins.BinInRange` | accounts-db/src/pubkey_bins.rs:19-37 | every key has a bin below the number of bins |
| `PubkeyBins.BinMonotone` | accounts-db/src/pubkey_bins.rs:32-37 | bins are in key order |
| `PubkeyBins.ShiftBits` | accounts-db/src/pubkey_bins.rs:19-29 | the shift leaves exactly as many values as there are bins |
| `PubkeyBins.Log2Exact` | accounts-db/src/pubkey_bins.rs:14-17 | the logarithm of a power of two is its exponent |
| `Merkle.ComputeMerkleRootLoop` | accounts-db/src/accounts_hash.rs:542-579 | the loop computes the plain tree, for every fanout from 2 and every length |
| `MerkleSlices.ComputeMerkleRootFromSlices` | accounts-db/src/accounts_hash.rs:610-772 | for every fragmentation into non-empty slices: without a level count the plain root; with Some(k) exactly k plain levels, whatever the limit per pass |
| `MerkleSlices.ComputeMerkleRootFromSlicesRecurse` | accounts-db/src/accounts_hash.rs:774-787 | the remaining levels of the shorter list |
| `MerkleSlices.HashPass` | accounts-db/src/accounts_hash.rs:628-744 | one pass computes one or three plain levels, partial last chunk included |
| `MerkleSlices.HashOneLevelChunk` | accounts-db/src/accounts_hash.rs:664-676 | the hash of one chunk read through slices |
| `MerkleSlices.HashThreeLevelChunk` | accounts-db/src/accounts_hash.rs:716-739 | the unrolled nested hashers compute the three-level hash of the chunk |
| `MerkleSlices.HashGroupJ` | accounts-db/src/accounts_hash.rs:718-738 | one middle hasher covers up to fanout squared hashes and hashes their level |
| `MerkleSlices.HashGroupK` | accounts-db/src/accounts_hash.rs:720-733 | one inner hasher covers up to fanout hashes |
| `MerkleSlices.TakeHash` | accounts-db/src/accounts_hash.rs:723-731 | the cursor continues the list across slice boundaries |
| `MerkleSlices.CalculateThreeLevelChunks` | accounts-db/src/accounts_hash.rs:581-606 | three levels are taken at once exactly when the list has at least fanout to the fourth hashes and neither limit is below three |
| `MerkleSlices.ThreeLevelsJoin` | accounts-db/src/accounts_hash.rs:610-772 | appending one chunk of up to fanout cubed hashes appends exactly its three-level hash to three plain levels |
| `Merkle.LevelJoin` | accounts-db/src/accounts_hash.rs:542-579 | a level splits at every multiple of the fanout |
| `MerkleSlices.RootOfPass` | accounts-db/src/accounts_hash.rs:762-771 | the root of the output of a pass is the root of its input |
| `MerkleSlices.LevelsCompose` | accounts-db/src/accounts_hash.rs:748-761 | j levels and then k levels are j + k levels |
| `Merkle.DivCeil` | accounts-db/src/accounts_hash.rs:532-538 | the least number of groups that hold all items |
| `Flattening.FromRaw` | accounts-db/src/accounts_hash.rs:421-445 | the offsets describe where every non-empty vector lies in the flattened data |
| `Flattening.FindIndex` | accounts-db/src/accounts_hash.rs:447-455 | the last entry that starts at or before the position |
| `Flattening.GetSlice` | accounts-db/src/accounts_hash.rs:457-479 | the slice is non-empty and is what the flattened data holds from the position on, to the end of its vector |
| `Flattening.SliceContinues` | accounts-db/src/accounts_hash.rs:457-479 | the same for the slice as a function |
| `Flattening.CalculateHash` | accounts-db/src/accounts_hash.rs:509-521 | the root and the length of the concatenation |
| `Flattening.FromFiles` | accounts-db/src/accounts_hash.rs:387-403 | files without hashes are skipped and the readers flatten to the contents of all files |
| `Flattening.HashesFile.Write` | accounts-db/src/accounts_hash.rs:88-163 | a write appends one hash, creates the file if needed, and needs room |
| `RollingBits.RollingBitField.Insert` | accounts-db/src/rolling_bit_field.rs:138-201 | the set grows by the slot and stays well-formed if and only if the window holds something or the slot is above everything in excess; otherwise an item is no longer found or the count is wrong; in-order inserts always qualify and never lower the upper bound |
| `RollingBits.SlotLost` | accounts-db/src/rolling_bit_field.rs:138-201 | a run after which a slot that was inserted and never removed is not found |
| `RollingBits.RollingBitField.Remove` | accounts-db/src/rolling_bit_field.rs:204-227 | the set shrinks by the slot, the upper bound stays, and the result says whether it was there |
| `RollingBits.RollingBitField.Purge` | accounts-db/src/rolling_bit_field.rs:234-259 | the least item of the window is found again, or the window collapses |
| `RollingBits.RollingBitField.ContainsIsMembership` | accounts-db/src/rolling_bit_field.rs:261-280 | contains answers membership |
| `RollingBits.RollingBitField.Min` | accounts-db/src/rolling_bit_field.rs:123-136 | the least item of the set |
| `RollingBits.RollingBitField.GetPrior` | accounts-db/src/rolling_bit_field.rs:318-333 | the highest item below the bound, except exactly in the cases about slot 0 that are spelled out |
| `RollingBits.PriorMissed` | accounts-db/src/rolling_bit_field.rs:318-333 | a field for which it answers none below 2 and slot 0 below 0 |
| `RollingBits.RollingBitField.constructor` | accounts-db/src/rolling_bit_field.rs:99-111 | a new field is empty |
| `RollingBits.RollingBitField.MakeRoom` | accounts-db/src/rolling_bit_field.rs:138-180 | moving the least items to excess keeps the set and makes the new slot fit, or empties the window |
| `SlotLists.LatestSlot` | accounts-db/src/accounts_index.rs:1348-1385 | the two passes find the entry with the highest eligible slot |
| `SlotLists.LatestIndexIsLatest` | accounts-db/src/accounts_index.rs:1348-1385 | the reference lookup is the highest eligible entry, the last of several |
| `SlotLists.IsAliveRoot` | accounts-db/src/accounts_index.rs:1994-2000 | whether the slot is an alive root |
| `SlotLists.GetNewestRootInSlotList` | accounts-db/src/accounts_index.rs:1538-1555 | the loop computes the newest root in the list under the bound |
| `SlotLists.NewestRootIsMax` | accounts-db/src/accounts_index.rs:1538-1555 | that root is the maximum, and 0 only stands for none |
| `SlotLists.PurgeOlderRootEntries` | accounts-db/src/accounts_index.rs:1893-1928 | the retained list, and the reclaims pushed in order |
| `SlotLists.PurgeConserves` | accounts-db/src/accounts_index.rs:1893-1928 | kept and reclaimed entries make up the list |
| `SlotLists.PurgeIdempotent` | accounts-db/src/accounts_index.rs:1893-1928 | a second purge removes nothing |
| `SlotLists.PurgePreservesAnswer` | accounts-db/src/accounts_index.rs:1893-1928 | for every query at or above the bound whose listed ancestors below the bound are roots, the lookup finds the same entry before and after the purge |
| `SlotLists.PurgeSpares` | accounts-db/src/accounts_index.rs:1893-1928 | more generally the lookup finds the same entry when its listed ancestors below the bound are roots and no listed root up to the bound that it cannot see lies above a listed entry that it can see |
| `SlotLists.UpdateSlotList` | accounts-db/src/accounts_index/in_mem_accounts_index.rs:622-692 | exactly one entry remains at the slots concerned, all others keep their order, the overwritten ones are reclaimed as asked, and the reference count goes up exactly when nothing uncached was at either slot |
| `SlotLists.OverwriteFromEnd` | accounts-db/src/accounts_index/in_mem_accounts_index.rs:640-685 | the walk from the end overwrites one matching entry and removes the other |
| `SlotLists.ReplaceKeepsOthers` | accounts-db/src/accounts_index/in_mem_accounts_index.rs:622-692 | replacement leaves one entry at the slots and the others untouched |
| `ScanProtocol.ScanIsolation` | accounts-db/src/accounts_index.rs:911-948 | over every run, what a scan sees for any pubkey is the same from its first state to its last |
| `ScanProtocol.StepIsolatesScan` | accounts-db/src/accounts_index.rs:911-948 | no step of any thread changes what a running scan sees |
| `ScanProtocol.RunKeepsInv` | accounts-db/src/accounts_index.rs:911-948 | over every run: the ongoing counts are exactly the multiset of running scans, no bounded clean goes beyond a running scan |
| `ScanProtocol.StepKeepsInv` | accounts-db/src/accounts_index.rs:806-832 | every step keeps the invariant |
| `ScanProtocol.CountScanBegun` | accounts-db/src/accounts_index.rs:806-832 | the counts stay exact when a scan begins |
| `ScanProtocol.CountScanEnded` | accounts-db/src/accounts_index.rs:986-994 | the counts stay exact when a scan ends; a count that reaches zero disappears |
| `ScanProtocol.EndScanEnabled` | accounts-db/src/accounts_index.rs:986-994 | a scan that ends finds its root counted |
| `ScanProtocol.CleanBounded` | accounts-db/src/accounts_db.rs:2335-2347 | a clean that starts is bounded by every running scan |
| `ScanProtocol.CleanUnseen` | accounts-db/src/accounts_index.rs:1893-1928 | a clean, with any bound or none, does not change what a scan sees of a key that it spares |
| `ScanProtocol.BoundedCleanSpares` | accounts-db/src/accounts_index.rs:911-948 | a clean bounded by the root of a scan spares every key |
| `ScanProtocol.SparedUntilNewRoot` | accounts-db/src/accounts_index.rs:911-948 | while no root was added since a scan began, a clean without a bound, or with one up to the newest root, spares every key for it |
| `ScanProtocol.AddRootUnseen` | accounts-db/src/accounts_index.rs:2002-2014 | a new root does not change what a running scan sees |
| `ScanProtocol.DeadSlotUnseen` | accounts-db/src/accounts_index.rs:2045-2059 | a dead slot that nothing refers to does not change what a scan sees |
| `ScanProtocol.UnboundedClean` | accounts-db/src/accounts_index.rs:1893-1928 | a purge without a bound is harmless for a scan of roots at m, for every slot list, if and only if no alive root lies above m or none lies at or below it |
| `ScanProtocol.PurgeHarmlessExactly` | accounts-db/src/accounts_index.rs:1893-1928 | a purge, with any bound or none, is harmless for a query on every slot list if and only if the ancestors below the bound are roots and no root up to the bound that the query cannot see lies above a slot that it can see |
| `ScanProtocol.InitialInv` | accounts-db/src/accounts_index.rs:806-832 | a new index satisfies the invariant |
| `ScanAccounts.ScanAccounts` | accounts-db/src/accounts_index.rs:1031-1075 | a whole scan, page by page and bin by bin, with every bin visit and every lookup in any state of any run while the scan lasts, and every lookup reading the entry that came with its page: it terminates and finds exactly the keys and contents that were visible in its first state, in order if sorted |
| `ScanAccounts.ScanPage` | accounts-db/src/accounts_index.rs:1052-1074 | one page with its lookups keeps what has been found equal to the visible part that is not ahead |
| `ScanAccounts.SortedPage` | accounts-db/src/accounts_index.rs:593-622 | over a changing index, a page misses no visible key between the old and the new bound |
| `ScanAccounts.Schedule.WorldCovers` | accounts-db/src/accounts_index.rs:911-948 | what is visible at the beginning is in the index at every moment of the scan |
| `AccountsIndexObject.AccountsIndex.BeginScan` | accounts-db/src/accounts_index.rs:806-832 | is the protocol step: the newest root is recorded, and ancestors are only looked at when they contain it |
| `AccountsIndexObject.AccountsIndex.EndScan` | accounts-db/src/accounts_index.rs:986-994 | is the protocol step |
| `AccountsIndexObject.AccountsIndex.MinOngoingScanRoot` | accounts-db/src/accounts_index.rs:1342-1344 | the least recorded root, or none exactly when there is no scan |
| `AccountsIndexObject.AccountsIndex.AddRoot` | accounts-db/src/accounts_index.rs:2002-2014 | is the protocol step, on the rolling bit field |
| `AccountsIndexObject.AccountsIndex.CleanDeadSlot` | accounts-db/src/accounts_index.rs:2045-2059 | is the protocol step, and says whether the slot was a root |
| `AccountsIndexObject.AccountsIndex.StartClean` | accounts-db/src/accounts_db.rs:2335-2347 | is the protocol step: for every proposed root, the bound is the least of it and of the scans' roots, or none |
| `AccountsIndexObject.AccountsIndex.CleanRootedEntries` | accounts-db/src/accounts_index.rs:1934-1958 | the list is purged with or without a bound, and this is the protocol step when it is enabled; kept and reclaimed entries are conserved, and the result says whether the key is gone |
| `AccountsIndexObject.AccountsIndex.Upsert` | accounts-db/src/accounts_index/in_mem_accounts_index.rs:589-692 | one entry takes the place of those at the two slots, with what is reclaimed and whether a reference is added |
| `AccountsIndexObject.UpsertIsStep` | accounts-db/src/accounts_index/in_mem_accounts_index.rs:589-692 | in a slot above the newest root that no scan looks at, an upsert is the protocol step |
| `AccountsIndexObject.UpsertIsRelocation` | accounts-db/src/accounts_index/in_mem_accounts_index.rs:589-692 | over an entry of the same slot and content, an upsert is the protocol's relocation |
| `AccountsIndexObject.AccountsIndex.ScanKey` | accounts-db/src/accounts_index.rs:1348-1385 | what a scan reads for a key is what the protocol says it sees |
| `RentPartitions.UnitsTile` | accounts-db/src/accounts_partition.rs:195-308 | for every n from 2, the n unit ranges fill the 256-bit key space in order without gap or overlap |
| `RentPartitions.UnitBounds` | accounts-db/src/accounts_partition.rs:195-308 | where a unit range begins and ends |
| `RentPartitions.PartitionIsUnion` | accounts-db/src/accounts_partition.rs:195-308 | a partition (a, b) begins and ends where its unit ranges do |
| `RentPartitions.ProductFits` | accounts-db/src/accounts_partition.rs:195-308 | no product of an index and the width overflows 64 bits |
| `RentPartitions.PartitionWidth` | accounts-db/src/accounts_partition.rs:195-230 | n widths do not exceed the number of prefixes, and less than n prefixes are left over |
| `RentPartitions.InverseExactly` | accounts-db/src/accounts_partition.rs:317-346 | partition_from_pubkey names a range that holds the key if and only if the prefix is below n widths or maximal; in between it names no partition at all |
| `RentPartitions.NoPartition` | accounts-db/src/accounts_partition.rs:317-346 | a key for which partition_from_pubkey names the eleventh of ten partitions |
| `RentPartitions.UnitUnique` | accounts-db/src/accounts_partition.rs:195-308 | a key lies in one unit range only |
| `RentPartitions.IndexInBoundsExactly` | accounts-db/src/accounts_partition.rs:317-346 | no key gets an index above n if and only if n + 1 widths reach all prefixes below the maximal one |
| `RentPartitions.IndexInBounds` | accounts-db/src/accounts_partition.rs:317-346 | with at most 2^32 partitions this is so for every key |
| `RentPartitions.RentPayingAccountsByPartition.AddAccount` | accounts-db/src/accounts_partition.rs:380-385 | the key is added under its index and nowhere else; the panic exactly when the index is above n |
| `RentPartitions.IndexOutOfBounds` | accounts-db/src/accounts_partition.rs:317-346 | a number of partitions and a key whose index is above n |
| `RentPartitions.RecordedWhereCollected` | accounts-db/src/accounts_partition.rs:368-398 | a key is recorded under the range that holds it if and only if its prefix is not in the left-over part |
| `RentPartitions.CollectedExactly` | accounts-db/src/accounts_partition.rs:154-189 | a step from parent to slot collects exactly what is due if and only if it crosses at most one cycle boundary, and lands on index 0 only from the last index |
| `RentPartitions.RentSkipped` | accounts-db/src/accounts_partition.rs:154-189 | a step that leaves two partitions uncollected |
| `RentPartitions.ChainCollectsDue` | accounts-db/src/accounts_partition.rs:154-189 | along any chain of such steps, what is collected is what is due between its ends |
| `RentPartitions.OncePerCycle` | accounts-db/src/accounts_partition.rs:111-121 | along a chain that spans one cycle, every partition is collected exactly once |
| `RentPartitions.CollectedLaterCycle` | accounts-db/src/accounts_partition.rs:154-189 | what is collected when the slot is in a later cycle than its parent |
| `BufferedReading.Replay` | accounts-db/src/buffered_reader.rs:46-112 | for every run of advances, requirements and reads and every pattern of short and interrupted reads: each read reports the total advanced, the file's bytes there, and success exactly when enough bytes are available; a run only ends early after an I/O error or at a read that hangs on a file that is too short |
| `BufferedReading.BufferedReader.Read` | accounts-db/src/buffered_reader.rs:65-87 | the window shows the file at the position; success exactly when buffer and file suffice; the reported offset is right afterwards if and only if it was right before or the requirement is positive; an error exactly when one occurred, after which the reader is as it should be exactly when the window began at the front |
| `BufferedReading.SpoiltExactly` | accounts-db/src/buffered_reader.rs:65-87 | a failed refill leaves the reader as it should be exactly when the window began at the front |
| `BufferedReading.WindowSpoiled` | accounts-db/src/buffered_reader.rs:65-87 | a failed refill after which the window shows a wrong byte and a wrong offset |
| `BufferedReading.OffsetDelayed` | accounts-db/src/buffered_reader.rs:65-108 | a read with requirement 0 that succeeds and reports offset 0 at position 3 |
| `BufferedReading.BufferedReader.GetOffsetAndData` | accounts-db/src/buffered_reader.rs:89-98 | the data are the bytes of the file at the position, and the offset is the position exactly when in sync |
| `BufferedReading.BufferedReader.AdvanceOffset` | accounts-db/src/buffered_reader.rs:100-108 | the position moves by delta; the reported offset follows exactly when the window was long enough |
| `BufferedReading.BufferedReader.SetRequiredDataLen` | accounts-db/src/buffered_reader.rs:110-112 | only the next requirement changes |
| `BufferedReading.BufferedReader.constructor` | accounts-db/src/buffered_reader.rs:46-63 | a new reader is at position 0 with an empty window at the front, and its buffer is no longer than the valid file |
| `BufferedReading.NeverFull` | accounts-db/src/file_io.rs:38-73 | a file of one byte with a valid length of two on which read_into_buffer does not return |
| `BufferedReading.NeverRead` | accounts-db/src/buffered_reader.rs:65-87 | a reader over it whose first read does not return |
| `BufferedReading.ReadMoreBuffer` | accounts-db/src/file_io.rs:10-32 | the valid bytes move to the front in any case, and the rest is filled from the file as far as buffer and valid length allow |
| `BufferedReading.ReadIntoBuffer` | accounts-db/src/file_io.rs:38-73 | reads min(buffer, remaining valid bytes) bytes of the file, whatever the pattern of short reads and interruptions; what is in front stays; without an error it terminates exactly when the file holds that many bytes |
| `AccountLocking.AccountLocks.TryLockAccounts` | accounts-db/src/account_locks.rs:24-60 | granted exactly when no key conflicts; a failure changes nothing; the table stays exactly what outstanding transactions hold, and exclusive |
| `AccountLocking.AccountLocks.UnlockAccounts` | accounts-db/src/account_locks.rs:66-127 | every lock is found, no count underflows, and the table is what the remaining transactions hold |
| `AccountLocking.LockKeepsExclusive` | accounts-db/src/account_locks.rs:24-60 | locking a validated transaction that may be locked keeps the table exact and the locks exclusive |
| `AccountLocking.NoConflicts` | accounts-db/src/account_locks.rs:24-60 | no two outstanding transactions conflict |
| `AccountLocking.RepresentsUnique` | accounts-db/src/account_locks.rs:76-127 | the table is determined by the outstanding transactions |
| `AccountLocking.GrantedExactly` | accounts-db/src/accounts.rs:602-620 | in a batch, a request is granted exactly when it conflicts neither with the table nor with an earlier granted request |
| `AccountLocking.LockAccountsInner` | accounts-db/src/accounts.rs:602-620 | every answer is the one its request deserves after those before it, and the outstanding transactions grow by the granted ones |
| `AccountLocking.LockAccountsWithResults` | accounts-db/src/accounts.rs:577-599 | the same after validation; a transaction with an earlier error is passed over |
| `AccountLocking.LockThenUnlock` | accounts-db/src/accounts.rs:602-639 | locking a batch and unlocking it restores the table |
| `AccountLocking.UnlockBatch` | accounts-db/src/accounts.rs:623-639 | releases exactly the granted transactions of the batch, whatever was locked before or after it |
| `AccountLocking.RunBatches` | accounts-db/src/accounts.rs:602-709 | over any run of batches of both kinds, locked and unlocked in any order: every answer is the one that a table built from scratch for the transactions still holding locks would give, the table is always that table, and it is empty when all are unlocked |
| `AccountLocking.LockBatch` | accounts-db/src/accounts.rs:602-709 | a batch of either kind gets the answers that a table built from scratch would give |
| `AccountLocking.LockAccountsSequential` | accounts-db/src/accounts.rs:684-709 | every answer is the one its request deserves in sequence |
| `AccountLocking.SequentialIsPrefix` | accounts-db/src/accounts.rs:684-709 | a sequential batch answers like an ordinary one up to the first account in use, and grants nothing after it |
| `AccountLocking.HasDuplicates` | accounts-db/src/account_locks.rs:149-170 | both branches decide whether a key occurs twice, and the reused set is empty again |
| `AccountLocking.ValidateAccountLocks` | accounts-db/src/account_locks.rs:131-142 | the error of the first check that fails |
| `ShrinkRace.LookupFinds` | accounts-db/src/account_storage.rs:52-70 | in every interleaving, a store that is in one of the maps when the lookup starts and is not taken out of the map before it ends stays in one of them and is found, under its own id when ids agree with stores at both ends |
| `ShrinkRace.LookupFindsPresent` | accounts-db/src/account_storage.rs:52-70 | a store that is in one of the maps all the time and not taken out of the map is found, under its own id when ids agree with stores at both ends |
| `ShrinkRace.SwapAssertedExactly` | accounts-db/src/account_storage.rs:267-283 | over all runs: the first assertion of drop holds if and only if the last change of the slot's reference since the fetch installed a store with the fetched id, or there was none and the reference agreed with its store when it was fetched |
| `ShrinkRace.SwapAssertedInRun` | accounts-db/src/account_storage.rs:169-289 | in a run that starts without shrinks, every swap goes back to a fetch, with that condition |
| `ShrinkRace.FinishAsserted` | accounts-db/src/account_storage.rs:283-289 | the second assertion of drop holds in every run |
| `ShrinkRace.BeginAssertedExactly` | accounts-db/src/account_storage.rs:180-188 | the assertion against duplicate calls holds exactly when no other shrink of the slot is between its begin and its end |
| `ShrinkRace.UndisturbedShrink` | accounts-db/src/account_storage.rs:267-289 | when nobody else changes the slot and its ids agree, the swap is as asserted |
| `ShrinkRace.RunKeepsInv` | accounts-db/src/account_storage.rs:169-197 | over every run there is at most one active shrink per slot, and the in-progress map shows exactly the active ones |
| `ShrinkRace.InitialInv` | accounts-db/src/account_storage.rs:122-127 | a storage without shrinks satisfies the invariant |
| `ShrinkRace.StepKeepsVisible` | accounts-db/src/account_storage.rs:267-289 | no step hides a store unless it takes it out of the map |
| `ShrinkRace.TwoReadsCanMiss` | accounts-db/src/account_storage.rs:52-70 | without the third read a store can be missed |
| `ShrinkRace.OverlappingShrinks` | accounts-db/src/account_storage.rs:169-197 | a family of runs on both sides of that condition: two shrinks of a slot that both read the old store first |
| `ShrinkRace.EquivalentKeepsId` | accounts-db/src/account_storage.rs:87-97 | another one: a shrink after the store was replaced by an equivalent one, which has to keep the id |
| `RecentBlockhashes.BlockhashQueue.IsHashValidForAge` | accounts-db/src/blockhash_queue.rs:78-94 | for every age up to the maximum, the answer of the full history |
| `RecentBlockhashes.BlockhashQueue.GetHashAge` | accounts-db/src/blockhash_queue.rs:90-94 | the distance to the last registration; none only when it is beyond the maximal age |
| `RecentBlockhashes.BlockhashQueue.RegisterHash` | accounts-db/src/blockhash_queue.rs:113-131 | the history grows by the hash; at most max_age + 1 hashes are held, plus one for every genesis hash that did not come first; they are tracked exactly |
| `RecentBlockhashes.BlockhashQueue.GenesisHash` | accounts-db/src/blockhash_queue.rs:96-107 | the hash counts as index 0 from then on, at any time and any number of calls |
| `RecentBlockhashes.TracksRegistered` | accounts-db/src/blockhash_queue.rs:113-131 | one more registration ages all other hashes by one |
| `RecentBlockhashes.RetainedFew` | accounts-db/src/blockhash_queue.rs:109-111 | at most max_age hashes survive the pruning, plus one for every late genesis hash |
| `PublishOrder.OrderPackages` | ci/order-crates-for-publishing.py:128-152 | succeeds exactly on graphs without a cycle of dependencies, then lists each package once and after its dependencies; the budget never cuts a run short that could succeed; a failure names packages that hold a cycle |
| `PublishOrder.AcyclicExactly` | ci/order-crates-for-publishing.py:128-152 | a graph can be ranked if and only if no dependency path leads from a package to itself |
| `PublishOrder.StuckHasCycle` | ci/order-crates-for-publishing.py:128-152 | packages that all wait for each other hold a cycle |
| `PublishOrder.RoundLists` | ci/order-crates-for-publishing.py:139-149 | a round keeps the listing in dependency order |
| `PublishOrder.RoundStuck` | ci/order-crates-for-publishing.py:139-149 | a round in which nothing is ready leaves a stuck graph |
| `PublishOrder.StuckIsCyclic` | ci/order-crates-for-publishing.py:128-152 | a graph with a stuck part has no order |
| `PublishOrder.OrderIsAcyclic` | ci/order-crates-for-publishing.py:128-152 | a graph with an order is acyclic |
| `StartupDedup.RemoveOlderDuplicatePubkeys` | accounts-db/src/accounts_index.rs:1675-1714 | what is left is strictly ascending and holds the last entry of every pubkey in the original order; together with the duplicates it is the input |
| `StartupDedup.KeepLastOfRuns` | accounts-db/src/accounts_index.rs:1685-1712 | the in-place walk keeps the last entry of every run and collects the others |
| `StartupDedup.RunsKeepLast` | accounts-db/src/accounts_index.rs:1675-1714 | in a sorted vector the last entry of a run is the last entry of its pubkey |
| `StartupDedup.StableSortIsStable` | accounts-db/src/accounts_index.rs:1680-1684 | the sort keeps the order of the entries of one pubkey |
| `IndexIteration.CollectPages` | accounts-db/src/accounts_index.rs:593-622 | in sorted mode, calling next until it returns nothing yields all requested keys once, ascending, and terminates |
| `IndexIteration.AccountsIndexIterator.Next` | accounts-db/src/accounts_index.rs:593-622 | sorted mode returns the next page and leaves exactly the other keys; unsorted mode returns all keys once |
| `IndexIteration.AccountsIndexIterator.SortedChunk` | accounts-db/src/accounts_index.rs:593-611 | the first page of the requested keys in order |
| `IndexIteration.AccountsIndexIterator.UnsortedChunk` | accounts-db/src/accounts_index.rs:593-611 | all requested keys, each once |
| `IndexIteration.OnlyTheseBins` | accounts-db/src/accounts_index.rs:513-546 | no requested key lies outside the bins that are visited |
| `IndexIteration.AfterPage` | accounts-db/src/accounts_index.rs:620-621 | starting again behind the last key of a page leaves exactly the keys behind the page |
| `IndexIteration.Items` | accounts-db/src/accounts_index/in_mem_accounts_index.rs:224-242 | the keys of one bin in the range, each once |

## Left out

- Hash primitives: `Hasher` is an arbitrary function; nothing here needs collision resistance.
- Memory maps, temporary files and their retries: a hash file is a list with a capacity, handed on as a value.
- Rayon, `DashMap` and locks as mechanisms: a fold and reduce is any order-preserving split tree, a critical section is one step.
- Insertion into the account storage: its check for ongoing shrinks and the insertion itself are one step.
- The fork tree of `Bank` and `BankForks`: what it guarantees when a scan starts is the hypothesis `Settled`, and that nobody upserts below the newest root or into the ancestors of a running scan is a condition of the steps.
- Secondary indexes, the disk index and reference counts: not part of this model, except whether an upsert asks for a reference.
- Upserts that move an entry from another slot: part of `AccountsIndex.Upsert`, but not a step of the scan protocol.
- Roots are added in order, and a dead slot is not referenced: conditions of these steps. A clean whose bound is above the newest root, or which has none, reaches only keys that it spares for every running scan (`KeySpared`); `SparedUntilNewRoot` and `PurgeHarmlessExactly` say when that is so.
- Aborting a scan.
- The order in which a hash map yields its entries: arbitrary in `Items`.
- MerkleSlices.ComputeMerkleRootFromSlices: does not model the overflow of fanout to the fourth in `usize`, which needs a fanout of at least 65536; a level count of 0, on which the source underflows, is excluded.
- RollingBits.RollingBitField.Insert: requires a slot below the largest 64-bit number, since the source computes slot + 1.
- Timestamps of blockhashes.
- `get_partition_from_slot_indexes` and multi-epoch cycles: the slot indexes come from a caller outside this model.
- `get_all`, `get_all_less_than` and the bit iterator of the rolling bit field.
- Vectors passed by mutable reference (the working set, `reclaims`, slot lists, the vector being de-duplicated): values in and out, so aliasing is not modelled.
- Sorting and binary search of the Rust standard library: modelled by own routines with the documented result.
- Loading of `cargo metadata`, the check for direct circular dependencies and manifest paths in the publishing script.
- Metrics, statistics and throttling.
