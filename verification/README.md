# A verified model of ccNVMe and MQFS

ccNVMe orders writes to an NVMe device through per-stream rings of ordering metadata; MQFS is the ext4-derived file
system on top of it.  This project models the parts of both whose correctness is hardest to see from one function: the
lock-free rings and the transaction scanner (`ccnvme/`), the on-disk extent tree with every operation that rewrites it,
the in-memory extent status tree with its shrinker, the pointer-block files and the migration between the two formats
(`mqfs/`).

`dafny verify dfyconfig.toml` checks all of it.

## How the system is modelled

**Rings.**  A stream and the background submitter are state machines over the atomic steps of their threads: each load,
compare-and-swap and field store that another thread can see is one step; where a macro loads `head` and `tail`, `head`
comes first.  Positions are unbounded; the C fields are their residues modulo the ring size, and every comparison and
slot access of the model goes through residues, as in the source.  A step is *lawful* if it meets `Disciplined`:
conditions on overlapping threads that the code relies on but does not check.

**Extent tree.**  A node is a list of extents or of index entries; an extent keeps the raw 16-bit `ee_len`.  `Flat` is
the list of all extents from left to right and `Map` what such a list maps a block to: a physical block and the
unwritten state.  `ExtentTree.Valid` says that extents are sorted, disjoint and encodable, that all leaves have one
depth, that no node is empty or over its capacity, that every index key is the first block below it, and that every tree
block ever allocated is either in the tree or freed, exactly once.  Paths are lists of offsets; the source's walks up a
path (correcting index keys, splitting, removing empty nodes) are recursions on the value of the tree.

**Status tree.**  `StatusTrees` holds the extent lists, cached extents, counters and shrink list of all inodes.  A ghost
reference map records for every block what was last inserted for it.  Whether memory can be had, which inodes the
shrinker manages to lock and the value of its approximate counter are inputs.

**Pointer-block files.**  A pointer is null or a block with the pointers it holds; changing a pointer block in place is
changing the branch it is the top of.

## Findings

- Merging two status extents that are written and delayed but not unwritten can lose physical blocks.
  `StatusExtents.MergeSoundExactly` gives the exact set of status words the merge rule is sound for.
- The TX_END mark is stored at slot `tail` without reserving it, and `tail` is loaded before.  The store spoils an entry
  exactly when one with another tag has been finished in that slot, published since or about to be
  (`StreamRing.MarkWriteExactly`).  Both happen in every ring: `MarkRace` finishes the slot before the load, `LateMark`
  writes and publishes a whole entry between load and store, with no reservation outstanding at either.
- Flushes share their lock.  One that read an older tail and stores it last takes `flushed` back, even behind `head`
  (`StreamRing.FlushWriteExactly`, `FlushRace`).
- A checkpoint and the truncation made by a journal allocation hold different locks.  If the latter has read `flushed`
  before the checkpoint stores it, `head` goes back (`StreamRing.CheckpointHeadExact`, `CheckpointRace`).  A checkpoint
  goes on to its stores if both its tests find the ring full, which they do exactly when it is, provided `head` has not
  moved since they loaded it (`CheckpointTestExact`); every ring gets there (`RaceArises`, `RaceFromStart`).
- A producer checks for space before its compare-and-swap, which sees residues only.  If the watermark goes round once
  in between, the swap succeeds; that is harmless while a slot is free, and on a full ring it reserves one slot too
  many, after which the ring looks empty (`ReserveExactly` and `LapRace`, in `StreamRing` and in `Submitter`).
- The same check can fail on an empty ring: with a watermark read a lap ago the ring looks full, and the caller submits
  its bio itself (`Submitter.FullExactly`, `StaleAlone`).
- A stream starts with `committed` at 0, so until its first commit no entry inside a transaction opens one
  (`StreamRing.NothingOpensFirst`).
- On a stream the races above need two threads.  The sync path of MQFS takes the stream's mutex before it submits and holds
  it over commit and flush (mqfs/filemap_compat.c:14-40, mqfs/fsync.c:120-155 and 251-308), so they need a caller
  outside it; the stream functions themselves do not ask for the mutex.  A submitter's ring is shared by all streams.
- The comment above `ext4_ext_convert_to_initialized` promises that the returned number of blocks is initialized.  That
  holds exactly under `ExtentConvert.CountHonest`.
- Migration stores the length of a run in 16 bits.  A run of more than 32768 blocks becomes a shorter extent, an
  unwritten one, or an error; the migration is faithful if and only if there is none (`Migrate.Migration.WalkInode`,
  `Migrate.LongExample`).
- The test before a left shift compares unsigned differences.  It tells whether a block to move over is mapped exactly
  when no extent straddles the start; one that does is never seen (`ExtentCollapse.RefusedExactly`, `StraddleExample`).
  A collapse has removed the blocks before the start and cannot reach such a state (`CollapseRange`).
- `ext4_ext_remove_space` compares the entry count of the root with a physical block number left in `p_block`.  It works
  because no tree block lies among the first blocks of the device, which the model makes part of the tree's invariant.
- The journal index keeps the first of several writes with the same transaction id, not the last.

## Model

| member | source | states |
|---|---|---|
| TransactionScanner.CommitWrite | ccnvme/checkpoint.c:102-140 | for every ring, head and flushed pointer there is an increasing list of log positions, exactly those with a journal block strictly between a BEGIN and the first END after it, whose entries are what is handed over, once each, in log order and under the END's id; nothing of an unmatched BEGIN is |
| TransactionScanner.HandOver | ccnvme/checkpoint.c:131-136 | the inner wrapped loop hands over the journalled entries between two slots of the linearised log |
| TransactionScanner.JournalledExactly | ccnvme/checkpoint.c:131-136 | those are the entries at an increasing list of positions: exactly the ones between the two whose journal block is not 0 |
| TransactionScanner.DeliveryExactly | ccnvme/checkpoint.c:102-140 | the same over all transactions of a log: the positions are exactly those with a journal block inside some transaction, each entry under the id of its own |
| TransactionScanner.CutUnique | ccnvme/checkpoint.c:102-140 | a log falls into complete transactions and an unmatched rest in one way only, so the scanner's result is determined |
| RingMacros.MacrosExact | ccnvme/horae.h:41-43 | on a window shorter than a lap, wrapped or not, the macros count exactly the free and the used slots |
| RingMacros.SameSlot | ccnvme/horae.h:41-43 | two positions less than a lap apart share a slot exactly when they are equal |
| StreamRing.RunKeeps | ccnvme/horae.c:112-209 | over every lawful run, from the empty stream, of any number of producers and flushes, truncations and checkpoints: head <= flushed <= tail <= watermark < head + size, published slots hold complete entries in reservation order, every outstanding reservation is held by its producer, and every finished entry inside a transaction says BEGIN if and only if its tag was the first stored for such an entry after a commit; from any point of the run to its end no pointer goes back |
| StreamRing.StepKeeps | ccnvme/horae.c:112-209 | each lawful atomic step keeps that invariant and only moves pointers forward |
| StreamRing.PublishKeeps | ccnvme/horae.c:185 | the wait on residues lets a producer publish only when the tail has reached its own position |
| StreamRing.LeavesPublished | ccnvme/horae.c:127-185 | a call keeps its request through every retry, and ends only by publishing the reservation made for it at the position that was the tail |
| StreamRing.ReserveExactly | ccnvme/horae.c:127-140 | the reservation step keeps the invariant if and only if its compare-and-swap fails or a slot is still free, whatever lap the watermark was read in |
| StreamRing.PromptReserve | ccnvme/horae.c:127-140 | a slot is free whenever the watermark is still the one read before the check |
| StreamRing.LapRace | ccnvme/horae.c:127-140 | in every ring of two slots or more a lawful run from the start leads to a producer that passed its check a lap ago and now reserves one slot too many: the ring is full and the macro counts it as empty |
| StreamRing.MarkLandsFree | ccnvme/horae.c:67-72 | written to the slot of a tail loaded at any time before, the TX_END mark misses every live slot if and only if that slot is, counted from head, behind all slots in use; for a tail just loaded, if and only if no reservation is outstanding |
| StreamRing.MarkWriteExactly | ccnvme/horae.c:67-73 | the store of the mark keeps the invariant if and only if its slot holds no entry with another tag that is published or finished |
| StreamRing.TagTells | ccnvme/horae.c:151-159 | in every run, the tag stored for an entry inside a transaction is BEGIN if and only if a commit was made earlier and no such tag stored since |
| StreamRing.OpensExactly | ccnvme/horae.c:151-159 | and the slot of every finished entry inside a transaction, published or not, still says so |
| StreamRing.NothingOpensFirst | ccnvme/horae.c:528-536 | before the first commit of a run no finished entry inside a transaction says BEGIN |
| StreamRing.MarkRace | ccnvme/horae.c:63-73 | in every ring of two slots or more a lawful run from the start leads to a mark over a finished slot that breaks the invariant |
| StreamRing.LateMark | ccnvme/horae.c:67-72 | and another, that begins with the load of tail, to a mark over an entry published since, with no reservation outstanding at load or store |
| StreamRing.NoLiveSlotReused | ccnvme/horae.c:112-209 | no two live positions, and no live position and the next to be reserved, share a slot |
| StreamRing.FlushKeeps | ccnvme/flush.c:85-146 | each lawful step of a flush keeps the invariant, whatever other flushes are under way |
| StreamRing.FlushCheckExact | ccnvme/flush.c:103-106 | with head as loaded, a flush goes on if and only if an entry lies between head and tail |
| StreamRing.PointersKeep | ccnvme/checkpoint.c:378-483 | so does each lawful step of a truncation and of a checkpoint with its two tests and its own truncation, and no pointer goes back |
| StreamRing.TruncateOwn | ccnvme/checkpoint.c:378-399 | a checkpoint that finds entries flushed since head can truncate by lawful steps alone, and then head is flushed and nothing else has changed |
| StreamRing.FlushWriteExactly | ccnvme/flush.c:110-146 | storing flushed keeps the invariant and moves no pointer back if and only if no flush that read a later tail has stored it first |
| StreamRing.FlushRace | ccnvme/flush.c:110-146 | whenever an entry is published while a flush waits for its devices, a second flush and a truncation can overtake it and flushed ends up behind head |
| StreamRing.CheckpointHeadExact | ccnvme/checkpoint.c:438-483 | storing head after a checkpoint keeps the invariant if and only if no truncation has read an older flushed pointer |
| StreamRing.CheckpointTestExact | ccnvme/checkpoint.c:444-464 | with head as loaded, a test lets the checkpoint go on if and only if every slot is published |
| StreamRing.RaceArises | ccnvme/checkpoint.c:438-483 | whenever every slot is published and none flushed, the load of a truncation and the steps of a checkpoint, all lawful, lead to a store of head that is not |
| StreamRing.RaceFromStart | ccnvme/checkpoint.c:438-483 | every ring of two slots or more gets there by a lawful run from its start |
| StreamRing.CheckpointRace | ccnvme/checkpoint.c:438-483 | and from every such state the code can go on to reserve a full lap while head goes back under it |
| Submitter.RunDelivers | ccnvme/submitter.c:104-189 | over every lawful run, from the empty ring, of any number of producers and one delegator each bio is submitted exactly once or still queued or in flight, queued ones leave in reservation order, a bio its caller submitted never enters the ring, and a caller has submitted its own if and only if some step of the run was its check for space and failed |
| Submitter.StepKeeps | ccnvme/submitter.c:104-189 | each atomic step keeps the invariant behind it and only extends what was submitted |
| Submitter.InvExactlyOnce | ccnvme/submitter.c:145-189 | the invariant accounts for every call: in flight, in the ring's history, or done by its caller, one of them only |
| Submitter.AloneExactly | ccnvme/submitter.c:162-172 | a step adds a bio to those its caller submitted if and only if it is that caller's failing check, and a call ends only so or by publishing |
| Submitter.AloneOnlyIfFull | ccnvme/submitter.c:162-172 | over every prefix of a lawful run exactly the calls with a failed check have been submitted by their callers |
| Submitter.FullExactly | ccnvme/submitter.c:162-168 | the check fails if and only if the ring is full for the watermark read, or that lies behind head and its successor a whole number of laps; for a watermark that is current, if and only if the ring is full |
| Submitter.StaleAlone | ccnvme/submitter.c:162-168 | in every ring of two slots or more a lawful run from the start leads to an empty ring that a caller takes for a full one |
| Submitter.ReserveExactly | ccnvme/submitter.c:162-172 | the reservation step keeps the invariant if and only if its compare-and-swap fails or a slot is still free |
| Submitter.LapRace | ccnvme/submitter.c:162-172 | in every ring of two slots or more a lawful run from the start leads to a producer that passed its check a lap ago and reserves one slot too many, after which the full ring looks empty |
| StreamJournal.Journal.constructor | ccnvme/checkpoint.c:492-498 | a stream's region, and nothing handed out of it yet |
| StreamJournal.Journal.Alloc | ccnvme/checkpoint.c:237-283 | runs are handed out end to end, the pointer is reset exactly when the region is used up, and a request larger than the region is refused |
| StreamJournal.TilesDisjoint | ccnvme/checkpoint.c:237-283 | runs handed out between two resets are pairwise disjoint and inside the region |
| StreamJournal.RegionsDisjoint | ccnvme/checkpoint.c:492-498 | the regions of different streams never meet and all lie inside the journal |
| StreamJournal.ShardingInjective | ccnvme/horae.h:177-179 | shard and offset together determine the block |
| StreamJournal.ShardedIndex.Put | ccnvme/checkpoint.c:336-369 | seen as one map, the sharded index changes at one block only and keeps the entry of the greater transaction id |
| StreamJournal.ShardedIndex.PutAll | ccnvme/checkpoint.c:334-370 | the loop over a bio's blocks does that for each of them |
| StreamJournal.Replay | ccnvme/checkpoint.c:334-370 | any sequence of writes leaves the sharded index equal to the plain map they define |
| StreamJournal.GreatestTxidWins | ccnvme/checkpoint.c:356-367 | that map holds, for every block written, the first write among those of the greatest transaction id |
| StatusExtents.MergeSoundExactly | mqfs/extents_status.c:380-410 | every merge the rule allows for a status word leaves every block known as before if and only if the word, when it is mapped, is no hole and is delayed only if it is unwritten |
| StatusExtents.StoresIndependent | mqfs/extents_status.h:144-171 | on the packed word each store sets its part to the value given, cut to its width, and leaves the other part alone; storing both parts in either order is storing them at once |
| StatusExtents.WordRoundTrip | mqfs/extents_status.h:99-147 | status, referenced bit and block can be read back from the word of every extent |
| StatusExtents.KeepFrom | mqfs/extents_status.c:891-900 | adding to the packed word, flags included, and storing the sum as a block number moves the block and changes no flag |
| StatusExtents.Prepended | mqfs/extents_status.c:643-655 | so does storing the packed word of the new extent as the block of the grown one |
| StatusTree.TreeSearch | mqfs/extents_status.c:207-233 | the descent, whatever the shape of the tree, finds the extent that covers the block or the first one after it |
| StatusTree.Descend | mqfs/extents_status.c:779-837 | the lookup's descent finds the covering extent if there is one and otherwise nothing is known of the block |
| StatusTree.AgedExactly | mqfs/extents_status.c:1206-1222 | of the extents visited exactly those are left, in order, that are delayed or were referenced; the delayed ones as they were, the others without their mark |
| StatusTree.StatusTrees.InsertCore | mqfs/extents_status.c:632-682 | linking into a free range, or merging exactly if a neighbour allows it, adds exactly the new extent; it fails only for want of memory, with nothing changed, and never if there is memory |
| StatusTree.StatusTrees.Insert | mqfs/extents_status.c:690-739 | afterwards exactly the given status is on record for the range; on failure, which takes a want of memory, the old record stays, or for a delayed extent the range is forgotten |
| StatusTree.StatusTrees.Cache | mqfs/extents_status.c:746-770 | an extent is added only where nothing is known, and then always if there is memory; otherwise the record is unchanged |
| StatusTree.StatusTrees.Remove | mqfs/extents_status.c:944-970 | the range is forgotten, always if there is memory, or on failure the record is unchanged |
| StatusTree.StatusTrees.RemoveCore | mqfs/extents_status.c:839-937 | under any allocation failures the range is forgotten, or nothing is; either way other blocks lose at most what reclaim may drop, never a delayed one; every retry ends |
| StatusTree.StatusTrees.Lookup | mqfs/extents_status.c:779-837 | found if and only if the block is known, with exactly what is known, through the cached extent or the descent alike; the extent found is marked as referenced and nothing else changes |
| StatusTree.StatusTrees.FindDelayed | mqfs/extents_status.c:244-296 | the first delayed extent from the block on, and none only if nothing up to the end is delayed; an answer behind the end means that nothing is known before it |
| StatusTree.StatusTrees.DoReclaim | mqfs/extents_status.c:1187-1231 | the extents visited are the next ones from the cursor on that start at or before the end, as many as the budget allows; of these only the aged ones are left, all others stay, the number reported is how many went, and the cursor is at the extent not visited for want of budget, behind the end, or at 0 |
| StatusTree.StatusTrees.Reclaim | mqfs/extents_status.c:1233-1254 | both scans together: no other inode changes, no delayed extent goes, and if an extent neither delayed nor referenced is among the first extents the budget allows, from the cursor on and around, something is freed |
| StatusTree.StatusTrees.Walk | mqfs/extents_status.c:985-1027 | a walk meets every inode listed at its start once, passes over exactly the ones it may not or cannot lock, and stops early only for want of budget |
| StatusTree.StatusTrees.Shrink | mqfs/extents_status.c:972-1058 | over all inodes nothing delayed is dropped, nothing new is known, counters and shrink list stay exact, and the loop ends; if nothing is freed, then no inode the first walk could lock, none only the second could, and last not the caller's own had anything to drop within the budget left for it; inodes passed over stay as they are while the first walk frees something, and the caller's own is touched only if no other lost an extent |
| StatusTree.StatusTrees.Scan | mqfs/extents_status.c:1072-1090 | the number returned is the number of extents gone, and it is 0 only if nothing could be dropped; asked to scan nothing it returns the counter and changes nothing |
| StatusTree.StatusTrees.CountAlloc | mqfs/extents_status.c:328-354 | the counters follow an allocation, and an inode is listed exactly when it has reclaimable extents |
| StatusTree.StatusTrees.CountFree | mqfs/extents_status.c:356-371 | the same for freeing |
| StatusTree.StatusTrees.Run | mqfs/extents_status.c:244-1090 | over every sequence of insertions, cachings, removals, lookups, searches and scans, under any allocation failures, the lists stay sorted and disjoint and agree with the reference map, except that blocks not delayed may be missing |
| ExtentLists.EncodingRoundTrip | mqfs/ext4_extents.h:126-203 | length and state survive the 16-bit encoding exactly up to 32768 written and 32767 unwritten blocks |
| ExtentLists.MergeSound | mqfs/extents.c:1716-1758 | extents the rule allows to merge map the same blocks as the merged one, which is encodable |
| ExtentLists.MergeRight | mqfs/extents.c:1767-1802 | absorbing right neighbours changes no mapping and keeps the list sorted; something is absorbed if and only if the first neighbour allows it, and the next one left does not |
| ExtentLists.TryMerge | mqfs/extents.c:1853-1872 | the extent goes into its left neighbour if and only if that allows it, and what it became cannot absorb its right neighbour; no mapping changes |
| ExtentNodes.BinSearchIdx | mqfs/extents.c:730-783 | the last index entry whose key is not beyond the block, or the first |
| ExtentNodes.FindExtent | mqfs/extents.c:860-941 | at every depth the path and the place in the leaf a block belongs to |
| ExtentNodes.StoreFlat | mqfs/extents.c:1659-1714 | storing a leaf and correcting the keys above it changes nothing else in the tree |
| ExtentNodes.StoreShaped | mqfs/extents.c:1659-1714 | and every index key is the first block below it again |
| ExtentSplit.SplitAtFlat | mqfs/extents.c:1024-1255 | splitting at any level keeps all extents in order |
| ExtentSplit.SplitAtAddrs | mqfs/extents.c:1024-1255 | and uses exactly the newly allocated tree blocks |
| ExtentSplit.SplitAtShaped | mqfs/extents.c:1024-1255 | and leaves every node within capacity, not empty and correctly keyed |
| ExtentTree.NextLeafExact | mqfs/extents.c:1628-1651 | the block returned is the first of the next leaf, none if there is none |
| ExtentTree.NextAllocatedExact | mqfs/extents.c:1594-1622 | the block returned is the first of the next extent in the whole tree |
| ExtentTree.ExtentTree.constructor | mqfs/extents.c:847-858 | an empty tree |
| ExtentTree.ExtentTree.MergeUp | mqfs/extents.c:1808-1847 | a tree of one leaf block moves into the inode if and only if its extents fit there and credits allow it, and then exactly that block is freed; no extent changes |
| ExtentTree.ExtentTree.PutLeaf | mqfs/extents.c:2133-2147 | storing a changed leaf changes no mapping; the extents are the given ones, and without PRE_IO the given ones with the merges around the changed entry |
| ExtentTree.ExtentTree.Grow | mqfs/extents.c:1265-1340 | growing changes no extent and the path still leads to the same leaf |
| ExtentTree.ExtentTree.CreateNewLeaf | mqfs/extents.c:1347-1410 | the extent is added, and after growing the tree the loop repeats at most once |
| ExtentTree.ExtentTree.Insert | mqfs/extents.c:1931-2150 | through append, prepend, in-leaf shift, next leaf, split at any level or growth the map becomes the old one plus the new extent, and the tree stays well formed; an extent of length zero is refused |
| ExtentEdits.SplitExtentAt | mqfs/extents.c:3167-3296 | only the states of the blocks of one extent change, as asked for on either side; without merging the list of extents changes in that place only |
| ExtentConvert.SplitExtent | mqfs/extents.c:3309-3379 | exactly the requested blocks inside the extent become written in place |
| ExtentConvert.TryTransfer | mqfs/extents.c:3443-3558 | a neighbour takes the blocks exactly when the conditions of the source hold, and then exactly those blocks become written in place |
| ExtentConvert.ZeroAndSplit | mqfs/extents.c:3559-3636 | the blocks converted and the number returned are fixed by the extent, the request and the zeroout limit alone: the request if the head of the extent was zeroed too, and otherwise all up to the end of the extent; everything made written beyond the request was zeroed, lies in the extent and before the end of the file |
| ExtentConvert.Convert | mqfs/extents.c:3401-3637 | at least the request becomes written, no block moves, all else made written was zeroed; the number returned is the request if a neighbour took it and otherwise as above; when it is at least the request and when it is written up to its end, each if and only if |
| ExtentConvert.CountOverstated | mqfs/extents.c:3396-3400 | an extent and a request inside it that fail the exact condition for the returned number of blocks to be written |
| ExtentRemove.KeptAndFreed | mqfs/extents.c:2608-2793 | what a removal keeps maps the blocks outside the range as before, what it frees maps those inside it, each block once |
| ExtentRemove.RmLeaf | mqfs/extents.c:2608-2793 | the right-to-left loop over a leaf keeps and frees exactly that, for holes and truncation |
| ExtentRemove.RemoveLeft | mqfs/extents.c:2960-3021 | going left over the entries of a node and stopping at the first one that survives leaves nothing of the range behind, and every emptied node is freed |
| ExtentRemove.RemovePath | mqfs/extents.c:2923-3022 | the same for a walk that starts inside the tree, with what the source notes at each level of the path |
| ExtentRemove.CutEnd | mqfs/extents.c:2836-2898 | the extent across the end of the hole is cut without changing a mapping |
| ExtentRemove.RemoveSpace | mqfs/extents.c:2816-3064 | at any depth the map becomes the old one minus the range, exactly its physical blocks are freed once each, emptied tree blocks are freed, and the tree stays well formed |
| ExtentCollapse.ShiftLeaf | mqfs/extents.c:5237-5312 | moving the rest of a leaf and merging on the way maps what moving alone would, and no moved extent is left that could be merged with the one before it |
| ExtentCollapse.RefusedExactly | mqfs/extents.c:5349-5369 | for every list of extents the test refuses exactly when a block to move over is mapped, if and only if no extent straddles the start |
| ExtentCollapse.StraddleExample | mqfs/extents.c:5365-5366 | an extent across the start that the test does not see |
| ExtentCollapse.ShiftOnce | mqfs/extents.c:5393-5436 | one round moves the rest of one leaf or skips one hole, and always makes progress |
| ExtentCollapse.ShiftExtents | mqfs/extents.c:5321-5441 | everything from the start on is found lower by the shift, all else is unchanged |
| ExtentCollapse.CollapseRange | mqfs/extents.c:5547-5566 | after collapsing [p, q) block l maps as before if l < p and as block l + (q - p) did otherwise, states included, and the removed blocks are freed; the shift is never refused |
| ExtentSwap.HoleStep | mqfs/extents.c:5838-5864 | at a hole both positions move on to the farther of the starts of the next extents in the two lists, within the range; the swap is over exactly if one of the files has no further extent |
| ExtentSwap.StepByStarts | mqfs/extents.c:5838-5864 | the step at a hole reaches an offset if and only if in both lists an extent starts behind the hole and not behind that offset |
| ExtentSwap.PlainRule | mqfs/extents.c:5838-5864 | where a stretch starts in a hole (at the start of the range, behind an exchanged block, or where the last step ended) no offset is exchanged up to which only one file, or none, has an extent starting; where it starts mapped, every offset up to the next hole is |
| ExtentSwap.SwapPair | mqfs/extents.c:5912-5950 | two extents of equal length exchange their blocks; the first file keeps its state, the second gets the one asked for |
| ExtentSwap.SwapStep | mqfs/extents.c:5807-5958 | each round exchanges, skips nothing but holes and blocks in a row with those opposite the hole, finishes, or brings the extents closer to equal length, so the loop ends and the length mismatch never arises |
| ExtentSwap.SwapExtents | mqfs/extents.c:5786-5960 | at each offset the files' blocks are exchanged or both untouched, the result counts the exchanged offsets, nothing outside changes, and an offset is passed over only if it lies in a hole or its block continues, physically in a row and in one state, one that lies opposite a hole; where no extent continues the one before it, exactly the offsets are exchanged that the two old lists and their next starts give, by the rule of the stretches |
| ExtentSwap.NextStays | mqfs/extents.c:5843-5850 | in such a list the next extent behind the position is where it was, whatever has been cut, exchanged and merged before the position |
| ExtentSwap.MappedExactlySwapped | mqfs/extents.c:5786-5960 | if no such row crosses the end of a hole, exactly the offsets mapped in both files are exchanged |
| ExtentSwap.NoHolesAllSwapped | mqfs/extents.c:5786-5960 | ranges without holes are exchanged completely |
| Delalloc.FindDelallocRange | mqfs/extents.c:3827-3843 | true if and only if some block of the range is delayed |
| Delalloc.ReservedClusters | mqfs/extents.c:3890-3928 | the number of clusters touched by the range that hold no delayed block outside it, for every cluster ratio |
| GapCache.DetermineHole | mqfs/extents.c:2314-2341 | the hole returned holds the block, is not mapped, and ends at the next mapped block; it starts behind the last mapped block before it, or at the block if there is none, or at 0 in an empty file |
| GapCache.CacheGap | mqfs/extents.c:2348-2365 | what is recorded as a hole is disjoint from every mapped and every delayed block, reaches to the end of the hole or the first delayed block, and no delayed range is lost; if there is memory it is recorded |
| IndirectPath.BlockToPath | mqfs/indirect.c:74-112 | a path exists if and only if the block is in range, it leads to the block, and the boundary count is exactly how far its last offset can grow |
| IndirectPath.PathOrder | mqfs/indirect.c:74-112 | paths are ordered like the blocks they lead to, and no two lead to one block |
| IndirectTree.GetBranch | mqfs/indirect.c:144-188 | the pointers on the way down to the block or to the first null one |
| IndirectTree.CountHole | mqfs/indirect.c:570-573 | the sum over the remaining offsets is the distance to the end of the missing subtree |
| IndirectTree.HoleExact | mqfs/indirect.c:560-578 | below a missing pointer every block from the one looked up to the end of the subtree is unmapped, and the next belongs to another subtree |
| IndirectTree.MapBlocks | mqfs/indirect.c:515-578 | a run of blocks mapped in a row, as long as the pointer block and the request allow, or the hole up to the end of the missing subtree |
| IndirectTruncate.FreeData | mqfs/indirect.c:904-974 | freeing in runs frees every block pointed to once and in order, and clears the pointers |
| IndirectTruncate.FreeBranches | mqfs/indirect.c:989-1099 | every block of the branches is freed once, and the pointers are cleared |
| IndirectTruncate.FindShared | mqfs/indirect.c:769-816 | the lowest level of the branch that survives the cut: above it everything does, below it nothing |
| IndirectTruncate.CutIsKeep | mqfs/indirect.c:769-816 | cutting by offsets is keeping by block numbers: a pointer block stays exactly if it holds a pointer below the cut |
| IndirectTruncate.KeepMap | mqfs/indirect.c:1101-1201 | what is kept maps every block below the cut as before and none from it on |
| IndirectTruncate.TruncateBranch | mqfs/indirect.c:1148-1176 | the branch across the cut becomes what is kept of it, and the rest of its blocks is freed once each |
| IndirectTruncate.IndirectFile.constructor | mqfs/indirect.c:1101-1113 | a file given by its pointers |
| IndirectTruncate.IndirectFile.Truncate | mqfs/indirect.c:1101-1201 | every block below the new end keeps its mapping, every other loses it, and the blocks freed and those still in the tree are together the old ones, once each |
| MigrateRuns.LongExactly | mqfs/migrate.c:85-108 | some run collected is too long for an extent if and only if 32769 blocks in a row are physically in a row |
| MigrateRuns.FaithfulExactly | mqfs/migrate.c:21-83 | for every file the extents stored for its runs map exactly the file if and only if no run is too long |
| Migrate.AnyFile | mqfs/migrate.c:522-554 | every list of block numbers of the right length is what the walk sees of some inode |
| Migrate.LongFile | mqfs/migrate.c:522-554 | for every length there is an inode that is one run of it, and the run is too long from 32769 blocks on |
| Migrate.LongExample | mqfs/migrate.c:31-34 | an inode of 32769 blocks in a row, for which one unwritten block is stored |
| Migrate.Migration.constructor | mqfs/migrate.c:520-522 | nothing collected and nothing stored |
| Migrate.Migration.FinishRange | mqfs/migrate.c:21-83 | the run at hand is stored behind all others, or an error is returned and some run is too long |
| Migrate.Migration.Update | mqfs/migrate.c:85-108 | with the new block seen, the runs stored and the run at hand are again the maximal runs of the blocks seen, or an error is returned and some run is too long |
| Migrate.Migration.UpdateTree | mqfs/migrate.c:110-197 | the walk over a pointer tree of any height sees every block below it in order, holes included |
| Migrate.Migration.WalkInode | mqfs/migrate.c:522-558 | the migration succeeds and maps exactly the old file, holes included, if and only if no 32769 blocks in a row are physically in a row |
| Migrate.MigratedMap | mqfs/migrate.c:522-558 | after a faithful migration the path through the pointer blocks and the extents lead every block to the same place |

## Left out

- End-to-end crash atomicity: the TX_END entry is written at the tail without advancing it and nothing fills in an entry's transaction id, so the code does not decide it; the ring and the scanner are modelled separately.
- StreamRing.RunKeeps: holds for lawful runs; each of the four conditions is shown to be exactly what its step needs.  Clearing and setting a slot's tag is one store, and `committed` is read or set in the same step.
- Submitter.RunDelivers: holds for runs in which no producer's compare-and-swap succeeds on a full ring, which is shown to be exactly what the step needs.  Sleeping and waking the delegator, and so whether a queued bio is ever submitted, is not modelled.
- The no-op and test functions of ccNVMe, the DISABLE_MQ_JOURNAL and DISABLE_TX_DOORBELL variants, crash recovery I/O, the CMB mapping and debugfs.
- Removal of index entries when journalled blocks are written back (`commit_write_entry_per_stream`).
- Cluster ratios above 1 in extent removal (partial-cluster bookkeeping), and the fallback that zeroes an extent when a split finds no space; metadata allocation for the extent tree succeeds in the model.
- Journal credits and the restarts they cause (`-EAGAIN`), and the depth check in `ext4_find_extent`.
- Right shift (insert range), and `ext4_ind_remove_space`: more cases for the same kind of claim.
- ExtentTree.ExtentTree.PutLeaf: whether journal credits allow moving the leaf into the inode is a free choice here.
- StatusTree.StatusTrees.Shrink: one thread at a time, so the list cannot become empty under a walk; the statistics are not modelled.
- ExtentRemove.RemoveSpace: the source's own stack of levels is the call stack of the model, and the error for an extent across the end of the range does not arise because that extent has been cut.
- ExtentSwap.SwapExtents: how much of a row opposite a hole is passed over depends, if the row is cut into several extents, on which of them share a leaf and have been merged; there only the bound is stated.  The count is at most 32767, the longest unwritten extent (the callers swap within one page), and the two files are different.
- IndirectTruncate.IndirectFile.Truncate: a value tree, so two pointers to one block are two branches; block validity checks and read errors are not modelled, and a file cut at the format's limit is taken to hold nothing beyond it, as the source does.
- Migrate.Migration.WalkInode: physical blocks have 32 bits and the format's limit is at most EXT_MAX_BLOCKS; replacing the inode's data and freeing the pointer blocks afterwards is not modelled.
- ExtentCollapse.ShiftExtents: only for a shift not greater than its start and no extent across the start, which a collapse has made sure of; across such an extent the test is wrong, and what the loop then does to the tree is not modelled.
- StatusTree.StatusTrees.Run: mapped status words that are holes, or delayed without being unwritten, are not inserted; the merge rule is unsound for exactly these.
- The red-black tree behind the status lists: the descent may take any element of the remaining range as its next node.
- Page cache, buffer heads, bios, locks, quotas, checksums, block validity tables, radix-tree internals.
- ACLs, extended attributes, inline data, multi-mount protection, inode allocation, ioctls, fsmap, directory code.
