# ext4 block mapping in Dafny

The project models how ext4 maps the blocks of a file, and states what each operation does to
that map as a whole. Extents and indirect blocks are two representations of one thing, a partial map
from logical to physical blocks; the operations of both are related to that flat map, and every block
they take or give back is counted.

- `Extents`, `ExtentTree`, the other `Extent*` modules and `ExtentWitness`: the extent tree of `ext4/extents.c`. It is an
  inductive value in the field `root` of the class `Inode`; `Flat(root)` lists its extents, `At(Flat(root), b)` is the
  map. `Valid()` says that the tree is balanced, within capacity, sorted, and that every index key is the first
  block below it. `Held(b)` counts a tree block in the tree, in the allocator's pool and in the log of freed blocks.
- `StatusMap`, `StatusTree`, `ReservedClusters`: the extent status tree of `ext4/extents_status.c` and its use for
  reserved clusters. Memory for a node may run out at any time, and reclaim may then drop entries.
- `IndirectPath` to `IndirectMap`: the indirect blocks of `ext4/indirect.c`.
- `MigrateRuns`, `Migrate`, `MigrateWitness`: the migration of `ext4/migrate.c` from the one to the other.
- `PageIo`, `PageIoRuns`: the io_end protocol of `ext4/page-io.c` as a state machine, and all its interleavings.
- `Acl`: the ACL encoder and decoder of `ext4/acl.c`.
- `Balloc`, `Bitmap`: the free clusters of a group, from the descriptor and from the bitmap (`ext4/balloc.c`,
  `ext4/ialloc.c`).
- `Wrappers`, `Blocks`, `Arithmetic`: what the others share.

Code that changes things in place is a class or a method with loops, proved against functions and predicates on
values; the allocator, the journal's answer to a request for more credits, failing I/O and failing memory allocation
are parameters or free choices. A pool that is a finite list of blocks stands for the allocator, so that running out of
space can be told from giving up.

## Findings

Eight things that the code or its comments suggest do not hold. Each has a concrete input and the exact condition.

- The comment at ext4/extents.c:3998-4001 says that converting an unwritten extent returns a number of blocks that are
  initialized. The number may reach beyond them: `ExtentWitness.AnswerTooLong` converts three of ten blocks and gets
  eight. `ExtentConvert.ConvertToInitialized` says exactly when all counted blocks are written.
- The comment at ext4/extents.c:2460-2466 says that the extent on the right or on the left is tried so that merging is
  more effective. A new extent that touches the one before it, without going on where that one ends, is not tried
  against the one behind it. If the leaf is full, it takes an entry of its own or there is no space, although one
  entry could hold both: `ExtentWitness.MergeLeftOut`. `ExtentInsert.Inode.InsertExtent` says exactly when extents that
  go on with each other are merged.
- Without space for a split, the blocks that hold no data are zeroed and the extent turns written as a whole. For the
  cut behind the request only the blocks behind it are zeroed. The blocks in front of it then read as written with what
  was on the disk before, even though the call may fail: `ExtentWitness.StaleHead` has a full root and no free blocks.
  `ExtentConvert.StaleIff` and `ExtentConvert.ConvertToInitialized` say that this happens iff that cut runs out of
  space and there are blocks in front of the request that were not zeroed for being few.
- `ext4_es_can_be_merged` promises equal status and contiguous blocks. For entries that are both delayed and written it
  merges without looking at the physical blocks: `StatusMap.MergeSoundIffSane`. The operations of the status tree are
  stated for the other kinds.
- An io_end that is flagged unwritten and loses its last reference to `ext4_put_io_end_defer` while its size is 0 runs
  into the BUG_ON of `ext4_release_io_end`: `PageIoRuns.UnsizedRun`. `PageIoRuns.RunInv` shows that this is the only way
  to hit a BUG_ON.
- Migration stores the length of a run in 16 bits. A file with more than 0x8000 contiguous blocks is mapped wrongly, and
  one with a run whose length is a multiple of 0x10000 is never migrated: `MigrateWitness.LosesBlocks`,
  `Migrate.Migrator.Migrate`.
- An ACL with a named entry and no mask is written, and the result is refused when it is read: `Acl.NamedWithoutMask`,
  `Acl.RoundTripIff`. No list that is valid by section 23 of the withdrawn POSIX 1003.1e draft 17 is of that kind:
  `Acl.ValidRoundTrip`.
- If both bitmaps of a group are in one cluster that is not among or right behind its base clusters, the free count from
  the descriptor is one less than the number of zero bits: `Balloc.SharedCluster`, `Balloc.FreeMatchesBitmap`.

## Model

| member | source | states |
|---|---|---|
| ExtentSearch.BinSearchIdx | ext4/extents.c:996-1062 | finds the entry that a linear scan finds: the last key not above the block, or the first entry |
| ExtentSearch.BinSearchExt | ext4/extents.c:1073-1129 | the same for a leaf; no extent exactly for an empty leaf |
| ExtentSearch.FindExtent | ext4/extents.c:1150-1241 | on every level the closest index, in the leaf the closest extent, none for an empty leaf |
| ExtentSearch.Bracket | ext4/extents.c:1150-1241 | in a valid tree all extents right of where the descent lands start after the block, and unless it lands leftmost the node starts at or before it |
| ExtentSearch.BracketFollows | ext4/extents.c:1150-1241 | conversely, a position with those two properties is where the descent lands |
| ExtentNeighbours.FoundIff | ext4/extents.c:1150-1241 | the extent found covers the block iff the block is mapped, and then gives its physical block and state |
| ExtentNeighbours.SearchLeft | ext4/extents.c:1811-1876 | the nearest mapped block to the left with its physical block; nothing iff no block up to here is mapped; corrupt iff the block itself is mapped |
| ExtentNeighbours.SearchRight | ext4/extents.c:1893-2013 | the same to the right, across leaves |
| ExtentNeighbours.NextAllocatedBlock | ext4/extents.c:2027-2060 | the start of the next extent in file order, or the end of the block range |
| ExtentNeighbours.NextLeafBlock | ext4/extents.c:2083-2107 | the first block of the next leaf, or the end of the block range |
| ExtentMerge.MergeTwo | ext4/extents.c:2194-2246 | two extents that pass the merge test map and own the same as one extent |
| ExtentMerge.CanMergeIff | ext4/extents.c:2194-2246 | the merge test holds iff the second extent has the next logical and the next physical block and the same state, the sum of the lengths is at most 0x8000, or 0x7fff if unwritten, and no write is in flight to unwritten ones |
| ExtentMerge.TryToMergeRight | ext4/extents.c:2258-2296 | merging keeps the map and the owned blocks, makes no extent start anew, goes on as long as possible, and reports a merge iff the first pair could be merged |
| ExtentMerge.TryToMerge | ext4/extents.c:2347-2367 | starts at the left neighbour iff that one can take the entry, and leaves nothing to merge to the right; the leaf gets shorter iff the entry goes on with a neighbour, and is the same otherwise |
| ExtentInsert.Inode.constructor | ext4/extents.c:1134-1145 | an empty leaf in the inode is a valid tree with the empty map |
| ExtentInsert.Inode.AllocBlocks | ext4/extents.c:1408-1417 | takes all blocks it needs, or empties the pool and gives back what it took |
| ExtentInsert.Inode.Split | ext4/extents.c:1351-1604 | the tree becomes the one with a new branch right of the path from the free index on; on failure nothing changes but the pool |
| ExtentSplit.SplitTreeFlat | ext4/extents.c:1351-1604 | that tree lists the same extents, with the two halves of the leaf in place of the leaf |
| ExtentSplit.SplitTreeFits | ext4/extents.c:1351-1604 | it is balanced and within capacity |
| ExtentSplit.SplitTreeUses | ext4/extents.c:1351-1604 | it uses exactly the new blocks more |
| ExtentInsert.Inode.GrowInDepth | ext4/extents.c:1618-1709 | one level more, one pool block less, the same extents; fails iff the pool is empty |
| ExtentInsert.Inode.CreateNewLeaf | ext4/extents.c:1719-1798 | a leaf with room where the new extent belongs, the same extents, at most one level more; fails only with an empty pool |
| ExtentInsert.Inode.CorrectIndexes | ext4/extents.c:2127-2189 | after the first extent of a leaf changed, every key on the path is the first block below it again |
| ExtentInsert.Inode.TryToMergeUp | ext4/extents.c:2302-2341 | a single leaf that fits into the inode moves there and its block is freed iff there are credits; otherwise nothing changes |
| ExtentInsert.Inode.InsertExtent | ext4/extents.c:2429-2660 | the map gains exactly the new extent; the tree stays valid, at most one level deeper; no tree block is lost; the number of extents does not grow if the new one goes on with the entry found or with the one behind it, unless it touches the former without going on there, and in that case iff the leaf has room or can move out of the inode; where it joins two entries there is one less; no block is taken if a neighbour takes it or the next leaf has room; with credits no tree of one small leaf is left; refuses only an empty extent, and runs out of space only if the leaf is full and the pool runs empty, which was then smaller than depth plus two, and always if the leaf is the root and the pool was empty, unless an entry takes the extent |
| ExtentModify.SplitExtentAt | ext4/extents.c:3753-3892 | the two parts get the given states and keep their blocks, and are merged with their neighbours exactly as an insertion would, unless the pre-I/O flag is set; without space and with leave to zero, the part without data is zeroed and the whole turns written; on any failure the extents are as before |
| ExtentModify.ForceSplitAt | ext4/extents.c:436-447 | the extent is cut in two with its state, and the map is the same |
| ExtentRemove.TrimLeaf | ext4/extents.c:3152-3350 | a leaf loses exactly the range and the log gains exactly its blocks; refused iff an extent that starts in or before the range reaches beyond its end |
| ExtentCut.CutMap | ext4/extents.c:3152-3350 | cutting the range from a list of extents removes exactly its blocks from the map |
| ExtentWalk.RmIdx | ext4/extents.c:2907-2957 | an empty node is taken out, its block freed, and the keys above corrected |
| ExtentRemoveSpace.RmLeaf | ext4/extents.c:3152-3350 | a leaf in the tree loses the range, with keys corrected |
| ExtentRemoveSpace.RemoveSpace | ext4/extents.c:3373-3648 | the map loses exactly the range; in a file without shared blocks each block of the range is freed once and no other; a tree block is freed iff nothing is left below it; fails only with an empty pool, and then changes no extent |
| ExtentPrune.PruneFlat | ext4/extents.c:3373-3648 | the tree without the nodes below which nothing is left lists exactly what is left of the extents |
| ExtentPrune.PruneDone | ext4/extents.c:3373-3648 | a valid tree that maps nothing of the range has no such node |
| ExtentRemoveSpace.FreedExactly | ext4/extents.c:3373-3648 | conservation of blocks and the cut map together make the freed blocks exact |
| ExtentShift.ShiftLeaf | ext4/extents.c:5939-6019 | the extents of a leaf from an entry on move down by the shift, up to merging, and none of them goes on where the one before it ends any more |
| ExtentShift.ShiftPath | ext4/extents.c:5939-6019 | the same in the tree, with all keys above corrected |
| ExtentShift.RefusedRight | ext4/extents.c:6028-6165 | the test, done in 32-bit arithmetic, refuses exactly the shifts into a range that is not free |
| ExtentShift.ShiftExtents | ext4/extents.c:6028-6165 | succeeds iff the range before the start is free; then every block from the start on is mapped lower by the shift and no block is lost |
| ExtentShift.CollapseRange | ext4/extents.c:6278-6287 | block b maps to what b, or b plus the length of the range, mapped to |
| ExtentSwap.Exchange | ext4/extents.c:6652-6690 | two extents of one length trade their blocks, states as the flag asks, and nothing else changes |
| ExtentSwap.SwapExtents | ext4/extents.c:6519-6698 | exactly the marked offsets, all mapped in both files, have traded blocks and their number is returned; the walk exchanges every offset it comes to or finds a hole there, and then goes on exactly where both files have reached the extent that covers or follows the offset, or at the end of the request; it ends early only at a hole behind which one of the files has no extent; both files together own what they owned; fails only if a pool is empty |
| ExtentSwap.LostStart | ext4/extents.c:6519-6698 | an extent that the walk no longer finds where it started continued the one before it |
| ExtentConvert.SplitExtent | ext4/extents.c:3905-3981 | exactly the wanted blocks change state; or, where zeroing takes the place of a cut, the whole extent or its part up to the end of the request turns written |
| ExtentConvert.StaleIff | ext4/extents.c:3905-3981 | every block that turned written is one of the wanted ones or was zeroed, unless zeroing took the place of the cut behind them and the extent starts before them |
| ExtentConvert.PlanZeroout | ext4/extents.c:4185-4237 | which blocks are zeroed, which converted, the number returned, and that it fails iff a zeroing it needs fails |
| ExtentConvert.ConvertToInitialized | ext4/extents.c:4003-4252 | which range around the request turns written, and that all of it outside the request was zeroed before, unless the cut behind the request runs out of space and blocks in front of it are not zeroed; nothing is zeroed unless the extent ends within the file or the request, and no block from there on turns written; if it ends within the file, no neighbour takes blocks and the rest of it is within the zeroing limit, all of the rest turns written; the returned number counts written blocks only iff a neighbour takes the blocks, the zeroing limit allows it, or that cut runs out of space; it fails iff a zeroing it needs fails, or with an empty pool |
| ExtentWitness.AnswerTooLong | ext4/extents.c:4003-4252 | the returned number may count unwritten blocks: a call on an extent of ten blocks |
| ExtentWitness.StaleHead | ext4/extents.c:3753-3981 | a call after which two blocks are written that were neither requested nor zeroed |
| ExtentWitness.MergeLeftOut | ext4/extents.c:2456-2572 | an insertion into a full root that fails although the extent behind goes on where the new one ends |
| StatusMap.MergeSoundIffSane | ext4/extents_status.c:443-474 | the merge test is sound for a kind of entry iff it is not both delayed and written, nor a hole with blocks |
| StatusTree.EsTree.constructor | ext4/extents_status.c:221-225 | the empty tree is valid and knows nothing |
| StatusTree.EsTree.AllocNode | ext4/extents_status.c:391-417 | a new node, counters and shrinker list in step; or nothing changes |
| StatusTree.EsTree.FreeNode | ext4/extents_status.c:419-434 | one node less, counters and shrinker list in step |
| StatusTree.EsTree.InsertEs | ext4/extents_status.c:720-778 | the tree records the new entry over what it recorded, stays sorted, disjoint and merged as far as possible, and the cache points to a live node |
| StatusTree.EsTree.Insert | ext4/extents_status.c:786-837 | without failing allocation the tree records exactly the new state over the old; in any case every entry agrees with the last information recorded about its blocks, and nothing delayed is forgotten |
| StatusTree.EsTree.CacheExtent | ext4/extents_status.c:844-868 | records the entry iff nothing was known about any of its blocks |
| StatusTree.EsTree.Lookup | ext4/extents_status.c:877-942 | finds iff the block is recorded, and the entry returned says what is recorded about all its blocks; that node is marked as referenced, and nothing else changes |
| StatusTree.EsTree.RemoveEs | ext4/extents_status.c:944-1053 | the range is forgotten and nothing else, up to entries reclaimed when memory is short; on failure nothing but reclaimed entries is forgotten |
| StatusTree.EsTree.Remove | ext4/extents_status.c:1060-1086 | without failing allocation exactly the range is forgotten |
| StatusTree.EsTree.Shrink | ext4/extents_status.c:1088-1181 | drops no delayed entry, and each entry reclaimed is gone from a count; entries of this inode are reclaimed only if the others gave none, and then as far as what is left of the scan allows |
| StatusTree.EsTree.DoReclaim | ext4/extents_status.c:1311-1358 | scans the nodes from the last stop on up to the end or the number asked for: delayed ones stay, marked ones lose the mark, all others are freed; the next stop is the first node not scanned |
| StatusTree.EsTree.Reclaim | ext4/extents_status.c:1360-1381 | the number returned is that of the entries gone, none of them delayed, and the cache is cleared; a scan that is not cut short takes all marks off, and leaves only delayed nodes if there were none |
| StatusTree.EsTree.ReclaimTwice | ext4/extents_status.c:1360-1381 | two such scans leave only delayed nodes and return the number of the others |
| StatusTree.EsTree.FindDelayed | ext4/extents_status.c:299-357 | the first delayed entry from the block on, which the cache then points at; nothing only if no block of the range is delayed |
| StatusTree.EsTree.FindDelallocRange | ext4/extents.c:4446-4462 | true iff a block of the range is delayed |
| ReservedClusters.ReleasedTotal | ext4/extents.c:4509-4549 | the clusters of the range that hold no delayed block outside it are counted by looking at the two ends only |
| ReservedClusters.ReservedClusterAlloc | ext4/extents.c:4509-4549 | returns that number |
| IndirectPath.BlockPathBlock | ext4/indirect.c:74-112 | every block number below the limit has a valid path that leads back to it, and no other has one |
| IndirectPath.PathBlockPath | ext4/indirect.c:74-112 | every valid path is the path of its block number |
| IndirectPath.PathOrder | ext4/indirect.c:74-112 | paths are ordered as the block numbers |
| IndirectTruncate.GetBranch | ext4/indirect.c:144-188 | the first zero pointer on the path, or none |
| IndirectMap.CountZeroes | ext4/indirect.c:270-294 | as many zero pointers in a row as there are, up to the request and the pointer block |
| IndirectMap.BoundaryIff | ext4/indirect.c:74-112 | the boundary that comes with a path counts the blocks up to the next that starts an array of pointers: block 12 or a whole number of arrays behind it |
| IndirectMap.AllocBranch | ext4/indirect.c:323-396 | the missing indirect blocks and a run of data blocks, or everything is given back |
| IndirectMap.Splice | ext4/indirect.c:413-485 | the map gains exactly the run, and every block taken is in its place |
| IndirectMap.MapBlocks | ext4/indirect.c:515-656 | a found run lies in one array of pointers and ends with the request, with that array, or where the next block does not continue it; a hole ends with the request or with the last block below the missing pointer; the allocator is asked for the whole hole up to the request, the end of the array or a mapped block; what it gives is all that changes; out of range iff the number is; every block taken is in the file or given back |
| IndirectTruncate.FindShared | ext4/indirect.c:769-816 | the deepest pointer on the path whose block keeps a pointer left of the cut |
| IndirectTree.FreeData | ext4/indirect.c:904-974 | the pointers are cleared and exactly their blocks logged |
| IndirectTree.FreeBranches | ext4/indirect.c:989-1099 | the same for whole trees, indirect blocks included |
| IndirectTree.TruncMap | ext4/indirect.c:1101-1201 | truncating a tree at a path keeps the blocks before it and nothing else |
| IndirectFile.IndFile.Truncate | ext4/indirect.c:1101-1201 | the map is cut at the block; a data block is freed as often as a block from there on was mapped to it; an indirect block used once is freed iff no pointer is left in or below it |
| IndirectVals.CutHits | ext4/indirect.c:1101-1201 | cutting the map takes a block out of the tree as often as a block behind the cut was mapped to it |
| IndirectMeta.FileNodeKept | ext4/indirect.c:1101-1201 | truncation keeps an indirect block iff it keeps a pointer in or below it |
| IndirectVals.FileValsAt | ext4/indirect.c:74-112 | walking the trees in order gives the flat map |
| MigrateRuns.RunsOfFacts | ext4/migrate.c:85-107 | the runs collected are sorted, disjoint, cannot be joined, and hold exactly the mapped blocks |
| MigrateRuns.EncodedMapIff | ext4/migrate.c:21-83 | the extents made of the runs map the file iff it has no stretch of more than 0x8000 contiguous blocks |
| Migrate.Migrator.FinishRange | ext4/migrate.c:21-83 | the pending run is in the tree as its extent, or the failure has its reason |
| Migrate.Migrator.UpdateExtentRange | ext4/migrate.c:85-107 | the runs with the pending one are those of one block more |
| Migrate.Migrator.UpdateArray | ext4/migrate.c:109-193 | the runs are those of all blocks below the pointers more |
| Migrate.Migrator.Migrate | ext4/migrate.c:517-556 | on success the extent tree maps the file iff it has no stretch of more than 0x8000 contiguous blocks, and no run has a length that is a multiple of 0x10000; refuses only if one has; fails otherwise only with an empty pool |
| MigrateWitness.LosesBlocks | ext4/migrate.c:21-83 | a file of 65792 contiguous blocks followed by its indirect blocks, each number used once, is migrated without an error and mapped wrongly |
| PageIo.BugIff | ext4/page-io.c:123-137 | in a reachable state a step hits a BUG_ON iff it releases a flagged io_end of size 0 |
| PageIo.StepInv | ext4/page-io.c:123-345 | every step of every thread keeps the invariant: reference counts are the holders, chains hold each completed bio once, a waiting io_end is on exactly one list, histories fit phases, a list with entries has its work queued or a worker about to take it |
| PageIo.StepUnwritten | ext4/ext4.h:3239-3260 | i_unwritten is the number of flagged io_ends |
| PageIoRuns.RunInv | ext4/page-io.c:123-345 | a run hits a BUG_ON iff it drops a flagged io_end of size 0 by the deferred put, and otherwise keeps the invariant |
| PageIoRuns.UnsizedRun | ext4/page-io.c:262-271 | such a run exists |
| PageIoRuns.RunSafe | ext4/page-io.c:123-345 | in every run each io_end is released and converted at most once, converted before release iff flagged, and then no bio holds it or waits on it |
| PageIoRuns.FinishedAfterConversion | ext4/page-io.c:123-171 | a bio on a chain is finished only after the conversion of its io_end |
| PageIoRuns.ConvertedBeforeFinished | ext4/page-io.c:123-345 | in every run, if a bio that was submitted while its io_end was flagged has been finished, that io_end has been converted, once |
| PageIoRuns.RunHistory | ext4/page-io.c:123-345 | the records of conversions, releases, flags and sizes are what the steps of the run did |
| PageIoRuns.ConvertedByWorker | ext4/page-io.c:197-345 | in every run, an io_end that is not put by ext4_put_io_end is converted by the worker: the completion of a bio converts nothing |
| PageIoRuns.FreedUntouched | ext4/page-io.c:123-137 | no step reads or changes a released io_end |
| PageIoRuns.WaiterSeesConverted | ext4/ext4.h:3249-3260 | when i_unwritten is 0 every io_end that was flagged has been converted |
| PageIoRuns.DrainBound | ext4/page-io.c:197-345 | without new submissions a run is no longer than the work at its start |
| PageIoRuns.Progress | ext4/page-io.c:197-345 | until all is done some thread can take a step |
| PageIoRuns.DrainedOnce | ext4/page-io.c:123-345 | a run that cannot go on has released every io_end once, after one conversion iff flagged, and finished every bio once |
| Acl.CountOfSize | ext4/acl.h:27-53 | the count of the size of a list is its length |
| Acl.SizeOfCount | ext4/acl.h:27-53 | and the size of a count is the size it came from |
| Acl.ToDisk | ext4/acl.c:161-214 | refuses iff a tag is none of the six; the buffer has the computed size, starts with version 1, and holds each entry byte by byte, little-endian, at the place that the entries before it leave, as far as it goes in |
| Acl.FromDisk | ext4/acl.c:69-152 | reads the buffer entry by entry and accepts it iff it is used up exactly |
| Acl.RoundTripIff | ext4/acl.c:69-214 | the encoding of a list is read back as that list iff it has as many plain entries as the size computation counts on, and is refused otherwise |
| Acl.DecodeEncode | ext4/acl.c:69-214 | a list that was read encodes to the buffer it was read from |
| Acl.DecodeIff | ext4/acl.c:69-152 | a buffer is read as a list iff it is the encoding of that list, the list has the number of plain entries that the size computation counts on, and these carry no id |
| Acl.NoAclIff | ext4/acl.c:69-152 | there is no list iff there is no buffer or it is the header alone |
| Acl.WriteAndRead | ext4/acl.c:69-214 | what writing and then reading any list gives: none, the list, or a refusal |
| Acl.ValidRoundTrip | ext4/acl.c:69-214 | every valid list that is written is read back with its tags, permissions and the ids of named entries, and the buffer is its entries exactly |
| Acl.NamedWithoutMask | ext4/acl.c:69-214 | a list with a named entry and no mask is written and then refused |
| Balloc.InGroupIff | ext4/balloc.c:88-96 | a block is in a group iff it lies between its first block and that of the next |
| Balloc.UsedIff | ext4/balloc.c:210-258 | a cluster counts as used iff it is one of the base clusters or holds a block, in the group, of a bitmap or of the inode table |
| Balloc.NumClustersIff | ext4/balloc.c:185-203 | a cluster belongs to a group iff its first block lies in it and below the end of the file system |
| Balloc.NumOverheadClusters | ext4/balloc.c:105-183 | the number of clusters with metadata, for any cluster ratio, one more iff both bitmaps share a cluster that is counted by itself |
| Balloc.FreeClustersAfterInit | ext4/balloc.c:272-278 | the number of clusters that start in the group and below the end of the file system and hold no metadata, one less in that case |
| Bitmap.MarkBitmapEnd | ext4/ialloc.c:55-67 | bit by bit and then byte by byte, exactly the bits from the start to the end are set |
| Balloc.InitBlockBitmap | ext4/balloc.c:210-267 | a bit is clear iff its cluster starts in the group and below the end of the file system and holds no metadata; the two error cases |
| Balloc.FreeMatchesBitmap | ext4/balloc.c:210-278 | the bitmap is made iff the base clusters fit into the block, its clear bits are the free clusters, and the free count is their number iff the bitmaps do not share such a cluster |
| Balloc.SharedCluster | ext4/balloc.c:105-183 | a group in which they do, and the count is one too small |

## Left out

- ExtentInsert.Inode.InsertExtent: takes the path that the descent finds for the extent, and an extent that overlaps no other, as all callers give it; the depth limit of five levels is not modelled.
- ExtentModify.SplitExtentAt: when the insertion fails the model searches for the extent again, where the source keeps a pointer to it.
- ExtentRemoveSpace.RemoveSpace: cluster ratio 1 only; tree block numbers are larger than the root's capacity, because the source starts the count of the root level from a block number; restarts of the transaction are not modelled.
- ExtentRemoveSpace.SplitEnd: after the split the model searches for the end of the range again, where the source goes on with the path that the insertion left.
- ExtentShift.ShiftExtents: shift to the left only, and no extent crosses the start, as collapse range arranges by removing the range first.
- ExtentSwap.SwapExtents: at most 0x7fff blocks if they are to be marked unwritten, because the source stops with a BUG_ON when it marks a longer extent; where the next extent starts is stated up to extents that continue the one before, which may or may not have been merged by then.
- StatusTree.EsTree.Insert: stated for the kinds of entries that `Sane` admits; the packing of the physical block and the kind into 64 bits is not modelled.
- StatusTree.EsTree.CacheExtent: the same.
- StatusTree.EsTree.Shrink: the walk over the other inodes is a free choice of how many of their entries are reclaimed and how much of the scan is left.
- IndirectMap.MapBlocks: the allocator's choice of blocks is free; the search for a goal block is not modelled.
- IndirectFile.IndFile.Truncate: says which indirect blocks are freed for those that the file uses once; for others their number is conserved.
- Migrate.Migrator.Migrate: up to the last range; swapping the inodes' data and freeing the old blocks are not modelled.
- Balloc.FreeClustersAfterInit: metadata of the group within its clusters, the result before it is cut to 32 bits; the number of base metadata clusters is a parameter.
- Journal credits, checksums, locks, quota, tracing and I/O errors while reading tree blocks.
- Right shifts and inserting a range, punching holes in files with indirect blocks, and the migration back to indirect blocks.
- Fiemap, seeking, direct I/O, truncation and fallocate above the operations on the tree: they would add calls of the operations above.
- Finishing a bio on its pages in page-io.c: only that it happens once, and when.
- Directory indexing and reading, the inode allocator, multi-mount protection, resizing, xattrs and the superblock.
