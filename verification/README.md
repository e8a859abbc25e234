# Verified model of SplinterDB

SplinterDB is an embedded key-value store: a ring of in-memory B-trees (memtables) in front of a
log-structured trunk of packed B-trees with routing filters.  This project models its most intricate
parts in Dafny and proves what they are for.

`dafny verify dfyconfig.toml` checks everything.

**Memtable protocol** (`MemtableProtocol`, `MemtableSafety`, `MemtableRuns`, `Ring`).  Inserters that
rotate, flush jobs that compact and incorporate, lookups and range iterators run over a ring of any
number of memtables (two or more).  A step is one access to shared memory or one critical section of the
incorporation mutex; locks are what the program counters say is held.  The main result is that lookups
are linearizable in every run.

**Messages, lookups, merges** (`Messages`, `Lookup`, `ConcurrentLookup`, `MergeSpec`, `MergeIterator`).
Inserts, updates and deletes are combined by user callbacks.  The assumed laws are those the store needs: the
callbacks give definitive messages where they must, combining updates is associative, and finalizing commutes
with combining.  From these follow the correctness of compaction, of the early stop of a lookup, also while
other threads change the memtables, and of the k-way merge, whose array of inputs with its cached "next key
is equal" bits is modelled in place.

**Routing filter** (`Words`, `PackedArray`, `RadixSort`, `BucketEncoding`, `FilterModel`,
`RoutingFilter`, `FilterBlock`, `FilterLoad`, `FilterAdd`, `FilterZeroWidth`).  A quotient filter: radix sort,
a unary bucket encoding in 32-bit words, remainders with values in a bit-packed array, and the merge that builds
a new filter from an old one while buckets multiply and values widen.  The result is an index that agrees
exactly with a set of pairs, but for one kind of layout, which is told exactly.

**B-trees** (`Slotted`, `LeafPage`, `LeafNode`, `LeafSplit`, `IndexNode`, `IndexSplit`, `SortedRuns`,
`BTree`, `PageTree`, `FullParent`).  Pages are modelled by bytes: a header of 37, an offset table growing
towards entries of 6 and 23 bytes plus their keys and messages.  That both halves of a split leaf fit is
proved for all legal sizes.  `PageTree` is the tree of these pages: insertion into it keeps well-formed pages
in the shape of a search tree and changes the contents at one key only.  One assertion about space can fail
in the source, though only for a key below all others, and not if keys have at most an eleventh of a page; see
below.

**Packed B-trees** (`PackedTree`, `Packing`, `Rank`).  Bottom-up packing with one edge buffer per height,
sibling links and subtree totals in 32-bit counters with a marker for unknown ones; ranks and range counts from
the totals.  Whether a tuple or an entry fits a page is decided by its bytes.

**Extents** (`RcAllocator`, `ConcurrentAllocator`, `MiniLayout`, `MiniAllocator`, `MiniRelease`,
`ConcurrentMini`).  Reference counts per extent, pages handed out batch by batch, and the list of meta pages
through which everything is given back.  `ConcurrentAllocator` and `ConcurrentMini` are the allocations of
several threads at once, step by step.

**Scheduling** (`TaskQueue`, `TaskQuiescence`, `WaitQueue`).  The task queues with their unlocked counters
and the check for quiescence, and the wait queue of asynchronous functions with its unlocked test for
emptiness, as state machines whose steps are single accesses to shared memory.

Sequential code that changes state is modelled by classes and by methods over arrays, each proved against
functions whose meaning is proved in lemmas.  Concurrent protocols are modelled by state machines with an
inductive invariant, from which the statements about whole runs follow.  Module `Modulo` holds the arithmetic
of division by a variable.

Where the code does not do what it says:

- `btree_defragment_or_split_child_leaf` (`splinterdb/src/btree.c:1413-1449`) counts the table space of a leaf
  as 0 or 23 bytes, because of the precedence of C operators.  `LeafSplit.ChoiceIsSound` shows that the choice
  it makes is sound nevertheless.
- `btree_insert` takes it that a node which was just split has room for the pivot of its child
  (`splinterdb/src/btree.c:1805-1811`, with the assertion at `splinterdb/src/btree.c:1363`).  If the key is less
  than all others and did not fit the node before, it is set as the least key after the split
  (`splinterdb/src/btree.c:1890-1903`), and can fill the node again.  `FullParent.LeastKeyFillsNode` is an input
  with keys of 348 to 512 bytes on pages of 4096; `IndexSplit.SetMinKey` tells exactly when it happens to a node.
  `PageTree.Insert` shows what a caller can rely on: it does not happen if the key is not below all keys of the
  tree, or the root is a leaf, or no key has more than an eleventh of a page (372 bytes of 4096, where the source
  allows 512).
- `btree_split_child_index` does not look at the result of the insertion into the parent
  (`splinterdb/src/btree.c:1470-1556`).  `IndexSplit.InsertPivot` tells exactly when it fails, which by the
  previous point can happen; the right half of the child is then lost.
- `rc_allocator_alloc` reports that no extent is free (`splinterdb/src/rc_allocator.c:711-720`), but with several
  threads one may be: `ConcurrentAllocator.FreeExtentMissed` is such a run.  `FailureIsSound` there tells what a
  failure means for each extent; with one thread it means that none is free (`RcAllocator.Allocator.FindFree`).
- `mini_inc_ref` and `mini_dec_ref` return the number of users after the call; the comment above them
  (`splinterdb/src/mini_allocator.c:594-604`) says the number before it.
- `routing_filter_add` loads the blocks of an old filter one after the other into one buffer, and
  `PackedArray_unpack` writes nothing for items of no bits.  If the old filter has two blocks or more and
  neither remainder nor value bits, fingerprints can be lost: `FilterZeroWidth.KeyIsLost` is a filter and a key that
  is found before an addition and not after it, and `FilterZeroWidth.ExactlyTheseLayouts` shows that no other layout
  loses anything.

## Model

| member | source | states |
|---|---|---|
| MemtableRuns.LookupsAreLinearizable | splinterdb/src/core.c:1270-1347 | a lookup, however it interleaves with inserts, rotations, compactions, incorporations, recycling and other lookups, reads exactly the tuples inserted up to one moment between its begin and its end, each once and in order; so it sees every insert that completed before it began |
| MemtableRuns.StoppedLookupsReadTheNewest | splinterdb/src/core.c:1287-1300 | a lookup that gives up its lock on the way, after any of the memtables, has read all tuples from some point on up to one moment between its begin and its end |
| MemtableRuns.RunsAreSafe | splinterdb/src/memtable.c:304-335 | in every run from a fresh context, of any number of threads and memtables, all assertions of the protocol hold and every state satisfies the invariant: each generation between retired and current has its own slot with its number and a state that may be looked up, older ones are in the trunk, and their number never exceeds that of the memtables |
| MemtableSafety.StepPreserves | splinterdb/src/core.c:651-668 | one step of any thread, from any state that satisfies the invariant, keeps it and fails no assertion |
| MemtableSafety.LkSafe | splinterdb/src/memtable.h:264-275 | while a lookup holds its lock, each generation it searches sits in its own slot and is not being incorporated, its branch equals its contents once it counts as compacted, and the trunk holds exactly the older ones |
| MemtableSafety.FinalizePreserves | splinterdb/src/memtable.c:118-185 | finalizing a full memtable keeps the invariant, and the asserted compare-and-swap finds it READY |
| MemtableSafety.IncrementPreserves | splinterdb/src/memtable.c:118-185 | incrementing the generation keeps the invariant, and the asserted bound on its distance to the retired one holds |
| MemtableSafety.TuplePreserves | splinterdb/src/core.c:361-397 | inserting keeps the invariant, and the memtable still carries the generation that the inserter was given |
| MemtableSafety.CompactPreserves | splinterdb/src/core.c:404-520 | the steps of a compaction keep the invariant, and each finds the memtable in the asserted state |
| MemtableSafety.TryStartPreserves | splinterdb/src/core.c:530-548 | the critical section keeps the invariant, by which only the next generation in order is assigned, and to one thread |
| MemtableSafety.TryNextPreserves | splinterdb/src/core.c:551-569 | the critical section keeps the invariant, and the asserted condition that the next slot carries the next generation holds |
| MemtableSafety.RetirePreserves | splinterdb/src/memtable.h:225-243 | incrementing the retired generation keeps the invariant; it is the one that is being incorporated |
| MemtableSafety.CommitPreserves | splinterdb/src/core.c:572-641 | switching to the new trunk root keeps the invariant, by which the trunk holds all tuples of all retired generations, each once and in order |
| MemtableSafety.JobDecRefPreserves | splinterdb/src/memtable.c:248-263 | giving back the reference of the context keeps the invariant; there was one, and if it was the last the memtable is INCORPORATED |
| MemtableSafety.DropStepPreserves | splinterdb/src/memtable.c:248-263 | recycling by the thread that gave back the last reference keeps the invariant; the memtable is INCORPORATED when it becomes READY |
| MemtableRuns.RetiresInOrder | splinterdb/src/memtable.h:237-243 | generations retire one at a time and in order, and only by the thread that has just incorporated that generation, while no other thread is incorporating |
| MemtableRuns.TrunkGrowsInOrder | splinterdb/src/core.c:572-641 | the trunk only ever grows by the tuples of the retired generation, once, right behind those of the generation before |
| MemtableRuns.CompactedIsNotStranded | splinterdb/src/core.c:522-569 | if the next generation to incorporate is COMPACTED, its own flush job has not yet called try_start |
| MemtableRuns.NeverStranded | splinterdb/src/core.c:651-668 | while a finalized generation waits, the job that will move it on is not done and can take a step, or waits for lookups only |
| Messages.MergeIsAssociative | splinterdb/src/data_internal.h:571-596 | combining three versions does not depend on which two neighbours are combined first |
| Messages.FoldConcat | splinterdb/src/data_internal.h:571-596 | folding a history of versions in two parts and combining the results equals folding it at once |
| Messages.CompactionKeepsMeaning | splinterdb/src/data_internal.h:570-617 | compacting any contiguous groups of versions and folding the results equals folding all versions |
| Messages.ResolveIsReplay | splinterdb/src/data_internal.h:570-617 | folding from the newest version to the oldest, finalizing and reading deletes as absent gives what replaying all inserts, updates and deletes in order gives |
| Lookup.TreeFoldsVersions | splinterdb/src/btree.c:552-558 | a memtable filled by insertions holds for each key the fold of its versions, and no other key |
| Lookup.AbsorbStands | splinterdb/src/btree.c:2497-2528 | an accumulator that stands for the newest versions stands, after a tree was merged in, for those of the tree as well |
| Lookup.DefinitiveHidesOlder | splinterdb/src/core.c:1287-1346 | once the accumulator is definitive, no older version changes what the key reads as, so stopping is right |
| Lookup.TrunkStep | splinterdb/src/core.c:1287-1346 | the last step, with the trunk, resolves all versions, even though the trunk may hold finalized values and may have dropped deletes |
| Lookup.CoreLookup | splinterdb/src/core.c:1270-1347 | the value found is what replaying every insert of the key ever made would yield |
| ConcurrentLookup.AccumulatorStands | splinterdb/src/core.c:1287-1300 | while other threads insert, rotate, compact and incorporate, the accumulator of a lookup is at all times the fold of all versions in the memtables it has searched |
| ConcurrentLookup.EarlyAnswerIsReplay | splinterdb/src/core.c:1270-1347 | a lookup among other threads that stops at a definitive message returns what replaying all inserts yields that were made up to one moment between its begin and its end, although it has not read the older ones |
| ConcurrentLookup.TrunkAnswerIsReplay | splinterdb/src/core.c:1270-1347 | and so does one that goes on to the trunk |
| MergeIterator.Iterator.constructor | splinterdb/src/merge.c:521-588 | a new iterator has all runs in its queue, still to be emitted |
| MergeIterator.Iterator.SetupOrderedIterators | splinterdb/src/merge.c:417-505 | afterwards exhausted inputs are last, live ones are sorted by key and newest first, the equal-key bits are exact, and everything is still to be emitted |
| MergeIterator.Iterator.SortNext | splinterdb/src/merge.c:417-505 | one round of the sort makes the next input part of the sorted prefix and loses none |
| MergeIterator.Iterator.SetBits | splinterdb/src/merge.c:417-505 | the equal-key bit of a live input is set exactly if its neighbour has the same key |
| MergeIterator.BsearchInsert | splinterdb/src/merge.c:90-123 | the index is the only one that keeps the array sorted, and both equal-key bits are right although they come from comparisons the search happens to make |
| MergeIterator.ReplacedIsQueue | splinterdb/src/merge.c:168-243 | moving the stepped input to that index, with the two bits, gives an array that is sorted, has exact bits and holds what is left of the merge |
| MergeIterator.FrontOfQueue | splinterdb/src/merge.c:168-243 | the first live input holds the least remaining key with its newest version, and its bit says whether an older version of that key exists |
| MergeIterator.Iterator.AdvanceAndResort | splinterdb/src/merge.c:168-243 | exactly the first entry of the merge is consumed, and the array is in order again, also when the input is exhausted |
| MergeIterator.Iterator.PutBack | splinterdb/src/merge.c:168-243 | the in-place shift puts the input at its index, moves those in front of it and writes only the two bits |
| MergeIterator.Iterator.ResolveEqualKeys | splinterdb/src/merge.c:250-312 | all versions of the current key are folded from newest to oldest, and all but the last are consumed |
| MergeIterator.Iterator.FinalizeAndDiscard | splinterdb/src/merge.c:326-357 | in full mode the message is finalized and a delete is dropped and counted; in intermediate mode nothing happens |
| MergeIterator.Iterator.AdvanceOneLoop | splinterdb/src/merge.c:360-405 | a retry means that a key that emits nothing was passed; otherwise the current tuple is the next one of the merge |
| MergeIterator.Iterator.Next | splinterdb/src/merge.c:698-718 | the iterator moves on by exactly one emitted tuple, and the retry loop ends |
| MergeIterator.MergeAll | splinterdb/src/merge.c:697-718 | a whole forward run over any number of runs, in any mode, emits the specified merge and nothing else |
| MergeSpec.RawHoldsRuns | splinterdb/src/merge.c:52-68 | the merged stream is sorted by key, then from the newest run to the oldest, and holds each run's tuples exactly, in order |
| MergeSpec.RawVersions | splinterdb/src/merge.c:52-68 | the stream lists the versions of each key in the order of the runs |
| MergeSpec.EmitMerges | splinterdb/src/merge.c:249-405 | every key is emitted at most once, keys increasing, with the fold of its versions; in full mode finalized, and not at all if that reads as absent |
| MergeSpec.MergeIsExact | splinterdb/src/merge.c:249-405 | the same, stated of the runs: the union of keys, each with the fold of all its versions |
| MergeSpec.RawEmitsAll | splinterdb/src/merge.c:360-405 | in raw mode every tuple of every run is emitted, duplicates newest first |
| MergeSpec.CompactionKeepsReads | splinterdb/src/merge.c:250-312 | replacing neighbouring runs by their intermediate merge changes what no key reads as, whatever runs are older and newer |
| MergeSpec.FullMergeKeepsReads | splinterdb/src/merge.c:326-357 | replacing the oldest runs by their full merge changes what no key reads as |
| PackedArray.Get | splinterdb/src/PackedArray.c:504-537 | the item that the buffer holds at an offset, for every width up to 32, also across two words |
| PackedArray.Set | splinterdb/src/PackedArray.c:469-502 | afterwards the buffer holds the item at the offset, and no bit outside the item has changed |
| PackedArray.PackCase | splinterdb/src/PackedArray.c:145-158 | one case of the pack switch appends one item to the bits packed so far, in the word under construction or across two |
| PackedArray.Pack | splinterdb/src/PackedArray.c:204-251 | all items are in the buffer at consecutive offsets, and no bit outside their range has changed, also in the last word |
| PackedArray.UnpackCase | splinterdb/src/PackedArray.c:173-195 | one case of the unpack switch yields the item at its offset and leaves the read pointer on the right word |
| PackedArray.Unpack | splinterdb/src/PackedArray.c:253-298 | the items that the buffer holds at consecutive offsets |
| PackedArray.UnpackAfterPack | splinterdb/src/PackedArray.c:204-298 | unpacking what was packed gives the items back |
| PackedArray.OthersKept | splinterdb/src/PackedArray.c:204-251 | packing or setting a range of items leaves every other item of the same width readable as before |
| RadixSort.ByDigitSorted | splinterdb/src/routing_filter.c:52-128 | a stable pass over one more digit keeps the order established by the lower digits |
| RadixSort.ByDigitPermutes | splinterdb/src/routing_filter.c:52-128 | a pass loses and duplicates nothing |
| RadixSort.Histograms | splinterdb/src/routing_filter.c:52-128 | the counting loop fills each histogram with the number of elements per digit value, for all passes at once |
| RadixSort.ToIndices | splinterdb/src/routing_filter.c:52-128 | turned into indices, a slot is the place of the first element with its digit, and stays within count |
| RadixSort.Pass | splinterdb/src/routing_filter.c:52-128 | the scattering loop is the stable distribution by digit, and each index it uses is below count |
| RadixSort.Sort | splinterdb/src/routing_filter.c:52-128 | a non-decreasing permutation of the input for every count and every fingerprint size up to 32, in whichever of the two buffers it ends |
| RadixSort.Dedup | splinterdb/src/routing_filter.c:597-608 | the in-place loop leaves a strictly increasing array with the same set of elements |
| BucketEncoding.EndIsOne | splinterdb/src/routing_filter.c:711-728 | in the unary encoding bucket b ends at the one bit that is preceded by b ones |
| BucketEncoding.EndIsUnique | splinterdb/src/routing_filter.c:329-377 | and no other bit has that property |
| BucketEncoding.SkipWords | splinterdb/src/routing_filter.c:329-377 | skipping by population counts stops at the word that holds the wanted one |
| BucketEncoding.NextNonzero | splinterdb/src/routing_filter.c:380-404 | the next set bit, across empty words, is the end of the next bucket |
| BucketEncoding.GetBucketBounds | splinterdb/src/routing_filter.c:329-377 | for every bucket the prefix sums of the counts on its two sides, across word boundaries and empty buckets |
| BucketEncoding.GetBucketCounts | splinterdb/src/routing_filter.c:380-404 | decoding gives back the counts that were encoded |
| BucketEncoding.WriteSkip | splinterdb/src/routing_filter.c:717-722 | leaving ones behind while going to a later bucket encodes empty buckets |
| RoutingFilter.FingerprintInRange | splinterdb/src/routing_filter.c:1115-1203 | the index and the bucket of a fingerprint exist, and agree with those of the items made from it |
| RoutingFilter.SearchBucket | splinterdb/src/routing_filter.c:1115-1203 | the loop over a bucket finds exactly the values stored with the remainder |
| RoutingFilter.ItemMatches | splinterdb/src/routing_filter.c:166-173 | within a bucket, remainder and value determine the pair of fingerprint and value |
| RoutingFilter.Lookup | splinterdb/src/routing_filter.c:1115-1203 | exactly the values that the filter pairs with the fingerprint of the key |
| FilterAdd.CutHashes | splinterdb/src/routing_filter.c:584-586 | each hash is replaced by its fingerprint |
| FilterAdd.AppendValue | splinterdb/src/routing_filter.c:591-594 | the value goes below each fingerprint and the order is kept |
| FilterAdd.PrepareNew | splinterdb/src/routing_filter.c:584-608 | one item for each distinct new fingerprint, in increasing order |
| FilterAdd.CountIndices | splinterdb/src/routing_filter.c:610-620 | the new items fall into the indices in the counted numbers |
| FilterLoad.OrDisjoint | splinterdb/src/routing_filter.c:649-656 | an or of bits that do not overlap is a sum, for numbers of any size |
| FilterLoad.AddBuckets | splinterdb/src/routing_filter.c:649-656 | each bucket is or-ed in above the stored part of each of its items, over whatever the shared buffer holds |
| FilterLoad.LoadOld | splinterdb/src/routing_filter.c:639-670 | what the shared buffer holds after a block was loaded, given what it held before, on 32-bit words; the rest of it stays |
| FilterLoad.LoadedExact | splinterdb/src/routing_filter.c:639-670 | for items with stored bits, or on a clean buffer, that is the item with its value widened: no bit is shifted out |
| FilterBlock.TakeLeast | splinterdb/src/routing_filter.c:685-697 | the merge takes the least remaining item of the two sources |
| FilterBlock.AddItem | splinterdb/src/routing_filter.c:711-722 | the encoding is extended by the empty buckets in between and by one element in the item's bucket |
| FilterBlock.MergeLoop | splinterdb/src/routing_filter.c:671-723 | the items of one index are exactly the remaining old ones of that index and the new ones, in order; an old item of a later index is put back |
| FilterBlock.PackRemainders | splinterdb/src/routing_filter.c:752-763 | every stored part can be read back from the packed block |
| FilterBlock.MergeIndex | splinterdb/src/routing_filter.c:671-769 | one block of the new filter: its encoding and its packed part agree with its items |
| FilterAdd.MergeOldIndex | splinterdb/src/routing_filter.c:671-769 | the indices that one old index is divided into together get its items and the new ones of that range, each as often as it was there |
| FilterAdd.LoadedWidened | splinterdb/src/routing_filter.c:622-670 | block after block through the one buffer, every item of an old filter whose items have stored bits, or that has one block, is loaded right |
| FilterAdd.MergeAll | splinterdb/src/routing_filter.c:622-774 | over all old indices what is loaded and what is new is in the blocks, each item as often as it was there, whatever the bucket count grows to; it goes through exactly if what is loaded for each index is in order and belongs there |
| FilterAdd.Add | splinterdb/src/routing_filter.c:436-786 | the new filter holds what is loaded of the old one, as often as it is loaded, and the new value of each new fingerprint once; if old items have stored bits or are in one block, that is exactly the old pairs and the new ones, so there is never a false negative; for any other old filter, it is that exactly if what the shared buffer makes of it differs in no pair that the new keys do not bring anyway |
| FilterZeroWidth.ExactlyTheseLayouts | splinterdb/src/routing_filter.c:436-786 | for every layout within the limits: all additions to all old filters of that layout are exact if and only if its items have stored bits or it has a single block |
| FilterZeroWidth.MakeOld | splinterdb/src/routing_filter.c:436-774 | the old filter of the example is what the code itself makes of keys with two fingerprints: one item in each of the first two blocks, and none in the others |
| FilterZeroWidth.KeyIsLost | splinterdb/src/routing_filter.c:436-774 | for every configuration that allows the other layouts: an addition to no filter makes an old one, a lookup finds a key in it, another key is added, and a lookup does not find the first key any more; for example 2-bit fingerprints in blocks of 2 buckets, four keys with fingerprints 1 and 2, and a new one with fingerprint 0 |
| Slotted.EntriesFit | splinterdb/src/btree_private.h:48-57 | entries of a page do not overlap, so their sizes and the table fit behind the header |
| LeafNode.Leaf.Set | splinterdb/src/btree.c:344-388 | succeeds exactly if btree_can_set_leaf_entry says so, and then changes only the k-th entry |
| LeafNode.Leaf.Insert | splinterdb/src/btree.c:391-409 | the tuple goes in at position k and all others keep their order |
| LeafNode.Leaf.FindTuple | splinterdb/src/btree.c:504-528 | the last position whose key is not greater than the target, and whether it is equal |
| LeafNode.Leaf.CreateSpec | splinterdb/src/btree.c:571-604 | carried out, the spec changes the contents only at the key, to the merged message, and keeps the keys increasing |
| LeafNode.Leaf.TryPerform | splinterdb/src/btree.c:638-676 | succeeds exactly if it was said to be possible; the contents are the old ones with the tuple incorporated, or unchanged |
| LeafNode.Leaf.Defragment | splinterdb/src/btree.c:689-713 | the contents without the entry to be replaced, and no gaps |
| LeafNode.Leaf.Truncate | splinterdb/src/btree.c:716-729 | exactly the first entries remain |
| LeafNode.IncorporatedMap | splinterdb/src/btree.c:638-676 | incorporation is a map update at one key and keeps the order |
| LeafSplit.TotalBytes | splinterdb/src/btree.c:796-856 | the bytes that the entries take after the incorporation, table included |
| LeafSplit.StoppedPlanIsOk | splinterdb/src/btree.c:743-790 | wherever the walk over the entries stops by the half-way rule, both halves are non-empty and fit a page |
| LeafSplit.BuildPlan | splinterdb/src/btree.c:796-856 | for every leaf and every tuple within the limits both halves of the plan are non-empty and fit a page with their share |
| LeafSplit.SplittingPivot | splinterdb/src/btree.c:859-872 | the pivot is the least key of the right half |
| LeafSplit.BuildRight | splinterdb/src/btree.c:875-910 | the right half, with its share of the tuple, fits the fresh page, so the assertion holds |
| LeafSplit.CleanupLeft | splinterdb/src/btree.c:913-928 | the left half, with its share, fits after truncation and defragmentation |
| LeafSplit.SplitLeaf | splinterdb/src/btree.c:1286-1392 | left and right together are the old contents with the tuple incorporated, neither is empty, and the pivot is the least key on the right |
| LeafSplit.ChoiceIsSound | splinterdb/src/btree.c:1403-1452 | with the table space counted as written, by the precedence of C, defragmentation is only chosen if the tuple then fits, and a split only if there are two entries to divide |
| LeafSplit.DefragmentOrSplit | splinterdb/src/btree.c:1403-1452 | in both cases the incorporation succeeds and the contents are right |
| IndexNode.Index.Set | splinterdb/src/btree.c:219-271 | only the k-th pivot changes; exactly when it succeeds and where the entries begin afterwards, in each of the three cases: the entry begins the page and gives its space back, it is at least as long, or there is contiguous room |
| IndexNode.Index.Insert | splinterdb/src/btree.c:274-291 | the pivot goes in at position k, exactly if there is contiguous room |
| IndexNode.WriteOverFirst | splinterdb/src/btree.c:219-271 | replacing the physically first entry by one that ends where it ended leaves all others intact, also when it is longer |
| IndexNode.Index.Defragment | splinterdb/src/btree.c:1008-1025 | the same pivots without gaps |
| IndexSplit.ChooseSplit | splinterdb/src/btree.c:949-972 | the first cut with at least half of the bytes on the left |
| IndexSplit.CutIsInside | splinterdb/src/btree.c:949-972 | for a node over the threshold the cut is strictly inside |
| IndexSplit.SidesAreSmall | splinterdb/src/btree.c:939-1047 | how little of a page either side of the cut takes |
| IndexSplit.SplitIndex | splinterdb/src/btree.c:1470-1556 | both halves are non-empty, together they are the old pivots in order, and each takes one more pivot of maximal size as long as no least key is pending |
| IndexSplit.DefragmentOrSplit | splinterdb/src/btree.c:1559-1596 | afterwards the node, and its new neighbour if there is one, are not full; there is a neighbour exactly if the space required reaches half a page; and a quarter of the page is free in one piece |
| IndexSplit.Truncate | splinterdb/src/btree.c:1028-1047 | the first pivots remain; the entries begin at the lowest of those left, or the page is compact if that is in its first quarter |
| IndexSplit.SetMinKey | splinterdb/src/btree.c:1855-1903 | a new least key of any legal size fits a node that is not full; the node is still not full if and only if the old entry is replaced in place, or begins the page and leaves room, or there is room besides |
| IndexSplit.InsertPivot | splinterdb/src/btree.c:1470-1556 | the parent takes the new pivot if and only if table and entries leave room for it, and always if it is not full; a refusal changes nothing |
| IndexSplit.ShortKeyFits | splinterdb/src/btree.c:1855-1903 | after a split or a defragmentation and a new least key, a pivot of up to an eleventh of a page still fits if the least key is no longer than that either |
| FullParent.LeastKeyFillsNode | splinterdb/src/btree.c:1855-1903 | an input for which it does not: a page of 4096 bytes filled by seven insertions, each with room before it; a least key that does not fit; the split; the least key set; and the node is full, and refuses every pivot of 447 to 512 bytes |
| SortedRuns.PutMeans | splinterdb/src/btree.c:552-558 | the specification of an insertion: contents change only at the key, to the merged message, and stay sorted |
| SortedRuns.PutWithin | splinterdb/src/btree.c:1697-2007 | an insertion below the right child changes nothing outside that child |
| SortedRuns.IncorporatedIsPut | splinterdb/src/btree.c:638-676 | an incorporation into a leaf is such an insertion |
| BTree.FindPivot | splinterdb/src/btree.c:460-485 | the last pivot that is not greater than the key |
| BTree.Find | splinterdb/src/btree.c:2155-2238 | for every key the message in the tree's contents, or none |
| BTree.CutChild | splinterdb/src/btree.c:1470-1556 | after the cut the key belongs to the part that holds the chosen child, and both parts are trees of the same height |
| BTree.PrepareChild | splinterdb/src/btree.c:1697-2007 | lowering the first pivot makes the child ready for a key below all others |
| PageTree.LeafInsert | splinterdb/src/btree.c:1935-2007 | for every leaf page and tuple within the limits: the tuple goes in, after a defragmentation or a split if need be, and the pages together hold the old tuples with the new one put in |
| PageTree.PrepareIndex | splinterdb/src/btree.c:1849-1903 | an index page on the way down: its least key is lowered if the key is below all others, at once or after a defragmentation or a split; the part that is descended into takes one more pivot of any legal length if the least key was right already, and with short keys in any case |
| PageTree.PrepareRoot | splinterdb/src/btree.c:1765-1801 | the same at the root, which grows when full: the root then takes one more pivot, for keys of any legal length |
| PageTree.Descend | splinterdb/src/btree.c:1832-2007 | from an index page down to the leaf, through pages that are split as their bytes demand: a tree of well-formed pages, the old ones and those that were added, whose contents are the old ones with the tuple put in; if the first page has room, a parent below refuses a pivot only to a key below all others, and only if keys are longer than an eleventh of a page |
| PageTree.Insert | splinterdb/src/btree.c:1697-2007 | for every tree of pages and every tuple: refused if over the limits, and nothing changes; otherwise a search tree of well-formed pages, each in it once and under its own address, root growth included, whose contents changed only at the key, to the merged message; was_unique exactly if the key was absent; it can fail only if the root is an index node, the key is below all keys of the tree, and keys may be longer than an eleventh of a page |
| PageTree.InsertAll | splinterdb/src/memtable.c:212-241 | a tree filled by insertions takes all tuples and holds, for every key, its messages merged in order; if all keys are short, or keys have any legal length and no tuple after the first is below all that came before |
| BTree.GrownRoot | splinterdb/src/btree.c:1654-1688 | a root above the old one has the same contents |
| Packing.Packer.Alloc | splinterdb/src/btree.c:1059-1083 | pages of a height are consecutive within an extent, and the next extent begins when one is full |
| Packing.LeafTakes | splinterdb/src/btree.c:344-389 | a leaf page that was filled from one end takes a tuple behind its last one exactly if the bytes of all tuples and the table fit the page |
| Packing.IndexTakes | splinterdb/src/btree.c:219-271 | and an index page a pivot |
| Packing.TwoFit | splinterdb/src/btree.c:3252-3288 | an index page has room for two entries of any legal length |
| Packing.Packer.LinkExtent | splinterdb/src/btree.c:3291-3324 | the nodes of a height go into their parents, which keeps contents, leaf order and sibling links; the recursion through the parents ends |
| Packing.Packer.LinkNode | splinterdb/src/btree.c:3252-3288 | a node becomes the last child of the node above it if its page has room, or the first of a new one, whose page always has, as asserted; with its least key, and its counters added in 32 bits with the marker for unknown |
| Packing.Packer.CreateNextNode | splinterdb/src/btree.c:3327-3423 | the buffer of a height never holds more nodes than an extent has pages, and a node that begins an extent sends the previous extent up |
| Packing.Packer.RelinkLast | splinterdb/src/btree.c:3327-3423 | the previous leaf is linked to the new one and nothing else changes |
| Packing.Packer.PackLoop | splinterdb/src/btree.c:3426-3465 | one more tuple is packed, behind all others, in the current leaf if its page has room, or in a new one, whose page always has, as asserted |
| Packing.Packer.PostLoop | splinterdb/src/btree.c:3468-3506 | what was packed becomes one tree of uniform height with the tuples in order, linked leaves, and counters that are the totals below, each as long as that total is below the marker for unknown |
| Packing.LevelBelowLimit | splinterdb/src/btree.c:3228-3324 | the height is at most logarithmic in the number of tuples, which bounds the recursion |
| Packing.Pack | splinterdb/src/btree.c:3538-3573 | for any input of tuples within the limits a tree of uniform height whose nodes fit their pages, whose leaves are the input in order and linked in order, and whose pivots are least keys; each of its 32-bit counters is the total below it as long as that total is below the marker for unknown; no tree for an empty input, a failure for one over the limit |
| PackedTree.TwoChildren | splinterdb/src/btree.c:3468-3506 | a node that went up has at least two children, so that no chain of single children arises |
| PackedTree.StatsConcat | splinterdb/src/btree.c:1609-1614 | totals of two neighbouring runs add up |
| PackedTree.AccumulateCounts | splinterdb/src/btree.c:1598-1614 | adding 32-bit counters with the marker for unknown keeps each counter exact as long as its total is below the marker |
| Rank.AccumulateEntries | splinterdb/src/btree.c:1617-1639 | added up in 32 bits with the marker for unknown, the counters of the children on the left are the totals of all tuples in front, each as long as that total is below the marker |
| Rank.LookupNode | splinterdb/src/btree.c:2155-2238 | in every packed tree the leaf reached has everything below the target in front of it or in it and everything above behind it or in it; each counter of what was passed is exact as long as it is below the marker for unknown |
| Rank.GetRank | splinterdb/src/btree.c:3580-3597 | the number and the bytes of the tuples strictly below the target, also for the two infinite ones; each exact as long as it is below the marker for unknown |
| Rank.CountInRange | splinterdb/src/btree.c:3604-3624 | the number and the bytes of the tuples in [min, max), zero if there are none, with infinite bounds too; as long as the number of tuples of the tree, and for bytes their total, is below the marker for unknown |
| Rank.Find | splinterdb/src/btree.c:2155-2238 | for every packed tree, of any size, and every key a lookup agrees with what was packed |
| RcAllocator.InUseUpdate | splinterdb/src/rc_allocator.c:692-736 | the counter of allocated extents moves exactly when an extent becomes free or stops being free |
| RcAllocator.Allocator.FindFree | splinterdb/src/rc_allocator.c:697-709 | the scan looks at every extent once, from the hand on, and fails only if none is free |
| RcAllocator.Allocator.Alloc | splinterdb/src/rc_allocator.c:693-736 | a free extent gets one reference and nothing else changes; failure means that the disk is full |
| RcAllocator.Allocator.IncRef | splinterdb/src/rc_allocator.c:499-515 | only that extent's count goes up |
| RcAllocator.Allocator.DecRef | splinterdb/src/rc_allocator.c:518-549 | only that extent's count goes down, and the number of allocated extents follows |
| ConcurrentAllocator.StepPreserves | splinterdb/src/rc_allocator.c:498-549 | with any number of threads, one access of any of them keeps counts equal to the references held and the counter tied to the counts, and no assertion fails |
| ConcurrentAllocator.RunsAreSafe | splinterdb/src/rc_allocator.c:498-549 | in every run of any threads the invariant holds and no assertion on reference counts fails |
| ConcurrentAllocator.TakenIsOwn | splinterdb/src/rc_allocator.c:701-707 | the extent that a compare-and-swap takes was free, and no thread holds a reference to it |
| ConcurrentAllocator.FailureIsSound | splinterdb/src/rc_allocator.c:697-720 | when an allocation fails, every extent was in use at some moment since it began, or another allocation has drawn it and is about to look at it |
| ConcurrentAllocator.FreeExtentMissed | splinterdb/src/rc_allocator.c:697-720 | a run in which an allocation fails although an extent has been free all the time, because another one has drawn it |
| ConcurrentAllocator.QuietCounter | splinterdb/src/rc_allocator.c:721-725 | the counter of allocated extents is exact whenever no thread is between a count and the counter |
| MiniLayout.HandedOut | splinterdb/src/mini_allocator.c:414-440 | addresses handed out are page-aligned, distinct, in recorded extents, and in no extent that holds a meta page |
| MiniAllocator.Mini.constructor | splinterdb/src/mini_allocator.c:189-242 | a new allocator owns the extent of its first meta page, which carries one reference more for its user |
| MiniAllocator.Mini.TakeExtents | splinterdb/src/mini_allocator.c:189-242 | each batch gets a next extent of its own, which was free |
| MiniAllocator.Mini.AppendEntry | splinterdb/src/mini_allocator.c:364-396 | the extent is recorded once, behind the others, on the last meta page or on a new one, in the same extent or in one that was free |
| MiniAllocator.Mini.NewMetaPage | splinterdb/src/mini_allocator.c:364-396 | the list of meta pages grows by one page that was in no list before |
| MiniAllocator.Mini.Alloc | splinterdb/src/mini_allocator.c:415-441 | a page that was never handed out before; only extents that were free are taken, and other counts do not move |
| ConcurrentMini.StepPreserves | splinterdb/src/mini_allocator.c:305-331 | with any number of threads, one step of any of them keeps the invariant of the lock tokens, the extents and the pages, and a batch that is unlocked holds the token |
| ConcurrentMini.RunsAreSafe | splinterdb/src/mini_allocator.c:305-331 | in every run the invariant holds and the assertion about the lock token does not fail |
| ConcurrentMini.PagesAreDistinct | splinterdb/src/mini_allocator.c:415-441 | in every run of concurrent allocations no page is handed out twice, and every page is in a recorded extent |
| ConcurrentMini.NothingIsLost | splinterdb/src/mini_allocator.c:415-441 | whenever nobody is allocating, the extents obtained are exactly those recorded and the spare one of each batch |
| MiniRelease.Release | splinterdb/src/mini_allocator.c:460-470 | exactly the extents that no batch has used become free, with both assertions; what remains is what the list of meta pages says |
| MiniRelease.IncRef | splinterdb/src/mini_allocator.c:607-613 | one user more, and the number of users after the call is returned; the comment in the source says the prior number |
| MiniRelease.ForEachDealloc | splinterdb/src/mini_allocator.c:579-588 | each recorded extent is given back exactly once |
| MiniRelease.EndOfExtent | splinterdb/src/mini_allocator.c:489-512 | where the walk over the meta pages leaves an extent, that extent still has its one reference, and all before it are free |
| MiniRelease.Deinit | splinterdb/src/mini_allocator.c:489-512 | each extent of the meta pages is given back exactly once, behind its last page, the last one included |
| MiniRelease.DecRef | splinterdb/src/mini_allocator.c:627-641 | while users remain only the count changes; with the last one every owned extent becomes free and no other count moves |
| MiniRelease.AllocMany | splinterdb/src/mini_allocator.c:415-441 | any sequence of allocations from any batches |
| MiniRelease.Use | splinterdb/src/mini_allocator.c:594-641 | users take and give references in any order; each call returns the number of users after it, and the last one gives every extent back |
| MiniRelease.Lifetime | splinterdb/src/mini_allocator.c:188-641 | from creation through any allocations, and any references taken and given by any users, to the last one, all reference counts return to what they were, and every page handed out was the allocator's alone |
| TaskQueue.TaskGroup.Enqueue | splinterdb/src/task.c:654-707 | the linked list and the counter gain one task, at the end that was asked for |
| TaskQueue.TaskGroup.GetNextTask | splinterdb/src/task.c:472-499 | the first task leaves, or none if there is none; all assertions hold |
| TaskQueue.EnqueueAndTakeAll | splinterdb/src/task.c:471-499 | on the linked list itself, with no other thread: all tasks put in at the tail come out, in the order they went in |
| TaskQuiescence.StepPreserves | splinterdb/src/task.c:543-573 | one step of any thread keeps the invariant that ties both counters to the lists and to the tasks running |
| TaskQuiescence.EndTaskPreserves | splinterdb/src/task.c:715-761 | ending a task, for a foreground thread without the lock, keeps the invariant, also for a check under way; the counter was not zero |
| TaskQuiescence.DequeuePreserves | splinterdb/src/task.c:472-499 | taking a task off the list and counting it as executing keep the invariant, and the assertions about the list hold |
| TaskQuiescence.CheckedIsQuiet | splinterdb/src/task.c:793-824 | when all counters have been read as zero no task is queued, running or on its way, although they were read one after the other |
| TaskQuiescence.TrueMeansQuiet | splinterdb/src/task.c:793-824 | in every run, if the answer is TRUE there was a moment during the check at which no group had a task queued or running |
| TaskQuiescence.WaitingIsLength | splinterdb/src/task.c:654-707 | in every run, while a lock is free the waiting count of its group is the length of its list |
| TaskQuiescence.FirstInFirstOut | splinterdb/src/task.c:471-499 | in every run, tasks put in at the tail leave in that order, whatever is put in at the head |
| TaskQuiescence.RunsAreSafe | splinterdb/src/task.c:653-761 | in every run the assertions about counters and lists hold |
| WaitQueue.StepPreserves | splinterdb/src/async.h:288-377 | one step of any waiter or releaser keeps head, tail and next one well-formed list, and the assertions hold |
| WaitQueue.AppendPreserves | splinterdb/src/async.h:289-308 | linking a new node keeps the invariant, by which it can be reached from the head before the condition is read again; there is a tail to append to |
| WaitQueue.RemovePreserves | splinterdb/src/async.h:311-328 | removing a node keeps the list well formed, and the predecessor remembered at the append is still its predecessor, as asserted |
| WaitQueue.TakeAllPreserves | splinterdb/src/async.h:358-377 | taking the whole list keeps the invariant, by which everyone on it is suspended and in the hands of this releaser |
| WaitQueue.CallbackPreserves | splinterdb/src/async.h:358-377 | the function called is suspended, so it is called at most once per wait, and the invariant is kept |
| WaitQueue.RunsAreSafe | splinterdb/src/async.h:288-404 | in every run the list is well formed and no assertion fails |
| WaitQueue.NoWakeUpIsLost | splinterdb/src/async.h:379-404 | if the condition is true from the call of release_all on, nobody is left suspended on the queue when the call returns, in spite of the unlocked test for an empty queue; who is still suspended is about to be called by another releaser |
| WaitQueue.HandsAtWork | splinterdb/src/async.h:358-377 | a suspended function that was taken off the queue is in the hands of a releaser that waits for nothing |

## Left out

- FilterAdd.Add: if what is loaded of an old filter is out of order or belongs to another index, which can happen only with a layout that loses fingerprints anyway, `ok` is false and nothing is said of the filter; the source has debug assertions there, and without them would write outside its buffer or leave the items out.
- FilterAdd.Add: asks for `log_index_size` of at least 1, which `splinterdb/src/splinterdb.c:98-99` makes sure of; with 0 a filter of one fingerprint and 32-bit items would shift a `uint32` by 32.
- FilterAdd.Add: the place of blocks on pages, the index pages, the limit of 4096 fingerprints per block and the length of an empty block are not modelled; where values are placed below fingerprints, an or of disjoint bits is written as a sum.
- FilterAdd.Add: `num_unique` and the estimates made from it are approximate statistics and are left out.
- RoutingFilter.Lookup: the bit mask of found values is a set here; the limit of 64 values is that of the mask.
- PageTree.Insert: where a parent refuses a pivot the source stops at an assertion, for a leaf, or goes on without the right part of the node, for an index node; here the insertion ends with `NoRoom` in both cases, and nothing is said of the tree. For a key below all others it is left open for which lengths between an eleventh of a page and the input of `FullParent` a refusal is first possible.
- PageTree.Insert: pages are values that the methods load into node objects and store again; a new page takes the next of the free addresses. The links between neighbouring leaves are left out.
- PageTree.Insert: concurrent descents with their claims and locks, the retry after a failed claim, and generations of nodes are left out; insertions run one at a time.
- PageTree.MergesFit: merged messages are assumed to stay within the limit of messages, which is up to the callbacks; the source does not check it.
- BTree.Find: lookups work on what the pages say, not on the pages.
- Lookup.CoreLookup: works on a snapshot of the memtables and the trunk; the same among other threads is `ConcurrentLookup.EarlyAnswerIsReplay` and `ConcurrentLookup.TrunkAnswerIsReplay`.
- MemtableRuns.LookupsAreLinearizable: the memtable context is a state machine over values instead of a class, as several threads change it; steps are sequentially consistent, and a memtable is read in one step. A lookup may stop after any memtable; that it does so exactly at a definitive message is asked for in `ConcurrentLookup.EarlyAnswerIsReplay`.
- MemtableRuns.RunsAreSafe: trunk nodes, the write-ahead log, `memtable_force_finalize`, shutdown and mounting are left out; the trunk is the sequence of the tuples it has absorbed, and its root is replaced in one step.
- MergeIterator.MergeAll: forward runs only; changes of direction, the limit of 64 inputs and running out of memory are left out. An input is the sequence of the tuples it has left.
- PackedArray.Unpack: words are bit vectors as sequences of booleans; the generated cases of the 32 widths are one method with the width as a parameter.
- RadixSort.Sort: the loop over bytes of a little-endian word; big-endian machines are left out.
- Packing.Pack: the fingerprints collected on the way, the clock inherited by pages, the abort in the middle of an extent, and the limit of 8 on the height are left out. Tuples are within the limits of `btree_insert`; for longer ones the source stops at an assertion.
- Rank.GetRank: nothing is said of a counter whose total reaches the marker for unknown values; it may have stuck at the marker or wrapped around.
- RcAllocator.Allocator.Alloc: one thread at a time, with addresses and statistics; allocations of several threads are in `ConcurrentAllocator`. The hand, the reference counts and addresses do not wrap around. Statistics by page type, the high-water mark and the file of counts are left out.
- RcAllocator.Allocator.FindFree: the scan runs alone; the scans of competing threads are in `ConcurrentAllocator`.
- ConcurrentAllocator.RunsAreSafe: steps are sequentially consistent. A thread takes and gives only references that it holds; that a thread may hand a reference to another one is a step of the model.
- MiniAllocator.Mini.Alloc: one call at a time, down to the meta pages; calls of several threads are in `ConcurrentMini`. Pinned pages and an allocator that is loaded again after a mount are left out.
- ConcurrentMini.RunsAreSafe: appending to the list of meta pages, which has a lock of its own, is one step, and so is getting an extent, which comes from `ConcurrentAllocator`.
- MiniRelease.Lifetime: a full disk stops the process in the source; here the operation returns false and promises nothing more.
- TaskQuiescence.TrueMeansQuiet: threads are not created or stopped, and a condition variable wakes its waiters at any time. That work is eventually done is not claimed.
- WaitQueue.NoWakeUpIsLost: waiters of one queue wait for one condition; sequentially consistent steps; that a releaser eventually finishes its calls is not claimed.
- The cache, disk I/O, page locking beyond what is named above, checksums, thread creation, heap failures, printing and statistics: plumbing.
- B-tree iterators, their behaviour under concurrent splits, and the range iterator over memtables and trunk: they depend on trunk code that is not part of this model.
- `pcq.h`, `shard_log.c` and the macros behind asynchronous functions: their properties are smaller than those above.
