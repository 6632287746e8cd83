# bcachefs mark-and-sweep GC, modelled in Dafny

This project models the core of `fs/bcachefs/btree_gc.c`, the garbage collector
of the bcachefs filesystem. The model covers these parts:

- **The mark pass (`bch2_gc`).**
  - It allocates a shadow ("gc") copy of every device's bucket array, of the
    stripe table and of the usage counters.
  - It walks the superblocks, the btrees and the allocator. The global GC
    position only ever moves forward during the walk.
  - It restarts the whole pass while another pass is asked for, at most three
    times.
  - On success, `bch2_gc_done` reconciles the live state with the shadow state.
  - On every exit path the position goes back to `GC_PHASE_NOT_RUNNING` and the
    shadow state is freed.
- **Per-key marking (`bch2_gc_mark_key`).**
  - During the initial pass, `bch2_check_fix_ptrs` checks each pointer's
    generation against its bucket.
  - For cached pointers it adopts the pointer's generation in the bucket.
  - Otherwise it writes a repaired key into the journal keys.
  - After that, every pointer lowers its shadow bucket's `oldest_gen` and
    raises the running `max_stale`. `max_stale` decides whether a btree node is
    rewritten.
- **The topology check (`bch2_gc_check_topology`).** For each child pointer of
  an interior node it computes the expected start. It detects a wrong
  `min_key` or a wrong `max_key` and queues the corrected pointer.
- **`mark_metadata_sectors`.** It splits a sector range into per-bucket calls.
- **The generation-only pass (`bch2_gc_gens`).**
  - Each bucket's `gc_gen` starts again at its generation.
  - The pointers of every key pull `gc_gen` back. A key with a pointer more
    than 16 generations behind is rewritten instead.
  - When the walk succeeds, `gc_gen` is published as `oldest_gen`. Both bucket
    loops start at the device's `first_bucket`.
- **The btree id order (`bch2_gc_btrees`).** The ids are bubble-sorted by GC
  phase.
- **Node coalescing (`bch2_coalesce_nodes` and the sliding window of
  `bch2_coalesce_btree`).**
  - There is a fit test: the keys must fit in one node fewer.
  - Keys are redistributed between neighbouring replacement nodes.
  - A keylist of whiteouts and new keys is queued for the parent.
  - The four-slot window is updated.

The model has three parts:

- **Pure decision logic** is written as datatypes and functions over value
  stores: `Store` is a sequence of devices, each a sequence of `Bucket`s. This
  covers the pointer check, key marking, the topology check, the gens walk and
  the redistribution arithmetic.
- **The in-place loops** are methods over `array`s proved against those
  functions. These are the shadow set-up and reconciliation, the gens-pass
  bucket loops, the bubble sort, the redistribution and keylist loops, and the
  window shifts.
- **The filesystem state** that `bch2_gc` and `bch2_gc_gens` update is the
  class `FsState.Fs`. It holds the live and shadow bucket arrays, the stripe
  tables, the counters, the GC position and the flag bits.

Other modelling choices:

- Generations are 8-bit.
- A btree position is modelled by its rank in the position order, a natural
  number up to `PosMax`. `bkey_successor` is then "plus one".
- What the file calls into from another file is a parameter of the model, or
  is left out. This covers journal updates, btree iterators, node allocation
  and the accounting in `buckets.c`. Three small helpers from other files are
  modelled, because the file's behaviour depends on them: `for_each_bucket`
  (from `first_bucket` up), `bubble_sort` and `bch2_keylist_add_in_order`.

Where the code and its description disagree, the model follows the code:

- For a cached pointer from the future, only the live bucket loses its data
  type and sector counts; the shadow bucket keeps them (lines 197-204).
- The restart test `iter++ <= 2` allows three restarts, so up to four passes
  (line 1035).
- `bch2_gc_mark_key` lowers `oldest_gen` with the pointers of the key as it was
  read, even when the pointer check rewrote the key (lines 287 and 318-326).
- `bch2_gc_done` copies `oldest_gen` without comparing it and without setting
  `NEED_ALLOC_WRITE` (line 848).

## Model

| member | source | states |
|---|---|---|
| Base.GenCmp | fs/bcachefs/btree_gc.c:192-211 | gen_cmp as used here: a signed-byte result congruent to a - b modulo 256 |
| Base.GenAfter | fs/bcachefs/btree_gc.c:322-323 | gen_after: 0 exactly when a is not ahead of b, otherwise the distance gen_cmp gives |
| Base.GenCmpZero | fs/bcachefs/btree_gc.c:192-216 | gen_cmp is 0 exactly when the generations are equal |
| Base.GenCmpAsymmetric | fs/bcachefs/btree_gc.c:192-216 | a pointer ahead of its bucket means the bucket is behind the pointer |
| Base.GenCmpNoWrap | fs/bcachefs/btree_gc.c:192-216 | within 128 generations gen_cmp and gen_after are plain subtraction |
| Base.Successor | fs/bcachefs/btree_gc.c:65-67 | bkey_successor is the next position; it needs a position below POS_MAX |
| Base.CeilDiv | fs/bcachefs/btree_gc.c:1251 | DIV_ROUND_UP: the least r with r * b >= a |
| Buckets.Put | fs/bcachefs/btree_gc.c:184-185 | writing through a pointer replaces its bucket and no other |
| Topology.ExpectedStart | fs/bcachefs/btree_gc.c:63-67 | the expected start is the node's min_key for the first child, else the successor of the previous child's position |
| Topology.Corrected | fs/bcachefs/btree_gc.c:105-133 | the key that stands for cur: min_key := expected start on a min mismatch, p := node end on a max mismatch, RANGE_UPDATED set on a v2 key only when something is written; cur itself when neither mismatch occurs |
| Topology.CheckTopology | fs/bcachefs/btree_gc.c:57-161 | prev becomes the uncorrected cur; nothing is written exactly when neither mismatch occurs; a max mismatch deletes the old position and then inserts the corrected key; a min-only mismatch only inserts |
| Topology.NodeCheckKeys | fs/bcachefs/btree_gc.c:350-373 | after the fold every child keeps its kind, and every child but the last its position |
| Topology.NothingWrittenKeepsKeys | fs/bcachefs/btree_gc.c:350-373 | when nothing is written for a node, every child is exactly as it was |
| Topology.ChangedKeysInserted | fs/bcachefs/btree_gc.c:105-140 | every child that changes is replaced by a key inserted into the journal keys |
| Topology.TilesCons | fs/bcachefs/btree_gc.c:63-67 | a run of children tiles a range exactly when its head starts there and its tail tiles the rest |
| Topology.CheckNodeStep | fs/bcachefs/btree_gc.c:350-373 | one step of the fold: the head stands as Corrected gives it (itself when it starts where expected), the tail is checked with the head as prev, and nothing is written exactly when the head starts where expected and nothing is written for the tail |
| Topology.CorrectedTiles | fs/bcachefs/btree_gc.c:63-133 | the corrected children of an all-v2 node start at the expected start, follow each other without gaps and end at the node's end |
| Topology.RepairRestoresTiling | fs/bcachefs/btree_gc.c:350-373 | after repair the children of an all-v2 node tile exactly the node's range |
| Topology.NoRepairIffTiles | fs/bcachefs/btree_gc.c:63-101 | no journal operation is queued if and only if the children already tile the range |
| Topology.CheckNodeTopology | fs/bcachefs/btree_gc.c:350-373 | the fold over an interior node gives one key per child; the keys and the journal operations are characterised by NodeCheckKeys, NothingWrittenKeepsKeys, ChangedKeysInserted, RepairRestoresTiling and NoRepairIffTiles |
| PtrRepair.CheckPtr | fs/bcachefs/btree_gc.c:173-226 | one pointer's four checks keep the shape of both bucket stores; their effects are stated by the lemmas below |
| PtrRepair.CheckPtrEffect | fs/bcachefs/btree_gc.c:173-226 | do_update becomes set exactly when the pointer is flagged; a cached pointer leaves its bucket undroppable; a dirty pointer changes nothing but do_update; other buckets are untouched |
| PtrRepair.CachedPtrAdoptsGen | fs/bcachefs/btree_gc.c:178-208 | a cached pointer to a bucket without a valid generation makes both copies take its generation and gen_valid and sets NEED_ALLOC_WRITE; a cached pointer from the future does the same, clears the live bucket's data type and sector counts and sets NEED_ANOTHER_GC; otherwise the buckets stay |
| PtrRepair.CachedPtrRepaired | fs/bcachefs/btree_gc.c:178-208 | a cached pointer sets do_update only for a dead stripe and is never dropped afterwards |
| PtrRepair.DirtyPtrDecision | fs/bcachefs/btree_gc.c:187-216 | a dirty pointer only decides do_update: set when its bucket has no valid generation, is behind it, is ahead of it, or its stripe is dead |
| PtrRepair.CheckPtrDecision | fs/bcachefs/btree_gc.c:173-226 | the do_update decision and the drop status of one pointer, for cached and dirty pointers |
| PtrRepair.CheckPtrFrame | fs/bcachefs/btree_gc.c:173-226 | checking one pointer leaves every other bucket alone |
| PtrRepair.CheckPtrsFrame | fs/bcachefs/btree_gc.c:173-226 | the loop over a key never touches a bucket none of its pointers refers to |
| PtrRepair.CheckPtrsDoUpdate | fs/bcachefs/btree_gc.c:173-226 | for a key with distinct buckets, do_update is set exactly when some pointer is flagged, judged on the buckets as they were before the loop |
| PtrRepair.CheckPtrsDrops | fs/bcachefs/btree_gc.c:173-254 | after the loop no cached pointer is dropped, and a dirty pointer is dropped exactly when it was stale to begin with |
| PtrRepair.DropDeadStripe | fs/bcachefs/btree_gc.c:256-268 | a pointer loses its stripe entry exactly when the stripe is missing or dead, and keeps its device, bucket, generation and cached bit |
| PtrRepair.RepairPtrs | fs/bcachefs/btree_gc.c:245-268 | the rewritten key's pointers are no more than the old ones and carry no dead stripe entry |
| PtrRepair.RepairPtrsMembers | fs/bcachefs/btree_gc.c:245-268 | every pointer of the rewritten key comes from a pointer the drop predicate spares, and every spared pointer is kept (with its dead stripe entry removed) |
| PtrRepair.RepairPtrsDistinct | fs/bcachefs/btree_gc.c:245-268 | the rewritten key still refers to distinct buckets |
| PtrRepair.CheckFixPtrs | fs/bcachefs/btree_gc.c:163-278 | the result is 0 or -EINVAL; -EINVAL exactly for a root that needs an update; the key is staged exactly for a non-root that needs one; an unstaged key is unchanged; a staged key keeps its position and version and holds RepairPtrs of its pointers |
| PtrRepair.RepairSettles | fs/bcachefs/btree_gc.c:163-278 | when no dirty pointer is from the future or points at a bucket without a valid generation, checking the repaired key against the repaired buckets changes nothing more |
| PtrRepair.StaleDirtyPtrRemoved | fs/bcachefs/btree_gc.c:210-254 | a dirty pointer at generation 3 into a bucket at generation 5 is removed from the rewritten key, and the buckets stay as they were |
| PtrRepair.FutureDirtyPtrKept | fs/bcachefs/btree_gc.c:192-254 | a dirty pointer from the future sets do_update but survives the drop predicate, so the rewritten key is flagged again |
| MarkKey.SetField | fs/bcachefs/btree_gc.c:322-323 | writing oldest_gen or gc_gen changes that field only |
| MarkKey.LowerOne | fs/bcachefs/btree_gc.c:322-323 | one pointer: the bucket's field ends up not after the pointer's generation; it either stays or moves back to exactly that generation; other buckets stay |
| MarkKey.LowerMovesToPtrGen | fs/bcachefs/btree_gc.c:318-326 | over a key, a bucket's field only moves to the generation of a pointer that refers to it, and nothing else in the bucket changes |
| MarkKey.LowerDistinct | fs/bcachefs/btree_gc.c:318-326 | with distinct buckets, each pointer's bucket ends at the pointer's generation if it was after it, else unchanged |
| MarkKey.LowerUntouched | fs/bcachefs/btree_gc.c:318-326 | buckets no pointer refers to keep their contents |
| MarkKey.MaxStale | fs/bcachefs/btree_gc.c:325 | max_stale is at least its old value and every pointer's staleness, and equals one of them |
| MarkKey.GcMarkKey | fs/bcachefs/btree_gc.c:282-334 | the key version only rises, and during the initial pass to at least the key's own; a replicas error returns it and changes nothing else; outside the initial pass the live buckets and the key stay as they were; otherwise max_stale is the running maximum of the incoming value and every pointer's staleness (MaxStale), and during the initial pass the result, the key and the live buckets are those of CheckFixPtrs |
| MarkKey.MarkKeyOldestGen | fs/bcachefs/btree_gc.c:318-326 | after marking, each pointer's shadow bucket's oldest_gen is not after that pointer |
| MarkKey.MarkKeyOldestFromPtr | fs/bcachefs/btree_gc.c:287-326 | after marking, a shadow bucket is as the pointer check left it or has oldest_gen set to the generation of one of the read key's pointers into it |
| MarkKey.ShouldRewriteNode | fs/bcachefs/btree_gc.c:406-418 | never during the initial pass; always above 64 stale; above 16 stale or forced, unless rewriting is disabled; never otherwise |
| Metadata.BucketBounds | fs/bcachefs/btree_gc.c:607 | sector_to_bucket gives the bucket whose sectors contain the sector |
| Metadata.MarkMetadataSectors | fs/bcachefs/btree_gc.c:602-618 | at least one call; call i is for bucket sector_to_bucket(start) + i; no call crosses its bucket's end; the sectors sum to end - start; a non-empty range makes no empty call; an empty range makes a single call of 0 sectors |
| GcOrder.Phase | fs/bcachefs/btree_gc.c:955 | gc_phase(p) is the position at the start of phase p |
| GcOrder.PosLtStrictTotal | fs/bcachefs/btree_gc.c:47-51 | the lexicographic position order is irreflexive, asymmetric, transitive and total |
| GcOrder.PhaseCmp | fs/bcachefs/btree_gc.c:573-577 | the comparison is positive, zero or negative exactly as the first id's phase is above, equal to or below the second's |
| GcOrder.SortByPhase | fs/bcachefs/btree_gc.c:579-586 | the sorted id array is a permutation of 0 .. n-1, ordered by phase, with equal phases in ascending id order |
| GcOrder.BubblePass | fs/bcachefs/btree_gc.c:586 | one bubble pass keeps the multiset of ids, moves the largest phase of the prefix to its end, keeps equal phases in order, and a pass without a swap leaves the prefix sorted |
| GcOrder.SwapKeepsOrder | fs/bcachefs/btree_gc.c:586 | swapping neighbours of different phase keeps the multiset and the order of equal phases |
| GcOrder.SortedWhole | fs/bcachefs/btree_gc.c:586 | a sorted suffix and a sorted prefix give an array ordered by phase |
| Gens.GensKey | fs/bcachefs/btree_gc.c:1090-1116 | a key too stale leaves the buckets exactly as they were |
| Gens.GensKeyKeepsMarks | fs/bcachefs/btree_gc.c:1106-1112 | gc_btree_gens_key changes gc_gen and nothing else |
| Gens.SameMarksStale | fs/bcachefs/btree_gc.c:1100 | whether a key is too stale depends only on the buckets' marks |
| Gens.GensWalk | fs/bcachefs/btree_gc.c:1122-1162 | the walk keeps the store's shape, and an error is the commit result of a key that was too stale |
| Gens.GensWalkOnlyGcGen | fs/bcachefs/btree_gc.c:1122-1162 | the walk changes only gc_gen; a bucket's gc_gen is the one it started with or the generation of a pointer into it from a key that was not rewritten |
| Gens.ResetGc | fs/bcachefs/btree_gc.c:1179-1186 | every bucket from its device's first_bucket up has gc_gen set to its generation; buckets below first_bucket and all other fields are unchanged |
| Gens.Publish | fs/bcachefs/btree_gc.c:1197-1204 | every bucket from its device's first_bucket up has oldest_gen set to its gc_gen; buckets below first_bucket and all other fields are unchanged |
| Gens.GcGens | fs/bcachefs/btree_gc.c:1164-1210 | the pass keeps the store's shape |
| Gens.GcGensBucket | fs/bcachefs/btree_gc.c:1164-1210 | the pass keeps each bucket's mark and gen_valid; for a bucket from first_bucket up, after success oldest_gen equals gc_gen and is the bucket's generation or that of a pointer into it from a key that was not rewritten; after a failure, and below first_bucket always, oldest_gen is untouched |
| Reconcile.StartShadow | fs/bcachefs/btree_gc.c:926-971 | the shadow array of a device has the live array's size; each shadow bucket has gen = oldest_gen = the live gen, the live gen_valid, and every other field zero |
| Reconcile.DoneBuckets | fs/bcachefs/btree_gc.c:840-849 | each live bucket takes the shadow's six mark fields and oldest_gen and keeps the rest; the change flag is set exactly when some mark differed |
| Reconcile.CountNonzero | fs/bcachefs/btree_gc.c:824-826 | the count is at most the length, zero exactly when all entries are zero and full exactly when none is |
| Reconcile.CountNonempty | fs/bcachefs/btree_gc.c:824-826 | blocks_nonempty is the number of nonzero block_sectors entries below nr_blocks |
| Reconcile.CopyBlockSectors | fs/bcachefs/btree_gc.c:820-822 | the live block counts become the shadow's, and the change flag is set exactly when they differed |
| Reconcile.DoneStripes | fs/bcachefs/btree_gc.c:803-830 | 0 exactly when every shadow stripe has its live stripe's shape, and then all stripes are reconciled; otherwise -EINVAL: the stripes before the first mismatch are reconciled, the change flag says whether any of their block counts differed, and the rest are untouched |
| Reconcile.DoneStep | fs/bcachefs/btree_gc.c:807-829 | reconciling one more stripe extends the reconciled prefix |
| Reconcile.DoneFail | fs/bcachefs/btree_gc.c:810-817 | a shape mismatch stops the loop at that stripe |
| Reconcile.DoneKeepsShape | fs/bcachefs/btree_gc.c:803-830 | reconciling keeps every live stripe well formed |
| Reconcile.FailKeepsShape | fs/bcachefs/btree_gc.c:803-830 | so does a stripe pass that stopped early |
| Reconcile.ResetGcGen | fs/bcachefs/btree_gc.c:1183-1184 | the array is ResetGcDev of what it was: gc_gen reset from first_bucket to the end |
| Reconcile.PublishOldestGen | fs/bcachefs/btree_gc.c:1201-1202 | the array is PublishDev of what it was: oldest_gen published from first_bucket to the end |
| FsState.StartShadows | fs/bcachefs/btree_gc.c:922-972 | one fresh shadow array per device, of the live size, holding ShadowOf of each live bucket |
| FsState.DoneArrays | fs/bcachefs/btree_gc.c:835-849 | every device's live buckets are reconciled with their shadows; the change flag is set exactly when some device's marks differed |
| FsState.RestartLoop | fs/bcachefs/btree_gc.c:1012-1051 | the restart loop makes between one and four passes and counts no more passes than it makes |
| FsState.LastPass | fs/bcachefs/btree_gc.c:1030-1047 | the last pass is the first that asks for no other pass, or the fourth |
| FsState.RestartLoopClosed | fs/bcachefs/btree_gc.c:1012-1051 | the loop's result, pass count, counted passes and final flag are those read off the passes directly: the last pass's error, else -EINVAL when even the fourth pass asks for another, else 0 |
| FsState.Fs.GcPosSet | fs/bcachefs/btree_gc.c:47-51 | the position can only move strictly forward |
| FsState.Fs.ResetGcPos | fs/bcachefs/btree_gc.c:38-45 | __gc_pos_set to GC_PHASE_NOT_RUNNING, the only move back |
| FsState.Fs.GcFree | fs/bcachefs/btree_gc.c:739-758 | the shadow buckets, stripes and counters are gone |
| FsState.Fs.GcStart | fs/bcachefs/btree_gc.c:907-977 | fresh shadow arrays holding ShadowOf each live bucket, zeroed shadow counters, and the position at GC_PHASE_START |
| FsState.Fs.DoneDevices | fs/bcachefs/btree_gc.c:835-849 | every live bucket array, holding what the pass left in it, is reconciled with its shadow (MarksTaken: the six mark fields and oldest_gen taken, the rest kept); the change flag is set exactly when some mark differed |
| FsState.Fs.DoneAllStripes | fs/bcachefs/btree_gc.c:803-830 | as DoneStripes, on the live table; the change flag says whether a block count differed, over all stripes on success and over the stripes before the mismatch on failure |
| FsState.Fs.DoneCounters | fs/bcachefs/btree_gc.c:851-894 | the device and filesystem counters become the shadow's, and the change flag is set exactly when any differed |
| FsState.Fs.GcDone | fs/bcachefs/btree_gc.c:760-905 | 0 or -EINVAL, 0 exactly when all stripe shapes agree; on success CleanDone: all stripes reconciled, buckets reconciled with the shadow, counters taken, and NEED_ALLOC_WRITE set exactly when it was set or a block count, a mark or a counter differed; on failure FailedDone: the stripes before the mismatch reconciled, the rest untouched, NEED_ALLOC_WRITE set exactly when it was set or one of their block counts differed; buckets and counters untouched |
| FsState.Fs.DoneBucketsAndCounters | fs/bcachefs/btree_gc.c:835-894 | buckets reconciled (MarksTaken), counters taken from the shadow, NEED_ALLOC_WRITE set exactly when it was set, the stripes changed, or a mark or a counter differed |
| FsState.Fs.StaleCheck | fs/bcachefs/btree_gc.c:1096-1104 | the loop reports the key too stale exactly when TooStale holds |
| FsState.Fs.LowerGcGen | fs/bcachefs/btree_gc.c:1110-1111 | the live buckets become LowerOne of what they were |
| FsState.Fs.GensKeyInPlace | fs/bcachefs/btree_gc.c:1090-1116 | the in-place key step returns TooStale and leaves the buckets as GensKey says |
| FsState.Fs.ResetAll | fs/bcachefs/btree_gc.c:1179-1186 | the live buckets become ResetGc of what they were, with each device's first_bucket |
| FsState.Fs.PublishAll | fs/bcachefs/btree_gc.c:1197-1204 | the live buckets become Publish of what they were, with each device's first_bucket |
| FsState.Fs.WalkKeys | fs/bcachefs/btree_gc.c:1188-1195 | the in-place walk yields GensWalk's error and buckets |
| FsState.Fs.GcGensPass | fs/bcachefs/btree_gc.c:1164-1210 | the buckets end as GcGens says, and gc_count goes up by one exactly on success |
| FsState.Fs.WalkPositions | fs/bcachefs/btree_gc.c:394-432 | a strictly increasing walk leaves the position at its last element |
| FsState.Fs.FillShadow | fs/bcachefs/btree_gc.c:1017-1026 | the shadow buckets hold the pass's marks; this step writes no live bucket |
| FsState.Fs.FillLive | fs/bcachefs/btree_gc.c:184-203 | the live buckets hold what the initial pass's pointer checks left in them; the shadow buckets stay |
| FsState.Fs.FillStores | fs/bcachefs/btree_gc.c:184-203 | both stores as the pass left them: live buckets from the pointer checks, shadow buckets from the marking |
| FsState.Fs.MarkFields | fs/bcachefs/btree_gc.c:1017-1026 | NEED_ANOTHER_GC and NEED_ALLOC_WRITE gain the pass's requests; the shadow stripes and counters are the pass's; the position is the last one the walk set, or GC_PHASE_SB when it set none |
| FsState.Fs.MarkPass | fs/bcachefs/btree_gc.c:1017-1026 | NEED_ANOTHER_GC gains the pass's request and NEED_ALLOC_WRITE the pointer checks' request; the shadow state holds the pass's marks and the live buckets what the pointer checks left; the position is the last one the pass set (after a failed btree walk, the last one set before the failure), or GC_PHASE_SB when it set none |
| FsState.Fs.RunPass | fs/bcachefs/btree_gc.c:1013-1026 | bch2_gc_start then one marking pass: the flags gain the pass's requests, the shadow state holds its marks and the live buckets what its pointer checks left |
| FsState.Fs.OnePass | fs/bcachefs/btree_gc.c:1013-1031 | the pass's error is returned; gc_count goes up exactly when it succeeded; another pass is asked for exactly on success with NEED_ANOTHER_GC or a forced restart; NEED_ALLOC_WRITE gains the pass's request and the live buckets are what the pass left |
| FsState.Fs.NextPass | fs/bcachefs/btree_gc.c:1035-1046 | after a restart NEED_ANOTHER_GC is exactly the new pass's request, and the pass runs unforced, as OnePass says |
| FsState.Fs.Restart | fs/bcachefs/btree_gc.c:1035-1046 | NEED_ANOTHER_GC cleared, position back to GC_PHASE_NOT_RUNNING, shadow state freed |
| FsState.Fs.RestartPasses | fs/bcachefs/btree_gc.c:1012-1051 | the loop ends at LastPass with LoopRet, gc_count grows by LoopCounted, the flag is LoopFlag, the shadow state holds the last pass's marks, the live buckets what the last pass left, and NEED_ALLOC_WRITE is set exactly when it was set or some pass up to the last asked for it (AllocWriteUpTo) |
| FsState.NoAllocWriteUpTo | fs/bcachefs/btree_gc.c:184-203 | passes with no pointer-check request leave AllocWriteUpTo false |
| FsState.LastPassAfter | fs/bcachefs/btree_gc.c:1035 | a pass that asks for another, below the fourth, is not the last |
| FsState.LoopExit | fs/bcachefs/btree_gc.c:1035-1051 | where the loop stops is LastPass, and the closed forms LoopRet, LoopCounted and LoopFlag read off that pass |
| FsState.Fs.DoneIfClean | fs/bcachefs/btree_gc.c:1057 | a loop error is returned with stripes, counters, live buckets and NEED_ALLOC_WRITE untouched; otherwise GcDone's result and effects |
| FsState.Fs.GcOut | fs/bcachefs/btree_gc.c:1052-1068 | as DoneIfClean, and on every path the position is back at GC_PHASE_NOT_RUNNING and the shadow state freed |
| FsState.Fs.EndGc | fs/bcachefs/btree_gc.c:1064-1067 | position back at GC_PHASE_NOT_RUNNING and shadow state freed |
| FsState.Fs.Gc | fs/bcachefs/btree_gc.c:997-1088 | passes and restarts go as the closed forms LastPass, LoopRet, LoopCounted and LoopFlag say (tied to RestartLoop by RestartLoopClosed); a loop error is returned with stripes and counters untouched, the live buckets as the last pass left them and NEED_ALLOC_WRITE raised only by the passes' pointer checks, and outside an initial pass with buckets and NEED_ALLOC_WRITE untouched; otherwise ret is 0 exactly when the last pass's stripe shapes agree, with CleanDone on success and FailedDone on failure; the shadow state is always freed and the position always reset |
| Coalesce.Leading | fs/bcachefs/btree_gc.c:1243 | the nodes at the head of the window, up to its first empty slot |
| Coalesce.CountLive | fs/bcachefs/btree_gc.c:1242-1246 | the number of leading nodes and the sum of their live u64s |
| Coalesce.FitsInFewer | fs/bcachefs/btree_gc.c:1248-1252 | passing the fit test means the live keys fit in one node fewer, each holding no more than the 2/3 budget leaves after its header |
| Coalesce.FitLen | fs/bcachefs/btree_gc.c:1314-1322 | the counting loop takes the longest prefix of n2's keys that keeps n1 within the budget |
| Coalesce.FitCount | fs/bcachefs/btree_gc.c:1314-1322 | the loop returns FitLen keys and their u64s |
| Coalesce.PartBounds | fs/bcachefs/btree_gc.c:1343 | a partial move takes some keys of n2 and leaves some |
| Coalesce.StepBoundaries | fs/bcachefs/btree_gc.c:1324-1362 | after a full merge n1 ends where n2 ended, holds n1's keys then n2's, and n2 leaves the array; after a partial move n1 ends at its last key and n2 starts at its successor; otherwise nothing changes |
| Coalesce.StepBudget | fs/bcachefs/btree_gc.c:1314-1322 | keys move into the lower node only while it stays within the budget |
| Coalesce.StepPreserves | fs/bcachefs/btree_gc.c:1304-1362 | one turn keeps the window well formed, the concatenation of all keys, and the range covered; it removes at most one node and adds none |
| Coalesce.Redistribute | fs/bcachefs/btree_gc.c:1304-1362 | the whole loop keeps the window well formed, the concatenated keys, the covered range and the level, and never increases the node count |
| Coalesce.ShiftDown | fs/bcachefs/btree_gc.c:1339-1342 | the entries above the merged slot move down one place |
| Coalesce.MergeDown | fs/bcachefs/btree_gc.c:1324-1342 | the array holds the window after a full merge, with the last slot emptied |
| Coalesce.MovePart | fs/bcachefs/btree_gc.c:1343-1361 | the array holds the window after a partial move |
| Coalesce.Turn | fs/bcachefs/btree_gc.c:1305-1361 | one turn on the array matches Step and empties the freed slot |
| Coalesce.Redistribution | fs/bcachefs/btree_gc.c:1304-1362 | the array loop leaves Redistribute's nodes at the head of the array and empties the slots it frees |
| Coalesce.InsertInOrder | fs/bcachefs/btree_gc.c:1397 | adding in order adds exactly that entry |
| Coalesce.InsertStrict | fs/bcachefs/btree_gc.c:1378-1385 | adding at a free position keeps the keylist strictly ordered |
| Coalesce.AddAll | fs/bcachefs/btree_gc.c:1386-1409 | adding entries one by one adds exactly those entries |
| Coalesce.AddAllStrict | fs/bcachefs/btree_gc.c:1378-1385 | adding entries at distinct free positions keeps the keylist strictly ordered |
| Coalesce.NewKeys | fs/bcachefs/btree_gc.c:1408-1409 | one key per new node, at its max_key, in order |
| Coalesce.DeletesExactly | fs/bcachefs/btree_gc.c:1386-1400 | a whiteout is queued exactly for a position where an old node ends and no new node ends |
| Coalesce.DeletesDistinct | fs/bcachefs/btree_gc.c:1386-1400 | the whiteouts sit at distinct positions |
| Coalesce.EndsDescending | fs/bcachefs/btree_gc.c:1304-1306 | in a well-formed window each node ends below the one before it |
| Coalesce.KeylistOrdered | fs/bcachefs/btree_gc.c:1378-1409 | the keylist is strictly ordered and holds exactly the whiteouts and the new keys |
| Coalesce.FindReused | fs/bcachefs/btree_gc.c:1390-1393 | the search finds a new node ending at p exactly when one exists |
| Coalesce.QueueDeletes | fs/bcachefs/btree_gc.c:1386-1400 | the loop queues the whiteouts in old-node order |
| Coalesce.QueueKeys | fs/bcachefs/btree_gc.c:1386-1409 | the two loops produce the keylist: the whiteouts, then the new keys, each added in order |
| Coalesce.CopyLeading | fs/bcachefs/btree_gc.c:1295-1298 | a fresh array holding the old nodes |
| Coalesce.UpdateWindow | fs/bcachefs/btree_gc.c:1424-1438 | slot 0 takes the first new node and the other old nodes' slots are emptied |
| Coalesce.Rebuild | fs/bcachefs/btree_gc.c:1291-1438 | the window becomes Replaced with Redistribute's first node, and the keylist is Keylist of the old and new nodes |
| Coalesce.CoalesceNodes | fs/bcachefs/btree_gc.c:1227-1445 | the nodes are coalesced exactly when the fit test passes and the update can be prepared; the window and keylist are Coalesced and CoalescedKeys |
| Coalesce.CoalescedShaped | fs/bcachefs/btree_gc.c:1227-1445 | coalescing keeps the window's shape, and slot 0 keeps its level and still ends where it did |
| Coalesce.ShiftWindow | fs/bcachefs/btree_gc.c:1473-1490 | the window is shifted up, b takes slot 0, and the window is cut at the first slot whose node is missing, not relocked or of another level |
| Coalesce.ShiftedShaped | fs/bcachefs/btree_gc.c:1473-1490 | after the shift the taken slots come first, all of b's level, with b in slot 0 |
| Coalesce.ClearSiblings | fs/bcachefs/btree_gc.c:1513-1516 | only slot 0 stays |
| Coalesce.Visit | fs/bcachefs/btree_gc.c:1470-1517 | one window turn returns -ESHUTDOWN exactly when asked to stop; the window is Coalesced from the shifted window, cut to slot 0 when the parent was lost, and slot 0 always holds a node of b's level ending where b ends |

## Left out

- Gen arithmetic: `gen_cmp` and `gen_after` are defined in `buckets.h`, which is not part of this model. They are modelled as a signed-byte difference and its positive part; this is an assumption.
- Positions: `bpos`, `bkey_successor`, `gc_pos_cmp` and the `gc_pos_*` constructors are defined in headers that are not part of this model. Positions are ranks up to `PosMax`; GC positions are (phase, position, level) triples compared lexicographically.
- Base.Successor: requires a position below `POS_MAX`, because the kernel's successor of the last position is a BUG.
- Allocation failures (`-ENOMEM` from `kmalloc`, `kvpmalloc`, `alloc_percpu`, `bch2_ec_mem_alloc`): every allocation is taken to succeed.
- Journal key insert and delete (lines 111-115, 135-139, 270-274) are taken to succeed. The node-cache update of lines 141-157 is not modelled, because it touches only cached copies.
- Accounting in other files: `bch2_mark_key`, `bch2_mark_metadata_bucket`, `bch2_mark_alloc_bucket`, `bch2_mark_bkey_replicas` and the per-cpu counter folding. A marking pass is a `PassOutcome`: its shadow marks, counters and stripes, its result, whether it asked for another pass, the positions it set, and what the pointer checks of an initial pass left in the live buckets and whether they set NEED_ALLOC_WRITE. The per-key pointer checks are modelled in PtrRepair and MarkKey; the pass outcome takes what they leave as given rather than computing it from the keys.
- MarkKey.GcMarkKey: the replicas-marking result is a parameter. Bucket accounting done by `bch2_mark_key` is not modelled.
- The recursive btree walks (`btree_gc_mark_node`, `bch2_gc_btree`, `bch2_gc_btree_init`, `bch2_gc_btree_init_recurse`) and the btree iterators are not modelled. What they visit is a parameter: the keys of a node for the topology fold, the positions a pass sets (a field of the pass outcome) for FsState.Fs.WalkPositions, the rewrite decision for MarkKey.ShouldRewriteNode.
- `bch2_mark_superblocks` and `bch2_mark_allocator_buckets` are modelled only by the positions they set. The free-list enumeration is lock-bound iteration with no logic of its own.
- Locking: `mark_lock`, `gc_lock`, `sb_lock`, the seqcount around `gc_pos` and the spinlocks are not modelled, because the model is sequential. Six-lock relocking in the coalescing window is the parameter `relocked`. Whether the parent stayed locked is `parentLost`.
- The GC thread (`bch2_gc_thread`, `bch2_gc_thread_start`, `bch2_gc_thread_stop`), the freezer and the io-clock timeouts are not modelled. `kthread_should_stop` is the parameter `stop` of Coalesce.Visit.
- `bch2_coalesce` is not modelled. Its loop over btree ids only calls `bch2_coalesce_btree` per id, and each node visit of that is Coalesce.Visit.
- Coalesce.CoalesceNodes: the new key format, `format_fits`, the keylist allocation and the btree update reservation are the single parameter `ready`. Repacking keys into the new format is taken to keep their u64s.
- Coalesce.CoalesceNodes: whiteouts inside nodes are not modelled; a node's live u64s are its keys' u64s. `bch2_btree_insert_node`, node writes and the freeing of old nodes are not modelled. Neither are `bch2_keylist_add_in_order` and `keylist.c`, beyond InsertInOrder.
- Coalesce.CoalesceNodes: requires the window's leading nodes to be well formed, that is, neighbours of one level in descending key order. The source relies on the btree for this.
- bubble_sort is defined in `util.h`, which is not part of this model. GcOrder.SortByPhase follows the usual bubble sort that stops after a pass without swaps.
- `fsck_err_on` is taken as "report and continue". Its mount-option-dependent exits are not modelled.
- The EINTR retry in `bch2_gc_btree_gens` (lines 1148-1149) is not modelled. A rewritten key is not visited again, and the commit result of each rewrite is given.
- Metadata.MarkMetadataSectors: requires `start <= end`. Both calls, at lines 640-646, pass such a range; with `start > end` the source's unsigned subtraction would wrap.
- `#if 0` code, trace points, time statistics and fsck error flushing are not modelled.
