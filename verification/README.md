# OCF cache-line replacement engine, superblock checks, request sizing and reference counter — a Dafny model

This project models four parts of the Open CAS Framework (OCF) cache engine
and proves properties about them.

- **The LRU engine** (`src/ocf_lru.c`):
  - Every cache line has `prev`/`next`/`hot` links. For each partition and
    shard there is a clean list and a dirty list, each a record with `head`,
    `tail`, `num_nodes`, `num_hot`, `last_hot` and `track_hot`. Each
    partition also has a `curr_size`.
  - The engine is a class, `Lru.Engine`, whose arrays are updated in place.
  - A ghost sequence per list, head to tail, and a ghost owner per line give
    the links their meaning. `Valid()` ties them together:
    - the links chain the sequence;
    - the hot nodes are exactly the first `num_hot` nodes, and `last_hot` is
      the last of them;
    - `num_hot` is 0 or below `num_nodes`, so the tail is never hot;
    - a list that does not track hot nodes has none;
    - every line sits on the list of its own partition and shard;
    - `curr_size` is the number of lines on a partition's lists.
  - The list primitives are in `Lru`, with their step lemmas on values in
    `LruList`. The shard-rotation iterator and the three victim walks are in
    `LruIter`, with the mask arithmetic in `LruBits`. Request line assignment
    and cleaning-batch collection are in `LruOps`, freelist population in
    `LruPopulate`, and the metadata actor scan in `LruActor`.
- **The superblock** (`src/metadata/metadata_superblock.c`), in
  `Superblock`: the ordered validator, the load bounds check, the
  flapping-index step and rollback, checksum get/set, the shutdown-status
  update and the segment restore after a failed load.
- **Request sizing** (`src/utils/utils_req.c`), in `Req`:
  - the allocator bucket choice and its cap;
  - the request size;
  - the core-line range;
  - request creation, reference counting and map allocation.
- **The freezable reference counter** (`src/utils/utils_refcnt.c`), in
  `Refcnt`:
  - a `Counter` class with `counter`, `freeze` and `callback` fields;
  - a function on states for every operation;
  - the guard `ocf_lru_clean` builds on it.

Lock attempts are parameters to the model. A `LockEnv` or `Locker` value
answers "would this try-lock succeed?" for each line. Nothing in the model
is concurrent.

`OCF_NUM_LRU_LISTS` and `OCF_LRU_HOT_RATIO` are engine parameters: `L >= 1`
and `hotRatio >= 2`. `OCF_EVICTION_CLEAN_SIZE` is the length of the
cleaning context's `cline` array. The eviction limit is a parameter of
`ReqClines`. `end_marker` is `END` = 0xFFFFFFFF.

## Model

| member | source | states |
|---|---|---|
| Lru.Engine.ListId | src/ocf_lru.c:232-237 | the clean or dirty list of shard `sh` of partition `p` lies inside that partition's block of list ids |
| Lru.Engine.ListIdPart | src/ocf_lru.c:232-237 | a list id lies in the block of partition `q` exactly when it belongs to partition `q` |
| Lru.Engine.ListIdInjective | src/ocf_lru.c:232-237 | distinct (partition, shard, clean) triples name distinct lists |
| Lru.Engine.ClineList | src/ocf_lru.c:239-253 | a line's list is the one of its partition, of shard `cline % OCF_NUM_LRU_LISTS`, and clean iff the line is not dirty |
| Lru.Engine.PartOfList | src/ocf_lru.c:239-253 | a line placed on a list of partition `p` has partition id `p` |
| Lru.Engine.ShardOfList | src/ocf_lru.c:239-253 | in a valid engine, a line on shard `sh` of partition `p` has `c % L == sh` and partition id `p` |
| Lru.Engine.AddHead | src/ocf_lru.c:20-66 | the line becomes head and the list's sequence gains it in front, all other lists unchanged. On an empty list: `head == tail == c`, links END, cold, `num_hot` 0. Otherwise: `c.next` is the old head, the old head's `prev` is `c`, `num_nodes` + 1. On a hot-tracking non-empty list: `c` is hot, `num_hot` + 1, and `c` becomes `last_hot` if the old head was cold |
| Lru.Engine.Remove | src/ocf_lru.c:69-170 | the line leaves its list's sequence and no other list changes. `num_nodes` − 1, `num_hot` − 1 iff it was hot, it is left cold with both links END, and removing the sole node sets head, tail and `last_hot` to END with `num_hot` 0 |
| Lru.Engine.RemoveSole | src/ocf_lru.c:84-102 | removing the only node empties the record and leaves the node unlinked and cold |
| Lru.Engine.RemoveHead | src/ocf_lru.c:107-123 | removing the head advances `head` to its successor, clears `last_hot` if it was the head, and adjusts the counts |
| Lru.Engine.RemoveTail | src/ocf_lru.c:128-139 | removing the tail moves `tail` to its predecessor. The tail is never hot because the hot prefix is shorter than the list |
| Lru.Engine.RemoveInterior | src/ocf_lru.c:144-166 | removing an interior node splices its neighbours and moves `last_hot` back one node if it was `last_hot` |
| LruList.AddHeadLinked | src/ocf_lru.c:20-66 | the link and record updates of `add_lru_head` turn a list that represents `s` into one that represents `[c] + s` |
| LruList.RemoveSoleLinked | src/ocf_lru.c:84-102 | the sole-node updates turn a list representing `[c]` into the empty list |
| LruList.RemoveHeadLinked | src/ocf_lru.c:107-123 | the head-removal updates represent `s[1..]` and touch no line of another list |
| LruList.RemoveTailLinked | src/ocf_lru.c:128-139 | the tail-removal updates represent `s[..|s|-1]` |
| LruList.RemoveMiddleLinked | src/ocf_lru.c:144-166 | the interior-removal updates represent `s` without its `i`-th line |
| LruList.BalanceLinked | src/ocf_lru.c:176-216 | moving the hot boundary one node up or down keeps the list represented, with the hot prefix one longer or shorter |
| LruList.WithoutSpec | src/ocf_lru.c:69-170 | removing a line from a distinct sequence leaves exactly the other lines, still distinct, one fewer |
| Lru.Engine.Balance | src/ocf_lru.c:176-216 | no-op when `!track_hot` or when `num_hot == num_nodes / OCF_LRU_HOT_RATIO`; otherwise `num_hot` moves exactly one step toward that target; only the hot marks and `last_hot` change |
| Lru.Engine.Relink | src/ocf_lru.c:259-262 | remove then add-head then balance moves the line from the source list's sequence to the head of the destination's |
| Lru.Engine.Move | src/ocf_lru.c:255-267 | `ocf_lru_move`: the line moves to the head of the destination list, its partition id becomes the destination, the source `curr_size` − 1 and the destination's + 1, and every other list is unchanged |
| Lru.Engine.MovedCounted | src/ocf_lru.c:255-267 | moving a line between two partitions' lists while adjusting both sizes keeps every `curr_size` equal to its lists' total length |
| Lru.Engine.PartCountUpdate | src/ocf_lru.c:255-267 | replacing one list changes only the line count of the partition that owns it, by the change in length |
| Lru.Engine.RmCline | src/ocf_lru.c:270-288 | the line moves from its own list to the clean freelist list of its shard, its partition becomes the freelist, and the sizes move by one |
| Lru.Engine.Repart | src/ocf_lru.c:290-310 | repartitioning keeps the line's clean/dirty kind and shard, moves it to the destination partition's list and moves one unit of `curr_size` |
| Lru.Engine.CleanCline | src/ocf_lru.c:861-877 | the line moves from the dirty to the clean list of the same partition and shard. It becomes that list's head and no size changes |
| Lru.Engine.DirtyCline | src/ocf_lru.c:879-895 | the line moves from the clean to the dirty list of the same partition and shard. It becomes that list's head and no size changes |
| Lru.Engine.HotCline | src/ocf_lru.c:798-828 | a hot line leaves everything as it was; a cold line is moved to the head of its own list; no line changes list |
| Lru.Engine.MoveToHead | src/ocf_lru.c:486-490 | remove, add-head and balance on the same list move the line to its head and keep the engine valid |
| Lru.Engine.constructor | src/ocf_lru.c:221-230 | every line starts unlinked and cold, every list empty, every size 0, and the engine is valid |
| Lru.Engine.InitialValid | src/ocf_lru.c:221-230 | an engine with all lines unlinked and all lists empty satisfies the invariant |
| Lru.Engine.LruInit | src/ocf_lru.c:830-859 | every clean list of the partition is emptied with `track_hot` set unless it is the freelist, every dirty list of a user partition likewise, the freelist's dirty lists and all other partitions' lists are unchanged, and the partition's `curr_size` becomes 0 |
| Lru.Engine.ResetLists | src/ocf_lru.c:840-856 | the loop over shards resets exactly the partition's lists as `_lru_init` does |
| Lru.Engine.ResetShard | src/ocf_lru.c:846-855 | one shard's clean and dirty records are reset (only the clean one for the freelist) |
| Lru.Engine.ZeroSize | src/ocf_lru.c:858 | setting the emptied partition's `curr_size` to 0 restores the invariant |
| LruBits.Ffs | src/ocf_lru.c:359-369 | the find-first-set of a mask is 0 iff no bit is set, and otherwise names the lowest set bit |
| LruBits.RotateRight | src/ocf_lru.c:359-369 | rotating right by `k` within N bits puts bit `(j + k) % N` at `j` |
| LruBits.RotatePreservesPopCount | src/ocf_lru.c:359-369 | rotation keeps the number of set bits |
| LruBits.ClearTopPopCount | src/ocf_lru.c:378-382 | clearing the set top bit clears exactly one bit and removes one from the count |
| LruBits.NextLruKeepsAvail | src/ocf_lru.c:359-369 | the step of `_lru_next_lru` keeps the set of available shards, lands on an available shard, and leaves the current shard's bit on top |
| LruBits.NextLruSameAvail | src/ocf_lru.c:359-369 | advancing the index and rotating the mask by the same amount describe the same available shards |
| LruBits.NextLruNearest | src/ocf_lru.c:359-369 | the shard chosen is the nearest available one after the current index, in rotation order |
| LruBits.TopBitIsCurrent | src/ocf_lru.c:373-376 | the current shard is available exactly when the mask's top bit is set |
| LruBits.ClearTopAvail | src/ocf_lru.c:378-382 | clearing the top bit removes exactly the current shard from the available set |
| LruBits.AvailEmpty | src/ocf_lru.c:384-387 | no shard is available exactly when the mask has no set bit |
| LruBits.InitThenNext | src/ocf_lru.c:312-336 | with all bits set and index `(start + N - 1) % N`, the first step lands on `start` |
| LruBits.AllSetAvail | src/ocf_lru.c:312-336 | an all-ones mask makes every shard available |
| LruIter.Iter.constructor | src/ocf_lru.c:312-356 | all N shards are available, `num_avail_lrus == N`, the first `NextLru` returns `start_lru`, and each shard's cursor is its list's tail |
| LruIter.Iter.NextLru | src/ocf_lru.c:359-369 | returns an available shard, the nearest one after the old index; the set of available shards is unchanged and the current bit is on top |
| LruIter.Iter.IsEmpty | src/ocf_lru.c:373-376 | true exactly when the current shard is no longer available |
| LruIter.Iter.SetEmpty | src/ocf_lru.c:378-382 | removes exactly the current shard from the available set and decrements `num_avail_lrus`, which stays equal to the set's size |
| LruIter.Iter.AllEmpty | src/ocf_lru.c:384-387 | true exactly when no shard is available |
| LruIter.Iter.Advance | src/ocf_lru.c:567-570 | after a line is taken, the cleaning cursor of its shard moves to the line before it |
| LruIter.EvictionLock | src/ocf_lru.c:415-448 | a candidate is accepted iff its line try-lock succeeds, it is not in the request's own core-line range, the hash try-lock succeeds when needed, and it has no waiters; a rejected candidate keeps no hash lock |
| LruIter.WalkFromTail | src/ocf_lru.c:476-480 | the walk from the tail returns the line nearest the tail that the lock accepts, having refused every line after it, or END when it refuses the whole list |
| LruIter.WalkBack | src/ocf_lru.c:561-566 | from a cursor, the walk returns the first accepted line toward the head, or END if every line up to the cursor is refused |
| LruIter.MoveVictim | src/ocf_lru.c:482-491 | the chosen clean line moves to the head of the destination partition's clean list of its shard |
| LruIter.VictimStep | src/ocf_lru.c:469-499 | one shard visit either finds a victim (and moves it) or marks that shard empty after every line of it was refused |
| LruIter.VictimNext | src/ocf_lru.c:469-502 | the loop returns a victim from an available shard, or END once all shards are exhausted; each shard dropped on the way had every line refused |
| LruIter.EvictionNext | src/ocf_lru.c:459-503 | `lru_iter_eviction_next`: the returned line is a clean tail-most accepted line of the source partition, moved to the destination, with its eviction lock taken; END means every shard refused every line |
| LruIter.FreeNext | src/ocf_lru.c:513-549 | `lru_iter_free_next`: the same for the freelist, with only the line write try-lock as the test |
| LruIter.CleaningStep | src/ocf_lru.c:560-575 | one visit of the cleaning walk either finds a read-lockable dirty line before the shard's cursor or marks the shard exhausted |
| LruIter.CleaningNext | src/ocf_lru.c:554-579 | `lru_iter_cleaning_next`: returns the next lockable line of an available shard walking toward the head, or END once every shard is exhausted |
| LruOps.CanEvict | src/ocf_lru.c:674-682 | eviction is allowed exactly when the pending count is below the limit |
| LruOps.NextMiss | src/ocf_lru.c:765-771 | the scan stops at the first `LOOKUP_MISS` slot from its start |
| LruOps.FindVictim | src/ocf_lru.c:750-760 | picks the eviction or freelist walk by source partition; a found line was the tail-most line of the source's clean list of its shard that the lock accepts (so it came from the source partition), is clean, not yet taken, and is now on the destination's clean list; no other line changes list or partition; every shard the iterator has given up on refuses all its clean lines, and END means every shard was given up on |
| LruOps.RefusedMoved | src/ocf_lru.c:750-760 | taking a victim from one shard leaves every other clean list of the source as it was, so a shard that refused every line still refuses them once the victim is held |
| LruOps.TakeBookkeeping | src/ocf_lru.c:703-706 | filling one more slot with a victim found on the source's clean list keeps three facts: the held lines are the old ones plus the lines in filled slots, every such line came from the source partition, and every other line is where it was |
| LruOps.FirstMissesFilled | src/ocf_lru.c:765-788 | once the missed slots before the scan position are filled and the miss count has dropped by `taken`, the filled slots are exactly the first `taken` missed slots |
| LruOps.CountMissSplit | src/ocf_lru.c:765-771 | the missed slots of the map are those before a position plus those from it on |
| LruOps.Assign | src/ocf_lru.c:765-788 | the found line is mapped into the next miss slot, which becomes `LOOKUP_REMAPPED`, and the number of misses drops by one |
| LruOps.TakeOne | src/ocf_lru.c:746-791 | one turn of the loop either stops with nothing changed or assigns one line, the source's tail-most accepted clean line of its shard, to one miss slot; the lines held are the lines held before plus the lines in filled slots, each of which was on the source's clean list when the loop began, and every other line still has its list and partition from then |
| LruOps.ReqClines | src/ocf_lru.c:712-795 | returns 0 and changes nothing when asked for 0; never returns more than `cline_no`; the changed slots are exactly the first `i` `LOOKUP_MISS` slots, each now `LOOKUP_REMAPPED` with a distinct clean line of the destination partition that was not held before and, before the call, was on the clean list of the source partition for its shard; the lines held on return are the lines held before plus those lines; every line not placed in a slot keeps its list and partition; it returns fewer than `cline_no` only when `ocf_lru_can_evict` refused or every clean line of every shard of the source refuses the lock |
| LruOps.AssignLines | src/ocf_lru.c:746-791 | the `while (i < cline_no)` loop: it stops short of `cline_no` only on a refused `ocf_lru_can_evict` or on END with every clean line of the source refused; the changed slots are the missed slots before the final scan position, each filled with a distinct clean line of the destination that was on the source's clean list at the start; every other line keeps its list and partition |
| LruOps.CountMissFill | src/ocf_lru.c:780 | filling a miss slot lowers the miss count by exactly one |
| LruOps.DirtyLists | src/ocf_lru.c:338-343 | the cleaning walk visits the dirty lists of the partition, one per shard |
| LruOps.ProgressStep | src/ocf_lru.c:658-662 | each collected line keeps the batch distinct, read-locked, and made of the tail-most lockable dirty lines of their shards |
| LruOps.ProgressEnd | src/ocf_lru.c:658-662 | when every shard is exhausted, every read-lockable dirty line of the partition is in the batch |
| LruOps.CollectOne | src/ocf_lru.c:658-661 | one slot is filled with the cleaning walk's next line, keeping the earlier slots |
| LruOps.CollectLines | src/ocf_lru.c:656-663 | the first `n` slots hold distinct read-locked dirty lines of the partition, and if the batch is not full every lockable dirty line was taken |
| LruOps.FillEnd | src/ocf_lru.c:664-665 | the slots after `n` become END and the first `n` are kept |
| LruOps.CollectBatch | src/ocf_lru.c:656-665 | the whole array is a batch: collected lines then END padding |
| LruOps.CleaningCtx.constructor | src/ocf_lru.c:611 | a cleaning context holds a slot array and an idle guard counter |
| LruOps.Clean | src/ocf_lru.c:608-672 | does nothing when management holds the cache; otherwise the guard runs as written, with the `bool` increment, so a pass runs exactly when the increment succeeds, whether or not another pass holds the guard; a pass that runs fills a batch of the partition's dirty lines, advances the eviction index and fires on at most `min(count, OCF_EVICTION_CLEAN_SIZE)` lines |
| LruOps.CleanGet | src/ocf_lru.c:595-606 | the getter returns -1 exactly at END slots and otherwise 0 with the slot's line |
| LruOps.CleanGetServesBatch | src/ocf_lru.c:595-606 | on a batch, the getter succeeds exactly at the first `n` slots, each holding a collected dirty line |
| LruOps.Lines | src/ocf_lru.c:586-590 | the non-END slots of an array, in order |
| LruOps.LinesOfBatch | src/ocf_lru.c:586-590 | on a batch the non-END slots are exactly the collected lines |
| LruOps.CleanEnd | src/ocf_lru.c:581-593 | unlocks the line of every non-END slot, and nothing else, then returns the guard's reference |
| LruPopulate.FirstInvalid | src/ocf_lru.c:897-919 | the first physical index from `phys` whose line is invalid, or the number of entries if none is |
| LruPopulate.NextPhysInvalidAsWritten | src/ocf_lru.c:897-919 | as written: returns the first invalid index, except when every line from `phys` on is valid, where it returns `entries - 1` instead of `entries` |
| LruPopulate.NextPhysInvalid | src/ocf_lru.c:897-919 | corrected scan: returns exactly the first invalid physical index from `phys`, or `entries` |
| LruPopulate.LastLineValidScan | src/ocf_lru.c:897-919 | on two entries with only line 0 invalid, scanning from 1 gives 1 (a valid line) as written and 2 as intended |
| LruPopulate.ScanEnd | src/ocf_lru.c:949-950 | for the corrected scan: the final scan reaches `entries` exactly when no invalid line remains after the last one placed |
| LruPopulate.PlaceFree | src/ocf_lru.c:937-945 | the line joins the head of its shard's clean freelist list with partition id `PARTITION_FREELIST` |
| LruPopulate.PlaceLines | src/ocf_lru.c:931-946 | with the corrected scan, the loop places the invalid lines in physical order and fails only when fewer than `num_free_clines` exist |
| LruPopulate.PopulateAsWritten | src/ocf_lru.c:922-953 | with the scan as written: when the last physical line is invalid, no `ENV_BUG_ON` fires iff `num_free_clines` counts the invalid lines, which are then the lines placed; when it is valid, none fires only with one line more, and then the valid last line is placed on the freelist too |
| LruPopulate.LastLineValidPopulate | src/ocf_lru.c:922-953 | on two entries with only line 0 invalid: as written, asking for 1 line hits the final `ENV_BUG_ON` and asking for 2 passes after placing the valid line 1; the corrected populate passes exactly for 1 |
| LruPopulate.SetFreeSize | src/ocf_lru.c:952 | setting the freelist size to the number placed makes the engine valid again |
| LruPopulate.Populate | src/ocf_lru.c:922-953 | the corrected populate, running the corrected scan: succeeds exactly when `num_free_clines` equals the number of invalid lines; then every invalid line is on its shard's freelist list, valid lines keep their place and partition, user partitions' lists are unchanged, and the freelist's `curr_size` is `num_free_clines` |
| LruActor.IsCacheLineActing | src/ocf_lru.c:955-977 | a line qualifies iff it belongs to a core and, when a core is given, to that core within `[start_line, end_line]` |
| LruActor.ActedMembers | src/ocf_lru.c:989-1050 | the actor acts exactly on the scanned lines that qualify and are not in use |
| LruActor.ActOnAll | src/ocf_lru.c:1007-1021 | with no partition given, the actor acts in index order on every qualifying free line and returns `-OCF_ERR_AGAIN` iff some qualifying line is in use |
| LruActor.ActOnList | src/ocf_lru.c:1030-1045 | walking one list from tail to head acts on its qualifying free lines in that order and reports any in-use one |
| LruActor.ActOnShard | src/ocf_lru.c:1027-1046 | one shard's dirty list then clean list, each from tail to head |
| LruActor.ActOnPart | src/ocf_lru.c:1023-1049 | with a partition given, the actor acts on every shard in order as `ActOnShard` describes |
| LruActor.PartOrderLines | src/ocf_lru.c:1023-1047 | the partition scan visits exactly the lines on that partition's lists |
| LruActor.PartScanLines | src/ocf_lru.c:989-1050 | the partition scan acts on exactly the lines the full scan would act on that belong to the partition, and any refusal it reports the full scan reports too |
| LruActor.MetadataActor | src/ocf_lru.c:989-1050 | `ocf_metadata_actor` converts the byte range to lines and runs the full or the partition scan |
| Refcnt.Counter.constructor | src/utils/utils_refcnt.c:8-52 | a new counter is idle: no references, not frozen, no callback |
| Refcnt.Counter.DecRef | src/utils/utils_refcnt.c:8-15 | decrements the counter, and when it reaches 0 with the callback armed it fires the callback once and disarms it |
| Refcnt.Counter.IncRef | src/utils/utils_refcnt.c:17-30 | increments and returns true only when not frozen; when frozen, returns false with the counter unchanged |
| Refcnt.IncSucceedsIffUnfrozen | src/utils/utils_refcnt.c:17-30 | the increment succeeds iff the counter is not frozen, before or during the call, and then adds exactly one; a failed increment leaves the counter as it was |
| Refcnt.RunKeepsCounterNonNegative | src/utils/utils_refcnt.c:8-15 | no sequence of operations drives the counter below 0 |
| Refcnt.CallbackFiresAtMostOnce | src/utils/utils_refcnt.c:8-15 | over any sequence of operations, one registration fires the callback at most once and the flag stays 0 or 1 |
| Refcnt.Counter.RegisterZeroCbRef | src/utils/utils_refcnt.c:37-47 | registration on a frozen counter arms the callback, or fires it at once if the counter is already 0 |
| Refcnt.RegisterFiresWhenIdle | src/utils/utils_refcnt.c:37-47 | registration fires immediately exactly when the counter is 0 and otherwise leaves the callback armed |
| Refcnt.Counter.FreezeRef | src/utils/utils_refcnt.c:32-35 | increments the freeze count |
| Refcnt.Counter.UnfreezeRef | src/utils/utils_refcnt.c:49-52 | decrements the freeze count |
| Refcnt.FreezeUnfreezeInverse | src/utils/utils_refcnt.c:32-52 | freeze and unfreeze undo each other |
| Refcnt.IncValue | src/ocf_lru.c:636-646 | the count-returning increment the `cnt > 1` test presumes: when not frozen, it adds one and returns the new count; when frozen, it returns 0 with the state unchanged |
| Refcnt.CleanGuardAsWrittenIgnoresHolders | src/ocf_lru.c:636-646 | the guard as written admits a pass exactly when the `bool` increment succeeds, whoever holds the guard, and the admitted pass keeps one reference |
| Refcnt.CleanGuardSingleFlight | src/ocf_lru.c:636-646 | the corrected guard admits a pass iff the counter is idle and unfrozen, leaving it at 1 |
| Refcnt.CleanGuardSecondPassDeclines | src/ocf_lru.c:636-646 | once a pass is admitted, a second attempt is declined |
| Refcnt.CleanGuardAsWrittenAdmitsTwoPasses | src/ocf_lru.c:636-646 | with the boolean increment, two passes in a row are both admitted and the counter reaches 2 |
| Superblock.ValidateIsFirstFailure | src/metadata/metadata_superblock.c:576-615 | validation returns the failure code of the first failing check in order: wrong magic gives `-OCF_ERR_NO_METADATA`, then wrong version gives `-OCF_ERR_METADATA_VER`, then the five field checks give `-OCF_ERR_INVAL`; it returns 0 iff all seven checks pass |
| Superblock.FirstFailureSpec | src/metadata/metadata_superblock.c:576-615 | the first-failure result is 0 iff every check passes, and otherwise is the code of a failing check preceded only by passing ones |
| Superblock.LoadPostCheck | src/metadata/metadata_superblock.c:139-149 | the load fails with `-OCF_ERR_INVAL` exactly when `core_count > OCF_CORE_MAX` or `valid_parts_no > OCF_USER_IO_CLASS_MAX` |
| Superblock.SuperblockMem.FlapStep | src/metadata/metadata_superblock.c:359-372 | stores `(idx + 1) % 2` as the flapping index and changes nothing else |
| Superblock.SuperblockMem.FlapRollback | src/metadata/metadata_superblock.c:391-410 | the failed-flush rollback stores `(idx - 1) % 2` computed in unsigned 32-bit arithmetic, which stays below 2 |
| Superblock.FlapRollbackRestores | src/metadata/metadata_superblock.c:568-574 | with an unsigned field, the rollback at line 405 applied after a flap step restores the earlier index |
| Superblock.SignedRollbackWouldNotRestore | src/metadata/metadata_superblock.c:405 | in signed arithmetic the rollback from index 0 would give -1, which is why the field's unsignedness matters |
| Superblock.AsUnsigned | src/metadata/metadata_superblock.c:594 | the 32-bit unsigned reading of a small negative value adds 2^32 |
| Superblock.ChecksumGetSet | src/metadata/metadata_superblock.c:533-550 | after setting segment `s`'s checksum, getting it returns the value set; other segments and all other fields are unchanged |
| Superblock.SuperblockMem.SetChecksum | src/metadata/metadata_superblock.c:542-550 | writes exactly the one segment's checksum |
| Superblock.SuperblockMem.SetShutdownStatus | src/metadata/metadata_superblock.c:44-71 | sets `clean_shutdown` to the status and `magic_number` to `CACHE_MAGIC_NUMBER`, leaving the rest, so validation cannot report missing metadata |
| Superblock.ShutdownStatusKeepsValid | src/metadata/metadata_superblock.c:65-70 | setting a valid shutdown status on a valid superblock keeps it valid for its version |
| Superblock.RestoreUndoesLoad | src/metadata/metadata_superblock.c:154-174 | after a failed load, every backed-up segment gets its saved contents back and every other segment is left as the load left it |
| Superblock.LoadSbRestore | src/metadata/metadata_superblock.c:154-174 | the restore loop writes back exactly the saved copies of the fixed-size segments |
| Req.BucketIsCeilLog2 | src/utils/utils_req.c:137-152 | the bucket for `count > 0` is `ceil(log2(count))`: `2^bucket >= count`, `2^(bucket-1) < count`, and a power of two maps to itself |
| Req.GetAllocatorCap | src/utils/utils_req.c:137-152 | a bucket exists iff `count <= 128`, and then it is below `ocf_req_size_max` |
| Req.BucketHoldsRequest | src/utils/utils_req.c:53-60 | the request size of the chosen bucket is at least the size a request of `count` lines needs |
| Req.Log2FloorBounds | src/utils/utils_req.c:143-145 | the highest set bit `k` of `n` satisfies `2^k <= n < 2^(k+1)` |
| Req.LowestVsHighestBit | src/utils/utils_req.c:143-145 | the lowest set bit equals the highest exactly for powers of two |
| Req.ReqAllocator.Init | src/utils/utils_req.c:66-105 | initialisation succeeds iff every bucket's allocator is created, and then bucket `i` is sized for `2^i` lines; on failure it returns -1 with every allocator gone |
| Req.ReqAllocator.Deinit | src/utils/utils_req.c:107-129 | every allocator is destroyed |
| Req.CoreLineRangeSpec | src/utils/utils_req.c:173-181 | `first = addr / line_size`; for `bytes > 0` the range covers every byte and `count = last - first + 1`; for `bytes == 0`, `last == first` and `count == 1` |
| Req.New | src/utils/utils_req.c:160-222 | `-EBUSY` iff the queue is not the management queue and the increment fails, `-ENOMEM` iff the allocation fails after that; the new states of the I/O and metadata counters on every branch; on success `ref_count == 1`, `part_id == PARTITION_DEFAULT`, `alloc_core_line_count == core_line_count`, the range is `CoreLineRange`, the map is embedded iff a bucket exists, and each reference the request will give back was taken; on `-ENOMEM` the I/O count ends where it started, or one lower on the management queue when the give-back runs as written; `bug` (the `ENV_BUG_ON` of `ocf_refcnt_dec`) iff the give-back runs as written on the management queue with an I/O count of 0 |
| Req.NewThenPut | src/utils/utils_req.c:160-302 | a request created and put once gives back exactly the references it took: both counts end where they started, on every queue and every outcome |
| Req.NewFailureUnbalancedOnMngtQueue | src/utils/utils_req.c:168-193 | on the management queue with one reference held, a failed allocation as written leaves the I/O count at 0, and with the guarded give-back at 1; from an I/O count of 0 the give-back as written hits the `ENV_BUG_ON` and the guarded one does not |
| Req.Request.constructor | src/utils/utils_req.c:195-218 | a new request has one reference, the default partition, the given line range with `alloc_core_line_count == core_line_count`, the given byte range and direction, and the map embedded or not as chosen |
| Req.Request.AllocMap | src/utils/utils_req.c:224-236 | idempotent: returns 0 without allocating when a map exists; otherwise allocates one, or records `-ENOMEM` in the request's error and returns it |
| Req.Request.Get | src/utils/utils_req.c:270-275 | adds one reference |
| Req.Request.Put | src/utils/utils_req.c:277-302 | drops one reference and releases the request exactly when the count reaches 0, returning the metadata and I/O counters then (each unless the request bypassed it) |

## Left out

- Locks and atomics: the LRU locks, hash-bucket locks, the cache-line
  `alock` and the shared-access brackets are not modelled as locks. A try-lock
  outcome is a parameter (`LockEnv`, `Locker`, `Target`), and atomic updates
  are plain updates. Unlocking the hash bucket after an invalidation, and
  marking the map slot locked, leave no trace in the model.
- `ocf_lru_invalidate` (src/ocf_lru.c:684-701): valid-bit clearing,
  collision-table removal and the per-core counters are calls into metadata
  that is not part of this model. `ocf_engine_patch_req_info` and
  `ocf_map_cache_line` are reduced to setting the slot's line and status.
- `ocf_cleaner_fire`: `LruOps.Clean` returns the batch and the count it
  would hand to the cleaner, and does not model the cleaner itself.
- `OCF_COND_RESCHED_DEFAULT`, `ocf_cache_log` and the `ENV_BUG` logging
  paths. An `ENV_BUG_ON` that a correct caller always satisfies, such as
  `ocf_refcnt_dec` on a reference the caller holds, is a precondition. One
  the caller cannot rule out is a result instead. The two in
  `ocf_lru_populate` are the `ok == false` result of the corrected
  `Populate` and the `bug` result of `PopulateAsWritten`. The one reached
  from the management queue's give-back in `ocf_req_new` is the `bug`
  result of `Req.New`.
- `ocf_lru_num_free` (src/ocf_lru.c:1052-1054) is a plain read of the
  freelist's `curr_size`, which `Valid()` already ties to the freelist's
  length.
- LruActor.MetadataActor: the per-line action is recorded in the returned
  sequence, not performed. An action that unlinks the line being visited is
  not modelled, because the walk reads the line's `prev` after the call.
  `ocf_bytes_2_lines` is modelled as division by the line size.
- Dirty bits and lists: the model assumes that a line on a clean list is
  not dirty (`CleanListsClean`). The code keeps this by moving lines with
  `ocf_lru_clean_cline` and `ocf_lru_dirty_cline` whenever the dirty bit
  changes, and that happens outside this file.
- `next_phys_invalid`'s inner `if (phys == collision_table_entries) break`
  cannot fire, because the loop guard already keeps `phys + 1` below the
  bound. It is left out of both versions.
- Superblock I/O: the load and flush pipelines, `ocf_metadata_read_sb`,
  `ocf_metadata_flush_disk`, `env_crc32`, allocation and `memcpy` are not
  modelled. Segments are byte sequences and a backup is an optional copy.
- The type of the flapping index is declared in a header that is not part of
  this model. Superblock.SuperblockMem.FlapRollback assumes an unsigned
  32-bit field, and SignedRollbackWouldNotRestore shows what a signed one
  would do.
- LruOps.Clean runs the guard as written, with the `bool` returned by
  `ocf_refcnt_inc` in src/utils/utils_refcnt.c:17-30 (see Findings). The
  give-back under `cnt > 1` is unreachable and so has no counterpart in the
  method. The single-flight guard is modelled only as the function
  `CleanGuard`.
- LruPopulate.Populate: runs the corrected scan `NextPhysInvalid`. The run
  as written, where a valid last physical line can be placed on the
  freelist, is modelled by `PopulateAsWritten` only as the sequence of
  lines placed and the `ENV_BUG_ON` outcome. Putting a valid line that may
  already sit on a list at a freelist head would break the list invariant,
  so it is not run on the engine.
- Req.New: `addr + bytes <= U64` is required, so the 64-bit wrap of
  `addr + bytes - 1` at src/utils/utils_req.c:175 is not modelled. The
  management queue's give-back on a failed allocation is chosen by
  `asWritten` (see Findings). When that give-back meets an I/O count of 0,
  the model reports `bug` and stops with the count unchanged. The code
  stops at the `ENV_BUG_ON` of src/utils/utils_refcnt.c:11. Request fields that only carry pointers (queue, cache, core,
  I/O callbacks) are not modelled.
- `ocf_req_new_extended`, `ocf_req_new_discard`, `ocf_req_clear_info` and
  `ocf_req_clear_map` are outside the modelled operations of
  `src/utils/utils_req.c`.
- Req.ReqAllocator.Init: the failures of `env_zalloc` for the allocator
  table and of `snprintf` for an allocator name
  (src/utils/utils_req.c:74-87) are not modelled. Only the failure of an
  allocator creation is.
- `ocf_refcnt_wait_for_zero` is a blocking wait on an environment
  completion; only the callback registration it builds on is modelled.
- Lru.Engine.LruInit: requires the partition's lists to be empty, as they
  are when a cache is started. Resetting a populated list would orphan its
  lines, and the model's invariant cannot describe that state.
- Lru.Engine.HotCline: requires the line to be on its list. The source's
  path for a line that is on no list adds it without removing it first. It
  does not update `curr_size` then, so the size invariant could not hold
  afterwards.
- Refcnt.Counter.IncRef: the re-check of the freeze count after the
  increment is modelled by a parameter `frozenMeanwhile`, which says that
  another context froze the counter between the two reads.

## Findings

| source | as written | input that shows it | evidently intended | confidence | as-written member | corrected member |
|---|---|---|---|---|---|---|
| src/ocf_lru.c:636-646 | `ocf_lru_clean` stores the result of `ocf_refcnt_inc` in `cnt` and skips the pass if `cnt > 1`; `ocf_refcnt_inc` in src/utils/utils_refcnt.c:17-30 returns a `bool`, so `cnt` is 0 or 1 and the test never declines | an idle guard `RcState(0, 0, 0, 0)`: two `ocf_lru_clean` calls in a row are both admitted and the counter reaches 2 | a second concurrent pass over the same partition is declined (the increment returns the new count) | not executed; medium (the two files may come from different releases) | Refcnt.CleanGuardAsWrittenAdmitsTwoPasses | Refcnt.CleanGuardSecondPassDeclines |
| src/utils/utils_req.c:168-193 | on the management queue the I/O-request counter is not incremented, but when the allocation fails `ocf_refcnt_dec` runs unconditionally | `ocf_req_new` on the management queue with allocation failing: the counter ends one lower than it started, and when it was 0 (I/O frozen and drained) the `ENV_BUG_ON(val < 0)` at src/utils/utils_refcnt.c:11 fires | the decrement is guarded by the same `!queue_is_mngt` test as the increment | not executed; medium | Req.NewFailureUnbalancedOnMngtQueue | Req.NewThenPut |
| src/ocf_lru.c:897-919 | when every line from `phys` to the end is valid, `next_phys_invalid` returns `entries - 1` instead of `entries` | two entries, identity mapping, line 0 invalid and line 1 valid: the scan from 1 returns 1, a valid line. `ocf_lru_populate` asked for the one invalid line then hits its final `ENV_BUG_ON`, and asked for two it puts the valid line 1 on the freelist | the scan returns `entries` when no invalid line remains | not executed; high | LruPopulate.LastLineValidPopulate | LruPopulate.Populate |
