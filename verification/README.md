# xv6: a verified model

This project models the parts of an xv6 kernel and its user land that carry the most state and the most promises, and
proves those promises. The kernel runs on RISC-V with a buddy allocator, a redo log and priority queues. The proofs hold
for every input, every run and every interleaving of the model's steps.

| files | system | main results |
|---|---|---|
| `Bits`, `List`, `BuddySpec`, `BuddyInit`, `BuddyInt`, `Buddy` | buddy allocator: two bitmaps and circular free lists per size class | bits, lists and pointers stay consistent over every run; live and free blocks tile the heap; the state is a function of the live blocks, so freeing in any order restores it; exactly when `bd_malloc` fails and `bd_init` counts right |
| `Bio` | buffer cache | transparent: readers see the latest write; one buffer per block; only buffers equal to disk are recycled |
| `LogSpec`, `LogRoom`, `Log`, `LogUse` | redo log | all-or-nothing over every run of transactions and recoveries, each crashing between any two block writes; the code performs exactly the write sequences of that argument; reservations suffice in every interleaving exactly for logs larger than `LOGSIZE` |
| `FsSpec`, `Fs` | inodes and block maps | the bitmap marks exactly what is reachable, nothing twice; `readi` and `writei` are slice and splice of a byte sequence |
| `SleepLock` | sleep locks over `sleep` and `wakeup` | mutual exclusion, no lost wakeup, no deadlock; whoever waits can get the lock |
| `Sched`, `SchedSteps`, `SchedRuns`, `SchedReach`, `SchedStuck`, `SchedTurns`, `SchedPicks`, `SchedCalls`, `PrioSpec`, `PrioQueue` | scheduler on any number of CPUs, priority queues | no process on two CPUs and picks stay RUNNABLE, whatever `nice` does; queues exact if and only if `nice` is called on queued processes, and then no circular wait for `prio_lock`; a bound on how many are served before a waiting process; a scheduler left alone dispatches exactly the process the queues name |
| `VmSpec`, `VmPages`, `VmCost`, `Vm` | Sv39 page tables (section 4.4 of the RISC-V Privileged Architecture manual) | the tree is a flat map that each operation changes as told; failed growth and copies are undone; exactly how many frames suffice; `copyout` and `copyin` round trip |
| `UmallocSpec`, `Umalloc` | `malloc` and `free` (section 8.7 of The C Programming Language, 2nd edition) | one ordered cycle without adjacent blocks, determined by its units; every unit in one block; termination |
| `Grep` | pattern matcher and line loop | matches exactly the declared language; prints exactly the matching lines |
| `ShellSpec`, `ShellOpens`, `ShellParse`, `Shell` | command parser | accepts exactly the lines of an unambiguous grammar, as the command they spell, which opens what their symbols say; every word survives NUL termination; termination |
| `Pipe` | ring buffer with wrapping counters | first in, first out; at most 512 bytes unread |

`Prelude` holds optional values and C's `int`. The `...Spec` modules hold values and lemmas; the others hold classes and
methods that follow the code's own loops and updates, proved against them. `dafny verify dfyconfig.toml` checks all.

## How the code is modelled

- A method is one stretch of code that runs without interruption: a call, or the part of it under one lock. `Sched`,
  `SleepLock` and `LogRoom` go finer: every lock operation, every change of state and every test made without a lock is
  a step of its own, and every interleaving of the steps of all CPUs, processes or operations is covered.
- `nice`, which takes no lock, is one step, at any time.
- A spin lock is atomic mutual exclusion, one block write is atomic, a context switch is one step.
- A panic is a result (`None`, `false`, `Panic`), and the contracts say exactly when it comes, or that it cannot.
- Machine integers are written out where they wrap: the ints of `buddy.c` at 2^31, reference counts and pipe counters at
  2^32, sizes and addresses at 2^64.
- `kalloc` takes any free frame and fails when there is none. `sbrk` and `read` answer as they like within their contracts.
- Ghost fields (`h`, `f`, `blocks`, `queue`, `stored`, ...) carry the abstract state; `Valid()` ties them to the real fields.

## What the code does not do

Each of these was expected to hold and does not; the lemma or method gives the exact condition.

- After replaying a log that was not empty, the cache is one reference short for each replayed block
  (`Log.LogState.RecoverFromLog`). Exactly those buffers are recycled while in use (`Bio.Bcache.TakesInUseIff`,
  `Bio.Bcache.LostReferenceSharesBuffer`), and from every such state some run shares a buffer or loses a logged update
  (`LogUse.RecoveryShares`, `LogUse.RecoveryLosesPin`).
- With the log size that `mkfs` sets, `log_write` can panic within the reservations of `begin_op`
  (`LogRoom.PromiseKeptIff`, `LogUse.MkfsLogIsOneShort`), and two operations can overfill the log, since the test is
  made before the lock is taken (`LogRoom.FitsIff`). With a full log it also panics for a block that is already logged
  (`Log.LogState.LogWrite`, `LogUse.FullLogPanics`).
- `commit` panics when every buffer is pinned or held (`Log.LogState.Commit`), which full reservations lead to
  (`LogUse.CommitPanics`).
- `firstk` does not return for requests above 2^63 bytes (`BuddyAllocator.FirstKTerminatesIff`).
- In a heap of more than 2^31 bytes the allocator computes wrong indices: for 3 GiB it marks bits before its bitmaps
  (`BuddyInt.CutsHarmlessIff`, `BuddyInt.EndIndexExactIff`, `BuddyInt.ThreeGiBMarksBefore`).
- `bd_initfree` reads past the bitmaps if the region is a whole heap (`BuddyInit.EndPairInBitmapIff`), and counts a block
  twice in the ranges that `BuddyInit.TotalExactIff` names, as in a region of 320 bytes (`BuddyInit.SmallRegionDoubles`).
- A process preempted in `exit` after it has left its queue never runs again (`SchedRuns.ExitFate`), unless `nice` puts
  it back.
- `nice` queues a process that is not live (`SchedRuns.QueuesExactIff`, `SchedReach.NiceSpoilsQueues`). After that, fork
  and the scheduler can wait for each other for ever (`SchedStuck.CircleIff`, `SchedStuck.CircleReached`).
- `uvmcopy` out of memory at page 0 panics instead of returning -1 (`Vm.Machine.Copy`, `Vm.Machine.CopyWithoutMemory`).
- `pipewrite`, `writei` and `readi` return the full count even when a copy fails half way (`Pipe.Ring.Write`,
  `Fs.FileSystem.Writei`, `Fs.FileSystem.Readi`); `piperead` then loses a byte (`Pipe.Ring.Read`).
- `malloc` of more than 0x7fffffe0 bytes asks `sbrk` for something else than it means to
  (`UmallocSpec.SbrkArgumentIff`) and gets a block that lies outside its memory (`UmallocSpec.BlockInRegionIff`).

## Model

| member | source | states |
|---|---|---|
| `Bits.SetIsSet` | kernel/buddy.c:46-50 | after bit_set of bit i, bit j reads as set exactly when it is bit i or was set before |
| `Bits.ClearIsSet` | kernel/buddy.c:53-57 | after bit_clear of bit i, bit j reads as set exactly when it is not bit i and was set before |
| `Bits.ZeroIsClear` | kernel/buddy.c:39-43 | bit_isset is false everywhere in a zeroed vector |
| `List.Links.Init` | kernel/list.c:12-17 | lst_init makes an empty ring and touches no other node |
| `List.Links.Empty` | kernel/list.c:19-22 | lst_empty is true exactly for a ring without nodes besides its head |
| `List.Links.Remove` | kernel/list.c:24-28 | lst_remove takes one node out, keeps the order of the others and touches no node off the ring |
| `List.Links.Pop` | kernel/list.c:30-37 | lst_pop returns the first node and leaves the ring of the rest |
| `List.Links.Push` | kernel/list.c:39-47 | lst_push puts a node that is not on the ring in front; removing it again gives the ring back (RemoveRing) |
| `List.RemoveRing` | kernel/list.c:24-28 | the two pointer stores of lst_remove leave a ring of the remaining nodes in order |
| `List.PushRing` | kernel/list.c:39-47 | the four pointer stores of lst_push leave a ring with the new node first |
| `BuddySpec.ClosedForms` | kernel/buddy.c:109-119 | without ints, blk_index, addr and BLK_SIZE by repeated halving and doubling equal their closed forms for every class |
| `BuddySpec.IndexOfAddr` | kernel/buddy.c:109-119 | without ints, blk_index undoes addr at every class |
| `BuddyInt.CutsHarmlessIff` | kernel/buddy.c:109-119 | keeping offsets in 32-bit ints, as blk_index and addr do, changes no index and no address of the heap exactly when the heap has at most 2^31 bytes |
| `BuddyInt.LeafIndexExactIff` | kernel/buddy.c:109-113 | at the smallest class blk_index is right exactly below 2^31 bytes; from there to 4 GiB, less 15 bytes, it is negative |
| `BuddyInt.EndIndexExactIff` | kernel/buddy.c:283-292 | bd_mark of the memory past the end starts at the right block exactly for regions below 2^31 bytes |
| `BuddyInt.ThreeGiBMarksBefore` | kernel/buddy.c:216-235 | for a region of 3 GiB it starts 67108864 bits before the bitmap |
| `BuddyInt.CutIndexExact` | kernel/buddy.c:109-113 | below 2^31 the int computation of blk_index is the block index |
| `BuddyInt.CutAddrExact` | kernel/buddy.c:116-119 | the int computation of addr is the address exactly when that is below 2^31 |
| `BuddyInt.CutNextExact` | kernel/buddy.c:197-203 | up to 2^31 the int computation of blk_index_next is the next index |
| `BuddySpec.TakeKeeps` | kernel/buddy.c:122-154 | popping a free block and setting its alloc bit keeps the invariant; exactly that block becomes live |
| `BuddySpec.DivideKeeps` | kernel/buddy.c:122-154 | splitting a live block keeps the invariant; its first half is live instead, its second half free |
| `BuddySpec.MergeKeeps` | kernel/buddy.c:169-194 | when the buddy of a live block is not allocated it is on a free list, and joining the two keeps the invariant with the parent live instead |
| `BuddySpec.ReleaseKeeps` | kernel/buddy.c:169-194 | putting a live block on its free list while its buddy is in use keeps the invariant and makes exactly that block dead |
| `BuddySpec.NothingBelow` | kernel/buddy.c:122-194 | no block inside an undivided block is allocated or free, at any class |
| `BuddySpec.Covered` | kernel/buddy.c:122-194 | every byte of an allocated block lies in a live or free block |
| `BuddySpec.Disjoint` | kernel/buddy.c:122-194 | two different live or free blocks share no byte |
| `BuddySpec.Tiling` | kernel/buddy.c:122-194 | in every state that satisfies the invariant, live and free blocks tile the managed range exactly |
| `BuddySpec.LiveDeterminesHeap` | kernel/buddy.c:122-194 | both bitmaps and all free sets are a function of the set of live blocks |
| `BuddySpec.FitIffFreeList` | kernel/buddy.c:122-154 | an aligned, wholly free block of class k exists exactly when a free list at k or above is not empty |
| `BuddySpec.ClassOfLive` | kernel/buddy.c:157-165 | of the blocks around a byte of a live block, those up to its class are undivided and the next is split |
| `BuddySpec.RunLive` | kernel/buddy.c:122-194 | over every run of calls the live blocks are those allocated and not freed |
| `BuddySpec.CancellingRunRestores` | kernel/buddy.c:122-194 | a run whose calls cancel out, such as bd_free of a fresh bd_malloc result, restores both bitmaps and all free sets |
| `BuddySpec.FreeAllInAnyOrder` | kernel/buddy.c:122-194 | after any run, freeing everything allocated since the start, in any order, returns to the starting state |
| `BuddyInit.RangeHalves` | kernel/buddy.c:197-203 | the range of blocks that bd_init keeps free at class k + 1 is the halved range of class k |
| `BuddyInit.OnListIff` | kernel/buddy.c:239-252 | a block belongs to the maximal aligned decomposition exactly when it is unmarked and its parent is marked |
| `BuddyInit.InitHeapInv` | kernel/buddy.c:295-353 | the state bd_init aims at satisfies the allocator invariant, its live blocks being the reserved leaves |
| `BuddyInit.EndPairsSuffice` | kernel/buddy.c:257-270 | every block of the decomposition at a class is the free member of the pair at the left or at the right end |
| `BuddyInit.PairsDiffer` | kernel/buddy.c:257-270 | outside the doubled case the two end pairs push different blocks |
| `BuddyInit.TotalExactIff` | kernel/buddy.c:257-270 | the total that bd_initfree returns equals the free range exactly when no class pushes a block twice |
| `BuddyInit.SmallRegionDoubles` | kernel/buddy.c:295-353 | for a region of 320 bytes, whose metadata takes 208, bd_initfree counts a block twice, so bd_init panics |
| `BuddyInit.QuarterNeverDoubled` | kernel/buddy.c:257-270 | with the metadata in the first quarter and the end in the second half no class pushes a block twice |
| `BuddyInit.MetaInFirstQuarter` | kernel/buddy.c:295-333 | from seven size classes on (regions over 512 bytes) the metadata fits in the first quarter of the heap |
| `BuddyInit.InitRangeGood` | kernel/buddy.c:338-353 | under those bounds the total is exactly end minus metadata, so the last panic of bd_init is unreachable |
| `BuddyInit.EndInRange` | kernel/buddy.c:216-235 | at every class the end of a marked range is at most the number of blocks, and is that number when the range ends with the heap: bd_mark stays inside the bitmaps |
| `BuddyInit.EndPairInBitmapIff` | kernel/buddy.c:239-270 | at every class the pair at the right end is one of the heap exactly when the region is not the whole heap; the byte that bd_initfree_pair reads is in the bitmap exactly then or for classes of fewer than eight blocks |
| `BuddyAllocator.FirstKTerminatesIff` | kernel/buddy.c:96-106 | the loop of firstk has an exit exactly for requests up to 2^63 bytes: above, the 64-bit size wraps to 0 |
| `BuddyAllocator.FirstK` | kernel/buddy.c:96-106 | firstk returns the least class whose blocks hold n bytes |
| `BuddyAllocator.Log2` | kernel/buddy.c:205-213 | the shift loop of log2 computes the exponent of the largest power of two up to n (Log2Bounds) |
| `BuddyInit.Log2Bounds` | kernel/buddy.c:205-213 | 2^log2(n) <= n < 2^(log2(n) + 1) for every positive n |
| `BuddyAllocator.TopFromSpan` | kernel/buddy.c:295-306 | the top class that bd_init computes is the least whose block exceeds the span, and the span fills more than half of it |
| `BuddyAllocator.Layout` | kernel/buddy.c:295-333 | zeroed bitmaps for every class, the metadata size and the unusable tail, with their alignment and bounds |
| `BuddyAllocator.Allocator.Mark` | kernel/buddy.c:216-235 | bd_mark, with its int indices, sets, at every class, the alloc bits, and above class 0 the split bits, of exactly the blocks that meet the range |
| `BuddyAllocator.Allocator.InitFreePair` | kernel/buddy.c:239-252 | if exactly one block of the pair is marked the other goes on list k once, and its size is returned |
| `BuddyAllocator.Allocator.InitFreeClass` | kernel/buddy.c:257-270 | the two end pairs fill list k with exactly the decomposition of class k |
| `BuddyAllocator.Allocator.InitFree` | kernel/buddy.c:257-270 | after bd_initfree every list holds exactly its blocks of the decomposition, each once, and the int total is exact |
| `BuddyAllocator.Allocator.constructor` | kernel/buddy.c:295-353 | bd_init, for any region over 512 bytes and below 2^31 that is no block size, establishes the invariant: bits, lists and rings agree with the decomposition of the free range, and its last panic is unreachable |
| `BuddyAllocator.Allocator.LiveBelowTop` | kernel/buddy.c:157-165 | no block handed out is the whole heap, so size never looks above the top class |
| `BuddyAllocator.Allocator.Size` | kernel/buddy.c:157-165 | size returns the class of the live block that starts at p |
| `BuddyAllocator.Allocator.Malloc` | kernel/buddy.c:122-154 | bd_malloc returns 0 exactly when no aligned, wholly free block of the least sufficient class exists; else one such block becomes live and nothing else changes hands: the first part of the first block on the first list of a sufficient class that has one, its other halves going on the lists below |
| `BuddyAllocator.Allocator.Free` | kernel/buddy.c:169-194 | bd_free makes exactly the block at p dead, keeps bitmaps, free sets and list pointers consistent, and puts it, joined to the buddies that were free, first on its list, the other lists keeping their order |
| `Bio.Bcache.constructor` | kernel/bio.c:35-52 | binit: an empty cache, the last buffer listed first, whose readers see the disk |
| `Bio.Bcache.Find` | kernel/bio.c:62-71 | the first scan of bget finds the most recently used buffer of the block, or none if no buffer has it |
| `Bio.Bcache.FindIdle` | kernel/bio.c:73-85 | the second scan finds the least recently used buffer with count 0, or none if every count is positive |
| `Bio.Bcache.Bget` | kernel/bio.c:57-87 | bget returns the most recently used buffer of the block with one reference more, or else recycles the least recently used one of count 0; it panics exactly when there is neither; the cache stays valid if every reference was accounted for |
| `Bio.Bcache.Bread` | kernel/bio.c:90-101 | bread returns a locked, filled buffer with the latest data written to the block, and changes no other buffer |
| `Bio.Bcache.Write` | kernel/bio.c:90-101 | data stored in a held buffer is what every later bread of the block returns |
| `Bio.Bcache.Bwrite` | kernel/bio.c:104-110 | bwrite brings the disk up to the buffer; readers notice nothing |
| `Bio.Bcache.Bpin` | kernel/bio.c:137-142 | bpin counts one more reference, kept until bunpin, whether or not one was lost before: modified data stays what readers see although nobody holds the buffer |
| `Bio.Bcache.Bunpin` | kernel/bio.c:144-149 | bunpin of a pinned, just written buffer undoes the pin; without a pin one reference is lost |
| `Bio.Bcache.Relink` | kernel/bio.c:121-133 | the pointer moves of brelse put the buffer first on the circular list and keep the others in order |
| `Bio.Bcache.Unref` | kernel/bio.c:121-133 | one reference less; a buffer whose count comes to 0 is now first in the order of use, the others following as they were, and otherwise the order does not change |
| `Bio.Bcache.Brelse` | kernel/bio.c:114-135 | brelse unlocks, drops one reference and makes a buffer whose count comes to 0 the most recently used one |
| `Bio.Bcache.ReleasedLast` | kernel/bio.c:73-135 | a buffer just released to count 0 is the one that bget takes for an uncached block exactly when every other buffer has a positive count |
| `Bio.Bcache.OneBufferPerBlock` | kernel/bio.c:57-87 | at most one buffer that is filled or in use holds a block |
| `Bio.Bcache.IdleEqualsDisk` | kernel/bio.c:73-85 | a filled buffer without references and pins equals the disk, so recycling it loses nothing |
| `Bio.Bcache.ZeroCountIsIdle` | kernel/bio.c:73-85 | as long as no reference was lost, count 0 means neither referenced nor pinned |
| `Bio.Bcache.ZeroCountInUseIff` | kernel/bio.c:73-85 | a buffer of count 0 is referenced or pinned exactly when it has lost a reference, and then once |
| `Bio.Bcache.TakesInUseIff` | kernel/bio.c:73-87 | the buffer that bget takes for an uncached block is in use exactly when it has lost a reference |
| `Bio.Bcache.LostReferenceSharesBuffer` | kernel/bio.c:57-87 | bget for the block of a buffer that has lost a reference, and then for an uncached block, return the same buffer exactly when every less recently used buffer has a positive count; the first holder then has it under the number of the second |
| `Bio.Bcache.Exhaust` | kernel/bio.c:73-87 | a buffer of count 0 is recycled, whoever uses it, once enough other blocks are held |
| `Bio.Bcache.SharingReached` | kernel/bio.c:57-87 | from every cache in which a buffer has lost a reference, some run hands it to two holders under two numbers |
| `Bio.Bcache.PinLost` | kernel/bio.c:57-149 | from every such cache, some run of bread, bpin, brelse and bget recycles a pinned buffer: readers were promised its data, but no buffer and not the disk has it |
| `LogSpec.HeaderRoundTrip` | kernel/log.c:85-113 | read_head gets back the block numbers that write_head stored |
| `LogSpec.PrefixAbsorbed` | kernel/log.c:68-82 | repeating a sequence of block writes after any prefix of it ends where the sequence does |
| `LogSpec.EmptyLogRecovers` | kernel/log.c:115-122 | recovery of an empty log changes nothing |
| `LogSpec.RecoveryCrash` | kernel/log.c:115-122 | recovery cut off after any of its writes, any number of times, still has the same outcome |
| `LogSpec.SlotsOnly` | kernel/log.c:177-190 | before the header is written, the log counts as empty and home blocks are as before |
| `LogSpec.CommitPoint` | kernel/log.c:192-202 | just after the header write the log names the blocks and holds their new data |
| `LogSpec.CommitCrash` | kernel/log.c:192-202 | a crash after any write of commit leaves a disk that recovers to the state before the transaction, or from the header write on to the state after it |
| `LogSpec.StepIsAtomic` | kernel/log.c:115-202 | one transaction or recovery, cut off anywhere, leaves what recovery shows either unchanged or one whole transaction further |
| `LogSpec.RunsAreAtomic` | kernel/log.c:115-202 | over every run of transactions and recoveries, each cut off anywhere, recovery shows exactly the committed transactions, each in full |
| `LogRoom.NeverPastHeader` | kernel/log.c:213-235 | in every interleaving of begin_op, the unlocked test of log_write, its locked part and end_op, the logged blocks are distinct and fit lh.block, and no store goes behind it |
| `LogRoom.FitsIff` | kernel/log.c:213-235 | every logged block has a slot inside the log, whatever the interleaving, exactly when the log has more than LOGSIZE blocks (or one, and nothing is ever logged) |
| `LogRoom.Race` | kernel/log.c:219-235 | in a smaller log, two operations that both pass the test before either takes the lock fill one slot more than there is |
| `LogRoom.PromiseKeptIff` | kernel/log.c:125-141 | log_write never panics on an operation with room left in its reservation exactly when the log has more than LOGSIZE blocks |
| `LogRoom.FullLogPanics` | kernel/log.c:213-222 | operations within their reservations can fill lh.block, and then log_write panics for a block that is already logged |
| `Log.LogState.BeginOp` | kernel/log.c:125-141 | begin_op admits an operation exactly when no commit is under way and the logged blocks, with ten more for it and for each operation in progress, are at most thirty |
| `Log.LogState.EndOp` | kernel/log.c:145-174 | end_op by the last operation, and only by it, starts the commit; its panic on committing is unreachable |
| `Log.LogState.FindLogged` | kernel/log.c:224-227 | the scan finds the block in the log exactly when it is there |
| `Log.LogState.PinnedCount` | kernel/log.c:228-233 | at least as many buffers are pinned as blocks are logged |
| `Log.LogState.Absorb` | kernel/log.c:224-234 | the locked part of log_write lists each block once and pins its buffer, keeping logged blocks plus unused reservations within LOGSIZE, whatever was logged since the test |
| `Log.LogState.LogWrite` | kernel/log.c:213-235 | log_write without interruption panics exactly when the log looks full, which with size > LOGSIZE happens only to a block already in it; otherwise the block has a slot inside the log |
| `Log.LogState.SlotsInLogIff` | kernel/log.c:177-190 | write_log stays inside the log exactly when it has a slot for every logged block |
| `LogUse.Update` | kernel/log.c:208-212 | bread, change, log_write, brelse, while others read other blocks: readers see the new contents, the disk does not change yet, and the block is in the transaction; it fails only for want of a buffer that is neither pinned nor held, or of room |
| `LogUse.MkfsLogIsOneShort` | mkfs/mkfs.c:25 | with the log size mkfs sets, three operations that begin and log their blocks through the cache reach the panic with a new block that one of them has room for |
| `LogUse.FullLogPanics` | kernel/log.c:219-220 | with a larger log, three operations that have used up their reservations reach the panic with a block that is already logged |
| `LogUse.CommitPanics` | kernel/log.c:192-202 | with as many buffers as lh.block has room, three operations that have used up their reservations pin them all and their commit panics |
| `LogUse.RecoveryShares` | kernel/log.c:68-82 | after the replay of any log that is not empty, some run hands one buffer to two holders under two numbers |
| `LogUse.RecoveryLosesPin` | kernel/log.c:68-82 | after the replay of any log that is not empty, some run loses the data of a block that is pinned for the next commit |
| `Log.LogState.WriteLog` | kernel/log.c:177-190 | write_log copies every logged block from the cache to its slot, the blocks behind the header in the order of the log; its disk writes are a prefix of that |
| `Log.LogState.InstallTrans` | kernel/log.c:68-82 | install_trans after a commit writes every home block, undoes exactly the pins of the log and changes nothing readers see |
| `Log.LogState.WriteHead` | kernel/log.c:101-113 | write_head stores the count and the block numbers, in order, in the first block of the log by one block write, unless every buffer is pinned or held |
| `Log.LogState.Commit` | kernel/log.c:192-202 | commit, while others read blocks outside the transaction, performs exactly the write sequence of the crash argument, panics exactly when something is logged and every buffer is pinned or held, and ends with an empty log and the same contents for readers; after any number of its writes the disk is one that recovers to all of the transaction or nothing of it |
| `Log.LogState.PostIsContents` | kernel/log.c:192-202 | what the transaction makes of the home blocks is what readers of the cache saw before the commit |
| `Log.LogState.EndLastOp` | kernel/log.c:145-174 | end_op of the last operation leaves the device as readers see it, and begin_op admits operations again, exactly when the commit does not panic |
| `Log.LogState.ReadHead` | kernel/log.c:85-96 | read_head loads the count and block numbers that the disk holds |
| `Log.LogState.Replay` | kernel/log.c:68-82 | install_trans during recovery writes the slots home |
| `Log.LogState.RecoverFromLog` | kernel/log.c:115-122 | recovery performs exactly the write sequence of the crash argument, panics exactly when the cache has no more buffers than the log has blocks, and leaves every reference accounted for exactly when the log was empty |
| `FsSpec.NoSharing` | kernel/fs.c:378-406 | no data block is reachable from two places: direct addresses, indirect pointers, indirect entries, of any inodes |
| `FsSpec.UsedIffReachable` | kernel/fs.c:65-104 | the bitmap marks exactly the metadata blocks and the blocks reachable from allocated inodes |
| `FsSpec.GiveKeeps` | kernel/fs.c:378-406 | giving a free block to an empty place of an inode keeps the invariant |
| `FsSpec.StoreKeeps` | kernel/fs.c:486-518 | storing bytes in a mapped block keeps the invariant |
| `FsSpec.BytesAreBlocks` | kernel/fs.c:378-480 | byte o of an inode is byte o % BSIZE of the block that its addresses, or the words of its indirect block, name for o / BSIZE |
| `FsSpec.WrittenIsSplice` | kernel/fs.c:486-518 | after c bytes and the size update the bytes of the inode are the splice of those bytes, as far as the size reaches, and every other inode reads as before |
| `FsSpec.ReadChunk` | kernel/fs.c:459-480 | a chunk below the size lies in a mapped block and reads as the matching slice |
| `FsSpec.DropDirectKeeps` | kernel/fs.c:413-421 | freeing a direct block hits a set bit and keeps everything but the size of the inode being truncated |
| `FsSpec.DropIndirectKeeps` | kernel/fs.c:423-436 | freeing the indirect block and its entries keeps everything but the size of the inode being truncated |
| `Fs.FileSystem.ScanBlock` | kernel/fs.c:72-84 | the inner loop of balloc finds the lowest clear bit of a bitmap block |
| `Fs.FileSystem.Balloc` | kernel/fs.c:65-87 | balloc takes and zeroes the lowest free block, and fails only when every block is in use |
| `Fs.FileSystem.Bfree` | kernel/fs.c:90-104 | bfree clears exactly one bit |
| `Fs.FileSystem.Bmap` | kernel/fs.c:378-406 | bmap returns, of the first twelve blocks, the address in the inode, and of the others the little-endian word in the indirect block; it allocates what is missing without any reader noticing, changes nothing for a mapped block, and fails only on a full disk |
| `Fs.FileSystem.Readi` | kernel/fs.c:459-480 | readi copies out the slice of the inode, up to the first byte memory does not take, and returns the count of the whole slice all the same; it fails exactly for offsets past the size or overflow, and changes nothing: it never allocates |
| `Fs.FileSystem.Writei` | kernel/fs.c:486-518 | writei splices in the bytes before the first one that cannot be read, but grows the size only over blocks copied in full, and returns the full count all the same; it updates the disk inode and leaves every other inode as it reads; it fails exactly past the size, past the largest file or on overflow, and panics only on a full disk |
| `Fs.StopsAt` | kernel/fs.c:497-506 | a copy that fails in a chunk leaves the offset where the blocks before it end |
| `Fs.FileSystem.UpdateRoundTrip` | kernel/fs.c:222-238 | after iupdate the entry can be given up: iput, iget and ilock find the same inode again |
| `Fs.FileSystem.Itrunc` | kernel/fs.c:413-441 | itrunc frees every block of the inode, hitting only set bits, and leaves every other inode as it reads |
| `Fs.FileSystem.Iget` | kernel/fs.c:243-274 | iget finds the entry of the inode or takes an empty one, and panics exactly when there is neither: no inode has two entries |
| `Fs.FileSystem.Ilock` | kernel/fs.c:289-314 | ilock fills the entry from disk and panics exactly on an inode without type |
| `Fs.FileSystem.Ialloc` | kernel/fs.c:196-216 | ialloc takes the lowest free inode and gives it the type, no bytes and an entry; it panics only for want of a free inode or a free entry |
| `Fs.FileSystem.Iput` | kernel/fs.c:333-359 | iput drops a reference; the last one to an unlinked inode frees its blocks and the inode, and nothing else changes |
| `Fs.FileSystem.FreeEntries` | kernel/fs.c:423-436 | the loop over the indirect block clears the bit of every entry and then its own, none twice |
| `SleepLock.StepInv` | kernel/sleeplock.c:21-41 | every step of acquiresleep, releasesleep, sleep, wakeup and kill keeps the invariant, whatever the number of processes |
| `SleepLock.RunInv` | kernel/sleeplock.c:21-41 | the invariant holds after every interleaving |
| `SleepLock.MutualExclusion` | kernel/sleeplock.c:21-41 | in every interleaving at most one process is between acquiresleep and the end of releasesleep |
| `SleepLock.NoLostWakeup` | kernel/proc.c:669-715 | whenever the lock is free and no wakeup scan is under way, no process sleeps on it |
| `SleepLock.NoDeadlock` | kernel/proc.c:669-715 | as long as some process is inside, one can go on or the holder can release |
| `SleepLock.KillWakes` | kernel/proc.c:731-751 | in every interleaving, kill wakes a process asleep on the lock, which can then go on, and changes no other |
| `SleepLock.TakesFreeLock` | kernel/sleeplock.c:21-31 | in every interleaving, a process about to acquire a lock that is free, and whose spin lock is free, is its holder after two steps of its own |
| `SleepLock.WaiterGetsLock` | kernel/sleeplock.c:21-41 | in every interleaving, from wherever a process is inside acquiresleep, some run of steps and releases makes it the holder, within a bound that the places of the processes give |
| `SchedSteps.OtherKept` | kernel/proc.c:512-606 | no step of one CPU breaks what holds of another CPU and the process they both touch |
| `SchedSteps.StepSafe` | kernel/proc.c:512-715 | every step of scheduler, yield, sleep, wakeup, fork, exit, wait and nice on any CPU keeps what is known of locks, states and bindings, whatever process nice is called on |
| `SchedSteps.NiceExactIff` | kernel/proc.c:831-841 | nice keeps the queues exact if and only if the process it finds is between its insertion and its removal |
| `SchedSteps.StepInv` | kernel/proc.c:512-715 | every step, nice on a queued process included, keeps the invariant with its exact queues |
| `SchedRuns.RunSafe` | kernel/proc.c:512-715 | locks, states and bindings are sound after every interleaving from the state userinit leaves, whatever processes nice is called on |
| `SchedRuns.RunInv` | kernel/proc.c:512-715 | the whole invariant holds after every interleaving in which nice is called on queued processes |
| `SchedRuns.FirstProcessRuns` | kernel/proc.c:512-571 | from the state userinit leaves, one CPU finds, locks and switches to the first process in nine steps |
| `SchedRuns.NoSharedProcess` | kernel/proc.c:538-571 | in every interleaving no two CPUs have the same current process |
| `SchedRuns.PickedIsRunnable` | kernel/proc.c:512-571 | a picked process, whose state was read without its lock, is still RUNNABLE once the lock is held |
| `SchedRuns.QueuesExact` | kernel/proc.c:31-68 | in every interleaving with nice on queued processes, a process between its insertion and the removal in exit is once in the queue of its priority, any other in no queue |
| `SchedRuns.QueuesExactIff` | kernel/proc.c:831-841 | through a run the queues stay exact if and only if every call of nice in it is on a queued process |
| `SchedRuns.SchedPanicsUnreachable` | kernel/proc.c:615-633 | a CPU that enters sched has the lock of its process and no other, and the process is not RUNNING; only a RUNNING process is ever switched to |
| `SchedRuns.ExitEnds` | kernel/proc.c:438-449 | a CPU in the last part of exit has made its process a ZOMBIE once it has taken its own remaining steps, whatever the others do |
| `SchedRuns.ExitFate` | kernel/proc.c:418-456 | a process that has left its queue in exit becomes a ZOMBIE, within five turns of its CPU, exactly when no timer interrupt comes before it takes its parent's lock; else it stays RUNNABLE in no queue for ever |
| `SchedPicks.SchedulerPicks` | kernel/proc.c:512-571 | in every interleaving, a scheduler that finds prio_lock free and is left alone comes, in a number of steps that the queue lengths give, to the first RUNNABLE process of the first queue that has one, dispatches it in two more if its lock is free, moving it to the end of its queue, and is back where it was if no queued process is RUNNABLE |
| `SchedPicks.WakeupWakes` | kernel/proc.c:702-716 | wakeup makes a process that sleeps on its channel RUNNABLE, leaves one that does not asleep, and changes nothing else |
| `SchedPicks.WakeupRuns` | kernel/proc.c:702-716 | in every interleaving with nice on queued processes, a process woken when no other is RUNNABLE is dispatched by a scheduler that then looks alone |
| `SchedCalls.ForkMakes` | kernel/proc.c:306-354 | fork into an UNUSED slot, with no lock in the way, makes the child RUNNABLE with the default priority, last in its queue, and the parent goes on |
| `SchedCalls.ForkFails` | kernel/proc.c:306-322 | fork without memory for the child leaves the slot UNUSED, unlocked and in no queue |
| `SchedCalls.YieldKeeps` | kernel/proc.c:636-644 | yield leaves the process RUNNABLE in its queue, unlocked, and the CPU in its scheduler |
| `SchedCalls.SleepSleeps` | kernel/proc.c:668-697 | sleep leaves the process SLEEPING in its queue, unlocked, and the CPU in its scheduler |
| `SchedCalls.WaitReaps` | kernel/proc.c:460-510 | wait that finds a ZOMBIE child makes its slot UNUSED, and the parent goes on |
| `SchedCalls.WaitSleeps` | kernel/proc.c:460-510 | wait without one puts the parent to sleep |
| `SchedCalls.ExitLeaves` | kernel/proc.c:386-422 | exit takes the process out of its queue |
| `SchedCalls.ExitDies` | kernel/proc.c:425-456 | the rest of exit makes the process a ZOMBIE, makes a parent that sleeps in wait RUNNABLE, releases both locks and leaves the CPU in its scheduler |
| `SchedReach.OtherQueueFills` | kernel/proc.c:831-841 | for every priority some run puts a process in its queue |
| `SchedReach.NiceSpoilsQueues` | kernel/proc.c:831-841 | after some run, nice on an UNUSED slot, as with pid 0, leaves the queues inexact |
| `SchedReach.ExitReached` | kernel/proc.c:418-456 | some run leads to a process that has left its queue in exit |
| `PrioSpec.InsertKeeps` | kernel/proc.c:31-45 | inserting a process that is in no queue keeps every live process once in its queue |
| `PrioSpec.RemoveKeeps` | kernel/proc.c:48-68 | removing a process leaves it in no queue and the others where they were |
| `PrioSpec.RotateKeeps` | kernel/proc.c:559-563 | moving a process to the end of its queue keeps every live process once in its queue |
| `PrioSpec.ExactIffPlaced` | kernel/proc.c:31-68 | in the scheduler's machine the queues are exact exactly when its processes between insertion and removal are placed as these lemmas have it |
| `PrioSpec.NiceKeepsIff` | kernel/proc.c:831-841 | nice keeps exactly the live processes queued if and only if the process it finds is live: for pid 0 or a zombie it queues a dead one |
| `PrioSpec.PickAdvances` | kernel/proc.c:512-563 | a pick that passes over a RUNNABLE process of the first such queue moves it one place forward |
| `SchedTurns.StepTurn` | kernel/proc.c:512-571 | a step lets the scheduler pass over a waiting process only if it is nice on the process being picked, and every such nice to its own or a later queue does; only one from an earlier queue adds to those served before it |
| `SchedTurns.RoundRobin` | kernel/proc.c:512-571 | in every interleaving, while a process waits RUNNABLE at place k of its queue, at most k processes of its own or later queues are dispatched, one more if a scan had already passed it over, and one for each that nice moves from an earlier queue while it is being picked |
| `SchedStuck.ChainEnds` | kernel/proc.c:344-349 | however many CPUs wait for each other's process locks behind the one with prio_lock, the last waits for prio_lock only in fork, for the process that the scheduler is about to lock |
| `SchedStuck.CircleIff` | kernel/proc.c:512-529 | in every interleaving, CPUs wait in a circle for prio_lock exactly when the scheduler is about to lock a process that fork is about to insert |
| `SchedStuck.NoCircle` | kernel/proc.c:512-529 | with nice called on queued processes only, they never do |
| `SchedStuck.StuckForEver` | kernel/proc.c:344-349 | once they do, they do for ever, and no CPU gets prio_lock again |
| `SchedStuck.CircleReached` | kernel/proc.c:831-841 | some run does, with one call of nice, on an UNUSED slot, and fork of that slot |
| `PrioSpec.RoundRobin` | kernel/proc.c:512-563 | a process that stays RUNNABLE at position k while no queue before its own has a RUNNABLE process is picked within k + 1 picks, whoever joins or leaves |
| `PrioQueue.Queues.Insert` | kernel/proc.c:31-45 | insert_into_prio_queue appends the process to the linked list of its priority and keeps the other lists |
| `PrioQueue.Queues.Remove` | kernel/proc.c:48-68 | remove_from_prio_queue unlinks the first entry of the process, if any, and keeps the other lists |
| `PrioQueue.Queues.Pick` | kernel/proc.c:512-529 | pick_highest_priority_runnable_proc finds the first RUNNABLE process of the lowest-numbered queue that has one |
| `PrioQueue.Queues.Schedule` | kernel/proc.c:554-563 | one round of the scheduler picks, marks RUNNING and moves to the end, keeping every live process once in its queue |
| `PrioQueue.Queues.Nice` | kernel/proc.c:831-841 | nice moves the first process with the pid to the queue of the new priority, and reports whether there is one |
| `VmSpec.GrowKeeps` | kernel/vm.c:84-94 | an empty table hung into the tree keeps the tree and every entry of the flat map |
| `VmSpec.StoreKeeps` | kernel/vm.c:162-167 | a store where walk points changes the flat map at that page only |
| `VmSpec.OtherTreeKept` | kernel/vm.c:319-347 | operations on one page table leave a separate page table and its flat map as they were |
| `VmPages.GotUndone` | kernel/vm.c:251-261 | unmapping and freeing pages just mapped restores the flat map, the pages and the free frames but for page tables |
| `VmPages.CopyShowsSame` | kernel/vm.c:319-347 | a copied address space shows the user the same bytes at every address below the size |
| `VmCost.PaidNext` | kernel/vm.c:84-94 | what walk adds for the next page of a run is determined by the tree there was at the start |
| `VmCost.PaidStep` | kernel/vm.c:155-175 | mapping one page more adds the tables on its way and no others |
| `Vm.Machine.Walk` | kernel/vm.c:78-96 | walk panics exactly from MAXVA on; it finds the entry that bits 30 to 38, 21 to 29 and 12 to 20 of the address lead to; with alloc it takes exactly the frames for the missing tables, fails exactly when there are too few, and leaves the flat map unchanged even then |
| `Vm.Machine.WalkAddr` | kernel/vm.c:101-119 | walkaddr returns the frame of a page that is valid and user accessible, else 0 |
| `Vm.Machine.MapPages` | kernel/vm.c:155-175 | mappages adds exactly its range to the flat map; out of memory or at a panic it has added a prefix; it is out of memory exactly when the frames do not suffice for the tables up to the next page, and panics only at a mapped page or MAXVA |
| `Vm.Machine.Unmap` | kernel/vm.c:180-208 | uvmunmap removes exactly its range, freeing each frame once, or panics at the first page that is not mapped; a size of 0 wraps |
| `Vm.Machine.Dealloc` | kernel/vm.c:271-282 | uvmdealloc unmaps exactly the pages that only the old size needs |
| `Vm.RoundUpLeast` | kernel/riscv.h:328 | PGROUNDUP is the least page boundary from an address on, unless it wraps to 0 |
| `Vm.Machine.Alloc` | kernel/vm.c:240-265 | after uvmalloc the user finds zeros, in pages that may be read, written and executed, between the two sizes rounded up, and the same bytes as before elsewhere; exactly with fewer frames than those pages and their tables take it restores the flat map, the pages and the free frames but for page tables |
| `Vm.Machine.GrowAndWrite` | kernel/vm.c:240-385 | copyout anywhere into what uvmalloc has added succeeds |
| `Vm.Machine.Copy` | kernel/vm.c:319-347 | uvmcopy gives the child copies of its own with the same bytes and flags, and the parent goes on seeing its own; exactly with fewer frames than the pages and tables take it restores the child, but at page 0 it panics, which happens if and only if the parent lacks the page or there are no more frames than missing tables |
| `Vm.Machine.CopyWithoutMemory` | kernel/vm.c:334-345 | with no frame left, uvmcopy of a process with memory panics |
| `Vm.Machine.CopyOut` | kernel/vm.c:365-385 | copyout writes exactly the bytes of the range, or a prefix of them up to the first page that is not the user's |
| `Vm.Machine.CopyIn` | kernel/vm.c:390-410 | copyin returns the user's bytes, up to the first page that is not the user's |
| `Vm.Machine.CopyRoundTrip` | kernel/vm.c:365-410 | bytes that copyout has written come back from copyin |
| `UmallocSpec.PutOk` | user/umalloc.c:24-44 | putting a block on the free list, joined with its neighbours, keeps the list ordered and without adjacent blocks, and adds exactly its units |
| `UmallocSpec.TakenOk` | user/umalloc.c:73-84 | taking the tail of a block, or all of it, keeps the list ordered and removes exactly those units |
| `UmallocSpec.SameUnitsSameList` | user/umalloc.c:24-44 | two free lists with the same units are the same list |
| `UmallocSpec.FreeUndoesMalloc` | user/umalloc.c:24-90 | free of what malloc has just taken from the list restores the list |
| `UmallocSpec.FreesCommute` | user/umalloc.c:24-44 | the order in which two blocks are freed makes no difference to the list |
| `UmallocSpec.UnitsLeast` | user/umalloc.c:69 | the units malloc looks for are the fewest that hold a header and the bytes asked for |
| `UmallocSpec.SbrkArgumentIff` | user/umalloc.c:46-69 | the int that sbrk gets is the memory morecore means to get exactly for requests up to 0x7fffffe0 bytes |
| `UmallocSpec.BlockInRegionIff` | user/umalloc.c:46-61 | the block that morecore makes lies within what sbrk has given exactly for those requests; for larger ones it ends 4 GiB past the new break |
| `Umalloc.LinkedRing` | user/umalloc.c:32-42 | the header updates of free link the new list into one cycle in order of address |
| `Umalloc.TakenRing` | user/umalloc.c:75-81 | the header updates of malloc leave one cycle in order of address |
| `Umalloc.Heap.Search` | user/umalloc.c:29-31 | the search loop of free ends, from any starting point, at the one block behind which the freed block belongs |
| `Umalloc.Heap.Free` | user/umalloc.c:24-44 | free moves exactly the block to the free list and leaves freep at the block before it; free and live blocks go on tiling what sbrk has given, each unit in one block |
| `Umalloc.Heap.Morecore` | user/umalloc.c:46-61 | morecore adds a region from sbrk, of the units asked for or 4096, to the free list, which then has a block large enough, or changes nothing |
| `Umalloc.Heap.Malloc` | user/umalloc.c:63-90 | malloc ends; it returns a new live block of enough units, without touching another live block: if the list has one, the tail of the first big enough behind freep, which moves to the block before that; and 0 exactly when the list has none and sbrk fails |
| `Grep.HereOne` | user/grep.c:83-94 | a literal or dot matches one character and the rest matches after it, and conversely |
| `Grep.HereStar` | user/grep.c:97-104 | c* and the rest match exactly when the rest matches after some run of characters that c hits |
| `Grep.MatchHere` | user/grep.c:83-94 | matchhere is true exactly when a prefix of the text, all of it before a final $, is in the language of the pattern |
| `Grep.MatchStar` | user/grep.c:97-104 | matchstar is true exactly when the rest matches after some run of hits |
| `Grep.Match` | user/grep.c:70-80 | match is true exactly when some substring, at the start after ^ and at the end before a final $, is in the language of the pattern |
| `Grep.LinesMore` | user/grep.c:16-33 | the lines of a text read in pieces are those of the first piece and those of its rest with the second |
| `Grep.PrintLines` | user/grep.c:20-28 | the inner loop prints exactly the matching complete lines and finds where the rest begins |
| `Grep.NoneFull` | user/grep.c:17 | no read passes over a place where the buffer would be full |
| `Grep.Run` | user/grep.c:10-34 | grep prints exactly the matching lines of what it has read; it stops before the end if and only if a proper prefix of the input ends in an unfinished line of 1023 characters, and then at the first such place |
| `Shell.GetToken` | user/sh.c:276-319 | gettoken returns the next token, a maximal word, a symbol or >>, with its place, and steps over the white space around it; NUL exactly at the end |
| `Shell.Peek` | user/sh.c:321-331 | peek tells whether the next token begins with one of the characters, moving over white space only |
| `Shell.ParseRedirs` | user/sh.c:385-408 | parseredirs adds exactly the redirections at the cursor, in order, and panics exactly when one lacks its file |
| `Shell.ParseItems` | user/sh.c:437-456 | the loop of parseexec collects words and redirections up to a symbol that ends a command; it panics exactly at another symbol or the tenth word |
| `Shell.ParseExec` | user/sh.c:426-457 | parseexec follows the function PExec: a block or a simple command, or a panic |
| `Shell.ParseBlock` | user/sh.c:410-424 | parseblock follows PBlock: a parenthesised line and redirections around it, or a panic |
| `Shell.ParsePipe` | user/sh.c:372-383 | parsepipe follows PPipe; | groups to the right |
| `Shell.ParseLine` | user/sh.c:355-370 | parseline follows PLine: & wraps what is before it, ; groups to the right; the mutual recursion ends |
| `ShellParse.LineSpelled` | user/sh.c:355-370 | what the parser returns is spelled, by the grammar, by the text it has read |
| `ShellParse.LineFound` | user/sh.c:355-370 | the parser finds every command that the grammar allows for a text, before anything that can follow it |
| `ShellParse.AcceptsIff` | user/sh.c:338-353 | the parser accepts exactly the lines of the grammar, as exactly the commands they spell |
| `ShellParse.Unambiguous` | user/sh.c:338-353 | no line spells two commands |
| `ShellSpec.LineExact` | user/sh.c:338-353 | the arguments and file names of a command are words of the line that spells it, and every word character of the line is in one |
| `ShellSpec.TerminatedWords` | user/sh.c:460-504 | the NULs behind the words fall inside no word |
| `Shell.NulTerminate` | user/sh.c:460-504 | nulterminate writes a NUL behind every argument and file name and changes no other byte |
| `ShellOpens.LineTold` | user/sh.c:385-408 | a command that a line spells opens each file behind < for reading as descriptor 0, each behind > or >> with O_WRONLY and O_CREATE as descriptor 1, and nothing else; its arguments are the words behind none of these; both in the order of the line |
| `ShellOpens.WordsOf` | user/sh.c:338-353 | the words of a command are its arguments and the files it opens |
| `Shell.ParseCmd` | user/sh.c:338-353 | parsecmd accepts a line exactly when it spells a command and returns that command, which opens what the symbols of the line say; each argument and file name read as a C string is then exactly the word the lexer found |
| `Pipe.WrapHarmlessIff` | kernel/pipe.c:96-118 | wrapping counters address the slots of a ring consistently exactly when the ring size divides the wrap: 512 divides 2^32 |
| `Pipe.Ring.Counters` | kernel/pipe.c:84-115 | although the counters wrap, they tell a full pipe from an empty one |
| `Pipe.Ring.Write` | kernel/pipe.c:76-100 | pipewrite stores its bytes in order up to the first one that cannot be read, and returns the full count; it sleeps, or gives up if killed or without reader, exactly when the pipe fills up before that |
| `Pipe.Ring.Read` | kernel/pipe.c:102-127 | piperead sleeps, or gives up if killed, exactly on an empty pipe with a writer; else it returns the next unread bytes in order, as many as there are, up to n or to a byte that memory does not take, which is lost |

## Left out

- BuddyAllocator.Allocator.constructor: regions of at most 512 bytes, where the metadata takes more than a quarter of the heap, regions that are exactly a block size, where the code reads past its bitmaps, and regions of 2^31 bytes and more, where its indices are wrong, are outside its precondition.
- BuddyAllocator.FirstK: requests above 2^63 bytes, for which the loop does not end.
- Bio.Bcache.Bread: waiting for a buffer lock is not a step here; sleep locks have their own module.
- Log.LogState.Commit: a log that is no larger than LOGSIZE and that two racing operations have overfilled is excluded; for larger logs that cannot happen (LargeLogFits). A cache that has replayed a log is excluded: it has lost references. Processes that hold buffers during the commit hold them throughout, clean and of blocks that are neither logged nor of the log; with another one commit would wait for the buffer lock, which is not a step here.
- LogUse.Update: a block that another process holds would make it wait for the buffer lock, which is not a step here.
- Log.LogState.LogWrite: an operation that logs more than MAXOPBLOCKS distinct blocks breaks its reservation and is excluded.
- Fs.FileSystem.Writei: the part of a chunk that was copied before the copy failed is in the buffer and seen by readers, but is not logged, so it may be lost when the buffer is recycled; that loss is not a step here. What is left of a write that ran into a full disk, which is a panic, is not told.
- Fs.FileSystem.Iput: one step, although the source gives up the lock of the inode cache while it truncates; that another process allocates the inode and shares its entry before the reference is dropped is not a step here.
- SchedSteps.StepInv: parents, pids, channels and table scans are left to chance, which only adds interleavings; a scan whose very entry nice removes goes on with the next one, where the code may follow a node that nice has freed; the panic of exit for the first process, reparent and the deadlock freedom of parent and child locks are not modelled.
- PrioSpec.RoundRobin: picks are single steps on the queues as values; SchedTurns.RoundRobin has the scan step by step.
- PrioQueue.Queues.Insert: bd_malloc of a list node is taken to succeed, as the code takes it.
- Vm.Machine.Copy: the child must be empty below the size, as fork leaves it; what is left after a panic is not told.
- Umalloc.Heap.Malloc: requests above 0x7fffffe0 bytes, whose size does not fit the int argument of sbrk and whose block would lie outside the region; sizes are not cut to 32 bits, which needs a heap above 64 GiB to matter.
- Grep.Run: a read error counts as the end of the file.
- ShellOpens.LineTold: running a command is not modelled; of several redirections of one simple command, runcmd opens the last first.
- Shell.ParseExec: commands are values, so the arguments are collected before the redirections are wrapped around them, rather than filled in below them in place.
- The byte layout of disk inodes, the superblock and directories, path walking, link counts and the calls of log_write inside the inode layer.
- freewalk, uvmfree, copyinstr and the kernel page table.
- exec, file descriptors, the console, devices, traps, assembly, spin lock internals and memory ordering.
- mkfs, user programs other than grep, sh and malloc, and the watchdog and mutex system calls.
