# WeiOS kernel cores in Dafny

WeiOS is a small x86 kernel. This project models its allocators, its crash-recoverable log, copy-on-write memory, the
on-disk file index, the block cache, the scheduler queues and pipes, and proves what the code is for. Code that changes
state step by step is modelled as classes with loops; each method is tied to a function or relation on values, about
which the main results are proved. `dafny verify dfyconfig.toml` checks everything.

## Components

- **Write-ahead log** (`LogProtocol`, `LogHistory`, `LogAdmission`, `LogAsWritten`, `Log`). A state machine whose steps
  are critical sections and single-block disk writes; a batch is a set of pending writes. The class writes disk, header
  and cache and records its steps, so the theorems about runs hold between any two of its writes.
- **Buddy allocator** (`BitIndex`, `BuddyForest`, `Buddy`). A forest of dyadic blocks is the ghost view of page tags,
  free lists and counts.
- **Red-black tree** (`RbShape`, `RbTree`). Trees with a focus (a context and a subtree) describe what each rotation and
  fixup step does; memory is a map from addresses to node fields.
- **User heap** (`HeapBlocks`, `Malloc`). Best fit over the tree of idle blocks, cutting and joining.
- **Copy-on-write** (`PageState`, `CowModel`, `CowRoom`, `FrameLoss`, `Cow`). Page tables and reference counts refine a
  machine in which fork copies every page; `CowRoom` says for how many free pages a fork and a fault go through.
- **Files** (`DiskBitmap`, `FileBlocks`, `Inodes`, `FullChunk`). Bitmap, index blocks and inodes as byte sequences;
  `FullChunk` is one concrete disk, which meets the invariant of all the others.
- **Block cache** (`BufferState`, `BufferContents`, `Buffer`, `CacheRoom`). Hash chains, free list, holders and bytes;
  `BufferContents` is about what readers see and which buffer is reused, `CacheRoom` puts log and cache together.
- **Scheduler** (`RunQueue`, `SchedState`, `SchedSlices`, `SchedTurns`, `SchedSleeps`, `Sched`). Queues and lists; what
  a process gets over whole runs: its slice, its turn, and what its sleep is worth.
- **Slabs** (`SlabChains`, `SlabCache`) and **pipe** (`Pipe`). `Lists` and `Params` hold what the components share.

## Where the code departs from what its surroundings mean

The model follows the evident intention at these places; a lemma says exactly when the written code agrees.

- `kern/buddy.c:79` lets the order reach one past the last free list: `BuddyForest.WrittenBoundOverflows`.
- `kern/buddy.c:80-83` reads the tag at a buddy index that may lie behind the zone. The model stops there; the code has
  no such test and reads inside the zone for all blocks of order below m exactly when 2^m divides the page count:
  `BuddyForest.ReadsStayInZone`, `BuddyForest.LastBlockReadsOutside`.
- `lib/krbfunc.c:187` puts RED where the mirror branch copies the parent's colour: `RbShape.FarNephewAsWritten`.
- `lib/krbfunc.c:46-47` returns the right child as the successor: `RbTree.RbTree.Succeeder` says when that is right,
  `RbTree.SucceederExample` shows it wrong; the heap calls it only for nodes without a right child.
- `user/umalloc.c:106-123` inserts a node that is in the tree already when both neighbours are idle:
  `Malloc.SecondInsertAsWritten`, `Malloc.TwoIdleNeighbours`, `Malloc.InsertTwiceExample`.
- `user/umalloc.c:125-128` inserts a node without resetting its colour: `Malloc.ColourAsWritten`,
  `Malloc.ColourExample`, `Malloc.ThreePages`.
- `user/umalloc.c:66` wraps for huge sizes: `Malloc.GrowFits`; `Malloc.Heap.Malloc` asks for sizes that do not.
- `kern/log.c:227-228` makes a later bread write a logged block home at once, and commit reads every logged block
  before the header write: `LogAsWritten.AtomicityAsWritten`, `LogAsWritten.CommitAsWritten`,
  `LogAsWritten.RereadExample`. bread is taken to return the cached copy.
- `kern/log.c:213-214` with the log size of `lib/mkfs.c:22` leaves one block too few:
  `LogProtocol.RoomNeedsOneMoreBlock`, `LogAsWritten.LastBlockRefused`. The layout has at least LOGSIZE + 1 log blocks.
- `kern/slab.c:177-187` takes the tail of slabs_empty unseen: `SlabChains.TailAsWritten`. The search in the comment is
  the one modelled.
- `kern/inode.c:421` uses the answer of bmap unseen: on a full disk the bytes go to block 0 and the size grows over the
  missing block. `Inodes.FileSystem.Bmap` says when that answer comes, `FileBlocks.LostChunk` and
  `FileBlocks.SizeAsWritten` what follows; `Inodes.FileSystem.Writei` asks for the blocks it needs.

At these places the model does what the code does, and a lemma says when that is not what it should do.

- `kern/pmap.c:294-322` does not test PTE_P: `PageState.RemoveAsWritten`, `FrameLoss.RemoveExample`,
  `CowModel.MapUnmapped`.
- `kern/sysfunc.c:244-247` drops p_ref of a fresh page from 0 to -1 when no page table can be had, and
  `kern/proc.c:203-206` leaves it at 0; either way the frame is lost: `FrameLoss.UserAllocLoss`, `FrameLoss.LazyLoss`,
  `FrameLoss.LossExample`.
- `kern/inode.c:339-368` (the doubly indirect branch, which indexes r - 1) is not reached:
  `FileBlocks.DoubleIndirectUnreachable`.
- `include/param.h:16` gives the cache as many buffers as the log has blocks, and `kern/log.c:174-196` holds one more
  buffer for each logged block, which is pinned already: a commit of more than 60 blocks sleeps for ever in getblk,
  while three transactions may log up to 120: `CacheRoom.CommitRoom`, `CacheRoom.GroupInFreshCache`. The protocol of
  the log takes it that bread returns.

## Model

| member | source | states |
|---|---|---|
| `LogProtocol.CrashAtomicity` | kern/log.c:198-207 | Over every legal run, with a crash allowed between any two single-block writes and batches completing in any order, recovery from the disk of that moment gives the home blocks of the last header write (or of the start), never a mix; `Durable` predicts them from the run alone |
| `LogProtocol.RecoverMeaning` | kern/log.c:104-110 | The copying loop of recovery and its pointwise meaning agree in both directions: logged blocks take their log slot, all others keep their value |
| `LogProtocol.StepKeepsInv` | kern/log.c:113-230 | Every transition keeps the protocol invariant, and changes what a recovery would produce only at the header write, which makes it the whole cached view |
| `LogProtocol.RunKeepsInv` | kern/log.c:113-230 | The invariant holds after every legal run |
| `LogProtocol.DurableGroupsAreClosed` | kern/log.c:133-159 | When the header is written no transaction is open, so the group that becomes durable has every write of its members and nothing else |
| `LogProtocol.IdleViewIsDurable` | kern/log.c:133-159 | An idle, committed system shows readers exactly the durable contents |
| `LogProtocol.RecoveryRestartable` | kern/log.c:75-110 | Any number of recoveries cut off at any step leave the outcome of a full recovery unchanged; one that ends leaves that outcome and an empty header |
| `LogProtocol.RecoveryEndsRun` | kern/log.c:104-110 | A recovery that closes any longer run ends with the home blocks that recovery of the earlier disk prescribes |
| `LogProtocol.ReservationHolds` | kern/log.c:113-159 | Over every interleaving, logged blocks plus unused reservations stay within LOGSIZE, a commit never meets an open transaction, and the panic is unreachable |
| `LogProtocol.RefusalLosesNothing` | kern/log.c:209-230 | log_write inside a transaction of at most MAXOPBLOCKS blocks refuses only when the block is in the log already |
| `LogProtocol.OpenMeansRoom` | kern/log.c:209-230 | An open transaction that logs a new block within its reservation finds the log neither committing nor full |
| `LogProtocol.RoomNeedsOneMoreBlock` | kern/log.c:213-214 | The reserved room is there exactly when the log area has LOGSIZE + 1 blocks; the size mkfs writes is one short |
| `LogAdmission.AdmittedExactly` | kern/log.c:113-129 | At every point of every run a transaction may begin exactly when the log is open and the logged blocks, a full quota for each open transaction and one for the new one are at most LOGSIZE |
| `LogAdmission.AdmissionExamples` | kern/log.c:117-125 | From every fresh file system: with one logged block the second transaction is let in and the third is not; an empty log lets in three |
| `LogAdmission.WaiterIsAdmitted` | kern/log.c:113-159 | From every point of every run, crashes included, ends of open transactions and steps of commit and recovery lead to a state in which any waiting transaction is let in |
| `LogHistory.DurableIsTold` | kern/log.c:198-230 | Over every run, each home block that a recovery would give carries the value of the last log_write to it that a header write has covered with no crash in between, or its first contents; the cached block is told the same way from the calls no crash has undone |
| `LogHistory.AllOrNone` | kern/log.c:113-159 | Of the log_write calls of one transaction either all are covered by a header write or none is |
| `LogAsWritten.RereadBreaksAtomicity` | kern/log.c:227-228 | In every state of the protocol the early home write of a re-read block leaves the outcome of recovery alone exactly when the block is not logged, its home copy is already equal, or the log is being installed |
| `LogAsWritten.AtomicityAsWritten` | kern/log.c:227-228 | Over every run with re-reads anywhere: recovery stays at the durable contents throughout exactly when no logged block whose home copy differs is re-read before the header write |
| `LogAsWritten.CommitAsWritten` | kern/log.c:174-203 | commit re-reads every logged block before the header write; the old contents survive that exactly when no logged block has changed |
| `LogAsWritten.RereadExample` | kern/log.c:163-207 | From any fresh file system: one transaction that changes one block, its commit, and the re-read of that block end in a disk from which recovery does not give the durable contents |
| `LogAsWritten.LastBlockRefused` | kern/log.c:213-214 | A legal run at the size mkfs writes: three transactions within their reservations log 119 blocks, and the last block they may log is refused and missing in the log |
| `Log.LogManager.BeginTransaction` | kern/log.c:113-129 | Admits exactly when no commit is on and the logged blocks with a full quota for each open transaction and the new one are at most LOGSIZE; then it performs the Begin step, otherwise nothing changes |
| `Log.LogManager.MergeIntoHeader` | kern/log.c:219-226 | A block enters the header once |
| `Log.LogManager.LogWrite` | kern/log.c:209-230 | Performs the Log step on header and cache; -1 exactly when the log is full, and the block is in the header afterwards either way |
| `Log.LogManager.BwriteDozens` | kern/bio.c:160-168 | Writes the whole batch in an arbitrary order, one step for each block |
| `Log.LogManager.WriteLogBlk` | kern/log.c:163-196 | Ends with every log slot holding its copy and buf_ptrs equal to the copies |
| `Log.LogManager.WriteLogHeader` | kern/log.c:90-101 | One step: the commit point with entries, the erasure without |
| `Log.LogManager.KeepConsistentOnDisk` | kern/log.c:34-71 | Installs every logged block from buf_ptrs, or from the log when booting |
| `Log.LogManager.Commit` | kern/log.c:198-207 | Ends with an empty log and the home blocks on disk equal to the cached view |
| `Log.LogManager.Leave` | kern/log.c:133-151 | The last one out becomes the committer; the panic branch is not taken |
| `Log.LogManager.EndTransaction` | kern/log.c:133-159 | Ends the transaction, and when it was the last one commits the whole group |
| `Log.LogManager.ReadLogHeader` | kern/log.c:75-85 | Takes the header of the disk into memory |
| `Log.LogManager.RecoverFromLog` | kern/log.c:104-110 | From any crashed state: home blocks as recovery of that disk prescribes, header empty, cache equal to the disk |
| `BitIndex.BuddyIndex` | kern/buddy.c:79-81 | xor with 2^k moves an aligned index to its buddy, and and-ing both gives the lower one, in both cases of the parity of the block |
| `BitIndex.AlignedMeaning` | kern/buddy.c:79-81 | Alignment by low bits is divisibility by 2^k |
| `BitIndex.Nested` | kern/buddy.c:20-25 | Aligned blocks are disjoint or nested |
| `BuddyForest.BuddyIsLeader` | kern/buddy.c:20-25 | In a tiled zone a block of no higher order starts at the buddy of every block whose buddy lies in the zone |
| `BuddyForest.FreeRunInOneBlock` | kern/buddy.c:27-70 | In a coalesced zone an aligned run of 2^k free pages lies in one free block of order at least k |
| `BuddyForest.Canonical` | kern/buddy.c:72-95 | A coalesced tiling is determined by the blocks in use |
| `BuddyForest.AllFreeMeansBoot` | kern/buddy.c:433-450 | With nothing in use, in whatever order blocks were freed, the partition is the boot partition |
| `BuddyForest.FreeUndoesAlloc` | kern/buddy.c:72-95 | A release that leaves the same blocks in use restores every block of the zone |
| `BuddyForest.HalveKeeps` | kern/buddy.c:53-65 | Splitting a block in use keeps the tiling and the coalescing, and only shrinks that block |
| `BuddyForest.JoinKeeps` | kern/buddy.c:79-90 | Joining with a free buddy keeps the tiling and the coalescing |
| `BuddyForest.WrittenBoundOverflows` | kern/buddy.c:79 | The loop bound as written leaves the orders of the free lists exactly when every other page of the top-order frame of the block is free and the buddy of that frame is a free top-order block |
| `BuddyForest.ClimbsToTop` | kern/buddy.c:79-89 | A release climbs to the top order exactly when every other page of its top-order frame is free |
| `BuddyForest.ReadsStayInZone` | kern/buddy.c:79-84 | For blocks of order below m (TOP as meant, TOP + 1 as written) every buddy index lies in a zone of n pages exactly when 2^m divides n |
| `BuddyForest.LastBlockReadsOutside` | kern/buddy.c:433-450 | Otherwise boot leaves a last block, of the order of the lowest bit of n, whose buddy is page n |
| `BuddyForest.OverflowExample` | kern/buddy.c:79 | A zone of two top-order blocks in which it does |
| `Buddy.TagTestExact` | kern/buddy.c:20-25 | The tag test succeeds exactly when the buddy is a free block of that order |
| `Buddy.Zone.constructor` | kern/buddy.c:433-450 | boot_zone_init leaves a coalesced tiling of free blocks and the full page count |
| `Buddy.Zone.Unlink` | kern/buddy.c:40-50 | The first block of a list goes into use, and tags, lists and counts stay exact |
| `Buddy.Zone.SplitOff` | kern/buddy.c:53-65 | The upper half of the block becomes free on its list |
| `Buddy.Zone.NoRunLeft` | kern/buddy.c:27-70 | Empty lists from order k on mean that no aligned run of 2^k free pages exists |
| `Buddy.Zone.Rmqueue` | kern/buddy.c:27-70 | Hands out an aligned run of 2^order free pages as one block in use, cut from a free block of the least order that suffices; fails for an order in range only when there is no such run, and then nothing changes |
| `Buddy.Zone.PageIsBuddy` | kern/buddy.c:20-25 | For the buddy of the block in hand: true exactly when it is a free block of the same order |
| `Buddy.Zone.Absorb` | kern/buddy.c:79-90 | The block in hand takes in its free buddy, which leaves its list |
| `Buddy.Zone.FreePagesBulk` | kern/buddy.c:72-95 | Exactly that block leaves the blocks in use, the zone stays a coalesced tiling with exact lists, tags and counts |
| `RbTree.RbTree.constructor` | lib/krbfunc.c:13-17 | The empty tree |
| `RbTree.RbTree.LeftRotate` | lib/krbfunc.c:55-70 | The pointer stores do to memory what the rotation does to the tree; in-order items and all other memory stay |
| `RbTree.RbTree.RightRotate` | lib/krbfunc.c:72-87 | The mirror image |
| `RbTree.RbTree.Transplant` | lib/krbfunc.c:89-98 | Exactly the stores that put dst in the place of src, with the sentinel as a possible dst |
| `RbTree.RbTree.Minimum` | lib/krbfunc.c:21-26 | The node at the end of the left spine |
| `RbTree.RbTree.Succeeder` | lib/krbfunc.c:44-53 | The in-order successor of a node without a right child; with one, the code's answer is the successor exactly when that child has no left child |
| `RbTree.SucceederExample` | lib/krbfunc.c:46-47 | A sorted red-black tree in which the right child is not the successor |
| `RbTree.RbTree.UncleRed` | lib/krbfunc.c:106-111 | Recolouring moves the one possible violation two levels up |
| `RbTree.RbTree.LiftLeft` | lib/krbfunc.c:116-118 | Recolouring and one rotation end the violation |
| `RbTree.RbTree.LiftRight` | lib/krbfunc.c:131-133 | The mirror image |
| `RbTree.RbTree.InsertFixup` | lib/krbfunc.c:100-137 | From a node of either colour: terminates with the tree that `RbShape.Fixup` describes and with the same items |
| `RbTree.RbTree.Descend` | lib/krbfunc.c:145-152 | Ends at the empty place behind all keys not above and before all keys above the new one |
| `RbTree.RbTree.Insert` | lib/krbfunc.c:139-162 | The old items with exactly the new node inserted behind equal keys, in sorted order; for a red node the result is a red-black tree with a black root |
| `RbShape.FixupRb` | lib/krbfunc.c:100-137 | Started at a red node under correct heights, the fixup ends with a red-black tree with a black root |
| `RbShape.FixupParts` | lib/krbfunc.c:100-137 | The fixup never mends anything below the node it starts at |
| `RbShape.UncleRedRb` | lib/krbfunc.c:106-111 | Black heights and colours after the recolouring |
| `RbShape.LiftRb` | lib/krbfunc.c:116-118 | Black heights and colours after the final rotation of an insertion |
| `RbShape.RedSibling` | lib/krbfunc.c:171-176 | A red sibling is exchanged for a black one without changing what is short |
| `RbShape.BlackNephews` | lib/krbfunc.c:177-180 | With black nephews the shortage moves up one level |
| `RbShape.NearNephew` | lib/krbfunc.c:181-186 | A rotation at the sibling makes the far nephew red |
| `RbShape.FarNephew` | lib/krbfunc.c:210-214 | With the parent's colour on top the last rotation leaves a red-black tree |
| `RbShape.FarNephewAsWritten` | lib/krbfunc.c:187 | RED on top, as the left branch has it, leaves a red-black tree exactly when the parent is red or the root |
| `RbShape.FarNephewExample` | lib/krbfunc.c:187 | A tree in which it does not |
| `RbTree.RbTree.ReddenSibling` | lib/krbfunc.c:177-180 | The stores of that case, and the next node of the loop |
| `RbTree.RbTree.SettleLeft` | lib/krbfunc.c:187-191 | The stores of the last case, with the parent's colour |
| `RbTree.RbTree.SettleRight` | lib/krbfunc.c:210-214 | The mirror image, as written |
| `RbTree.RbTree.DeleteFixup` | lib/krbfunc.c:164-218 | Terminates with a red-black tree with a black root and the same items, also when the node in hand is the sentinel |
| `RbTree.RbTree.SpliceOut` | lib/krbfunc.c:226-231 | A node with one child at most gives its place to that child |
| `RbTree.RbTree.Hoist` | lib/krbfunc.c:236-247 | The successor that is the right child takes the place and colour of the node |
| `RbTree.RbTree.TakeOutAndPlace` | lib/krbfunc.c:238-247 | The successor from deeper down is taken out and takes the place and colour of the node |
| `RbTree.RbTree.TakeOut` | lib/krbfunc.c:220-250 | The three cases of the deletion, before the fixup: which item is gone, and which colour is missing where |
| `RbTree.RbTree.DeleteNode` | lib/krbfunc.c:220-252 | Exactly the given node is gone from the in-order items, the rest is a sorted red-black tree, and the node's own links are cleared |
| `HeapBlocks.TakeKeeps` | user/umalloc.c:52-62 | Cutting a block keeps the covered addresses, the byte total, the order and the absence of idle neighbours, and exchanges one idle header for that of the rest |
| `HeapBlocks.JoinKeeps` | user/umalloc.c:109-122 | Joining neighbours keeps addresses and bytes, and drops the right header |
| `HeapBlocks.JoinLeftStep` | user/umalloc.c:117-121 | After a join to the left the remaining work is unchanged and no idle neighbour is left there |
| `HeapBlocks.JoinRightStep` | user/umalloc.c:109-115 | After a join to the right no idle neighbour is left at all |
| `HeapBlocks.TotalIsCover` | user/umalloc.c:37-129 | The bytes of the blocks are as many as the addresses they cover |
| `HeapBlocks.FreeUndoesMalloc` | user/umalloc.c:100-129 | Freeing what malloc has just handed out restores the list of blocks |
| `Malloc.GrowFits` | user/umalloc.c:66 | The rounded region holds the block exactly when the 32-bit sum does not wrap |
| `Malloc.Heap.MallocSearch` | user/umalloc.c:11-35 | The least key not below the wanted one, or nil when there is none |
| `Malloc.Heap.Found` | user/umalloc.c:51 | That node is a best fitting idle block of the heap |
| `Malloc.Heap.Grow` | user/umalloc.c:66-73 | The region becomes the last block, idle and in the tree |
| `Malloc.Heap.Carve` | user/umalloc.c:52-63 | The found block is cut and handed out |
| `Malloc.Heap.Malloc` | user/umalloc.c:37-74 | The least idle block that fits is cut, or the heap grows once and then succeeds; blocks tile the regions, the tree holds exactly the idle ones, bytes are conserved; null exactly when nothing fits and sbrk fails |
| `Malloc.Heap.FindSiblings` | user/umalloc.c:76-98 | The idle neighbour that touches the block, left first |
| `Malloc.Heap.Merge` | user/umalloc.c:106-123 | One turn of the loop of free, with the node in hand taken out of the tree first |
| `Malloc.Heap.Free` | user/umalloc.c:100-129 | The block is one idle block with its idle neighbours on both sides, heap invariant and byte total kept |
| `Malloc.SecondInsertAsWritten` | user/umalloc.c:106-123 | The loop inserts a node that is in the tree already exactly when both neighbours are idle |
| `Malloc.TwoIdleNeighbours` | user/umalloc.c:106-123 | malloc, malloc and free of the first lead to a heap in which the other block is busy between two idle neighbours that touch it |
| `Malloc.InsertTwiceExample` | user/umalloc.c:113-115 | Inserting the only node of a tree again, painted red as free does, links it under itself, which no tree allows, and after any number of rounds the loop of the fixup still goes on |
| `Malloc.ColourAsWritten` | user/umalloc.c:125-128 | The tree the code ends with is red-black exactly when the old colour was red, the tree was empty, or the node is an inner grandchild under a red parent with an empty uncle |
| `Malloc.ColourExample` | user/umalloc.c:125-128 | A black node under a black root: the result is no red-black tree |
| `Malloc.ThreePages` | user/umalloc.c:125-128 | What three mallocs of a whole page and the frees of the first and the third do to the tree, with the colours as the code leaves them: it is no red-black tree afterwards |
| `PageState.AllocKeeps` | kern/pmap.c:216-230 | A page handed out was named by no entry |
| `PageState.WalkKeeps` | kern/pmap.c:243-262 | The table appears with count one, and nothing mapped changes |
| `PageState.InsertKeeps` | kern/pmap.c:264-292 | The entry is set, an old one is removed, and every p_ref still counts the entries that name its frame |
| `PageState.RemoveKeeps` | kern/pmap.c:311-322 | The count follows the entry, and a frame becomes free exactly when its last entry goes |
| `PageState.RemoveAsWritten` | kern/pmap.c:294-322 | Without a test of PTE_P the counts change as the entries do exactly when the address is mapped or has no table |
| `CowModel.DupKeeps` | kern/sysfunc.c:346-366 | duppage gives the child the parent's page as copying would, and nobody sees anything else change |
| `CowModel.ForkKeeps` | kern/sysfunc.c:368-393 | The loop of cow_fork gives what copying all pages gives; cut off, it has changed only the child, and it is cut off exactly when the allocator has refused a page |
| `CowModel.FaultKeeps` | kern/trap.c:150-169 | A copy-on-write fault is handled exactly when the allocator gives a page for the copy and, where PFTEMP has no table, one for the table; then nothing anyone sees changes and the page can be written |
| `CowModel.WriteKeeps` | kern/trap.c:171-183 | A store through a writable entry reaches nobody else unless the page is shared on purpose |
| `CowModel.ExitKeeps` | kern/proc.c:212-233 | pgdir_free removes the process and nothing else |
| `CowModel.StepRefines` | kern/sysfunc.c:346-393 | Every step of fork, fault, write and exit is a step of the machine that copies at fork; a fork fails and a fault ends its process only in a step in which the allocator refused a page |
| `CowModel.RunRefines` | kern/sysfunc.c:346-393 | The same over every run, whatever the page allocator answers |
| `CowRoom.ForkRoom` | kern/sysfunc.c:368-393 | With an allocator that refuses only when no page is free: a fork into a process without pages goes through exactly when as many pages are free as page tables that the child lacks |
| `CowRoom.FaultRoom` | kern/trap.c:150-183 | With such an allocator: a copy-on-write fault is handled exactly when one page is free, or two when PFTEMP has no page table, and the first touch of a heap page likewise |
| `CowModel.RunInvariants` | kern/pmap.c:237-322 | At every point of every run: p_ref of a mapped frame counts its entries, no free frame is mapped, and a writable private mapping is the only mapping of its frame |
| `CowModel.MapUnmapped` | kern/sysfunc.c:270-275 | An unmapped source is refused only without a table or for a writable mapping; otherwise frame 0 is mapped |
| `FrameLoss.UserAllocLoss` | kern/sysfunc.c:242-247 | user_page_alloc loses its page, with p_ref at -1, exactly when there is a page, no table for the address, and no further page; otherwise no frame is lost |
| `FrameLoss.LazyLoss` | kern/proc.c:203-206 | proc_region_alloc loses its page under exactly the same condition |
| `FrameLoss.FaultLoss` | kern/trap.c:150-169 | cow_pgfault loses at most the page it wanted at PFTEMP, exactly under that condition |
| `FrameLoss.UnmappedIsFree` | kern/pmap.c:237-322 | Over every run: the frames that no entry names and that are not free are those of the start and exactly those that faults of the run have lost |
| `FrameLoss.FreeExactlyWhenUnmapped` | kern/pmap.c:237-241 | After every run a frame that was not lost is free exactly when no entry names it |
| `FrameLoss.LossExample` | kern/sysfunc.c:242-247 | With one free page left: both paths end with no page free and none mapped |
| `FrameLoss.RemoveExample` | kern/pmap.c:311-322 | One heap page touched and its untouched neighbour removed: frame 0 loses its reference and becomes free |
| `Cow.Machine.PgdirWalk` | kern/pmap.c:243-262 | With create, state and result are those of `PageState.Walk`, table page and its count included; without it nothing changes and the answer says whether the table is there |
| `Cow.Machine.Insert` | kern/pmap.c:264-292 | State and result are those of `PageState.PageInsert`, which InsertKeeps and the refinement are about: same frame, other frame, empty entry, no table |
| `Cow.Machine.Remove` | kern/pmap.c:311-322 | The state afterwards is that of `PageState.PageRemove`, for mapped and unmapped pages; RemoveKeeps and RemoveAsWritten are about it |
| `Cow.Machine.AllocPage` | kern/sysfunc.c:233-250 | State and result are those of `CowModel.UserPageAlloc`, on the failure paths too, where a frame may be lost |
| `Cow.Machine.MapPage` | kern/sysfunc.c:252-277 | State and result are those of `CowModel.UserPageMap`, refusals and unmapped sources included |
| `Cow.Machine.DuplicatePage` | kern/sysfunc.c:346-366 | State and result are those of `CowModel.DupPage`, which DupKeeps is about |
| `Cow.Machine.ForkPages` | kern/sysfunc.c:368-393 | The two loops over directory and tables do the same as the page-by-page fork |
| `Cow.Machine.CopyFault` | kern/trap.c:150-169 | The stores through PFTEMP end in the state and result of `CowModel.CowPgFault`, and succeed exactly when the allocator gives the page and the table |
| `Cow.Machine.WriteFault` | kern/trap.c:171-183 | Ends in the Fault step of the model, keeps the invariant, and is a step of the machine that copies at fork: the process ends only where the allocator refused a page |
| `Cow.Machine.FreeAll` | kern/proc.c:212-233 | The two loops over directory and tables end in the state of `CowModel.PgdirFree`, which ExitKeeps is about |
| `Cow.Machine.Clone` | kern/sysfunc.c:399-422 | Succeeds exactly when the allocator refuses no page, and then the child sees what copying gives; on failure everything of the child is given back |
| `DiskBitmap.MarkedBit` | kern/bio.c:244-262 | Setting or clearing a bit through byte and mask changes that block's bit only |
| `DiskBitmap.FirstClear` | kern/bio.c:221-242 | The first clear bit, or 0 when all are set |
| `FileBlocks.DoubleIndirectUnreachable` | kern/inode.c:339-368 | MAXFILESIZ wraps in 32 bits, so no byte of a file needs the doubly indirect branch |
| `FileBlocks.OneMoreKeeps` | kern/inode.c:304-337 | A fresh block in an empty slot keeps the bitmap exact, the blocks apart and every file's bytes |
| `FileBlocks.WrittenStep` | kern/inode.c:420-427 | One turn of the write loop puts exactly its bytes into the file |
| `FileBlocks.WrittenContents` | kern/inode.c:403-434 | The finished write splices the file and leaves the others alone |
| `FileBlocks.EmptiedKeeps` | kern/inode.c:215-263 | Freeing an inode's blocks, each held in one place, leaves the bitmap exact and the other files alone |
| `FileBlocks.EmptiedMeans` | kern/inode.c:215-263 | Afterwards the file has no bytes and no addresses, the used blocks are the former ones without those of the file, and every other inode is what it was |
| `Inodes.FileSystem.Balloc` | kern/bio.c:221-242 | Marks and clears a free data block; 0, and nothing changed, exactly when all are taken |
| `Inodes.FileSystem.Bfree` | kern/bio.c:244-262 | Clears exactly that bit; -1 exactly when it was clear |
| `Inodes.FileSystem.Bmap` | kern/inode.c:304-337 | 0 exactly when fewer blocks are free than the logical block and its index block need, and then at most the index block is new; otherwise the block of the logical block, stable where it exists, exactly the missing blocks are taken and logged, and nothing else changes |
| `FileBlocks.LostChunk` | kern/inode.c:421-425 | A turn of writei with the answer 0 changes block 0 and no file |
| `FileBlocks.SizeAsWritten` | kern/inode.c:429-432 | The size update leaves a sound file system exactly when every block below the new size is there |
| `Inodes.FileSystem.Readi` | kern/inode.c:374-400 | Returns the exact slice of the file, or the offset error, and changes nothing |
| `Inodes.FileSystem.WriteBlocks` | kern/inode.c:420-427 | The loop of writei: bytes, blocks taken and blocks logged |
| `Inodes.FileSystem.Writei` | kern/inode.c:403-434 | The file becomes old[..off] + data + old[off+n..], all other files stay, exactly the missing blocks are taken, and disk and memory inodes agree |
| `Inodes.FileSystem.Ifree` | kern/inode.c:215-263 | The file has no bytes and no addresses, the used blocks are the former ones without exactly its blocks, each of which was used, and every other inode is what it was |
| `Inodes.FileSystem.ChunkNeeds` | kern/file.c:131-142 | The blocks a chunk touches, those it takes, the index block and the inode's block together are at most MAXOPBLOCKS, wherever it starts: the block of an offset inside a block is there already |
| `Inodes.FileSystem.ChunkFits` | kern/file.c:131-142 | Whatever the size of the bitmap, a chunk logs at most MAXOPBLOCKS blocks, because balloc logs one bitmap block for each block it takes |
| `FullChunk.FillReservation` | kern/file.c:131-142 | A transaction on a concrete disk, with one free block in each bitmap block, that logs exactly MAXOPBLOCKS blocks |
| `FullChunk.DiskInv` | kern/inode.c:304-337 | That disk meets the invariant of the file system |
| `Inodes.FileSystem.WriteTransaction` | kern/file.c:132-139 | One chunk: its effect on the file, exactly which blocks are logged and that they are at most MAXOPBLOCKS for every bitmap; no block of any file moves |
| `Inodes.FileSystem.FileWrite` | kern/file.c:117-144 | All chunks together splice the file at the old offset, each within its reservation for every bitmap; short writes return -1 with the written prefix in place |
| `BufferState.FindIs` | kern/bio.c:264-281 | The search finds the one buffer of the block, if there is one |
| `BufferState.GetKeeps` | kern/bio.c:65-120 | getblk waits exactly when the block is held, or no buffer has it and none is free; otherwise it hands out a buffer nobody holds. One that is valid or dirty has been this block's before; any other is the first of the free list and not valid. No other buffer changes, no dirty one is given to another block |
| `BufferState.RunSafe` | kern/bio.c:65-120 | Over every interleaving: one buffer to a block, on its own chain only; no block held twice; no held or dirty buffer on the free list |
| `BufferState.DirtyStays` | kern/log.c:227-228 | A buffer marked by log_write keeps its block until a disk request for it completes |
| `BufferContents.Coherent` | kern/bio.c:65-195 | Over every interleaving of getblk, disk requests, log_write and brelse from boot: a valid or dirty buffer has the bytes last written to its block; the disk has them too unless that buffer is dirty, so a valid clean buffer agrees with the disk |
| `BufferContents.BreadGivesLatest` | kern/bio.c:122-131 | After every such run bread waits exactly when getblk does, and otherwise gives the caller a held buffer with the bytes last written to the block |
| `BufferContents.LeastRecentlyUsed` | kern/bio.c:93-98 | Over every run: while a buffer lies on the free list, none that came there after it, or was in use, is given to another block |
| `CacheRoom.FreeCount` | kern/bio.c:65-120 | The free list has as many buffers as are neither held nor dirty |
| `CacheRoom.CopyRoom` | kern/log.c:174-193 | write_log_blk gets all its buffers exactly when the pinned ones and one for each slot are no more than there are |
| `CacheRoom.CommitRoom` | kern/log.c:163-207 | With only the n logged blocks pinned that is 2n buffers: with NBUF, groups of at most 60 blocks |
| `CacheRoom.GroupInFreshCache` | kern/log.c:163-230 | In a cache fresh from boot every group up to NBUF blocks can be read, logged and released, and its commit gets its buffers exactly up to 60 |
| `CacheRoom.InstallRoom` | kern/log.c:59-67 | Installing from buf_ptrs finds every home block in its dirty buffer and needs no other |
| `CacheRoom.RecoveryRoom` | kern/log.c:45-57 | A recovery of n > 0 blocks gets its buffers exactly when n + 1 are free |
| `Buffer.BlockCache.constructor` | kern/bio.c:25-47 | All buffers free, none hashed, the disk as given |
| `Buffer.BlockCache.FindBlkInHash` | kern/bio.c:264-281 | The loop finds what the specification finds |
| `Buffer.BlockCache.Getblk` | kern/bio.c:65-120 | One turn of the loop, the TryGet of the model: it sleeps exactly when the block is held, or no buffer has it and none is free; a valid or dirty buffer it hands out was this block's before, any other was first on the free list and is not valid |
| `Buffer.BlockCache.IdeReadWrite` | kern/ide.c:118-186 | A dirty buffer is written to its block, any other one is read from it; afterwards buffer and disk agree and the buffer is valid and clean |
| `Buffer.BlockCache.Bread` | kern/bio.c:122-131 | A held buffer with a content of the block, which is what the cache and the disk show for it; the request is made only when the buffer has none |
| `Buffer.BlockCache.Brelse` | kern/bio.c:181-195 | The buffer joins the tail of the free list when it is clean, and no list when it is dirty |
| `SlabChains.LayoutFits` | kern/slab.c:14-30 | For every object size up to the page the objects lie in the page, apart from each other and from the index array |
| `SlabChains.CountFits` | kern/slab.c:14-30 | A slab has objects exactly when the size is at most the page, and never more than the index array or BUFCTL_END allow |
| `SlabChains.CountIsMaximal` | kern/slab.c:14-30 | n objects, with their indices when they are small, fit into a page exactly when n is at most the count |
| `SlabChains.IndexOfObject` | kern/slab.c:225-226 | The index is recovered from the address |
| `SlabChains.FreshSound` | kern/slab.c:115-117 | The initial array is a chain through all objects |
| `SlabChains.PopSound` | kern/slab.c:202-204 | Taking the first object leaves a chain of the rest |
| `SlabChains.PushSound` | kern/slab.c:228-233 | Returning an object in use puts it in front, and the count was positive |
| `SlabChains.TailAsWritten` | kern/slab.c:177-187 | The untested tail of slabs_empty has a valid free index exactly when it has a free object |
| `SlabChains.TailExample` | kern/slab.c:177-187 | Two slabs, the older with a free object and the newer full |
| `SlabCache.KmemCache.CacheGrow` | kern/slab.c:79-128 | A fresh slab with all its objects free |
| `SlabCache.KmemCache.FindSlab` | kern/slab.c:166-187 | With the search the comment shows, a free object anywhere means a slab is found |
| `SlabCache.KmemCache.Alloc` | kern/slab.c:157-218 | Exactly one object that nobody held becomes live, inside its page; null exactly when there is no free object and no page |
| `SlabCache.KmemCache.Free` | kern/slab.c:221-238 | Exactly that object is no longer live, and the slab goes with its last object |
| `SlabCache.KmemCache.SlabDestroy` | kern/slab.c:131-150 | The slab leaves its list and the count of free objects |
| `RunQueue.AddSound` | kern/sched.c:18-31 | Bitmap, lists and count stay exact |
| `RunQueue.DelSound` | kern/sched.c:33-51 | Bitmap, lists and count stay exact |
| `RunQueue.FirstIsLeast` | kern/sched.c:53-68 | The first set bit is the least priority number with a process, and there is none exactly when the queue is empty |
| `RunQueue.RecalculateBounds` | kern/sched.c:98-109 | A priority in range, never larger for more sleep unless the product wraps, moved by five at most |
| `RunQueue.TimesliceBounds` | kern/sched.c:111-117 | Between MIN_TIMESLICE and MAX_TIMESLICE, strictly longer for a smaller priority number, never empty when halved |
| `SchedSlices.BonusExact` | kern/sched.c:98-109 | The new priority is the old one plus five less one for each hundred ticks of the average, kept within 0 and 39 |
| `SchedSlices.SliceExact` | kern/sched.c:111-117 | A fresh slice is 10 * (40 - q) ticks for a priority q below 20 and half of 5 * (40 - q) from there on |
| `SchedState.RescheduleFair` | kern/sched.c:134-168 | The chosen process has least priority number in the run queue, and one with a spent slice is chosen only when the run queue was empty |
| `SchedState.SpentWaits` | kern/sched.c:134-168 | Over every run: a process in the exhausted queue stays there and does not run, up to a step that finds the run queue empty and swaps the queues |
| `SchedState.LastTick` | kern/trap.c:213-216 | The tick that spends a slice puts the process into the exhausted queue, and it runs on only when the run queue was empty |
| `SchedState.StepSpent` | kern/sched.c:134-168 | No single step takes a process out of the exhausted queue without such a swap |
| `SchedSlices.RescheduleProcs` | kern/sched.c:134-168 | The process that gave up the CPU runnable has its new priority, no average, its slice unchanged or, if it was spent, a fresh one, and is in the run queue or the exhausted one; the chosen one runs; all others are what they were |
| `SchedSlices.StepDoes` | kern/sched.c:119-191 | What each step does to each process: yield leaves it runnable, sleep asleep, exit a zombie, a tick costs one, the last one queues it with a fresh slice |
| `SchedSlices.NewDoes` | kern/sysfunc.c:317-322 | A new process is runnable in the run queue; parent and child get half of what the parent had left, at least one tick |
| `SchedSlices.SliceConserved` | kern/trap.c:213-216 | Over every run in which a process neither spends its slice nor forks, what it has left and the ticks it got in user mode add up to what it had |
| `SchedSlices.FullSlice` | kern/trap.c:213-216 | Over every run: between the ticks that spend two slices a process that does not fork gets exactly 10 * (40 - q) ticks in user mode for its priority q below 20, half of 5 * (40 - q) from there on |
| `SchedSlices.ZombieStays` | kern/sysfunc.c:185-231 | Over every run: a process that has exited stays a zombie and never runs again |
| `SchedTurns.StepAdvances` | kern/sched.c:18-51 | Every step, every list of every queue: the only way out is the choice of its head, the only way in is behind its tail |
| `SchedTurns.TurnsInOrder` | kern/sched.c:119-191 | Over every run: of two processes in one list the first gets the CPU before the second |
| `SchedTurns.FirstComeFirstServed` | kern/sched.c:119-191 | Over every run: a process that joins a list, because its slice was spent, it yielded, was woken or is new, gets the CPU only after each process that was there before it |
| `SchedSleeps.StepJiffs` | kern/trap.c:209-212 | The clock goes on by one with each tick of the timer and with no other step |
| `SchedSleeps.SleepCounts` | kern/sysfunc.c:37-98 | Over every run: a process that slept n ticks and is woken is runnable with the rest of its slice, and its priority is that of its average plus n, as long as ten times that is a uint32_t |
| `SchedState.BootInv` | kern/proc.c:64-75 | Two empty queues satisfy the invariant that all runs keep |
| `SchedState.StepInv` | kern/sched.c:119-191 | Every step keeps lists, bitmaps, counts and statuses consistent |
| `SchedState.RunQueues` | kern/sched.c:18-68 | Over every run from boot or any consistent state: bit p is set exactly when list p is not empty, n_procs is the total length, no process is linked twice, the running one is in no queue |
| `SchedState.WakeAllInv` | kern/sysfunc.c:69-98 | wakeup empties the sleep list and keeps everything consistent |
| `Sched.Cpu.AddProcToQueue` | kern/sched.c:18-31 | Exactly that process joins the list of its priority, and bitmap, lists, count and places stay exact; the state is that of `SchedState.Enqueue` |
| `Sched.Cpu.DelProcFromQueue` | kern/sched.c:33-51 | Exactly that process leaves the queue, and bitmap, lists, count and places stay exact; the state is that of `SchedState.Dequeue` |
| `Sched.Cpu.FindFirstSet` | kern/sched.c:53-68 | The loop finds the first set bit |
| `Sched.Cpu.Schedule` | kern/sched.c:131-168 | A turn of the loop of scheduler is the reschedule of the state machine; the process that gave up the CPU keeps its slice or, if it was spent, gets the fresh one of its new priority, its average is zero, and no other process changes but the chosen one |
| `Sched.Cpu.SleepOn` | kern/sysfunc.c:37-67 | The current process sleeps and another one is chosen |
| `Sched.Cpu.Wakeup1` | kern/sysfunc.c:69-98 | Every sleeper joins the run queue with its new priority |
| `Sched.Cpu.KillProc` | kern/sysfunc.c:164-183 | A sleeping process becomes runnable, others stay |
| `Pipe.WrapNeedsDivisor` | kern/pipe.c:86 | A wrapped counter names the same place of a ring for all counts exactly when the size divides 2^32 |
| `Pipe.WrapKeepsDifference` | kern/pipe.c:100 | The 32-bit difference of the wrapped counters is the fill of the pipe |
| `Pipe.Ring.Read` | kern/pipe.c:70-92 | The bytes read continue the prefix of the bytes written, as many as wanted and there |
| `Pipe.Ring.Write` | kern/pipe.c:95-118 | The bytes taken follow those written before, as many as there is room for |

## Left out

- Disk, interrupt and screen drivers: the disk is a map, a single-block write is atomic, and batches complete in any
  order; the order of `update_idequeue` is not modelled.
- The hot and cold page lists, zone selection, page flags and the reserved list beyond its page count.
- Spinlocks, interrupt depth, context switch, TLB, segments: a critical section or a reschedule is one step.
- exec, IPC, path walking, directories, system call dispatch and the user programs other than malloc.
- Red-black nodes and heap headers live in a map from addresses to fields, not in objects of their own; linked lists are
  sequences, so the stores to `next` and `prev` are not modelled.
- sbrk is a parameter of malloc, a fresh region above all blocks or zero. `kern/sysfunc.c:442-448` as written returns
  the end of the region and adds that end to the heap pointer.
- Malloc.Heap.Malloc: asks that the size plus header and rounding does not wrap; GrowFits says what happens otherwise.
- The page allocator of the copy-on-write part and the order of its answers are arbitrary; p_ref is unbounded, and the
  permission bits of directory entries are not modelled because page_insert only ever adds to them.
- CowModel.StepRefines: user_page_map and user_page_alloc as system calls are no steps of its machine, because a process
  may map its own pages writable twice with them; fork, faults, writes and exit are.
- A user write replaces a whole page, which a byte store is an instance of.
- Index blocks are arrays of block numbers; their encoding in four bytes each is not modelled. A cleared block reads as
  zero bytes and as an empty index.
- Inodes.FileSystem.Writei: asks for the free blocks that the write needs, because the code does not test for them;
  device inodes and inode allocation are left out.
- Inodes.FileSystem.WriteBlocks: asks for these free blocks for the same reason.
- Inodes.FileSystem.WriteTransaction: asks for these free blocks for the same reason.
- Inodes.FileSystem.FileWrite: asks for these free blocks for the same reason.
- The index block's buffer that bmap keeps held when balloc fails (`kern/inode.c:330-331`).
- Cow.Machine.WriteFault: excludes a fault at the scratch page PFTEMP, which `kern/trap.c:178` admits when base_mem_sz
  lies below it, and CowModel.Enabled and CowModel.NoTemp exclude a mapping there; what cow_pgfault then does to the
  page it uses as scratch is not modelled.
- In the block cache a store by the holder and the log_write that marks it are one step; one that log_write refuses
  (`kern/log.c:213-217`) is not among them, and crashes are left to the log.
- CacheRoom.CommitRoom: takes it that no other process holds a buffer; those that do give theirs back in time.
- One device: `kern/bio.c:276` assigns dev where it means to compare, which makes no difference then.
- breada, which keeps a buffer when it need not read, and the waking of processes that wait for a buffer.
- The descriptors of normal slabs come from meta_cache; giving them back to it is not modelled.
- Wakeups and alarms that set `preempted` change no queue and are left out; wait, which takes a zombie's descriptor
  away, is too.
- Exit is one step. `kern/sysfunc.c:206-231` closes the open files between the status and sched, and a sleep in there
  would take the status away again.
- Header entries beyond nblks and the moment at which `committing` is cleared after the erasing header write.
- Pipe.Ring.Read: a process that was woken after the write end closed is refused even when bytes are left, as the
  code does.
