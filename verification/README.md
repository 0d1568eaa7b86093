# xv6: log, file system, scheduler, allocators, pipes and text processors

A Dafny model of the kernel and user code of this xv6 variant, with its priority scheduler
and the aging variant of it, and proofs of what that code promises.

- **Shared** (`Common.dfy`) and **disk blocks** (`Blocks.dfy`): 512-byte blocks and the
  little-endian words in them.
- **Write-ahead log and buffer cache** (`LogDisk.dfy`, `LogOps.dfy`, `Bio.dfy`, `Log.dfy`,
  `LogRuns.dfy`): the redo log as a sequence of atomic block writes that a crash can cut
  anywhere; the reservation protocol of `begin_op()`/`end_op()` as a step machine; the buffer
  cache as a doubly linked ring; `log.c` running on that cache, one disk write per method
  call so that other processes' cache operations may come between; and runs of it from boot.
  `bc.latest` is the logical disk: the last contents given to `log_write()` or `bwrite()`.
- **Files** (`FsSpec.dfy`, `FsLog.dfy`, `Fs.dfy`): bitmap, inodes, direct and indirect
  blocks, byte contents, truncation and the chunked `filewrite()`, with the blocks each
  transaction logs. The `disk` of this module is the logical disk that the cache and log
  provide.
- **Files over the log** (`FsCrash.dfy`): bitmap, inodes and data as one disk image, calls of
  `filewrite()` and truncations as log transactions, alone or committed in groups, and what a
  crash in a commit leaves.
- **Scheduler and processes** (`Sched.dfy`, `SchedRuns.dfy`, `Procs.dfy`, `ProcRuns.dfy`):
  the loops of `scheduler()`, `exit()`, `wait()`, `kill()` and `allocproc()` over the process
  table, and step machines for whole runs on any number of CPUs.
- **Allocators** (`Umalloc.dfy`, `VmSpec.dfy`, `Vm.dfy`): the first-fit free list of
  `umalloc.c` in header units, and two-level page tables over the page free list.
- **Pipes** (`Pipe.dfy`): the ring with wrapping 32-bit counters, and runs of readers,
  writers, closes and kills.
- **Text processors** (`ShellSpec.dfy`, `ShellText.dfy`, `Shell.dfy`, `Grep.dfy`): the shell's
  grammar, what its lines mean character by character, its cursor-moving parser, and the
  pattern matcher.

A panic of the source is a result (`None`, `false`, `Panic`, `Remap`), not a precondition,
unless its cause is named below. Sections under a spin lock are atomic steps.

## What turned out not to hold

- `log_write()` can panic on the disk that `mkfs.c` makes. If operations have logged fewer than
  `MAXOPBLOCKS` blocks at each call, or make at most `MAXOPBLOCKS` calls, it never does exactly
  when the on-disk log has more than `LOGSIZE` blocks (`LogOps.NoPanicIffLogLarge`); `mkfs.c`
  gives it `LOGSIZE`, header included. The chunks of `filewrite()` keep to the former.
- No log size is safe. A commit that nobody else disturbs succeeds exactly when it carries
  fewer than `NBUF` blocks (`Log.Log.Commit`), and `NBUF` equals `LOGSIZE`. From boot, on
  every disk with an intact log, three operations of ten blocks each end in a panic: of
  `log_write()` with a log of at most `LOGSIZE` blocks, of `bget()` with a larger one
  (`LogRuns.ThreeFullOperations`).
- Truncation need not fit a transaction. It logs one block for every bitmap block that
  describes a block of the file, and the inode block (`Fs.FileSystem.Itrunc`). It always fits
  `MAXOPBLOCKS` exactly if at most nine bitmap blocks describe data blocks; otherwise some
  file is too widely spread (`FsLog.TruncFitsIff`). The disk of `mkfs.c` has one bitmap block.
- With aging, a waiting process is dispatched within 50 * (20 - priority) + `NPROC` dispatches
  on one CPU only. For every priority, that bound holds on n CPUs if and only if n is one
  (`SchedRuns.OneCpuBoundIff`): each CPU has its own cursor, and each can pass a process of
  the top priority that its cursor has just left behind. `param.h` and the `Makefile` give the
  system two CPUs. What holds on n is 50 * (20 - priority) + n * `NPROC`
  (`SchedRuns.BoundedStarvation`), and n * (`NPROC` - 1) at the top priority, which is reached
  (`SchedRuns.WorstAtTop`).
- `growproc()` leaves a wrong size exactly when a process shrinks to nothing: `deallocuvm()`
  then returns 0, which is read as a failure (`Vm.AddressSpace.Growproc`).
- A killed writer that fills a pipe strands its sleeping readers. A step keeps every sleeper
  justified exactly when it is not such a write (`Pipe.StepSleepers`, `Pipe.RunSleepers`).
- `malloc()` asks `sbrk()` for enough exactly up to 0x7FFF_FFF0 bytes. The units it computes
  hold the request exactly up to 0xFFFF_FFF8 bytes; beyond that the count wraps to the header
  alone (`Umalloc.RequestsThatFit`).
- The shell takes at most nine words per command, one fewer than `MAXARGS`
  (`ShellSpec.PlainCommand`).

## Model

| member | source | states |
|---|---|---|
| Blocks.SetWordThenRead | log.c:102-113 | a word stored in a block reads back and no other word of the block changes |
| Blocks.WordDigits | mkfs.c:55-66 | words are little-endian: byte m of a word is its digit m to the base 256 |
| LogDisk.HeaderRoundTrip | log.c:86-113 | the header block written by write_head() holds the count in word 0 and block number i in word i + 1, which read_head() then finds, whatever the block held before |
| LogDisk.RecoveryInstalls | log.c:116-122 | recovery leaves the home blocks as if the logged transaction had been applied, and an empty log |
| LogDisk.RecoveryCutShort | log.c:116-122 | cut after any number of writes, recovery leaves a valid log that recovers to the same home blocks |
| LogDisk.CommitCutShort | log.c:177-202 | cut after k writes, commit() leaves a disk that recovers to the home blocks before the transaction while the header is unwritten, and to all of the transaction afterwards |
| LogDisk.CommitCompletes | log.c:193-202 | an uninterrupted commit installs the whole transaction and empties the log |
| LogDisk.RebootRecovers | log.c:54-66 | however often recovery is interrupted and restarted, its completion yields the same home blocks |
| LogDisk.StepIsAtomic | log.c:177-202 | one transaction, committed or crashed at any write and recovered through any interruptions, happens entirely or not at all |
| LogDisk.CrashAtomicity | log.c:69-122 | over every history of commits, crashes and interrupted recoveries the home blocks are those of a file system that performs each transaction atomically |
| LogDisk.ApplyAgrees | log.c:70-82 | redoing a sequence of writes gives every block it names the same contents whatever the block held before |
| LogDisk.InstallAgain | log.c:70-82 | installing a transaction again after part of it was installed gives the same disk |
| LogOps.StepKeepsInv | log.c:126-174 | every step of every operation keeps the reservation invariant, and end_op() never finds a commit running |
| LogOps.ReservationHolds | log.c:126-174 | in every interleaving of calls that log at most MAXOPBLOCKS distinct blocks, logged blocks plus unspent reservations fit LOGSIZE, no block is logged twice, and nothing is outstanding during a commit |
| LogOps.CallFindsRoom | log.c:214-222 | an operation whose successive calls each find fewer than MAXOPBLOCKS blocks logged by it keeps to the discipline in any interleaving |
| LogOps.LargeLogNeverPanics | log.c:214-222 | with a log of more than LOGSIZE blocks no run in which each call finds fewer than MAXOPBLOCKS distinct blocks logged by its operation meets "too big a transaction" |
| LogOps.SmallLogPanics | log.c:214-222 | with at most LOGSIZE blocks some run of calls within budget does |
| LogOps.NoPanicIffLogLarge | mkfs.c:25 | operations within budget never panic in log_write() if and only if the log has more than LOGSIZE blocks, whether the budget counts distinct blocks or calls |
| LogOps.FullCommit | log.c:126-174 | calls within budget can reach a commit of LOGSIZE blocks |
| Bio.MoveToFrontRing | bio.c:121-141 | the pointer updates of brelse() keep the ring a doubly linked list with the buffer moved to the front |
| Bio.LinkKeepsRing | bio.c:39-55 | the pointer updates that put a buffer behind the head keep the ring doubly linked |
| Bio.MoveToFrontByRelease | bio.c:121-141 | after a release the ring is again ordered by the time of last release |
| Bio.ReplaceKeepsCoherent | bio.c:62-93 | replacing a buffer that pins nothing keeps the cache coherent with the logical disk and one buffer per block |
| Bio.WriteKeepsCoherent | bio.c:110-116 | writing through a locked buffer keeps the cache coherent |
| Bio.PinKeepsCoherent | log.c:214-233 | marking a buffer dirty makes its data the logical contents while the disk keeps the old block |
| Bio.AfterFirst | bio.c:62-93 | after one block has its buffer, a second finds one if two were spare or one was and either block is pinned, and only if it was cached or some buffer was spare |
| Bio.BCache.constructor | bio.c:39-55 | binit() builds a ring of all NBUF buffers, coherent with the disk |
| Bio.BCache.Find | bio.c:69-77 | the first scan finds the buffer of a block exactly when it is cached |
| Bio.BCache.Oldest | bio.c:79-92 | the second scan finds the least recently released buffer that is unreferenced and clean, or there is none |
| Bio.BCache.Bget | bio.c:62-93 | a hit takes a reference; a miss recycles the least recently released clean unreferenced buffer; the panic means there is none; no pin is lost and no block gets two buffers |
| Bio.BCache.Fill | memide.c:39-60 | filling a buffer that is not valid gives it the logical contents of its block |
| Bio.BCache.Bread | bio.c:97-107 | the buffer is locked and holds the latest contents given to log_write() or bwrite(), all other buffers are left alone; the caller sleeps with a reference exactly when the buffer is locked; it panics exactly when the block is not cached and nothing can be recycled |
| Bio.BCache.Woken | bio.c:97-107 | a caller that slept goes on with the lock and the latest contents |
| Bio.BCache.Bwrite | bio.c:110-116 | the block is on disk, is the latest contents, and the buffer is clean |
| Bio.BCache.Brelse | bio.c:121-141 | the last reference moves the buffer to the front of the ring; nothing else changes |
| Bio.BCache.MoveToFront | bio.c:128-139 | the relinking keeps the ring a permutation of all buffers ordered by release |
| Bio.BCache.CopyBlock | log.c:181-189 | one round copies the logical contents of a block over another and writes it, keeps every other pin and every spare buffer, and succeeds when there are buffers enough |
| Bio.BCache.ReadPair | log.c:74-76 | two blocks are held at once with their latest contents whenever there are buffers enough |
| Log.AfterSlotWrite | log.c:177-190 | the disk after a round of write_log() is the disk after one more write of the commit |
| Log.AfterHeadWrite | log.c:102-113 | likewise for the header block that commits |
| Log.AfterInstallWrite | log.c:70-82 | likewise for a home block |
| Log.SlotDuring | log.c:70-82 | while home blocks are installed the log slots still hold the transaction |
| Log.EveryBufferPinned | bio.c:79-92 | as many logged blocks as buffers pin all of them |
| Log.PinsAreLogged | bio.c:79-92 | if every buffer is pinned, at least NBUF blocks are logged |
| Log.NoLogSizeIsSafe | param.h:10-12 | for every log size, some run of the reservation steps within budget reaches a panic of log_write() or a commit of at least NBUF blocks |
| LogRuns.Boot | log.c:54-66 | on every disk with an intact log, recovery at boot succeeds and leaves the recovered disk, no operation and no buffer in use |
| LogRuns.LogTen | log.c:204-233 | an operation that changes ten new blocks succeeds exactly when they fit the on-disk log |
| LogRuns.ThreeFullOperations | param.h:10-12 | from boot, on every disk with an intact log of any size and for any thirty home blocks, three operations of ten blocks end in a panic: of log_write() if the log has at most LOGSIZE blocks, else of bget() in the commit, with every buffer pinned and no disk write made |
| Log.Log.BeginOp | log.c:126-142 | an operation is admitted exactly when no commit runs and n + (outstanding + 1) * 10 <= 30 |
| Log.Log.LogWrite | log.c:214-233 | panics exactly on a full log (30 entries, or one fewer than the on-disk log has) or outside a transaction; otherwise the block is appended to the log unless it is there, pinned, and its data is the latest contents |
| Log.Log.EndOp | log.c:146-174 | the last operation to end starts a commit of exactly the pending blocks |
| Log.Log.WriteLogRound | log.c:177-190 | one round writes the latest contents of logged block i to block start + 1 + i, which is the next disk write of the commit, and keeps the invariant; it succeeds when a buffer is spare |
| Log.Log.PackHeader | log.c:102-110 | the loop of write_head() builds the header block of the transaction |
| Log.Log.WriteHead | log.c:102-113 | the header block on disk names exactly the in-memory log; it fails exactly when no buffer can be had |
| Log.Log.CommitHead | log.c:193-197 | the write that commits the transaction |
| Log.Log.InstallRound | log.c:70-82 | one round copies block start + 1 + i of the disk to the home of logged block i and unpins it |
| Log.Log.FinishCommit | log.c:198-201 | the log is empty, nothing is pinned, disk and logical disk agree, and the disk received exactly the writes of the commit |
| Log.Log.Read | bio.c:97-107 | bread() yields the latest contents also while a commit runs, and leaves every other buffer, pin and the invariant alone; it sleeps or panics exactly as bread() does |
| Log.Log.Woken | bio.c:97-107 | so does a reader that slept |
| Log.Log.Release | bio.c:121-141 | one reference and the lock are dropped, nothing else changes, and the invariant holds also while a commit runs |
| Log.Log.Update | log.c:204-233 | the read, change, log, release protocol: with nobody else holding a buffer and fewer than NBUF blocks logged it fails exactly when log_write() finds the log full; else the block is logged and is the latest contents |
| Log.Log.CrashSafe | log.c:193-202 | in every state of a run, a crash recovers to the last finished commit, or to the latest contents once the running commit has written its header |
| Log.Log.CommittedIsLatest | log.c:193-202 | installing the running transaction gives every home block its latest contents |
| Log.Log.SpareIffRoom | bio.c:79-92 | at the start of a commit with unreferenced buffers one is spare exactly when fewer than NBUF blocks are logged |
| Log.Log.WriteLog | log.c:177-190 | the loop writes every slot |
| Log.Log.InstallTrans | log.c:70-82 | the loop installs every block |
| Log.Log.Commit | log.c:193-202 | the disk receives the commit's writes in order, a prefix of them if bget() panics; with nobody else holding buffers it succeeds exactly when fewer than NBUF blocks are logged |
| Log.Log.UnpackHeader | log.c:91-94 | n is word 0 and block[i] is word i + 1 of the header block |
| Log.Log.ReadHead | log.c:86-98 | the in-memory header is what the disk's header says |
| Log.Log.ReplayTrans | log.c:70-82 | recovery writes the home blocks in log order, a prefix of them if bget() panics |
| Log.Log.RecoverFromLog | log.c:116-122 | the disk becomes the recovered disk, the cache agrees with it, no operation is outstanding, no buffer is locked, spare buffers remain spare, and with two of them it always succeeds |
| FsSpec.OwnershipMeans | fs.c:57-96 | no block is in two slots and the bitmap marks exactly the metadata blocks and the blocks in slots |
| FsSpec.EmptyOwned | mkfs.c:238-251 | a bitmap with exactly the metadata bits set and inodes without blocks satisfy the ownership invariant |
| FsLog.CoveredAlloc | fs.c:57-78 | what balloc() changes is logged |
| FsLog.FreedMore | fs.c:415-428 | one more slot dealt with takes exactly its block from the owners and adds exactly its bitmap block |
| FsLog.FewCalls | file.c:123-134 | calls that log few blocks before the last one each find room |
| FsLog.TruncBound | fs.c:409-436 | a truncation logs at most one block more than there are bitmap blocks with data blocks |
| FsLog.TruncFits | fs.c:409-436 | with at most nine of these a truncation fits MAXOPBLOCKS |
| FsLog.TruncTooBig | fs.c:409-436 | otherwise there is a sound file system in which that of inode 2 does not |
| FsLog.TruncFitsIff | fs.c:409-436 | a truncation of any inode but 0 fits MAXOPBLOCKS in every sound file system if and only if at most nine bitmap blocks describe data blocks |
| FsLog.MoreHistory | file.c:133-152 | one more transaction extends the history of a filewrite() |
| FsLog.PrefixGrows | file.c:133-152 | one more chunk extends the prefix that the file has taken |
| FsCrash.ImageChanges | fs.c:43-96 | a block that no call logged is the same in the disk images before and after |
| FsCrash.TxnInstalls | log.c:193-202 | committing the logged blocks turns the disk image before a transaction into the one after it, and fits the log |
| FsCrash.HomeAfter | file.c:133-152 | after m transactions of filewrite() the home blocks are the image of its m-th state |
| FsCrash.CrashBetween | log.c:69-122 | a crash at any disk write of the commit of transaction m, with any interrupted recoveries, leaves the image of state m or m + 1 |
| FsCrash.FileWriteSurvivesCrash | file.c:118-156 | after a crash at any disk write of a filewrite() and recovery, every block has one owner, no file has a hole, the file holds a whole number of chunks (or all) and no other file changed |
| FsCrash.GroupLogs | log.c:146-174 | what finished calls logged between them covers whatever they changed |
| FsCrash.GroupSurvivesCrash | log.c:146-202 | calls of any processes committed in groups that fit the log: a crash at any disk write of a commit, and any interrupted recoveries, leave the sound file system after a whole number of calls, all of the earlier groups and all or none of that one |
| FsCrash.WholeChunksTaken | file.c:133-152 | after any number of calls, of which those on the file are the chunks of one filewrite(), the file has taken a whole number of chunks, or all |
| FsCrash.GroupedWriteSurvivesCrash | file.c:118-156 | so it has after a crash in a group commit |
| FsCrash.AlsoWrites | file.c:133-145 | a chunk written, or refused, extends the history of calls |
| FsCrash.AlsoTruncates | fs.c:409-436 | so does a truncation |
| FsSpec.AllocDirectStep | fs.c:379-383 | allocating into an empty direct slot keeps ownership and every allocated byte |
| FsSpec.AllocIndirectStep | fs.c:388-389 | allocating the indirect block keeps ownership, every allocated byte and every other pointer |
| FsSpec.AllocEntryStep | fs.c:390-397 | allocating into an indirect entry keeps ownership and every allocated byte |
| FsSpec.FreeDirectStep | fs.c:415-420 | the freed block was owned by that slot and marked in use; ownership holds without it |
| FsSpec.FreeEntryStep | fs.c:425-428 | each entry's block is owned and marked in use when it is freed, although the entry keeps its number |
| FsSpec.FreeIndirectStep | fs.c:430-431 | the indirect block is freed once, after its entries |
| FsSpec.DataWriteBytes | fs.c:500-503 | writing a data block changes the bytes of one file block of one file |
| FsSpec.WrittenRound | fs.c:499-505 | one round of writei() puts the next bytes in place, through direct and indirect blocks, and nothing else |
| FsSpec.WrittenContents | fs.c:483-512 | the contents after all rounds are the old contents with the range replaced |
| FsSpec.ContentsStored | fs.c:374-401 | byte p of a file's contents is stored as byte p % 512 of block addrs[p / 512], or of the block in word p / 512 - 12 of the indirect block |
| FsSpec.SpliceBytes | fs.c:499-505 | replacing a range gives each byte of it the new value and keeps every other |
| FsSpec.OthersKeepContents | fs.c:483-512 | no other file changes |
| Fs.FileSystem.constructor | fs.c:173-190 | starts from any file system on disk with one owner per block, an exact bitmap and no holes |
| Fs.FileSystem.Balloc | fs.c:57-78 | the first free block, zeroed, with its bitmap block logged; the panic means no block is free |
| Fs.FileSystem.Bfree | fs.c:82-96 | panics exactly when the block is free |
| Fs.FileSystem.Bmap | fs.c:374-401 | file block bn is addrs[bn] for bn < 12 and word bn - 12 of the block addrs[12] otherwise, allocated if missing; everything already allocated is unchanged, every change is in a logged block, and one bitmap block is logged per allocation |
| Fs.FileSystem.Readi | fs.c:454-477 | -1 exactly for a bad range, else the slice of the contents that exists; each byte p of it is byte p % 512 of the block that the inode or the indirect block names for p / 512 |
| Fs.FileSystem.ReadRound | fs.c:470-475 | one round returns the matching slice of the contents and changes nothing |
| Fs.FileSystem.WriteRound | fs.c:499-505 | one round, with the blocks it logs |
| Fs.FileSystem.WriteNext | fs.c:499-505 | one round keeps the count of logged blocks within its share |
| Fs.FileSystem.WriteBytes | fs.c:499-505 | the loop of writei() and how many blocks it logs |
| Fs.FileSystem.Writei | fs.c:483-512 | -1 exactly for a bad range; else each byte of the range is stored on disk where readi() looks for it, the contents are the old ones with exactly the range replaced, the size is the larger of the two, other files are unchanged, no hole appears, every disk block, bitmap bit and inode that changed is in a logged block, and the logged blocks are within TxnBound |
| Fs.FileSystem.FreeDirect | fs.c:415-420 | no panic; exactly the direct blocks are freed |
| Fs.FileSystem.FreeEntries | fs.c:423-428 | no panic; exactly the entries' blocks are freed and their bitmap blocks logged |
| Fs.FileSystem.FreeIndirect | fs.c:422-432 | no panic; exactly the indirect block and its entries are freed |
| Fs.FileSystem.Itrunc | fs.c:409-436 | "freeing free block" is unreachable; exactly the blocks of the inode become free, each once, the logged blocks are exactly their bitmap blocks and the inode block, and no other inode changes |
| Fs.FileSystem.FreeSlot | fs.c:416-419 | the block of one direct slot, if any, leaves the owners without a panic and its bitmap block is logged |
| Fs.FileSystem.FreeEntry | fs.c:426-427 | likewise for one entry of the indirect block, which keeps its number |
| Fs.FileSystem.FreeBlocks | fs.c:415-432 | exactly the blocks of the inode lose their owner, and exactly their bitmap blocks are logged |
| Fs.FileSystem.Truncate | fs.c:409-436 | as a transaction: everything it changes is logged, the file is empty, no other file changes, and if at most nine bitmap blocks describe data it fits and each call of log_write() finds room |
| Fs.FileSystem.WriteChunk | file.c:133-145 | one transaction logs at most MAXOPBLOCKS blocks, among them everything it changes, finds fewer logged at each call of log_write(), and writes all of the chunk or nothing |
| Fs.FileSystem.FileWrite | file.c:118-156 | every transaction logs at most MAXOPBLOCKS blocks and everything it changes; between transactions the file system is sound and the file has taken a whole number of chunks; in the end it takes all bytes, or exactly the chunks that fit, and the result tells which |
| Fs.NextChunk | file.c:133-152 | a chunk is taken exactly when it still fits |
| Fs.TakenIs | file.c:133-154 | what is taken is everything if it fits, else the most whole chunks of 1536 bytes below the largest file size, or nothing |
| Fs.ChunkFits | file.c:123-134 | a chunk of at most 1536 bytes at any offset stays within MAXOPBLOCKS |
| Fs.BudgetRound | fs.c:374-401 | each round adds one data block, a bitmap block per allocation, and the indirect block at most once |
| Fs.BudgetTotal | file.c:123-134 | the logged blocks plus the inode block stay within TxnBound |
| Sched.NextRunnable | proc.c:399-401 | the scan stops at the first RUNNABLE slot |
| Sched.PickHighest | proc.c:406-418 | the two inner scans find a RUNNABLE process of maximal priority, the first in circular order |
| Sched.ScanIsCircular | proc.c:399-419 | scanning on to a RUNNABLE slot and choosing from there is choosing in circular order from where the scan began |
| Sched.Dispatch | proc.c:398-424 | one pass under the lock runs the first process of maximal priority in circular order, or meets the end of the table exactly when none is RUNNABLE from the cursor on |
| Sched.Age | proc_3.c:426-436 | a RUNNABLE or RUNNING process gains one point, fifty of which make a priority, below priority 20; at 20 its counter goes round modulo 50; every other process, and every state and pid, is unchanged |
| Sched.AllocProc | proc_3.c:74-93 | the first UNUSED slot gets the next pid, priority 5 and counter 0; priorities and counters stay in bounds |
| Sched.SetPriority | proc_3.c:206-221 | -1 exactly for a priority outside 1..20; else the first slot with the pid changes and nothing else does |
| SchedRuns.CloserToTop | proc_3.c:399-419 | once a process has the top priority, each dispatch of another brings the cursor closer to it |
| SchedRuns.PatienceFalls | proc_3.c:393-443 | no step raises the bound on dispatches before a waiting process, and each dispatch of another lowers it |
| SchedRuns.DispatchesWithinPatience | proc_3.c:393-443 | a run that does not dispatch the process is no longer than that bound |
| SchedRuns.BoundedStarvation | proc_3.c:393-443 | a process that stays RUNNABLE and is not lowered sees fewer than 50*(20-priority) + ncpu*NPROC dispatches of others, whatever they do; on one CPU it runs within 50*(20-priority) + NPROC |
| SchedRuns.WorstAtTop | proc_3.c:393-443 | at the top priority a process on n CPUs sees at most n * (NPROC - 1) dispatches of others, and some process sees as many |
| SchedRuns.PairStarves | proc_3.c:393-443 | a run, at any priority and on any number of CPUs, that passes the bound for one CPU if there is another |
| SchedRuns.OneCpuBoundIff | proc_3.c:393-443 | the bound 50*(20-priority) + NPROC holds of all runs on n CPUs if and only if n is one, for every priority |
| SchedRuns.NextInClass | proc.c:399-419 | after a member of the top class the next one in slot order runs |
| SchedRuns.GoesRound | proc.c:399-419 | dispatches go round the top class |
| SchedRuns.WrapIsCircular | proc.c:393-399 | running off the end of one table, releasing the lock and choosing from slot 0 of another is choosing in circular order, if both have the same top class |
| SchedRuns.RotatesAfter | proc.c:393-443 | in a run of the scheduler's steps each dispatch continues from the slot after the one before, across ends of the table and changes by others |
| SchedRuns.RotationIsFair | proc.c:393-443 | dispatches that do so run each member of a top class of k exactly once in any k consecutive ones |
| SchedRuns.RoundRobin | proc.c:393-443 | in every run of one CPU without aging in which a top class of k processes is RUNNABLE and top whenever the scheduler runs, each member runs exactly once in any k consecutive dispatches |
| Procs.Wakeup1 | proc.c:545-552 | exactly the processes asleep on the channel become RUNNABLE, and nothing else changes |
| Procs.Exit | proc.c:291-331 | slot by slot: sleepers on the parent become RUNNABLE, and those on init if a child is a ZOMBIE; every child goes to init; the process is a ZOMBIE; pids, channels and marks stay; panics exactly for init |
| Procs.HandOver | proc.c:318-325 | the loop over the children of the exiting process |
| Procs.AdoptedIs | proc.c:318-325 | what the adoption loop does to each slot, without the loop |
| Procs.Wait | proc.c:336-375 | reaps the first ZOMBIE child, whose slot becomes UNUSED with no pid, parent or mark; fails exactly when there is none and the caller has no children or was killed; sleeps otherwise |
| Procs.Kill | proc.c:567-584 | marks the first slot with the pid and makes it RUNNABLE if it was SLEEPING; its other fields and all other slots are unchanged; -1 exactly if there is none |
| Procs.AllocEmbryo | proc.c:74-93 | the first UNUSED slot becomes an EMBRYO with the new pid |
| Procs.ExitMeans | proc.c:313-328 | what exit() does to each slot |
| ProcRuns.StepKeepsInv | proc.c:244-375 | every step of fork, exit, wait, sleep, wakeup, kill and scheduling keeps the tree, sleeper and pid invariants |
| ProcRuns.KillWakes | proc.c:567-584 | after a kill() no process with that pid sleeps, each is marked, and no other slot changed |
| ProcRuns.WaitsForSomebody | proc.c:336-375 | wait() sleeps only over a live child |
| ProcRuns.RunKeepsInv | proc.c:244-375 | so does every run |
| ProcRuns.ProcessTree | proc.c:244-375 | in every run from boot each started process but init has a live non-zombie parent, a process asleep in wait() has a live child, no ZOMBIE child and is not killed, and each exited child is reaped at most once |
| Umalloc.InsertionPoint | umalloc.c:30-32 | there is a gap for every block of the heap |
| Umalloc.StopsThere | umalloc.c:30-32 | the search of free() stops at that gap and nowhere else |
| Umalloc.Absorb | umalloc.c:33-37 | merging with or linking to the block above keeps the list ordered and all units |
| Umalloc.Join | umalloc.c:38-42 | merging into or linking from the block below keeps the list circular, ordered and without adjacent blocks |
| Umalloc.FreeKeepsHeap | umalloc.c:25-43 | freeing keeps the whole heap invariant: order, no adjacent free blocks, disjointness from live blocks, and free plus live units equal to the units obtained |
| Umalloc.TakeWhole | umalloc.c:75-77 | handing out a whole block keeps the heap invariant |
| Umalloc.TakeTail | umalloc.c:78-82 | handing out the tail of a block keeps the heap invariant |
| Umalloc.GrowHeap | umalloc.c:47-60 | memory from sbrk() becomes a live block of the heap |
| Umalloc.RequestsThatFit | umalloc.c:47-69 | morecore() asks for enough exactly for requests up to 0x7FFF_FFF0 bytes; up to 0xFFFF_FFF8 the units are the fewest that hold the request, beyond that they hold nothing |
| Umalloc.Heap.FindGap | umalloc.c:30-32 | from any freep the search ends at the block's gap |
| Umalloc.Heap.Free | umalloc.c:25-43 | the block leaves the live set and the heap invariant holds |
| Umalloc.Heap.Morecore | umalloc.c:47-60 | the units from sbrk() join the free list, and the next search finds them |
| Umalloc.Heap.Take | umalloc.c:74-84 | a fresh live block of exactly the requested units, the tail of the block found, and the search goes on from its predecessor |
| Umalloc.Heap.Malloc | umalloc.c:64-90 | terminates with at most one morecore() call, returns a fresh disjoint block, the tail of the first fit from freep on, and fails exactly when nothing fits and sbrk() refuses |
| VmSpec.AllocAccounted | kalloc.c:83-95 | taking the head of the free list keeps every frame accounted for once |
| VmSpec.FreeAccounted | kalloc.c:60-77 | so does returning a frame nothing uses |
| VmSpec.NewTable | vm.c:36-55 | a fresh page table changes no mapping |
| VmSpec.SetEntry | vm.c:61-80 | writing one entry changes the mapping of one page |
| VmSpec.EntryWalks | mmu.h:111-129 | the frame of a page is what the upper ten bits of its address find in the directory and the next ten in the table |
| Vm.PagesBelow | mmu.h:131 | rounding up takes in exactly the pages that begin below the size |
| VmSpec.MapPage | vm.c:61-80 | mapping a loose frame keeps every frame in one use |
| VmSpec.UnmapPage | vm.c:266-277 | unmapping a page makes its frame loose and changes no other mapping |
| VmSpec.PagesDistinct | vm.c:222-248 | distinct user pages map to distinct frames |
| VmSpec.NeededStep | vm.c:233-246 | each page needs one frame, and another for a missing table |
| Vm.AddressSpace.constructor | vm.c:119-127 | a fresh directory maps nothing and accounts for every frame |
| Vm.AddressSpace.Kalloc | kalloc.c:83-95 | the first free frame, or none exactly when the list is empty |
| Vm.AddressSpace.Kfree | kalloc.c:60-77 | the frame is first on the free list again |
| Vm.AddressSpace.Walkpgdir | vm.c:36-55 | no mapping changes; it fails exactly when the table is missing and not, or cannot be, created |
| Vm.AddressSpace.Mappages | vm.c:61-80 | maps one user page, as every caller for user memory does, at the entry the hardware looks up; remap exactly when it was mapped; out of memory changes no mapping |
| Vm.AddressSpace.MapKernelPage | vm.c:61-80 | one kernel page; remap exactly when it was mapped; no other mapping and no accounting changes |
| Vm.AddressSpace.MapKernel | vm.c:61-80 | a range of kernel pages is mapped to consecutive frames unless a page is mapped already or frames run out, and nothing outside the range changes |
| Vm.AddressSpace.Deallocuvm | vm.c:256-279 | exactly the pages with newsz <= v * 4096 < oldsz are unmapped and freed; skipping an absent table skips no mapped page |
| Vm.AddressSpace.Allocuvm | vm.c:222-248 | succeeds exactly when below KERNBASE with frames for every page and missing table; then exactly the pages with oldsz <= v * 4096 < newsz become mapped, else every mapping is as before |
| Vm.AddressSpace.Growproc | proc.c:160-176 | user page v is mapped exactly if v * 4096 < size, distinct pages to distinct frames, unless the process shrinks to nothing, where the size stays stale; success exactly when frames suffice |
| Vm.AddressSpace.FreeTables | vm.c:291-296 | exactly the page tables' frames are freed, each once |
| Vm.AddressSpace.Freevm | vm.c:284-298 | every frame of the address space is on the free list exactly once |
| Pipe.Counters | pipe.c:85-106 | the wrapping counters tell empty from full in every state |
| Pipe.StoreOk | pipe.c:93 | storing a byte appends it to the queue, also across counter wrap |
| Pipe.FetchOk | pipe.c:116 | fetching yields the oldest byte, also across counter wrap |
| Pipe.Ring.constructor | pipe.c:33-36 | a new pipe is empty with both ends open |
| Pipe.Ring.Write | pipe.c:79-98 | returns n exactly if the rest fits into 512 bytes, which are then appended; else fills the pipe and fails or sleeps as the reader end and killed flag say, waking readers exactly when it should |
| Pipe.Ring.Read | pipe.c:101-121 | sleeps exactly on an empty pipe with a writer; else delivers the oldest min(n, available) bytes and wakes writers |
| Pipe.Ring.Close | pipe.c:60-75 | closes one end, wakes the other side, and frees the pipe exactly when both are closed |
| Pipe.FirstInFirstOut | pipe.c:79-121 | over every run, bytes delivered followed by bytes in the pipe are the bytes stored |
| Pipe.PrefixOfStored | pipe.c:79-121 | delivered bytes are a prefix of stored ones, at most PIPESIZE behind |
| Pipe.StepSleepers | pipe.c:60-121 | a step keeps every sleeper justified if and only if it is not a killed writer filling the pipe over sleeping readers |
| Pipe.RunSleepers | pipe.c:60-121 | a run, kills included, keeps every sleeper justified throughout if and only if no step of it strands readers |
| Pipe.KillFreeNeverStrands | pipe.c:60-121 | kill-free runs have no such step |
| Pipe.NoLostWakeup | pipe.c:60-121 | in every kill-free run a sleeping reader implies empty with a writer open, a sleeping writer implies full with a reader open, and never both |
| Pipe.KilledWriterStrandsReader | pipe.c:84-89 | a killed writer can leave a reader asleep on a full pipe |
| ShellSpec.ParseUndoesPrint | sh.c:327-446 | parsing the canonical text of any tree with at most nine words per command rebuilds the tree |
| ShellSpec.PrintUndoesParse | sh.c:327-446 | the canonical text of whatever a text parses to parses to the same tree |
| ShellSpec.PlainCommand | sh.c:431-442 | a simple command parses if and only if it has fewer than MAXARGS words |
| ShellSpec.LexRender | sh.c:265-308 | tokens separated by blanks lex back to themselves |
| ShellSpec.LineBack | sh.c:344-359 | lists and background commands parse back |
| ShellSpec.PipeBack | sh.c:361-372 | pipelines parse back |
| ShellSpec.ExecBack | sh.c:399-446 | simple commands, blocks and their redirections parse back |
| ShellSpec.SimpleBack | sh.c:415-446 | words and redirections of a simple command parse back in order |
| ShellSpec.RedirsBack | sh.c:374-397 | redirections parse back, the first innermost |
| ShellText.LexIff | sh.c:259-308 | a text lexes to exactly those tokens that it spells with blanks around them, for the five blank and seven symbol characters of the source |
| ShellText.WordsMean | sh.c:415-446 | a line of words is the command of these words if they are fewer than ten, else an error |
| ShellText.RedirLine | sh.c:374-397 | <, > and >> before and after words wrap the command, the first innermost, with descriptor 0 opened O_RDONLY or descriptor 1 opened O_WRONLY and O_CREATE |
| ShellText.RedirectionsMean | sh.c:383-394 | "words >> file" is "words > file"; "words < file" reads descriptor 0 |
| ShellText.OperatorsMean | sh.c:344-372 | what lines of two commands with a pipe or ; between them, a command with &, and one in parentheses stand for |
| ShellText.PrecedenceMeans | sh.c:344-372 | pipes and lists group to the right, pipes bind tighter than &, and & tighter than ; |
| ShellText.ErrorsMean | sh.c:331-413 | a redirection without a file, an open or a stray parenthesis, and a block after a word are errors |
| Shell.GetToken | sh.c:265-308 | returns the next token of the text with its exact span and leaves the cursor before the rest |
| Shell.Peek | sh.c:310-320 | tells whether the next token is one of the symbols, without consuming it |
| Shell.ParseRedirs | sh.c:374-397 | the loop does what the grammar says |
| Shell.ParseArgs | sh.c:429-444 | the loop does what the grammar says, up to nine words |
| Shell.ParseExec | sh.c:415-446 | agrees with the grammar, failure included |
| Shell.ParseBlock | sh.c:399-413 | agrees with the grammar, failure included |
| Shell.ParsePipe | sh.c:361-372 | agrees with the grammar, failure included |
| Shell.ParseAmps | sh.c:350-353 | one background wrapper per & |
| Shell.ParseLine | sh.c:344-359 | agrees with the grammar, failure included |
| Shell.NulTerminate | sh.c:449-493 | writes NUL at every word end and nowhere else |
| Shell.CommandReads | sh.c:449-493 | no terminator lands inside a word, so every C string of the command is exactly its scanned word |
| Shell.ParseCmd | sh.c:327-342 | fails exactly when the grammar does, leaving the buffer alone; else the command's C strings read back as the tree the grammar finds |
| Grep.Match | grep.c:72-82 | finds a match if and only if the pattern occurs somewhere in the text, at the start if it begins with ^ and at the end if it ends in $ |
| Grep.MatchHere | grep.c:85-96 | true if and only if the pattern matches at the start of the text |
| Grep.MatchStar | grep.c:99-106 | true if and only if some run of the starred character can be skipped before the rest matches |
| Grep.OneFirst | grep.c:93-94 | meaning of a pattern that starts with one character |
| Grep.StarFirst | grep.c:89-90 | meaning of a pattern that starts with a starred character |
| Grep.SimpleFound | grep.c:85-96 | a pattern of ordinary characters and dots is found exactly where the text agrees with it, a dot with any character |
| Grep.SubstringFound | grep.c:72-96 | without dots, exactly as a substring |
| Grep.DotFound | grep.c:93-94 | a dot in place of a character finds all that the character found; "." finds every text but the empty one |
| Grep.AnchorsFound | grep.c:72-92 | ^ ties the match to the start of the text and $ to its end |
| Grep.StarFound | grep.c:89-106 | ^x c* y$ is found exactly if the text is x, any number of c, and y, with a dot for any characters |
| Grep.AnythingFound | grep.c:99-106 | "^.*$" is found in every text |

## Left out

- Bio.BCache.CopyBlock: requires the buffers of both blocks to be unlocked, where the source sleeps; a round starts when it can go through.
- Bio.BCache.ReadPair: requires the same.
- Log.Log.WriteLogRound: requires the same of the slot and the cached block.
- Log.Log.InstallRound: requires the same of the slot and the home block.
- Log.Log.WriteHead: requires the same of the header block.
- Log.Log.CommitHead: requires the same of the header block.
- Log.Log.FinishCommit: requires the same of the header block.
- Log.Log.WriteLog: holds for a commit whose rounds are not interleaved with other cache calls.
- Log.Log.InstallTrans: holds for the same.
- Log.Log.Commit: holds for a commit whose rounds are not interleaved with other cache calls; interleaving is covered round by round by WriteLogRound, CommitHead, InstallRound and FinishCommit.
- Log.Log.Update: holds while nobody else holds a buffer; Read, LogWrite and Release cover the rest.
- Log.Log.UnpackHeader: requires a header count of at most LOGSIZE, which `read_head()` does not check.
- Log.Log.RecoverFromLog: requires an intact header, as commit() leaves it.
- Log.Log.ReadHead: requires a header whose count fits the log, as commit() leaves it; `read_head()` does not check a corrupted count.
- Fs.FileSystem.Readi: requires files without holes, which writei() and itrunc() keep; on a hole `readi()` would allocate outside a transaction.
- Fs.FileSystem.Writei: the device branch of `readi()`/`writei()` is not modelled.
- FsSpec.EmptyOwned: the root directory and files that `mkfs` builds are not modelled.
- FsCrash.FileWriteSurvivesCrash: each transaction holds one call; GroupedWriteSurvivesCrash is for group commit.
- Vm.AddressSpace.Mappages: maps one page; a range, as `setupkvm()` maps it, is MapKernel.
- FsLog.TruncFitsIff: requires at least three inodes and an inode block that is no bitmap block, as `mkfs.c` lays them out.
- Vm.AddressSpace.MapKernel: requires at least one page.
- Umalloc.Heap.Malloc: requires that a block fits or that `sbrk()` is asked for enough; its argument wraps or is negative between 0x7FFF_FFF1 and 0xFFFF_FFF8 bytes (RequestsThatFit).
- Umalloc.Heap.Free: requires a block that malloc() returned, as the C library does.
- Vm.AddressSpace.Deallocuvm: requires the old size to be at most KERNBASE.
- Vm.AddressSpace.Freevm: permission bits and the kernel's own frames behind kernel pages are not modelled.
- Byte layout of the bitmap and of inodes: both are typed data; which block holds which bit or inode is kept, the bytes are a parameter (`FsCrash.Codec`).
- `setupkvm()`, `copyuvm()`, `copyout()`, `loaduvm()`, range checks and junk fill of `kfree()`, `freerange()`.
- File table and inode cache reference counts, link counts, directories and path walking.
- `nextpid` and the scheduler's counters do not wrap in the model.
- Interrupt-driven disk I/O (`ide.c`): the synchronous disk of `memide.c` is modelled.
- `runcmd()`, the line loops of `sh.c` and `grep.c`, the console, system call plumbing, device and boot code: input, output and hardware.
- Kernel stacks, trap frames and context switches: a switch is a scheduler step.
