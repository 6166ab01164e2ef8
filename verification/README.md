# A verified model of the xv6 kernel's hard parts

This project models the parts of xv6 (the x86 teaching kernel, with its shell, `grep` and `mkfs`) that hold
state machines, shared data structures or recursion, and proves in Dafny what they promise. Nothing here runs
the kernel. `dafny verify dfyconfig.toml` checks the whole project.

The files follow the layers of the system:

| file | what it models |
|---|---|
| Blocks.dfy, FsFormat.dfy | disk blocks, little-endian words, bitmap bits, disk inodes (fs.h) |
| Params.dfy | the types and constants that several modules share (types.h, param.h, stat.h) |
| Bio.dfy | the block cache: a doubly linked list in order of use, busy/valid/dirty flags (bio.c, memide.c) |
| Ide.dfy | the disk driver's request queue, under the cache of Bio (ide.c) |
| Crash.dfy | what a power loss can leave on disk, for every prefix of the writes of a commit or a recovery (log.c) |
| Log.dfy | the log's code over the cache of Bio (log.c) |
| CommitRun.dfy | commit, buffer by buffer, among processes that read meanwhile (log.c, bio.c) |
| Reservation.dfy, Schedule.dfy, GroupCommit.dfy | begin_op, log_write and end_op of any number of concurrent calls, their commits, and power losses (log.c) |
| FsStore.dfy, Owner.dfy, Files.dfy | block allocator, inode table, block ownership, files as byte sequences (fs.c) |
| Footprint.dfy, FileWrite.dfy | which blocks a write logs, and filewrite's transactions (fs.c, file.c) |
| FileRuns.dfy | writes of many processes at once, through the log, with power losses (file.c, fs.c, log.c) |
| DirFiles.dfy | directories as the files they are stored in, and what the calls that change them log (fs.c, sysfile.c) |
| Links.dfy, Dirs.dfy | link counts and the directory tree (sysfile.c, fs.c) |
| Mkfs.dfy | the image builder, mounted by the model of fs.c (mkfs.c) |
| Heap.dfy, HeapRuns.dfy | the storage allocator of section 8.7 of The C Programming Language, 2nd edition (umalloc.c) |
| Kalloc.dfy, Vm.dfy, Frames.dfy, Uvm.dfy, Grow.dfy | frames and two-level page tables (kalloc.c, vm.c) |
| Proc.dfy, Sleep.dfy | the process table; sleep and wakeup (proc.c, sleep1.p) |
| Pipe.dfy | pipes (pipe.c) |
| Shell.dfy, ShellWords.dfy, ShellLines.dfy | the shell's parser, the words it leaves in the line, and the lines it reads (sh.c) |
| Regexp.dfy | grep's matcher (grep.c) |

## Main results

- **Crash atomicity** (`Crash.CrashAtomicity`). In every run of commits, power losses after any single block
  write, and recoveries that may themselves be cut off, the disk always recovers to the whole state before or
  the whole state after the last commit. `Log.Log.Commit` and `Log.Log.RecoverFromLog` prove that the code
  writes exactly those sequences of blocks through the cache.
- **Group commit** (`GroupCommit.Run`, `Schedule.PowerFails`). Any number of calls, each of at most MAXOPBLOCKS blocks,
  begin, update and end in any order. The disk receives a sequence of blocks such that, after any prefix of it and any
  number of recoveries cut off anywhere, the disk recovers to the updates made up to some moment at which no call was
  running, and no batch is lost whose commit had been written. With no readers it is known from the actions alone which
  is the first to sleep or to panic, and a panic writes nothing.
- **Files survive power losses** (`FileRuns.Run`, `FileRuns.Survives`, `FileRuns.Remounts`). Writes of any number of
  processes at once, each in a transaction within MAXOPBLOCKS: whenever the power fails, recovery leaves a sound file
  system (bitmap, inodes, one owner per block, full coverage) in which each file holds what the writes up to some call
  that left none running make of it, and every write committed by then is among them. Such a run goes on exactly up
  to the first begin_op whose reservation does not fit, or the first call that needs more blocks than are free, more
  room than the log has, or a buffer when all are pinned; a single call always goes through (`FileRuns.OneCall`).
- **Commit among readers** (`CommitRun.AtomicAmongReaders`, `CommitRun.GoesOn`, `CommitRun.OnlyThen`). commit as single
  steps of the cache, with other processes getting and releasing buffers of any block in between: it writes exactly its
  blocks in their order, and it can go on exactly unless the driver or a reader has its buffer, or bget has none.
- **Log reservation** (`Reservation.SafeIffLarger`, `SafeIff`, `RepeatsIff`, `FewerIsSafe`). A call that still may add
  a block never meets "too big a transaction" if and only if the log region is larger than LOGSIZE; mkfs makes it
  exactly LOGSIZE (`Mkfs.LogTooSmall`). That is not enough for the kernel not to panic. A full log pins every buffer,
  so the commit finds none (`GroupCommit.FullLog` is the run, `Reservation.NoSizeIsSafe` the theorem for every size),
  and log_write panics on a full log even for a block that is in it. In a region larger than LOGSIZE all three panics
  are out of reach while some running call has added fewer than MAXOPBLOCKS blocks.
- **filewrite and its transactions** (`FileWrite.WriteOp`, `FileWrite.Filewrite`, `FileWrite.LoggedWrite`). The blocks
  that a write logs are counted exactly, from the size, the offset and the length. A write that keeps to
  MAXOPBLOCKS, run through the log, is atomic under power loss. filewrite means to keep its chunks within a
  transaction but sizes them from LOGSIZE: a chunk may log 17 blocks, it keeps to MAXOPBLOCKS everywhere if and only
  if it has at most six blocks and a byte (`FileWrite.KeepsIff`), and two filewrites at once can panic the kernel
  (`FileWrite.TwoFilewrites`). create, link, mkdir and unlink do keep to it (`DirFiles`).
- **Transparent cache** (`Bio.CacheIsTransparent`, `Bio.WaitingIsUndisturbed`, `Bio.LoggedStaysPinned`). In every
  run, with holders waiting for the disk while others read, change, log and recycle buffers, a valid buffer holds
  the logical block, reads and writes are atomic, no two buffers hold one block, and a logged block stays in the
  cache and off its home until it is installed. `Ide.Disk.Ideintr` is the step that serves a waiting holder.
- **Files** (`Files.Files.Writei`, `Readi`, `Itrunc`). A file is its bytes: writing splices, reading slices,
  other files do not change, every block has one owner, the bitmap agrees, and balloc panics in a write if and only
  if the file gains more blocks than are free. (The panics of the log and of the cache are those under "Log
  reservation"; module Files is about what the calls compute.)
- **Directory tree** (`Links.ReachesRoot`, `Dirs.Tree`). Link counts, unique names and the tree survive create,
  link, unlink and iput in any interleaving if and only if what is entered into is still linked, which the code
  does not check (`Dirs.CreateNeedsLinked`, `LinkNeedsLinked`, `MkdirNeedsLinked`); `Dirs.RemovedDirectoryBreaks` is
  a run that breaks them. Module DirFiles runs the calls on the bytes of the disk: the inodes and entries read back
  afterwards are those that `Dirs.AfterCreateIff`, `AfterLinkIff` and `AfterUnlinkKeeps` are about, and it is known
  exactly when a directory cannot grow.
- **One disk format, two programs** (`Mkfs.Boot`, `Mkfs.Mount`). The kernel finds the log and the inodes where the
  superblock of mkfs's image says, with nothing to recover; its invariants hold, and each file reads as what was
  appended; `Mkfs.RootReads` gives the exact condition on the root directory and
  `Mkfs.FullRoot` an image that fails it.
- **Heap** (`Heap.Heap.Malloc`, `Heap.Heap.Free`, `HeapRuns.Run`). The free list stays one address-ordered, coalesced
  cycle of blocks disjoint from each other and from live blocks, units are conserved, and a block is reused before
  the heap grows. In every run of mallocs, frees and the program's own stores its blocks do not overlap and hold what it
  stored last.
- **Address spaces** (`Vm.Translates`, `Uvm.Freevm`, `Uvm.Copyuvm`, `Uvm.EmptiesIff`, `Grow.Allocuvm`). What the
  processor finds for each page, and with which rights, is what the address space says. Teardown returns each frame
  once; fork copies page by page into fresh frames; new pages are zero and the process may write them. In terms of the
  number of free frames: when setupkvm, copyuvm and allocuvm succeed, when they lose a frame, and when allocuvm reports
  success without the last page; and exactly when deallocuvm skips mapped pages. `Uvm.SteppedOver`, `Uvm.CopyLoses` and
  `Grow.PageMissing` are runs at failing inputs.
- **Processes** (`Proc.Ptable`, `Sleep.NoLostWakeup`). Parents of processes in use are alive, nobody waits beside a
  zombie child, a pid is reaped once; no wakeup is lost for any number of processes, and one is lost if sleep takes
  its locks in the other order.
- **Pipes** (`Pipe.Pipe.Piperead`, `Pipe.Pipe.Pipewrite`). Bytes come out in order across counter wraparound; the
  exact condition under which a reader sleeps on beside unread bytes, and a run that meets it
  (`Pipe.ReaderForgotten`).
- **Shell and grep** (`ShellWords.Parsecmd`, `ShellLines.Type`, `Regexp.Match`). Every word of a line is stored once
  and survives termination in place; every command tree with every choice of word texts is what parsecmd returns for
  some line; the matcher agrees with the meaning of the pattern, which can be read in one way only
  (`Regexp.ItemsIff`).

## How to read the models

Objects whose fields the source updates are classes; each method is proved against a specification function or
predicate over plain values, and the invariants are proved about those. A panic or a sleep is a result, not a
precondition. A method that stands for code run under a lock ends where the lock is released, so a concurrent run is
a sequence of such calls. bread and bwrite release their lock in between and are two steps each (`Bget` or `Mark`, then
`Sync`); the run theorems of Bio interleave those steps, while the methods of Log run them back to back. Some
invariants are written `forall k :: Unfolded(k)`: the quantifier only keeps their content out of proofs that do not
name `Unfolded`.

## Model

| member | source | states |
|---|---|---|
| Blocks.WordAfter | log.c:84-112 | storing one 32-bit word into a block changes that word and no other |
| Blocks.WordAfterPut | log.c:100-112 | storing a run of words changes exactly those words |
| FsFormat.BitAfter | fs.c:53-93 | setting or clearing a bitmap bit changes that block's bit and no other, across bitmap blocks |
| FsFormat.NodeRoundTrip | fs.h:28-35 | a disk inode written as 16 words reads back as itself |
| FsFormat.NodeAfter | fs.c:199-215 | storing inode i changes inode i and no other, across inode blocks |
| FsFormat.BitOutside | fs.h:44-47 | a change outside the bitmap blocks changes no bit |
| FsFormat.NodeOutside | fs.h:38-41 | a change outside the inode blocks changes no inode |
| Bio.StepKeeps | bio.c:62-142 | every stretch of code between two points where others can run (bget, a holder's change, log_write's pin, bwrite up to iderw, the end of iderw, brelse) keeps the invariant; only a holder's change alters the logical disk |
| Bio.BgetKeeps | bio.c:62-96 | bget, hit or miss, keeps the invariant and the logical disk; a valid buffer holds the logical block, another is left for its holder to fill |
| Bio.SyncKeeps | bio.c:104-118 | the end of iderw, for a read or a write, keeps the invariant and the logical disk, and the buffer comes back clean with the logical block |
| Bio.RunKeepsInv | bio.c:62-142 | over every run, with any number of holders waiting in iderw, no two buffers name one block, a dirty buffer is valid, and the use order is a permutation of the buffers |
| Bio.CacheIsTransparent | bio.c:99-109 | at every moment of every run each valid buffer holds the logical block, a buffer comes back from the disk with the logical block, and only a holder changes the logical disk |
| Bio.WaitingIsUndisturbed | bio.c:99-119 | while a holder waits in iderw, whatever others do, its buffer and the logical block it names stay as they were: a bread and a bwrite are atomic |
| Bio.LoggedStaysPinned | bio.c:83-94 | in every run a logged block is neither evicted nor written home until a bwrite names it |
| Bio.StepBooks | bio.c:62-142 | each step changes the sets of held buffers and pinned blocks exactly as its flag updates say |
| Bio.RoomyIff | bio.c:83-95 | bget finds a buffer to recycle if and only if pinned blocks and buffers held without a pin are together fewer than NBUF |
| Bio.UnpinnedIsOnDisk | bio.c:123-142 | a block that is not pinned and not being changed is the same in the cache and on disk |
| Bio.Unlink | bio.c:131-132 | taking a buffer out of the list leaves a doubly linked cycle over the others |
| Bio.LinkFront | bio.c:133-136 | putting a buffer behind the head leaves a doubly linked cycle with it first |
| Bio.Bcache.constructor | bio.c:39-57 | binit links all NBUF buffers into one cycle, last one first, and the logical disk is the disk |
| Bio.Bcache.FindNamed | bio.c:71-81 | the walk over next finds the buffer naming a block exactly if there is one |
| Bio.Bcache.FindClean | bio.c:86-94 | the walk over prev finds the least recently used clean buffer, if any buffer is clean |
| Bio.Bcache.Bget | bio.c:62-96 | is the step Bget; returns the cached or the least recently used clean buffer; sleeps exactly if the cached one is busy, panics exactly if there is no clean one |
| Bio.Bcache.Iderw | memide.c:37-59 | writes a dirty buffer or reads an invalid one; panics exactly on the four checked conditions |
| Bio.Bcache.Transfer | memide.c:37-59 | iderw for a holder that bget or bwrite left waiting is the step Sync and cannot panic |
| Bio.Bcache.Bread | bio.c:99-109 | bget and, if needed, iderw: returns a buffer holding the logical block, newly held; the exact conditions for sleeping and for each panic |
| Bio.Bcache.SetData | bio.c:9-13 | a holder's change of the data is a change of that one logical block |
| Bio.Bcache.Pin | log.c:224-229 | setting B_DIRTY pins the block and changes nothing else |
| Bio.Bcache.MarkDirty | bio.c:112-118 | bwrite up to its call of iderw is the step Mark; panics exactly if not busy |
| Bio.Bcache.Bwrite | bio.c:112-119 | panics exactly if not busy; else the block is on disk and no longer pinned |
| Bio.Bcache.Relink | bio.c:131-136 | the pointer updates move the buffer to the front of a list that stays one cycle over all buffers |
| Bio.Bcache.Brelse | bio.c:123-142 | panics exactly if not busy; else the buffer is free and most recently used, and the cache stays valid if and only if the holder's change is logged, written or none |
| Ide.Disk.constructor | ide.c:47-68 | the queue starts empty with the disk idle |
| Ide.Disk.Idestart | ide.c:70-96 | tells the disk to read, or to write the buffer's data; panics exactly on a block number out of range |
| Ide.Disk.Last | ide.c:148-151 | the walk along qnext ends at the last queued buffer |
| Ide.Disk.Iderw | ide.c:133-156 | appends the buffer to the linked queue and starts the disk exactly if it was idle; panics exactly if the buffer is not busy, there is nothing to do, its disk is absent, or it is started for a block out of range |
| Ide.Disk.Complete | ide.c:112-118 | what the disk did for the buffer: written, read, or after a reported error marked valid with its old data |
| Ide.Disk.Ideintr | ide.c:99-127 | finishes the oldest request and is Bio's step Sync for the cache those buffers belong to (unless a read failed), leaves all other buffers alone and starts the next; panics exactly if that is for a block out of range |
| Ide.OthersKeep | ide.c:99-161 | no other step of the cache touches the queue or a queued buffer, so cache and queue can interleave freely |
| Ide.RequestIsGood | ide.c:138-143 | what bget and bwrite hand to iderw passes all its tests |
| Crash.HeaderRoundTrip | log.c:84-112 | a header written by write_head reads back as the same block list |
| Crash.InstallIdempotent | log.c:67-81 | installing again after any part of an installation gives what installing once gives |
| Crash.RecoveryDone | log.c:114-121 | a completed recovery leaves every home block at its recovered value and an empty log |
| Crash.RecoveryCut | log.c:114-121 | a recovery cut off after any number of its writes still recovers to the same disk |
| Crash.CommitPoint | log.c:189-199 | once the header is written the disk recovers to the whole transaction |
| Crash.CommitCut | log.c:174-199 | a commit cut off after any number of its writes recovers to all of it or to none, by whether the header was written |
| Crash.EventKeeps | log.c:67-199 | each commit, power loss or recovery, wherever cut off, does to the recovered disk what it would do to a disk with atomic transactions |
| Crash.EveryCut | log.c:67-199 | a commit and a recovery can be cut off after any of their writes, and can get through |
| Crash.CrashAtomicity | log.c:67-199 | in every run of commits, crashes and cut-off recoveries the disk recovers to the state before or after the last commit, and a completed recovery leaves count 0 |
| Log.Log.constructor | log.c:52-65 | initlog: takes the log region from the superblock and recovers; the log is then ready and empty, and every home block has its recovered value |
| Log.Readsb | fs.c:28-36 | reads the log region that block 1 names and changes nothing |
| Log.Log.WriteHead | log.c:100-112 | one block write: the header block of the in-memory list |
| Log.Log.ReadHead | log.c:84-95 | reads exactly the list the header block on the logical disk stores |
| Log.Log.WriteLogBlock | log.c:179-186 | copies one logged block from the cache to its log block; fails exactly if bget has no buffer |
| Log.Log.InstallBlock | log.c:73-80 | copies one log block to its home and unpins it |
| Log.Log.WriteLog | log.c:174-187 | its writes are exactly those of the crash model's log phase; fails exactly if there is something to log and bget has no buffer |
| Log.Log.InstallTrans | log.c:67-81 | its writes are exactly the installation of the crash model, and it unpins what it installs |
| Log.Log.LogAndCommit | log.c:193-194 | up to the commit point the writes are exactly the commit prefix of the crash model |
| Log.Log.InstallAndClear | log.c:195-197 | installing and clearing the header write exactly the rest |
| Log.Log.Commit | log.c:189-199 | writes exactly the commit sequence of the crash model and leaves the disk equal to the logical disk outside the log; fails if and only if something is logged and logged blocks and readers together hold all NBUF buffers |
| Log.Log.RecoverFromLog | log.c:114-121 | writes exactly the recovery sequence of the crash model; every home block gets its recovered value |
| Log.Log.LogWrite | log.c:210-230 | is Reservation's Check followed by Append; absorbs repeated blocks, pins the block, keeps pinned blocks equal to logged ones; panics exactly when too big or outside a call |
| Log.Log.Change | log.c:205-209 | change, log_write and brelse of a buffer just read: the log is ready for a commit again |
| Log.Log.Fetch | log.c:201-209 | the bread of an update: sleeps exactly if a reader holds the block, panics exactly if bget has no buffer |
| Log.Log.Update | log.c:201-230 | bread, change, log_write, brelse: the logical block changes, the disk does not, and the log stays ready for a commit; waits exactly if a reader holds the block; the exact conditions for each panic |
| Log.Log.BeginOp | log.c:124-140 | is Reservation's step Begin, and sleeps exactly if that step is not possible |
| Log.Log.EndOp | log.c:144-171 | is Reservation's step End, and leaves the cache as it is while others run; for the last call End then Committed: the whole batch is on disk; the exact panic conditions |
| Log.Log.LastOut | log.c:157-170 | the commit of the last call: the disk becomes what the crash model's commit makes of it |
| Log.Log.Enter | log.c:124-140 | begin_op keeps a batch in progress: updates in the logical disk, none on the disk |
| Log.Log.Put | log.c:201-230 | an update by any of the running calls extends the batch; waits or panics exactly when log_write or bget does |
| Log.Log.Leave | log.c:144-171 | end_op: while others run nothing happens; the last call commits the updates of all, and cut off anywhere the disk recovers to all of them or none |
| Log.Log.PutAll | log.c:201-230 | the updates of a call, one after the other, extend the batch; repeated blocks are free; stops exactly at the first that must wait or panic |
| Log.Log.Transaction | log.c:123-199 | begin_op, any updates of up to MAXOPBLOCKS blocks and end_op: the updates are on the disk, and after any prefix of the writes the disk recovers to all of them or none; waits or panics exactly as the first update that does not go through, or the commit, says |
| Log.Log.BatchIsPending | log.c:174-199 | a batch in progress is a commit the crash model knows: cut off anywhere it is all there or not at all |
| Log.AnyCut | log.c:174-199 | every prefix of the writes of a commit leaves a disk that recovers to the old or to the new contents |
| Reservation.StepKeeps | log.c:124-230 | each step of each call keeps: logged blocks plus unused allowances at most LOGSIZE, distinct, no commit while a call is outstanding |
| Reservation.Reserved | log.c:124-230 | that holds in every state reached by any interleaving |
| Reservation.RoomToAppend | log.c:219-227 | whenever a call appends there is room, although the test was made without the lock |
| Reservation.LoggedIs | log.c:210-230 | a whole log_write is a Check and an Append |
| Reservation.EndedIs | log.c:144-171 | the last end_op is an End and a Committed |
| Reservation.NoPanic | log.c:215-218 | with a log region larger than LOGSIZE a call with an allowance left does not meet "too big a transaction" |
| Reservation.SafeIffLarger | log.c:215-216 | no call with an allowance left ever meets "too big a transaction" if and only if the log region is larger than LOGSIZE; a run for every smaller size |
| Reservation.FullIsReached | log.c:144-171 | three calls of MAXOPBLOCKS blocks, two of which have left: LOGSIZE blocks are logged when the last one ends |
| Reservation.SafeIff | bio.c:83-95 | calls within their allowance meet neither that panic nor a commit without a buffer if and only if the log region and the number of buffers are both larger than LOGSIZE |
| Reservation.NoSizeIsSafe | param.h:10-12 | the kernel has LOGSIZE buffers, so for every size of the log region some run reaches one of the two panics |
| Reservation.RepeatsIff | log.c:215-222 | logging again a block that is logged already panics if and only if the log is full, and then every allowance is used up |
| Reservation.RepeatIsReached | log.c:215-222 | which happens in some run, whatever the size of the region |
| Reservation.FewerIsSafe | log.c:124-230 | none of the panics is near while some running call has logged fewer than MAXOPBLOCKS blocks |
| GroupCommit.JoinIn | log.c:124-140 | begin_op in a run: sleeps exactly if the reservations do not fit |
| GroupCommit.StoreOne | log.c:201-230 | an update in a run: waits exactly for a reader of the block; with no readers panics exactly if the log has no room |
| GroupCommit.QuitOne | log.c:144-171 | end_op in a run: with no readers panics exactly if it is the last and every buffer is pinned |
| GroupCommit.Act | log.c:124-230 | any action, with the state it leads to |
| GroupCommit.Turn | log.c:124-230 | one more action: the blocks written are those of the history, which stays durable, also where the action panics |
| GroupCommit.Step | log.c:124-230 | the same for a run in progress; with no readers it sleeps, and panics, exactly if the actions so far say so |
| GroupCommit.Run | log.c:124-230 | any schedule of any number of calls: the blocks written to the disk are a durable history of its batches, its steps a run of Reservation, its updates all in the logical disk; with no readers it goes on exactly up to the first action that sleeps or panics by rule |
| GroupCommit.AllOnDisk | log.c:144-171 | once no call is left running, every update made is on the disk |
| GroupCommit.AllDone | log.c:144-171 | and the log is empty and ready, with no reservation left |
| Schedule.RestNext | log.c:157-164 | whole batches end exactly where the last of the running calls leaves |
| Schedule.DurableWait | log.c:124-160 | any other action writes nothing and leaves the history durable |
| Schedule.DurableCommit | log.c:174-199 | the last end_op extends the history by its commit: after any prefix of it the disk recovers to the batches before, or to those and this one |
| Schedule.PowerFails | log.c:67-199 | after any number of the blocks of a run and any number of recoveries cut off anywhere, the disk recovers to the updates up to a moment at which no call was running, and no committed batch is lost |
| CommitRun.Computed | log.c:174-199 | each block that the crash model has commit write is what the code computes from the logical disk at that point |
| CommitRun.MoveKeeps | log.c:67-199 | every step of commit, of a reader or of the driver keeps: the blocks written are a prefix of the commit, and the logical disk and the buffers in hand are as far |
| CommitRun.AtomicAmongReaders | log.c:174-199 | in every run of commit among readers of any blocks the blocks written are a prefix of the commit, so the disk recovers to the old or the new contents; at the end all are written |
| CommitRun.GoesOn | bio.c:62-96 | commit can take a step unless a buffer of its is with the driver, the next block is in a buffer that a reader holds, or bget has none |
| CommitRun.OnlyThen | bio.c:62-96 | and only then |
| CommitRun.NotItself | bio.c:71-81 | a reader it waits for is another process |
| CommitRun.PanicsIff | bio.c:83-95 | bget panics on commit exactly if the block is not cached and pinned blocks and readers fill the cache |
| CommitRun.LogBegins | log.c:189-199 | a log that is ready begins such a commit |
| GroupCommit.FullLog | bio.c:95 | three calls of ten updates each, in a region large enough for them: all thirty are logged and none is on the disk when the last end_op panics in bget |
| FsStore.SaysAfterBit | fs.c:53-93 | a bitmap update changes the set of used blocks by one block and no inode or data block |
| FsStore.SaysAfterNode | fs.c:199-215 | an inode update changes one inode and no bitmap bit or data block |
| FsFormat.Readsb | fs.c:28-36 | reads the superblock of block 1 |
| FsStore.Store.constructor | fs.c:28-36 | takes the regions from the superblock; the used set and the inodes are what the disk says |
| FsStore.Store.Update | log.c:201-230 | every change of a block is logged: the disk is what the updates since begin_op make of the disk then |
| FsStore.Store.FindFree | fs.c:60-72 | the scan over bitmap blocks finds the lowest free block exactly if there is one |
| FsStore.Store.Balloc | fs.c:53-75 | marks and zeroes the lowest free block, never a metadata or used block, and logs it and its bitmap block; panics exactly if as many blocks are used as there are |
| FsStore.Store.Bfree | fs.c:78-93 | frees exactly that block; panics exactly if it was free |
| FsStore.Store.Iupdate | fs.c:199-215 | the disk inode becomes the given one and no data block changes |
| FsStore.Store.Iread | fs.c:281-290 | reads the disk inode |
| Owner.AllocKeeps | fs.c:53-75 | a newly allocated block has no owner and the books stay balanced |
| Owner.DirectKeeps | fs.c:362-366 | giving a block to a direct slot keeps one owner per block and the bitmap exact |
| Owner.IndirectKeeps | fs.c:369-372 | the same for the indirect block |
| Owner.EntryKeeps | fs.c:373-379 | the same for an entry of the indirect block |
| Owner.ClearDirectKeeps | fs.c:398-403 | clearing a direct slot makes its block ownerless and no other |
| Owner.ClearIndirectKeeps | fs.c:405-415 | dropping the indirect block makes exactly it and its entries ownerless |
| Owner.FreeKeeps | fs.c:78-93 | freeing an ownerless block is never freeing a free block, and keeps the books |
| Files.ChunkWritten | fs.c:479-485 | a partial block write splices those bytes into the file's byte sequence |
| Files.ChunkBlocks | fs.c:479-485 | where a chunk lies and how many blocks the file then needs |
| Files.Files.constructor | fs.c:162-169 | a mounted disk whose layout is owned is valid |
| Files.Files.Bmap | fs.c:356-384 | returns the block of that index, allocating it and the indirect block only if absent; nothing else changes owner; panics if and only if the index is past MAXFILE or fewer blocks are free than it lacks |
| Files.Files.BmapEntry | fs.c:373-379 | the indirect case, with its exact failure condition |
| Files.LackingIs | fs.c:356-384 | for a covered file the blocks bmap must allocate at an index follow from the file size alone |
| Files.Files.WriteBlock | fs.c:479-485 | one turn of writei's loop splices its chunk, logs exactly the blocks that takes, and fails exactly if the blocks it lacks are not free |
| Files.Files.WriteLoop | fs.c:479-485 | the loop splices the whole source across direct, indirect and partial blocks and leaves other inodes' blocks alone; fails exactly if the blocks the file gains are not free |
| Files.Files.WriteTurns | fs.c:479-485 | what every turn of the loop keeps, with the blocks gained so far counted |
| Files.Files.Grow | fs.c:487-490 | the size is recorded only on growth, and then on disk as in memory |
| Files.Files.Writei | fs.c:462-492 | turns the file into old[..off] + src + rest, every other file unchanged, disk inode equal to the cached one, coverage kept; logs exactly the blocks written, filled and the inode; errors exactly for an offset past the end or too large a file, and then changes nothing; balloc panics if and only if the file gains more blocks than are free |
| Files.Files.Settle | fs.c:462-492 | after a write every file is covered and every other file's bytes are unchanged |
| Files.Files.Readi | fs.c:434-458 | returns exactly the slice clipped to the size, allocates nothing, logs nothing, changes nothing; the exact error conditions |
| Files.Files.ReadChunk | fs.c:449-456 | one turn of the loop returns the bytes of its block |
| Files.Files.FreeDirect | fs.c:398-403 | frees one direct block once |
| Files.Files.FreeIndirect | fs.c:405-415 | frees the indirect block and its entries once each |
| Files.Files.Itrunc | fs.c:391-419 | frees exactly the inode's blocks, each once, never a free one, and logs only bitmap blocks and the inode; the file is empty and other files are unchanged |
| Footprint.FilledAddr | fs.c:362-372 | filling an address of the inode logs the new block and its bitmap block |
| Footprint.FilledEntry | fs.c:373-379 | filling an entry of the indirect block logs that block, too |
| Footprint.WroteTwice | fs.c:479-485 | what two stretches of a write log is what the whole logs |
| FileWrite.LoggedCount | fs.c:462-492 | data blocks, bitmap blocks, indirect block and inode are different blocks, so a write logs exactly the sum of their numbers |
| FileWrite.CountIs | fs.c:462-492 | with one bitmap block that number follows from the size, the offset and the length |
| FileWrite.WriteOp | file.c:139-144 | begin_op and writei: what is logged makes the new disk of the old one and is exactly that many blocks; no other file changes; an error logs nothing |
| FileWrite.TruncOp | fs.c:391-419 | itrunc in a transaction empties the file, frees exactly its blocks, and logs at most the inode and the bitmap blocks in use |
| FileWrite.WriteChunk | file.c:134-151 | one turn of the loop |
| FileWrite.Filewrite | file.c:117-155 | writes all bytes, or the whole chunks that fit the largest file, at the offset, and moves it by what it wrote; the result, the exact condition for a panic in balloc, and what each transaction logs |
| FileWrite.KeepsIff | file.c:126-132 | a write of n bytes keeps to MAXOPBLOCKS wherever it goes if and only if n is at most six blocks and a byte |
| FileWrite.ChunkOverruns | file.c:132 | a chunk logs up to 17 blocks, and 11 where it overwrites 11 blocks in place |
| FileWrite.Boot | log.c:52-65 | booted from an image of mkfs, log and file system agree as LoggedWrite needs |
| FileWrite.Through | log.c:123-199 | what a call has logged within MAXOPBLOCKS goes through the log: the new file system is on the disk, and wherever the machine stops it recovers to the old or the new one |
| FileWrite.LoggedWrite | file.c:139-144 | a write that keeps to MAXOPBLOCKS, through the log: the new file system is on the disk, and wherever the machine stops it recovers to the old or the new one |
| FileWrite.TwoWrites | fs.c:462-492 | writes to two files have at most two blocks in common |
| FileWrite.Overrun | log.c:215-216 | updates of more than LOGSIZE blocks before a commit fill the log and panic the kernel, whatever the log region |
| FileWrite.TwoFilewrites | file.c:132-144 | two filewrites of a chunk each pass begin_op together and panic the kernel on a full log, before either has left |
| FileRuns.SameSystem | fs.h:9-21 | the log region is no part of the file system: its books and bytes are the same whatever is there |
| FileRuns.StoreAll | log.c:201-230 | the updates of a write by one of the running calls, each within its allowance; panics exactly if log_write refuses one of them or bget has no buffer for it |
| FileRuns.WriteFiles | fs.c:462-492 | writei on the file system: the file comes to hold what the call means and the others stay; the exact condition for a panic in balloc |
| FileRuns.WriteOne | file.c:139-144 | a write by one of several running calls: on the file system, then through the log; panics exactly if blocks, log or buffers do not suffice |
| FileRuns.PassOne | file.c:139-144 | begin_op or end_op of a call, with the file system as it was; sleeps, and panics, exactly as the calls so far say |
| FileRuns.Run | file.c:117-155 | any schedule of such calls: after each the file system is sound and holds what the calls mean, and the blocks written are a durable history; it stops exactly at the first call that must sleep or panic, and once no call runs log and file system are as after a mount |
| FileRuns.OneCall | file.c:139-144 | one call alone, within its reservation, in a region larger than that: it goes through, and the file system on the disk holds what it means |
| FileRuns.Survives | log.c:67-199 | the power fails anywhere in it, and again in recoveries: the disk recovers to a sound file system with the files as after some call that left none running, no committed call being lost |
| FileRuns.Remounts | log.c:114-121 | once a recovery gets through, the disk is that file system |
| DirFiles.EntryRoundTrip | fs.h:50-55 | a directory entry stored as 16 bytes reads back as itself |
| DirFiles.Decodes | fs.h:50-55 | any sixteen bytes are an entry that can be stored, and storing it gives back its number and name |
| DirFiles.EntrySpliced | fs.c:553-556 | storing an entry changes that slot of the directory or adds one at the end |
| DirFiles.Dirlookup | fs.c:505-529 | reads the entries from the file and finds the first used one of that name, exactly if there is one |
| DirFiles.FindFree | fs.c:545-550 | finds the first unused slot, or the end |
| DirFiles.WriteEntry | fs.c:553-556 | writes one entry; logs at most four blocks; panics exactly if it is at the end and the largest file or the free blocks do not allow it |
| DirFiles.Dirlink | fs.c:532-559 | does to the bytes what Dirs.Tree.Dirlink does to the entries; the exact conditions for refusing and for the panic |
| DirFiles.Touch | fs.c:199-215 | iupdate of an inode changes that inode and the bytes of no file |
| DirFiles.CreateOp | sysfile.c:245-276 | an existing name changes nothing; else a new file, its inode and its entry, and the tree read back is the old one with both; the exact panic condition; at most 5 blocks logged |
| DirFiles.LinkOp | sysfile.c:137-161 | link: the count and the entry, or the count taken back, and the tree read back says so; the exact results; at most 5 blocks logged |
| DirFiles.MkdirOp | sysfile.c:257-276 | a new directory with its dots, its name and its parent's count, as the tree read back shows; succeeds if and only if there is a block for the dots and then room for the entry; at most 9 blocks logged |
| DirFiles.UnlinkOp | sysfile.c:215-230 | the entry cleared, the counts of the inode and, for a directory, of its parent lowered, the inode freed by its last reference, and nothing else, as the tree read back shows; at most 5 blocks logged |
| DirFiles.LoggedMkdir | sysfile.c:257-276 | run through the log it is atomic under power loss |
| DirFiles.OneTree | fs.h:28-55 | the inodes and directory entries of a disk are one tree of Links |
| DirFiles.CreatedTree | sysfile.c:257-276 | two changed inodes, read back, are the step of create |
| DirFiles.LinkedTree | sysfile.c:137-148 | the same for link |
| DirFiles.MadeTree | sysfile.c:257-276 | the same for mkdir |
| DirFiles.UnlinkedTree | sysfile.c:215-226 | the same for unlink, with the link counts as 16-bit numbers |
| Links.NlinkFits | fs.h:28-35 | a link count never reaches the limits of its 16 bits, because the disk has too few entries |
| Links.BeginKeeps | sysfile.c:137-139 | link's first half keeps the invariant with one more pending link |
| Links.AbortKeeps | sysfile.c:155-161 | undoing it keeps the invariant |
| Links.EnterKeeps | sysfile.c:143-148 | writing the entry turns a pending link into a counted one and keeps names unique |
| Links.AllocKeeps | sysfile.c:258-265 | a new file counts one link that is not yet entered |
| Links.MkdirKeeps | sysfile.c:267-276 | a new directory with its dots, its name and the parent's extra link keeps counts, tree and names |
| Links.NamedIsLinked | sysfile.c:208-209 | what an entry of a linked directory names has nlink at least 1: the panic is unreachable |
| Links.WithoutKeeps | sysfile.c:215-217 | clearing a file's entry keeps the invariant with its count still to go down |
| Links.OneLink | sysfile.c:210-225 | an empty directory has exactly one link, its name |
| Links.ParentStays | sysfile.c:218-221 | the parent of an empty directory keeps at least one link when that directory goes |
| Links.RmdirKeeps | sysfile.c:215-226 | removing an empty directory keeps counts, tree and names |
| Links.FreeKeeps | fs.c:317-336 | freeing an inode without links leaves no name for it |
| Links.ReachesRoot | sysfile.c:267-273 | following ".." from any linked directory leads to the root, each step back to the one directory that names it |
| Dirs.Tree.constructor | mkfs.c:117-156 | the root directory and the files mkfs makes for its arguments; the invariant holds if and only if the stored names differ from each other and from the dots |
| Dirs.BootIff | mkfs.c:130-156 | mkfs does not compare names: its tree satisfies the invariant if and only if the names, cut to 14 characters, differ |
| Dirs.StoredNameIs | mkfs.c:141-149 | mkfs stores a name without its leading underscore and cut to 14 characters |
| Dirs.LongNamesClash | mkfs.c:145-149 | two arguments that differ only past 14 characters: the tree mkfs makes of them breaks the invariant, on a disk of any size |
| Dirs.Tree.Dirlookup | fs.c:505-529 | finds the first used entry of that name, exactly if there is one |
| Dirs.Tree.Dirlink | fs.c:532-559 | refuses an existing name; else enters it in the first free slot or at the end; the exact panic condition |
| Dirs.Tree.Isdirempty | sysfile.c:165-178 | true exactly if no slot past the dots is used |
| Dirs.Tree.Ialloc | fs.c:176-196 | returns the first free inode, or none exactly if all are in use |
| Dirs.Tree.LinkStart | sysfile.c:130-139 | refuses directories; else counts a link and keeps the invariant |
| Dirs.Tree.LinkFinish | sysfile.c:141-161 | enters the name, takes the count back exactly if the name exists, panics exactly if the directory must grow and cannot; when entered, the invariant holds if and only if the directory is still linked |
| Dirs.Tree.UndoLink | sysfile.c:224-226 | lowers the count of a link that has no entry and keeps the invariant |
| Dirs.Tree.Unlink | sysfile.c:181-236 | refuses the dots, missing names and directories in use; else removes exactly that entry; never panics; keeps the invariant |
| Dirs.Tree.RemoveDir | sysfile.c:215-226 | the stores of a directory removal are the transition RmdirKeeps is about |
| Dirs.Tree.Create | sysfile.c:238-281 | returns an existing file exactly if a file is asked for and the name is that of one, refuses other existing names, else makes a file or directory with exactly the right links; panics if and only if no inode is free or a directory that must grow cannot; what is made leaves the invariant if and only if the directory is still linked |
| Dirs.OneName | fs.c:505-529 | a name is in a directory once, also in one that has been removed |
| Dirs.Tree.MakeFile | sysfile.c:258-276 | the stores for a file; fails exactly if the directory must grow and cannot; the same condition for the invariant |
| Dirs.Tree.MakeDir | sysfile.c:258-276 | the stores for a directory, the dots through dirlink; fails exactly if directories cannot grow; the same condition for the invariant |
| Dirs.Tree.Iput | fs.c:317-336 | the last reference to an inode without links frees it, and only then; keeps the invariant |
| Dirs.CreateNeedsLinked | sysfile.c:245-276 | creating a file keeps the invariant if and only if the directory is still linked, which the code does not check |
| Dirs.LinkNeedsLinked | sysfile.c:141-148 | the same for link |
| Dirs.MkdirNeedsLinked | sysfile.c:267-276 | the same for mkdir, for any assignment of depths: a removed directory would come back as one that nothing names |
| Dirs.AfterCreateIff | sysfile.c:238-276 | a whole create, for a file or a directory, keeps counts and tree if and only if the directory is still linked |
| Dirs.AfterLinkIff | sysfile.c:137-161 | the same for a whole link |
| Dirs.AfterUnlinkKeeps | sysfile.c:181-230 | a whole unlink with its iput keeps them, for a file and for an empty directory |
| Dirs.RemovedDirectory | sysfile.c:181-236 | mkdir and unlink lead to a valid state with a removed directory |
| Dirs.RemovedDirectoryBreaks | sysfile.c:238-281 | in that state creating a file and making a directory each break the invariant |
| Mkfs.SuperFits | mkfs.c:94-103 | the regions of the layout do not overlap and fit the image |
| Mkfs.SuperBlockSays | mkfs.c:94-103 | the superblock reads back, for the file system and for the log |
| Mkfs.Zeroed | mkfs.c:109-115 | zeroes, with the superblock in block 1 and an empty log |
| Mkfs.Image.constructor | mkfs.c:94-115 | an image of zeroes and the superblock: nothing owned, every file empty |
| Mkfs.Image.Ialloc | mkfs.c:223-235 | inodes are handed out in order, each with one link and otherwise zero |
| Mkfs.Image.Rinode | mkfs.c:197-208 | reads the inode as written |
| Mkfs.Image.Winode | mkfs.c:183-195 | writes one inode and no data block |
| Mkfs.Image.BlockFor | mkfs.c:271-286 | the block for an index, handing out new blocks in order only where none is set; fails if and only if the blocks it lacks would pass the end of the image |
| Mkfs.Image.FillAddr | mkfs.c:272-279 | the next block goes into an address of the inode and is still zero |
| Mkfs.Image.FillEntry | mkfs.c:280-284 | the next block goes into the indirect block |
| Mkfs.Appended | mkfs.c:287-292 | one chunk makes the file its old bytes followed by the chunk, zero up to the end of the block |
| Mkfs.Image.AppendChunk | mkfs.c:269-293 | one turn of the loop appends its chunk and leaves all other files alone; fails exactly if the image is full |
| Mkfs.Image.Iappend | mkfs.c:255-297 | appends all of the buffer and uses exactly the blocks that takes; stops if and only if the file would pass MAXFILE or the blocks the end of the image |
| Mkfs.Bitmap | mkfs.c:237-251 | bits below the count are set and the others are not |
| Mkfs.Image.Finish | mkfs.c:158-165 | bitmap, ownership, inode table, superblock and log header of the finished image are as the kernel requires |
| Mkfs.Image.WriteBitmap | mkfs.c:237-251 | the bitmap written last says exactly which blocks were handed out |
| Mkfs.FileReads | mkfs.c:255-297 | a file is covered and its contents are what was appended |
| Mkfs.RootReads | mkfs.c:158-163 | the rounded root directory is covered if and only if its entries did not already fill a block; then it reads as its entries and zeroes |
| Mkfs.FullRoot | mkfs.c:158-163 | entries that fill a block exactly: the root is then not covered |
| Mkfs.NothingToRecover | mkfs.c:94-115 | the log that the superblock names is well-formed and its count is 0 |
| Mkfs.Boot | log.c:52-65 | initlog on the finished image: the log is ready and no block outside it has changed |
| Mkfs.LogTooSmall | mkfs.c:25 | the log region mkfs makes is too small for the reservation: some run panics |
| Mkfs.Mount | mkfs.c:94-165 | the kernel's invariants hold on the finished image, and readi's contents are the appended bytes |
| Heap.InsertKeeps | umalloc.c:33-42 | linking a block into the list keeps it one address-ordered cycle of disjoint blocks |
| Heap.MergeKeeps | umalloc.c:33-41 | joining two neighbours keeps it so |
| Heap.FreeKeeps | umalloc.c:24-44 | free with both joins keeps order, disjointness, conservation and that no two free blocks touch |
| Heap.WholeKeeps | umalloc.c:76-77 | handing out a whole block keeps the heap's invariant |
| Heap.TailKeeps | umalloc.c:78-82 | handing out the tail of a block keeps it |
| Heap.ExtendKeeps | umalloc.c:56-59 | new memory from sbrk enters as a live block and keeps it |
| Heap.SearchStep | umalloc.c:30-32 | the loop's test stops exactly at the one place where the block belongs |
| Heap.Heap.constructor | umalloc.c:21-22 | an empty heap |
| Heap.Heap.FindPlace | umalloc.c:30-32 | the search ends, at the free block before the one to insert |
| Heap.Heap.Free | umalloc.c:24-44 | the block stops being live, lies inside a free block, and no live block or its header changes; the next search begins after the last free block below it |
| Heap.Heap.Morecore | umalloc.c:46-61 | asks sbrk for at least 4096 units; they become free and the list has a large enough block |
| Heap.Heap.Search | umalloc.c:74-89 | one round of the list finds a large enough block exactly if there is one: the first after freep, with its predecessor |
| Heap.Heap.TakeWhole | umalloc.c:76-84 | unlinks an exact fit and makes it live |
| Heap.Heap.TakeTail | umalloc.c:78-84 | cuts exactly the last units off and makes them live |
| Heap.Heap.Init | umalloc.c:70-73 | the first call makes a list of one empty block |
| Heap.Heap.Malloc | umalloc.c:63-90 | returns a block disjoint from all live ones with room for nbytes and no unit more than needed, cut from the end of the first free block that fits; grows the heap if and only if none fits and then once; fails if and only if sbrk does then |
| Heap.StoreKeeps | umalloc.c:63-90 | a store inside a live block, past its header, keeps the invariant |
| Heap.PayloadIs | umalloc.c:63-90 | every unit of a live block past its header is one the program may store to |
| Heap.Heap.Store | umalloc.c:63-90 | so the program may store into its blocks between calls |
| HeapRuns.Run | umalloc.c:24-90 | any run of mallocs, frees of blocks got, and stores into them: the blocks do not overlap and every unit holds what was stored last |
| Kalloc.Kmem.constructor | kalloc.c:20-36 | no frame is free |
| Kalloc.Kmem.Kfree | kalloc.c:54-77 | the frame is filled with ones past its link and joins the linked list once, and no other frame changes; panics exactly out of range |
| Kalloc.Kmem.Kalloc | kalloc.c:79-95 | takes the first frame of the list; none exactly if none is free |
| Kalloc.Kmem.Freerange | kalloc.c:45-52 | frees the whole frames between the two addresses, up to the first that is no frame; panics if and only if there is one |
| Vm.SetKeeps | vm.c:81-83 | storing a present entry adds one mapping and keeps every frame at one use |
| Vm.ClearKeeps | vm.c:263-270 | clearing an entry removes one mapping |
| Vm.TabKeeps | vm.c:55-62 | hanging a zeroed table into the directory, with all rights, maps nothing new |
| Vm.EntryParts | mmu.h:143-145 | a stored entry is present and gives back its frame and flags |
| Vm.Translates | mmu.h:101-145 | the processor, walking directory and table, finds exactly the entries of the address space with the rights they give, and faults elsewhere |
| Vm.Walkpgdir | vm.c:45-65 | finds the table of a page, making it only if asked and memory allows, with a directory entry that gives all rights, and changes no mapping |
| Vm.MapOne | vm.c:79-83 | maps one page; panics exactly if mapped, fails only without memory for a table |
| Vm.Mappages | vm.c:70-90 | maps every page of the range, also one ending at 2^32, to consecutive frames; where it stops otherwise and what it has mapped by then |
| Vm.LineIs | vm.c:115-125 | the pages and frames of each kmap line, the last computed with wraparound |
| Vm.LineMaps | vm.c:138-141 | one line more of kmap is in place |
| Uvm.Setupkvm | vm.c:128-144 | succeeds if and only if 65 frames are free, and takes 65: the directory and the page tables of kmap, with exactly its mappings, none of them for users and the text read-only as the processor sees it; otherwise every free frame is lost |
| Uvm.SetupLines | vm.c:138-141 | the four lines of kmap, by the page tables they need |
| Uvm.KernelIsSeen | vm.c:105-125 | what the processor sees of the kernel part of an address space |
| Frames.KernelTabsCard | vm.c:115-125 | the lines of kmap lie in 64 page tables |
| Uvm.NextPhase | vm.c:259-270 | the scan goes on without missing a page of a table it is in |
| Uvm.SkipPhase | vm.c:261-262 | the step over an absent table passes only pages that are unmapped or missed |
| Uvm.FreePage | vm.c:263-270 | frees one user frame and clears its entry; never panics |
| Uvm.Scan | vm.c:258-271 | the loop frees every mapped page of the range but the missed ones |
| Uvm.Deallocuvm | vm.c:249-273 | the result, and for every page whether it is still mapped; each frame freed once, none lost |
| Uvm.EmptiesIff | vm.c:258-271 | the range is emptied if and only if no mapped page of it is one the scan steps over |
| Uvm.HighPage | vm.c:70-90 | an address space built by the allocator and mappages with page 1024 mapped and no table for page 1 |
| Uvm.SteppedOver | vm.c:261-262 | deallocuvm down to one page leaves page 1024 of that space mapped |
| Uvm.ContiguousShrinks | vm.c:249-273 | for memory contiguous from 0 exactly the pages below the new size stay |
| Uvm.FreeTable | vm.c:284-289 | frees the table under one directory entry |
| Uvm.Freevm | vm.c:275-292 | every user frame, page table and the directory becomes free, each once, and no other frame changes |
| Uvm.CopyPage | vm.c:319-331 | one page is copied to a fresh frame with equal flags, or the exact failure |
| Uvm.Copyuvm | vm.c:309-337 | every page below sz is copied, kernel mappings are kmap's, parent and other memory unchanged, no frame lost; fails for memory if and only if fewer frames are free than setup and the pages need, panics exactly at an absent page; exactly when a frame is lost and when all are |
| Uvm.CopyLoop | vm.c:319-331 | what the loop copies, by the number of free frames, and what it loses |
| Uvm.CopyIsFresh | vm.c:309-337 | each page of the child is in a frame that was free and is not the parent's, with equal contents and flags |
| Uvm.CopyIsSeen | vm.c:309-337 | the child sees each page of the parent with the same rights and contents, in another frame |
| Uvm.CopyIsApart | vm.c:309-337 | the child's frames are different from each other |
| Uvm.CopyLoses | vm.c:325-331 | a one-page process copied with one frame too few for its page table: the copied page is lost |
| Grow.GrowOne | vm.c:233-240 | one turn of the loop: the page is mapped zeroed, or there is no page, or no table and the frame is lost |
| Frames.NeedSnoc | vm.c:231-241 | a page needs a frame, and one more if it is the first of a page table that is absent |
| Frames.NeedFromZero | vm.c:231-241 | from an empty space, p pages need p frames and one for each 1024 begun |
| Frames.LosesFromZero | vm.c:234-238 | from an empty space, a frame is lost if and only if the frames run out and their number is 1 modulo 1025 |
| Grow.GrowLoop | vm.c:231-241 | what the loop has mapped and lost, by the number of free frames |
| Grow.TakenBack | vm.c:234-238 | on failure deallocuvm takes back exactly the added pages |
| Grow.ZerosAreSeen | vm.c:233-240 | a new page is zero, and the process may read and write it |
| Grow.Allocuvm | vm.c:220-243 | succeeds with all pages if there are enough frames, succeeds without the last page exactly if one frame is lacking for that page's table, else fails with the old pages; a frame is lost if and only if some page within reach has just one frame left and no page table |
| Grow.PageMissing | vm.c:234-240 | one free frame and no page table: allocuvm reports a page that is not mapped, and the frame is lost |
| Proc.ExitKeeps | proc.c:201-217 | exit's wakeups and reparenting keep: parents alive, no one waiting beside a zombie child |
| Proc.NobodyForgotten | proc.c:223-262 | the parent of a zombie is alive and does not sleep in wait |
| Proc.ReapKeeps | proc.c:237-249 | reaping keeps it |
| Proc.ForkEnds | proc.c:146-172 | the end of a fork, either way, keeps it |
| Proc.Ptable.constructor | proc.c:10-13 | an empty table |
| Proc.Ptable.Allocproc | proc.c:37-53 | takes the lowest free slot with a fresh pid; none exactly if all are used |
| Proc.Ptable.Userinit | proc.c:85-110 | makes the first process |
| Proc.Ptable.ForkStart | proc.c:135-142 | the lowest free slot becomes an embryo with a fresh pid; fails exactly if there is none |
| Proc.Ptable.ForkFail | proc.c:146-151 | a failed fork frees the slot |
| Proc.Ptable.ForkAdopt | proc.c:152-153 | the child gets its parent outside the lock, and the invariant still holds |
| Proc.Ptable.ForkFinish | proc.c:166-173 | the child becomes runnable |
| Proc.Ptable.Wakeup1 | proc.c:405-416 | wakes exactly the sleepers on the channel |
| Proc.WakeMeans | proc.c:405-416 | who slept on the channel is runnable, nobody sleeps on it any more, and nothing else changes |
| Proc.Ptable.Wakeup | proc.c:418-425 | the same under the lock, keeping the invariant |
| Proc.Ptable.Reparent | proc.c:207-213 | children go to init, which is woken exactly if one is a zombie |
| Proc.Ptable.Exit | proc.c:179-219 | the process is a zombie, its parent awake, its children init's; keeps the invariant; panics exactly for init |
| Proc.ExitMeans | proc.c:179-219 | process by process: who becomes runnable, who gets a new parent, and that nothing else changes |
| Proc.Ptable.Wait | proc.c:223-262 | reaps a zombie child of the caller, or sleeps or fails, exactly as children exist; no pid is returned twice |
| Proc.Ptable.Kill | proc.c:430-448 | marks and wakes the process of that pid, exactly if it exists |
| Proc.Ptable.Dispatch | proc.c:285-303 | a runnable process runs |
| Proc.Ptable.GiveUp | proc.c:333-403 | a running process yields or sleeps; keeps the invariant |
| Sleep.StepKeeps | proc.c:370-425 | every step of every process keeps: a sleeper whose condition holds has a waker on its way, and who owes a wakeup does not sleep first |
| Sleep.RunKeeps | proc.c:370-425 | so does every run of any number of processes |
| Sleep.NoLostWakeup | sleep1.p:57-133 | in every reachable state a process sleeps beside a true condition only while another process, itself awake, has yet to run wakeup1 |
| Sleep.SwappedLosesWakeup | proc.c:384-391 | with the locks taken in the other order a run loses a wakeup |
| Pipe.WrapIndex | pipe.c:94-115 | a wrapped 32-bit counter indexes the ring correctly, because 512 divides 2^32 |
| Pipe.WrapCompare | pipe.c:84-106 | the tests for full and empty are right on wrapped counters |
| Pipe.Pipe.constructor | pipe.c:33-37 | an open, empty pipe that nobody sleeps on |
| Pipe.Pipe.Full | pipe.c:84 | true exactly if 512 bytes are pending |
| Pipe.Pipe.Empty | pipe.c:105 | true exactly if no byte is pending |
| Pipe.Pipe.Put | pipe.c:92 | stores one byte without overwriting a pending one |
| Pipe.Pipe.Take | pipe.c:115 | takes the oldest pending byte |
| Pipe.Pipe.Pipewrite | pipe.c:77-97 | stores a prefix of the data, all of it unless full; who is woken, sleeps or gives up; a reader is left asleep beside bytes exactly if a writer gives up after filling the ring |
| Pipe.Pipe.Piperead | pipe.c:99-120 | returns exactly the oldest pending bytes, as many as asked for or there are; sleeps or fails exactly if empty and open; wakes the writers |
| Pipe.Pipe.Pipeclose | pipe.c:58-74 | closes one end, wakes the other side, frees exactly when both are closed |
| Pipe.ReaderForgotten | pipe.c:82-87 | a sleeping reader, then a killed writer of 513 bytes: the reader sleeps on beside 512 unread bytes |
| Shell.Gettoken | sh.c:266-309 | returns the first token of the rest of the line with its bounds, and leaves the cursor before the next |
| Shell.Peek | sh.c:311-321 | says whether the next token begins with one of the characters, without consuming it |
| Shell.Parseline | sh.c:345-360 | ends, and gives the tree and the rest that the grammar gives for the tokens, or panics exactly where the grammar does |
| Shell.Parsepipe | sh.c:362-373 | the same for a pipeline |
| Shell.Parseredirs | sh.c:375-398 | collects exactly the redirections that follow; panics exactly if a file is missing |
| Shell.RedirMeans | sh.c:386-394 | < opens the file for reading as descriptor 0; > and >> for writing, to be created, as descriptor 1 |
| Shell.Parseblock | sh.c:400-414 | the same for a parenthesised line |
| Shell.Parseexec | sh.c:416-447 | the same for a command with its arguments and redirections, at most MAXARGS - 1 arguments |
| Shell.ReadLine | sh.c:345-360 | a tree written as tokens, followed by anything that ends a line, reads back as that tree |
| Shell.RoundTrip | sh.c:328-447 | the tokens of every command tree parse to that tree with nothing left |
| ShellWords.LexFindsRuns | sh.c:266-309 | the lexer finds every longest run of word characters once and no other word |
| ShellLines.CharacterMeans | sh.c:263-309 | the five blanks end a word, the seven symbols also are tokens, and every other character belongs to a word |
| ShellLines.DoubleSign | sh.c:289-295 | >> is one token |
| ShellWords.LineKeeps | sh.c:345-447 | parsing neither loses nor doubles a word |
| ShellWords.EveryWordOnce | sh.c:328-343 | a parsed line's tree holds each word of the line exactly once |
| ShellWords.Writable | sh.c:345-447 | the trees the grammar gives for some token list are exactly those with few enough arguments and the two kinds of redirection |
| ShellWords.Nulterminate | sh.c:449-494 | writes NUL past the end of each word of the tree and nowhere else |
| ShellWords.WordReads | sh.c:449-494 | a word of the line reads as itself in the terminated buffer, even where words touch operators |
| ShellWords.Parsecmd | sh.c:328-343 | panics exactly if the tokens are not one line; else the tree is the grammar's, holds each word once, each word reads as it did, and no other character changes |
| ShellLines.LexLine | sh.c:266-309 | tokens typed with a blank after each are read as the same tokens, each word at its place |
| ShellLines.Retell | sh.c:345-447 | a token list that differs from that of a tree only in where its words lie is that of the same tree |
| ShellLines.CanBeTyped | sh.c:328-343 | for every tree and every choice of non-empty texts of word characters some line parses to that tree with those texts |
| ShellLines.Type | sh.c:328-343 | parsecmd run on that line returns the tree, and its words in the buffer are, as C strings, those texts |
| Regexp.MeetsOne | grep.c:93-94 | a literal or dot takes one character |
| Regexp.MeetsStar | grep.c:98-106 | a starred item takes none, or one and again |
| Regexp.ItemsIff | grep.c:84-106 | the items of a pattern are the one list that is written so, with no literal dot, a $ special exactly at the end, and * bound to the character before it |
| Regexp.Matchhere | grep.c:84-96 | true exactly if a prefix of the text decomposes according to the pattern's items; ends |
| Regexp.Matchstar | grep.c:98-106 | the same for a starred character followed by a pattern |
| Regexp.Match | grep.c:72-82 | true exactly if some suffix of the text, or the whole text after ^, meets the pattern |

## Left out

- Hardware and boot code, traps, the console, timers and multiprocessor start-up: register accesses.
- Spinlocks and context switches: a stretch of code under a lock is one step, a switch is a change of the running process.
- Path names (namex, skipelem) and system-call arguments: calls get the inode and last name that the lookup found.
- The in-memory inode table (iget, idup, ilock).
- Device inodes in readi and writei: indirect calls through devsw.
- file.c: reference counts of open files, fileread, and filewrite to a pipe or to a file not open for writing.
- exec, loaduvm, inituvm, copyout and clearpteu: glue over the page-table operations that are modelled.
- runcmd, the other user programs, printf and grep's line buffering.
- Log.Readsb: only the two fields that initlog uses; FsFormat.Readsb reads the others.
- FileWrite.WriteOp: the bitmap is one block, as on every disk of up to 4096 blocks; FileWrite.LoggedCount is the count for any disk.
- FileWrite.Filewrite: each chunk is written whole before the next begins; its transactions among those of others are in FileRuns.Run.
- DirFiles.CreateOp: the free inode it gets is empty, as iput leaves every free inode; the search for one is Dirs.Tree.Ialloc.
- DirFiles.UnlinkOp: the bitmap is one block, as in all of DirFiles; with more, the truncation may log each.
- FileRuns.Run: a writei is one step between those of other files; what is interleaved are the calls and, in GroupCommit.Run, their updates. The calls are writes, not those that change directories.
- FsStore.Store.Bfree: the block is not a metadata block; the source, which trusts its caller, would free one.
- Bio.Bcache.SetData: any change by a holder is one whole-block change; the source writes bytes through a pointer.
- Log.Log.Commit: other processes hold the buffers `readers` throughout a commit, none of a logged block or of the log region. Readers that come and go meanwhile, also of such blocks, are in module CommitRun.
- Log.Log.WriteLogBlock: readers as for Log.Log.Commit.
- Log.Log.WriteLog: readers as for Log.Log.Commit.
- Log.Log.LogAndCommit: readers as for Log.Log.Commit.
- Log.Log.InstallBlock: readers as for Log.Log.Commit.
- Log.Log.InstallTrans: readers as for Log.Log.Commit.
- Log.Log.InstallAndClear: readers as for Log.Log.Commit.
- Log.Log.WriteHead: bget has a buffer to recycle; where it has none, Log.Log.WriteLog has failed before.
- GroupCommit.Run: the rule for when an action sleeps or panics is for runs without readers; with readers the run is as safe, but may sleep for a block or panic for want of a buffer earlier.
- Heap.Heap.Malloc: a request is at most 0x7FFF_FFE0 bytes, because beyond that the source's 32-bit size computation overflows; new memory lies above all earlier memory, as sbrk provides.
- Heap.Heap.Free: only live blocks are freed; the source trusts its caller.
- Uvm.Deallocuvm: the old size is at most KERNBASE, as every caller passes; above it lie kernel mappings, whose frames kfree refuses.
- Uvm.Copyuvm: the size is at most KERNBASE, as every process's is.
- Grow.Allocuvm: the new pages are not mapped yet, as a process's pages beyond its size are not; mappages would panic.
- Vm.Mappages: physical addresses are frame numbers, as every caller passes page-aligned ones; the size is not 0, for which the source's last page would lie before its first.
- Kalloc.Kmem.Kfree: takes a frame number, so the test for a page-aligned address is not modelled; a frame is not free already, which the source does not detect.
- Kalloc.Kmem.Freerange: none of the frames is free already, as for Kalloc.Kmem.Kfree.
- Dirs.Tree.Unlink: the removal of a directory is one step; in the source the parent is unlocked before the directory's own count goes down, while that directory stays locked.
- Dirs.Tree.Dirlink: whether writei can grow the directory is a parameter; DirFiles.Dirlink says exactly when it can.
- Dirs.Tree.RemoveDir: one step, as said of Dirs.Tree.Unlink.
- Dirs.Tree.Create: whether directories can grow is a parameter, as for Dirs.Tree.Dirlink.
- Dirs.Tree.Iput: that this is the last reference to a valid inode is a parameter.
- Mkfs.Image.Ialloc: at most NINODES inodes; the source does not check and would write past the inode blocks.
- Proc.Ptable.Allocproc: process ids are unbounded; the source's int would wrap after 2^31 forks.
- Shell.Parseexec: the tree is built as a value, where the source fills argv of a node that redirections already wrap.
- Ide.Disk.Iderw: the buffer is not queued already, because its holder would be waiting; the wait for the interrupt is left to the caller, who finds the buffer finished after Ide.Disk.Ideintr.
- Liveness: that a sleeping process is eventually scheduled depends on the scheduler and is not stated.
