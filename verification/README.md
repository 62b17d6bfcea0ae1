# xv6, modelled and proved

This project models the parts of xv6 (the x86 teaching kernel and its user programs) where a
mistake is hardest to see, and proves what they promise.

- **Redo log** (`log.c` over single-block disk writes). `LogSpec` gives a disk a meaning through
  its log header, and proves that commit is atomic whatever write a crash interrupts and however
  often recovery is interrupted too. `LogProtocol` is group commit as a state machine with any number
  of operations and a crash possible at any step. `LogCode.Log` is the C code as a class: its `trace`
  is every disk it passes through, and its operations are runs of the protocol. `LogSpace` proves
  what the space reservation guarantees and that a log with enough room is crash safe; `LogOverrun`
  has the runs that go wrong in a smaller one, and so the exact log sizes that are crash safe.
- **Buffer cache** (`bio.c`). `BioSpec` relinks a circular doubly linked ring; `Bio.Bcache` keeps
  the ring in the order of release and one copy of each block, so a read gets the latest contents.
- **File system** (`fs.c`, `mkfs.c`). `FsSpec` assigns each used block the one pointer slot that
  names it; `FsFile` reads a file as a flat byte array; `FsAlloc` says what adding and taking away
  blocks does; `FsCost` counts the blocks a range of a file needs; `FsCode.Fs` is `balloc` up to
  `writei` as a class; `Mkfs.Builder` builds the first image; `FsHole` is an image with a hole.
- **Names** (`fs.c`, `sysfile.c`). `DirSpec` and `DirCode` treat a directory as a finite map and a
  path as its elements; `LinkSpec`, `LinkOps` and `LinkSteps` relate link counts to directory
  entries; `LinkCode.FileTree` is `namex`, `link`, `unlink` and `create`.
- **User allocator** (`umalloc.c`). `UMallocSpec` and `UMalloc.Allocator` are the circular,
  address-ordered, coalescing free list.
- **Processes** (`proc.c`). `ProcSpec`, `ProcMachine` and `ProcInv` are fork, exit, wait, sleep,
  wakeup, kill and the scheduler as steps of one machine; `ProcSchedule` bounds how often a runnable
  process is passed over and how soon a CPU reaches it; `ProcCalls` says what a process can do next
  and what the steps of one call add up to; `ProcTable.PTable` runs the table scans in place.
- **Pipes** (`pipe.c`). `PipeSpec` is the ring with wrapping 32-bit counters, `PipeCode.Pipe` the
  loops, `PipeProtocol` any number of readers and writers.
- **Page tables** (`vm.c`, `kalloc.c`). `VmSpec`, `VmRange` and `VmCode.Vm` are two-level tables,
  the frames they own and the free list.
- **Shell parser** (`sh.c`). `ShellSpec` is a grammar as syntax trees and a parser proved to accept
  exactly it; `ShellText` relates text, tokens and commands; `ShellMeaning` tells what a command says
  from the tokens alone and has a text for every command; `ShellCode.Parser` is the C parser that moves
  along the buffer and then writes NULs into it.
- **Pattern matcher** (`grep.c`). `Grep` states what a pattern means and proves the matcher decides it.

Operations the C code performs in place are methods of classes (arrays where the C has fixed
buffers); each is tied to a function or predicate on values, and the lemmas are about those.
A panic is a `None`, `Error` or `false` result. What the code does while it holds one lock is one
step; a test that it makes before it takes the lock, as in `log_write`, is a step of its own.

Where a promise fails, the code is kept, the exact condition is proved and an input or a run shows the
failure:

- With operations that each log at most MAXOPBLOCKS blocks, the log is crash safe exactly if it has room
  for LOGSIZE data blocks beside its header, or for none (`LogOverrun.CrashSafeIff`). In the log that
  mkfs lays out, which has LOGSIZE blocks including the header, two operations can pass the test in
  `log_write` before either has logged its block; the commit then writes past the log area, and a crash
  leaves a block of the file system that no committed operation wrote (`LogOverrun.SmallLogLosesBlock`).
- The test in `log_write` panics exactly if the table is full at that moment (`LogSpace.PanicsIffFull`). In
  the log that mkfs lays out, that can meet a new block (`LogOverrun.SmallLogPanics`). In a larger log only
  a block that the same operation has logged before (`LogSpace.LargeLogPanicsOnlyOnRewrite`,
  `LogOverrun.LargeLogPanicsOnRewrite`), because the code tests for room before it looks for the block.
- A pipe write strands sleeping readers exactly if it does not fit and gives up
  (`PipeProtocol.WriteWakesReadersIff`, `PipeProtocol.ReaderCanBeStranded`).
- The block malloc returns is usable exactly for requests of up to 0x7FFFFFF0 bytes: beyond, sbrk gets
  a 32-bit argument that is zero or negative, or the rounding wraps (`UMalloc.Allocator.Malloc`,
  `UMalloc.UnbackedRequests`). Of those, `malloc` does not survive the ones after which the page of the
  old end of the process is not there (`UMalloc.TrapsIff`, `UMalloc.TrappedRequests`).
- The pointer of a block that fills a hole is lost exactly if it belongs in the inode and the file does
  not grow (`FsCode.Fs.Readi`, `FsCode.Fs.Writei`, `FsHole.ReadInHole`, `FsHole.WriteInHole`), and mkfs
  makes the root directory with a hole exactly if its entries fill whole blocks
  (`Mkfs.Builder.Finish`, `FsHole.RootWithHole`). Outside an operation, as `fileread` calls `readi`,
  reading a hole panics (`FsHole.ReadHoleOutside`).
- A failed `copyuvm` loses a frame exactly if the free frames run out at a page table
  (`VmCode.Vm.Copyuvm`, `VmCode.CopyCanLoseFrame`).

Check everything with `dafny verify dfyconfig.toml`.

## Model

| member | source | states |
|---|---|---|
| LogSpec.CommitStep | log.c:175-200 | each single-block write of commit leaves the meaning of the disk alone, except the header write, which replaces all logged blocks at once |
| LogSpec.RecoverStep | log.c:70-122 | every write of recovery leaves the meaning of the disk alone |
| LogSpec.RecoverPrefix | log.c:115-122 | recovery stopped after any number of writes means the same as the disk it started from, and can start again |
| LogSpec.Recovered | log.c:115-122 | after any number of interrupted recoveries and one completed one, the header is empty and each home block is what the disk meant before |
| LogSpec.CommitIsAtomic | log.c:70-122 | commit cut off after k writes, then any crashes during recovery: all home blocks old if the header was not written, all logged blocks new otherwise |
| LogSpec.CommitIsComplete | log.c:190-200 | a finished commit leaves the transaction in the home blocks and an empty header, so the next commit can start |
| LogSpec.EveryCrashIsAtomic | log.c:175-200 | the same for every disk the code of commit passes through: never a mixture of old and new |
| LogCode.Log.ReadHead | log.c:85-96 | the in-memory table becomes the list in the header block: its count and the words after it |
| LogCode.Log.WriteHead | log.c:101-113 | one write, which stores count and table in the header and leaves its other words |
| LogCode.Log.InstallTrans | log.c:69-82 | the logged copies reach their home blocks, one write each, and the buffers are unpinned |
| LogCode.Log.WriteLog | log.c:175-188 | the pinned buffers reach the log area, one write each |
| LogCode.Log.Commit | log.c:190-200 | passes through exactly the disks for which crash safety is proved and ends with an empty log |
| LogCode.Log.RecoverFromLog | log.c:115-122 | passes through exactly the disks of recovery and ends with an empty log |
| LogCode.Log.BeginOp | log.c:125-141 | admits an operation exactly if no commit runs and the table with 10 blocks for each operation in progress and for this one stays within 30; is then the step of the protocol |
| LogCode.Log.LogCheck | log.c:216-219 | the test before the lock passes exactly where the protocol lets the operation go on, and panics otherwise |
| LogCode.Log.LogRecord | log.c:221-230 | the locked part is the protocol step that records and pins the block, absorbing a block already logged; it leaves the array exactly if that is full and the block is new, and leaves a table that fits the log area exactly if that has fewer than size entries |
| LogCode.Log.LogWrite | log.c:211-231 | both parts without interference: the block is recorded and pinned and the table still fits, or the call panics exactly where the test fails |
| LogCode.Log.EndOp | log.c:145-172 | in a state that satisfies the protocol invariant it does not panic: an earlier operation only leaves, and for the last one the call is a run of the protocol from its leaving through every block write to the closed group |
| LogProtocol.BootInv | log.c:49-66 | a disk with an empty log satisfies the protocol invariant |
| LogProtocol.ActiveMeansRunning | log.c:145-172 | while an operation is in progress no commit runs, so outstanding is 0 whenever committing and end_op does not panic |
| LogProtocol.BeginsIff | log.c:130-139 | in every state of the invariant that is running, an operation can begin exactly if the logged blocks and MAXOPBLOCKS for each operation in progress and one more are within LOGSIZE |
| LogProtocol.NeverStuck | log.c:125-231 | a crash can happen in every state of the invariant; a commit and a recovery always have a next step; an operation past the test can record, and any other can end |
| LogProtocol.EndOpRun | log.c:145-200 | leaving, writing out and closing the group is a run of the protocol that ends on the last disk of commit with the group recorded |
| LogProtocol.StepKeepsInv | log.c:125-231 | every step of any process, the two parts of log_write apart, of commit, of recovery, and a crash, keeps the invariant tying disk, table, cache and groups, unless the step overflows the table |
| LogProtocol.StepKeepsDurable | log.c:190-200 | what has become durable stays so, as a prefix |
| LogProtocol.RunKeepsInv | log.c:125-231 | the invariant over whole runs in which the table does not overflow |
| LogProtocol.FittingRunRecovers | log.c:125-231 | every such run, stopped anywhere, recovers to the committed groups, for every log size and without limits on operations |
| LogProtocol.ReadsSeeAllWrites | log.c:211-231 | cache or else disk shows every earlier write of every operation, also in the middle of a commit |
| LogProtocol.ClosedGroupStays | log.c:145-172 | a group that a finished commit has closed stays durable in every later run in which the table does not overflow |
| LogSpace.StepKeepsSpace | log.c:129-160 | logged blocks plus unused reservations never exceed LOGSIZE, if each operation logs at most MAXOPBLOCKS distinct blocks, whatever happens between the two parts of log_write |
| LogSpace.RunKeepsSpace | log.c:125-231 | that bound, and pairwise distinct table entries, in every state a run within the limits reaches, for every log size |
| LogSpace.ReservationCovers | log.c:216-230 | with room for LOGSIZE data blocks, the late append fits however many operations have passed the test |
| LogSpace.RecoveredDiskIsReplay | log.c:125-231 | in such a log, with operations within their limits: stop any interleaving anywhere, crash any number of times, recover; the home blocks are the initial disk with the committed groups applied in order, and no operation has writes in two groups |
| LogSpace.GroupDurableWhenEndOpReturns | log.c:145-172 | in such a log, when the committing end_op returns the group is durable and remains so in every later run within the limits, crashes included |
| LogSpace.PanicsIffFull | log.c:216-219 | in every state a run within the limits reaches, the test in log_write, for a new or a logged block, panics exactly if the table at that moment holds LOGSIZE blocks or fills the log area |
| LogSpace.LargeLogPanicsOnlyOnRewrite | log.c:216-230 | with a log area larger than LOGSIZE, a write within its limit panics only for a block the same operation has logged, when every operation has used up its share |
| LogOverrun.LargeLogPanicsOnRewrite | log.c:216-230 | and for every such log some run within the limits reaches that panic |
| LogOverrun.SmallLogPanics | mkfs.c:25-25 | with a log area of LOGSIZE or fewer blocks, as mkfs makes it, some run within the limits panics on a block new to the table |
| LogOverrun.Overflow | log.c:216-230 | for every log that can log at all, a run that ends with one entry more in the table than there is room for; within the limits if the log has LOGSIZE or fewer blocks |
| LogOverrun.SmallLogLosesBlock | log.c:176-188 | in a log of 2 to LOGSIZE blocks, some run within the limits ends with a disk that recovers to something else than the committed groups |
| LogOverrun.NoLimitOverflows | log.c:222-228 | without the limits on operations the table outgrows its array, however large the log |
| LogOverrun.CrashSafeIff | log.c:125-231 | every run within the limits, stopped anywhere, recovers to the committed groups, if and only if the log has more than LOGSIZE blocks or fewer than 2 |
| BioSpec.UnlinkOk | bio.c:132-133 | the two pointer writes that unlink a buffer leave a well-formed ring without it |
| BioSpec.InsertOk | bio.c:134-137 | the four pointer writes that insert a buffer leave a well-formed ring with it first |
| Bio.RecycleKeeps | bio.c:79-90 | recycling a buffer that is neither referenced nor dirty loses no latest contents and keeps one buffer per block |
| Bio.WriteKeeps | bio.c:109-116 | writing a buffer out keeps the cache consistent with the disk |
| Bio.Bcache.Lookup | bio.c:68-76 | finds a buffer of that block if and only if there is one |
| Bio.Bcache.FindVictim | bio.c:79-90 | of the buffers neither referenced nor dirty, the one released longest ago; none only if there is none |
| Bio.Bcache.Bget | bio.c:61-93 | a cached block keeps its buffer and contents; otherwise the least recently released eligible buffer is taken and no other buffer changes; panics exactly if the block is not cached and no buffer is eligible |
| Bio.Bcache.Iderw | memide.c:38-60 | a dirty buffer goes to the disk, another is filled from it |
| Bio.Bcache.FinishRead | bio.c:96-106 | with the lock in hand: the buffer holds the latest contents of its block; the disk, the ring and every other buffer are as before |
| Bio.Bcache.Bread | bio.c:96-106 | the caller gets the buffer locked and holding the latest contents of the block, or waits with a reference exactly if another process has it locked, or panics exactly if no buffer can be recycled; the disk, the ring and every other buffer are as before; a cached buffer gains one reference and keeps everything else, a recycled one starts with one |
| Bio.Bcache.Bwrite | bio.c:109-116 | the latest contents of the block are on disk |
| Bio.Bcache.Brelse | bio.c:120-141 | ring order stays the order of release; the last release makes the buffer the most recently used |
| Bio.Bcache.constructor | bio.c:38-56 | binit links all buffers into one ring |
| FsSpec.SetUsedAt | fs.c:66-68 | the or with a mask in a byte of the map marks that block and no other |
| FsSpec.SetFreeAt | fs.c:90-93 | the and with the inverted mask frees that block and no other |
| FsSpec.PointAddr | fs.c:359-370 | a pointer in an inode to a block nobody points at keeps every block owned by at most one slot |
| FsSpec.PointEntry | fs.c:371-376 | the same for an entry of an indirect block |
| FsFile.PutPieceBytes | fs.c:484-489 | overwriting part of one block changes exactly those bytes of that file and no byte of another |
| FsFile.PatchedIsWritten | fs.c:466-497 | bytes patched block by block make up the flat array with the source written at the offset |
| FsAlloc.AllocAddr | fs.c:354-382 | allocating into an address keeps pointers and bit map in agreement and changes no byte of any file |
| FsAlloc.AllocEntry | fs.c:371-376 | allocating into an indirect entry likewise |
| FsAlloc.DropDirect | fs.c:396-401 | freeing a direct block and clearing its pointer keeps pointers and bit map in agreement |
| FsAlloc.DropTable | fs.c:403-413 | freeing the entries and then the indirect block leaves exactly the blocks of other files |
| FsAlloc.WriteIsDone | fs.c:466-497 | a write that only added blocks gives the written byte array, makes no hole, and leaves every other file untouched |
| FsAlloc.SameAddrsIff | fs.c:354-382 | once all blocks of a range are there, the inode is unchanged exactly if it lacked no pointer for the range |
| FsCost.NextCost | fs.c:354-382 | block by block, bmap takes one block for each that is missing and one for the table the first time it is needed |
| FsCost.RangeIsFree | fs.c:354-382 | a range whose blocks are all there needs none |
| FsCode.Fs.Balloc | fs.c:55-78 | the lowest free block, marked and cleared; none only if every bit is set or no operation is in progress |
| FsCode.Fs.Bfree | fs.c:80-96 | clears exactly the bit of that block; fails exactly if it was clear |
| FsCode.Fs.Bmap | fs.c:354-382 | returns the block of the file, setting only the pointers on the way to it that were missing, and changes no byte of any file; fails exactly past the end of the map, or if the missing blocks are more than the free ones, or if any is missing and no operation is in progress; direct block bn is in address bn, the others in entry bn - 12 of the table in address 12 |
| FsCode.Fs.Itrunc | fs.c:388-417 | frees exactly the blocks of that inode, clears its pointers and size, on disk too, and keeps the map exact |
| FsCode.Fs.Readi | fs.c:431-463 | for all 32-bit offsets and counts: exactly the bytes asked for that lie below the size, holes reading as zeroes, or -1 exactly when the offset is past the end or the sum wraps, or a panic exactly when free blocks are fewer than the range lacks, or the range lacks one and no operation is in progress; the image changes exactly if a block in the range was missing, and the inode then differs from the disk exactly if it lacked a pointer; a short read has just the bytes up to the size |
| FsCode.Fs.Writei | fs.c:466-497 | for all 32-bit offsets and lengths: -1 exactly past the end, on wrap or past the largest file; a panic exactly when free blocks are fewer than the range lacks, or there is something to write and no operation is in progress; otherwise the flat array with the source written at the offset, size the maximum, other files untouched, and the inode on disk exactly if the file grew or lacked no pointer, hence always if it had no holes; type, link count and every pointer that was there stay |
| Mkfs.Bitmap0 | mkfs.c:237-251 | the loop over bits marks exactly the first blocks |
| Mkfs.Builder.constructor | mkfs.c:94-115 | the empty image is a sound file system with only metadata in use |
| Mkfs.Builder.Ialloc | mkfs.c:223-235 | the next inode, with one link and no contents |
| Mkfs.Builder.BlockFor | mkfs.c:271-287 | hands out blocks in order, keeps each owned by one slot, takes exactly the missing ones, and fails exactly if the image has fewer left |
| Mkfs.Builder.Iappend | mkfs.c:254-297 | succeeds exactly if the image has the missing blocks left; then the file is its old contents followed by the data, with blocks for exactly its size, and no other file is touched; type, link count and every pointer that was there stay |
| Mkfs.Builder.Finish | mkfs.c:158-166 | with the bit map written, the image satisfies the invariant fs.c keeps; the rounded-up root directory has no hole exactly if its size was not a multiple of the block size; nothing else in the inodes changes |
| FsHole.RootWithHole | mkfs.c:118-166 | mkfs with 30 files, whose entries and the two dots fill one block, makes a sound image with a hole in the root directory |
| FsHole.ReadInHole | fs.c:431-463 | reading in that hole inside an operation returns zeroes and leaves the inode in memory different from the one on disk |
| FsHole.ReadHoleOutside | file.c:105-110 | reading in it outside every operation panics |
| FsHole.WriteInHole | fs.c:466-497 | so does writing in it |
| DirSpec.LinkIsUpdate | fs.c:537-564 | an entry put in the first free slot adds that one name to the map and keeps names unique |
| DirSpec.ClearIsRemoval | sysfile.c:217-219 | clearing an entry removes that one name from the map |
| DirSpec.SlashesOnly | fs.c:586-589 | a path has no element exactly if it is all slashes |
| DirSpec.FirstElem | fs.c:590-602 | otherwise its first element is the longest run of other characters after the first slashes |
| DirCode.Namecmp | fs.c:502-506 | equal exactly when the names agree up to a NUL or DIRSIZ characters |
| DirCode.Strncpy | string.c:68-80 | a field of DIRSIZ characters with the same name, and NULs after it |
| DirCode.Dirlookup | fs.c:510-534 | finds the first entry in use with that name, none exactly if there is none |
| DirCode.Dirlink | fs.c:537-564 | refuses exactly a name that is there; otherwise the map gains that name and nothing else |
| DirCode.IsDirEmpty | sysfile.c:166-180 | true exactly when no entry after the first two is in use |
| DirCode.Skipelem | fs.c:581-604 | takes the first run of non-slash characters, cut to DIRSIZ, and leaves the rest at the next one, told from the characters of the path; none exactly if all are slashes |
| LinkSpec.EntryAdded | sysfile.c:277-278 | an entry in a directory in use adds one to what it names, to nothing else |
| LinkSpec.EntryCleared | sysfile.c:217-219 | clearing an entry takes one off what it named, off nothing else |
| LinkOps.ParentHasTwo | sysfile.c:220-223 | a directory with a subdirectory has a link besides the one from there, so unlink never brings its count to 0 |
| LinkOps.EmptyDir | sysfile.c:212-215 | a directory with nothing after its first two entries is nobody's parent and has one name |
| LinkSteps.Promise | sysfile.c:139-141 | the count raised before the name exists leaves one link owed and nothing unreachable |
| LinkSteps.LinkKeeps | sysfile.c:143-149 | the new name settles the debt: counts equal names again |
| LinkSteps.UnlinkFileKeeps | sysfile.c:217-228 | a file loses a name and a link |
| LinkSteps.RemoveDirKeeps | sysfile.c:212-228 | removing an empty directory leaves both its count and its parent's right, the tree intact |
| LinkSteps.CreateFileKeeps | sysfile.c:260-278 | a new file with its one name keeps counts and tree right |
| LinkSteps.CreateDirKeeps | sysfile.c:260-278 | a new directory with its dot entries and its name keeps counts and tree right |
| LinkSteps.FreeKeeps | fs.c:319-334 | freeing an inode without links leaves no entry pointing at it |
| LinkSteps.RootTree | mkfs.c:117-128 | the root mkfs starts from has the right count |
| LinkCode.WalkCount | fs.c:610-643 | a lookup does not depend on link counts |
| LinkCode.WalkAppend | fs.c:610-643 | a longer path is looked up from where the shorter one leads |
| LinkCode.WalkParent | fs.c:626-630 | the parent of a path is the directory that the path without its last element leads to |
| LinkCode.FileTree.Iput | fs.c:311-334 | a sound tree stays sound: the inode goes exactly with its last reference and no links, and then no name stood for it |
| LinkCode.FileTree.Namex | fs.c:610-643 | a path that begins with a slash is looked up from inode 1, any other from the current directory, element by element; frees nothing, and leaves the reference count of every inode but the returned one as it was |
| LinkCode.FileTree.Link | sysfile.c:117-164 | success exactly when the file and the target directory exist and the name is free; then one new name; counts equal names either way, references unchanged |
| LinkCode.FileTree.Unlink | sysfile.c:183-238 | success exactly for a name other than the dots of a file or empty directory; then that name is gone, and the inode too if that was its last link and nobody refers to it |
| LinkCode.FileTree.Ialloc | fs.c:183-205 | the lowest inode number not in use, none exactly if all are in use |
| LinkCode.FileTree.Create | sysfile.c:240-283 | opens a file that is there, refuses anything else that is there, panics exactly if no inode is free, else makes a file, directory or device with one name and the lowest free number; counts equal names either way |
| UMallocSpec.ReleaseSorted | umalloc.c:33-42 | putting a block back keeps the list address-ordered, disjoint and fully coalesced |
| UMallocSpec.ReleaseUnits | umalloc.c:33-42 | coalescing conserves units |
| UMallocSpec.ReleaseMatches | umalloc.c:33-42 | the pointer writes of free represent the new list: one cycle through the base block |
| UMallocSpec.TakeSorted | umalloc.c:76-84 | taking a block, whole or from its tail, keeps the list ordered, disjoint and coalesced |
| UMallocSpec.TakeMatches | umalloc.c:76-84 | the pointer writes of malloc represent the new list |
| UMallocSpec.ReleaseAccounted | umalloc.c:24-44 | free units plus live units still equal the units from sbrk |
| UMallocSpec.TakeAccounted | umalloc.c:63-90 | the same for malloc |
| UMallocSpec.NeverBoth | umalloc.c:24-90 | no unit is both free and allocated |
| UMallocSpec.Canonical | umalloc.c:24-44 | the free list is determined by which units are free: two well-formed lists over the same units are equal |
| UMalloc.RequestFits | umalloc.c:69-69 | the rounding leaves the block large enough exactly if it does not wrap, and the byte count then fits sbrk exactly up to 0x7FFFFFF0, and never rounds up by more than 7 bytes |
| UMalloc.GrowprocIs | proc.c:119-135 | for every 32-bit argument: grows exactly if there is memory below KERNBASE, shrinks by what is asked, refuses to shrink to nothing, ignores a larger shrink |
| UMalloc.GrowsIff | proc.c:119-135 | where sbrk accepts, the process grows by what morecore asked for below 2 GB and not at all from there on |
| UMalloc.TrapsIff | vm.c:261-285 | a store at the old end of the process faults exactly if the process has not grown and that end was at a page boundary or its page has been given back |
| UMalloc.HasPlace | umalloc.c:30-32 | a full round of a well-formed list contains the place of every live block, so the search in free ends |
| UMalloc.Allocator.FindPlace | umalloc.c:30-32 | ends at the neighbours of the block by address, past the wrap too |
| UMalloc.Allocator.Free | umalloc.c:24-44 | exactly that block leaves the live set, the heap invariant holds, and a block of that size is free; the next search starts at the nearest free block before it |
| UMalloc.Allocator.Morecore | umalloc.c:46-61 | one sbrk call with the 32-bit signed byte count; fails exactly if growproc refuses it; faults exactly if growproc leaves no page for the header; otherwise the units behind the old end of the process become free and a block large enough exists |
| UMalloc.Allocator.Search | umalloc.c:74-89 | terminates; sbrk is asked at most once and exactly if no block fits; fails exactly if sbrk then refuses, faults exactly if the header store then does; the block is the end of the first one large enough after the one where the search starts |
| UMalloc.Allocator.Malloc | umalloc.c:63-90 | exactly one new live block of the rounded size, disjoint from all others; fails exactly if no block fits and sbrk refuses; faults exactly if no block fits and sbrk leaves no page for the header, and never below 2 GB; and the block lies within the process and holds the request exactly for up to 0x7FFFFFF0 bytes; below 2 GB sbrk adds the units needed and 4096 at least |
| UMalloc.UnbackedRequests | umalloc.c:53-60 | two requests, by a process whose size is not a whole number of pages, that are answered with a block the process has no memory for |
| UMalloc.TrappedRequests | umalloc.c:53-60 | two requests that kill the process at the header store, one of them right after exec |
| ProcInv.BootInv | proc.c:81-115 | the table with only the first process satisfies the invariant |
| ProcInv.StepParent | proc.c:186-227 | no step leaves a process with a dead or unused parent |
| ProcInv.StepPid | proc.c:34-77 | nonzero pids stay distinct |
| ProcInv.StepWait | proc.c:231-273 | nobody is left asleep in wait with a zombie child |
| ProcInv.StepCpu | proc.c:283-349 | a process is running exactly when it is current on exactly one CPU |
| ProcInv.StepKeepsInv | proc.c:140-452 | every step of every CPU keeps all of these |
| ProcInv.Reachable | proc.c:140-452 | hence every state any interleaving reaches |
| ProcInv.ZombieIsNoticed | proc.c:186-273 | in every reachable state a zombie has a living parent that is not asleep in wait |
| ProcSchedule.BypassBound | proc.c:283-314 | while a slot stays runnable a CPU dispatches each other slot at most once before it: at most NPROC - 1 dispatches |
| ProcSchedule.LooksBound | proc.c:283-314 | by the time a CPU has looked at NPROC slots, a process that was runnable all along has been dispatched |
| ProcCalls.RunningCan | proc.c:141-390 | a process outside fork can always yield or sleep, can exit exactly if it is not init, and can fork exactly if a slot is unused |
| ProcCalls.WaitingCan | proc.c:238-270 | in wait it can reap exactly if a child is a zombie, and sleeps exactly if it has children, none a zombie, and is not killed |
| ProcCalls.AlwaysCan | proc.c:283-452 | idle CPUs can look, wakeups and kills can happen, and a fork begun can go on |
| ProcCalls.ForkMakesChild | proc.c:141-181 | the steps of fork make the first unused slot a runnable child of the caller with a new pid and change nothing else |
| ProcCalls.ForkGivesUp | proc.c:147-153 | a fork that gives up leaves the slot unused |
| ProcCalls.WakeupWakesAll | proc.c:412-430 | after a wakeup nobody sleeps on the channel, whoever did is runnable, and nothing else has changed |
| ProcCalls.SleepThenWakeup | proc.c:375-430 | sleeping and then a wakeup leaves the process runnable and its CPU at the next slot |
| ProcCalls.YieldStaysRunnable | proc.c:343-350 | yield leaves the process runnable and its CPU at the next slot |
| ProcCalls.LookRunsIff | proc.c:283-314 | the scheduler runs the slot it looks at exactly if it is runnable, and otherwise goes on |
| ProcCalls.ExitWakesParent | proc.c:187-226 | a parent asleep in wait is runnable once its child has exited, and the child is its zombie |
| ProcTable.PTable.Wakeup1 | proc.c:412-420 | every slot asleep on the channel becomes runnable with its other fields kept, and every other slot is as before |
| ProcTable.PTable.Exit | proc.c:208-220 | the scan in place gives the table of the machine's exit step, waking init if a child was a zombie; for each slot: who is woken, who has a new parent, and that nothing else changes |
| ProcTable.PTable.AllocProc | proc.c:34-53 | the first unused slot and a new pid; none only if no slot is unused |
| ProcTable.PTable.Kill | proc.c:434-452 | marks the first slot with the pid and makes it runnable if it slept; the other fields stay |
| ProcTable.PTable.WaitScan | proc.c:238-262 | the first zombie child, or whether there are children at all; the slot it reaps is unused with pid 0, no parent and not killed |
| PipeSpec.PutAppends | pipe.c:93-93 | storing a byte appends it to the contents, across wrap-around of the counters |
| PipeSpec.GetRemoves | pipe.c:116-116 | fetching removes the first byte of the contents |
| PipeSpec.GetManyRemoves | pipe.c:113-117 | fetching many returns that prefix in order |
| PipeCode.Pipe.Write | pipe.c:78-98 | appends the bytes it stores to the contents: all of them and done, or up to a full ring, where it fails exactly if nobody can read or it was killed and blocks otherwise |
| PipeCode.Pipe.Read | pipe.c:100-121 | takes the first bytes off the contents, as many as asked for or as there are; blocks or fails exactly on an empty pipe that can still be written |
| PipeProtocol.StepKeepsInv | pipe.c:59-121 | bytes read followed by bytes in the ring equal bytes stored; a sleeping writer means a full ring and an open read end |
| PipeProtocol.RunKeepsInv | pipe.c:59-121 | the same over every interleaving |
| PipeProtocol.WriterSleepsIff | pipe.c:78-98 | any process awake can write, stores what fits, and sleeps exactly if not all fits, the read end is open and it is not killed |
| PipeProtocol.ReaderSleepsIff | pipe.c:100-121 | any process awake can read, gets what is there, and sleeps exactly if nothing is, the write end is open and it is not killed |
| PipeProtocol.WriteWakesReadersIff | pipe.c:84-97 | a write leaves no reader asleep on data, except exactly when it does not fit and gives up with readers asleep |
| PipeProtocol.ReaderCanBeStranded | pipe.c:84-91 | a run in which that happens |
| VmSpec.AddTableOk | vm.c:44-64 | a new page table changes no mapping and owns its frame alone |
| VmSpec.MapPageOk | vm.c:69-89 | mapping an unmapped page to a frame in hand keeps all frames singly owned |
| VmSpec.UnmapPageOk | vm.c:275-282 | unmapping gives up exactly that frame |
| VmSpec.PagesDistinct | vm.c:227-255 | no two user pages share a frame and no mapped frame is free |
| VmCode.Vm.Kalloc | kalloc.c:79-95 | the head of the free list, none exactly if it is empty |
| VmCode.Vm.Kfree | kalloc.c:54-77 | the frame returns to the free list, filled with junk |
| VmCode.Vm.Walk | vm.c:44-64 | finds the page table, or makes one; fails exactly if it is missing and may or can not be made; changes no mapping |
| VmCode.Vm.MapPage | vm.c:66-89 | exactly that page is mapped to that frame; fails exactly if a table is missing and no frame is free |
| VmCode.Vm.Deallocuvm | vm.c:257-285 | exactly the mapped pages of the range go, each frame to the free list once, across the jumps over missing tables |
| VmCode.Vm.Allocuvm | vm.c:225-255 | succeeds exactly when the free list holds a frame for each page and each missing table; then exactly those pages are new, on unused zeroed frames; otherwise every mapping is as before; no frame is lost |
| VmCode.Vm.Freevm | vm.c:287-304 | every frame the directory owns is free afterwards, none twice |
| VmCode.Vm.Copyuvm | vm.c:319-349 | succeeds exactly when there are frames enough; then each page has the parent's contents on a frame of its own; on failure all frames are free again, except that one is lost exactly if the free list ends at a page-table frame |
| VmCode.CopyCanLoseFrame | vm.c:337-348 | a copy after which one of the child's two frames is not free again |
| ShellSpec.LineSound | sh.c:344-359 | what is parsed is a tree of the grammar over exactly the tokens consumed |
| ShellSpec.LineComplete | sh.c:344-359 | every tree of the grammar is found again from its tokens, whatever closing parenthesis follows |
| ShellSpec.ParseIsGrammar | sh.c:344-446 | the parser accepts exactly the grammar and returns the tree |
| ShellSpec.GrammarIsUnambiguous | sh.c:344-446 | no sequence of tokens has two trees |
| ShellText.CharKinds | sh.c:262-263 | white space and symbols are the characters the shell lists |
| ShellText.LexWords | sh.c:265-308 | the words among the tokens are exactly the longest runs of word characters |
| ShellText.CommandWords | sh.c:415-446 | the words of the command are exactly the words of the text: none lost, none made up |
| ShellText.WordsIntact | sh.c:448-493 | after NULs are written each word, read as a C string, is exactly its source token |
| ShellMeaning.LineSays | sh.c:327-446 | without redirections and parentheses the command has the words and symbols of the tokens in order; the files it opens are those of the redirections in order, the last outermost, for reading on 0 after <, for writing on 1 after > and >> |
| ShellMeaning.LineForIs | sh.c:327-446 | every command with fewer than 10 words each has a text, written out operator by operator, that stands for exactly it |
| ShellMeaning.LinePrintable | sh.c:382-441 | and no other command comes out of a text |
| ShellCode.Parser.GetToken | sh.c:265-308 | returns the first token ahead, told from the characters: a symbol, >>, or a longest run of others after white space; and leaves the others |
| ShellCode.Parser.Peek | sh.c:310-320 | tells whether the next token starts with one of the symbols and moves past white space only |
| ShellCode.Parser.ReadRedirs | sh.c:374-397 | reads redirections as the grammar parser does |
| ShellCode.Parser.ReadExec | sh.c:415-446 | reads a simple command or block as the grammar parser does |
| ShellCode.Parser.ReadBlock | sh.c:399-413 | reads a parenthesised line as the grammar parser does |
| ShellCode.Parser.ReadPipe | sh.c:361-372 | reads a pipeline as the grammar parser does |
| ShellCode.Parser.ReadLine | sh.c:344-359 | reads a line as the grammar parser does; terminates on every text |
| ShellCode.Parser.NulTerminate | sh.c:448-493 | writes a NUL at the end of each word of the command and nowhere else |
| ShellCode.Parser.ParseCmd | sh.c:327-342 | for every text: its one command exactly if it has one, otherwise a syntax error and an untouched buffer; the command opens and runs what the tokens say, and is the one written out if the text is a written-out command; then every word reads back as a C string |
| Grep.PatternOfItems | grep.c:84-96 | every pattern is its items written out, with dots, stars and a final $ read as such |
| Grep.ItemsOfPattern | grep.c:84-96 | and every such sequence of items is the reading of its pattern |
| Grep.CaretMeans | grep.c:72-82 | a leading caret ties the pattern to the beginning; without one it is found wherever the tied one is |
| Grep.HereIsMeaning | grep.c:84-96 | the recursion at one position agrees with the declarative meaning of the items |
| Grep.MatchHere | grep.c:84-96 | decides whether the pattern's items spell out a beginning of the text |
| Grep.MatchStar | grep.c:98-106 | decides the same for a starred item followed by the rest |
| Grep.Match | grep.c:72-82 | for all patterns and texts: true exactly when the meaning of the pattern holds at some start, or at the start only after a caret |

## Left out

- Device, boot and interrupt code, console output and simple user programs: register plumbing and printing.
- Spinlocks and sleep locks: what is done under one lock is one step; `Bio` describes one process at a time between its lock operations.
- More than one disk.
- The inode cache as an array of slots (`iget` reusing a slot): modelled as a map of reference counts.
- Concurrent freeing in `iput`, and adding names inside a directory that is already unlinked: path lookups start at an inode that has links.
- The layers are proved one by one: `FsCode` does not run over `LogCode`, and directories are sequences of entries, not bytes read by `readi`.
- Delivery of the exit status by `wait`: the code only assigns its local pointer.
- `setupkvm`, `inituvm`, `loaduvm` and `mappages` over several pages; page permissions.
- `freerange`: the free list starts as any list of distinct frames.
- `runcmd` and the buffering loop of `grep`: input and output.
- File-descriptor and argument fetching in `syscall.c` and `sysfile.c`: single-branch checks.
- FsCode.Fs.Readi: devices, and the state left by a panic, are not described; whether an operation is in progress is taken not to change during one call.
- FsCode.Fs.Writei: likewise.
- FsSpec.PointEntry: a block is a cleared block, file bytes or a table of pointers, not raw words.
- LogCode.Log.Commit: takes a table that fits the log area; the writes of one that does not are followed in `LogProtocol`, up to a table that outgrows its array.
- LinkCode.FileTree.Iput: an inode that is in the cache without having been read from disk (I_VALID clear) is not modelled; the code leaves such an inode alone.
- LinkCode.FileTree.Link: link counts are unbounded, not 16 bits wide.
- VmCode.Vm.MapPage: one round of the loop of `mappages`, which its callers here use for one page.
- VmCode.Vm.Copyuvm: the child starts as a directory without user pages; `setupkvm` is not part of this model.
- UMalloc.Allocator.Malloc: after a block without memory behind it has been handed out, only that is stated; a store to it by the caller, and block ends beyond 4 GB, are not described.
- ShellCode.Parser.ReadArgs: redirections are collected in order and wrapped around the command at the end, where the code wraps a command whose words it is still filling in.
- PipeProtocol.WriteWakesReadersIff: one segment of `pipewrite` between sleeps is one step.
