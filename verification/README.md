# xv6 and its tools, verified

A model in Dafny of the storage, process and memory code of the xv6 kernel in this repository, and
of four self-contained algorithms from its user programs, with proofs of what that code is for.
`dafny verify dfyconfig.toml` checks all of it.

**Storage.** `Bio` is the buffer cache: a doubly linked ring of buffers over a disk, with the busy,
valid and dirty flags. To its users it is a flat map from block addresses to blocks (`view`), of
which the blocks in `pinned` have been changed and not yet written. `Log` is the redo log on top of
it; every block write it makes is recorded in order in `issued`. `RedoLog` says what those writes
are and proves that a crash after any of them, followed by any number of crashes during recovery,
leaves all or nothing of a transaction. `AtomicDisk` puts writes, commits, crashes and recoveries
into one machine and proves that it refines a disk with atomic transactions. `LogAdmission` is the
admission protocol of begin_op and end_op for any number of processes. `Ide` is the
interrupt-driven request queue, proved to do what the synchronous memory disk does.

**Files.** `Bitmap` and `Files` are the block allocator, the block map with its indirect table, and
reading, writing and truncating, on the flat block map that the cache and the log provide. A file
is the byte sequence `Content`; a ghost map `owner` says which slot of which inode holds each block
in use, so that no block is held twice. `Volume` joins files and log: inodes packed into blocks, the
file system that a disk holds, and what a crash during the commit of a write leaves of the files.
`Directories` is lookup and linking in the bytes of a directory, `PathWalk` the splitting of paths,
the inode cache with its reference counts, and the walk itself.

**Processes and memory.** `Proc` is the process table, `Scheduler` all CPUs and processes as one
machine of steps under ptable.lock, `SleepWakeup` the sleep and wakeup protocol with a caller's own
lock, `Pipe` the pipe ring with its wrapping counters. `Vm` is the two-level page tables over the
list of free pages; a ghost map `owner` says what every page is used for, over all address spaces.

**Algorithms.** `Regex` is the editor's matcher, and `RegexLaws` tells by the characters what its
patterns match; `Undo` is the editor's undo stack, `Md5` the streaming message digest, `Macro` the
macro expansion of make.

Code that changes things in place is modelled by classes and methods with loops, proved against
functions and predicates on values; protocols that several processes run are state machines, and
their theorems hold in every state of every run. Panics and fatal errors are outcomes of the
methods, and what makes them happen is stated. Functions that methods are proved against have laws
beside them that tell their values from the raw bytes, entries, slots or characters. `Blocks` holds
disks, words and sequences of block writes; `BitArithmetic` the bits of numbers; `Options` an option
type. Constants are those of include/xv6/param.h, fs.h, buf.h, mmu.h and memlayout.h. 32-bit
wrap-around is written out where the code relies on it or can run into it.

Some properties turn out not to hold of the code as it stands. They are stated as they are, with an
input on which they fail and the exact condition, told from the state before the call:

- An operation within its budget can be refused by log_write: `LogAdmission.RefusalExactly`,
  `LogAdmission.FullLogRefuses`.
- A reader can be left asleep on a ring with bytes in it, by a writer that gives up:
  `Pipe.PipeBuf.Write` and the other methods of `Pipe.PipeBuf`, `Pipe.KilledWriterLeavesReaderAsleep`.
- deallocuvm can jump over mapped pages: `Vm.ScanExactly`, `Vm.JumpMisses`, `Vm.LeavesPageBehind`.
- allocuvm can report success with the last page missing, and lose a page: `Vm.Vmm.Allocuvm`,
  `Vm.LastPageLost`. copyuvm can lose a page, and setupkvm all free pages: `Vm.Vmm.Copyuvm`,
  `Vm.CopyLosesOne`, `Vm.Vmm.Setupkvm`.
- After growproc memory need not end at the process's size: giving up all memory keeps the old
  size, and a growth can lack its last page: `Vm.Vmm.Growproc`, `Vm.GivesUpAll`,
  `Vm.LastPageMissing`.
- commit panics for want of a buffer if the logged blocks and those that readers hold use up the
  cache: `Log.LogFile.Commit`.
- amatch does not return if it comes to a closure of a token that consumes nothing and holds there:
  `Regex.Matcher.Amatch`, `Regex.ClosureEnds`, `Regex.WordStartHangs`.
- Redoing can move bytes past the end of the edit buffer: `Undo.RedoExactly`, `Undo.RedoOverruns`.
- MD5Update does not return, and reads beyond its input, on inputs near 2^32 bytes:
  `Md5.UpdateEnds`, `Md5.UpdateHangs`.

## Model

| member | source | states |
|---|---|---|
| Blocks.GetPutWord | kern/log.c:84-112 | A word stored in a block is read back, and every other word of the block is untouched; this is how header entries are written and read. |
| Blocks.WordBytes | include/xv6/fs.h:28-36 | The base 256 digits of a word are its four bytes, lowest first, at four times its index. |
| Blocks.ApplyRestart | kern/log.c:68-81 | Doing any prefix of a sequence of block writes and then the whole sequence gives the same disk as the whole sequence once: reinstalling after a crash is harmless. |
| RedoLog.HeaderRoundTrip | kern/log.c:84-112 | read_head of what write_head wrote gives the same list of block numbers, whatever the block held before. |
| RedoLog.HeaderWords | kern/log.c:100-112 | Word 0 of a header is the number of entries, word 1 + i the i-th entry, and every word after those is as it was. |
| RedoLog.CommitSpelled | kern/log.c:174-199 | The writes of commit by raw addresses: the i-th entry's block to block start + 1 + i, the header with n to block start, each block to its own number, the header with 0; 2n + 2 in all and in that order. |
| RedoLog.RecoverySpelled | kern/log.c:68-121 | The writes of recovery by the words of the header on the disk: block start + 1 + i to the block number in word 1 + i, for as many as word 0 says, then a header with 0. |
| RedoLog.RecoveredShape | kern/log.c:114-121 | A complete recovery leaves an empty log and, outside the log, the logged blocks over the old ones. |
| RedoLog.EmptyLogRecovered | kern/log.c:114-121 | Recovering a disk whose log is empty changes no home block. |
| RedoLog.RecoveryCrash | kern/log.c:68-121 | Recovery cut off after any number of its own writes: the next recovery brings the same home blocks. |
| RedoLog.RepeatedCrashes | kern/log.c:68-121 | Any number of recoveries, each cut off anywhere, then a complete one: the home blocks are those of one undisturbed recovery. |
| RedoLog.CommitCrash | kern/log.c:174-199 | Commit cut off after k of its writes: recovery gives the state after the transaction if the header write is among the k, else the state before it; after all writes the log is empty and the home blocks are the new ones. |
| RedoLog.CrashAtomicity | kern/log.c:68-199 | Commit cut off anywhere, then any number of recoveries cut off anywhere, then a complete one: all of the transaction or none of it, all exactly when the header reached the disk. |
| AtomicDisk.CommitWriteRefines | kern/log.c:189-199 | Each block write of commit is either invisible to the abstract disk or, the header write, the atomic step that makes all changes durable. |
| AtomicDisk.CrashRefines | kern/log.c:114-121 | A crash makes the volatile contents fall back to the durable ones, in whatever phase it comes. |
| AtomicDisk.RecoveryWriteRefines | kern/log.c:114-121 | No write of recovery changes what the abstract disk shows. |
| AtomicDisk.StepRefines | kern/log.c:52-230 | Every step of the machine - log_write, a write of commit, a crash, a boot, a write of recovery - keeps the invariant and is a step of the atomic disk. |
| AtomicDisk.RunRefines | kern/log.c:52-230 | Every run, with crashes anywhere, is a run of the disk with atomic transactions. |
| AtomicDisk.Absorbed | kern/log.c:220-227 | log_write's list: what was listed stays where it was; a new block is added at the end, a listed one is not listed again, and no block is listed twice. |
| AtomicDisk.RunListedOnce | kern/log.c:220-227 | In no state of any run is a block listed twice. |
| AtomicDisk.Durability | kern/log.c:189-199 | Between two header writes the durable blocks never change, whatever else happens. |
| Bio.RingPush | kern/bio.c:133-136 | The four pointer assignments put the buffer right behind the head of a well-linked ring and leave it well linked in both directions. |
| Bio.RingUnlink | kern/bio.c:131-132 | The two pointer assignments take one buffer out of a well-linked ring and leave the rest well linked in the same order. |
| Bio.UnpinnedIsDisk | kern/bio.c:62-142 | Every block that is neither pinned nor held is on disk as users see it. |
| Bio.AllTaken | kern/bio.c:86-95 | Every buffer is busy or dirty exactly when as many blocks are held or pinned as there are buffers. |
| Bio.Bcache.constructor | kern/bio.c:39-57 | binit: all buffers are in the ring, the last one first, and the view is the disk. |
| Bio.Bcache.PushFront | kern/bio.c:133-136 | A buffer put in front: the ring is well linked and in the order given. |
| Bio.Bcache.Unlink | kern/bio.c:131-132 | A buffer taken out: the ring is well linked and loses exactly that buffer. |
| Bio.Bcache.Bget | kern/bio.c:62-96 | Sleeps exactly if a busy buffer is for the block; panics exactly if the block is not cached and every buffer is busy or dirty; recycles only the least recently used idle clean buffer; and changes no other buffer. |
| Bio.Bcache.Iderw | kern/memide.c:37-59 | A dirty buffer is written to its block and becomes clean, any other is filled from its block; it is valid afterwards. |
| Bio.Bcache.Bread | kern/bio.c:99-109 | The buffer returned holds what the flat block map shows; no disk block changes; sleep and panic exactly when the block is held, or held and pinned blocks use up all buffers. |
| Bio.Bcache.Load | kern/bio.c:99-109 | The data of a held buffer is the map at its block. |
| Bio.Bcache.Store | kern/bio.c:112-142 | Changing a held buffer changes the map at its block and nowhere else. |
| Bio.Bcache.Pin | kern/log.c:228 | A buffer marked dirty is pinned: it stays until it is written. |
| Bio.Bcache.Bwrite | kern/bio.c:112-119 | One block write, of what the map shows at that block, after which the block is not pinned. |
| Bio.Bcache.Brelse | kern/bio.c:123-142 | The buffer is idle and most recently used; map, disk and pins are unchanged; the invariants (one buffer per block, clean idle valid buffers equal to disk, pinned blocks never evicted) are kept. |
| Log.HomesCount | kern/log.c:210-230 | A log that lists no block twice names exactly as many blocks as it has entries. |
| Log.LogFile.PinnedCount | kern/log.c:210-230 | In every valid state log.lh.n is the number of pinned blocks. |
| Log.CommitComposed | kern/log.c:189-199 | Logging, announcing, installing and erasing, each with its own block writes, together are the commit whose crashes are analysed. |
| Log.AsideKept | kern/log.c:189-199 | commit writes no block that is neither in the log nor logged. |
| Log.LogFile.constructor | kern/log.c:52-65 | initlog: the disk afterwards is the recovered disk and the writes issued are exactly those of recovery. |
| Log.LogFile.LogWrite | kern/log.c:210-230 | Refused exactly when the log is full before absorption is looked at; panics outside an operation. Otherwise the old entries stay in place, n grows by one exactly if the block was not among them, and then the new last entry is the block; it is pinned, no block is listed twice, and contents do not change. |
| Log.LogFile.WriteLog | kern/log.c:174-187 | Exactly one write per entry, in order, of the cached block into its log slot; buffers that others hold on other blocks stay held. Panics, with nothing written, exactly if the logged blocks and the blocks held leave no buffer. |
| Log.LogFile.WriteHead | kern/log.c:100-112 | Exactly one block write: the header that lists the entries. |
| Log.LogFile.InstallTrans | kern/log.c:68-81 | Exactly one write per entry, in order, of the log slot onto its home block; nothing is pinned afterwards, and what others hold stays held. |
| Log.LogFile.ReadHeader | kern/log.c:84-95 | The entries in memory are those of the log on disk, and nothing is written. |
| Log.LogFile.Commit | kern/log.c:189-199 | Panics, with nothing written, exactly if n > 0 and n and the number of blocks that readers hold together reach the number of buffers. Otherwise the block writes issued are, in order, those that crash atomicity is proved of, also while other processes hold buffers to read other blocks; afterwards the log is empty, nothing is pinned, the home blocks on disk are what the cache showed, and the readers hold what they held. |
| Log.LogFile.RecoverFromLog | kern/log.c:114-121 | The block writes issued are, in order, those of recovery; the disk is the recovered disk. |
| Log.LogFile.BeginOp | kern/log.c:124-140 | Admits exactly when no commit is running and the worst case of all operations fits. |
| Log.LogFile.EndOp | kern/log.c:144-171 | Only the last operation out writes anything, and then everything since the last commit is committed at once, unless commit panics, which is told exactly; held buffers stay held. |
| LogAdmission.StepKeeps | kern/log.c:124-230 | Every step of every process keeps the protocol invariant. |
| LogAdmission.Admission | kern/log.c:124-171 | In every state of every run the entries plus the unused budgets of running operations are at most LOGSIZE, commit runs with no operation outstanding, and when nothing runs the log is empty and nobody sleeps. |
| LogAdmission.NobodyStuck | kern/log.c:124-171 | While anyone sleeps in begin_op, somebody is in an operation or committing and will wake the sleepers. |
| LogAdmission.RefusalExactly | kern/log.c:215-216 | A run in which an operation is refused within its budget exists if and only if log.size is at most LOGSIZE (which is what tools/mkfs.c makes it). |
| LogAdmission.FullLogRefuses | kern/log.c:215-216 | For every log size some run fills the log so that every further log_write is refused, even of a listed block. |
| Bitmap.BitPut | kern/fs.c:52-92 | Setting or clearing the bit of one block changes no other block's bit, across bytes and bitmap blocks. |
| Bitmap.BitPlace | kern/fs.c:60-62 | The bit of block b, told by arithmetic: binary digit b % 8 of byte b % 8192 / 8 in block b / 8192 of the map. |
| Files.NoSharing | kern/fs.c:358-421 | Two different slots of any inodes never hold the same block, and the bit of a block in a slot is set. |
| Files.AllocKeeps | kern/fs.c:52-74 | Taking a block whose bit is clear disturbs no slot and no block of any file. |
| Files.FillAddrKeeps | kern/fs.c:364-374 | Storing a fresh block in a direct slot, or as the indirect table, keeps ownership and bitmap in step. |
| Files.FillEntryKeeps | kern/fs.c:375-380 | Storing a fresh block in the indirect table keeps ownership and bitmap in step. |
| Files.WritingDone | kern/fs.c:468-499 | The blocks of a finished write are the old contents with the data spliced in, and no other file's contents have changed. |
| Files.ChunkRead | kern/fs.c:457-462 | The bytes copied from one block are the corresponding stretch of the contents. |
| Files.FilePlace | tools/mkfs.c:270-285 | The place of block bn of a file: entry bn of the inode for the first NDIRECT, then word bn - NDIRECT of the indirect block. |
| Files.ContentByte | kern/fs.c:440-464 | Byte k of a file is byte k % BSIZE of the block that the inode, or its indirect block, has for k / BSIZE. |
| Files.SpliceAt | kern/fs.c:468-499 | What writei makes of the contents, byte by byte: the data from the offset on, around it what was there, and as long as either needs. |
| Files.OthersKept | kern/fs.c:358-499 | A file all of whose blocks are kept has the contents it had. |
| Files.ClearCount | kern/fs.c:52-75 | Every data block is either clear in the bit map or owned by one slot: their numbers add up. |
| Files.NeededAfter | kern/fs.c:357-386 | Filling in one block of a file takes exactly its share of what the whole range takes. |
| Files.TruncDone | kern/fs.c:393-421 | After truncation exactly the blocks of the file have lost their bit and every other file has its contents. |
| Files.FileSystem.Balloc | kern/fs.c:52-74 | The lowest block whose bit was clear, now set and zeroed; fails only if every bit is set. |
| Files.FileSystem.Bfree | kern/fs.c:77-92 | Clears exactly that bit; panics exactly if it was clear. |
| Files.FileSystem.Bmap | kern/fs.c:358-386 | ip->addrs[bn] below NDIRECT, and above it word bn - NDIRECT of the block that the last address names; the block is freshly zeroed if it was not there; every other block of every file is the same; fails only on a full disk. |
| Files.FileSystem.BmapIndirect | kern/fs.c:375-382 | The same through the indirect table: word bn - NDIRECT of the block that ip->addrs[NDIRECT] names. |
| Files.FileSystem.WriteChunk | kern/fs.c:485-491 | One turn of the loop extends the part of the data that is in place by the chunk. |
| Files.FileSystem.Writei | kern/fs.c:468-499 | Fails exactly on the range tests, changing nothing; panics for a full disk exactly if the clear blocks before the call are fewer than the missing blocks of the range and the missing table; else the contents are the old ones with the data spliced in at the offset. Every other file is unchanged, also when the disk fills up. |
| Files.FileSystem.Readi | kern/fs.c:440-464 | Returns the contents from the offset on, as far as asked for and there: each byte is the one that the inode's addresses, or the words of its indirect block, and the offset in that block say; allocates and changes nothing. |
| Files.FileSystem.FreeDirect | kern/fs.c:400-405 | Frees exactly the direct blocks; the panic for freeing a free block is not reached. |
| Files.FileSystem.FreeEntries | kern/fs.c:408-414 | Clears exactly the bits of the blocks in the indirect table; the panic is not reached. |
| Files.FileSystem.FreeTable | kern/fs.c:407-417 | Frees exactly the blocks of the indirect table and the table. |
| Files.FileSystem.Itrunc | kern/fs.c:393-421 | The file is empty, exactly the bits of the blocks it owned are cleared, every other file has its contents, and the panic in bfree is unreachable. |
| Volume.GetPutInode | include/xv6/fs.h:28-42 | An inode put into its place in a block is read back, and the other inodes of the block are as they were. |
| Volume.InodeBytes | include/xv6/fs.h:28-42 | Inode i is at byte 64 * (i % 16) of block inodestart + i / 16: its size in bytes 8 to 11, address j in the four bytes from 16 + 4j on, lowest first. |
| Volume.UpdateInode | kern/fs.c:199-216 | iupdate changes that inode of the disk, no other inode and no block without inodes. |
| Volume.SameHomes | kern/log.c:68-81 | The files that a disk holds depend on nothing in the log area. |
| Volume.StoredSound | kern/fs.c:199-216 | When the inodes and blocks of a file system in order have been stored, the disk holds a file system in order with the same contents of every file. |
| Volume.Store | kern/fs.c:199-216 | Every file system in order can be stored on a disk of its layout. |
| Volume.FilesAfterCrash | kern/log.c:68-199 | A commit cut off anywhere, then recoveries cut off anywhere, then a complete one: the disk holds a file system in order, with all files as before the transaction or all as after it. |
| Volume.WriteCrashes | kern/fs.c:468-499 | writei in a transaction of its own, with its exact conditions for failing and for a full disk: after a crash anywhere in its commit and any number of crashes in recovery, either no file has changed or the data is spliced in and no other file has changed. |
| Directories.Namecmp | kern/fs.c:504-508 | Equal exactly when the name in the entry, up to a NUL or DIRSIZ, is the given name cut to DIRSIZ. |
| Directories.PaddedName | kern/string.c:68-79 | A name stored in an entry is read back cut to DIRSIZ. |
| Directories.EntryLayout | include/xv6/fs.h:50-56 | A directory entry by its bytes: two for the inode number, low one first, then the name up to the first NUL or all 14. |
| Directories.CutIs | kern/fs.c:504-508 | Of a name its first 14 bytes count. |
| Directories.EntryMatches | kern/fs.c:524-527 | True exactly for an entry in use with that name. |
| Directories.Dirlookup | kern/fs.c:512-536 | The first entry with the name, or that there is none; nothing changes. |
| Directories.LinkLookup | kern/fs.c:539-566 | After a new entry the name resolves to its inode and every other name resolves as before. |
| Directories.FindFree | kern/fs.c:553-558 | The first unused entry, else the end of the directory. |
| Directories.NoBlockExactly | kern/fs.c:553-563 | Writing the new entry lacks a block exactly if no entry is unused and the clear blocks do not suffice at the end of the directory. |
| Directories.Dirlink | kern/fs.c:539-566 | Refuses exactly a name that is there; panics for want of room exactly if the directory has the greatest size of a file and every entry is used; panics for a full disk exactly if every entry is used and the clear blocks do not suffice for one more; else adds the name so that lookups of other names are unchanged. Other files keep their contents. |
| PathWalk.OneElement | kern/fs.c:583-606 | Slashes, an element and slashes are exactly the first of the slash-separated elements of the path. |
| PathWalk.Skipelem | kern/fs.c:583-606 | Returns the first element cut to DIRSIZ and a path whose elements are the remaining ones, or nothing exactly when there is no element; the rest is empty exactly after the last element. |
| PathWalk.EntryChanged | kern/fs.c:221-346 | Changing one cache entry and the references to its inode keeps the cache in order: at most one entry in use per inode, each with its number of references. |
| PathWalk.AllInUse | kern/fs.c:229-243 | Every cache entry is in use exactly when as many inodes are referred to as there are entries. |
| PathWalk.WalkGoes | kern/fs.c:622-639 | One turn on the tree as it has become is one step of the lookup in the tree as it was, and of the condition for getting through. |
| PathWalk.LastLookup | kern/fs.c:622-658 | namei is nameiparent followed by one lookup of the last element, for every path with an element; and the directory is where the elements before the last lead. |
| PathWalk.Icache.Iget | kern/fs.c:221-252 | One more reference, to the only entry in use for the inode or else to the first free one; panics exactly if there is neither. |
| PathWalk.Icache.Idup | kern/fs.c:256-263 | One more reference to that inode. |
| PathWalk.Icache.Ilock | kern/fs.c:267-297 | Sleeps exactly on a locked entry and panics exactly on a free inode; else the entry is locked and agrees with the inode on disk. |
| PathWalk.Icache.Iunlock | kern/fs.c:300-310 | Unlocks that entry only. |
| PathWalk.Icache.Iput | kern/fs.c:319-338 | One reference less; the inode is freed on disk exactly when it was the last one and there are no links. |
| PathWalk.Icache.Iunlockput | kern/fs.c:341-346 | Unlocked and one reference less. |
| PathWalk.Icache.Turn | kern/fs.c:622-639 | One element of the walk: the reference held moves from the directory to the inode found, or is dropped; panics exactly if the inode is not in use or there is no cache entry for the next one. |
| PathWalk.Icache.WalkFrom | kern/fs.c:622-645 | The loop panics exactly if the walk cannot get through, and otherwise finds what the recursive lookup finds. |
| PathWalk.Icache.Namex | kern/fs.c:612-645 | Panics exactly if there is no cache entry for an inode on the way or such an inode is missing or free; else the answer, in every tree, is the recursive lookup of the elements, there is one reference more to the inode returned and none elsewhere, nothing is locked, and entries in use stay where they are. |
| Proc.ProcTable.Wakeup1 | kern/proc.c:395-403 | Slot by slot and for every channel: a process asleep on the channel becomes runnable and keeps all else; any other slot is unchanged. |
| Proc.ProcTable.Allocproc | kern/proc.c:34-55 | The first unused slot becomes an embryo with a fresh pid; fails only if no slot is unused. |
| Proc.AdoptOne | kern/proc.c:202-208 | Passing one child to init commutes with the wakeups of init done so far. |
| Proc.ProcTable.Exit | kern/proc.c:196-211 | The table afterwards is the one in which the parent is woken, all children belong to init, which is woken if one of them is a zombie, and the process is a zombie. |
| Proc.ExitedAt | kern/proc.c:196-211 | That table slot by slot: the parent of each slot, its state with exactly who is woken, and everything else kept. |
| Proc.ProcTable.Wait | kern/proc.c:219-261 | Reaps the first zombie child, whose slot is then unused, with no pid, parent or kill flag; otherwise there is none, and it gives up exactly if killed or childless, else sleeps on its own address. |
| Scheduler.StepKeeps | kern/proc.c:128-412 | Every step of every CPU and process keeps processes on one CPU each, contexts saved before reuse, and families in order. |
| Scheduler.BootInv | kern/proc.c:271-302 | The state after boot satisfies the invariant. |
| Scheduler.RunInv | kern/proc.c:128-412 | So does every state of every run, for any number of CPUs and processes. |
| Scheduler.RunningOnOneCpu | kern/proc.c:271-332 | In every state of every run a RUNNING process is on exactly one CPU. |
| Scheduler.SwitchedOutFirst | kern/proc.c:271-353 | Whenever a CPU picks a process its context has been saved and no CPU runs it; whenever wait frees a slot no CPU is on its stack. |
| Scheduler.FreedSlot | kern/proc.c:219-261 | A zombie becomes unused only by a step with ptable.lock of a CPU that is not running it. |
| Scheduler.NoOrphanZombie | kern/proc.c:172-261 | In every state of every run a process that has a zombie child is not asleep in wait, and every parent is a process that can still call wait. |
| SleepWakeup.StepKeeps | kern/proc.c:357-412 | Every step of sleep, wakeup and their callers keeps the protocol invariant. |
| SleepWakeup.RunInv | kern/proc.c:357-412 | It holds in every state of every interleaving. |
| SleepWakeup.NoLostWakeup | kern/proc.c:357-412 | Whenever the caller's lock is free, nobody is asleep, or about to be, on a condition that holds. |
| SleepWakeup.WakeupReachesAll | kern/proc.c:395-412 | A wakeup leaves nobody asleep on the channel. |
| SleepWakeup.WakeAllIsWoken | kern/proc.c:395-403 | The wakeup of the protocol is wakeup1 on the process table: who is asleep is who sleeps on the channel in the table, before and after; those become runnable and nobody else changes. |
| SleepWakeup.RunShown | kern/proc.c:357-412 | Along every run in which sleep writes the table and wakeup is wakeup1, the table shows who is asleep. |
| SleepWakeup.NoLostWakeupInTable | kern/proc.c:357-412 | No lost wakeup on the table: with the caller's lock free, no slot sleeps on the channel of a condition that holds. |
| SleepWakeup.WakeupReachesTable | kern/proc.c:395-412 | The wakeup step makes every slot that slept on the channel runnable and keeps all others. |
| Pipe.Wrapped | kern/pipe.c:76-119 | With counters at most PIPESIZE apart, the tests for full and empty and the index into the ring are right for the wrapped 32-bit counters. |
| Pipe.PipeBuf.Write | kern/pipe.c:76-96 | Appends a stretch of the data to what has been stored; sleeps only on a full ring that is open for reading; gives up exactly if the data exceeds the room and it was killed or nobody can read; and a reader sleeps on a ring with bytes in it afterwards exactly if another process slept as a reader before and it gave up. |
| Pipe.PipeBuf.Store | kern/pipe.c:91 | One byte more is stored; bytes taken followed by bytes in the ring are all bytes stored. |
| Pipe.PipeBuf.Read | kern/pipe.c:98-119 | Takes the oldest bytes, as many as asked for and there; a read of a positive size returns nothing only if the ring is empty and the write end closed; wakes the writers; leaves a reader asleep on a ring with bytes in it exactly if another process slept as a reader before and it did not take all bytes. |
| Pipe.PipeBuf.Take | kern/pipe.c:112-114 | The oldest byte, in order of storing. |
| Pipe.PipeBuf.Kill | kern/proc.c:416-436 | A killed process sleeps no more; a reader sleeps on a ring with bytes in it afterwards exactly if another one did. |
| Pipe.PipeBuf.Close | kern/pipe.c:57-73 | Closes that end and wakes the other side; frees the pipe exactly if the other end was closed, and then nobody sleeps on it. |
| Pipe.KilledWriterLeavesReaderAsleep | kern/pipe.c:84-86 | A run after which a reader sleeps although the ring is full: a writer that gives up does not wake the readers. |
| Pipe.KilledReaderIsAwake | kern/pipe.c:105-108 | A run like that with the reader killed meanwhile, after which nobody sleeps. |
| Ide.IdeQueue.constructor | kern/ide.c:153-183 | An empty queue and an idle device. |
| Ide.IdeQueue.Append | kern/ide.c:168-171 | The linked queue is the old one with the request at its end. |
| Ide.IdeQueue.Submit | kern/ide.c:153-183 | The request goes to the end of the queue; the device is always working for the head. |
| Ide.IdeQueue.Interrupt | kern/ide.c:119-147 | The head request, and only it, is done as the synchronous disk would do it, and leaves the queue; the next one is started. Told by the fields: a dirty head has its data written to its block and is clean and valid; a clean one gets the data of its block. |
| Ide.IdeQueue.Transfer | kern/ide.c:134-139 | What the device was told to do is what the buffer's flags ask for. |
| Ide.IdeQueue.Finished | kern/ide.c:178-180 | iderw's wait ends only when the buffer is valid, clean and equal to its disk block. |
| Ide.HeadDone | kern/ide.c:119-147 | Finishing the head keeps the disk equal to the requests finished so far, done one after the other in the order they were made by kern/memide.c. |
| Vm.UserPagesApart | kern/vm.c:309-337 | Two mapped user pages of any address spaces share no memory. |
| Vm.PteWritten | kern/vm.c:45-90 | Writing one entry changes that entry and no other, in any address space. |
| Vm.EntryPlace | kern/vm.c:45-65 | The entry for page v is entry v % 1024 of the table that entry v / 1024 of the directory names; without a table there is none. |
| Vm.UpIs | include/xv6/mmu.h:129 | The least number of pages that hold the bytes. |
| Vm.ScanComplete | kern/vm.c:249-273 | From a directory boundary, or from a page with a table, the loop with its jumps visits exactly the mapped pages. |
| Vm.ScanExactly | kern/vm.c:249-273 | It frees exactly the mapped pages if and only if nothing is mapped below the page on which the first jumps land. |
| Vm.ContiguousScan | kern/vm.c:249-273 | It always does when memory is mapped from 0 up without holes. |
| Vm.JumpMisses | kern/vm.c:261-262 | A mapping of which it leaves a page behind. |
| Vm.LeavesPageBehind | kern/vm.c:220-273 | A run of setupkvm, allocuvm and deallocuvm that leaves a page mapped in the range that was to be freed. |
| Vm.FreeDetermined | kern/kalloc.c:59-95 | The free pages are determined by the pages in use: two lists for the same use are permutations of each other. |
| Vm.Vmm.constructor | kern/kalloc.c:45-52 | All pages are free. |
| Vm.Vmm.Kalloc | kern/kalloc.c:82-95 | The page at the head of the list, which was in no use; fails exactly if the list is empty. |
| Vm.Vmm.Kfree | kern/kalloc.c:59-77 | The page is free again. |
| Vm.Vmm.WalkAlloc | kern/vm.c:45-65 | Afterwards there is a table and no entry of any address space has changed; fails exactly if a table is missing and no page is free. |
| Vm.Vmm.MapUser | kern/vm.c:70-90 | Exactly one entry changes, to the given page and flags; failure changes nothing. |
| Vm.Vmm.MapKernel | kern/vm.c:70-90 | Exactly the pages of the range are mapped, in order, to consecutive memory; each table it had to add took a free page, and it fails only with no page left. |
| Vm.Vmm.Setupkvm | kern/vm.c:128-144 | Succeeds exactly when the free pages cover the directory and the tables of the kernel's ranges; then it is a new address space with exactly the kernel's mappings, others are unchanged, and exactly those pages are taken. Otherwise all free pages are lost. |
| Vm.KernelCost | kern/vm.c:115-144 | The kernel's own ranges, wherever its data starts, are in order, and setupkvm takes 65 pages for them. |
| Vm.KmapIs | kern/vm.c:128-144 | A page in one of the ranges is mapped to its physical page with the range's flags, and no other page is mapped. |
| Vm.KernelMap | kern/vm.c:100-124 | The kernel's map page by page: memory from KERNBASE on, devices at their own addresses, all writable but the kernel's text, nothing else. |
| Vm.Vmm.FreePage | kern/vm.c:263-270 | Unmaps that page and frees its memory, and nothing else. |
| Vm.Vmm.Deallocuvm | kern/vm.c:249-273 | Exactly the pages of the scan are unmapped and freed, each once; every other entry and page is kept. |
| Vm.Vmm.FreeTable | kern/vm.c:286-288 | Frees the table, which maps no user page any more. |
| Vm.Vmm.Freevm | kern/vm.c:277-292 | Exactly the pages of that address space are free again; every other address space is unchanged. |
| Vm.Vmm.AddPage | kern/vm.c:233-240 | A fresh page with the given content is mapped; or, with one page left and no table, that page is lost. |
| Vm.StoppedExactly | kern/vm.c:231-242 | From the number of free pages alone: when allocuvm fails, how far it gets, and when it loses a page. |
| Vm.Vmm.Allocuvm | kern/vm.c:220-243 | Reports success with all pages zeroed and mapped exactly when the free pages cover pages and tables; otherwise fails with nothing mapped, except when only the last page's table is missing; a page is lost exactly when a table was what ran out. |
| Vm.LastPageLost | kern/vm.c:231-242 | A memory with one free page and no table, for which allocuvm reports success, maps nothing and loses the page. |
| Vm.Vmm.Copyuvm | kern/vm.c:309-337 | Succeeds exactly when the free pages cover the kernel's part, the pages and their tables; then the child has the same bytes and flags at every page below the size, on pages of its own, and the parent is unchanged. If they do not cover the kernel's part they are all lost; else everything is free again but for one page, lost exactly when a table is what is lacking. |
| Vm.CopyExactly | kern/vm.c:320-336 | From the number of free pages alone: when the loop of copyuvm succeeds and when it loses a page. |
| Vm.CopyLosesOne | kern/vm.c:320-336 | With one page more than the kernel's part takes, copying one page loses it. |
| Vm.Vmm.CopyThenFree | kern/vm.c:277-337 | A copy, which has the parent's memory, is freed, or fails: the free list is a permutation of what it was, whenever the free pages cover the kernel's part and no table is what is lacking. |
| Vm.SpaceFreed | kern/vm.c:277-292 | What is in use outside a new address space is what was in use before it. |
| Vm.SpaceShrunk | kern/vm.c:249-273 | Giving up user pages of a new address space keeps every page that was in use before it. |
| Vm.CostInUse | kern/vm.c:220-243 | What it costs to grow an address space depends only on its size and the number of its tables. |
| Vm.EnoughForAll | kern/vm.c:220-273 | With pages for the greatest of a sequence of sizes and its tables, no resizing loses a page and every size is reached. |
| Vm.Vmm.Resize | kern/vm.c:220-273 | One resizing: its outcome, and whether a page is lost, is a function of the numbers of free pages, pages and tables before it. |
| Vm.Vmm.Lifetime | kern/vm.c:128-292 | setupkvm, any sequence of allocuvm and deallocuvm, then freevm: whether a page is lost, and the size at the end, are functions of the number of free pages and the sizes alone; if none is lost the free list is a permutation of what it was. |
| Vm.Vmm.Growproc | kern/proc.c:107-123 | From the state before the call: when it succeeds, the new size, and when a page is lost; and memory is mapped exactly up to the size afterwards if and only if it neither gave up all memory nor lacked a table for the last page of a growth. |
| Vm.GivesUpAll | kern/proc.c:116-119 | A run after which the size is one byte and nothing is mapped, growproc having failed. |
| Vm.LastPageMissing | kern/proc.c:113-115 | A run after which the size is one byte and nothing is mapped, growproc having succeeded. |
| Vm.ContiguousGrown | kern/vm.c:220-243 | allocuvm keeps memory free of holes. |
| Vm.ContiguousShrunk | kern/vm.c:249-273 | So does deallocuvm. |
| Regex.Matcher.Locate | cmd/levee/find.c:157-172 | True exactly if the character is one of the class. |
| Regex.Matcher.Omatch | cmd/levee/find.c:46-93 | One token: whether it holds, how far it moves, and which register it sets. |
| Regex.Matcher.Longest | cmd/levee/find.c:109-110 | The loop ends exactly if the token consumes a character or does not hold where it starts, and then at the longest run: every shorter one is a run and no longer one is. |
| Regex.ClosureFound | cmd/levee/find.c:106-120 | The longest run after which the rest matches gives the greatest way of the whole. |
| Regex.ClosureHangs | cmd/levee/find.c:106-120 | A search that hangs after some run, no longer run having matched, hangs as a whole. |
| Regex.ClosureReturns | cmd/levee/find.c:106-120 | A search that hangs after none of the runs it tries, down to the first that matches, does not hang. |
| Regex.Matcher.Backtrack | cmd/levee/find.c:116-118 | Tries runs from the longest down: finds the longest after which the rest matches, or there is none, or the search hangs after a run for which no longer one matches. |
| Regex.Matcher.Amatch | cmd/levee/find.c:95-132 | Does not return exactly if its search comes to a closure of a token that consumes nothing where that token holds. Otherwise true exactly if the pattern matches at start in some way; then lastp is the end of the way whose runs are greatest, earlier closures first, and the registers hold its arguments; otherwise arg is set back; earlier registers are kept. |
| Regex.Matcher.REmatch | cmd/levee/find.c:31-44 | Does not return exactly if the search hangs at a position with no match before it. Otherwise the first position from start to end with a match, and that match; the position after end if there is none; -1 for the empty pattern. |
| Regex.Matcher.Fseekeol | cmd/levee/find.c:482-487 | The end of the line. |
| Regex.LineEnd | cmd/levee/ucsd.c:64-86 | The first end of line from a position on, or the last character of the buffer. |
| Regex.Matcher.Findfwd | cmd/levee/find.c:322-336 | Does not return exactly if the search hangs at a position with no match before it. Otherwise the least matching position on the lines that start before endp, each match within its line; ERR exactly if there is none. |
| Regex.ClosureEnds | cmd/levee/find.c:109-110 | The loop of a closure ends if and only if its token consumes a character or does not hold where the loop starts. |
| Regex.WordStartHangs | cmd/levee/find.c:109-110 | The loop for the closure of the word start, at the start of the text, never ends, and so amatch does not return. |
| RegexLaws.LitLaw | cmd/levee/find.c:62-67 | A literal matches exactly that character, or with ignorecase one that is the same in capitals, and takes one. |
| RegexLaws.ClassLaw | cmd/levee/find.c:71-76 | Within the line exactly one of a class and its negation matches, by whether the character is listed, and takes one. |
| RegexLaws.AnyLaw | cmd/levee/find.c:68-70 | "." matches any character but the end of the line: the same as the negated class of that. |
| RegexLaws.LineLaw | cmd/levee/find.c:54-57 | "^" and "$" hold by the character before and after the position and take nothing. |
| RegexLaws.WordLaw | cmd/levee/find.c:58-61 | So do the word start and the word end: no letter or digit before, none after. |
| RegexLaws.ThenLaw | cmd/levee/find.c:122-128 | A token and the rest match from i to j exactly if the token matches from i to some m and the rest from there to j. |
| RegexLaws.ClosureLaw | cmd/levee/find.c:103-121 | A closure and the rest match exactly if the token matches each character up to some m and the rest goes on from there. |
| RegexLaws.GreedyLaw | cmd/levee/find.c:103-121 | Of all the ways to match a closure, the one that is found goes furthest. |
| RegexLaws.BracketLaw | cmd/levee/find.c:77-83 | The brackets of an argument hold everywhere and take nothing. |
| RegexLaws.ArgumentLaw | cmd/levee/find.c:77-83 | For a text in brackets the argument recorded is where the text begins and its length. |
| RegexLaws.TextLaw | cmd/levee/find.c:95-132 | A pattern of literals matches at i exactly if the text stands there, and ends where the text ends. |
| RegexLaws.FindText | cmd/levee/find.c:322-336 | findfwd for a plain text always ends and finds its first occurrence within a line, with lastp at its end; or it says that there is none. |
| Undo.RevertInverse | cmd/levee/undo.c:187-226 | Reverting an entry and then the entry that this leaves behind gives the text back. |
| Undo.RoomIsDone | cmd/levee/undo.c:210-272 | A run of undoing gets to its end exactly when at every undone deletion there is room for the text and for the bytes that are moved. |
| Undo.RedoExactly | cmd/levee/undo.c:210-272 | There is room for undoing the undo if and only if a condition on the log before the first undo holds: at each undone insertion of k characters, from a text of L, L is below SIZE and L + k at most SIZE + 1. |
| Undo.RedoOverruns | cmd/levee/undo.c:210-226 | An insertion of 1000 characters that can be undone, and whose redoing passes the test of putin and moves bytes past the end of the buffer. |
| Undo.OldestIs | cmd/levee/undo.c:230-272 | The place returned is that of the first entry that was recorded. |
| Undo.LowestIs | cmd/levee/undo.c:230-272 | topp is at most every place, and is one of them unless all are above the start value. |
| Undo.UndoStack.Pushw | cmd/levee/undo.c:42-51 | One word more on the stack. |
| Undo.UndoStack.Pushmem | cmd/levee/undo.c:53-73 | The text is on the stack, two bytes to a word, above what was there. |
| Undo.UndoStack.Uputcmd | cmd/levee/undo.c:85-92 | Size, start and code on the stack. |
| Undo.UndoStack.Popw | cmd/levee/undo.c:151-160 | Undoes Pushw; fails exactly on the empty stack. |
| Undo.UndoStack.Popmem | cmd/levee/undo.c:162-183 | Undoes Pushmem: the text is back in its place and the rest of the buffer is unchanged. |
| Undo.Editor.Moveleft | cmd/levee/ucsd.c:25-32 | The characters are copied as they were, overlapping or not, and nothing else changes. |
| Undo.Editor.Moveright | cmd/levee/ucsd.c:38-47 | The characters are copied as they were, overlapping or not, and nothing else changes. |
| Undo.Editor.InsertToUndo | cmd/levee/undo.c:94-105 | Records an insertion and grows the text. |
| Undo.Editor.DeleteToUndo | cmd/levee/undo.c:109-124 | Records the text and removes it; nothing for nothing. |
| Undo.Editor.MoveToUndo | cmd/levee/undo.c:128-134 | Records text that is to be overwritten. |
| Undo.Editor.Takeout | cmd/levee/undo.c:187-196 | Reverts an insertion and records how to revert that. |
| Undo.Editor.Copyover | cmd/levee/undo.c:198-208 | Reverts an overwriting and records how to revert that. |
| Undo.Editor.Putin | cmd/levee/undo.c:210-226 | Reverts a deletion and records how to revert that; fails, changing nothing, exactly if the buffer is too small for the text; and passes its test yet moves bytes past the end exactly if the gap is made too high. |
| Undo.Editor.Fixcore | cmd/levee/undo.c:230-272 | Exactly if there is room on the way, the text is what it was before all recorded edits and the log left behind is the reverse one; if the buffer cannot hold a text it stops there and the stack leads back. Returns the place of the oldest edit and the lowest one. It returns the place of the oldest edit, and in topp the least place of any. |
| Undo.Editor.UndoRedo | cmd/levee/undo.c:230-272 | Two calls of fixcore: after the first the text is the one before all recorded edits, after the second the edited text is back if and only if there was room for redoing, told from the log before the first call. |
| Undo.Editor.Insert | cmd/levee/modify.c:187-191 | An insertion that is recorded keeps the text to which undoing leads. |
| Undo.Editor.Delete | cmd/levee/undo.c:109-124 | So does a deletion. |
| Undo.Editor.Overwrite | cmd/levee/editcor.c:126-142 | So does an overwriting. |
| Md5.Choices | cmd/md5/md5c.c:64-65 | F chooses each bit of y or z by the bit of x, and G is F with z choosing between x and y. |
| Md5.Parity | cmd/md5/md5c.c:66 | H keeps the bits of z where x and y agree, and flips them where they differ. |
| Md5.FlipsBits | cmd/md5/md5c.c:67 | I flips each bit of y where x has a 1 or z a 0, and keeps it elsewhere. |
| Md5.Rotated | cmd/md5/md5c.c:71 | ROTATE_LEFT by n is x * 2^n modulo 2^32 plus x / 2^(32-n). |
| Md5.RotatedBits | cmd/md5/md5c.c:71 | Bit k becomes bit k + n, counted round 32. |
| Md5.RotatedBack | cmd/md5/md5c.c:71 | Rotating on by 32 - n gives the word back. |
| Md5.StepLaws | cmd/md5/md5c.c:76-95 | Each of FF, GG, HH and II is the equation a = b + ((a + f(b,c,d) + X + T) <<< s) of section 3.4 of RFC 1321, with f written out and the rotation as arithmetic. |
| Md5.StepBack | cmd/md5/md5c.c:76-95 | A step can be undone: the old word is told by the new one and the others. |
| Md5.RoundsAreStandard | cmd/md5/md5c.c:193-263 | The words, shifts and constants written out for the 64 steps are, in order, those that the rules of section 3.4 of RFC 1321 give. |
| Md5.InitialBytes | cmd/md5/md5c.c:99-109 | The initial words by their bytes, as section 3.3 of RFC 1321 lists them. |
| Md5.InPlace | cmd/md5/md5c.c:193-263 | Four steps that update the registers in place, as written, are four steps that shift the registers, as the standard describes them. |
| Md5.Round | cmd/md5/md5c.c:193-263 | The 16 steps of a round, written in place four at a time, are the 16 steps of the standard. |
| Md5.TransformBlock | cmd/md5/md5c.c:185-274 | MD5Transform, decoding the block and running the 64 steps in place, is the block function of section 3.4 of RFC 1321. |
| Md5.WordsBytes | cmd/md5/md5c.c:278-306 | Decoding what was encoded gives the words back. |
| Md5.BytesWord | cmd/md5/md5c.c:278-306 | Encoding what was decoded gives the bytes back. |
| Md5.Encode | cmd/md5/md5c.c:278-291 | The bytes of the words, low-order byte first. |
| Md5.Decode | cmd/md5/md5c.c:296-306 | The words of the bytes, low-order byte first. |
| Md5.OrIsPlus | cmd/md5/md5c.c:296-306 | Bytes shifted to their places have no bit in common, so that or gives the word of those bytes. |
| Md5.PadLen | cmd/md5/md5c.c:169-171 | The only number of padding bytes between 1 and 64 that leaves 8 bytes of a block. |
| Md5.CountAdded | cmd/md5/md5c.c:125-129 | Adding with carry in two words keeps the length in bits modulo 2^64. |
| Md5.IndexOfCount | cmd/md5/md5c.c:122-123 | The index from the counter is the length modulo 64, however far the counter has wrapped. |
| Md5.UpdateEnds | cmd/md5/md5c.c:140-141 | The loop of MD5Update, with its wrapping position and test, ends if and only if the last block boundary plus 63 fits 32 bits; and exactly if not does it take a block that reaches beyond the input. |
| Md5.UpdateHangs | cmd/md5/md5c.c:140-141 | After one byte, with 2^32 - 1 bytes of input, every test of the loop holds. |
| Md5.Context.constructor | cmd/md5/md5c.c:99-109 | The context of the empty message. |
| Md5.Context.Update | cmd/md5/md5c.c:115-152 | The context of the message with the input appended: state folded over the whole blocks, the rest in the buffer, the length in bits modulo 2^64. |
| Md5.Context.Final | cmd/md5/md5c.c:157-181 | The digest of the padded message, by sections 3.1 to 3.5 of RFC 1321. |
| Md5.InPieces | cmd/md5/md5c.c:99-181 | For every block function, message and split into calls of MD5Update that end, the digest is that of the whole message at once. |
| Md5.Md5 | cmd/md5/md5c.c:99-181 | The same for MD5 itself. |
| Macro.FailsExactly | cmd/make/macro.c:165-166 | Expansion fails if and only if some chain of references comes back to a macro that is being expanded. |
| Macro.SameExpansion | cmd/make/macro.c:163-164 | Defining unknown macros as empty changes no expansion of any string. |
| Macro.SameAfter | cmd/make/macro.c:163-164 | So what an expansion adds to the list of macros changes no later one. |
| Macro.ReferenceForms | cmd/make/macro.c:146-162 | (name) and {name} for a name without the closing bracket give the name and its length plus two, without the closing bracket plus one; any other character is a name of its own. |
| Macro.Substituted | cmd/make/macro.c:128-180 | Text with one reference to a macro of plain text expands to the text with the value in its place. |
| Macro.Str.Grow | cmd/make/input.c:48-55 | There is room for one character more and the text is the same. |
| Macro.Make.Getmp | cmd/make/macro.c:26-35 | The macro of that name, or that there is none. |
| Macro.Make.Setmacro | cmd/make/macro.c:50-88 | The macro has the value unless it is fixed; a new one is added in front without flags; names stay distinct. |
| Macro.Make.ReadName | cmd/make/macro.c:146-162 | The name between braces or parentheses up to the closing one or the end, or one character, and how much was read. |
| Macro.Make.DoMacro | cmd/make/macro.c:163-171 | Adds the expansion of the macro's value; fails exactly if the macro is marked or its value fails; marks are as before. |
| Macro.Make.Doexp | cmd/make/macro.c:128-180 | Terminates for every table; adds exactly the recursive expansion, keeping pos below len; fails exactly on a macro within itself; marks are as before and only empty macros have been added. |
| Macro.Make.ExpandStr | cmd/make/macro.c:186-197 | The string is replaced by its expansion. |

## Left out

- Boot code, drivers and hardware access (boot, kern/lapic.c, kern/ioapic.c, kern/uart.c, kern/timer.c and the port commands in kern/ide.c), and the raw disk device.
- System call wrappers (kern/sysfile.c, kern/sysproc.c, kern/syscall.c), file descriptors (kern/file.c), and link counts across create and unlink.
- Spin locks: taking and releasing a lock is one step.
- Whether a process that is woken, or waits for a lock, does get on: the theorems are about what never happens.
- exec, the user-space copy routines and page protection changes in kern/vm.c (copyout, loaduvm, clearpteu): they would add easy members.
- wait's status word, kill and pids beyond allocproc.
- Device inodes in readi and writei, and the type, link count, device numbers and modification time of inodes on disk: `Volume` stores size and addresses, `PathWalk` keeps type and link count.
- The sleep of bget and ilock on a busy entry: the methods return that they would sleep.
- Log.LogFile.Commit: a reader that holds a logged block, for which commit would wait, is not modelled.
- Log.LogFile.InstallTrans: called where commit and recovery call it, with a buffer to spare; so is Log.LogFile.WriteHead.
- Volume.WriteCrashes: which blocks writei passes to log_write is not derived from its code: the transaction is any that stores the new inodes and blocks and nothing else, and fits the log.
- LogAdmission.Admission: that an operation adds at most MAXOPBLOCKS entries is a rule of the machine, not derived from the file system calls.
- Files.FileSystem.constructor: that every block below a file's size is mapped is assumed of the disk the kernel starts with.
- PathWalk.Icache.Namex: runs without other processes; an inode locked by another process is not modelled here.
- Pipe.PipeBuf.Close: freeing the page of the pipe is reported, not done.
- Ide.IdeQueue.Interrupt: device errors are not modelled.
- Vm.Vmm.Kfree: junk filling of freed pages is not modelled, and the free list is a sequence rather than links inside the pages.
- Vm.Vmm.Allocuvm: the pages to be added must not be mapped yet, since mappages panics on a page that is.
- Regex: makepat, which encodes patterns, and searching backwards; closures of the brackets of an argument, which makepat accepts too, are not modelled.
- Vm.Vmm.Lifetime: ends at the first page lost, since memory then has a hole or a page without owner.
- Undo: stacks that spill to a file, markers, and the display; pushes that would not fit the core block are excluded.
- Undo.UndoStack.Pushmem: bytes are kept two to a word, as its size computation assumes; how they lie within the words is not modelled.
- Md5.Context.Update: input lengths for which the loop does not end are excluded; the exact condition is `LoopEnds`. Clearing the context at the end is not modelled.
- Md5.TransformBlock: that the 64 added constants are the sine table is not proved; they are data here as in the code.
- Macro: the fixed size of the name buffer and running out of memory.
- The rest of the user programs.
