# xv6 with a TCP/IP stack: a model of its core and what it keeps

This project models the parts of the kernel and its user programs where correctness is subtle, in
Dafny, and proves what they promise. Each part is a specification on values (`...Spec`), the
operations in place as classes and methods proved against it, and, where the code is concurrent or
can be cut short, a step system whose theorems speak about every run.

- **Log** (`LogSpec`, `Log`, `LogSystem`, `LogBudget`): the redo log with group commit. Disk writes
  of whole blocks are atomic; a crash may come between any two. `RunCrashSafe` is the result over
  runs with any number of crashes.
- **Files** (`Blocks`, `Bitmap`, `FsSpec`, `FsWrite`, `FsSpace`, `FsTrunc`, `FileSystem`, `FsLife`, `Mkfs`): block
  allocation, block maps, the inode cache, reading, writing and truncating, with ownership of every
  block and file contents as plain byte sequences; any sequence of calls; and the image mkfs makes.
- **Buffer cache** (`BioSpec`, `Bio`): references, recycling, agreement with the disk, and the
  doubly linked list.
- **TCP** (`Queue`, `TcpSpec`, `TcpFree`, `TcpLive`, `TcpCalls`, `Tcp`): two endpoints over a network that loses, duplicates
  and reorders segments, with interrupts between the steps of `tcp_tx` and the assignments of `enqueue`.
- **User heap** (`HeapSpec`, `Heap`): the coalescing free ring of malloc and free.
- **Memory** (`VmSpec`, `VmCount`, `Vm`, `VmLife`, `Kalloc`): two-level page tables, page ownership, and the
  free list threaded through free pages.
- **Processes** (`ProcSpec`, `ProcSafe`, `SleepSafe`, `ProcRun`, `ProcLaws`, `ProcTable`): any number of CPUs and
  processes, ptable.lock handed over through swtch, sleep and wakeup, sleep locks.
- **Pipes** (`PipeSpec`, `Pipe`), **shell parser** (`ShellSpec`, `ShellGrammar`, `ShellLex`, `Shell`), **grep's
  matcher** (`Grep`), **Internet checksum** (`Checksum`).

Where a promise does not hold of the code, the project says exactly when it does:

- `log_write` can refuse a write that is within its operation's reservation if and only if the log
  area has at most LOGSIZE blocks (`LogBudget.AcceptedIffRoom`); mkfs makes exactly LOGSIZE
  (mkfs.c:25). The room test also comes before absorption (`LogBudget.RewriteRefused`), and without
  the lock: two operations can both pass it and overfill an area of at most LOGSIZE blocks
  (`LogBudget.OverfullIff`). A larger area has the other fault: NBUF equals LOGSIZE (param.h:11-12),
  so a commit can find every buffer pinned (`LogBudget.StarvedIff`, `BioSpec.PanicsIff`).
- `tcp_tx` never advances in the caller's buffer (tcp.c:222), so the stream is the buffer if and only
  if the buffer repeats its first MSS bytes (`TcpSpec.StreamIsBuffer`). It always drains its window
  if and only if MSS does not divide the size (`TcpCalls.CleanReturnIff`).
- `enqueue` interrupted by an acknowledgement is safe if and only if the acknowledgement stops before
  the half-made entry (`Queue.InterruptAfterFrontTest`, `Queue.InterruptBeforeStore`,
  `TcpSpec.AckInsideIff`). Otherwise `tcp_tx` can wait for ever (`TcpCalls.CallCanStrand`).
- `malloc` gives a block of the size asked for if and only if the request is at most 2^31 - 16 bytes,
  or a free block is large enough and the rounding sum does not wrap (`Heap.Allocator.Malloc`,
  `Heap.SbrkIff`, `Heap.RoomIff`).
- `growproc` keeps every page below the size mapped, except when it shrinks to exactly 0
  (`VmLife.Growproc`).
- mkfs leaves a hole at the end of the root directory if and only if the directory fills whole blocks
  (`Mkfs.RoundedIff`, `Mkfs.Make`).
- One fold per word does not always fold the checksum fully; `Checksum.UnfoldedIff` says when.
- tcp.c adds the halves of the addresses to the checksum without putting their bytes in network order
  (tcp.c:22-23, 123-124). Both ends of this stack do the same, so they agree (`Checksum.TcpVerifies`),
  but a segment passes the test of RFC 793 if and only if 257 divides the sum of the halves
  (`Checksum.TcpStandardIff`).
- The shell opens the file of `>>` as it does that of `>`, so the two give the same tree
  (`ShellGrammar.AppendIsPlain`).

## Model

| member | source | states |
|---|---|---|
| `LogSpec.EncodeHead` | log.c:101-113 | writing the header and reading it back gives the same list of block numbers |
| `LogSpec.ApplyDistinct` | log.c:69-82 | writes to distinct blocks all take effect and no other block changes |
| `LogSpec.ReplayPrefix` | log.c:69-82 | redoing an install after any part of it has run ends where one full install ends |
| `LogSpec.RecoverKeepsLog` | log.c:115-122 | until its last write recovery leaves every block of the log area alone |
| `LogSpec.RecoveredIsEmpty` | log.c:115-122 | recovery leaves an empty log, and changes no home block of a disk whose log was empty |
| `LogSpec.RecoverAfterCut` | log.c:115-122 | a recovery cut after any number of writes does not change what the next complete recovery produces |
| `LogSpec.CutRecoveries` | log.c:115-122 | any number of interrupted recoveries, each cut anywhere, leaves the result of a complete one unchanged |
| `LogSpec.HeadCommits` | log.c:177-198 | after the log copies and the header write, the log holds exactly the committed blocks and every home block is still old |
| `LogSpec.TailIsRecovery` | log.c:192-202 | what commit still has to write after the header is exactly what recovery would write |
| `LogSpec.CommitCrashAtomic` | log.c:177-202 | cut a commit after any number of its writes, then cut any number of recoveries anywhere, then recover: all home blocks old if the header had not been written, all new if it had, never mixed |
| `LogSpec.CommitComplete` | log.c:192-202 | an uninterrupted commit installs every listed block and leaves the log empty |
| `Log.Log.WriteLog` | log.c:177-190 | copies every pinned buffer to its log block, in order, and nothing else |
| `Log.Log.WriteHead` | log.c:98-113 | one disk write that makes the header list the logged blocks |
| `Log.Log.ReadHead` | log.c:84-96 | the in-memory list becomes the one in the on-disk header |
| `Log.Log.InstallTrans` | log.c:69-82 | performs exactly the install writes, in order, and unpins the installed blocks |
| `Log.Log.RecoverFromLog` | log.c:115-122 | performs exactly the writes the recovery theorems are about |
| `Log.Log.Commit` | log.c:192-202 | performs exactly the writes the crash theorems are about and leaves nothing pinned |
| `Log.Log.TryBeginOp` | log.c:124-141 | an operation starts exactly when no commit runs and its worst case fits with all reservations |
| `Log.Log.EndOp` | log.c:143-174 | committing is on afterwards exactly if no operation is left, and then the caller must commit; a commit already in progress is the only panic |
| `Log.Log.CommitOp` | log.c:164-173 | after the last operation's commit the log is as at the start and an operation may begin |
| `Log.Log.LogWrite` | log.c:214-233 | a block is listed once however often it is written; refused exactly under the source's three panic tests |
| `LogSystem.StepKeeps` | log.c:124-233 | every step of operations, commits, crashes and recoveries keeps the log's invariant while the list fits the area; log_write's tests, made without the lock, and its append are separate steps |
| `LogSystem.SerialFits` | log.c:218-229 | when no two operations are inside log_write at once, its tests alone keep the list within an area of any size |
| `LogSystem.SpaciousFits` | log.c:218-229 | so the list fits in every run on an area of more than LOGSIZE blocks, and in every run without overlapping log_writes on any area |
| `LogSystem.RunCrashSafe` | log.c:124-233 | at every moment of every run until the list outgrows the area, with any number of crashes, recovering the disk gives exactly the durable log_writes; an operation is durable as a whole or not at all, and only after it ended |
| `LogSystem.RunGroupCommit` | log.c:124-174 | over all interleavings on every area lh.n stays within LOGSIZE, listed blocks are distinct, committing implies outstanding == 0, and end_op never finds a commit in progress; while the list fits it lists home blocks only |
| `LogSystem.RunQuietDurable` | log.c:143-174 | in every run on every area, whenever no operation runs and no commit or recovery is in progress, the list is empty and every log_write is durable, and on its home block while the list fits: the last end_op always commits; a log_write outside an operation is refused |
| `LogSystem.RunBeginsIff` | log.c:124-141 | in every run an operation can begin if and only if no commit or recovery is in progress and MAXOPBLOCKS more blocks fit for it and each operation not yet ended |
| `LogSystem.RunCommitDurable` | log.c:192-202 | in every run whose list fits, when a commit is done every log_write made so far is durable |
| `LogSystem.RunWriteAccepted` | log.c:214-222 | an operation below its reservation is never refused on a log area of more than LOGSIZE blocks |
| `LogSystem.RunGoesOn` | log.c:124-233 | while the list fits, the steps' guards hide no behaviour: an operation past log_write's tests can append, any other can end, a crash can come, a recovery can go on, and a commit can go on if and only if the blocks it still has to copy leave a buffer for the log |
| `LogBudget.AcceptedIffRoom` | log.c:218-219 | some run, even without overlapping log_writes, refuses a write within the reservation if and only if the log area has at most LOGSIZE blocks, which is what mkfs makes |
| `LogBudget.RewriteRefused` | log.c:218-229 | because the room test comes before absorption, rewriting an already logged block can be refused however large the area is |
| `LogBudget.OverfullIff` | log.c:218-232 | because the tests are made without the lock, some run lists as many blocks as the area has if and only if the area has between 2 and LOGSIZE blocks |
| `LogBudget.CopyOutside` | log.c:182-186 | the log copies change no home block while the list is shorter than the area; a longer list overwrites the block behind it, where mkfs.c:102 puts the inodes |
| `LogBudget.StarvedIff` | log.c:178-190 | without overlapping log_writes a commit can find every buffer pinned if and only if the area has more than LOGSIZE blocks, so for every size either a write within the reservation or a commit can fail |
| `Bitmap.SetBitBits` | fs.c:64-71 | changing one bit of a bitmap block leaves every other bit as it was |
| `FsSpec.TakenKeeps` | fs.c:57-78 | putting a free block into an empty slot keeps the ownership invariant and every other reference |
| `FsSpec.OverwriteBytes` | fs.c:498-504 | overwriting one data block changes exactly the bytes of that block of that file |
| `FileSystem.FileSystem.Balloc` | fs.c:57-78 | the lowest free block, marked and zeroed, never a live or metadata block; fails exactly when every block is in use |
| `FileSystem.FileSystem.Bfree` | fs.c:82-95 | panics exactly on a block that is already free; otherwise clears that one bit |
| `FileSystem.FileSystem.Bmap` | fs.c:373-400 | returns the block of a file, allocating it and the indirect block if absent, with ownership kept and nothing allocated when it is present; fails if and only if fewer blocks are free than are missing |
| `FsSpace.MissingIsGrowth` | fs.c:373-400 | what bmap allocates for one turn of writei's loop is the difference between the blocks that the file's new and old reach call for |
| `FsSpace.FreePlusFiles` | fs.c:57-95 | no block is lost: in every sound file system the free blocks and those that the sizes of all files call for are together all blocks behind the metadata |
| `FsTrunc.FreeStep` | fs.c:414-431 | while itrunc runs, the next block of the inode is still in use, so bfree does not panic, and exactly the blocks done are free |
| `FsTrunc.TruncKeeps` | fs.c:408-435 | when all slots are done exactly the inode's blocks are free; ownership and references of all others are unchanged |
| `FileSystem.FileSystem.Itrunc` | fs.c:408-435 | frees exactly the blocks of one inode and leaves the file empty, its type, device and link count as they were; every other inode and file's bytes are unchanged |
| `FileSystem.FileSystem.Iget` | fs.c:241-272 | one more reference, to a fresh entry that is not read in when there was none; panics exactly when every entry is in use |
| `FileSystem.FileSystem.Ilock` | fs.c:288-312 | reads the inode in once; panics exactly on a free inode |
| `FileSystem.FileSystem.Iput` | fs.c:332-352 | drops one reference; frees the inode and exactly its blocks if and only if it is read in, has no links and this was the last reference; no other inode or file changes |
| `FileSystem.FileSystem.Ialloc` | fs.c:195-214 | the first free inode, cleared, with a reference to an entry that is not read in; panics exactly when there is none or the cache is full; no file's bytes or blocks change, and free inodes still own nothing |
| `FileSystem.FileSystem.Readi` | fs.c:453-476 | returns exactly the file's bytes from off, short at the end of the file, refuses exactly as the source does, and never allocates |
| `FileSystem.FileSystem.Writei` | fs.c:482-511 | the bytes replace [off, off + n) and extend the file, whose type, device and link count stay; no other file changes; ownership, the absence of holes and emptiness of free inodes are kept; three blocks' worth of bytes dirty at most MAXOPBLOCKS blocks; panics if and only if the file's growth needs more blocks than are free, and otherwise uses exactly that many |
| `FsWrite.TurnByte` | fs.c:498-504 | one turn of writei's loop changes exactly the bytes it writes, of any file |
| `FsWrite.ChunkFits` | file.c:151-163 | data, bitmap, indirect and inode blocks dirtied by one chunk of filewrite are at most MAXOPBLOCKS, unaligned or not |
| `FsWrite.WriteDone` | fs.c:506-509 | after the loop and the size update the file is the old one with the bytes put in, without holes |
| `FileSystem.WrittenTwice` | file.c:159-176 | two consecutive chunks amount to one write of both |
| `FileSystem.FileSystem.Filewrite` | file.c:140-180 | the buffer goes out in transactions of bounded size; it returns the length if and only if the offset is within the file and the end within the largest size, otherwise -1 with the longest run of full chunks below that size written; panics if and only if what the range checks let through needs more blocks than are free; other fields and other files are unchanged |
| `FsLife.Calls` | fs.c:195-511 | any sequence of iget, ilock, iput, ialloc, link changes, readi and writei keeps the file system valid, does call by call what their specification says, and stops short exactly at the first call that must panic; files in use that none of them writes to, relinks or puts keep every field and byte |
| `FsLife.SharedFilewrite` | file.c:140-180 | with any calls of others between the chunks: the file system stays valid, transactions stay bounded, each chunk is in the file whole when it has been written, and if the others leave the file alone the result is that of one write; it stops short only when the next chunk is refused or the reference gone, and panics only when blocks, inodes or cache entries have run out or a free inode is locked |
| `FsLife.FromImage` | mkfs.c:67-168 | the image is made if and only if the files fit; without a hole it is a valid file system and stays one through any such calls, which stop exactly at the first that must panic; a file they leave alone still holds the bytes mkfs copied in |
| `Mkfs.InodeBlocks` | fs.h:38-42 | inode blocks lie between the log and the bitmap, and two inodes share one exactly if they are in the same group of eight |
| `Mkfs.MarksBits` | mkfs.c:245-248 | after setting bits 0 to used - 1 one by one exactly those are set |
| `Mkfs.AllocatedMarked` | mkfs.c:237-251 | taking blocks in order and writing the bitmap at the end amounts to what balloc in fs.c does block by block |
| `Mkfs.Image.Iappend` | mkfs.c:255-297 | succeeds if and only if the file stays within MAXFILE blocks and the new blocks, the indirect one included, fit the image; the bytes then go to the end of the file, on blocks nobody owned; its other fields and every other file are unchanged, and there are no holes |
| `Mkfs.Image.CopyFile` | mkfs.c:152-153 | succeeds if and only if the whole file fits; copied a block at a time, the file then holds exactly the bytes read |
| `Mkfs.Image.Balloc` | mkfs.c:237-251 | writing the bitmap yields exactly the file system that the blocks handed out stand for |
| `Mkfs.RoundedIff` | mkfs.c:158-163 | rounding the root directory up past its last block leaves no hole if and only if its size was not a whole number of blocks |
| `Mkfs.Make` | mkfs.c:67-168 | succeeds if and only if the files are few enough, none is too long and all blocks fit; the image then holds the root directory and every file; each block is metadata, free or owned once; it has no hole if and only if the number of directory entries is not a multiple of 32 |
| `BioSpec.CountUpdate` | bio.c:121-141 | refcnt bookkeeping: one call changing stage changes the count of its buffer by its own weight |
| `BioSpec.StepKeeps` | bio.c:62-141 | every step of bget, bread, bwrite, brelse and log_write keeps references, identities, contents and list order in agreement |
| `BioSpec.RunAgrees` | bio.c:62-116 | in every run a valid clean unlocked buffer holds what is on disk, and no other buffer is for the same block |
| `BioSpec.RunRecyclesOldest` | bio.c:78-91 | bget recycles the clean unreferenced buffer that was released longest ago, and nobody holds its lock |
| `BioSpec.RunDirtyStays` | bio.c:79-82 | a dirty buffer keeps its block and its mark until its contents are on disk; only its holder changes them |
| `BioSpec.PanicsIff` | bio.c:78-92 | while nobody holds a buffer, bget for a block the log has not pinned panics if and only if the log has pinned as many blocks as there are buffers |
| `Bio.UnlinkKeeps` | bio.c:132-133 | two pointer writes take one buffer out and leave a doubly linked list of the others |
| `Bio.LinkKeeps` | bio.c:134-137 | four pointer writes put a buffer at the head of the list |
| `Bio.Bcache.constructor` | bio.c:39-56 | the list of all buffers in the state from which runs start |
| `Bio.Bcache.Find` | bio.c:68-76 | finds the buffer of a block by walking next, and fails only if no buffer is for the block |
| `Bio.Bcache.FindVictim` | bio.c:78-91 | finds by walking prev the last recyclable buffer of the list, and fails only if there is none |
| `Bio.Bcache.Bget` | bio.c:62-93 | one more reference to the block's buffer, or the recycled victim; panics exactly when neither exists |
| `Bio.Bcache.Drop` | bio.c:128-140 | one reference less; the last one moves the buffer to the head; the list stays a permutation of all buffers |
| `Queue.Enqueued` | queue.c:11-21 | the ring with the -1 sentinel appends to a FIFO of at most 10 and drops when full |
| `Queue.Dequeued` | queue.c:23-36 | the ring removes the front of the FIFO and nothing from an empty one |
| `Queue.IsFull` | queue.c:44-46 | true exactly when the FIFO holds QUEUE_SIZE entries |
| `Queue.GetFront` | queue.c:38-42 | the first entry of the FIFO, 0 when empty |
| `Queue.InterruptAfterFrontTest` | queue.c:11-21 | any number of dequeues after enqueue has tested front: the new entry ends up behind the survivors if and only if there is one, and on a queue that was empty if and only if the dequeues run round the ring a whole number of times |
| `Queue.InterruptBeforeStore` | queue.c:11-21 | any number of dequeues between the step of rear and the store: the entry is queued if and only if they stop before its place; otherwise rear is -1 and the store overwrites the size |
| `Queue.RingBuffer.Enqueue` | queue.c:11-21 | the array and indices in place refine the ring's append |
| `Queue.RingBuffer.Dequeue` | queue.c:23-36 | in place, refines removal of the front and returns it, -1 when empty |
| `TcpSpec.LoopIsPopped` | tcp.c:79-84 | on a ring nobody is changing the acknowledgement loop removes exactly the acknowledged front segments |
| `TcpSpec.AckInsideIff` | tcp.c:73-86 | wherever tcp_tx stands, enqueue included, an acknowledgement ends in a sound sender if and only if it does not overrun enqueue: it does when it acknowledges everything counted and the word the ring shows behind the last certain entry is a lost entry, acknowledged, or no packet |
| `TcpSpec.AckKeepsSender` | tcp.c:73-86 | an acknowledgement in time, a duplicate SYN-ACK included, has the effect on the window it should have, at any point of tcp_tx, and keeps it: contiguous from base_seq to what was packed, distinct slots, base_seq the sequence number of the front |
| `TcpSpec.FillKeepsSender` | tcp.c:226-230 | the segment is copied to a slot that the window does not use |
| `TcpSpec.EnqueueKeepsSender` | queue.c:12-18 | enqueue's first two assignments leave the window as it is |
| `TcpSpec.StoreKeepsSender` | queue.c:19-19 | enqueue's store adds the segment to the window and keeps it |
| `TcpSpec.NeverRefused` | queue.c:12-14 | enqueue is never called on a full window |
| `TcpSpec.PackWhole` | tcp.c:226-231 | uninterrupted, filling the slot and the three assignments append one segment |
| `TcpSpec.RunKeeps` | tcp.c:64-256 | all interleavings of both endpoints with loss, duplication and reordering, in which no acknowledgement overruns enqueue and no call ends in an empty segment, keep the connection invariant |
| `TcpFree.LocalFree` | tcp.c:64-256 | any step of an endpoint, overrun or not, keeps: next_seq counts the stream, every word of the ring is 0 or a packet of the stream or the one being queued, and front and rear stay in range |
| `TcpFree.RunSafe` | tcp.c:64-103 | in every state of every run, wherever acknowledgements come and whatever sizes are written, each receiver's buffer is a prefix of what the other side packed, no ACK in flight exceeds it, every segment in flight carries the right bytes |
| `TcpSpec.ReturnDelivers` | tcp.c:247-254 | with a sound window, when tcp_tx can return the peer holds every byte ever packed and the window is empty |
| `TcpSpec.RunReturnDelivers` | tcp.c:200-256 | the same for both endpoints in the runs of RunKeeps |
| `TcpLive.RunAligns` | tcp.c:77-99 | in every disciplined run the receiver expects the start of a segment, never the inside of one that is still queued, and no segment in flight could make it |
| `TcpLive.Round` | tcp.c:77-99 | wherever tcp_tx waits, sending the front segment again, taking it and acknowledging it shortens the window, whether or not the receiver already had it |
| `TcpLive.RunCanDeliver` | tcp.c:77-257 | delivery is possible: from every state of every disciplined run in which tcp_tx is in progress at either end, the run can go on until the call returns, and then the other end holds exactly what was sent before and after it every segment of the call |
| `TcpSpec.AckFits` | tcp.c:75-84 | while the stream is shorter than 2^32 - 1 bytes, the acknowledgement loop in 32-bit arithmetic does exactly what it does on unbounded integers |
| `TcpSpec.SequenceNumbersFit` | tcp.c:75-101 | for both directions of the runs of RunKeeps: no counter, sum or number in flight reaches 2^32, acknowledgements do the same in 32 bits, and a receiver never holds more than was packed |
| `TcpSpec.PackedBytesAt` | tcp.c:206-222 | byte j of a call's stream is byte j % MSS of the caller's buffer, because payload is never advanced |
| `TcpSpec.StreamIsBuffer` | tcp.c:206-222 | the stream is the caller's buffer if and only if the buffer repeats its first MSS bytes; always when it is shorter than MSS |
| `TcpSpec.LongBufferDiffers` | tcp.c:206-222 | one byte more than MSS is already enough for a buffer that is not what is sent |
| `TcpCalls.EmptyTailStays` | tcp.c:200-256 | a call whose size is a multiple of MSS can return with its empty last segment still queued |
| `TcpCalls.CleanReturnIff` | tcp.c:200-256 | the window is always empty when tcp_tx returns if and only if MSS does not divide the size |
| `TcpCalls.OverrunStrands` | tcp.c:231-254 | wherever an acknowledgement of everything counted finds the last segment of a call past the test of front, with an entry queued, the call goes on to wait for an acknowledgement that can no longer be seen |
| `TcpCalls.StrandedStays` | tcp.c:247-254 | nothing that can happen ends that wait: tcp_tx does not return and sends no data again |
| `TcpCalls.StrandedForever` | tcp.c:247-254 | so it stays in every continuation of every run |
| `TcpCalls.CallCanStrand` | tcp.c:200-256 | a run from the start that gets there: a write of MSS + 1 bytes whose first segment is acknowledged inside the second enqueue, with the last byte not received |
| `Tcp.Connection.ReceiveAck` | tcp.c:73-86 | the ACK loop in place computes the specification's window and base_seq |
| `Tcp.Connection.ReceiveData` | tcp.c:88-101 | data is appended exactly when it is the next expected; the acknowledgement sent is the one specified |
| `Tcp.Connection.QueueSegment` | tcp.c:226-232 | the copied segment and the queue in place refine packing a segment |
| `Tcp.Connection.SocketRead` | socket.c:243-258 | fails exactly on a connection that is not established; sleeps exactly when nothing is there and it has not slept yet; otherwise the next bytes of the receive buffer in order, short only at its end |
| `Heap.RoomIff` | umalloc.c:69-69 | a block of the units computed is large enough for the request if and only if the 32-bit rounding sum does not wrap |
| `Heap.SbrkIff` | umalloc.c:52-54 | sbrk is asked for the memory morecore counts on if and only if the request is at most 2^31 - 16 bytes; above that it is asked for nothing or to take memory away |
| `Heap.SbrkFails` | umalloc.c:52-54 | requests for which it is asked for 0 and for -2^31 bytes |
| `HeapSpec.BlocksApart` | umalloc.c:24-90 | two blocks, free or live, never overlap |
| `HeapSpec.FreedKeeps` | umalloc.c:24-44 | linking a block and coalescing both ways keeps the ring circular, ordered, disjoint and fully coalesced; only that block stops being live |
| `HeapSpec.SplitKeeps` | umalloc.c:78-82 | cutting the tail off a free block keeps the heap valid |
| `HeapSpec.UnlinkedKeeps` | umalloc.c:76-77 | taking a whole free block out of the ring keeps the heap valid |
| `HeapSpec.GrownKeeps` | umalloc.c:46-61 | memory from sbrk above everything else is a new live block of a valid heap |
| `Heap.Allocator.Free` | umalloc.c:24-44 | in place: the block stops being live, its units stay with the allocator, the heap stays valid |
| `Heap.Allocator.Morecore` | umalloc.c:46-61 | adds at least 4096 units, exactly those from sbrk, as free memory; changes nothing when sbrk fails; goes on with memory it was not given exactly when the product it passes is not positive |
| `Heap.Allocator.Malloc` | umalloc.c:63-90 | a block that was not live becomes live with the units asked for; free plus live units change only by what one morecore brings; if a free block is large enough it is the end of the first such one from freep on and sbrk is not asked; fails exactly if there is none and sbrk fails; when sbrk succeeds the block has the bytes asked for if and only if they are at most 2^31 - 16 or a free block was large enough for a sum that does not wrap; always ends |
| `VmSpec.WithTableKeeps` | vm.c:35-55 | a new zeroed page table keeps every entry of every virtual page and loses no page |
| `VmSpec.MapKeeps` | vm.c:60-80 | mapping a held page gives it to one virtual page of one directory |
| `VmSpec.UnmapKeeps` | vm.c:265-275 | freeing a user page and clearing its entry keeps the tables well formed and returns exactly that page |
| `VmSpec.DismantleKeeps` | vm.c:283-298 | once no user page is mapped, the directory and its tables are the only pages left to free |
| `Vm.AddressSpaces.Walkpgdir` | vm.c:35-55 | finds or makes the page table; no virtual page changes; fails only without alloc or without memory |
| `Vm.AddressSpaces.Mappages` | vm.c:60-80 | maps the whole range to consecutive pages with the permissions, everything else unchanged; works if and only if there are as many free pages as the range lacks page tables; a failed single page changes nothing |
| `Vm.AddressSpaces.Setupkvm` | vm.c:118-136 | a new directory with exactly the kernel's mappings and nothing else, if and only if there are free pages for the directory and the 136 tables they take; on failure every page is free again |
| `Vm.AddressSpaces.Allocuvm` | vm.c:221-249 | new zero pages with user and write permission over the range if and only if there are free pages for them and for the absent tables; otherwise 0 and nothing mapped, with no page lost but to page tables |
| `Vm.AddressSpaces.Deallocuvm` | vm.c:255-279 | the user pages of the range are unmapped and free and nothing else changes, although absent tables are skipped whole |
| `Vm.ShrinkSkip` | vm.c:268-270 | skipping an absent page table has the effect of going through its pages one by one |
| `Vm.AddressSpaces.Freevm` | vm.c:283-298 | exactly the pages of one address space become free; all others keep their entries and contents |
| `Vm.AddressSpaces.Copyuvm` | vm.c:315-345 | the child has the same pages, flags and contents on pages that were free before; the parent is unchanged; works if and only if the free pages cover the directory, the kernel's tables, the user tables and the pages; on failure every page is free again |
| `VmCount.EnoughTables` | vm.c:35-55 | free pages turn into page tables one for one, so the tables of a range can be had if and only if there are as many free pages as tables absent |
| `VmLife.Growproc` | proc.c:158-175 | growing works if and only if the new size is below KERNBASE and there are free pages for it; growing or shrinking touches only this address space; pages past its size stay unmapped; every page below its size stays mapped except after a shrink to exactly 0, which frees all pages, is reported as a failure and keeps the size |
| `VmLife.Fork` | vm.c:315-345 | copying a fully mapped address space works if and only if there are free pages enough; copying it and freeing the copy leaves it, all others and the free pages as they were |
| `VmLife.Lifetime` | vm.c:118-345 | setupkvm, any sequence of growproc and copyuvm with any failures, and freevm: the free pages and everything else are as before; copyuvm panics if and only if a shrink to exactly 0 came before it; setting up fails if and only if there are too few free pages |
| `Kalloc.ChainFrame` | kalloc.c:59-77 | writing to a page that is not free leaves the free list's links intact |
| `Kalloc.Kmem.Kfree` | kalloc.c:59-77 | panics exactly on misaligned or out-of-range addresses; otherwise the page heads the list, filled with junk behind its link, and no other page changes |
| `Kalloc.Kmem.Kalloc` | kalloc.c:82-95 | takes the head of the list, 0 exactly when it is empty; the page is not on the list any more |
| `Kalloc.Kmem.Freerange` | kalloc.c:46-53 | every whole page of the range is put on the list, once |
| `ProcSafe.CpuKeepsCpu` | proc.c:322-392 | scheduler, swtch and lock hand-over keep: a CPU on a process's stack either runs it, or is leaving it with ptable.lock held |
| `ProcSafe.ExitKeepsParent` | proc.c:227-268 | exit leaves no process with a zombie as parent |
| `ProcSafe.ExitKeepsWait` | proc.c:250-265 | exit wakes every parent, old or new, that sleeps in wait and gets a zombie child |
| `ProcSafe.ForkKeepsFork` | proc.c:180-222 | an entry being set up by fork, without the lock, belongs to that fork alone |
| `ProcRun.StepKeeps` | proc.c:73-515 | every step of every process and scheduler keeps the whole invariant |
| `ProcRun.RunStacks` | proc.c:322-382 | in every run no kernel stack is in use by two CPUs, every stack in use is allocated, and sched's tests of ptable.lock and RUNNING cannot fail |
| `ProcRun.RunCpuGoesOn` | proc.c:322-413 | the steps' guards hide no behaviour: a CPU can always go on unless another CPU holds ptable.lock |
| `ProcRun.RunFreesIdleStack` | proc.c:272-297 | no step frees a kernel stack that some CPU is on |
| `ProcRun.RunZombieParent` | proc.c:227-268 | every live or zombie process but init has a live parent |
| `ProcRun.RunWaitNotStranded` | proc.c:272-312 | nobody sleeps in wait while a child of theirs is a zombie, and init never is one |
| `SleepSafe.SleepReleaseKeepsSleep` | proc.c:435-441 | releasing the condition's lock once ptable.lock is held loses nothing |
| `SleepSafe.WakeupKeepsSleep` | proc.c:475-492 | after wakeup nobody waits on the channel, not even between giving up the lock and falling asleep |
| `ProcRun.RunNoLostWakeup` | proc.c:417-492 | a process that found a condition false, after which it was made true and wakeup ran, is not asleep on it, for any number of processes, CPUs and steps in between |
| `ProcRun.RunNotStranded` | proc.c:417-492 | a process asleep on a true condition will be woken: whoever made it true still holds its lock and has wakeup ahead |
| `ProcRun.RunSleeplock` | sleeplock.c:22-53 | a sleep lock has at most one holder, is locked exactly when it has one, and holdingsleep is true of exactly that process |
| `ProcLaws.RunStates` | proc.c:73-517 | in every run a table entry changes its state exactly along the arrows of proc.h and only by the step behind each: nothing but its own yield, sleep, wait and exit stops a running process, nothing but the scheduler starts a runnable one, only its parent reaps a zombie |
| `ProcLaws.RunSleeper` | proc.c:475-517 | in every run a process asleep on a channel stays asleep on it unless the step is the wakeup of that channel, an exit that wakes it as parent or as init, or a kill of it; each of these makes it runnable |
| `ProcLaws.RunSleepsOn` | proc.c:475-517 | so over any stretch of a run without such a step it is still asleep on that channel |
| `ProcLaws.RunSleepsOnTested` | proc.c:417-470 | in every run a process that found a condition false and tests nothing else falls asleep on that condition's channel when it goes to sleep, whatever happens in between |
| `ProcLaws.RunKilled` | proc.c:497-517 | in every run a process is marked killed exactly from a kill of it until it is reaped, and a kill leaves it awake |
| `ProcLaws.RunParent` | proc.c:180-312 | in every run a process gets a parent when fork sets it, passes to init exactly when that parent exits, and loses it exactly when reaped |
| `ProcTable.Table.Wakeup1` | proc.c:475-483 | the scan changes no entry but sleepers on the channel and leaves none of them asleep |
| `ProcTable.Table.AbandonChildren` | proc.c:255-262 | the scan passes exactly the children to init and wakes it exactly if one is a zombie |
| `ProcTable.Table.Exit` | proc.c:250-265 | the critical section of exit in place is the step of the system |
| `ProcTable.Table.Wait` | proc.c:277-310 | clears the first zombie child exactly if there is one; otherwise leaves the table alone, and sleeps exactly if there are children and the caller is not killed |
| `ProcTable.Table.Allocproc` | proc.c:80-92 | the first unused entry becomes an embryo, none exactly if there is none |
| `ProcTable.Table.Schedule` | proc.c:334-345 | the next runnable entry starts running and no other changes |
| `ProcTable.Table.Kill` | proc.c:497-517 | marks the first process with the id and wakes it if it sleeps, changing no other entry; -1 exactly if there is none |
| `ProcTable.KillIsStep` | proc.c:497-517 | kill is the step of the system for the entry it finds, or none |
| `ProcTable.ScheduleIsStep` | proc.c:334-345 | the search finds an entry exactly if the system can switch to one from there on, and is that step |
| `ProcTable.AllocIsStep` | proc.c:80-92 | allocproc finds an entry exactly if fork's first step is possible, and is that step |
| `ProcTable.WaitIsStep` | proc.c:277-310 | one pass of wait is a step of the system or none: when it reaps, that step is possible and leaves the same table; it sleeps exactly when that step is possible; it gives up exactly when neither is |
| `PipeSpec.TestsExact` | pipe.c:85-106 | the 32-bit tests for full and empty are exact in spite of wrap-around |
| `PipeSpec.SlotsApart` | pipe.c:93-116 | because PIPESIZE divides 2^32, fewer than PIPESIZE consecutive counter values name distinct slots, wrap-around included |
| `PipeSpec.PutContents` | pipe.c:93-93 | storing a byte appends it to the pending bytes |
| `PipeSpec.GetContents` | pipe.c:116-116 | fetching a byte removes the oldest pending byte |
| `PipeSpec.RunFifo` | pipe.c:78-121 | for any readers and writers in any interleaving the bytes read are a prefix of those written, at most PIPESIZE are pending, and each call's bytes keep their order |
| `PipeSpec.RunEndOfFile` | pipe.c:106-120 | a read returns nothing only if all that was written has been read and the pipe is closed for writing |
| `Pipe.Pipe.WriteTurn` | pipe.c:79-98 | between sleeps, in place, as many bytes as fit; it returns, fails or sleeps exactly as specified |
| `Pipe.Pipe.ReadTurn` | pipe.c:101-121 | in place, the oldest pending bytes, at most n, exactly if there are any or the pipe is closed for writing; otherwise it fails exactly if killed and sleeps if not |
| `Pipe.Pipe.Close` | pipe.c:59-75 | closes one end; the pipe can be freed exactly when both are closed |
| `Shell.Gettoken` | sh.c:265-308 | kind, extent and end of exactly the next token of the line |
| `Shell.Peek` | sh.c:310-320 | skips white space and tells whether the next character is one of the given ones |
| `Shell.Parseredirs` | sh.c:374-397 | takes the redirections the grammar takes and stops where it stops, or misses a file name exactly when it does |
| `Shell.Parseexec` | sh.c:415-446 | returns the grammar's tree and position, or panics exactly when the grammar does |
| `Shell.Parseblock` | sh.c:399-413 | the same for parenthesised lines |
| `Shell.Parsepipe` | sh.c:361-372 | the same for pipelines |
| `Shell.Parseline` | sh.c:344-359 | the same for lines; the mutual recursion ends on every input |
| `ShellSpec.ParsePrinted` | sh.c:344-446 | at every level of the grammar, parsing a printed tree before anything that may follow gives the tree back |
| `ShellLex.LexRendered` | sh.c:265-308 | reading a line of tokens separated by blanks gives the same tokens |
| `ShellLex.LexIff` | sh.c:265-308 | the tokens of a line are the only ones it spells, with any blanks, which are needed only between two words and behind > |
| `ShellGrammar.RedirsTaken` | sh.c:374-397 | parseredirs takes all redirections at hand, with <, > or >>, in order and no more |
| `ShellGrammar.ParseIff` | sh.c:344-446 | the parser is the grammar: at every level it reads a command up to some point if and only if the tokens up to there are a phrase with that meaning, redirections anywhere among the arguments, which cannot be continued; so it panics exactly where no phrase begins |
| `ShellGrammar.AppendIsPlain` | sh.c:374-397 | a line with >> is read as the same line with >: same tree, same end, or a panic either way |
| `ShellLex.RoundTrip` | sh.c:327-446 | printing any command tree, with parentheses only where precedence needs them, and parsing the text returns the same tree |
| `Shell.Nulterminate` | sh.c:449-493 | writes a terminator behind every word of the tree and changes nothing else |
| `Shell.WordsReadBack` | sh.c:449-493 | with all terminators in place every argument and file name reads back as its own token |
| `Shell.Parsecmd` | sh.c:327-342 | the tree of the whole line, or a panic exactly if the grammar rejects it or leaves something over; its words are C strings of the buffer |
| `Grep.ParseIff` | grep.c:84-106 | a pattern is read as the pieces it is written with, and as no others |
| `Grep.FitsFront` | grep.c:84-96 | a stretch of text put before a match of the rest is a match |
| `Grep.StarFirst` | grep.c:98-106 | a starred character matches if and only if some run of it is followed by a match of the rest |
| `Grep.Matchhere` | grep.c:84-96 | true if and only if stretches of text for all pieces of the pattern lie end to end at the start of the text |
| `Grep.Matchstar` | grep.c:98-106 | true if and only if some run of the character is followed by a match |
| `Grep.Match` | grep.c:72-82 | true if and only if the pattern matches somewhere, at the start if it begins with ^, up to the end if it ends with $ |
| `Checksum.Checksum` | netutils.c:54-68 | the loop over bytes computes the fold over memory-order words, odd last byte included |
| `Checksum.FoldedCongruent` | netutils.c:54-68 | the folded sum is congruent to start plus the word sum modulo 65535 and is 0 only if they are |
| `Checksum.UnfoldedIff` | netutils.c:54-68 | one fold per word leaves something to fold if and only if the first two words sum to 0x1ffff after the first fold and every word after them is 0xffff; with fewer words, by their arithmetic |
| `Checksum.FullyFolded` | netutils.c:54-68 | so nothing is left from a start below 0x10000, nor when some word after the first two is 0 |
| `Checksum.NotFullyFolded` | netutils.c:54-68 | words for which a carry is left that the 16-bit result drops |
| `Checksum.SealVerifies` | netutils.c:54-68 | a packet sealed with its checksum verifies to 0 |
| `Checksum.IpVerifies` | ip.c:61-74 | every header ip_send seals passes ip_receive's test |
| `Checksum.TcpVerifies` | tcp.c:106-130 | every segment tcp_pack seals passes tcp_receive's test at the other end, thanks to the zero urgent pointer |
| `Checksum.TcpStandardIff` | tcp.c:122-128 | a segment tcp_pack seals passes the test of RFC 793 if and only if 257 divides the sum of the halves of the two addresses, because these are added in host order |
| `Checksum.PseudoCongruentIff` | tcp.c:20-25 | the pseudo-header sum agrees with the one of section 3.1 of RFC 793 modulo 65535 if and only if 257 divides that sum |
| `Checksum.Htons` | netutils.c:11-20 | the byte loop swaps the two bytes: byte i of the result is byte 1 - i |
| `Checksum.Htonl` | netutils.c:22-31 | the byte loop reverses the four bytes: byte i of the result is byte 3 - i |
| `Checksum.SwapTwice` | netutils.c:11-31 | both conversions undo themselves |

## Left out

- Device drivers, interrupt controllers, PCI, boot code and assembly: hardware effects; a block transfer and a locked exchange are taken as primitives.
- spinlock.c's pushcli, popcli and the interrupt flag: a spin lock is an atomic acquire and release, and sched's test of ncli is the condition that no other lock is held.
- sleepnolock, and liveness of connect and accept: there is no condition lock, so a reply can come before the sleep; of a connection that is being opened only safety is stated.
- Fairness (that a runnable process runs, that a retransmission arrives): the theorems are about what every reachable state satisfies and, for tcp_tx and the log, about what can still happen from it; ticks and timeouts are steps that may happen at any time.
- Sequence numbers are unbounded in `TcpSpec`; `SequenceNumbersFit` says up to where the 32-bit counters agree with it, and how much the one-page receive buffer must hold. There is one writer per connection, as the code assumes.
- An acknowledgement interrupt is one step. The network card interrupts CPU 0 (rtl8139.c:213) and `tcp_tx` may run on another CPU, where the two would interleave more finely.
- A list that has outgrown the log area is not committed in `LogSystem`: the guard of `End` stops the run there, and `LogBudget.CopyOutside` says what the commit would do.
- What an acknowledgement that overruns `enqueue` does when the loop meets a word that is not the address of a queued packet, or never stops: no step stands for it. A store to A[-1] is not followed further.
- The pool of pending connection requests in tcp_receive, ports and several connections at once: SYN requests are passed by value for one connection.
- TCP options and malformed segments: segments have the header this stack sends.
- Log's buffers: in `Log` and `LogSystem` a clean buffer shows the disk and a pinned one its own contents. The cache provides this (`BioSpec.RunAgrees`, `BioSpec.RunDirtyStays`) only while lh.n < NBUF and readers outside the log leave a buffer for it; `CommitWrite` has the first as its guard, the second is taken for granted.
- Calls into fs.c run one at a time in `FileSystem` and `FsLife`: inode locks are taken as given. In `FileSystem` no other writer comes between the chunks of filewrite, although the inode lock is released there (file.c:165-170); `FsLife.SharedFilewrite` lets any calls come there.
- Device files in readi and writei, directories and path names beyond what mkfs writes, and the byte layout of inode blocks.
- mkfs past its last inode or past the end of the image, which it does not notice: the model stops there.
- A full disk in the middle of writei, and every other panic: the model stops there, as the kernel does, with what holds at that point.
- What `malloc` does to memory it was not given: the model stops there with the heap as it was.
- Page contents of free pages in `Vm` are the fill pattern; the link in their first word is in `Kalloc`. Sizes are at most KERNBASE, as exec and growproc ensure.
- switchuvm, loaduvm, inituvm, clearpteu, copyout and the segment registers.
- Process names, open files and the trap frame. Process ids are no part of the table: `ProcTable.Table.Kill` gets them as a column, and the system's kill names an entry, which can only allow more.
- exit is called without sleep locks and outside fork, as the system calls do; a process changes a condition only under its lock and calls wakeup before it lets go, as releasesleep, the pipe and the log do.
- A holder that changes a buffer calls log_write or bwrite before brelse, as all callers in fs.c and log.c do.
- The shell's nodes are values: the arguments of a command are collected and its tree is put together at the end, while the source fills the argument slots of a node already linked under redirections. Running commands is left out.
- grep's line buffer, command-line handling, console, printf and the other user programs.
- ARP, ICMP, Ethernet framing, routing and inet_addr.
- Pipe.Pipe.WriteTurn: one turn of pipewrite under the pipe's lock; sleep and wakeup between turns are covered by `ProcRun`.
