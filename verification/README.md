# A model of the AESD character device and its socket server

The AESD character device keeps the last ten newline-terminated writes in kernel
memory. Writes that do not end in a newline pile up in a pending entry; a write that
does commits the pending bytes as one entry of a ten-slot ring and frees the entry it
pushes out. Reads and seeks address the ten entries as one byte string. A socket server
sits on top: each connection appends what it receives, through its first newline, and
gets the device's content back.

The project models the ring, the driver with its kernel memory and its lock, the system
calls, and the server's connections, and proves what holds of them over every run.

## How it is built

| file | contents |
|---|---|
| `Bytes.dfy`, `Pointers.dfy`, `Positions.dfy` | concatenation; addresses; positions in it; the driver's 32-bit lookup against the mathematical one |
| `CircularBuffer.dfy` | the ring, a class over a real array with its two cursors and a ghost history |
| `KernelHeap.dfy`, `Ownership.dfy` | kernel memory as addresses and blocks; who owns which block |
| `DeviceSpec.dfy` | the device as its users see it: one `Step` per system call |
| `DeviceRuns.dfy`, `Readers.dfy`, `CallLaws.dfy` | theorems over every run of system calls, and over every single one |
| `DeviceMemory.dfy`, `CharDevice.dfy`, `Vfs.dfy` | the driver, updating ring, memory, pending entry and lock in place, proved to take exactly the steps of `DeviceSpec` |
| `Extraction.dfy`, `Framing.dfy` | extraction from chunks; any number of connections interleaving chunk by chunk |
| `Delivery.dfy` | exactly when everything the connections send is stored, and what is stored when it is not |
| `Packets.dfy` | which packets arrive whole, which schedules mix them, which replies still contain them, when every write fits |
| `SocketServer.dfy` | the server's own loops, on top of the driver |
| `ThreadList.dfy`, `ThreadRuns.dfy` | the thread list and its pruning; every run of the accept loop |

`CharDevice.Device` and `Vfs.Kernel` carry the whole pointer-level state. Their contracts
say that each operation is the step of `DeviceSpec` with the same name, so every theorem
over `Run` holds of the driver. Preconditions on `Kfree`, `Store` and array accesses make
double frees, writes outside a block and uses of freed blocks proof obligations.

## What is assumed

- Everything the kernel and the C library decide is an input: whether an allocation
  succeeds, how many bytes a user copy moves, whether a wait is interrupted, how `recv`
  cuts the stream, how stdio cuts a text into writes, what `sscanf` reads. This holds of
  the server's own writes, too: each has its own answer from the kernel.
- stdio tries each of its pieces once. When it tries the rest of a write again after a
  short count, the part that was written and the rest are two pieces; a piece that it
  gives up on is one that was interrupted, which leaves the device as it is.
- No allocation above a limit M succeeds, for an arbitrary M with 10 * M < 2^31. An
  allocation returns any address not in use.
- When a user copy stops short, the rest of the kernel buffer reads as zero.
- A write has at least one byte: the driver looks at the last byte of its buffer.
- A call that waits for a lock nobody will release never returns (`Hung`).
- There is one device. Operations on it are atomic, because each holds the device lock
  from its first access to its last.
- Server side: a chunk is shorter than `BUFFER_SIZE`, and `malloc` and `fopen` succeed.
- Byte order is little-endian.

## Where the code does not do what one would expect

Each of these is modelled as the code has it, and proved with its exact condition.

- The lookup's early exit and its `int` totals: `Positions.ScanCorrectIff`. The write
  path keeps the condition in every reachable state: `DeviceMemory.WalkFacts`.
- Only one byte of the seek argument reaches the driver, four bits for each number:
  `Readers.SeekRoundTripIff`.
- A seek with a command of ten or more leaves the device locked for good:
  `DeviceRuns.LockedIff`, `DeviceRuns.LockedFreezes`, `Readers.SeekLocksIff`;
  `DeviceRuns.LockingRun` is such a run.
- A failed merge leaves one block behind: `DeviceRuns.LeaksOverRuns`, in terms of the
  guard of the failing branch; `DeviceRuns.LeakingRun` is such a run.
- The server does not notice that a write was refused, and loses its bytes:
  `Delivery.StoredIff` for all connections together and `Delivery.ConcurrentFraming` for
  each of them; `Delivery.LosingRun` is such a run.
- A NUL byte loses the rest of its chunk: `Extraction.ChunkingIndependentIff`, about the
  bytes that `SocketServer.LoopSends` shows the receive loop to hand over.
- A chunk of one connection can end up in the entry of another:
  `Packets.EntryIsPacketIff`, in terms of what was stored since the last newline;
  `Packets.UndisturbedIff` says which schedules keep a packet whole, and
  `Packets.InterposedChunkMixes` is the shortest one that does not, from the loaded module
  in `Packets.MixedRun`.
- A reply need not contain the packet it answers: `Packets.EchoIff`.
- A reader is not told about evictions: between two reads in a row it misses as many
  bytes as were evicted, `Readers.ReadsNeverOverlap`, and these need not be the evicted
  ones, `Readers.ReaderSkips`.
- A seek command that follows data leaves that data in front of the next connection's
  packet: `SocketServer.SeekLeavesData`; `SocketServer.SeekDataRun` is such a run.

The comments on the lookup promise NULL only for positions beyond the data, and those on
the seek structure promise any 32-bit offset; the code is followed in both cases.

## Model

| member | source | states |
|---|---|---|
| `Positions.LocateIff` | aesd-char-driver/aesd-circular-buffer.c:38-45 | the mathematical lookup returns block k, offset i exactly for the position "all sizes before k, plus i" |
| `Positions.LocateMissIff` | aesd-char-driver/aesd-circular-buffer.c:44-45 | it returns nothing exactly at or past the total size |
| `Positions.LocateByte` | aesd-char-driver/aesd-circular-buffer.c:39-43 | the byte it finds is the byte at that index of the concatenation |
| `Positions.LocateSlice` | aesd-char-driver/main.c:85-87 | and so is every slice from there to the end of its block |
| `Positions.ScanIsLocate` | aesd-char-driver/aesd-circular-buffer.c:53-73 | the 32-bit scan with its early exit equals the mathematical lookup when the first block is nonempty and the total is below 2^31 |
| `Positions.ScanOverflow` | aesd-char-driver/aesd-circular-buffer.c:63-71 | past 2^31 there is always a position that is looked up wrongly |
| `Positions.ScanCorrectIff` | aesd-char-driver/aesd-circular-buffer.c:53-73 | the scan is right for every position if and only if nothing is stored, or the oldest block is nonempty and the total is below 2^31 |
| `Positions.ScanIff` | aesd-char-driver/aesd-circular-buffer.c:53-73 | what the scan finds for any sizes, overflowing or not, told from the truncated totals alone |
| `Positions.SizeArithmetic` | aesd-char-driver/aesd-circular-buffer.c:66-69 | the conversion of an int to size_t and the subtraction of one, modulo 2^64 |
| `Positions.ScanUndoesPosition` | aesd-char-driver/aesd-circular-buffer.c:47-94 | looking up the 32-bit position of (k, i) finds (k, i) |
| `Positions.PositionUndoesScan` | aesd-char-driver/aesd-circular-buffer.c:47-94 | the 32-bit position of what a lookup finds is the position looked up |
| `CircularBuffer.SlotHolds` | aesd-char-driver/aesd-circular-buffer.c:119-129 | after any additions, number j of the last ten is in slot j mod 10 |
| `CircularBuffer.SlotUnwritten` | aesd-char-driver/aesd-circular-buffer.c:160-163 | slots never written are still zero |
| `CircularBuffer.RotatedIsLast` | aesd-char-driver/aesd-circular-buffer.c:56-62 | walking ten slots from the read cursor meets the last ten additions in order, then only zeros |
| `CircularBuffer.PhysicalIsLogical` | aesd-char-driver/main.c:285-289 | the sum over slots 0 to 9 that skips null pointers is the size of the last ten additions, at every rotation and fill level |
| `CircularBuffer.Ring.constructor` | aesd-char-driver/aesd-circular-buffer.c:160-163 | an empty ring |
| `CircularBuffer.Ring.AddEntry` | aesd-char-driver/aesd-circular-buffer.c:103-155 | the history grows by the entry; cursors and full flag keep their closed form; the pointer returned is the one added exactly ten additions earlier, or NULL before that |
| `CircularBuffer.Ring.FindEntryOffsetForFpos` | aesd-char-driver/aesd-circular-buffer.c:47-74 | slot and offset are those of the 32-bit scan over the walk, and the slot holds that live entry |
| `CircularBuffer.Ring.GetFpos` | aesd-char-driver/aesd-circular-buffer.c:76-94 | the sizes of the first entries plus the offset, modulo 2^32, for every argument |
| `CircularBuffer.Ring.TotalSize` | aesd-char-driver/aesd-circular-buffer.h:76-79 | the physical-order sum |
| `KernelHeap.Heap.Kmalloc` | aesd-char-driver/main.c:132-136 | NULL exactly when refused or above the limit, otherwise a block at an unused address |
| `KernelHeap.Heap.Kfree` | aesd-char-driver/main.c:184-187 | only a live block can be freed, and it is gone |
| `KernelHeap.Heap.KmallocFrom` | aesd-char-driver/main.c:132-139 | a new block holding the copied bytes |
| `KernelHeap.Heap.Join` | aesd-char-driver/main.c:166-187 | a new block holding the old bytes and then the new ones; both old blocks freed; or no change at all |
| `KernelHeap.OverlayTwice` | aesd-char-driver/main.c:173-180 | the two copies fill the block with exactly the concatenation |
| `Ownership.MergeBlocks` | aesd-char-driver/main.c:182-191 | merging keeps one owner per block and all ring contents |
| `Ownership.CommitRoom` | aesd-char-driver/main.c:251-260 | so does a commit into a ring with room |
| `Ownership.CommitFull` | aesd-char-driver/main.c:251-260 | so does a commit that evicts; the evicted block is live and owned by nobody else |
| `Ownership.BlockCount` | aesd-char-driver/main.c:131-261 | live blocks, counted by owner |
| `DeviceMemory.StepSound` | aesd-char-driver/main.c:152-261 | every memory step of the write path keeps ownership, contents and size bounds |
| `DeviceMemory.ReachedSound` | aesd-char-driver/main.c:109-272 | so they hold after every sequence of such steps |
| `DeviceMemory.MemoryCount` | aesd-char-driver/main.c:131-261 | in every reachable state: live blocks = ring entries + 1 if something is pending + leaks |
| `DeviceMemory.NoSharing` | aesd-char-driver/main.c:156-261 | a live ring entry has a live block of its own: not the pending entry's, not a lost one, not another ring entry's |
| `DeviceMemory.PendingAlone` | aesd-char-driver/main.c:156-197 | the pending entry's block is live and not a lost one |
| `DeviceMemory.WriteJoins` | aesd-char-driver/main.c:152-263 | allocate, take or merge, and commit on newline, is the specified write |
| `DeviceMemory.WriteFails` | aesd-char-driver/main.c:166-170 | a failed merge changes nothing and leaves one block behind |
| `DeviceMemory.WalkFacts` | aesd-char-driver/aesd-circular-buffer.c:56-72 | in every reachable state the walked sizes are those of the last ten entries, sum to the content, and meet the condition of `ScanCorrectIff` |
| `DeviceMemory.LookupMatches` | aesd-char-driver/main.c:75-77 | in every reachable state the driver's scan is the mathematical lookup |
| `DeviceMemory.EntryFound` | aesd-char-driver/main.c:85-86 | the entry found points to a live block with the right bytes |
| `DeviceMemory.FposMatches` | aesd-char-driver/main.c:330-334 | with decoded arguments nothing is lost in 32 bits |
| `DeviceMemory.FindUndoesFpos` | aesd-char-driver/aesd-circular-buffer.c:47-94 | in every reachable state, the driver's lookup of its own 32-bit position of byte i of live entry k finds exactly (k, i) |
| `DeviceMemory.FposUndoesFind` | aesd-char-driver/aesd-circular-buffer.c:47-94 | in every reachable state, the driver's 32-bit position of what it finds at any readable position is that position |
| `DeviceMemory.PhysicalMatches` | aesd-char-driver/main.c:285-291 | the size given to the seek is the size of the content |
| `CharDevice.Device.constructor` | aesd-char-driver/main.c:411-422 | an empty, unlocked device |
| `CharDevice.Device.Receive` | aesd-char-driver/main.c:131-139 | a block of its own for the new bytes, zero-padded after a short copy |
| `CharDevice.Device.Join` | aesd-char-driver/main.c:156-197 | take over or merge; on refusal nothing changes |
| `CharDevice.Device.AddAndFree` | aesd-char-driver/main.c:211-215 | the pending entry joins the ring; the block it evicts is freed |
| `CharDevice.Device.CommitPending` | aesd-char-driver/main.c:251-260 | the same, and the pending entry is cleared |
| `CharDevice.Device.FinishWrite` | aesd-char-driver/main.c:251-271 | commit on a newline, nothing otherwise, and the lock released |
| `CharDevice.Device.WriteHeld` | aesd-char-driver/main.c:131-271 | the four branches and both failure exits are the specified write, and each releases the lock |
| `CharDevice.Device.Write` | aesd-char-driver/main.c:109-272 | new state, result and position are those of the specification |
| `CharDevice.Device.Find` | aesd-char-driver/main.c:74-83 | found exactly below the content's size, and then the right block and offset |
| `CharDevice.Device.ReadHeld` | aesd-char-driver/main.c:74-106 | the bytes of the specified read; every exit unlocks |
| `CharDevice.Device.Read` | aesd-char-driver/main.c:53-107 | the specified read; the device is unchanged |
| `CharDevice.Device.Llseek` | aesd-char-driver/main.c:274-300 | the specified seek, against the size of the content |
| `CharDevice.Device.AdjustFileOffset` | aesd-char-driver/main.c:302-341 | position of the decoded pair; locked on return exactly when the command is ten or more |
| `CharDevice.Device.Ioctl` | aesd-char-driver/main.c:343-368 | wrong command, failed copy, interruption and seek, as specified |
| `CharDevice.Device.LiveBlocks` | aesd-char-driver/main.c:131-261 | the number of live blocks in any state of the driver |
| `Vfs.Kernel.Syscall` | aesd-char-driver/main.c:370-379 | each system call on the driver is one `Step` of the specification |
| `CallLaws.OpenStarts` | aesd-char-driver/main.c:32-42 | opening gives a file at position zero and changes nothing else |
| `CallLaws.OtherFilesStay` | aesd-char-driver/main.c:96-98 | no call moves any other file |
| `CallLaws.InterruptedStays` | aesd-char-driver/main.c:70-72 | on an open file, each call that takes the lock answers an interruption with its own code, and changes nothing, whether the device is locked or not |
| `CallLaws.LockedWaits` | aesd-char-driver/main.c:70-72 | on a locked device each of them waits for ever and changes nothing |
| `CallLaws.WriteAnswers` | aesd-char-driver/main.c:131-271 | exactly which writes are refused, and with what; all others report what could be copied, and that is stored |
| `CallLaws.WriteMoves` | aesd-char-driver/main.c:161-244 | every write on an open file moves it by exactly as many bytes as the store grows |
| `CallLaws.FilePosition` | aesd-char-driver/main.c:96-244 | over every run a file used for reads and writes ends where it began, plus the bytes delivered, plus the bytes accepted through it |
| `CallLaws.ReadGives` | aesd-char-driver/main.c:74-106 | exactly how much every read gives: as much as asked for up to the end of the entry that its position is in; nothing at or past the end; an error if the caller cannot take it |
| `CallLaws.IoctlAnswers` | aesd-char-driver/main.c:343-368 | an ioctl on an open file succeeds if and only if it is a seek command that reaches an unlocked device with a command below ten; the error of every other case |
| `CallLaws.IoctlLocks` | aesd-char-driver/main.c:302-368 | it stores nothing, and locks the device exactly when it reaches it with a command of ten or more |
| `CallLaws.SeekGoes` | aesd-char-driver/aesd-circular-buffer.c:76-94 | where a seek goes: the offset behind the entries before the command, or behind the content if there are fewer |
| `CallLaws.IoctlMoves` | aesd-char-driver/main.c:302-368 | it moves its file exactly when it succeeds, to the offset and command that the two halves of the byte hold |
| `DeviceRuns.RunInv` | aesd-char-driver/main.c:152-261 | in every run every entry is nonempty, ends in a newline and is within the allocation limit; the pending bytes are within that limit, too |
| `DeviceRuns.LookupOverRuns` | aesd-char-driver/aesd-circular-buffer.c:61-73 | in every run the 32-bit scan finds nothing exactly past the content, and otherwise the byte of the content at that position |
| `DeviceRuns.RunIsFraming` | aesd-char-driver/main.c:109-272 | from any state, with any failures and any other calls in between, history and pending bytes are the successful writes cut after each terminated one |
| `DeviceRuns.FramingConserves` | aesd-char-driver/main.c:172-191 | that cutting loses, duplicates and reorders nothing |
| `DeviceRuns.Conservation` | aesd-char-driver/main.c:109-272 | over every run: entries and pending bytes are the accepted bytes in order, one entry per terminated write, and the content is what was not overwritten |
| `DeviceRuns.SplitWriteIff` | aesd-char-driver/main.c:152-261 | replacing a write by two leaves the same state, positions and leaks included, if and only if the first half does not end in a newline |
| `DeviceRuns.FragmentsAreOneWrite` | aesd-char-driver/main.c:152-261 | any number of fragments act as one write |
| `DeviceRuns.LockedIff` | aesd-char-driver/main.c:309-337 | the lock is held between calls if and only if some earlier call was a seek with an out-of-range command |
| `DeviceRuns.LockingRun` | aesd-char-driver/main.c:309-337 | a run of two calls after which every read hangs, whatever is called in between |
| `DeviceRuns.LockedFreezes` | aesd-char-driver/main.c:324-327 | from then on no byte, position or leak ever changes |
| `DeviceRuns.LockedStops` | aesd-char-driver/main.c:69-72 | and every read, write, llseek and seek ioctl on an open file hangs, unless it is interrupted, with the result of its own interruption |
| `DeviceRuns.LeakResults` | aesd-char-driver/main.c:165-170 | the writes that lose a block, told from arguments and state, are those that fail with ENOMEM after a block was granted, and those that copy nothing into an empty pending entry |
| `DeviceRuns.LeaksOverRuns` | aesd-char-driver/main.c:131-170 | blocks lost over any run: one per write that finds bytes pending and no block to merge them in, and one per write that copies nothing into an empty pending entry, save the one still pending; both told from the call's arguments and the state before it |
| `DeviceRuns.LeaksAreFailedMerges` | aesd-char-driver/main.c:165-170 | exactly the failed merges when every user copy completes |
| `DeviceRuns.LeaksStay` | aesd-char-driver/main.c:165-170 | a lost block is never recovered |
| `DeviceRuns.LeakingRun` | aesd-char-driver/main.c:165-170 | a run of three calls that loses a block for good |
| `Readers.ReadIsSlice` | aesd-char-driver/main.c:74-98 | a read returns the content at its position, and nothing exactly at or past the end |
| `Readers.CommitShifts` | aesd-char-driver/aesd-circular-buffer.c:132-150 | an evicting commit drops the oldest entry from the content and moves every other byte down by its size |
| `Readers.ReaderStability` | aesd-char-driver/main.c:74-98 | reads through one file, with anybody's calls in between that evict nothing, deliver exactly one slice of the final content |
| `Readers.ReaderProgress` | aesd-char-driver/main.c:74-98 | in every run, each read through one file gives what the whole history holds at its place, and starts where the read before it ended plus the total size of the entries evicted in between |
| `Readers.ReadsNeverOverlap` | aesd-char-driver/main.c:96-98 | any two reads through one file lie apart in the history and in order, so no byte is given twice; two in a row abut if and only if nothing was evicted in between, and otherwise miss as many bytes as were |
| `Readers.SpansDeliver` | aesd-char-driver/main.c:89-98 | the bytes a reader is given are those of these reads |
| `Readers.SkipsEntry` | aesd-char-driver/main.c:74-98 | in any full ring, one commit makes a reader that has read the oldest entry skip the next one of the same size, which is still readable |
| `Readers.ReaderSkips` | aesd-char-driver/main.c:74-98 | a run from the loaded module in which this happens |
| `Readers.ReadsComeFromHistory` | aesd-char-driver/main.c:74-98 | whatever any read of any run returned is a slice of the final history |
| `Readers.ReadToEnd` | aesd-char-driver/main.c:53-107 | reading with any positive counts until nothing comes delivers exactly the content from the position on |
| `Readers.ReadsAdvance` | aesd-char-driver/main.c:87-98 | such a loop ends |
| `Readers.LlseekThenReadToEnd` | aesd-char-driver/main.c:274-300 | reading to the end after a successful seek, whatever its whence, delivers the content from the target on |
| `Readers.SeekRoundTripIff` | server/aesdsocket.c:146-152 | both numbers survive packing, the one-byte copy and unpacking if and only if each fits four bits |
| `Readers.SeekDecodes` | server/aesdsocket.c:146-152 | for every pair, what arrives: the low four bits of the offset, and the low four bits of the command merged with the next four of the offset |
| `Readers.SeekLocksIff` | aesd-char-driver/main.c:317-327 | exactly which pairs leave the device locked |
| `Readers.DropSeek` | aesd-char-driver/aesd-circular-buffer.c:85-91 | seeking is dropping whole entries, then bytes |
| `Readers.SeekThenReadToEnd` | aesd-char-driver/main.c:302-341 | a seek in range and reading on deliver the entries from that one on, without the first bytes |
| `Extraction.UpToNewlineShape` | server/aesdsocket.c:94-107 | a prefix of the chunk whose only newline, if any, is its last byte; all of it if there is none |
| `Extraction.UpToNewlineAppend` | server/aesdsocket.c:94-107 | extraction from two chunks in a row |
| `Extraction.CStringShape` | server/aesdsocket.c:267 | the text that C string functions see ends just before the first NUL byte |
| `Extraction.HasTokenIff` | server/aesdsocket.c:252-256 | a text is taken for a seek command if and only if the token stands somewhere in it |
| `Extraction.TokenBehind` | server/aesdsocket.c:252-256 | also behind other text |
| `Extraction.PlainLineWritten` | server/aesdsocket.c:255-269 | a line without NUL byte that lacks one of the token's bytes is written, newline and all |
| `Extraction.ChunkingIndependentIff` | server/aesdsocket.c:237-282 | what the loop sends of a stream is the stream through its first newline, however it is cut, if and only if that part has no NUL byte |
| `Extraction.WrittenShape` | server/aesdsocket.c:258-282 | a connection with a seek command has put no newline on the device; one without has put there all that is sent of its stream |
| `Extraction.NulLosesNewline` | server/aesdsocket.c:267 | a packet that two cuttings deliver differently |
| `Extraction.WrittenEmptyIff` | server/aesdsocket.c:247-269 | a connection writes nothing exactly when no chunk before its first seek command, or through its first newline, has a text |
| `Extraction.OnlyLastEnds` | server/aesdsocket.c:266-268 | however stdio cuts the text, only the last piece ends in a newline |
| `Delivery.TriesWholeIff` | server/aesdsocket.c:265-269 | the writes of one text, however stdio cuts it, are all stored whole exactly when the device is not locked, there is room, and no write is refused a block it needs, cut short or interrupted; then they act as one write of the text |
| `Framing.ServerFraming` | server/aesdsocket.c:237-282 | in every run of the server, whichever of its writes are refused, cut short or interrupted, and whoever locks the device: the device holds what was stored, cut after each whole write that ends in a newline |
| `Framing.AfterLogOk` | server/aesdsocket.c:237-282 | in every run, each connection has tried to write exactly what is sent of its own chunks before its first seek command, and each write stored a prefix of what it tried |
| `Delivery.ConcurrentFraming` | server/aesdsocket.c:237-282 | for any connections, any bytes, any interleaving and any refusals: device bytes = interleaved log of what was stored, entries = that log cut after each newline, each share = the connection's writes as far as stored, which is all of what is sent of its chunks if and only if the device took each of its turns; one new entry per newline stored |
| `Delivery.KeptIff` | server/aesdsocket.c:265-269 | nothing of a connection is lost exactly when the device takes each of its turns when it comes |
| `Delivery.StoredIff` | server/aesdsocket.c:265-269 | the stored bytes grow by at most what all connections tried, and by all of it if and only if the device took every turn |
| `Delivery.LosingRun` | server/aesdsocket.c:265-269 | a packet whose newline is refused a block: its connection is over, no entry is committed and its first byte stays pending |
| `Packets.PacketCommits` | server/aesdsocket.c:237-282 | undisturbed, with nothing pending, a packet cut in any way becomes exactly one entry |
| `Packets.PacketEchoed` | server/aesdsocket.c:284-288 | and reading a fresh descriptor delivers the last ten entries, the packet last |
| `Packets.EchoIff` | server/aesdsocket.c:284-288 | in any interleaving and with any refusals, a reply contains the entry that the connection's newline committed if and only if fewer than ten further newlines ended entries before the read; otherwise every byte of it is overwritten |
| `Packets.EntryIsPacketIff` | server/aesdsocket.c:247-272 | the entry a newline commits is everything stored, from anybody, since the last newline; it is its connection's packet if and only if that, end to end, is what the connection has sent |
| `Packets.UndisturbedIff` | server/aesdsocket.c:247-272 | as long as nothing the connection sent was refused or taken away by somebody else's newline, that holds exactly for the schedules in which nothing was stored for anybody else since the last newline |
| `Packets.InterposedChunkMixes` | server/aesdsocket.c:247-272 | one foreign chunk between two chunks of a packet, whatever its bytes, with or without a newline: the entries that result, and the one the packet's newline commits is not the packet |
| `Packets.MixedRun` | server/aesdsocket.c:247-272 | such a run of three chunks from the loaded module |
| `Packets.TotalFits` | server/aesdsocket.c:237-282 | if what is pending and all that the connections may send are within the allocation limit, the device is not locked, nobody seeks out of range, and the kernel refuses, cuts short and interrupts none of the server's writes, then every write of every interleaving is stored whole |
| `SocketServer.ExtractDataUpToNewline` | server/aesdsocket.c:91-125 | a NUL-terminated copy through the first newline, and whether there was one |
| `SocketServer.TakeChunk` | server/aesdsocket.c:237-256 | the text of a received chunk as C string functions see it |
| `SocketServer.HandleChunk` | server/aesdsocket.c:247-280 | one pass of the loop: the calls it makes, whatever the kernel answers to each, and the flags it leaves |
| `SocketServer.ReceiveLoop` | server/aesdsocket.c:237-282 | the loop over the driver is a run of this connection's receive events, whatever is refused, ending where `LoopConn` says |
| `SocketServer.ReadCharDevice` | server/aesdsocket.c:127-176 | the content from the start or the seek position, all of it if it fits the buffer and otherwise exactly a buffer of it; hangs exactly when the device is or becomes locked |
| `SocketServer.LoopConn` | server/aesdsocket.c:237-282 | the loop receives the chunks through the first newline, and ends with the pair of the last seek command among them, if there is one |
| `SocketServer.LoopLogged` | server/aesdsocket.c:247-282 | whatever is refused, the loop tries to write what came before the first seek command, and the device holds what of it was stored |
| `SocketServer.LoopLock` | server/aesdsocket.c:247-282 | the loop leaves the lock as it was, and a locked device unchanged |
| `SocketServer.LoopDevice` | server/aesdsocket.c:247-282 | with room and no refusals, all that came before the first seek command is appended to the device as one text |
| `SocketServer.LoopSends` | server/aesdsocket.c:237-282 | in particular, without a seek command the device's bytes grow by exactly what is sent of the stream, NUL bytes included |
| `SocketServer.HandleConnection` | server/aesdsocket.c:215-316 | request to reply over the driver, for any chunks and any answers of the kernel: what it tried to write, what of it is stored, and a reply that is the content, or starts at the byte that the last seek command names, or never comes; a locked device is left unchanged and hangs the connection; with room and no refusals everything is appended |
| `SocketServer.PacketServed` | server/aesdsocket.c:237-288 | a packet on a device with nothing pending becomes one entry, and the last ten entries come back, all of them if they fit the buffer and otherwise as much as fits |
| `SocketServer.SeekServed` | server/aesdsocket.c:258-288 | a request whose last seek command is in chunk i: it hangs and locks the device exactly when the command that arrives is ten or more; otherwise the reply is the content from the offset that arrives, in the entry that arrives, up to a buffer |
| `SocketServer.SeekLeavesData` | server/aesdsocket.c:258-269 | data before a seek command stays pending, in front of the next connection's packet; that packet is an entry of its own if and only if nothing was pending before and no chunk before the seek command had a text |
| `SocketServer.SeekDataRun` | server/aesdsocket.c:258-269 | such a run from the loaded module |
| `ThreadList.List.InsertHead` | server/aesdsocket.c:541-545 | the new node is first, whether or not its thread has finished already |
| `ThreadList.List.Remove` | server/aesdsocket.c:331 | the node is bypassed, whether first or not; nothing else changes |
| `ThreadList.List.Visit` | server/aesdsocket.c:326-334 | one node: removed and freed exactly when found complete |
| `ThreadList.List.Cleanup` | server/aesdsocket.c:320-337 | with threads finishing during the walk: removed and freed are exactly the nodes complete at the start or by their turn; the others stay in order |
| `ThreadList.CleanupSound` | server/aesdsocket.c:320-337 | nobody is freed twice, kept after being freed, or lost |
| `ThreadRuns.NobodyLost` | server/aesdsocket.c:541-549 | over every run of insertions and walks, the nodes freed and the nodes in the list are together the nodes inserted |
| `ThreadRuns.FreedByFirstWalk` | server/aesdsocket.c:320-337 | in every run a node stays until the first walk that finds its thread complete, and is freed by that walk, once |
| `ThreadRuns.ArrivalPrunes` | server/aesdsocket.c:541-549 | every connection accepted frees the nodes whose flags are on when its walk begins |
| `ThreadRuns.AcceptLoop` | server/aesdsocket.c:541-549 | the loop over the list in memory is such a run |

## Left out

- `aesd_cleanup_module`: unloading the module; it frees the pending pointer once per ring entry, so nothing is claimed about memory after unload.
- Writes of zero bytes: the driver reads the byte before its buffer.
- Reads and writes that reach the end of the 64-bit file position.
- Failure of `malloc` and `fopen` in the server, which it does not survive or does not check.
- A received chunk or a reply of exactly `BUFFER_SIZE` bytes, where the server writes one byte past its buffer.
- Number parsing by `sscanf`; the pair read is an input. A seek token split over two chunks is not recognised by the code and is treated as data by the model too.
- Timestamps, `read_file`, signals, daemon start, sockets and logging: not compiled for the device, or input and output only.
- Device registration and module loading beyond the initial state.
- The programs under `finder-app`, `examples` and `student-test`: thin wrappers over system calls.
