# A verified model of the MooseFS chunk data path

This project models, in Dafny 4.11, the part of MooseFS that stores, copies, codes and forwards chunk
data, and the concurrent and indexed structures around it, and proves what that code has to guarantee.
`dafny verify dfyconfig.toml` checks everything.

The parts, and the modules they are in:

- **Checksums** (`mfscommon/crc.c`). `Crc32` defines CRC-32 bit by bit. `LinearMaps` and
  `LinearRegister` prove what holds for every xor-linear shift register: the laws of concatenation, of
  runs of zeros and of xor. `TableChecksum` and `CrcTables` model the code: tables for 16 bytes at a
  time, matrices squared up to powers of two, and the combination of two checksums; all of it is proved
  equal to the bitwise definition. `CrcPolynomial` proves that this definition is the remainder of a
  polynomial division, with the arithmetic in `Polynomials`. `Checksums` states which of these laws the
  chunk store uses.
- **Chunk store** (`hddspacemgr.c`). `ChunkData` is the file as bytes and its view as a zero-extended
  array of blocks. `ChunkStore` is the class `Chunk` with the block count, both checksum tables, the
  one-block cache, and the operations on it. `ChunkRefinement` proves that any sequence of operations
  behaves like one on a flat string of bytes, and `ChunkServer` that any sequence on all chunks of a
  server, with copies and splits, behaves like one on a map of such strings; `CommandLaws` says what that
  map promises. `ChunkCopy` has the two ways of copying a chunk.
- **Erasure coding** (`hddspacemgr.c`, `replicator.c`). `Erasure` is the layout of the parts and the
  algebra of parity and of its checksums, `ChunkSplit` the local split, `Replicator` the modes SPLIT,
  RECOVER and JOIN, and `ErasureRoundTrip` proves that all of them agree.
- **Chained writes** (`mainserv.c`). `WriteQueue` is the linked queue of one server with its two
  cursors, in an explicit memory in which a freed job is gone. `WriteChain` is the protocol of a chain
  of any length as steps, with its invariant and its safety theorem; `ChainProgress` proves that a healthy
  chain acknowledges every packet. `Nop` is the socket that the NOP
  thread shares with the thread of a connection.
- **Locks and workers**. `ChunkLock` (`hddspacemgr.c`), `RwLock` (`chunkrwlock.c`) and `JobPool`
  (`bgjobs.c`, with `JobRuns`) are step systems; their results hold for every interleaving. `Tally`
  counts the threads.
- **Directory indexes** (`dirblob_name_index.c`, `dirblob_node_index.c`). `ProbeTable` is open
  addressing with clusters and odd steps, `IndexSize` the size at creation, `DirIndex` the index with
  its two tables and incremental migration, by name and by inode.
- **Framing, open files and paths**. `Framing` (`masterconn.c`) reassembles packets from any pieces;
  `OpenFiles` with `HeapSorter` (`mastercomm.c`, `heapsorter.c`) is the table of open inodes;
  `PathNormalize` (`mfsioint_lookupcache.c`) is the normal form of paths.

## What turned out not to hold

Five things that one would expect of the code do not hold in general. In each case the model does what
the code does, a concrete run shows the failure, and the exact condition is proved.

- `hdd_int_duptrunc` does not always leave the same checksum table as `hdd_int_duplicate` followed by
  `hdd_int_truncate`. Blocks, contents and the entries of all blocks agree; the entries past both ends
  agree exactly when the source already had empty-block checksums there, and on disk also when the
  length stays the same (`ChunkCopy.CompareCopies`, `ChunkCopy.TablesCanDiffer`).
- RECOVER from an odd number of sources fails on its first block with a checksum error, because the
  empty-block checksum, which is not zero, is left over. For an even number it never fails
  (`Replicator.Recover`, `Erasure.OddFoldCrc`, `Checksums.EmptyBlockCrcNotZero`).
- The threads of a connection do not look at the error flag between `mainserv_sock_nop_del` and the
  packet they send. A packet keeps the stream whole exactly when no step before it failed or gave up
  with part of a NOP sent (`Nop.SendIsWhole`, `Nop.SentAfterErrorIsLost`).
- A thread that was woken up for a chunk may time out at that moment, since POSIX lets a
  `pthread_cond_timedwait` that ends with a timeout use up a signal. It then leaves without waking
  another. Waiters of a free chunk are left without a wake-up exactly then
  (`ChunkLock.StrandedExactly`, `ChunkLock.WakeUpCanBeLost`).
- The count of an open file has 16 bits. An entry is on the list of idle files exactly when its count
  and its dentry flag are zero, until the count of an entry without the flag wraps; then, and only
  then, the table becomes unsound (`OpenFiles.Table.IncAcnt`, `OpenFiles.OpenTooOften`).

An index created for n entries takes n entries without a rehash exactly when 5n fits 32 bits
(`IndexSize.CreateIsEnough`).

## Model

| member | source | states |
|---|---|---|
| Crc32.CombineLaw | mfscommon/crc.c:218-235 | combining the checksums of two strings gives the checksum of their concatenation, for all strings |
| Crc32.ZeroBlockLaw | mfscommon/crc.h:26 | a checksum combined with a run of zeros is the checksum of the string with that many zeros appended |
| Crc32.XorLaw | mfscommon/crc.h:28 | the checksum of the xor of two strings is the xor of their checksums and that of as many zeros |
| LinearRegister.Register.ConcatLaw | mfscommon/crc.c:218-235 | the concatenation law for every xor-linear register |
| LinearRegister.Register.AffineLaw | mfscommon/crc.h:28 | the xor law for every xor-linear register |
| LinearMaps.Words.SquareLaw | mfscommon/crc.c:168-178 | a matrix applied to its own columns is the matrix of the map applied twice as often |
| TableChecksum.GenerateMainTables | mfscommon/crc.c:34-58 | entry k of table j holds the register after byte k and j further zero bytes |
| TableChecksum.AbsorbSixteen | mfscommon/crc.c:108-129 | sixteen table look-ups feed sixteen bytes |
| TableChecksum.Checksum | mfscommon/crc.c:79-162 | the checksum by words, blocks and single bytes, for every alignment, is the bitwise one |
| TableChecksum.MatrixSquare | mfscommon/crc.c:168-178 | the column sums are the square of the matrix |
| TableChecksum.GenerateCombineTables | mfscommon/crc.c:180-216 | entry (i, j, k) is byte k in place j moved over 2^i zero bytes |
| TableChecksum.Combine | mfscommon/crc.c:218-235 | the walk over the bits of the length moves the first checksum over that many bytes, exactly |
| CrcTables.Tables.constructor | mfscommon/crc.c:237-240 | mycrc32_init leaves the tables for CRC-32 |
| CrcTables.Tables.Mycrc32 | mfscommon/crc.c:79-162 | mycrc32 equals the bitwise CRC-32 of any string at any address |
| CrcTables.Tables.Mycrc32Combine | mfscommon/crc.c:218-235 | mycrc32_combine equals the mathematical combination for any length below 2^32 |
| CrcPolynomial.CrcIsRemainder | mfscommon/crc.c:29-58 | a value is the checksum of a message exactly when its complement, bit-reversed, is the remainder of the message polynomial, with its first 32 bits complemented, modulo the generator of the standard |
| Polynomials.OneRemainder | mfscommon/crc.c:29-58 | there is one remainder of degree below 32 |
| CrcPolynomial.CheckValue | mfscommon/crc.c:79-162 | the check value of the standard for "123456789" |
| Checksums.Crc32IsLawful | mfscommon/crc.h:24-28 | CRC-32 obeys every law that the chunk store is verified against |
| Checksums.EmptyBlockCrcNotZero | mfschunkserver/hddspacemgr.c:3125-3139 | the checksum of an empty block is not zero, so the two values allowed past the last block differ |
| ChunkData.OverlayBlocks | mfschunkserver/hddspacemgr.c:3966-4155 | a write changes one block of the zero-extended view, and in it only the written bytes |
| ChunkData.OverlayTrim | mfschunkserver/hddspacemgr.c:3900-3926 | on a new block the zeros at both ends of a buffer need not be written |
| ChunkData.AssembleLaw | mfschunkserver/hddspacemgr.c:4045-4052 | in each offset and size case the combined pieces are the checksum of the whole |
| ChunkData.AssembleEmptyLaw | mfschunkserver/hddspacemgr.c:4108-4120 | the same when nothing is left to write |
| ChunkData.WriteAgrees | mfschunkserver/hddspacemgr.c:3966-4126 | a write keeps every table entry the checksum of its block |
| ChunkData.TruncateAgrees | mfschunkserver/hddspacemgr.c:4940-5023 | a truncation keeps every table entry the checksum of its block |
| ChunkStore.SparseRange | mfschunkserver/hddspacemgr.c:3900-3926 | the range found covers all non-zero bytes, lies on 512-byte bounds or the buffer's, and is empty exactly for zeros |
| ChunkStore.Chunk.TrimAndCheck | mfschunkserver/hddspacemgr.c:3895-3965 | the check through the pieces accepts exactly the checksum of the whole buffer |
| ChunkStore.Chunk.WriteWhole | mfschunkserver/hddspacemgr.c:3966-4005 | a whole block: contents overlaid, gap filled, exactly the entries of the gap and of the block changed, cache right |
| ChunkStore.Chunk.WriteExisting | mfschunkserver/hddspacemgr.c:4008-4063 | part of a present block is refused exactly when its old contents do not match its entry |
| ChunkStore.Chunk.WriteNew | mfschunkserver/hddspacemgr.c:4064-4155 | part of a new block: the gap is filled and the file extended to the block's end |
| ChunkStore.Chunk.Write | mfschunkserver/hddspacemgr.c:3848-4158 | hdd_write: the exact status in every case; on success the contents are overlaid and nothing else changes; intact chunks stay intact |
| ChunkStore.Chunk.Read | mfschunkserver/hddspacemgr.c:3696-3846 | hdd_read: the exact status in every case, and the bytes of the zero-extended contents with their checksum |
| ChunkStore.Chunk.Truncate | mfschunkserver/hddspacemgr.c:4876-5030 | hdd_int_truncate: exact status; in all three cases contents cut or extended with zeros to whole blocks, its table, and an intact chunk stays intact |
| ChunkStore.Chunk.Create | mfschunkserver/hddspacemgr.c:4328-4394 | a created chunk is empty and sound |
| ChunkStore.Chunk.IoEnd | mfschunkserver/hddspacemgr.c:3504-3526 | the table on disk is the one in memory afterwards, if that changed |
| ChunkStore.Chunk.ReadCrc | mfschunkserver/hddspacemgr.c:3077-3143 | a table is refused exactly when an entry past the end is neither zero nor that of an empty block |
| ChunkStore.Chunk.Reload | mfschunkserver/hddspacemgr.c:3125-3139 | an intact chunk that was closed is never refused when it is loaded again, and is intact |
| ChunkRefinement.Execute | mfschunkserver/hddspacemgr.c:3696-5030 | each operation on an intact chunk has the effect and the answer of the flat model |
| ChunkRefinement.ExecuteAll | mfschunkserver/hddspacemgr.c:3696-5030 | any sequence of writes, reads, truncations and reopenings answers like a flat string of bytes |
| ChunkRefinement.EffectBytes | mfschunkserver/hddspacemgr.c:3848-5030 | on the flat model a write changes its range only, a truncation cuts, a read changes nothing |
| ChunkServer.Server.Perform | mfschunkserver/hddspacemgr.c:4328-6149 | each command on the chunks of a server, with copies, splits, creation and deletion, has the effect and the answer of a map from ids to flat strings of bytes, with the exact status |
| ChunkServer.Server.PerformAll | mfschunkserver/hddspacemgr.c:3696-6149 | any sequence of commands answers like that map, and all chunks stay intact |
| ChunkServer.PartAdded | mfschunkserver/hddspacemgr.c:5814-5823 | after a split every missing part is there under its own id, with its contents |
| ChunkServer.OthersKept | mfschunkserver/hddspacemgr.c:5814-5823 | and no other id is made or changed |
| ChunkServer.Untouched | mfschunkserver/hddspacemgr.c:4505-6149 | no sequence of commands changes a chunk that none of them names, whatever happens to its copies and parts |
| CommandLaws.DeleteLaw | mfschunkserver/hddspacemgr.c:5622-5657 | accepted exactly for a chunk that is there in the version asked for, or any for zero; it is gone then and nothing else changes; the status names the test that failed |
| CommandLaws.CreateLaw | mfschunkserver/hddspacemgr.c:4328-4394 | accepted exactly for a new id; an empty chunk is there then |
| CommandLaws.DuplicateLaw | mfschunkserver/hddspacemgr.c:4505-4775 | when accepted and why not; the copy has the contents of the source, the source keeps them, and nothing else changes |
| CommandLaws.DupTruncLaw | mfschunkserver/hddspacemgr.c:5032-5620 | the same, with the contents cut to the length byte by byte and zeros up to the end of the last block |
| CommandLaws.SplitLaw | mfschunkserver/hddspacemgr.c:5715-6149 | when accepted, every missing part is there afterwards and, zero-extended, is that part of the coded chunk; nothing else changes |
| CommandLaws.SplitStatus | mfschunkserver/hddspacemgr.c:5750-5830 | when a split is accepted and which test failed otherwise |
| CommandLaws.PartIdTells | mfschunkserver/hddspacemgr.c:5749-5758 | the id of a part tells the chunk, the number of data parts and the part |
| CommandLaws.OpLaw | mfschunkserver/hddspacemgr.c:3696-5030 | when a write, a read and a truncation are accepted; refused ones change nothing |
| CommandLaws.AlwaysWhole | mfschunkserver/hddspacemgr.c:3848-6149 | any commands leave chunks of whole blocks |
| ChunkCopy.CopyBlocks | mfschunkserver/hddspacemgr.c:4650-4733 | the sparse copy loop leaves the source's blocks, up to zeros at the end |
| ChunkCopy.Duplicate | mfschunkserver/hddspacemgr.c:4505-4775 | hdd_int_duplicate: same contents, count and table, and the table on disk; statuses; the source gets the new version unless that is the one asked for |
| ChunkCopy.DupTrunc | mfschunkserver/hddspacemgr.c:5032-5620 | hdd_int_duptrunc in its expanding, aligned and misaligned cases: contents, count, both tables, versions and statuses |
| ChunkCopy.CopyAgrees | mfschunkserver/hddspacemgr.c:5157-5611 | a shortened or extended copy of an intact chunk is intact |
| ChunkCopy.DupTruncTables | mfschunkserver/hddspacemgr.c:5157-5611 | the two ways agree on the entries of blocks, and on the whole table exactly when the source has empty-block checksums past both ends |
| ChunkCopy.CompareCopies | mfschunkserver/hddspacemgr.c:4940-5023 | duptrunc and duplicate followed by truncate give the same blocks, contents and entries of blocks; the exact conditions for the same table in memory and for the same table on disk |
| ChunkCopy.TablesCanDiffer | mfschunkserver/hddspacemgr.c:3125-3139 | a chunk is created, closed and loaded again, and the two ways to copy it leave different tables, in memory and on disk |
| Erasure.LayoutInverse | mfschunkserver/hddspacemgr.c:5877-5888 | the layout is a bijection between source blocks and places in parts |
| Erasure.LayoutFields | mfschunkserver/hddspacemgr.c:5877-5888 | four blocks in a row go to one part, the next four to the next, and after all parts the next four places begin |
| Erasure.LostPart | mfschunkserver/replicator.c:1067-1083 | each part, parity or data, is the xor of all the others |
| Erasure.FoldCrc | mfschunkserver/hddspacemgr.c:5973-5987 | the xored checksums with the empty-block checksum are the checksum of the xored blocks for an even number of them, and miss it by that checksum for an odd number |
| Erasure.OddFoldCrc | mfschunkserver/replicator.c:1068-1083 | for an odd number they match exactly when the empty-block checksum is zero |
| ChunkSplit.PlacesEnd | mfschunkserver/hddspacemgr.c:5877-5888 | the blocks of a part among the first b source blocks are exactly those its places say |
| ChunkSplit.PieceEnds | mfschunkserver/hddspacemgr.c:5877-6052 | behind its last block a part is empty |
| ChunkSplit.Whole.PieceSumIsCrc | mfschunkserver/hddspacemgr.c:5973-5987 | entries made from the entries of an intact source are the checksums of the part's blocks |
| ChunkSplit.XorRow | mfschunkserver/hddspacemgr.c:5971-5988 | a parity block and its entry, with rows that the chunk fills only partly |
| ChunkSplit.SplitBlock | mfschunkserver/hddspacemgr.c:5877-6052 | one round of the loop: copy, keep, and parity at the end of a row |
| ChunkSplit.Split | mfschunkserver/hddspacemgr.c:5715-6149 | hdd_int_split: statuses, and for every missing part its contents, count and table; the others are not made |
| ChunkSplit.PieceIntact | mfschunkserver/hddspacemgr.c:5877-6052 | the parts of an intact chunk are intact |
| Replicator.SplitGroupsExact | mfschunkserver/replicator.c:770-774 | SPLIT's group count is exactly the number of groups of the part that hold a source block |
| Replicator.ReadSource | mfschunkserver/replicator.c:902-983 | a source read block by block through hdd_read answers in full exactly when every checksum of it is right |
| Replicator.Split | mfschunkserver/replicator.c:1056-1066 | SPLIT builds the data part, for any source |
| Replicator.Recover | mfschunkserver/replicator.c:1067-1114 | RECOVER from an even number of intact sources succeeds and builds their xor, no longer than it need be; from an odd number it fails exactly when there is a block |
| Replicator.JoinFits | mfschunkserver/replicator.c:786-804 | JOIN stays within a chunk exactly when every source block has a place there |
| Replicator.Join | mfschunkserver/replicator.c:1115-1127 | JOIN builds the chunk whose parts are the sources, or refuses the first block past the end |
| ErasureRoundTrip.RecoverPart | mfschunkserver/replicator.c:1067-1114 | RECOVER rebuilds any one lost part from the others |
| ErasureRoundTrip.SurviveLoss | mfschunkserver/hddspacemgr.c:5877-6052 | split, all parts read back through hdd_read with their checksums, loss of any one of 5 or 9 parts, recovery and join give back the lost part and the whole chunk |
| ErasureRoundTrip.LocalAndRemote | mfschunkserver/replicator.c:1056-1066 | a data part built locally and one built remotely from blocks read through hdd_read hold the same |
| WriteQueue.NeverDangling | mfschunkserver/mainserv.c:511-536 | no pointer of the queue points at a freed job, and which of them are null |
| WriteQueue.Exchange.Append | mfschunkserver/mainserv.c:774-793 | the queue is the old one with one more write at its end, linked in memory; a disk cursor in use does not move |
| WriteQueue.Exchange.Announce | mfschunkserver/mainserv.c:833-849 | a status for write id 0 goes to the head of the queue; the disk cursor does not move |
| WriteQueue.Exchange.HddDone | mfschunkserver/mainserv.c:557-563 | the disk thread's job is still there when it is done, and its cursor moves on |
| WriteQueue.Exchange.NetDone | mfschunkserver/mainserv.c:850-868 | a status is accepted exactly for the job whose turn it is |
| WriteQueue.Exchange.Pop | mfschunkserver/mainserv.c:876-905 | the head is freed exactly when both sides acknowledged it with success, and neither cursor is on it |
| WriteChain.StepKeeps | mfschunkserver/mainserv.c:538-964 | the invariant of a chain is kept by every step of every server |
| WriteChain.AcknowledgedIsStored | mfschunkserver/mainserv.c:774-919 | in every run of every chain, the k-th OK for a write that the client gets is that of its k-th packet, and every server has stored that packet and all before it |
| WriteChain.ThreadHasItsJob | mfschunkserver/mainserv.c:538-572 | in every run the job a disk thread works on is queued and not freed |
| ChainProgress.AcknowledgementCanCome | mfschunkserver/mainserv.c:538-964 | from every state of every run in which no server left its loop, no disk write failed and every packet has an id, there is a way to go on after which the client has an OK for each packet, in their order |
| ChainProgress.RestIsAcknowledged | mfschunkserver/mainserv.c:538-1121 | in every such state in which no step is left to do, the client has an OK for each packet, in their order |
| ChainProgress.NoIdNoStatus | mfschunkserver/mainserv.c:833-868 | a packet without an id stops a chain of two or more: no status comes for it or for any behind it |
| Nop.StepKeeps | mfschunkserver/mainserv.c:237-338 | every tick, add and del with any short write, and every whole packet that does not follow a cut NOP, keeps the shape of the stream |
| Nop.WholePacketsAndOneNop | mfschunkserver/mainserv.c:260-311 | in every run that sends packets in full and none after a NOP was cut short, the bytes sent are whole packets and at most one unfinished NOP, and when there is none |
| Nop.BoundaryAfterDel | mfschunkserver/mainserv.c:327-338 | after mainserv_sock_nop_del the stream ends with a whole packet exactly when no step cut a NOP short; without the error flag none did |
| Nop.SendIsWhole | mfschunkserver/mainserv.c:906-918 | a packet keeps the stream whole exactly when no step before it failed, or gave up, with part of a NOP sent; such a step sets the error flag |
| Nop.SentAfterErrorIsLost | mfschunkserver/mainserv.c:906-918 | a run in which a packet is sent after an error and read as another one |
| Nop.NopGoesOut | mfschunkserver/mainserv.c:276-292 | however a NOP is cut into short writes, it is sent whole once all its bytes are |
| ChunkLock.StepKeeps | mfschunkserver/hddspacemgr.c:1648-1846 | the invariant of records, holders and waiters is kept by every step |
| ChunkLock.OneHolder | mfschunkserver/hddspacemgr.c:1548-1560 | at most one thread holds a chunk |
| ChunkLock.OneRecord | mfschunkserver/hddspacemgr.c:1678-1719 | one record per chunk id, and the search finds it |
| ChunkLock.WaitersCounted | mfschunkserver/hddspacemgr.c:1783-1814 | wcnt is the number of threads that wait for the chunk, and no other chunk has its condition object |
| ChunkLock.NoDanglingPointer | mfschunkserver/hddspacemgr.c:1648-1846 | no thread that holds or awaits a chunk points at a freed record |
| ChunkLock.FreedWhenUnused | mfschunkserver/hddspacemgr.c:1767-1782 | a record is freed only when nobody holds it or waits for it |
| ChunkLock.GetExisting | mfschunkserver/hddspacemgr.c:1720-1815 | for a chunk with a record: in each state and mode, whether the request holds it, waits for it or is refused |
| ChunkLock.GetMissing | mfschunkserver/hddspacemgr.c:1680-1719 | for a chunk without one: refused exactly if an existing chunk is wanted, else a locked record is made |
| ChunkLock.GotInMode | mfschunkserver/hddspacemgr.c:1648-1815 | what a request gets, at once or after waiting, was to be had in its mode |
| ChunkLock.NewOnlyNeverWaits | mfschunkserver/hddspacemgr.c:1720-1725 | a request for a new chunk never waits |
| ChunkLock.StrandedExactly | mfschunkserver/hddspacemgr.c:1796-1813 | in every run, threads wait for a chunk that nobody holds with none of them awake exactly after the only woken one gave up |
| ChunkLock.AvailableIsTaken | mfschunkserver/hddspacemgr.c:1548-1560 | without such a step, an available chunk with waiters has one of them awake, and it gets the chunk |
| ChunkLock.WakeUpCanBeLost | mfschunkserver/hddspacemgr.c:1799-1807 | a run in which the woken thread gives up and another waits for an available chunk |
| RwLock.StepKeeps | mfsclient/chunkrwlock.c:52-155 | the invariant of locks and records is kept by every step |
| RwLock.MutualExclusion | mfsclient/chunkrwlock.c:107-155 | a writer excludes readers and writers |
| RwLock.NoReaderPastWriter | mfsclient/chunkrwlock.c:107-118 | a new reader waits while a writer holds the lock or waits for it |
| RwLock.FreeLockIsTaken | mfsclient/chunkrwlock.c:120-155 | no wake-up is lost: a free lock with waiters has a woken waiter of the right kind, and it gets the lock |
| RwLock.NotRecycledInUse | mfsclient/chunkrwlock.c:52-105 | the record of a request stays under its key and off the free list |
| RwLock.RecycledWhenUnused | mfsclient/chunkrwlock.c:87-105 | in every run a record leaves the table in a step exactly when that step ends the only request left for it |
| RwLock.RequestPersists | mfsclient/chunkrwlock.c:107-155 | in every run a request is known after a step exactly when it was known and the step is not its own unlock, or the step made it |
| RwLock.RecycledIsFree | mfsclient/chunkrwlock.c:87-105 | a record that leaves the table goes to the free list, unless that is full |
| RwLock.TakenFromFree | mfsclient/chunkrwlock.c:52-85 | a lock that was not in the table gets the last record of the free list, or a new one if there is none |
| JobPool.StepKeeps | mfschunkserver/bgjobs.c:216-461 | the invariant of jobs, places and workers is kept by every step |
| JobPool.OneStatusEach | mfschunkserver/bgjobs.c:678-706 | each job delivers at most one status; it delivered it, or was refused, or its record is there with exactly one reference |
| JobPool.StatusCanCome | mfschunkserver/bgjobs.c:287-461 | from every reachable state with an open queue, every job on its way can still deliver its status, or be refused if it was added so: no state is a dead end |
| JobPool.WorkerHasItsRecord | mfschunkserver/bgjobs.c:287-461 | a record is not removed while a worker has the job |
| JobRuns.DisabledNeverRuns | mfschunkserver/bgjobs.c:639-652 | a job that is disabled before a worker begins with it never runs, whatever happens then |
| JobRuns.RunsOnce | mfschunkserver/bgjobs.c:287-461 | in every run a job whose status was delivered ran its operation exactly once, unless it was disabled in time or answered for lack of room, and then never; no operation runs twice |
| JobRuns.AddedExactly | mfschunkserver/bgjobs.c:497-567 | a new job is queued exactly if there is room or it does not ask; else it is refused or answered, as its mode says |
| JobRuns.WorkersBounded | mfschunkserver/bgjobs.c:452-459 | never more workers, or more idle ones, than allowed, but for a single one |
| JobPool.OneByteInPipe | mfschunkserver/bgjobs.c:216-238 | the pipe holds one byte exactly when the status queue is not empty |
| JobPool.WorkersCounted | mfschunkserver/bgjobs.c:244-277 | if one idle worker is allowed, the counters are exact, a free worker exists or the pool is full, and the last worker stays until the queue is closed |
| ProbeTable.OddStepsReach | mfsclient/dirblob_name_index.c:26-45 | odd steps reach every slot of a table of a power of two |
| ProbeTable.Insert | mfsclient/dirblob_name_index.c:26-45 | hash_insert ends, fills a free slot, and keeps every entry within reach of its hash |
| ProbeTable.Find | mfsclient/dirblob_name_index.c:47-73 | hash_find ends; what it finds has the key, and it finds nothing exactly when the table has nothing with the key, if those entries were put in with its hash |
| DirIndex.Index.IncrementalRehash | mfsclient/dirblob_name_index.c:75-105 | five slots at a time; at the end the tables are exchanged and the next rehash is not due |
| DirIndex.Completed | mfsclient/dirblob_name_index.c:96-104 | when the last slot is done the new table has everything, within its load |
| DirIndex.Index.Create | mfsclient/dirblob_name_index.c:107-131 | an empty index of the computed size |
| DirIndex.Index.Add | mfsclient/dirblob_name_index.c:144-170 | at any stage of a rehash an entry is added, unless its inode is zero; a rehash ends before the next begins |
| DirIndex.Index.Find | mfsclient/dirblob_name_index.c:172-189 | at any stage of a rehash an entry with a key that is not zero is found exactly when one was added and not zeroed; what is found always has the key |
| DirIndex.EntryDies | mfsclient/dirattrcache.c:184-197 | zeroing an entry in place does not disturb the index |
| DirIndex.MakeNameIndex | mfsclient/dirattrcache.c:141-153 | an index made for the entries of a directory holds them all, without a rehash |
| DirIndex.MakeNodeIndex | mfsclient/dirattrcache.c:156-168 | the same by inode; it holds exactly the entries whose inode is not zero |
| DirIndex.HashName | mfsclient/dirblob_name_index.c:18-24 | the loop with its 32-bit wrap-around computes the number whose digits, to the base 33, are 5381 and the bytes of the name, reduced once |
| DirIndex.OneByteApart | mfsclient/dirblob_name_index.c:18-24 | names of the same length that differ in one byte never have the same hash |
| DirIndex.NodesApart | mfsclient/dirblob_node_index.c:21-23 | distinct inodes never have the same hash |
| DirIndex.FindName | mfsclient/dirblob_name_index.c:172-189 | with the hash computed by that loop, a name is found exactly when an entry with it was added |
| IndexSize.SmearFills | mfsclient/dirblob_name_index.c:111-116 | or-ing shifted copies sets all bits below the top one |
| IndexSize.CreateIsEnough | mfsclient/dirblob_name_index.c:107-131 | the size is enough for n entries exactly when 5n fits 32 bits |
| Framing.ParseContinues | mfschunkserver/masterconn.c:1609-1658 | parsing can stop at any byte and go on from what was left |
| Framing.ParseAll | mfschunkserver/masterconn.c:1555-1667 | encoded packets are parsed back in order, whatever follows |
| Framing.NumbersInOrder | mfscommon/datapack.h:114-127 | numbers compare as their four bytes do, the first byte first |
| Framing.Connection.Read | mfschunkserver/masterconn.c:1555-1667 | however a stream is cut into reads, the packets queued are those of the whole stream, and it ends at a header over the limit |
| HeapSorter.SortUp | mfsclient/heapsorter.c:57-71 | the last element rises until the heap is ordered; same elements |
| HeapSorter.SortDown | mfsclient/heapsorter.c:33-55 | the first element sinks until the heap is ordered; same elements |
| HeapSorter.Heap.Push | mfsclient/heapsorter.c:77-91 | the heap has one more element, in an array that grows when it is full |
| HeapSorter.Heap.Pop | mfsclient/heapsorter.c:93-105 | the least element is taken out; an empty heap gives zero |
| OpenFiles.Table.Evict | mfsclient/mastercomm.c:496-509 | the loop frees at least the head of the list, and only heads of the list |
| OpenFiles.Table.AddToLru | mfsclient/mastercomm.c:493-516 | the limit is kept and the assertion on it never fails |
| OpenFiles.Table.AddEntry | mfsclient/mastercomm.c:518-544 | the entry keeps its count, gets the dentry flag and leaves the list; all others stay, and the table is sound |
| OpenFiles.Table.ForgetEntry | mfsclient/mastercomm.c:546-563 | the entry loses the dentry flag, and joins the list if it is idle; entries leave only from the head, over the limit, and never this one |
| OpenFiles.Table.IsOpen | mfsclient/mastercomm.c:565-583 | an inode is open exactly when it has an entry that is not on the list |
| OpenFiles.Table.IncAcnt | mfsclient/mastercomm.c:585-611 | the count goes up by one, with 16 bits; the table stays sound exactly unless the count of an entry without dentry flag wraps |
| OpenFiles.Table.DecAcnt | mfsclient/mastercomm.c:613-632 | the count goes down, not below zero, and an idle entry joins the list; entries leave only from the head and over the limit |
| OpenFiles.OpenTooOften | mfsclient/mastercomm.c:585-611 | 65536 opens of one file leave an entry that looks idle and is not on the list |
| OpenFiles.Table.SendOpenInodes | mfsclient/mastercomm.c:1960-2013 | the packet lists exactly the inodes left in the table, in strictly ascending order, after the idle ones aged |
| OpenFiles.SendReports | mfsclient/mastercomm.c:1969-2013 | over any number of reports an entry in use is in all of them and stays as it is; an idle one of age a is in exactly the next 10 - a |
| PathNormalize.Normalize | mfsclient/mfsioint_lookupcache.c:41-89 | the byte loop over the buffer keeps a stack of names: exact status, text and closing zero, for every path |
| PathNormalize.Idempotent | mfsclient/mfsioint_lookupcache.c:41-89 | a normal form is its own normal form, and within the limits |
| PathNormalize.SameMeaning | mfsclient/mfsioint_lookupcache.c:51-71 | in every tree of directories, from every place, a path and its normal form lead to the same place and end with the same name |
| PathNormalize.SameNormalForm | mfsclient/mfsioint_lookupcache.c:51-71 | two paths have the same normal form exactly when they lead to the same place and end with the same name |
| PathNormalize.RefusedExactly | mfsclient/mfsioint_lookupcache.c:53-61 | within the limits of names and paths, a path is refused exactly when some step leads above its start |

## Left out

- Failures of system calls, their roll-back and error counters, fsync, statistics and logging: calls on files succeed.
- The header bytes of a chunk file, file names and renames: a chunk is its version, table and data.
- Chunk files of version 1.0, and duptrunc between headers of different sizes.
- The second look at a buffer's checksum after it was written (hddspacemgr.c 3979 and 4128), which guards against memory that changes by itself.
- The checksum tables, block buffers and the kept rows of a split are sequence fields and locals that are reassigned, not arrays updated in place.
- Choice of disks and folders and lack of space; the locking of chunks is in ChunkLock and not combined with their contents.
- Splitting takes the mask of missing parts as a set of bit positions.
- hdd_int_version and hdd_int_test.
- A source of replicate is read before the groups are built, not request by request; timeouts, retries and the mode SIMPLE are not modelled.
- Replicator.Recover: the bound on the length of the result takes the place where the sources end as a specification-only argument; any sound value may be given.
- Connections of a write chain, its wrong-chunk and wrong-size cases and the forwarding of partial packets: a server may leave its loop at any time, with or without reporting an error.
- WriteQueue.Exchange.Pop: jobs that remain when a server ends are freed by a loop after the disk thread was joined; the model of the chain only marks that point.
- A thread of ChunkLock may also wake without a signal; the system's scheduling of threads that are awake is not modelled.
- The locks and the job pool are state machines on values, one step for each stretch under the mutex, not classes.
- Hash chains in ChunkLock, RwLock and JobPool: a table is one list or a map by key.
- Job ids are handed out again after 2^32 - 1 jobs; a job is made only when its id is free.
- JobPool.StatusCanCome: jobs still queued when the queue is closed are never taken out, as in the code; and that threads go on running is not modelled.
- The list of sockets of the NOP thread and its timing: a socket is on the list or not.
- Indexes with more than 2^31 entries, and files with more than one name in a directory for the index by inode.
- The links of hash chains and of the list of idle files in OpenFiles: both are sequences.
- chunksdatacache_clear_inode, called when an open-file entry leaves the table.
- PathNormalize.Normalize: a final "." or ".." is left as it is, as in the code; the byte behind the path that the loop reads before it looks at the length is not modelled.
- The path lookup cache itself (mfsioint_lookupcache.c), reference counts of inode lengths (inoleng.c), the testing of chunks, and the rest of the client and the chunk server.
