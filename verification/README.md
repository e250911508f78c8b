# RT-Thread port: files, heaps, IPC, shell

Five parts of the repository keep a fast, mutated representation of something simple. The project models
each of them with the fields and loops the C code has, and proves that the representation always stands for
the simple thing.

- **FAT files** (`Fat*.dfy`, `FileData.dfy`, `ClusterMap.dfy`, `LongNames.dfy`). A drive is a sequence of
  sectors; what it holds is the drive overlaid by the dirty sector window, and for a file also by the file's
  dirty buffer. On top of that: the three packings of FAT entries, cluster chains, reading, writing, seeking,
  the fast-seek map, truncation, long names, and formatting followed by mounting and by a first file.
- **Heaps** (`MemHeap*.dfy`, `SmallMem*.dfy`, `Heap*.dfy`, `DoubleLinks.dfy`). Both allocators cut a pool into
  blocks with headers. A heap stands for the byte sequences its users own.
- **IPC** (`Event.dfy`, `Mutex.dfy`, `Mailbox.dfy`, `Message*.dfy`, `IpcList.dfy`). Each region with interrupts
  off is one step; a theorem about all sequences of steps is one about all interleavings.
- **Shell** (`Finsh*.dfy`). The compiler turns a syntax tree into byte code without jumps, and the stack
  machine runs it; both agree with a direct evaluator, whose operators obey the laws of 32-bit arithmetic.
- **Ring buffer** (`RingBuffer.dfy`, `Ring.dfy`). Two indices with mirror bits stand for a bounded queue.

State that C updates in place is a class with those fields. A method's contract gives the new state as a
function or relation of the old one; the lemmas beside it say what that function means. Null-terminated
linked structures are maps from addresses to link fields. All addresses, sizes and counts are unbounded
numbers unless a contract bounds them; where the C type is narrow and wraps (`hold` of a mutex, the free
cluster count, cluster arithmetic in `f_mkfs`) the wrap is written out.

Some properties one would expect are false of the code. For each of these there is a concrete input, and the
exact condition under which the property holds:

- A mutex that its owner takes with 255 holds loses count. Inputs: `Mutex.TooDeep`, `Mutex.TooEarly`;
  condition: `Mutex.Reachable`.
- `rt_ringbuffer_put_force` that overflows leaves an empty buffer when the buffer is not empty and both
  indices are in the same mirror. Input: `RingBuffer.LostByForce`; condition: `RingBuffer.RingBuffer.PutForce`.
- `f_mkfs` can succeed with a volume that cannot be mounted, because no cluster is left. Input:
  `FatFormat.NoCluster`; condition: `FatFormat.WrittenMounts`.
- `f_truncate` neither writes nor drops the dirty buffer, nor the cluster map: the buffer may belong to a
  cluster that is free afterwards, and the map may describe one. Input: `FatCases.StaleBuffer`; condition, on
  the state before the call: `FatFile.File.Truncate`.
- `chk_mounted` accepts a volume whose clusters do not lie on the drive. Input: `FatMount.OffDrive`; condition:
  `FatMount.AcceptedIsSound`.
- A request for exactly the bytes of the last free block fails in both heaps. Inputs: `MemHeapCases.LastBytes`,
  `SmallMemCases.LastBytes`; conditions: `MemHeap.Heap.Alloc`, `SmallMem.Heap.Malloc`.
- A chain whose end mark is the number behind its last cluster makes the cluster map fail. Input:
  `FatCases.UnmappedChain`; condition: `FatFile.File.CreateLinkMap`.
- A FAT16 or FAT32 scan for free clusters counts entries 0 and 1 when they are zero, and a FAT12 scan that
  meets an invalid entry keeps a count that is too low. Inputs: `FatChain.Miscounted`; condition:
  `FatChain.ScanExact`.
- A name of 254 characters is stored but cannot be read back, one of 255 cannot be found either. Inputs:
  `LongNames.LongestNames`; conditions: `LongNames.RoundTrip`, `LongNames.ReadName`,
  `LongNames.AcceptedIffSame`.
- The shell's compiler gives an operator whose first operand is a system call no code, binary or unary, nor a
  `void*` variable. Inputs: `FinshProof.UntypedOperand`, `FinshProof.UntypedUnary`,
  `FinshProof.VoidPointerSkipped`; condition: `FinshProof.CompleteIffTyped`.
- `rt_realloc` may leave a free block below the search hint of `rt_malloc`, which then fails although that
  block fits. Input: `SmallMemCases.MissedBlock`; condition: `SmallMem.Heap.Realloc`.

## Model

| member | source | states |
|---|---|---|
| FatSession.Run | Filesystems/ff.c:2371-2948 | any run of f_read, f_write and f_lseek on one open file, in normal or fast seek mode, answers like the same run on a byte sequence with a cursor; a write or seek that falls short has used up the whole file and its last cluster; no sector outside the FAT changes but those of the file's own clusters, the boot sector, FSInfo and the root directory among those that stay; a grown chain has no spare cluster, and a right count of free clusters stays right |
| FatFile.File.Read | Filesystems/ff.c:2371-2462 | the answer is the slice of the content behind the cursor, cut at the end, whatever mix of buffered and direct sectors it comes from |
| FatFile.File.Write | Filesystems/ff.c:2472-2582 | exactly the answered bytes replace those at the cursor, the chain grows only as far as needed, no sector outside the FAT and the file's clusters changes, and the answer is short only behind the last cluster or when the size would reach 4 GiB |
| FatFile.File.Lseek | Filesystems/ff.c:2802-2951 | the cursor reaches the target, clipped or stretched by mode; the bytes below the old size and everybody else's stay |
| FatFile.File.NormalSeek | Filesystems/ff.c:2872-2948 | following or stretching the chain ends at the target, or on a full disk behind the last cluster |
| FatFile.File.FastSeek | Filesystems/ff.c:2845-2868 | the map alone gives the cursor, and the seek fails exactly when an empty map is stale |
| FatFile.File.CursorAtEnd | Filesystems/ff.c:2500-2512 | a cursor with no further cluster stands at the end of the file |
| FatFile.File.ChainFits | Filesystems/ff.c:2500-2512 | a chain whose last cluster begins before the size has as many clusters as the bytes take |
| FatGeometry.ClustersFollow | Filesystems/ff.c:797-806 | cluster 2 begins the data area, and each cluster begins where the one before it ends |
| FatGeometry.ClusterOfSector | Filesystems/ff.c:797-806 | every sector from the data area's start to the end of the last cluster belongs to a cluster |
| FileData.ByteAt | Filesystems/ff.c:2406-2455 | byte `off` of the `i`-th sector of the `m`-th cluster of the chain is the byte of the file at position (m * csize + i) * ss + off |
| FatFile.File.ClmtClust | Filesystems/ff.c:1035-1052 | the map gives the cluster with the number of the offset, and 0 beyond the map |
| FatFile.File.CreateLinkMap | Filesystems/ff.c:2819-2842 | a map that fits expands to the chain, the number of items needed is reported even when it does not fit, nothing is written behind the given length, and it fails exactly when the end mark follows the last cluster |
| FatCases.UnmappedChain | Filesystems/ff.c:2819-2842 | on a volume of two clusters, a file of both with end mark 4 cannot be mapped and is given up |
| ClusterMap.LookupExact | Filesystems/ff.c:1035-1052 | subtracting fragment lengths is indexing into the expanded map |
| ClusterMap.RunCountFragment | Filesystems/ff.c:2822-2838 | a maximal run of consecutive clusters is one fragment more |
| FatFile.File.Truncate | Filesystems/ff.c:3159-3198 | the first clusters that the remaining bytes take stay, the others become free, a right free count stays right, no sector outside the FAT changes, and the file stays sound exactly when, before the call, its dirty buffer belongs to a cluster that is left and its map describes no other |
| FatCases.StaleBuffer | Filesystems/ff.c:3159-3198 | a byte written into the second cluster, a seek back to where that cluster begins and a truncation leave a dirty buffer off the file |
| FileData.ClustersForCeil | Filesystems/ff.c:3176-3192 | the clusters kept are the quotient of the size and the cluster size, rounded up |
| FileData.StoredData | Filesystems/ff.c:2527-2551 | writing whole sectors to their places splices their bytes into the content |
| FileData.PatchedData | Filesystems/ff.c:2553-2569 | patching one sector splices those bytes into the content |
| FatVolume.Volume.MoveWindow | Filesystems/ff.c:716-748 | moving the window never changes the drive overlaid by it, and shows the wanted sector; moving to sector 0 writes everything back |
| FatVolume.Volume.GetFat | Filesystems/ff.c:816-849 | the entry of the overlaid volume, or 1 for a number outside it; the content stays |
| FatVolume.Volume.PutFat | Filesystems/ff.c:859-911 | one entry becomes the value cut to the entry width, all copies of the FAT agree, and no sector outside the FAT changes |
| FatPacking.PackedSame | Filesystems/ff.c:816-911 | a stored entry reads back cut to 12, 16 or 28 bits |
| FatPacking.PackedOther12 | Filesystems/ff.c:871-887 | every other FAT12 entry reads as before, even one that shares a byte |
| FatPacking.PackedTable | Filesystems/ff.c:859-911 | a store updates one slot of the decoded table |
| FatPacking.EntryBits | Filesystems/ff.c:816-849 | two FAT12 entries share three bytes by nibbles, a FAT16 entry is two bytes and a FAT32 entry the lower 28 bits of four, lowest byte first |
| FatPacking.LeastFat | Filesystems/ff.c:2115-2124 | the required size of a FAT ends with the last byte of its last entry |
| FatPacking.ReservedKept | Filesystems/ff.c:896-902 | the four reserved bits of a FAT32 entry survive a store |
| FatVolume.Volume.Sync | Filesystems/ff.c:758-787 | afterwards the drive itself is the content, with the counts in the FSInfo sector when they changed |
| FatInfo.FsInfoRoundTrip | Filesystems/ff.c:766-780 | mounting reads the counts that were stored |
| FatInfo.FsInfoBytes | Filesystems/ff.c:2136-2146 | mounting takes the counts from bytes 488 to 495 if "RRaA", "rrAa" and 0x55 0xAA stand at 0, 484 and 510, and nothing otherwise |
| FatInfo.FsInfoRest | Filesystems/ff.c:766-780 | every other byte of a stored FSInfo sector is zero, up to byte 512 |
| FatVolume.Volume.CreateChain | Filesystems/ff.c:975-1024 | 0 means exactly that no entry is free and none marked invalid, whatever the hint; otherwise the first entry that stops the scan, upwards from behind the hint and then from cluster 2, decides: an invalid one is an error, a free one is put at the end; a known right count stays right |
| FatVolume.Volume.RemoveChain | Filesystems/ff.c:922-964 | entries are zeroed along the chain, on cyclic tables too, and a known right count stays right |
| FatVolume.Volume.GetFree | Filesystems/ff.c:3094-3150 | a plausible count is returned as it is, otherwise the scan counts zero entries; on FAT12 it fails at an invalid entry |
| FatChain.ScanExact | Filesystems/ff.c:3118-3143 | the scan finds the number of free clusters exactly when, on FAT12, no free cluster is behind an invalid one, and else entries 0 and 1 are not zero |
| FatChain.Miscounted | Filesystems/ff.c:3094-3150 | a FAT12 table with a free cluster behind an invalid one, and a FAT16 table with reserved entries of zero, are miscounted |
| FatChain.FamilyStretched | Filesystems/ff.c:1004-1021 | appending a free cluster to one chain keeps all chains disjoint and whole |
| FatChain.FamilyCreated | Filesystems/ff.c:1004-1021 | a new chain of one free cluster joins the others |
| FatChain.FamilyRemoved | Filesystems/ff.c:922-964 | removing a chain frees exactly its clusters and keeps the others |
| FatChain.FamilyCut | Filesystems/ff.c:3176-3192 | cutting a chain leaves its front and the other chains |
| FatChain.AllTruncated | Filesystems/ff.c:3176-3192 | truncating keeps the front, the other chains, and frees exactly the rest |
| FatChain.FreeAllocated | Filesystems/ff.c:1013-1018 | allocating takes exactly one from the number of free clusters |
| FatChain.ChainRemoved | Filesystems/ff.c:930-948 | removing adds exactly the length of the chain to the number of free clusters |
| FatFormat.Drive.Mkfs | Filesystems/ff.c:3573-3781 | the outcome is decided by the plan and by whether the system areas lie within the drive; success leaves the boot record, an empty FAT, a cleared root directory and FSInfo, and the drive mounts with the chosen sub-type and cluster count, or is refused because it has no cluster |
| FatFormat.WrittenMounts | Filesystems/ff.c:3691-3724 | chk_mounted finds the written volume, behind a partition table or not, and derives the layout that was chosen |
| FatFormat.TableBytes | Filesystems/ff.c:3657-3683 | the line of the partition table, byte by byte, with the last cylinder in 10 bits |
| FatFormat.WrittenIsEmpty | Filesystems/ff.c:3730-3752 | the new FAT holds the chain of a FAT32 root directory and nothing else, all other clusters are free, and FSInfo counts them |
| FatFresh.FirstEntries | Filesystems/ff.c:3730-3749 | entries 0 and 1, and 2 on FAT32, have the reserved values of each sub-type, and all others are 0 |
| FatFirstFile.MountFormatted | Filesystems/ff.c:2095-2151 | a formatted drive with a cluster becomes a sound volume with the same content, whose only chain is that of a FAT32 root directory and whose free count, on FAT32, is right |
| FatFirstFile.RootIsEmpty | Filesystems/ff.c:3753-3758 | where the mounted volume looks for its root directory, in the first sectors of cluster 2 on FAT32, every sector is zero |
| FatFirstFile.FormatAndOpen | Filesystems/ff.c:3573-3781 | formatting, mounting and opening a first file succeed together exactly when the new volume has a cluster and no more than FAT32 has numbers for; the file is sound and empty, so that any run of FatSession can start on it |
| FatLayout.PlanSound | Filesystems/ff.c:3607-3656 | the data area begins at a multiple of the erase block, the FAT has room for all clusters, and the final count agrees with the sub-type |
| FatLayout.FatExact | Filesystems/ff.c:3624-3634 | the FAT is as small as it can be for the clusters it is reckoned for |
| FatLayout.AutoClusters | Filesystems/ff.c:3607-3612 | on sectors of 512 bytes the automatic unit gives at most 4000 clusters and FAT12 below 128000 sectors, 32000 to 64000 clusters and FAT16 below 2048000, and units of 32768 bytes above |
| FatMount.LaidIsAccepted | Filesystems/ff.c:2084-2128 | a sound layout is accepted with the same sub-type, cluster count and places, and refused exactly when it has no cluster |
| FatMount.BpbBytes | Filesystems/ff.c:2079-2111 | each field of the boot record is the number in its bytes, lowest first |
| FatMount.BootRecordIs | Filesystems/ff.c:1979-1997 | a boot record ends with 0x55 0xAA at 510 and has "FAT" at 54 or 82 |
| FatMount.FirstPartition | Filesystems/ff.c:2063-2074 | without a boot record in sector 0 the volume starts where bytes 454 to 457 say, if byte 450 is not zero |
| FatMount.AcceptedExactly | Filesystems/ff.c:2079-2124 | any boot record whose sums do not wrap is accepted if and only if sector size, copies, cluster size, reserved sectors, root directory, room and FAT size are right |
| FatMount.AcceptedIsSound | Filesystems/ff.c:2079-2124 | what is accepted has its areas one behind the other, as many clusters as fit and the sub-type of that number; it is sound exactly when the clusters lie on the drive |
| FatMount.OffDrive | Filesystems/ff.c:2079-2124 | a boot record for 100 sectors is accepted on a drive of 50 |
| FatLayout.SelectUnit | Filesystems/ff.c:3607-3612 | the unit is that of the first table line the volume is large enough for, and a power of two |
| FatFormat.NoCluster | Filesystems/ff.c:3643-3656 | 128 sectors with erase blocks of 128 sectors get a plan without a cluster |
| LongNames.StoreName | Filesystems/ff.c:1497-1532 | the entries hold the name, its last part first, each with its number, flag and sum |
| LongNames.FitLfn | Filesystems/ff.c:1245-1270 | one entry holds its 13 characters, the 0 and the fillers; no other byte changes |
| LongNames.EntryBytes | Filesystems/ff.c:1245-1270 | an entry byte by byte: number and flag 64, attribute 15, sum, and 13 characters in the gaps at 1, 14 and 28 |
| LongNames.OneIsLast | Filesystems/ff.c:1268-1269 | the flag of the last part is on exactly one entry |
| LongNames.ReadName | Filesystems/ff.c:1432-1440 | reading the entries back succeeds exactly for names of at most 253 characters, and yields the name |
| LongNames.PickLfn | Filesystems/ff.c:1212-1240 | an arbitrary entry is taken exactly when its fillers are right and it fits the buffer |
| LongNames.CmpLfn | Filesystems/ff.c:1181-1207 | an arbitrary entry is accepted exactly when its characters agree with the name in upper case and the name ends with it |
| LongNames.AcceptedIffSame | Filesystems/ff.c:1181-1207 | all entries of a name are accepted exactly when both names are equal in upper case and shorter than 255 characters |
| LongNames.MatchName | Filesystems/ff.c:1376-1385 | so decides the scan that follows the part numbers |
| LongNames.RoundTrip | Filesystems/ff.c:1181-1532 | a name that has been stored is found exactly when it has at most 254 characters, and read back, as it was, exactly when it has at most 253 |
| LongNames.LongestNames | Filesystems/ff.c:1181-1440 | 254 letters are found and not read, 255 not even found |
| MemHeapSession.Run | Kernel/memheap.c:60-596 | any program of allocations, releases, resizes and stores on a new heap sees a table of independent byte sequences; the blocks always tile the pool, no two free ones are neighbours, the free list holds exactly the free ones, the free byte count is their sum, and in the end only what the program has is in use |
| MemHeap.Heap.Alloc | Kernel/memheap.c:146-288 | the first block of the free list that has the bytes asked for, or 12, is given out, with fewer than 4 bytes of rounding and no block wasted; it fails exactly when no free block has them or the rounded request is not below the free byte count |
| MemHeap.Heap.Free | Kernel/memheap.c:499-596 | the block is gone from what is owned, the others stay, and free neighbours are merged |
| MemHeap.Heap.Realloc | Kernel/memheap.c:291-496 | the common bytes and all other blocks stay; it grows in place exactly when the free block behind is large enough, shrinks in place, and else moves; it fails only when no free block has the bytes asked for or the count is too low |
| HeapLive.RoundedLeast | Kernel/memheap.c:153-157 | the reserved size is the least multiple of 4 that is not below the request and the smallest block |
| MemHeapCases.LastBytes | Kernel/memheap.c:146-170 | a new pool of 76 bytes gives out 20 bytes and refuses 28, although its block has 28 |
| MemHeap.Heap.BlocksApart | Kernel/memheap.c:146-288 | the bytes of two owned blocks do not overlap |
| SmallMemSession.Run | Kernel/mem.c:136-559 | the same for rt_malloc, rt_free and rt_realloc, resizes to no bytes included; without rt_realloc the hint is the lowest free block all the time |
| SmallMem.Heap.Malloc | Kernel/mem.c:246-375 | the first free block at or above the hint that has the bytes asked for, or 12, is given out, the lowest of all when the hint is the lowest, with fewer than 4 bytes of rounding; it fails exactly when there is none that ends a word before the heap does |
| SmallMemCases.FirstBytes | Kernel/mem.c:246-300 | a heap of 28 bytes gives out 20 bytes |
| SmallMemCases.LastBytes | Kernel/mem.c:246-300 | it refuses 28 bytes, although its block has 28 |
| SmallMem.Heap.Free | Kernel/mem.c:505-559 | the block is gone from what is owned, and the hint stays the lowest free block |
| SmallMem.Heap.Realloc | Kernel/mem.c:386-467 | the block stays in place exactly by the two tests of the code and else moves; the common bytes and all other blocks stay; a resize to no bytes keeps the block or fails, any other fails only when no free block at or above the hint has the bytes asked for; a lowest hint stays lowest exactly when no free block is cut off below it |
| SmallMem.Heap.Shrink | Kernel/mem.c:431-454 | after a shrink the hint is the lowest free block if and only if it was below the block or right behind it |
| SmallMemCases.MissedBlock | Kernel/mem.c:386-467 | in a heap of 100 bytes, a block of 96 resized to 12 leaves a free block that fits 12 bytes, and a request of 12 bytes fails |
| SmallMem.Heap.PlugHoles | Kernel/mem.c:136-174 | merging changes nothing that is owned and keeps a lowest hint |
| SmallMem.TallyIsUsed | Kernel/mem.c:306-359 | used_mem is the total extent of the used blocks |
| HeapProgram.NothingLeft | Kernel/memheap.c:499-596 | when a program has given everything back, nothing is in use |
| HeapTiling.TiledInserted | Kernel/memheap.c:186-218 | cutting a block keeps the blocks an exact tiling |
| HeapTiling.SumInserted | Kernel/memheap.c:186-218 | the sum of free bytes loses a header when a free block is cut |
| DoubleLinks.Insert | Kernel/memheap.c:206-218 | four link stores put a header into a circle |
| DoubleLinks.Drop | Kernel/memheap.c:524-560 | two link stores take a header out of a circle |
| Event.Event.Send | Kernel/ipc.c:998-1077 | one scan of the waiting threads does what the immediate path of rt_event_recv would do for each in turn; whoever wakes was waiting and got all, or some, of the flags it wants; whoever still waits misses a flag, or has none; a flag goes only if a waiting thread that clears wants it |
| Event.Event.Recv | Kernel/ipc.c:1093-1201 | a thread receives at once exactly when every flag, or some flag, that it wants is set, gets just the wanted flags that are set, and takes them out only when it clears; any other waits or gives up |
| Event.SatisfiedIff | Kernel/ipc.c:1123-1131 | the condition of a wish, flag by flag |
| Event.ServedRight | Kernel/ipc.c:1016-1060 | a scan serves the first thread first when its condition is met, serves only waiting threads, each with what it wants, and takes no flag that nobody clears |
| Event.ServeQuiet | Kernel/ipc.c:1016-1060 | after a send no waiting thread is satisfied, since serving only takes flags away |
| Event.RunCalm | Kernel/ipc.c:998-1201 | in every reachable state no waiting thread is satisfied |
| Mutex.Reachable | Kernel/ipc.c:642-859 | in every run there is at most one owner, at least as urgent as itself and all waiting threads; the counts are right throughout if and only if no owner takes the mutex with 255 holds |
| Mutex.StepExact | Kernel/ipc.c:663-667 | one step keeps the counts right if and only if it is not such a take |
| Mutex.LastRelease | Kernel/ipc.c:800-845 | the last release gives the owner its own priority back and the mutex to the most urgent waiting thread, the earliest among equals |
| Mutex.TooDeep | Kernel/ipc.c:663-667 | after 256 takes there is an owner and no hold |
| Mutex.TooEarly | Kernel/ipc.c:800-845 | after 257 takes one release hands the mutex on |
| Mutex.Mutex.Take | Kernel/ipc.c:642-761 | nesting, taking a free mutex, giving up or queueing with priority inheritance change the fields exactly as the step that the invariants are about |
| Mutex.Mutex.Release | Kernel/ipc.c:772-859 | a release by the owner, and nobody else's, counts down and at 0 restores the priority and hands over, exactly as that step |
| IpcList.SuspendedSorted | Kernel/ipc.c:92-135 | a thread joins a list by priority behind all that are as urgent, and the list stays sorted |
| IpcList.FindPlace | Kernel/ipc.c:105-130 | the scan finds that place |
| Mailbox.NoneStranded | Kernel/ipc.c:1406-1676 | in any interleaving a sleeping receiver means an empty mailbox and a sleeping sender a full one, up to threads that are woken and have not run; mails come out in order, each once |
| Mailbox.Mailbox.TrySend | Kernel/ipc.c:1406-1524 | with room, the mail goes behind the others and the first sleeping receiver is woken; on a full mailbox nothing changes but that the sender waits, in its place in the list, or gives up |
| Mailbox.Mailbox.TryRecv | Kernel/ipc.c:1553-1676 | the oldest mail comes out and the first sleeping sender is woken; on an empty mailbox nothing changes but that the receiver waits or gives up |
| Mailbox.Mailbox.RunAll | Kernel/ipc.c:1406-1676 | in any run the mails whose senders were answered that they went in are those that receivers got, in order, followed by those still there |
| MessageQueue.Mq.RunAll | Kernel/ipc.c:1926-2280 | whatever the threads do between and inside their copies, the queue object follows the protocol, and every receiver gets the bytes of the message it took |
| MessageProtocol.Reachable | Kernel/ipc.c:1926-2280 | in every interleaving no slot is lost, each message is received once, dropped once or still waits, urgent ones stand in front latest first and the others behind earliest first, and none waits beside a sleeping receiver |
| MessageProtocol.InOrder | Kernel/ipc.c:1926-2223 | without urgent messages and resets the queue is first in, first out |
| MessageProtocol.SendWorks | Kernel/ipc.c:1926-2092 | a send that finds a slot puts exactly its payload at its place in the queue, after as many turns as it has bytes and one for the link, whatever other threads do in between |
| MessageProtocol.RecvWorks | Kernel/ipc.c:2095-2223 | a receive that finds a message returns with the first bytes of just that message, the length asked for or the message size if that is less, whatever others do in between |
| MessageQueue.Mq.Send | Kernel/ipc.c:1926-2092 | an undisturbed send: the message is in the queue, or nothing has changed for the stated reason |
| MessageQueue.Mq.Recv | Kernel/ipc.c:2095-2223 | an undisturbed receive: the first message is gone and the caller has its first bytes |
| MessageQueue.Mq.SendBegin | Kernel/ipc.c:1935-1963 | the first free node becomes the sender's, for exactly that payload, or the message is too long or the queue full and nothing changes |
| MessageQueue.Mq.SendEnd | Kernel/ipc.c:1970-2000 | the filled node is linked behind the last one, or in front when urgent, and the first waiting thread is woken |
| MessageQueue.Mq.RecvBegin | Kernel/ipc.c:2120-2198 | the first node becomes the receiver's, who will copy the length asked for or the message size if that is less; on an empty queue the thread waits in its place or gives up |
| MessageQueue.Mq.RecvEnd | Kernel/ipc.c:2203-2213 | the node is free again, and the caller has as many bytes of the message as it asked for |
| MessageQueue.Mq.Reset | Kernel/ipc.c:2243-2277 | all messages are dropped and their nodes free; threads inside a copy keep theirs |
| MessageQueue.Mq.constructor | Kernel/ipc.c:1740-1787 | the nodes lie in the pool without overlap, as many as fit, and all are free |
| MessageNodes.MostSlots | Kernel/ipc.c:1762-1764 | one more node would not fit |
| FinshMachine.Shell | Finsh/finsh_compiler.c:903-935 | compiling and running statements leaves the value of the last one and the memory of direct evaluation |
| FinshProof.BodyRuns | Finsh/finsh_compiler.c:43-757 | the code of any expression raises the stack by exactly its value, that of an l-value by its address, with the memory of left-to-right evaluation and lower cells untouched |
| FinshProof.ListRuns | Finsh/finsh_compiler.c:43-63 | the code of arguments pushes their values in order |
| FinshProof.ShellRuns | Finsh/finsh_compiler.c:914-935 | program and trailing zeros leave the value of the last statement at the bottom and nothing above |
| FinshFull.FullRuns | Finsh/finsh_compiler.c:43-757 | the code with the opcodes of every node computes the value or address of any well-shaped tree, whatever its types |
| FinshProof.FullProgramRuns | Finsh/finsh_compiler.c:903-935 | the same for statements: the last value is left |
| FinshProof.CompleteIffTyped | Finsh/finsh_compiler.c:43-901 | the compiler emits that complete code of a well-shaped tree if and only if, at every depth, each operator that tests its type finds a double word and no variable is a `void*`; otherwise the code is strictly shorter |
| FinshProof.ProgramCompleteIffTyped | Finsh/finsh_compiler.c:903-935 | the same for lists of statements |
| FinshProof.UntypedOperand | Finsh/finsh_compiler.c:759-901 | a binary operator with an untyped first operand leaves both operands on the stack |
| FinshProof.UntypedUnary | Finsh/finsh_compiler.c:759-901 | a complement or dereference of an untyped operand leaves the operand itself |
| FinshProof.VoidPointerSkipped | Finsh/finsh_compiler.c:66-150 | a `void*` variable has a type and no code |
| FinshMachine.Compiler.Compile | Finsh/finsh_compiler.c:43-757 | the tree walk appends the code of the tree to the text segment |
| FinshMachine.Machine.Run | Finsh/finsh_vm.c:47-72 | the fetch loop halts at the end of the text, in the state that the code leads to |
| FinshMachine.Machine.OpCall | Finsh/finsh_ops.c:444-569 | a call takes its arguments and the function below them off the stack and leaves the result there |
| FinshTree.LoadStored | Finsh/finsh_ops.c:317-434 | a stored double word is loaded again from its four bytes |
| FinshLaws.Bitwise | Finsh/finsh_ops.c:164-229 | and, or and exclusive or, bit by bit |
| FinshLaws.SameBits | Finsh/finsh_ops.c:164-229 | the bits determine the word |
| FinshLaws.Modular | Finsh/finsh_ops.c:54-163 | sums, differences and products are exact up to a multiple of 2^32 |
| FinshLaws.Division | Finsh/finsh_ops.c:98-141 | quotient and remainder belong together, the remainder is smaller than the divisor and has the sign of the dividend |
| FinshLaws.ShiftsLeft | Finsh/finsh_ops.c:252-273 | a shift to the left moves every bit up and fills with zeros |
| FinshLaws.ShiftsRight | Finsh/finsh_ops.c:274-295 | a shift to the right divides by a power of two and rounds down |
| FinshLaws.Complements | Finsh/finsh_ops.c:230-251 | a word and its complement add up to 2^32 - 1, and differ in every bit |
| FinshLaws.FourBytes | Finsh/finsh_ops.c:296-434 | a stored word lies in four bytes, lowest first, and no other byte changes |
| FinshLaws.Assigned | Finsh/finsh_compiler.c:311-372 | after an assignment the variable has the value of the expression |
| FinshLaws.Incremented | Finsh/finsh_compiler.c:373-713 | both forms of ++ and -- change the variable by 1; the one is its new value and the other its old one |
| FinshLaws.LeftToRight | Finsh/finsh_compiler.c:43-63 | operands and arguments are evaluated from left to right |
| FinshLaws.LeftmostLeaf | Finsh/finsh_compiler.c:759-901 | the type of an expression is that of its leftmost leaf, and a system call has none |
| RingBuffer.RingBuffer.Put | DeviceDrivers/ringbuffer.c:50-91 | the longest prefix that fits is appended |
| RingBuffer.RingBuffer.PutForce | DeviceDrivers/ringbuffer.c:99-144 | what fits is appended; on overflow the content is replaced by one buffer length of data, or lost exactly when the buffer is not empty and both indices are in the same mirror |
| RingBuffer.LostByForce | DeviceDrivers/ringbuffer.c:99-144 | a buffer of four bytes that holds one is empty after four more are forced in |
| RingBuffer.RingBuffer.Get | DeviceDrivers/ringbuffer.c:150-191 | the longest available prefix is removed and returned |
| RingBuffer.RingBuffer.PutChar | DeviceDrivers/ringbuffer.c:197-219 | one byte is appended unless the buffer is full |
| RingBuffer.RingBuffer.PutCharForce | DeviceDrivers/ringbuffer.c:227-256 | on a full buffer exactly the oldest byte gives way |
| RingBuffer.RingBuffer.GetChar | DeviceDrivers/ringbuffer.c:262-284 | the oldest byte is removed and returned |
| RingBuffer.RingBuffer.DataLen | DeviceDrivers/include/rtdevice.h:224-240 | the length lies between 0 and the size and leads from the read index to the write index |
| Ring.QueueFront | DeviceDrivers/ringbuffer.c:165-190 | reading one or two slices is reading the front of the queue |
| Ring.QueueBack | DeviceDrivers/ringbuffer.c:66-90 | writing one or two slices is writing behind its end |

## Left out

FAT files:

- Disk errors: every read and write within the drive succeeds; only a write outside it fails.
- Several open files at once, file sharing and locks, f_sync and the directory entry of a file.
- Directories: search, names of 8.3 form, code pages; upper case is any function that keeps 0.
- f_truncate is in no run of FatSession, because the file need not be sound afterwards.
- FatFirstFile: the entry of the new file in the root directory.
- FatFile: the branches that abort on a broken chain cannot be reached from a sound file and are not written.
- FatFormat: the drive is one physical drive, the volume number is 0, the time stamp a parameter; erase
  blocks are powers of two; the layout theorem is for at most 0x0FFFFFF5 clusters.
- FatMount: boot records whose sums of sector numbers wrap around at 2^32.
- LongNames: names with the characters 0 or 0xFFFF, and the search for blank directory entries.

Heaps:

- Locks, hooks and statistics other than the byte counts; sizes near 2^32, where alignment wraps.
- Header fields are kept in maps, not as bytes of the pool; a new header destroys what it overlaps.
- SmallMem: heaps too small for one block; the field `prev` of the last block, which the code does not keep
  up, is not part of the chain.
- Blocks of a foreign heap, double releases, and the list of several heaps.

IPC:

- The scheduler and timers: suspending, waking and running out of time move a thread between lists.
- Semaphores, deleting and detaching objects, hooks, and use from interrupts.
- Mutex: one mutex at a time, with the priority flag; threads change priority only because of it.
- Event: sets of flags are sets of bit numbers.

Shell:

- Byte and word types, character constants, strings, the parser, and the disassembler.
- The tree is a value and the type pass a function that returns the typed tree.
- Division by zero and shifts by 32 or more, which C does not define, give 0.
- Programs that outgrow the text segment or the stack; the contracts say when they fit.
- The memory that programs read and write is a map of its own: a store through a pointer never reaches the
  text segment or the stack of the virtual machine.

Ring buffer:

- RingBuffer: `rt_ringbuffer_put_force` reads one buffer length from the caller even for a shorter request;
  the contract asks that so much is there.
