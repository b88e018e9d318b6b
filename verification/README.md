# A verified model of the PeachOS kernel's storage, memory and scheduling core

This Dafny project models the parts of a small x86 kernel in which several functions have to keep
a shared structure in step, and proves what they keep over every run.

**The FAT16 driver over the sector streamer** is the main part. Two FAT copies, an on-disk root
directory, its in-memory cache and the cluster data area live in one byte image; opening, writing,
deleting, listing and reading all move through cluster chains. The model has two levels. The pure
level describes a mounted volume (`FileSystem.Volume`) and what each operation makes of it; here
the invariants, the whole-run theorems and the read-back theorem are proved. The imperative level
(`Streamer.DiskStream`, `Driver.Fat16`, `Driver.FileHandle`, `Execution`, `Session`) follows the C code sector
by sector and byte by byte, and every method is proved to do exactly what the pure level says, on
the bytes of the disk. An operation's pure result includes a fault outcome for a link that leaves
the table or the volume; the invariant theorems show that it does not occur. `Execution.ExecuteAll`
joins the two levels for whole runs: any allowed list of operations, with any number of files open,
carried out on the disk, ends in the state of the pure run.

**Supporting parts**: the kernel heap and the page directories built from it, the round-robin task
list with its timer tick, the keyboard ring, and the path parser. Each is a class or a method with
loops, as in the source, proved against a function or relation whose properties are then proved
for all inputs and all runs.

| file | contents |
|---|---|
| `Bytes.dfy` | words, little-endian coding, splices of a byte sequence |
| `Streamer.dfy` | disk, streamed reads and writes |
| `FatChains.dfy` | the FAT as a graph: allocation, walking, extending, freeing, conservation |
| `FileData.dfy`, `FileWrite.dfy`, `FileRead.dfy` | file bytes over a chain; the write loop; the recursive read |
| `Names.dfy`, `Directory.dfy` | 8.3 names; slots, lookups, listing |
| `FileSystem.dfy`, `Runs.dfy`, `Accounting.dfy`, `Reading.dfy` | operations, invariant, whole runs, chain lengths, read-back |
| `Layout.dfy`, `Driver.dfy`, `Execution.dfy`, `Session.dfy` | byte regions; the driver over them; whole runs on the disk; save and load end to end |
| `Heap.dfy`, `Paging.dfy` | first-fit block heap; two-level page tables |
| `Scheduler.dfy`, `Keyboard.dfy`, `PathParser.dfy` | task list and tick; key ring; path parser |

`dafny verify dfyconfig.toml` checks the whole project.

## Where the code does less than it sets out to do

Each of these is stated as an exact condition, for all inputs, with the failing case named.

- A streamed read copies past its sector buffer unless it starts on a sector or stays inside one
  (`Streamer.ReadInBufferIff`). The write path clips by the offset and needs no such condition.
- A read that starts inside a cluster is not cut at the end of that cluster: it is right for all
  contents exactly if every cluster it crosses into lies next to the one before it on the disk
  (`FileRead.FaithfulIff`; `FileRead.GapExample` on the chain [2, 4]).
- The reader tests 12-bit end marks on 16-bit entries: it refuses certain valid cluster numbers
  (`FileRead.LocateInChain`) and does not notice the end of a chain (`FileRead.LocatePastEnd`).
- A file without clusters has first cluster 0, which the reader takes for a cluster: any read near
  its start succeeds with bytes from before the data area (`Reading.EmptyFileFaults`,
  `Layout.ClusterZeroBeforeData`).
- A write that runs out of space loses clusters exactly if the file had none and some were free
  (`FileSystem.WriteKeeps`); then it loses all of them.
- A write of zero bytes on a cluster boundary at or past the end of the file allocates a cluster
  the file does not need (`Accounting.WriteTightIff`, `Accounting.HollowExample`).
- A created file is found again under its name exactly if the name fits the 8.3 form and does not
  begin with the deletion mark (`Runs.ReopenIff`; `Runs.NineCharacters` for a name of nine).
- The entry count taken at mount serves as a slot bound, which is right exactly if no entry before
  the end mark is deleted (`Directory.CountIsBoundIff`, `Directory.DeletedHidesFile`).
- The parameter block of the kernel's own boot sector describes more bytes than a C `int` can
  address (`Layout.BootBpbTooLarge`).
- The heap scan can answer with a free run at the end of the table that is too short
  (`Heap.ScanCorrectIff`, `Heap.ScanTooShort`).
- A failed copy of a page directory leaks every free block if at least two were free
  (`Paging.Kernel.Copy4gb`); looking up an unaligned address gives the entry of page 0
  (`Paging.Kernel.Get`).
- Unlinking a task does not repair its successor's back link, so the list stays valid exactly if
  the task was the last (`Scheduler.TaskList.Remove`).
- The key ring has no test for full, empty or zero: a push appends exactly if the character is not
  zero and there is room (`Keyboard.PushIff`, `Keyboard.FullPushOvertakes`), a backspace is right
  exactly if there is a character (`Keyboard.BackspaceIff`, `Keyboard.EraseTooFar`).

## Model

| member | source | states |
|---|---|---|
| Streamer.ReadInBufferIff | src/disk/streamer.c:25-51 | a streamed read stays inside its sector buffers exactly if it starts on a sector or stays in one |
| Streamer.DiskStream.Read | src/disk/streamer.c:25-51 | the recursive read gives the image's bytes at the position and moves past them |
| Streamer.DiskStream.Write | src/disk/streamer.c:53-84 | recursive read-modify-write over any number of sectors is one splice of the image; no byte outside the window changes |
| FatChains.ChainUnique | src/fs/fat/fat16.c:641-653 | a table has at most one chain from a given cluster |
| FatChains.AllocFirst | src/fs/fat/fat16.c:597-638 | allocating without a predecessor marks the lowest free cluster 0xFFFF, which makes a new one-cluster chain, or reports full exactly if none is free |
| FatChains.HopAlongChain | src/fs/fat/fat16.c:699-711 | a move inside a chain follows it, a move from its end lengthens it by a free cluster and changes nothing else, and never leaves the volume |
| FatChains.HopNumbers | src/fs/fat/fat16.c:699-711 | links from 2 to 0xFFF7 are followed; at any other entry the lowest free cluster is marked 0xFFFF and linked |
| FatChains.WalkAlongChain | src/fs/fat/fat16.c:691-713 | walking k moves lengthens the chain by exactly the clusters it lacks, or, when they do not suffice, by all free ones |
| FatChains.ExtendsFree | src/fs/fat/fat16.c:621-638 | lengthening a chain takes exactly its new clusters from the free set |
| FatChains.FreeChain | src/fs/fat/fat16.c:641-653 | freeing ends on any table, cyclic or crossed; entries stay or become zero, and the first does become zero |
| FatChains.FreeWholeChain | src/fs/fat/fat16.c:641-653 | on a chain it zeroes that chain's entries and no others |
| FatChains.ExtendOne | src/fs/fat/fat16.c:674-750 | lengthening one chain leaves all chains well formed and pairwise disjoint |
| FatChains.ExtendOrphans | src/fs/fat/fat16.c:674-750 | and loses no cluster |
| FatChains.DropOne | src/fs/fat/fat16.c:861-870 | freeing one chain leaves all others well formed and disjoint |
| FatChains.DropOrphans | src/fs/fat/fat16.c:861-870 | and loses no cluster: exactly that chain's clusters become free |
| FatChains.ClusterAccounting | src/fs/fat/fat16.c:597-653 | every cluster is free, on exactly one chain, or lost: the three counts add up to the number of clusters |
| FileData.FillIsWalkAndLay | src/fs/fat/fat16.c:715-747 | the interleaved write loop equals a walk along the chain followed by laying the data on the clusters it stood on |
| FileData.LayOnChain | src/fs/fat/fat16.c:715-747 | data laid on consecutive clusters of a chain is one overlay on the file's bytes, cut at the end of those clusters |
| FileRead.LocateInChain | src/fs/fat/fat16.c:375-405 | the reader finds the right cluster of a chain or reports an error, by the links on the way alone |
| FileRead.FollowedIff | src/fs/fat/fat16.c:387-399 | it finds it exactly if none of the clusters it goes to is numbered 0xFF0, 0xFF6, 0xFF7, 0xFF8 or 0xFFF, so always on a volume with clusters below 0xFF0 only |
| FileRead.LocatePastEnd | src/fs/fat/fat16.c:384-400 | one link past the end it takes the end mark for a cluster number |
| FileRead.ReadOnChain | src/fs/fat/fat16.c:407-441 | from a cluster boundary, or inside one cluster, the recursive read gives the file's bytes, or fails exactly if a link it needs is refused |
| FileRead.FaithfulIff | src/fs/fat/fat16.c:421-439 | a read is right for every content of the clusters exactly if it starts on a cluster boundary or crosses only between clusters adjacent on the disk |
| FileRead.GapExample | src/fs/fat/fat16.c:421-439 | on the chain [2, 4] of 1024-byte clusters a read of 1024 bytes from byte 512 on is wrong |
| FileWrite.WriteOnChain | src/fs/fat/fat16.c:691-749 | a write to a file with clusters succeeds exactly if the clusters it lacks are free; the chain grows by exactly those, and the bytes land at the offset and nowhere else |
| FileWrite.WriteFirst | src/fs/fat/fat16.c:682-690 | the same for a file without clusters, on a fresh chain |
| FileWrite.TightIsCeiling | src/fs/fat/fat16.c:1001-1006 | exactly the clusters a size needs is size divided by cluster size, rounded up |
| FileWrite.WriteKeepsTight | src/fs/fat/fat16.c:715-747 | a write of at least one byte, inside, on a boundary or past the end, keeps the chain exactly as long as the size needs |
| Names.CompareNames | src/string/string.c:49-63 | istrncmp is zero exactly if the strings agree up to case over their first n bytes |
| Names.SameLetterIff | src/string/string.c:3-11 | two bytes compare equal exactly if they are the same or the two cases of one letter |
| Names.NameTo83 | src/fs/fat/fat16.c:792-812 | the conversion loop gives the upper-cased, padded fields of a name |
| Names.FieldBytes | src/fs/fat/fat16.c:794-811 | the bytes stored for a name: up to eight before the first dot, up to three after, letters capital, the rest spaces |
| Names.RoundTripIff | src/fs/fat/fat16.c:288-318 | converting a name to fields and back gives a name equal up to case exactly for the representable names |
| Names.FieldsIffSameName | src/fs/fat/fat16.c:792-812 | representable names get the same fields exactly if they are equal up to case |
| Directory.ItemRoundTrip | src/fs/fat/fat16.c:815-828 | a directory entry survives being written to its 32 bytes and read back |
| Directory.SlotRoundTrip | src/fs/fat/fat16.c:222-232 | any 32 bytes survive being read as an entry and written back |
| Directory.SlotBytes | src/fs/fat/fat16.c:67-82 | the byte offsets of name, attribute, first cluster and size in a slot, low bytes first |
| Directory.SlotKind | src/fs/fat/fat16.c:762-767 | the byte values that make a slot unused, live and listed |
| Directory.LookupsAgree | src/fs/fat/fat16.c:528-541 | the read lookup (last match below the total) and the write lookup (first match before the end mark) find the same slot |
| Directory.ListingIsLive | src/fs/fat/fat16.c:1054-1077 | the listing shows exactly the live slots |
| Directory.Listing | src/fs/fat/fat16.c:1060-1075 | listed slots are in use, pass the attribute test and come in strictly rising order, so each once |
| Directory.ListedNameFound | src/fs/fat/fat16.c:753-773 | every listed name leads both lookups back to its slot |
| Directory.FreeSlot | src/fs/fat/fat16.c:776-788 | the slot handed out is the first that is unused or deleted, and none only if all are taken |
| Directory.FreeSlotLow | src/fs/fat/fat16.c:885-887 | a new slot is never beyond the first unused one, so raising the total leaves no gap |
| Directory.CountIsBoundIff | src/fs/fat/fat16.c:181-195 | the count taken at mount reaches the end mark exactly if no entry before it is deleted |
| Directory.CountIsNumber | src/fs/fat/fat16.c:181-195 | the count is the number of entries before the end mark whose first byte is not 0xE5 |
| Directory.DeletedHidesFile | src/fs/fat/fat16.c:181-195 | behind a deleted entry the read lookup misses a file the write lookup finds |
| FileSystem.ChainsUnique | src/fs/fat/fat16.c:333-337 | the volume determines the chain of every slot |
| FileSystem.WrittenSlots | src/fs/fat/fat16.c:867-882 | what truncating, deleting and creating write to a slot, byte by byte |
| FileSystem.TruncateKeeps | src/fs/fat/fat16.c:859-871 | truncating keeps the invariant, every other file's entry, chain and bytes, and loses no cluster |
| FileSystem.CreateKeeps | src/fs/fat/fat16.c:872-888 | so does creating; it is refused exactly if no slot is unused or deleted |
| FileSystem.EraseKeeps | src/fs/fat/fat16.c:1021-1049 | so does deleting; it is refused exactly if the name is not found |
| FileSystem.WriteKeeps | src/fs/fat/fat16.c:975-1019 | a write succeeds exactly if the clusters the file lacks are free; then its bytes are overwritten at the position, sizes and position follow, and no other file changes; otherwise the entry is as it was, and clusters are lost exactly if the file had none |
| Runs.ReopenIff | src/fs/fat/fat16.c:872-888 | a created file is found again by its name exactly if the name is representable and does not start with the deletion mark |
| Runs.NineCharacters | src/fs/fat/fat16.c:792-812 | on any volume, a file created under a name of nine letters is not found under it |
| Runs.NewNameUnique | src/fs/fat/fat16.c:874-883 | a file created under a representable name is shown under it and under no other live entry's name |
| Runs.OpenKeeps | src/fs/fat/fat16.c:855-915 | opening for writing leaves an empty file under the name, a fresh handle, and all else as it was |
| Runs.RemoveKeeps | src/fs/fat/fat16.c:1021-1049 | deleting keeps the system invariant, and with unique names the name is not found again |
| Runs.SeekKeeps | src/fs/fat/fat16.c:1079-1115 | seeking keeps the invariant: a file without clusters is never written past its start |
| Runs.SeekMoves | src/fs/fat/fat16.c:1092-1112 | from any position, a seek inside the file sets the position or adds to it with 32-bit wrap, and any other leaves it |
| Runs.ApplyKeeps | src/fs/fat/fat16.c:832-1115 | every operation, successful or not, keeps the invariant and the entry, chain and bytes of every slot but the one it works on, and loses exactly the clusters named |
| Runs.RunKeeps | src/fs/fat/fat16.c:832-1115 | over every run with any number of open files, chains stay acyclic, in range, ended and disjoint; directory views stay in agreement; a slot no operation works on keeps entry, chain and bytes; without an out-of-space write to an empty file no cluster is lost |
| Runs.RunConserves | src/fs/fat/fat16.c:597-653 | over such runs free clusters plus chain lengths stay constant |
| Accounting.WriteTightIff | src/fs/fat/fat16.c:986-1006 | a successful write leaves the file with exactly the clusters its size needs, unless it writes nothing on a cluster boundary at or past the end |
| Accounting.HollowExample | src/fs/fat/fat16.c:682-690 | a write of nothing to a new file takes a cluster |
| Accounting.RunStaysTight | src/fs/fat/fat16.c:674-750 | over every run of other successful writes, opens, seeks and deletes, every file has exactly ceil(size / cluster size) clusters in every state |
| Reading.ByteReads | src/fs/fat/fat16.c:953-973 | byte-sized items read any range inside a file across any number of clusters, failing exactly if a link on the way is refused |
| Reading.RangeReads | src/fs/fat/fat16.c:953-973 | the same with the refused numbers written out; on a volume with clusters below 0xFF0 only, it never fails |
| Reading.ItemAt | src/fs/fat/fat16.c:960-968 | item i of a read call is what a read of its size at i sizes past the position gives |
| Reading.EmptyFileFaults | src/fs/fat/fat16.c:953-973 | every read from the start of a live file without clusters leaves the clusters of the volume |
| Reading.BulkRead | src/fs/fat/fat16.c:407-441 | one large item from a cluster boundary on reads the same range under the same condition |
| Reading.BulkIsBytes | src/fs/fat/fat16.c:407-441 | the cluster-by-cluster read equals the byte-by-byte read, errors included |
| Reading.WritesAppend | src/fs/fat/fat16.c:975-1019 | successive successful writes append their buffers, whatever their sizes, change no other file and lose no cluster |
| Reading.ReadBack | src/fs/fat/fat16.c:832-1019 | after opening a name for writing and any successful writes, the read lookup finds that file, it holds the concatenated buffers, and any range read back is that slice, or an error exactly if a cluster on the way is numbered 0xFF0, 0xFF6, 0xFF7, 0xFF8 or 0xFFF |
| Reading.StillReads | src/fs/fat/fat16.c:832-1115 | after any run that works on other files only, both lookups still find a file under its name and every range of it reads back as it did |
| Layout.GeometryIsValid | src/fs/fat/fat16.c:205-237 | a valid parameter block lays out two FATs, root directory and clusters as disjoint, sector-aligned regions inside the volume |
| Layout.RegionsPacked | src/fs/fat/fat16.c:205-237 | FAT copy k begins k FATs behind the reserved sectors, the root directory where the last copy ends, the clusters where the last slot ends, and less than one cluster is left behind them |
| Layout.BootGeometry | src/boot/boot.asm:11-23 | for the boot sector's parameters with fewer sectors, the root directory begins at sector 712 and cluster 2 at 716 |
| Layout.ClusterSectorIs | src/fs/fat/fat16.c:339-343 | the driver's sector of a cluster is where the geometry has it |
| Layout.ClusterZeroBeforeData | src/fs/fat/fat16.c:339-343 | the sector of cluster 0 lies two clusters before the data area |
| Layout.InOneSector | src/fs/fat/fat16.c:350-373 | every FAT entry and directory entry lies inside one sector, as streamed reads need |
| Layout.BootBpbTooLarge | src/boot/boot.asm:11-23 | the boot sector's own parameters exceed what a C int can address; a smaller sector count is valid |
| Layout.Fat1Effect | src/fs/fat/fat16.c:572-586 | writing an entry of the first FAT changes that entry and no other entry, slot or cluster |
| Layout.Fat2Effect | src/fs/fat/fat16.c:579-590 | the same for the second FAT |
| Layout.SlotEffect | src/fs/fat/fat16.c:815-828 | writing a directory slot changes that slot and nothing else |
| Layout.ClusterEffect | src/fs/fat/fat16.c:656-668 | writing inside a cluster changes those bytes of that cluster and nothing else |
| Driver.MountShape | src/fs/fat/fat16.c:181-195 | mounting without deleted entries and with nothing after the end mark starts in a consistent directory |
| Driver.HeaderRoundTrip | src/fs/fat/fat16.c:31-66 | decoding at mount gives back the parameters of any header laid out in the declared field order, and finds its signature |
| Driver.BootHeaderDecodes | src/boot/boot.asm:13-23 | the boot sector's header as bytes decodes to its parameters |
| Driver.Resolve | src/fs/fat/fat16.c:242-286 | a volume is refused exactly if the signature is missing; else the cache equals the slots on disk and the total is the count of entries |
| Driver.VolumeBytes | src/fs/fat/fat16.c:339-370 | what a mounted volume is in bytes of the image: FAT entries low byte first, clusters and slots at their positions |
| Driver.FatsAgreeIff | src/fs/fat/fat16.c:572-593 | the FAT copies agree exactly if they do byte for byte |
| Driver.Fat16.CountOnDisk | src/fs/fat/fat16.c:166-198 | the streamed count is the number of entries before the end mark that are not deleted |
| Driver.Fat16.LoadRoot | src/fs/fat/fat16.c:222-236 | the cache equals the directory on disk, slot by slot |
| Driver.Fat16.GetFatEntry | src/fs/fat/fat16.c:350-373 | the entry of the first FAT: the byte at twice the cluster number plus 256 times the next |
| Driver.Fat16.SetFatEntry | src/fs/fat/fat16.c:572-593 | the entry changes in the volume, low byte and high byte stand at its place in both copies, which still agree if they did, and the cache still matches the disk |
| Driver.Fat16.FindFreeCluster | src/fs/fat/fat16.c:597-617 | the lowest free cluster of the volume, or none |
| Driver.Fat16.AllocCluster | src/fs/fat/fat16.c:621-638 | on disk, exactly the pure allocation, mirrors kept |
| Driver.Fat16.FreeClusterChain | src/fs/fat/fat16.c:641-653 | on disk, exactly the pure freeing, mirrors kept; the loop ends on any table |
| Driver.Fat16.WriteClusterData | src/fs/fat/fat16.c:656-668 | one cluster of the volume is spliced; all else and the mirrors are kept |
| Driver.Fat16.WriteInternal | src/fs/fat/fat16.c:674-750 | on disk, exactly the pure write, success or not, mirrors kept |
| Driver.Fat16.FindSlotByName | src/fs/fat/fat16.c:753-773 | the write lookup of the specification |
| Driver.Fat16.FindFreeSlot | src/fs/fat/fat16.c:776-788 | the first unused or deleted slot |
| Driver.Fat16.WriteRootDirEntry | src/fs/fat/fat16.c:815-828 | flushing the one slot that differs makes cache and disk agree on every slot |
| Driver.Fat16.OpenForWrite | src/fs/fat/fat16.c:855-917 | on disk, exactly the pure open, with a clone of the slot in the handle; cache and disk agree, FAT copies still agree |
| Driver.Fat16.OpenForRead | src/fs/fat/fat16.c:837-853 | a handle on the entry the read lookup finds, or none |
| Driver.Fat16.DeleteFile | src/fs/fat/fat16.c:1021-1049 | on disk, exactly the pure delete, -EIO exactly if the name is not found; mirrors kept |
| Driver.Fat16.WriteFile | src/fs/fat/fat16.c:975-1019 | on disk, exactly the pure write; the count of items, or -ENOMEM when space runs out; mirrors kept |
| Driver.Fat16.ReadDir | src/fs/fat/fat16.c:1054-1077 | the index-th name of the listing, or none past its end |
| Driver.Fat16.ClusterAhead | src/fs/fat/fat16.c:375-405 | the cluster k links on, or an error |
| Driver.Fat16.ReadInternal | src/fs/fat/fat16.c:407-449 | on disk, exactly the pure recursive read |
| Driver.Fat16.ReadFile | src/fs/fat/fat16.c:953-973 | on disk, exactly the pure item reads; the position does not move |
| Driver.FileHandle.SeekTo | src/fs/fat/fat16.c:1079-1115 | refused at or past the end; else set or advanced with 32-bit wrap; seeking from the end is refused |
| Execution.AllowedIsSafe | src/fs/fat/fat16.c:832-1115 | in a state the invariant allows, no allowed operation leaves the table or the volume |
| Execution.Execute | src/fs/fat/fat16.c:832-1115 | one operation on the disk and the open descriptors is that operation on the volume and its handles; mirrors kept |
| Execution.ExecuteAll | src/fs/fat/fat16.c:832-1115 | any allowed list of operations, carried out on the disk, ends in the state of the pure run with its invariant; the cache matches the disk and the FAT copies agree in every state reached |
| Execution.RunOpsIsRun | src/fs/fat/fat16.c:832-1115 | the states so reached are a run, so what holds of every run holds of them |
| Session.Save | src/fs/fat/fat16.c:855-1019 | through the whole stack, saving buffers succeeds exactly if the pure writes do, and then the file found under the name holds their concatenation; succeed or fail, the volume stays in order and every other file is as it was |
| Session.Load | src/fs/fat/fat16.c:837-973 | through the whole stack, reading any range of a saved file gives that slice, or fails exactly if a cluster on the way has one of the five refused numbers |
| Session.LoadFrom | src/fs/fat/fat16.c:953-1115 | the same through a handle at any position |
| Heap.FreeIffUncovered | src/memory/heap/heap.c:67-70 | a block reads as free exactly if no allocation covers it |
| Heap.EncodesUnique | src/memory/heap/heap.c:113-132 | the live allocations determine the table |
| Heap.ScanCorrectIff | src/memory/heap/heap.c:72-106 | the scan gives the lowest fitting run, or none if none fits, exactly if a run fits or the table does not end in a free block |
| Heap.ScanTooShort | src/memory/heap/heap.c:78-104 | a table of one free block answers a request for two |
| Heap.ScanLowBits | src/memory/heap/heap.c:67-70 | only the low four bits of a byte tell whether its block is free |
| Heap.MarkEncodes | src/memory/heap/heap.c:113-132 | marking a free run adds exactly that allocation |
| Heap.RunBytes | src/memory/heap/heap.c:113-132 | a run's bytes are 0x41 for one block, else 0xC1, then 0x81 and 0x01 at the end |
| Heap.ClearEncodes | src/memory/heap/heap.c:153-165 | clearing at the start of an allocation removes exactly that allocation |
| Heap.FreeUndoesMalloc | src/memory/heap/heap.c:134-182 | freeing what was just allocated restores the table |
| Heap.HeapRunKeeps | src/memory/heap/heap.c:134-182 | over every run of requests that fit and frees of live starts, the table encodes exactly the live, disjoint, in-range allocations |
| Heap.BlocksForCeiling | src/memory/heap/heap.c:55-65 | a size is rounded up to blocks, except that sizes in the last page below 2^32 wrap to none |
| Heap.KernelHeap.constructor | src/memory/heap/heap.c:48-49 | an empty heap encodes no allocation |
| Heap.KernelHeap.GetStartBlock | src/memory/heap/heap.c:72-106 | the loop computes the scan |
| Heap.KernelHeap.MarkBlocksTaken | src/memory/heap/heap.c:113-132 | the loop marks exactly one run, first and continuation flags included |
| Heap.KernelHeap.MarkBlocksFree | src/memory/heap/heap.c:153-165 | the loop clears up to the first block without a continuation flag |
| Heap.KernelHeap.MallocBytes | src/memory/heap/heap.c:134-177 | the address of the scanned run, marked, or 0 |
| Heap.KernelHeap.FreeAddress | src/memory/heap/heap.c:167-182 | the run at the address is cleared |
| Paging.OrIsAddition | src/memory/paging/paging.c:17-20 | or-ing flags into an aligned address adds them, and masking takes them off |
| Paging.SetOne | src/memory/paging/paging.c:138-158 | setting a page's entry changes the translation of that page only |
| Paging.Isolated | src/memory/paging/paging.c:138-158 | changing the tables of one directory changes no translation of a directory that shares no block with it |
| Paging.RestoreUndoes | src/task/task.c:153-160 | putting the saved entry back undoes a temporary mapping exactly |
| Paging.RangeStep | src/memory/paging/paging.c:95-102 | mapping one more page extends the mapped range by that page, wrapping at 4 GB |
| Paging.RangeExplicit | src/memory/paging/paging.c:92-105 | page j of a mapped range has the frame 4096 j bytes on, wrapping at 4 GB, and every other page its old entry |
| Paging.ScanOne | src/memory/heap/kheap.c:30-38 | a one-block request is served exactly while a block is free |
| Paging.LifeCycle | src/memory/paging/paging.c:34-45 | whatever blocks were claimed, giving back exactly those restores the heap's table entry by entry |
| Paging.Kernel.Kzalloc | src/memory/heap/kheap.c:30-38 | null exactly if no block is free; else one new block, as much of it zeroed as was asked for |
| Paging.Kernel.GetIndexes | src/memory/paging/paging.c:57-70 | an aligned address is recovered from its two indexes; an unaligned one is refused |
| Paging.Kernel.Set | src/memory/paging/paging.c:138-158 | the page's entry changes in the tables reached from the directory; -EINVARG and no change if unaligned |
| Paging.Kernel.Get | src/memory/paging/paging.c:160-169 | the page's entry; for an unaligned address that of page 0 |
| Paging.Kernel.Map | src/memory/paging/paging.c:82-90 | the page is mapped to the frame with the flags, or -EINVARG and no change |
| Paging.Kernel.MapRange | src/memory/paging/paging.c:92-105 | for any count, every page of the range gets the matching frame, all other pages and all other blocks are unchanged |
| Paging.Kernel.MapTo | src/memory/paging/paging.c:107-137 | succeeds exactly on aligned, ordered bounds, and then maps exactly the frames between them, page j to the frame 4096 j bytes on |
| Paging.Kernel.New4gb | src/memory/paging/paging.c:8-26 | all 2^20 pages map to themselves; every directory entry has bit 1 set and its other flag bits as given; exactly the directory's blocks, free before, are claimed and no other block changes |
| Paging.Kernel.Copy4gb | src/memory/paging/paging.c:171-200 | null exactly if fewer than 1026 blocks are free; else all 2^20 entries and the directory flags equal the source's, in blocks of its own; what a failure leaves is stated |
| Paging.Kernel.Free4gb | src/memory/paging/paging.c:34-45 | exactly the directory's blocks, recovered by masking its entries, are given back |
| Paging.Kernel.NewThenFree | src/memory/paging/paging.c:8-45 | making a directory and freeing it restores the heap's table exactly |
| Paging.Kernel.CopyThenFree | src/memory/paging/paging.c:171-200 | so does copying one and freeing the copy, and the source keeps all its translations |
| Paging.Kernel.CopyThenSet | src/memory/paging/paging.c:138-200 | after a copy, setting any page in either directory changes no translation of the other |
| Scheduler.RoundRobin | src/idt/idt.c:32-49 | one round of n user-mode ticks visits each task at exactly one tick, ends where it began, and saves for each task the frame that ended its turn |
| Scheduler.DistanceIs | src/task/task.c:71-79 | the tick at which a task runs is its place counted forward from the current task, around the end of the list |
| Scheduler.WaitingKept | src/task/task.c:122-136 | under any ticks, a task that does not run keeps its registers |
| Scheduler.ResumesWhereItStopped | src/idt/idt.c:40-48 | a preempted task comes back with each of the twelve registers as it was interrupted with, however long it waited |
| Scheduler.RunKeeps | src/task/task.c:33-112 | over every run of ticks, spawns and exits of the last task, the ring holds exactly the tasks spawned and not yet gone, each once, and one of them is current exactly while there is one |
| Scheduler.TaskList.NewTask | src/task/task.c:33-69 | the task is appended with initial registers, links both ways valid, the current task kept |
| Scheduler.TaskList.LinkLast | src/task/task.c:57-59 | linking behind the last task keeps both link directions valid and appends to the ring |
| Scheduler.TaskList.GetNext | src/task/task.c:71-79 | the next task of the list, the first after the last |
| Scheduler.TaskList.SaveState | src/task/task.c:122-136 | each of the twelve registers saved is the frame's register of that name |
| Scheduler.TaskList.TimerTick | src/idt/idt.c:32-49 | one tick of the ring; registers are returned exactly if the frame is from user mode (cs 0x1B is, 0x08 is not) and there is another task; then the old task has the frame's twelve registers and the new one's are returned |
| Scheduler.TaskList.Unlink | src/task/task.c:81-96 | forward links, head and tail lose exactly the task; back links stay valid exactly if it was the last |
| Scheduler.TaskList.Remove | src/task/task.c:81-102 | the list stays valid exactly if the task was the last; the current task moves to the successor or the head, null only if the list is empty |
| Keyboard.PushIff | src/keyboard/keyboard.c:53-64 | a push appends to the queue exactly if the character is not zero and fewer than 1024 are waiting |
| Keyboard.FullPushOvertakes | src/keyboard/keyboard.c:61-63 | on a full ring the newest character displaces the oldest and is read first |
| Keyboard.PopTakesOldest | src/keyboard/keyboard.c:66-85 | a pop takes the oldest character, and gives zero exactly if the queue is empty |
| Keyboard.BackspaceIff | src/keyboard/keyboard.c:47-52 | a backspace takes the newest character back exactly if there is one |
| Keyboard.EraseTooFar | src/keyboard/keyboard.c:47-52 | after an erasure of nothing, the next character typed is not read |
| Keyboard.WrapKeepsPlace | src/keyboard/keyboard.c:42-45 | counters wrap at 2^32 without moving any place of the ring |
| Keyboard.RingIsQueue | src/keyboard/keyboard.c:42-85 | over every interleaving with room for each push and something for each erasure, what is read is what a first-in first-out queue gives |
| Keyboard.Buffer.KeyPush | src/keyboard/keyboard.c:53-64 | the array and counters do one push |
| Keyboard.Buffer.KeyPop | src/keyboard/keyboard.c:66-85 | the array and counters do one pop |
| Keyboard.Buffer.KeyBackspace | src/keyboard/keyboard.c:47-52 | the array and counters do one backspace |
| PathParser.PartsAreSplit | src/fs/pparser.c:37-81 | on every string the parts are the components between slashes before the first empty one |
| PathParser.ParseOfJoinIff | src/fs/pparser.c:97-135 | parsing a joined path gives drive and components back exactly if it is within 108 characters and every component is non-empty and slash-free |
| PathParser.ParsedJoins | src/fs/pparser.c:97-135 | an accepted path is the join of its parse up to its first empty component; each part with its terminator fits its 108-byte buffer |
| PathParser.GetPathPart | src/fs/pparser.c:37-61 | the loop copies exactly the component at the cursor, within its buffer, and steps past one slash |
| PathParser.ParsePathPart | src/fs/pparser.c:63-81 | a component at the cursor is appended, and parts plus what remains stay the same |
| PathParser.ParsePath | src/fs/pparser.c:97-135 | the loop computes the parse; the root is null exactly if the path is too long or does not begin with a digit, a colon and a slash |

## Left out

- ATA port I/O, polling and I/O errors: the disk is a byte image whose sector reads and writes succeed inside it.
- Allocation failure inside the FAT16 driver, the task list and the path parser: kzalloc is taken to succeed there.
- Subdirectories: the source types every item as a file, so the directory is flat and path parts after the first are not followed.
- Interrupt entry and exit, CR3 loads, TSS, GDT and IDT packing, and the boot sector's code: machine-level effects.
- Terminal, shell, system-call copying and the file-descriptor table: user interface and thin dispatch.
- FAT16 stat and close, and opening in a mode that is neither read nor write: they would only add easy members.
- heap_create's argument checks: the heap is built with a table of the right size.
- Process creation, program loading and fork: no property of the modelled structures depends on them.
- Streamer.DiskStream.Read: requires the exact condition of `Streamer.ReadInBufferIff`; outside it the source reads past a stack buffer, whose contents no model gives.
- Driver.Fat16.FreeClusterChain: requires that links stay inside the FAT; beyond it the source reads and clears bytes of other regions. The invariant excludes such links.
- Driver.Fat16.WriteInternal: requires that links stay inside the volume, as the invariant has it.
- Driver.Fat16.OpenForWrite: requires that the chain it frees stays inside the FAT, as the invariant has it.
- Driver.Fat16.DeleteFile: requires that the chain it frees stays inside the FAT, as the invariant has it.
- Driver.Fat16.ClusterAhead: requires that the walk stays inside the FAT; it leaves it only past the end of a chain.
- Driver.Fat16.ReadInternal: requires that the read stays inside the clusters of the volume and the sector buffers.
- Driver.Fat16.ReadFile: requires the same; it excludes reads of a file without clusters (`Reading.EmptyFileFaults`) and past the end of a chain.
- Heap.KernelHeap.FreeAddress: requires an address at or above the heap; below it the source writes outside the table.
- Paging.Kernel.Kzalloc: sizes of one byte to one block, the only ones the paging code asks for.
- Paging.Kernel.Map: takes flags below 4096, so that they do not reach the address bits.
- Paging.Kernel.MapTo: takes flags below 4096, for the same reason.
- Driver.Resolve: requires of a signed volume a valid parameter block, an image as large as it says and an end mark in the root directory, on which the code relies without testing.
- Driver.Fat16.WriteFile: requires that the write stays inside the table and the volume, which `FileSystem.WriteKeeps` shows of every handle the invariant allows; C integer overflow is excluded by the size limit on the volume.
- Runs.ApplyKeeps: a file open for writing is not opened for writing again and not deleted, since its descriptor holds a copy of the entry that is written back.
- Heap.KernelHeap.MallocBytes: requires that the scanned run lies inside the table, which fails exactly in the case `Heap.ScanCorrectIff` names.
- Paging.Kernel.New4gb: requires 1026 free blocks, since the code does not test for null; the signed offset of the source is taken as 32-bit unsigned.
- Paging.Kernel.MapRange: takes flags below 4096, so that they do not reach the address bits.
- Paging.Kernel.Copy4gb: the copy of a table is one block assignment rather than a byte loop.
- Scheduler.RunKeeps: exits are of the last task, the only ones `Scheduler.TaskList.Remove` shows to keep the list valid; the page directory of a task is not part of the task model.
- Keyboard.RingIsQueue: one process's buffer; the choice between the current process and the current task's process is not modelled.
- PathParser.ParsePath: the linked list of parts is a sequence; a path is a sequence of characters without its terminator.
