# Verified models of egos-2000

This project models the parts of egos-2000 in which something can go subtly wrong, and proves what
they promise. `dafny verify dfyconfig.toml` checks everything.

* **Treedisk file system** (`Radix`, `TreeLayout`, `TreeFiles`, `TreeFresh`, `TreePartition`,
  `TreeDisk`). Many files live on one store of 512-byte blocks; each file is a 128-ary tree of indirect
  blocks with 0 as a hole, and blocks come from an on-disk free list. The class `TreeDisk` runs the code's
  own loops over a store field `disk`. Between operations a ghost *layout* gives every block exactly one
  use; during a write the same invariant holds of the disk with the one block that is still in memory
  (inode block or parent block) put in place. What is promised is then stated about the disk alone: `File`
  reads a file by walking the tree, `Partitioned` says that every block is named from exactly one place.
* **Paging, address spaces and loader** (`Paging`, `AddressSpace`, `Mmu`, `Loader`). A 28-slot write-back
  cache over 256 frames, software translation that copies pages in and out of one address space, and the
  loader that fills the pages of a new process.
* **Page tables** (`Sv32`). The Sv32 identity map and the translation process of section 4.3.2 of the RISC-V
  Privileged Architecture, version 1.10, without accessed and dirty bits.
* **Kernel** (`KernelModel`, `KernelCode`, `KernelProofs`, `KernelTheorems`, `KernelEvents`). Process table,
  one-message mailbox, retried system calls, round-robin dispatch and Ctrl-C. `KernelModel` is the state
  machine, `KernelCode` the handlers with their loops, proved to compute the machine's functions.
  `KernelProofs` and `KernelTheorems` prove what holds over every run of it, `KernelEvents` what a single
  interrupt, yield, trap or event does.
* **Terminal** (`Tty`), **directories** (`Directory`) and **command lines** (`Shell`).

## How the model reads the source

* Integers are unbounded in Dafny. Block numbers, sizes and entries are 32-bit words, and the places where
  the source's arithmetic can wrap (`offset + 1`, the inode count, the inode-number check, the signed result
  of `treedisk_getsize`, the left shift of a page-table entry) are written with an explicit modulus.
* A block is seen as the 128 words that all its uses (superblock, inodes, references, data) are made of.
* The store below treedisk is a sequence of blocks whose reads and writes do not fail. `panic` and `FATAL`
  halt: the operation ends with `Full`, `ok == false` or `None`, and nothing more is done.
* `rand()` in the cache is any number below 28. The number of bytes that the UART
  takes before it refuses one is any number. What the terminal answers to a
  pending call, and whether an interrupt carries Ctrl-C, are parameters of an interrupt, so also the
  uninitialised return value of `tty_handle_intr` is covered.
* The system-call record `sc` sits at a fixed address that `mmu_switch` swaps, so the kernel model has one
  record for each process.

## Promises that hold only under a condition

* A write gives the file that it should exactly at offsets other than 2^32 - 1. There `Write` says so; at
  2^32 - 1 the first half of the write enters the size 0, so that the file is empty on disk although its tree
  is still there (`Prepare`), and whatever the second half does, no disk can hold the file that the write
  should give (`NoSuchFile`).
* `InodeBlocks` gives enough inode blocks exactly for up to 2^32 - 64 inodes (`InodeBlocksSuffice`).
* On a miss, `paging_write` evicts a slot without looking whether it holds a frame. If it is empty, the
  write-back goes to block -8, outside the paging area. `PagingDevice.Write` counts such stray writes and says
  exactly when one happens; frames keep their contents in any case. `PagingDevice.Read` never causes one.
* Mapping a frame for the process that is switched in loses the frame's contents at the next switch, unless
  memory holds them already (`MapRefines`).
* The loader puts the right file bytes at the entry point for every file exactly when the segment's offset
  is a multiple of the block size (`SegmentIsFile`).
* `tty_write` with a negative length forgets queued bytes; order is kept exactly for lengths that are not
  negative (`Transmitter.Write`).
* A character that arrives when the receive ring is full replaces the oldest one, so that taking it back
  restores the queue exactly when there was room (`TakeBack`).
* In the text of a directory a number is a word like a name, and a number of four digits or more makes one
  word with the name before it. A name is found where its first entry stands exactly when the number of that
  entry is below 1000 and no entry before it has the name as its other word; a name that no entry has is not
  found exactly when no entry has it as its other word (`FieldSeparates`). The other word of an entry is its
  number, or name and number together if the number is 1000 or more. `LongNumberHides` and `NumberHides` are
  inputs that fail, `HiddenMinusOne` shows why the condition is about where the search stops and not about
  the number that it returns, and `LookupIs` gives that number in every case.

## Model

| member | source | states |
|---|---|---|
| Radix.ShiftIsPrefix | library/file/file.c:70-75 | Shifting a 32-bit offset right by whole base-128 digits drops those digits, also for shifts of 32 bits and more |
| Radix.LevelsLeast | library/file/file.c:185-189 | The number of levels is the least l with x < 128^l |
| Radix.LevelsAtMostFive | library/file/file.c:185-189 | No 32-bit offset needs more than five levels |
| Radix.HigherDigitsZero | library/file/file.c:258-279 | Every offset of a file has only zero digits at and above its height, so putting roots above slot 0 keeps all paths |
| TreeDisk.InitLogRpb | library/file/file.c:334-338 | The loop finds log2 of the references per block |
| TreeDisk.CountLevels | library/file/file.c:236-252 | The level loop ends for every 32-bit number, with the least number of levels that reaches it |
| TreeDisk.TreeDisk.GetSnapshot | library/file/file.c:80-102 | A snapshot is refused exactly for inode numbers beyond the inode blocks, and otherwise holds the superblock and the inode's block |
| TreeFiles.LookupIsData | library/file/file.c:191-217 | Walking down from any node on the path to an offset reaches the data block of that offset, or a hole |
| TreeFiles.FileIsData | library/file/file.c:167-219 | Below its size a file reads, by the walk from its root, as its data blocks with zeros in the holes |
| TreeDisk.TreeDisk.Read | library/file/file.c:167-219 | Reading gives the file's block at the offset and fails exactly if the inode or the offset does not exist |
| TreeDisk.TreeDisk.GetSize | library/file/file.c:150-157 | The size is reported modulo 2^32 as a signed number, correctly exactly below 2^31 |
| TreeDisk.TreeDisk.AllocBlock | library/file/file.c:106-145 | The scan and the two ways of taking a block compute `AllocStep` |
| TreeFiles.AllocKeeps | library/file/file.c:106-145 | An allocation fails exactly if no block is free; otherwise it takes one free block from the list and keeps the invariant, all trees and all data |
| TreeFiles.AllocPending | library/file/file.c:258-301 | Allocation commutes with a block in memory that is still to be written back |
| TreePartition.DrainGivesEachOnce | library/file/file.c:106-145 | Exactly as many allocations succeed as blocks are free, and together they give every free block once |
| TreeLayout.Grow | library/file/file.c:263-278 | A new root above the old one keeps the invariant and all data |
| TreeFiles.GrowStep | library/file/file.c:263-278 | One turn of the growing loop, with the inode block in memory, makes the tree one level taller and takes one block |
| TreeDisk.TreeDisk.GrowTree | library/file/file.c:258-279 | The growing loop reaches the wanted height with one block for each level, or fails because fewer are free |
| TreeLayout.Link | library/file/file.c:299-301 | Entering a new block in its parent keeps the invariant: one use for every block, every reference right |
| TreeFiles.LinkStep | library/file/file.c:299-305 | One turn of the walk that meets a hole: allocate, write the parent, and treat a new indirect block as all holes although it is not written yet |
| TreeDisk.TreeDisk.FillHole | library/file/file.c:299-305 | The code of that turn; it fails exactly if no block is free |
| TreeDisk.TreeDisk.Walk | library/file/file.c:288-321 | The walk ends at the data block of the offset, changes no other data, and takes exactly the number of missing blocks, or fails exactly if fewer are free |
| TreeDisk.TreeDisk.Measure | library/file/file.c:229-256 | For every 32-bit offset: the size that is entered in the inode, and the heights before and after a write |
| TreeDisk.TreeDisk.Prepare | library/file/file.c:229-286 | The first half of a write at every offset: size, height and inode are right on disk and no data has changed; it fails exactly if the new roots need more blocks than are free, and then all files read as before; at offset 2^32 - 1 the file becomes empty with its root kept, and no other file changes |
| TreeDisk.NoSuchFile | library/file/file.c:246-248 | No disk holds the file that a write at offset 2^32 - 1 should give |
| TreeDisk.SizeWrapped | library/file/file.c:246-260 | Entering the wrapped size makes exactly this file empty, five levels being walked next |
| TreeFiles.MissingBelowNewTop | library/file/file.c:258-321 | Below a new root nothing exists yet on the path of the offset that made the tree grow |
| TreeDisk.NeededAtMost | library/file/file.c:258-321 | A write from height a to b needs at most (b-a)+b+1 blocks |
| TreeFiles.FileWritten | library/file/file.c:223-326 | From the data after a write: the file has the block at the offset, its old blocks elsewhere, and zeros in a gap |
| TreeFiles.FileUntouched | library/file/file.c:223-326 | Every other file reads as before |
| TreeDisk.TreeDisk.Write | library/file/file.c:223-326 | A write completes exactly if enough blocks are free, takes exactly that many, updates the file as a sequence of blocks, leaves all other files alone and keeps the exact partition. A write that halts for lack of blocks leaves all files as they were if the new roots could not be had, and otherwise a consistent, exactly partitioned and full disk on which the file is only extended with zeros |
| TreeFiles.SparedFiles | library/file/file.c:258-279 | Files read as before if only blocks that were free have changed, also when the free list is no longer right |
| TreeFiles.LastIsZero | library/file/file.c:106-145 | The last free block to be given out holds zeros |
| TreeDisk.NothingWritten | library/file/file.c:288-305 | When the walk halts, every other file is as before and this file is longer by zeros at most |
| TreeDisk.TreeDisk.SetupFreelist | library/file/file.c:367-385 | Every block from the first free one on is listed in its place, in chained list blocks |
| TreeDisk.InodeBlocksSuffice | library/file/file.c:395 | There are inodes enough, by less than a block, exactly if rounding up does not overflow |
| TreeFresh.FreshConsistent | library/file/file.c:389-437 | A newly created file system satisfies the invariant |
| TreePartition.FreshDrain | library/file/file.c:367-385 | On the disk that creating leaves, exactly nblocks - n_inodeblocks - 1 allocations succeed, and all blocks after the inodes are among them |
| TreeDisk.TreeDisk.Create | library/file/file.c:389-437 | Creating fails exactly on too small a store, leaves an existing file system alone, and otherwise gives the disk of `FreshDrain`, with empty files, the exact partition and all other blocks free |
| TreePartition.ExactPartition | library/file/file.h:8-32 | On the disk alone: the blocks after the inodes are in bijection with the places of free list and trees that name a block; no sharing, no leak, no overlap |
| Paging.Reload | earth/dev_page.c:39-73 | Giving a written-back slot to another frame changes no other frame |
| Paging.PagingDevice.CacheEviction | earth/dev_page.c:23-30 | Eviction writes the chosen slot's page to its frame, or goes astray exactly if the slot is empty |
| Paging.PagingDevice.InvalidateCache | earth/dev_page.c:34-37 | The frame leaves the cache and no other frame changes |
| Paging.PagingDevice.Write | earth/dev_page.c:39-55 | For every victim, the frames change as a flat array does at one index; a stray write happens exactly on a miss with an empty victim |
| Paging.PagingDevice.Read | earth/dev_page.c:57-73 | The frame is in the cache at the returned place with its latest contents; only an allocating read may change them; no other frame changes and no write goes astray |
| Mmu.Mmu.Alloc | earth/cpu_mmu.c:31-42 | The first unused frame is taken; it fails exactly if all are in use |
| Mmu.Mmu.Map | earth/cpu_mmu.c:55-59 | A frame becomes a page of a process |
| Mmu.Mmu.Free | earth/cpu_mmu.c:44-52 | Exactly the frames of the process become unused and other frames keep their contents |
| Mmu.Mmu.CopyOut | earth/cpu_mmu.c:67-74 | The first loop of a switch saves exactly the current process's pages |
| Mmu.Mmu.CopyIn | earth/cpu_mmu.c:76-83 | The second loop loads exactly the next process's pages |
| Mmu.Mmu.Switch | earth/cpu_mmu.c:61-86 | A switch is the model's step |
| AddressSpace.MapRefines | earth/cpu_mmu.c:55-59 | Mapping a filled frame gives the process that page exactly if the process is not switched in, or memory holds the contents already |
| AddressSpace.SwitchRefines | earth/cpu_mmu.c:61-86 | After a switch every private page is where it should be: in memory for the process switched in, in its frame for others |
| AddressSpace.RunRefines | earth/cpu_mmu.c:31-86 | Over every run of mapping, stores, switches and frees, the one address space represents a private memory for each process |
| AddressSpace.SwitchedInSeesItsPages | earth/cpu_mmu.c:61-86 | Switching back to a process finds each of its pages as it left it, whatever happened in between |
| AddressSpace.OthersLeaveItAlone | earth/cpu_mmu.c:44-86 | In the private memories, no operation of another process changes a page |
| Loader.LoadSegment | library/elf/elf.c:49-57 | The block loop maps a page for every 4096 bytes begun and fills them with the file's blocks in order |
| Loader.ClearTail | library/elf/elf.c:59-62 | After clearing the rest of the last page every page mapped so far is final |
| Loader.LoadImage | library/elf/elf.c:49-69 | All pages of the image up to the full size are mapped with file bytes and zeros |
| Loader.WriteArgs | library/elf/elf.c:75-83 | The argument page holds the count, a pointer to each argument and the arguments |
| Loader.WordReadBack | library/elf/elf.c:79-83 | A word stored in the page is read back as the same number by a little-endian machine |
| Loader.ArgumentSeen | library/elf/elf.c:75-83 | Following the pointer at 0x80000004 + 4i in memory leads to the 32 bytes of argument i |
| Loader.LoadApp | library/elf/elf.c:32-87 | Loading maps exactly the image, the argument page and a stack page; it succeeds exactly if that many frames were free |
| Loader.AppSeesItsImage | library/elf/elf.c:32-87 | Once switched in, the process finds the segment from 0x08005000 on, zeros after it up to the full size, the number of its arguments at 0x80000000, and after it pointers that lead to its arguments |
| Loader.SegmentIsFile | library/elf/elf.c:45-57 | The bytes loaded are the file's bytes at the segment's offset, for every file, exactly if the offset is block-aligned |
| Sv32.EntryFields | earth/cpu_mmu.c:127 | An entry made of a page address and flags gives both back |
| Sv32.PageTables.FindLeaf | earth/cpu_mmu.c:108-122 | The leaf table of an address is found through its root entry, or made empty without changing any translation; it fails exactly if there is none and no frame is free |
| Sv32.RegionStored | earth/cpu_mmu.c:124-127 | The entries written for a region translate its addresses to themselves and leave all others as they were |
| Sv32.PageTables.SetupIdentityRegion | earth/cpu_mmu.c:106-128 | After the call exactly the region is added to the identity map, also in a leaf table that another region uses; it fails exactly if the leaf tables of all regions are more than there are frames for |
| Sv32.IdentityOnRegions | earth/cpu_mmu.c:138-148 | With equal flags, the map is the identity on the union of the regions and faults elsewhere |
| Sv32.PageTables.IdentityMapping | earth/cpu_mmu.c:130-149 | Every 32-bit address of the machine's address map translates to itself, valid, readable, writable and executable; every other address faults; it succeeds exactly with 15 free frames |
| Sv32.RegionsAreMachine | earth/cpu_mmu.c:138-148 | The fifteen regions cover exactly the address map of the machine |
| Sv32.FramesNeeded | earth/cpu_mmu.c:138-148 | The regions of the machine need fourteen leaf tables, two devices sharing one |
| KernelCode.Machine.SetStatus | grass/process.c:15-20 | The loop sets the status of exactly the slots of a process |
| KernelCode.Machine.ProcAlloc | grass/process.c:28-41 | Allocation takes the first unused slot and the next number, or fails with none unused |
| KernelCode.Machine.ProcFree | grass/process.c:43-60 | Freeing one process, or all user processes |
| KernelCode.Machine.YSend | grass/kernel.c:245-258 | Sending computes the model's `TrySend` |
| KernelCode.Machine.YRecv | grass/kernel.c:260-272 | Receiving computes the model's `TryRecv` |
| KernelCode.Machine.SyscallHandle | grass/kernel.c:292-328 | The handler computes the model's attempt |
| KernelCode.Machine.SpecialHandle | grass/kernel.c:111-145 | The Ctrl-C loop computes the model's `Special` |
| KernelCode.Machine.ExternalHandle | grass/kernel.c:155-178 | The pass over requesting processes computes the model's `Pass` and restores the current slot |
| KernelCode.Machine.ProcYield | grass/kernel.c:192-243 | Searching, waiting for interrupts and dispatching compute the model's `YieldLoop` |
| KernelCode.Machine.ProcSyscall | grass/kernel.c:330-334 | A trap is a step of the machine |
| KernelCode.Machine.ProcExternal | grass/kernel.c:336-340 | A device interrupt is a step of the machine |
| KernelProofs.SyscallIsAttempt | grass/kernel.c:292-328 | The handler changes the caller's slot, the mailbox and the logs by the outcome of one attempt, and nothing else |
| KernelProofs.SyscallMeans | grass/kernel.c:245-328 | A message is posted exactly by a process that sends into an empty mailbox, with its own number, receiver and contents; it is delivered exactly to a process that receives and that it names; a terminal call ends as the terminal answers; any other call leaves mailbox and arguments for the next try |
| KernelProofs.YieldRuns | grass/kernel.c:192-243 | Every yield ends with exactly the current slot running, or waiting with no slot able to run |
| KernelProofs.RunKeeps | grass/kernel.c:111-340 | Every event of every run keeps unique process numbers, at most the current slot running, and the message logs in agreement |
| KernelProofs.ExactlyOnce | grass/kernel.c:245-272 | Over every run from boot, the messages sent are those received, in order, followed by the one in the mailbox |
| KernelProofs.SingleRunner | grass/process.c:15-60 | Over every run from boot, process numbers are unique and no slot but the current one is running |
| KernelTheorems.OthersLeaveMessage | grass/kernel.c:245-272 | No other sender or receiver can overwrite or take a message that its receiver waits for |
| KernelTheorems.InterruptDelivers | grass/kernel.c:155-178 | One interrupt without Ctrl-C delivers the message in the mailbox to a waiting receiver, and the current slot is restored |
| KernelTheorems.NextIsNearest | grass/kernel.c:198-208 | The search stops at the nearest process that can run |
| KernelTheorems.BoundedWaiting | grass/kernel.c:192-243 | A process that can run at every dispatch is chosen within sixteen dispatches, so after at most fifteen of others |
| KernelTheorems.RunServers | grass/process.c:28-41 | Over every run in which no server is freed, servers that have the first slots keep them and users come after them; `CtrlCAfterBoot` starts such a run at boot |
| KernelTheorems.CtrlCAllOrNothing | grass/kernel.c:111-145 | Ctrl-C changes nothing if a server is busy; otherwise the first live user sends the kill message, every other live user becomes a zombie and servers are left alone |
| KernelTheorems.CtrlCAfterBoot | grass/kernel.c:111-145 | At the end of every run from boot in which no server is freed, servers have the first slots and Ctrl-C kills all users or nobody |
| KernelEvents.InterruptServes | grass/kernel.c:155-178 | An interrupt deals with Ctrl-C and then gives every process with a pending call exactly one attempt, in the order of the slots; no other slot changes, and the logs grow by what was posted and got |
| KernelEvents.InterruptSpares | grass/kernel.c:155-178 | Without Ctrl-C, a process without a pending call is left alone |
| KernelEvents.FirstSenderPosts | grass/kernel.c:155-178 | With the mailbox empty, an interrupt posts the message of the first process that is waiting to send |
| KernelEvents.CtrlCInterrupt | grass/kernel.c:155-178 | An interrupt with Ctrl-C is as one without it if a server is busy; otherwise every live user but the first becomes a zombie, and the kill message of the first is posted or waits for the mailbox |
| KernelEvents.CtrlCEvent | grass/kernel.c:111-178 | After every run from boot in which no server is freed, an event that brings Ctrl-C leaves all live users but the first as zombies, unless a server was busy |
| KernelEvents.YieldNow | grass/kernel.c:192-243 | With a process to run, a yield starts the nearest one, makes the one that was running runnable, and changes nothing else |
| KernelEvents.IdleYield | grass/kernel.c:180-210 | With nobody to run, a yield handles the next interrupt and looks again |
| KernelEvents.YieldDispatches | grass/kernel.c:192-243 | Whatever interrupts arrive, a yield ends waiting or with such a dispatch from the state in which it found a process to run |
| KernelEvents.TimerKeepsRunner | grass/kernel.c:192-243 | A process that runs when the timer interrupts without Ctrl-C goes on running or is runnable, and is otherwise unchanged |
| KernelEvents.TrapAttempts | grass/kernel.c:330-334 | A trap posts the caller's message if the mailbox was empty, and delivers a message that was there for a caller that receives |
| KernelEvents.EventDelivers | grass/kernel.c:155-340 | Every trap, timer, device or waking event without Ctrl-C delivers the message in the mailbox to a receiver that waits for it |
| KernelEvents.NewProcessRuns | grass/process.c:28-41 | A process is made exactly if a slot is unused, under a number that no other has; it cannot run before it is made ready, and then it can |
| KernelEvents.FreedIsUnused | grass/process.c:43-60 | Freeing leaves exactly the slots of the process, or of all users, unused, and then a new process can be made |
| Tty.HandOver | earth/dev_tty.c:77-89 | Handing the oldest byte to the UART keeps the order of all bytes |
| Tty.Transmitter.WriteUart | earth/dev_tty.c:73-93 | As many bytes as are waiting and the UART has room for are handed over, in order, and the interrupt is enabled exactly while bytes wait |
| Tty.Transmitter.WriteBuff | earth/dev_tty.c:95-108 | A message that fits is appended to the queue |
| Tty.Transmitter.Write | earth/dev_tty.c:110-124 | A message is accepted whole, postponed or refused by its length; then as many bytes as the UART has room for are handed over; bytes leave in the order accepted exactly if the length is not negative |
| Tty.Receiver.ReadUart | earth/dev_tty.c:126-148 | Characters up to and including the first Ctrl-C arrive in the queue, and the result says which case it was |
| Tty.RoomKeepsOrder | earth/dev_tty.c:131-145 | Arrivals that find room are queued in order |
| Tty.LastOvertakes | earth/dev_tty.c:131-145 | When arrivals do not all find room, the first ones fill it and the last of all is the next to be read, in place of the oldest |
| Tty.Receiver.Read | earth/dev_tty.c:150-160 | The oldest character is taken |
| Tty.Receiver.ReadTail | earth/dev_tty.c:162-174 | The newest character is taken |
| Tty.TakeBack | earth/dev_tty.c:131-174 | Taking back the last arrival restores the queue exactly if there was room for it |
| Directory.Lookup | apps/system/sys_dir.c:16-26 | The search loop finds the first place where the name stands between spaces, and converts what follows |
| Directory.FieldSeparates | tools/mkfs.c:40-47 | Over every list of entries, the search stops at the first entry with the name, or nowhere if there is none, exactly if the number of that entry is below 1000 and no entry before it has the name as its other word |
| Directory.LookupIs | apps/system/sys_dir.c:16-26 | Over every list of entries, the number returned is the one after the first word that is the name, or -1 |
| Directory.LookupInverts | tools/mkfs.c:40-47 | Under that condition, lookup gives the number of the first entry with the name, and -1 if there is none |
| Directory.LongNumberHides | tools/mkfs.c:40-47 | An entry whose number fills its field hides an entry of another name |
| Directory.NumberHides | apps/system/sys_dir.c:20-23 | The number of an entry hides a later entry of that name |
| Directory.HiddenMinusOne | apps/system/sys_dir.c:20-25 | A search that stops at a number can return -1 for a name that is not there |
| Directory.EntryTexts | tools/mkfs.c:41-47 | The text of an entry is the one that the file system is made with |
| Shell.ParseRequest | apps/system/sys_shell.c:45-65 | Parsing stays in bounds, succeeds exactly if every word is shorter than 32 and there are at most 15 words or 16 with no space after the last, and then the rows are the words |
| Shell.WordsAtSpace | apps/system/sys_shell.c:45-65 | The words of a line split at a space are the words before it and the words after it |
| Shell.WordsOfWord | apps/system/sys_shell.c:45-65 | A line without spaces is one word, or none if empty |

## Left out

- TreeDisk.TreeDisk.Write: does not cover offset 2^32 - 1; `Prepare` says what the first half of such a write does and `NoSuchFile` that the write cannot succeed. In its second half the walk takes data for block numbers, which may lie outside the store, and the source then goes on with what an unchecked failed read leaves in memory.
- AddressSpace.RunRefines: assumes that the frames of a process map different pages and that no frame is added to the process that is switched in, as the loader does it.
- Paging.PagingDevice.Write: says when a stray write happens, not what lies at the place it goes to.
- Loader.LoadApp: assumes that reading the executable does not itself touch the frame cache, that the process has no pages yet, and at most 16 arguments.
- Sv32.PageTables.SetupIdentityRegion: assumes a region that starts on a page and stays within one leaf table, as all callers pass; `page_table_map` and `page_table_switch` are unfinished exercises.
- Directory.Lookup: the conversion of a number does not overflow, and the name is not longer than the text; for a longer name the loop bound wraps and the source reads past its buffer.
- KernelProofs.RunKeeps: process numbers do not wrap around, and a handler or a call of a server is one step; where a forced kill message goes is left open, because the source does not set its receiver.
- Saved registers, program counters, trap assembly and the timer; excp_entry.
- SD card, SPI, UART and GPIO registers, and interrupt controller setup.
- Arrival of an interrupt inside sys_invoke, and progress of a system call whose partner never answers.
- load_grass, elf_load's header loop, printf and logging, memory allocation, mkfs and mkrom file handling.
- read_chars of the shell, the user commands and the servers' message loops.
- treedisk_setsize, which always fails.
