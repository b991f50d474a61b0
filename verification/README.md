# Hjortron kernel model

A Dafny model of four parts of the Hjortron kernel that hold state or arithmetic with
unbounded behaviour, and proofs of what they promise.

* **The heap allocator** (`kernel/src/memory/malloc.c`). `HeapMemory` works on raw memory:
  chunk headers are read from and written to the same bytes as the payloads, by address, and
  address 0 is NULL. `HeapModel` says what each call does to the sequence of chunks,
  `HeapLayout` how that sequence lies in memory, `HeapTheorems` what follows for a heap made
  of one contiguous region (tiling, canonical form, first-fit completeness, inverses) and
  `HeapRegions` what `malloc_init` builds and when `free` goes wrong on a heap with holes.
* **The FAT12 reader** (`kernel/src/filesystem/fat12.c`). `Fat12Table` decodes 12-bit entries
  and collects chains, `Fat12Range` and `Fat12Read` copy a byte range out of a chain,
  `Fat12File` composes reads and seeks, `Fat12Name` handles 8.3 names and `Fat12Open` paths.
  `Fat12Volume` and `Fat12Path` say what opening and reading deliver on a volume written
  sector by sector, in its own numbers and not in the driver's terms.
  The disk is a function from LBA to a 512-byte sector.
* **The ELF relocator** (`kernel/src/execution/elf.c`). `ElfFormat` reads the file's bytes,
  `ElfImage` and `ElfTheorems` say what the image contains at any base address, `ElfLoader`
  holds the loops. `ElfLayout` writes headers, sections, symbols and entries as byte strings,
  and `ElfObject` says what is loaded in terms of the values written.
* **The scheduler** (`kernel/src/execution/scheduler.c` over `kernel/src/list.c`).
  `ProcessList` is the linked list, `SchedulerDriver` the entry points over it,
  `SchedulerModel` each entry point as one atomic step on values, `SchedulerRuns` what holds
  over runs, `SchedulerSwitch` who gets the processor and when, `SchedulerFairness` which calls
  keep every process its turn and how one starves.
  A context switch is the frame that is dispatched.

`Bytes` holds words, bytes and the copying loops the parts share.

A failed `assert` is an outcome (`None`, `false`, `Halted`, `Halt`) that leaves the state as it
was: the kernel executes `hlt` there, and the model ends. All 32-bit arithmetic that could wrap is written with
`Wrap`, so where a theorem has no overflow condition, none is needed.

## Where the code does less than it seems to

These are proved with the exact condition under which the code does what a caller expects.

* `free` merges list neighbours without looking at their addresses. On a heap of several
  memory regions it keeps the managed memory exactly when the merged chunks touch
  (`FreeKeepsMemoryIff`); `HoleHandedOut` is a memory map on which a later `malloc` hands out
  memory of a hole.
* `malloc_init` truncates the base of a free region to 32 bits. A region that begins at a
  multiple of 2^32 gets its header at address 0, which is NULL, so it never joins the list
  (`Heap.Init`). Any other region above gets a chunk at the truncated base, and `malloc` may
  hand out the same memory twice (`HighRegionOverlaps`).
* `fat12_read_fat` loads one sector: an entry that starts at sector offset 511 takes its high
  byte from whatever follows the buffer (`ReadFatExact`).
  A chain is followed as the table has it, whatever that byte is, exactly when no entry
  looked up on the way is one of those (`ChainOfTableIff`).
* `fat12_read` keeps the first cluster's slice for clusters strictly inside the range
  (`ReadExactIff`, `ReadTableIff`). When offset + length wraps, or a wrapping seek has left
  the offset past the end, the end-of-file comparison lets the read through: it delivers
  nothing if it ends in a cluster before the one it begins in (`WrapReadsNothing`), and else
  copies a slice of negative length, which as a 32-bit number is longer than a cluster
  (`OverrunIff`, `OverrunExample`).
* `fat12_seek` compares the current offset plus the target with the length (`SeekReachesIff`,
  `SeekStaysIff`).
* The name a listing shows can be opened only when its base has 1 to 7 characters
  (`RoundTripIff`, `ListedNameOpensIff`).
* `list_delete` writes through NULL neighbours. The kernel runs without paging
  (`boot/src/init16.s:37-39` only sets the protection bit), so these stores land at address 0;
  `Delete` shows the list is right all the same, and when address 0 is written.
* When the running process sleeps or stops, `scheduler_next` starts again behind the head of
  the list. Ticks alone are fair (`DispatchedInTurn`), and so are runs with any other calls
  (`DispatchedUnlessHandedOn`), but two processes that take turns, one by sleeping and one by
  being interrupted, keep all others waiting for ever (`Starved`).
* `scheduler_sleep` multiplies in 32 bits (`TicksExactIff`).

## Model

| member | source | states |
|---|---|---|
| HeapTheorems.Canonical | kernel/src/memory/malloc.c:148-191 | two heaps over one region hold the same live blocks if and only if their chunk lists are identical |
| HeapTheorems.HistoryIrrelevant | kernel/src/memory/malloc.c:74-191 | any two call histories that leave the same blocks live leave the same chunk list |
| HeapTheorems.Run | kernel/src/memory/malloc.c:74-191 | after every sequence of malloc, free and realloc that returns, the chunks tile the region with no gap, no two neighbours free, none empty |
| HeapTheorems.PayloadsApart | kernel/src/memory/malloc.c:74-191 | in every reachable heap a payload byte lies in the region, in no header and in no other payload |
| HeapTheorems.FirstFitComplete | kernel/src/memory/malloc.c:79-118 | malloc returns exactly when some place clear of all live blocks has room for header and length, and then takes the lowest such place |
| HeapTheorems.MallocEffect | kernel/src/memory/malloc.c:91-118 | malloc keeps the tiling and adds one live block of len to len + 16 bytes |
| HeapTheorems.FreeEffect | kernel/src/memory/malloc.c:148-191 | free of a live block keeps the tiling and removes exactly that block |
| HeapTheorems.FreeUndoesMalloc | kernel/src/memory/malloc.c:74-191 | free of what malloc just returned restores the identical chunk list, split or not |
| HeapTheorems.FreeOrderIrrelevant | kernel/src/memory/malloc.c:148-191 | freeing a set of blocks in any two orders gives the same chunk list |
| HeapTheorems.FreeEverything | kernel/src/memory/malloc.c:148-191 | freeing all live blocks, in any order, gives back the single initial chunk |
| HeapTheorems.ReallocEffect | kernel/src/memory/malloc.c:121-146 | realloc keeps a block that is long enough, else trades it for a new one of at least the length; it halts only on length 0 or when malloc would |
| HeapTheorems.StepTiles | kernel/src/memory/malloc.c:74-191 | each call keeps the tiling invariant |
| HeapModel.TakeKeepsOrdered | kernel/src/memory/malloc.c:91-115 | malloc keeps chunks in order and apart, even with holes between regions |
| HeapModel.ReleaseKeepsOrdered | kernel/src/memory/malloc.c:163-190 | free keeps chunks in order and apart, even with holes between regions |
| HeapRegions.FreeKeepsMemoryIff | kernel/src/memory/malloc.c:163-190 | free leaves the set of managed addresses unchanged if and only if the chunks it merges touch |
| HeapRegions.HoleHandedOut | kernel/src/memory/malloc.c:54-63 | on a map with two free regions, after malloc and free of the first chunk a second malloc returns a block with an address of the hole in it |
| HeapRegions.SingleRegionTiles | kernel/src/memory/malloc.c:27-52 | when no free region below 2^32 follows the kernel's own, malloc_init leaves one chunk that tiles it |
| HeapRegions.TruncatedIsLater | kernel/src/memory/malloc.c:54-63 | on regions that end below 2^32 the casts of base and length lose nothing |
| HeapRegions.HighRegionOverlaps | kernel/src/memory/malloc.c:54-63 | on a map with a free region above 2^32 whose truncated base lies in the first chunk, two calls of malloc return overlapping memory |
| HeapRegions.InitialCover | kernel/src/memory/malloc.c:21-72 | the chunks cover exactly the addresses from the kernel's end to the end of the first free region around it, and the later free regions below 2^32 |
| HeapMemory.Heap.Init | kernel/src/memory/malloc.c:21-72 | the loop links, in memory, a chunk behind the kernel image and one per later free region below 2^32; a region at a multiple of 2^32 is lost; it fails exactly when no region holds the end of the kernel |
| HeapMemory.Heap.Append | kernel/src/memory/malloc.c:54-63 | linking a further region appends its chunk; at base 0 the stores leave the list as it was |
| HeapMemory.Heap.Search | kernel/src/memory/malloc.c:79-88 | following next pointers finds the first free chunk that is long enough, NULL when there is none |
| HeapMemory.Heap.Mark | kernel/src/memory/malloc.c:115-115 | the store to `allocated` marks the chunk and leaves a well-linked list |
| HeapMemory.Heap.Malloc | kernel/src/memory/malloc.c:74-119 | the search and split on raw memory refine the model, the 32-bit sum at the split never wraps, and no live payload byte changes |
| HeapMemory.Heap.Split | kernel/src/memory/malloc.c:92-113 | the stores of a split leave a well-linked list and touch header bytes only |
| HeapMemory.Heap.Free | kernel/src/memory/malloc.c:148-191 | free on raw memory refines the model; a chunk that is not allocated halts; no live payload byte changes |
| HeapMemory.Heap.MergeIntoPrevious | kernel/src/memory/malloc.c:163-174 | the stores of the first merge leave the joined, well-linked list |
| HeapMemory.Heap.MergeNext | kernel/src/memory/malloc.c:180-190 | the stores of the second merge leave the joined, well-linked list |
| HeapMemory.Heap.Realloc | kernel/src/memory/malloc.c:121-146 | the returned block starts with the old block's bytes and every live payload keeps its bytes |
| HeapModel.FreeHaltsIff | kernel/src/memory/malloc.c:148-156 | free of a listed chunk halts exactly when it is not allocated |
| HeapLayout.HeaderOfBytes | kernel/src/memory/malloc.c:6-12 | a header is two pointers, a flag padded to a word and a length, 16 bytes in this order, low bytes first |
| HeapLayout.PayloadWriteKeepsList | kernel/src/memory/malloc.c:6-12 | a client that writes only inside its own payload leaves the chunk list intact |
| HeapLayout.HeaderStoresSpareLive | kernel/src/memory/malloc.c:74-191 | stores to headers of a list never touch the payload of a block in it |
| Fat12Table.ReadFatExact | kernel/src/filesystem/fat12.c:62-86 | on a table packed two entries per three bytes, the right entry is read whatever follows the buffer if and only if both its bytes are in one sector |
| Fat12Table.PackAt | kernel/src/filesystem/fat12.c:64-85 | where the two bytes of an entry are in the packed table, and which bits of them belong to it |
| Fat12Table.ChainIsLongest | kernel/src/filesystem/fat12.c:90-102 | the collected chain is the one sequence that starts at the cluster, follows the table through valid clusters and stops only at an invalid one or the limit |
| Fat12Table.ChainThrough | kernel/src/filesystem/fat12.c:28-32 | clusters from 2 to 0xFEF that lead from one to the next are the chain of the first, the whole of it when the last leads outside that range |
| Fat12Table.CollectChain | kernel/src/filesystem/fat12.c:88-102 | the loop collects that chain, at most 256 clusters from 2 to 0xFEF, also on a cyclic table; a shorter one stops at a successor outside that range |
| Fat12Table.ChainOfTableIff | kernel/src/filesystem/fat12.c:62-102 | the clusters read off the disk are those of the packed table, whatever follows the sector buffer, if and only if no entry looked up on the way crosses a sector boundary |
| Fat12Volume.ClusterIsData | kernel/src/filesystem/fat12.c:53-60 | on a volume whose data area begins at reserved + fats * sectors per FAT + root directory sectors, cluster c is the (c - 2)-th one of that area |
| Fat12Volume.FileReadIff | kernel/src/filesystem/fat12.c:387-462 | on a volume with a packed table and a data area, a read of a file whose clusters lead from one to the next delivers byte x from place x mod size of cluster x / size of the file, for all bytes asked for, if and only if there are none, or the sum does not wrap and the range is aligned or ends at most one cluster further on |
| Fat12Range.LbaFits28Bits | kernel/src/filesystem/fat12.c:53-60 | no sector of a valid cluster needs more than the 28 bits of LBA that ata_read sends |
| Fat12Range.DeliveredExact | kernel/src/filesystem/fat12.c:417-459 | as far as the chain goes, an aligned range or one of at most two clusters is copied exactly |
| Fat12Range.DeliveredIff | kernel/src/filesystem/fat12.c:425-452 | over a long enough chain the copied bytes are those of the range if and only if it is aligned or touches at most two clusters |
| Fat12Range.DeliveredAtMost | kernel/src/filesystem/fat12.c:417-459 | however the chain ends, never more bytes are copied than the range has |
| Fat12Read.Driver.AtaRead | kernel/src/drivers/ata.c:118-143 | the buffer ends up holding the consecutive sectors |
| Fat12Read.Driver.CopyRange | kernel/src/filesystem/fat12.c:411-459 | the cluster loop copies the slices of the chain one behind the other, spares the rest of the destination, advances the offset by the count and leaves at an invalid cluster |
| Fat12Read.Driver.Read | kernel/src/filesystem/fat12.c:387-462 | for every offset and length that does not make it overrun, fat12_read delivers the specified bytes and advances the offset by their number |
| Fat12Read.OverrunIff | kernel/src/filesystem/fat12.c:402-429 | the slice of a read that ends in its first cluster is longer than the cluster exactly when offset or sum wraps and the read ends where it begins |
| Fat12Read.OverrunExample | kernel/src/filesystem/fat12.c:391-429 | offset 1 and length 0xFFFFFFFF on a file of 1000 bytes make the slice 0xFFFFFFFF bytes long |
| Fat12Read.RangeSpans | kernel/src/filesystem/fat12.c:402-405 | without wrap-around, cluster indices and offsets denote exactly the bytes asked for |
| Fat12Read.DivDiv | kernel/src/filesystem/fat12.c:402-404 | dividing by sector size and then by sectors per cluster is dividing by the cluster size |
| Fat12File.ReadTableIff | kernel/src/filesystem/fat12.c:387-462 | on a file whose chain is that of the packed table, with no split entry before the last cluster of the range, a read that does not overrun delivers bytes [offset, offset + min(len, bytes left)) if and only if there are none, or nothing wraps and the range starts on a cluster boundary or touches at most two clusters |
| Fat12File.ReadExactIff | kernel/src/filesystem/fat12.c:387-462 | the same of the chain the driver follows, whatever it reads from the table |
| Fat12File.BackedOnDisk | kernel/src/filesystem/fat12.c:62-102 | a chain of the packed table without split entries is the chain the driver follows, so ReadsCompose and ReadExactIff hold of the file on disk |
| Fat12File.ReadsCompose | kernel/src/filesystem/fat12.c:387-462 | reads of whole clusters, the last of any length, deliver together what one read of the whole chain the driver follows would |
| Fat12File.WrapReadsNothing | kernel/src/filesystem/fat12.c:391-405 | a read whose sum wraps, or that begins past the end of the file, escapes the end-of-file comparison; ending in an earlier cluster than it begins in, it delivers nothing |
| Fat12File.ReadAtMost | kernel/src/filesystem/fat12.c:391-394 | from within the file no read without overrun delivers more than min(len, bytes left), also on a broken chain |
| Fat12File.SeekReachesIff | kernel/src/filesystem/fat12.c:530-534 | a seek inside the file reaches its target exactly when current offset plus target stays within the length or wraps |
| Fat12File.SeekStaysIff | kernel/src/filesystem/fat12.c:530-534 | a seek leaves the offset within the file exactly when the sum does not wrap or the target is inside |
| Fat12File.SeekFile | kernel/src/filesystem/fat12.c:530-534 | the offset becomes the target when current offset plus target stays within the file, the end of the file when it does not, and the target, even past the end, when the sum wraps |
| Fat12File.Run | kernel/src/filesystem/fat12.c:387-534 | over every sequence of reads that do not overrun and seeks that do not leave the file by wrapping, the offset stays within the file |
| Fat12Name.FormatFileName | kernel/src/filesystem/fat12.c:34-44 | a cleared buffer ends up with trimmed base, dot and extension; for a name without NUL that is the whole string |
| Fat12Name.Strtrim | kernel/src/string.c:35-49 | exactly the trailing run of the character becomes NUL, the rest of the buffer is kept |
| Fat12Name.Strlen | kernel/src/string.c:5-13 | the length of the string before the first NUL |
| Fat12Name.ParseExtension | kernel/src/filesystem/fat12.c:157-186 | the loop that steps back once terminates and rewrites the buffer as specified, rejecting it exactly when no dot is behind the first character |
| Fat12Name.To83None | kernel/src/filesystem/fat12.c:161-186 | a component is rejected if and only if it has no dot behind its first character |
| Fat12Name.To83Some | kernel/src/filesystem/fat12.c:161-180 | with the first dot at index 1 to 8 the result is base and extension, each cut or filled with spaces |
| Fat12Name.RoundTripIff | kernel/src/filesystem/fat12.c:34-44 | formatting a name and parsing it as a path component gives the name back if and only if the trimmed base has 1 to 7 characters |
| Fat12Open.Open | kernel/src/filesystem/fat12.c:133-263 | the character loop opens a file exactly when splitting, looking up each directory and converting the last component finds one, and then that one |
| Fat12Path.PathOpensIff | kernel/src/filesystem/fat12.c:133-263 | a path of directories and a short name opens if and only if each directory is an entry with attributes 0x10 in the one before and the name, padded to 8 and 3, that of one with attributes 0x20 in the last; the file records the two cluster words and the size of the first such entry, and offset 0 |
| Fat12Path.OpensArchive | kernel/src/filesystem/fat12.c:189-219 | whatever the path, the opened file is that of an entry with attributes 0x20 |
| Fat12Path.OpenThenRead | kernel/src/filesystem/fat12.c:133-462 | opening a path and reading delivers the first bytes of the table's chain from the entry's low cluster word, as many as asked for and as the entry has |
| Fat12Path.OpenedName | kernel/src/filesystem/fat12.c:213-214 | the opened file carries the name in the path, the extension filled with spaces |
| Fat12Path.NameShown | kernel/src/filesystem/fat12.c:34-44 | the shown name is the base without padding, a '.' and three characters of extension |
| Fat12Open.FindEntry | kernel/src/filesystem/fat12.c:189-198 | the search loop finds the first entry of the kind with the name in the buffer |
| Fat12Open.Find | kernel/src/filesystem/fat12.c:222-232 | a found entry has the kind and the name; when none is found no entry has |
| Fat12Open.StrCmp | kernel/src/filesystem/fat12.c:16-26 | true exactly for equal names without NUL |
| Fat12Open.SplitIsUnique | kernel/src/filesystem/fat12.c:147-261 | the components are the one way to write the path as slash-free pieces joined by slashes |
| Fat12Open.ListedNameOpensIff | kernel/src/filesystem/fat12.c:133-219 | the formatted name of a root archive entry opens the first archive entry of that name if its base has 1 to 7 characters, and nothing otherwise |
| ElfLayout.HeaderRead | kernel/src/execution/elf.c:32-35 | entry, section table and section count read back as written in the ELF header |
| ElfLayout.HeaderSupported | kernel/src/execution/elf.c:8-28 | a written header is supported exactly when it says ELF, 32 bits, low byte first, version 1, machine 3 and type 1 |
| ElfLayout.SectionRead | kernel/src/execution/elf.c:32-35 | the fields of a section header read back as written |
| ElfLayout.SymbolRead | kernel/src/execution/elf.c:37-47 | value and section of a symbol read back as written |
| ElfLayout.RelRead | kernel/src/execution/elf.c:145-146 | offset, type and symbol of a relocation entry read back as written |
| ElfObject.ObjectLoads | kernel/src/execution/elf.c:79-185 | a written i386 object with known types and symbols loads at any base, with the entry address of its header and an image that ends with its allocated sections |
| ElfObject.ObjectByte | kernel/src/execution/elf.c:106-124 | a byte no entry relocates is that of the last allocated section of type 1 over it, or 0 |
| ElfObject.ObjectWord | kernel/src/execution/elf.c:142-179 | the word an entry alone relocates is S + A, or S + A - P for type 2, modulo 2^32, low byte first, in the values written |
| ElfObject.ObjectRejectedIff | kernel/src/execution/elf.c:147-178 | loading is given up exactly when an entry has a type above 2 or a symbol of section 0 |
| ElfObject.OtherHeaderHalts | kernel/src/execution/elf.c:87-88 | a file with another header halts |
| ElfTheorems.LoadedWord | kernel/src/execution/elf.c:49-65 | a relocated word is S + A, or S + A - P for R_386_PC32, modulo 2^32, A being the copied word |
| ElfTheorems.LoadedSum | kernel/src/execution/elf.c:142-179 | when several entries relocate one word, all they add is added |
| ElfTheorems.LoadedByte | kernel/src/execution/elf.c:106-124 | every other byte is that of the last PROGBITS section that covers it, or 0 |
| ElfTheorems.BaseShift | kernel/src/execution/elf.c:160-173 | images at bases d apart agree outside relocated words; in them they differ by d, -d or not at all, by entry type and symbol kind |
| ElfTheorems.SumMoved | kernel/src/execution/elf.c:160-173 | a word with several entries moves by d for each sum that moves |
| ElfTheorems.RejectedIff | kernel/src/execution/elf.c:147-178 | the error return is taken exactly when an entry that counts has an undefined symbol or an unknown type |
| ElfLoader.Read | kernel/src/execution/elf.c:79-185 | the loops leave the specified image and entry, halt on a foreign or empty file, or give up, at any base |
| ElfLoader.ComputeLength | kernel/src/execution/elf.c:91-104 | the image length is the highest end of an allocated section: none ends beyond it, and one ends there unless it is 0 |
| ElfFormat.LengthReached | kernel/src/execution/elf.c:91-104 | some allocated section ends at the length, unless it is 0 |
| ElfLoader.CopyAll | kernel/src/execution/elf.c:106-124 | clearing and copying in place leave the specified image |
| ElfLoader.RelocateSection | kernel/src/execution/elf.c:142-179 | the inner loop applies the entries of a section in order and stops at the first bad one |
| ElfLoader.RelocateEntry | kernel/src/execution/elf.c:145-178 | one entry patches its word, is skipped or fails, and its word lies inside the image |
| ElfLoader.RelSym | kernel/src/execution/elf.c:49-65 | the word at the target becomes itself plus the value, less its own address for PC32, modulo 2^32; unknown types leave it |
| ElfLoader.ActionInImage | kernel/src/execution/elf.c:172-172 | the word of every entry that counts lies inside the computed length |
| ElfFormat.ImageLength | kernel/src/execution/elf.c:91-104 | every allocated section ends within the length |
| ProcessList.List.Find | kernel/src/list.c:27-42 | the first node with the value, NULL exactly when there is none |
| ProcessList.List.Insert | kernel/src/list.c:44-72 | appends one new node; links stay mutual inverses |
| ProcessList.List.Delete | kernel/src/list.c:74-94 | removes exactly the first node with the value, at the ends too; address 0 is written only at the ends, with the surviving neighbour |
| SchedulerRuns.ReachableInv | kernel/src/execution/scheduler.c:51-176 | in every reachable state a process is RUNNING if and only if it is current, current is listed, and the assert on esp cannot fail |
| SchedulerRuns.StepKeepsInv | kernel/src/execution/scheduler.c:51-176 | each entry point keeps that invariant |
| SchedulerSwitch.HandsOnExactly | kernel/src/execution/scheduler.c:26-176 | in every reachable state an enabled tick, and the stop or sleep of the running process, resume the process that could run and comes first in the list from where the search starts, or the kernel if there is none; every other call returns to where it came from |
| SchedulerRuns.DispatchedInTurn | kernel/src/execution/scheduler.c:26-111 | over consecutive enabled ticks without other calls a waiting process is dispatched within its cyclic distance, at most list length ticks, whoever wakes up |
| SchedulerRuns.TurnShrinks | kernel/src/execution/scheduler.c:26-111 | each tick dispatches the waiting process or brings it strictly closer |
| SchedulerFairness.DispatchedUnlessHandedOn | kernel/src/execution/scheduler.c:26-176 | with starts, stops and sleeps of others in between, but none of the process running at the time, a waiting process runs within its cyclic distance plus the number of starts in enabled ticks |
| SchedulerFairness.Starved | kernel/src/execution/scheduler.c:28-36 | a reachable state from which alternating ticks and sleeps of the woken process keep two waiting processes from ever running |
| SchedulerFairness.CalmStop | kernel/src/execution/scheduler.c:138-151 | stopping another process does not move a waiting one further from its turn |
| SchedulerRuns.NextIff | kernel/src/execution/scheduler.c:26-49 | the next process is the waiting one that comes first behind the current, round the list |
| SchedulerRuns.NextNone | kernel/src/execution/scheduler.c:34-48 | the kernel context is resumed exactly when no process waits |
| SchedulerRuns.WakesExactly | kernel/src/execution/scheduler.c:79-93 | a sleeper with counter n sleeps through exactly n enabled ticks and wakes on the next, whatever other processes do |
| SchedulerRuns.TicksExactIff | kernel/src/execution/scheduler.c:163-163 | the counter is ms / 10 exactly when ms * 100 fits 32 bits |
| SchedulerRuns.SleepsAsAsked | kernel/src/execution/scheduler.c:79-176 | from the call to scheduler_sleep on, a process sleeps through exactly ms / 10 enabled ticks when ms * 100 fits 32 bits, and fewer when it does not |
| SchedulerRuns.ContextPreserved | kernel/src/execution/scheduler.c:51-176 | over every run a context is resumed with the frame saved when it last stopped running, or the one it was created with |
| SchedulerRuns.FramesAreLastSaved | kernel/src/execution/scheduler.c:95-108 | in every reachable state each process and the kernel carry the frame last saved for them |
| SchedulerDriver.Scheduler.Next | kernel/src/execution/scheduler.c:26-49 | the loop over the linked list finds the process the model names |
| SchedulerDriver.Scheduler.Switch | kernel/src/execution/scheduler.c:51-68 | the new current process, its state and the dispatched frame |
| SchedulerDriver.Scheduler.HandleIrq | kernel/src/execution/scheduler.c:70-111 | wake-ups, saved frame and switch of one tick refine the model |
| SchedulerDriver.Scheduler.WakeAll | kernel/src/execution/scheduler.c:79-93 | the loop counts every sleeper down once or wakes it, and changes no other process |
| SchedulerDriver.Scheduler.HandOn | kernel/src/execution/scheduler.c:144-150 | leaving the current process behind and switching is the model's switch without a current process |
| SchedulerDriver.Scheduler.Start | kernel/src/execution/scheduler.c:130-136 | the process is appended; nothing else changes |
| SchedulerDriver.Scheduler.Stop | kernel/src/execution/scheduler.c:138-151 | the process leaves the list, and the processor is handed on if it was running |
| SchedulerDriver.Scheduler.Sleep | kernel/src/execution/scheduler.c:153-176 | state and counter are set, and the running process saves its frame and is switched away |
| Bytes.WordIff | kernel/src/execution/elf.c:56-59 | a word reads as x exactly when its four bytes are those of x, low byte first |
| Bytes.StoreWord | kernel/src/execution/elf.c:56-59 | a 32-bit store sets the little-endian word and no other byte |
| Bytes.CopyIn | kernel/src/string.c:244-253 | memcpy replaces exactly the destination range |
| Bytes.CopyWithin | kernel/src/string.c:244-253 | memcpy inside one memory, between ranges that do not overlap |

## Left out

- HeapMemory.Heap.Init: requires that from the kernel's own region on, the free regions are sorted, apart and longer than a header, and end within the memory or begin at a multiple of 2^32; malloc_init assumes this of the BIOS without a comparison. `initialized` is set with the first chunk instead of after the loop; nothing reads it in between. The static total `len` is only logged and not kept.
- Execution past a failed assert: `_assert` (kernel/src/assert.c:6-11) returns when an interrupt ends its `hlt`, and the code runs on.
- HeapMemory.Heap.Free: a non-NULL pointer must be that of a listed chunk; what the source does with any other address depends on the bytes found there.
- Fat12Read.Driver.Read: excludes the reads of OverrunIff, where the source copies far beyond its buffers; what memory holds afterwards is not modelled.
- Fat12File.Run: a run ends at a read that overruns or a seek that leaves the file; OverrunIff and SeekStaysIff say which these are.
- Fat12File.ReadTableIff: a file with a split entry on its chain may still be read right, when the wrong cluster leads back to the chain; ChainOfTableIff says when the chain itself is right.
- Fat12Open.Open: a directory's entries are a function of its cluster, because fat12_read_cluster_chain stores clusters behind the first one at the wrong place (kernel/src/filesystem/fat12.c:111). Two bytes behind the stack buffer are a parameter, since a dot at index 9 or 10 copies them.
- ElfLoader.Read: requires that headers, tables, symbols and patched words lie inside the file and the image and that relocation entries are 8 bytes; the entry address is read from the header as a value, although the source reads it after the buffer was freed.
- ElfTheorems.LoadedWord: requires that relocated words do not partly overlap.
- SchedulerRuns.Step: interrupts inside an entry point are not modelled; each is atomic. The list starts empty although list_create leaves its fields unset. Calls are those a caller may make: a process is started once and stopped or put to sleep while it is listed.
- Volumes with a sector size other than 512: ata_read always transfers 256 words.
- The buffers fat12.c and elf.c allocate, and the memory they leak on error returns.
- fat12_opendir, fat12_readdir and fat12_format_dir_name: the same loops as fat12_open without the extension.
- fat12_write is not implemented in the source; timestamps are not read.
- list_destroy, process_create's stack frame and process_destroy's deallocation.
- Device drivers, port I/O, assembly, display, logging, the mount table and the system call dispatch.
