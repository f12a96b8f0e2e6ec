# Storm O.S. kernel model

Storm O.S. is a small 32-bit x86 kernel. This project models its memory subsystem and the
kernel's other stateful cores, and proves what they keep over every call and every run.

## Structure

The memory subsystem exists twice. `Machine` (with `Frames` and `Quota`) gives the state as one
value: the frame table, the quota tree, the page directories, and 4 GiB of physical memory as one
byte sequence in which page tables are ordinary words inside frames. The class
`KernelMemory.MemorySystem` holds the same state in arrays and fields and has one method for each C
function, written as the C function is: loops, early returns, in-place updates. Every such method
ensures that its effect on the abstract state is that of the corresponding `Machine` function, so
the theorems about those functions are theorems about the methods.

The theorems are layered:

- `Frames`, `Quota`, `Books`: the next-fit scan misses no page; the process ids form a tree; unused
  quota and free frames are the same number, so a container below its quota always finds a frame.
- `PageTables`, `Ownership`, `Release`: since frames have one role each, tables never overlap;
  mapping and unmapping change one key of a flat map; each operation's exact charge.
- `UserMemory`, `UserWrite`, `Delivery`, `CopyLoops`, `CopyInLoop`, `Permissions`: the page-crossing
  copies, their bytes, their cost and the permissions of the pages they add.
- `ElfImage`, `ElfLoad`, `PutStr`: the ELF loader and the string system call on top of them.
- `Runs`, `Conservation`, `Leakage`, `Reissue`, `Boot`: what every run keeps, charges and leaks, what
  two frees do to the allocator as coded, and that boot establishes the invariant.

`roles` in `Machine.State` is a history variable: it records what each allocated frame is used for
and influences nothing else. `Runs.RunNoSharing` restates the conclusion without it.

`Variant` distinguishes the frame allocator as the source has it (`AsCoded`) from one with the
missing `allocated = 1` put in (`Corrected`). `Sound(frames, v)` says that the allocator is
corrected or no freed page is remembered. All methods of the class are as coded.

The independent cores are `Division`, `Threads`, `Format`, `Screen`, `Bytes`, `Console` and
`Monitor`, each a class or methods in the source's imperative form, next to a specification on
values whose own properties are proved. `Bits` defines the byte operators the screen uses, bit by bit.

## Where the code departs from its comments or evident intent

The model follows the code; each departure has a theorem that says exactly when it matters.

- `PhysicalPageAlloc` reissues a freed page without marking it (`src/mem_physical.c:113-118`):
  `IssuedPageMarkedIff`, `DoubleIssue`, `AllocKeepsOwnershipIff`, `TwoFreesShareAFrame`. In the
  repository only `FreePageTable` frees pages, and nothing calls it. The accounts balance even so:
  `Conservation.RunSubtreeBound`.
- `AllocPage` returns the page table's frame, not the new page its comment promises, and keeps the
  new page charged when `MapPage` fails (`src/mem_virtual.c:223`, `src/mem_virtual.c:237-245`). On
  a mapped page it drops the old frame, and `UnmapPage` drops the frame it unmaps; both stay charged: `AllocPageEffect`, `AllocLeaks`, `UnmapLeaks`, `FreePageTableLeaks`, `RunLeaks`.
- The copy loops ignore a failed allocation and go on with physical page 0
  (`src/mem_virtual.c:262-266`): `DeliveredIff` and `CopyInGotIff` say when the bytes arrive,
  `WriteUserKeeps` and `CopyInKeeps` what stays untouched even then.
- The range guards add with 32-bit wrap (`src/mem_virtual.c:250-256`, `src/syscall.c:111`):
  `CopyGuardIff`, `PutGuardIff`, `PutResultIff`, `ReadsInsideIff`, `AroundReadsMemory`.
- The ELF loader allocates a page again for each segment that touches it (`src/elf.c:51-57`), so the
  last one wins: `LoadSegmentsEffect`, `DisjointInPlace`.
- `ContainerSplit` does not check for room (`src/mem_physical.c:168-171`): `SplitKeepsTreeIff`,
  `NinthChildIsANephew`.
- E820 entries are read modulo 2^32, and the last page's end wraps (`src/mem_physical.c:61-70`):
  `EntryExactIff` for one entry, `MapRightIff` for a map, `LastPageIff`; `HighEntryAliases` and
  `CrossingEntryLoses` are the two ways to fail.
- `ThreadYield` passes the same context as source and target (`src/thread.c:190-191`):
  `CodedSwitchKeepsContextsIff`, next to the intended `SwitchKeepsContexts`.
- `ForceRunProcess` leaves the old thread in no queue (`src/thread.c:222-226`): `RunLoses`.
- `%d` of -2^31 prints wrongly (`src/printf.c:83-86`): `SignedRoundTripIff`.
- `PaintRange` starting at pixel 0 begins at byte 1 (`src/screen.c:33`): `PaintsFullBytesIff`,
  `PaintFitsIff`.
- The console ring forgets everything when it fills (`src/console.c:48-51`): `FifoIff`.
- A backspace at a full command line removes a character the dropped key never added
  (`src/monitor.c:198-208`): `BackspaceUndoesIff`.

## Model

| member | source | states |
|---|---|---|
| Frames.PageAllocComplete | src/mem_physical.c:111-153 | The scan from the last allocation and its wrap-around miss no user page: the result is 0 if and only if no user page is free; otherwise a free user page is taken, it alone changes, and the table stays ready for the next call |
| Frames.NextFit | src/mem_physical.c:111-153 | Next fit: a remembered freed page is handed out first; otherwise the least free page above the last one handed out or, if there is none, the least free page of all; the page is remembered as the last one |
| Frames.IssuedPageMarkedIff | src/mem_physical.c:113-118 | As coded, the page handed out ends up marked allocated if and only if no freed page was remembered |
| Frames.DoubleIssue | src/mem_physical.c:113-139 | From any full table, freeing one page and allocating twice hands out that page twice as coded, while the corrected step reports exhaustion |
| Frames.FreePagesAfterUpdate | src/mem_physical.c:155-159 | Taking or returning a user page moves exactly that page out of or into the set of free pages |
| Quota.SplitKeepsTree | src/mem_physical.c:166-181 | With room, a split's id was never used, lies above its parent's, has the parent `(id-1)/8`, and the ids in use again form the 8-ary tree |
| Quota.SplitGrants | src/mem_physical.c:168-178 | A split gives child `8*id + 1 + numChildren` exactly the quota, unused and childless, adds as much to the parent's usage and one to its children, and changes no other container |
| Quota.SplitKeepsTreeIff | src/mem_physical.c:168-180 | The missing check exactly: a split keeps the tree if and only if the parent has fewer than eight children |
| Quota.NinthChildIsANephew | src/mem_physical.c:168-178 | The ninth child gets the id of the next container's first child, whose computed parent is that other container, and overwrites that first child if there is one |
| Quota.ContainerSplit | src/mem_physical.c:166-181 | The in-place split, field by field, of a container table; both classes use it |
| Quota.Depth | src/mem_physical.c:169 | The chain of parents of any id strictly decreases to the root |
| Quota.Telescope | src/mem_physical.c:35-42 | Summed over the whole tree, frames charged anywhere plus quota unused anywhere is the root's quota |
| Quota.SubtreeWithinQuota | src/mem_physical.c:166-197 | The frames held by a container and all its descendants never exceed its usage, and that never its quota |
| Quota.ChargeKeepsAccounts | src/mem_physical.c:188-207 | One frame more or fewer for one container keeps `usage = own frames + children's quotas <= quota` at every container |
| Quota.SplitKeepsAccounts | src/mem_physical.c:171-178 | A split within the parent's quota keeps that equation at every container |
| Books.FreeIsSlack | src/mem_physical.c:188-197 | Conservation: the number of free user frames equals the unused quota summed over all containers |
| Books.QuotaImpliesSupply | src/mem_physical.c:190-196 | A container whose usage differs from its quota guarantees a free user frame, so the frame scan cannot fail after the quota check |
| Books.ContainerAllocEffect | src/mem_physical.c:188-197 | ContainerAlloc gives 0 if and only if the quota is used up, and then nothing changes; otherwise the frame was held by nobody and one unit is charged: the missing rollback is never needed |
| Books.ContainerFreeEffect | src/mem_physical.c:199-207 | Freeing a held frame with its owner's id takes it off exactly that account and returns it to the free frames |
| Books.SplitEffect | src/mem_physical.c:166-181 | A split within quota keeps the balance of roles, accounts and free frames |
| PageTables.EntriesDisjoint | src/mem_virtual.c:46-69 | The words of two different (process, page) keys never overlap, although all tables lie in the same memory |
| PageTables.EntryWrite | src/mem_virtual.c:54-69 | Writing one entry changes the flat map at that key only, and no data frame and no kernel memory |
| PageTables.FreshTable | src/mem_virtual.c:77-89 | Hanging a cleared table into an empty slot leaves the whole flat map as it was |
| Ownership.AllocPageTableEffect | src/mem_virtual.c:77-89 | A table is added, for one unit of quota, exactly when the quota allows it, without changing any mapping or any data; otherwise nothing happens |
| Ownership.MapPageEffect | src/mem_virtual.c:108-127 | Mapping an owned, unplaced frame updates exactly one key of the flat map even when it creates and clears a table; it fails exactly when a table is needed and there is no quota for it |
| Ownership.AllocPageEffect | src/mem_virtual.c:226-246 | AllocPage succeeds if and only if the unused quota covers the page and, if missing, its table; it charges exactly that, returns the table's frame, changes one key, keeps all contents; on failure it leaks at most one frame, at quota 1 |
| Release.UnmapPageEffect | src/mem_virtual.c:133-140 | UnmapPage returns the old entry and deletes exactly that key of the flat map |
| Release.FreePageTableEffect | src/mem_virtual.c:94-100 | The slot's 1024 keys disappear, all others stay, and the table's frame is given back to its owner's quota |
| Release.AllocKeepsOwnershipIff | src/mem_physical.c:113-118 | Below quota, an allocation as coded keeps "every allocated user frame has exactly one role" if and only if no freed page is remembered |
| Reissue.TwoFreesShareAFrame | src/mem_physical.c:111-153 | As coded, after two processes each free a page table and allocate a page elsewhere, a third process's new page is mapped to the very frame the first one's page is, if that is the next free-looking frame |
| UserMemory.EnsurePageEffect | src/mem_virtual.c:260-266 | The head of the copy loops makes the page present exactly when the quota covers it, with an entry whose low 12 bits are 7 (below: ends in 7), that is present, writable and user; it touches only its own key and slot |
| UserMemory.PagesApart | src/mem_virtual.c:108-127 | A mapped page's frame is named by no other page of any process |
| UserMemory.MmuWalk | src/mem_virtual.c:206-217 | The byte a process sees at a user address is the one the processor's two-level walk finds: directory entry by bits 22 to 31, table entry by bits 12 to 21, present bits checked; a user directory entry is 0 or ends in 7 |
| UserMemory.WriteChunkEffect | src/mem_virtual.c:268-279 | A store through one process's page changes exactly those mapped bytes of that process: no other process, no page table, no kernel memory but page 0 |
| UserWrite.WriteUserKeeps | src/mem_virtual.c:283-342 | A whole copy, even one whose allocations fail, keeps the invariant, every other process, every byte outside the range, and kernel memory above page 0 |
| Delivery.RangeCostStep | src/mem_virtual.c:283-342 | The cost of a range (absent pages plus absent tables) splits into its first page's and the rest's after that page was made present |
| Delivery.DeliveredIff | src/mem_virtual.c:283-342 | After the copy the process sees exactly the data over the whole range if and only if its unused quota covers the absent pages and absent tables; then exactly those are charged |
| CopyLoops.CopyGuardIff | src/mem_virtual.c:250-256 | For a kernel buffer the guard admits the user ranges and also exactly the ranges whose end wraps past 2^32 |
| CopyLoops.CopyOutWrites | src/mem_virtual.c:283-316 | PTCopyOut's chunked loop equals writing the buffer's original bytes: no chunk disturbs the buffer bytes still to be copied |
| CopyLoops.MemSetWrites | src/mem_virtual.c:317-342 | PTMemSet's chunked loop equals writing `len` copies of the byte |
| CopyInLoop.KernelWriteEffect | src/mem_virtual.c:268-279 | Storing into kernel memory clear of the identity tables changes no mapping and no byte any process sees |
| CopyInLoop.CopyInKeeps | src/mem_virtual.c:248-282 | PTCopyIn keeps the invariant, every mapped byte of every process, and all kernel memory outside the buffer |
| CopyInLoop.CopyInGotIff | src/mem_virtual.c:248-282 | The buffer holds what the process sees over the whole range if and only if the quota covers what is absent; then exactly that is charged |
| CopyInLoop.CopyRoundTrip | src/mem_virtual.c:248-316 | Bytes copied out and read back into another buffer come back unchanged, and the read allocates nothing |
| Permissions.WriteUserGains | src/mem_virtual.c:293-300 | Whatever the quota, a whole copy or fill changes an entry only of an absent page of its range, and then to one that ends in 7 |
| Permissions.WriteUserPermissions | src/mem_virtual.c:293-300 | Within quota, after the whole copy or fill every page of the range that was absent has an entry ending in 7 (present, writable, user), and every present one has its old entry |
| Permissions.CopyInGains | src/mem_virtual.c:260-266 | The same for PTCopyIn: whatever the quota, only absent pages of its range gain entries, ending in 7 |
| Permissions.CopyInPermissions | src/mem_virtual.c:260-266 | Within quota, after the whole read every page of the range that was absent has an entry ending in 7, and every present one its old entry |
| ElfImage.SegmentPages | src/elf.c:42-45 | For a conformant segment the loader's rounded 32-bit bounds are the true ones: the pages of the segment, its file end, and the congruent file position |
| ElfImage.HdrLayout | src/elf.h:28-37 | A program header written field by field in the order of `struct proghdr`, little-endian, is read back field by field |
| ElfImage.ElfLayout | src/elf.h:9-25 | The same for the five fields of `elfhdr` the loader reads: magic, phoff, shoff, phnum, shstrndx |
| ElfImage.AssertsIff | src/elf.c:23-32 | The three assertions hold if and only if the image starts with the bytes 7F 45 4C 46, names a section header string table, and the type in that section header is 3 |
| ElfLoad.LoadPagesEffect | src/elf.c:47-75 | The page loop completes if and only if the quota covers its pages and missing tables, and then each page holds its file part followed by zeros, and its entry ends in 7 if the segment is writable and in 5 if not |
| ElfLoad.LoadSegmentEffect | src/elf.c:39-75 | The same for one segment from its header fields; nothing outside its pages changes |
| ElfLoad.ImageBytes | src/elf.c:42-75 | What a segment wants, byte by byte: file bytes in `[va, va+filesz)`, zeros in `[va+filesz, va+memsz)` |
| ElfLoad.CoversIff | src/elf.c:42-45 | The pages loaded for a segment are those its memory `[va, va + memsz)` touches |
| ElfLoad.LoadSegmentsEffect | src/elf.c:34-76 | For any conformant segments, sharing pages or not: the load succeeds if and only if the quota covers all their pages and missing tables; then each page holds what the last segment over it wants and is present, user, and writable exactly if that segment is; exactly that is charged, and no other process changes |
| ElfLoad.DisjointInPlace | src/elf.c:34-76 | Segments that share no page are then all in place at once |
| PutStr.RangeCostSplit | src/syscall.c:120-138 | A range's cost splits at any chunk boundary, also inside a page |
| PutStr.PutLoopTiles | src/syscall.c:104-141 | Within quota, the chunks handed to the printer concatenate to exactly the bytes the process sees in the range, each fits the buffer with its NUL, and no user byte changes |
| PutStr.ChunkIsPrinted | src/syscall.c:131-133 | The C string the printer finds in the buffer is the chunk up to its first NUL, never older bytes behind it |
| PutStr.PutGuardIff | src/syscall.c:111-114 | The call accepts the user ranges, and exactly those ranges past 2^32 whose wrapped end is not above user space |
| PutStr.PutResultIff | src/syscall.c:104-141 | For every pair of registers: E_INVAL_ADDR exactly for the ranges not accepted, E_MEM exactly for the accepted ranges that wrap and are longer than one chunk; quota and state play no part |
| PutStr.ChunksAreRanges | src/syscall.c:120-138 | The chunks handed to the printer are one for each range of addresses read, and as long |
| PutStr.RangesCutEvenly | src/syscall.c:116-138 | Inside user space the ranges read are consecutive pieces of 4095 bytes, the last possibly shorter |
| PutStr.ReadsInsideIff | src/syscall.c:120-138 | An accepted call reads only user addresses if and only if its first chunk ends below 2^32 |
| PutStr.AroundReadsMemory | src/mem_virtual.c:258-281 | A chunk that passes 2^32 hands over the last and then the first bytes of physical memory |
| PutStr.SeesPhysical | src/mem_virtual.c:156-194 | Process 0 everywhere, and every process outside user space, sees physical memory, through entries that are present, writable, not user, and global exactly outside user space |
| Boot.EntryExactIff | src/mem_physical.c:61-76 | One type-1 entry: the truncated test agrees with containment on every page but the last if and only if the entry ends below 2^32, or crosses 4 GiB and its truncated end reaches the last page again, or holds no whole page and neither does its truncated range |
| Boot.WrapsToTheEnd | src/mem_physical.c:67-70 | The middle case is not empty: the entry of all of the first 8 GiB but a byte holds whole pages, crosses 4 GiB and is still read right |
| Boot.MapRightIff | src/mem_physical.c:60-101 | A page other than the last is classified as the map says if and only if the inexact entries' errors on it are covered by other entries |
| Boot.UsableIff | src/mem_physical.c:60-101 | If every listed type-1 entry is exact, a page other than the last is non-BIOS if and only if one of them contains it |
| Boot.KindsIff | src/mem_physical.c:78-101 | For every map and page: a page no entry is read as containing is BIOS and not free; any other is free, a user page exactly if its address is from 0x40000000 up to 0xF0000000, else a kernel page |
| Boot.UserPagesIff | src/mem_physical.c:78-101 | With exact entries the free user pages are exactly those between 0x40000000 and 0xF0000000 that a type-1 entry contains, and the contained rest are kernel pages |
| Boot.LastPageIff | src/mem_physical.c:61-70 | For the last page, whose end wraps to 0, only an entry's start decides |
| Boot.HighEntryAliases | src/mem_physical.c:67-68 | Every entry 4 GiB above a range makes that range's pages usable though no entry contains them |
| Boot.CrossingEntryLoses | src/mem_physical.c:67-76 | Every page an entry contains beyond its truncated end becomes BIOS |
| Boot.BootEstablishesInv | src/mem_physical.c:44-109 | The booted state satisfies the whole invariant, with the root's quota equal to the number of free user pages |
| Boot.RootQuota | src/mem_physical.c:83-109 | With exact entries the quota the root boots with is the number of pages between 0x40000000 and 0xF0000000 that a type-1 entry contains |
| Boot.BootAccounts | src/mem_physical.c:35-42 | At boot the accounts balance, and nothing is lost |
| Boot.FromBoot | src/mem_virtual.c:226-246 | From boot on, in every run as coded without frees: no frame is shared, and the frames charged to a process that no slot and no entry names are one for each mapping its operations dropped, and at most one more, when its quota is used up; where nothing is allocated over a mapping or unmapped, none is dropped |
| Boot.FromBootConserves | src/mem_physical.c:166-207 | From boot on, in every run as coded, frees included: no container passes its quota and neither do the charges of its subtree |
| Runs.StepIsolated | src/mem_virtual.c:77-140 | Any single operation keeps the invariant and changes no mapping and no byte of any other process |
| Runs.RunKeepsInv | src/mem_virtual.c:77-127 | Ownership over all runs: each allocated user frame has exactly one role, and the quota tree accounts for all of them |
| Runs.RunNoSharing | src/mem_virtual.c:77-127 | In every reachable state page tables and mapped pages are allocated user frames and no two of them, in any processes, are the same frame |
| Runs.RunIsolation | src/mem_virtual.c:226-342 | A process that takes no part in a run keeps every mapping and every byte it sees |
| Conservation.StepCharges | src/mem_physical.c:166-207 | Every operation, after frees and under either allocator, keeps the accounts: at each container what is charged to it plus its children's quotas is its usage, within its quota, and each page table is paid for |
| Conservation.FreePageTableCharges | src/mem_physical.c:199-207 | A table free takes one unit off its owner's account if the frame is marked, as coded it may not be, and no unit otherwise |
| Conservation.RunSubtreeBound | src/mem_physical.c:166-207 | Tree conservation in every run, as coded or corrected, frees included: usage within quota everywhere, the charges of a whole subtree within its quota, and charges plus unused quota are the root's quota |
| Conservation.RunChargesAreFrames | src/mem_physical.c:188-207 | In runs as coded without frees, and in all corrected ones, the charges are the numbers of frames held |
| Leakage.LostAreUnnamed | src/mem_virtual.c:77-140 | What a process is charged beyond its filled slots and its mapped pages is the number of its frames that no slot and no entry of any process names |
| Leakage.AllocLeaks | src/mem_virtual.c:226-246 | AllocPage adds to them exactly the frame its page named before, if it succeeds, and else the frame it could not map |
| Leakage.UnmapLeaks | src/mem_virtual.c:133-140 | UnmapPage adds exactly the frame it unmaps |
| Leakage.FreePageTableLeaks | src/mem_virtual.c:94-100 | FreePageTable adds exactly the frames the table still mapped, while the table's own frame is given back |
| Leakage.StepLeaks | src/mem_virtual.c:77-342 | Every operation but a free, for every process: it adds one frame for each mapping dropped and at most one more, when the quota becomes used up |
| Leakage.RunLeaks | src/mem_virtual.c:226-342 | Over any run without frees: one frame for each mapping dropped and at most one more, only with the quota used up |
| Leakage.QuietDropsNothing | src/mem_virtual.c:219-226 | Runs that call AllocPage as its comment asks, for a page with no mapping, and unmap nothing, drop no mapping, the copies included |
| Leakage.RunLeakBound | src/mem_virtual.c:237-241 | In such runs each process leaks at most one frame, and only with its quota used up |
| KernelMemory.MemorySystem.PhysicalPageAlloc | src/mem_physical.c:111-153 | The scanning method has exactly the effect and result PageAllocComplete is about |
| KernelMemory.MemorySystem.PhysicalPageFree | src/mem_physical.c:155-159 | Its whole new frame table |
| KernelMemory.MemorySystem.ContainerInit | src/mem_physical.c:35-42 | Only the root is in use and owns all user pages |
| KernelMemory.MemorySystem.ContainerSplit | src/mem_physical.c:166-181 | The split of the quota tree, nothing else touched |
| KernelMemory.MemorySystem.ContainerAlloc | src/mem_physical.c:188-197 | Refines the function of ContainerAllocEffect |
| KernelMemory.MemorySystem.ContainerFree | src/mem_physical.c:199-207 | Refines the function of ContainerFreeEffect |
| KernelMemory.MemorySystem.PhysicalMemoryInit | src/mem_physical.c:44-109 | Every page gets the class KindsIff is about; the three counts sum to 2^20 and are the numbers of pages so classed; the root's quota is the number of free user pages |
| KernelMemory.MemorySystem.VirtualMemoryInit | src/mem_virtual.c:156-194 | The identity tables translate every address to itself, processes' user slots are empty, no other memory changes |
| KernelMemory.MemorySystem.MemoryInit | src/mem_physical.c:44-109 | Both initialisations together establish the invariant |
| KernelMemory.MemorySystem.GetPageTableEntry | src/mem_virtual.c:46-52 | The word stored in the slot's frame |
| KernelMemory.MemorySystem.GetPageTableEntryByVA | src/mem_virtual.c:206-217 | Lookup in the flat map |
| KernelMemory.MemorySystem.SetPageTableEntry | src/mem_virtual.c:54-61 | The entry of that page and nothing else is written |
| KernelMemory.MemorySystem.AllocPageTable | src/mem_virtual.c:77-89 | Allocates, installs and, entry by entry through the new slot, clears the table |
| KernelMemory.MemorySystem.FreePageTable | src/mem_virtual.c:94-100 | Refines the function of FreePageTableEffect |
| KernelMemory.MemorySystem.MapPage | src/mem_virtual.c:108-127 | Refines the function of MapPageEffect, result and error flag included |
| KernelMemory.MemorySystem.UnmapPage | src/mem_virtual.c:133-140 | Refines the function of UnmapPageEffect |
| KernelMemory.MemorySystem.AllocPage | src/mem_virtual.c:226-246 | Refines the function of AllocPageEffect, result and error flag included |
| KernelMemory.MemorySystem.PTCopyOut | src/mem_virtual.c:283-316 | 0 and nothing changed if the guard refuses; otherwise `len`, and the state of CopyOutWrites and WriteUserPermissions, going on from address 0 where the user address wraps; it terminates |
| KernelMemory.MemorySystem.PTCopyIn | src/mem_virtual.c:248-282 | 0 and nothing changed if the guard refuses; otherwise `len`, and the state of CopyInGotIff and CopyInPermissions, going on from address 0 where the user address wraps; it terminates |
| KernelMemory.MemorySystem.PTMemSet | src/mem_virtual.c:317-342 | `len`, and the state of MemSetWrites and WriteUserPermissions, going on from address 0 where the address wraps; it terminates |
| KernelMemory.MemorySystem.ELFLoad | src/elf.c:11-78 | Panics unchanged if an assertion of AssertsIff fails; otherwise the state and outcome LoadSegmentsEffect is about, bytes and permissions, the headers being those read before anything was loaded |
| KernelMemory.MemorySystem.ELFLoadSegment | src/elf.c:39-75 | One segment with the C loop's variables, in the state LoadPagesEffect is about; its 32-bit arithmetic does not wrap |
| KernelMemory.MemorySystem.SysPutStr | src/syscall.c:104-141 | For any two registers, the result, the chunks handed over and the state that PutResultIff, ReadsInsideIff and, inside user space, PutLoopTiles are about |
| Words.RoundDown | src/types.h:77-80 | The largest multiple of `b` not above `a` |
| Words.RoundUp | src/types.h:82-85 | The smallest multiple of `b` not below `a`, if and only if `a + b` does not pass 2^32 |
| Words.CopyForwardMoves | src/system.c:18-25 | A byte-by-byte copy to a lower address, or between disjoint ranges, moves the original bytes |
| Words.CopyForwardRepeats | src/system.c:18-25 | To a higher overlapping address it repeats the first `dst - src` bytes instead |
| Bytes.MemSet | src/system.c:10-16 | Exactly the range holds the value |
| Bytes.MemCopy | src/system.c:18-25 | The effect CopyForwardMoves and CopyForwardRepeats are about |
| Division.DivideAndMod64by32 | src/types.h:33-64 | `n = q*base + r` with `r < base` for every 64-bit `n` and non-zero `base`; every intermediate value fits its machine word and both loops stop |
| Division.Divide64by32 | src/types.h:66-70 | The quotient |
| Division.Modulo64by32 | src/types.h:72-75 | The remainder |
| Threads.OneListChanged | src/thread.c:69-133 | Changing one queue's links keeps the lists of all other queues, if nobody joins who was queued elsewhere |
| Threads.Scheduler.TQEnqueue | src/thread.c:69-86 | Append to one queue's list; all other lists and all states unchanged |
| Threads.Scheduler.TQDequeue | src/thread.c:92-110 | Pop-front of one queue's list, or the null index if it is empty; all others unchanged |
| Threads.Scheduler.TQRemove | src/thread.c:112-133 | Deletion from any position of one queue's list; all others unchanged |
| Threads.Scheduler.ThreadInit | src/thread.c:135-154 | All 65 queues empty, thread 0 running, all other threads dead, no links |
| Threads.Scheduler.ThreadSpawn | src/thread.c:166-175 | The new thread becomes the last ready one, its context starts at `entry` with its own stack, and no other thread's context, state or queue changes; with room for a child its id was never used, so it is in no queue |
| Threads.Scheduler.ThreadYield | src/thread.c:182-193 | The ring of running and ready threads turns by one, the null thread is never run, no other queue and no third thread changes, and the register contexts change as coded |
| Threads.Scheduler.ForceRunProcess | src/thread.c:220-227 | `pid` leaves its place in the ready list and runs; the old thread stays RUN in no queue; no other queue and no other state changes |
| Threads.YieldsTurn | src/thread.c:182-193 | After `k` yields the ring of the running thread and the ready list has turned by `k` |
| Threads.RoundRobin | src/thread.c:182-193 | The thread at position `k` of the ready list runs after `k + 1` yields, and with `n` ready threads `n + 1` yields restore the running thread and the list |
| Threads.Scheduler.ValidIsSchedInv | src/thread.c:135-154 | Every valid scheduler state meets the invariant the run theorems start from |
| Threads.SwitchKeepsContexts | src/thread.c:182-193 | Switching from the old current thread keeps every thread's registers |
| Threads.CodedSwitchKeepsContextsIff | src/thread.c:189-192 | The switch as coded keeps everybody's registers if and only if the old context, the new context and the processor already coincide |
| Threads.StepLoses | src/thread.c:166-227 | Spawning and yielding lose no thread; forcing a process loses exactly the current one |
| Threads.RunLoses | src/thread.c:220-227 | Over any run exactly one thread per forced process can never be scheduled again |
| Format.DigitsRoundTrip | src/printf.c:31-42 | In base 2 to 16 the printed digits parse back to the number and have no leading zero |
| Format.SignedRoundTripIff | src/printf.c:80-90 | What `%d` prints parses back to the number if and only if it is not -2^31 |
| Format.DigitTable | src/printf.c:41 | The digit for `k` is character `k` of "0123456789abcdef" |
| Format.UnsignedEscapes | src/printf.c:93-136 | Followed by any text and arguments, `%u`, `%o` and `%x` print a numeral without a leading zero that reads back as the argument in base 10, 8 and 16 |
| Format.LongAndPointerEscapes | src/printf.c:101-127 | The same for `%l` in base 16, and for `%p` after "0x" |
| Format.SignedEscape | src/printf.c:80-90 | The same for `%d` in base 10, after a minus sign if the argument is negative; -2^31 prints as minus 2^64 - 2^31 |
| Format.TextEscapes | src/printf.c:63-78 | `%c` prints the low byte of its argument, `%s` the bytes before the string's NUL, or "(null)" for the null pointer |
| Format.DoubledPrintsItself | src/printf.c:53-60 | Any string with every `%` doubled prints as itself |
| Format.UnknownEscapeIsLiteral | src/printf.c:138-146 | An unknown escape and a trailing `%` are printed literally |
| Format.ShownIff | src/printf.c:16-25 | The flushed buffers show exactly the emitted characters if and only if none of them is NUL |
| Format.Printer.PutCh | src/printf.c:16-25 | One more character emitted; a full buffer is terminated, shown and emptied |
| Format.Printer.PrintNum | src/printf.c:31-42 | Emits the digits DigitsRoundTrip is about |
| Format.Printer.VPrintFmt | src/printf.c:44-147 | Emits the text of the format, which the escape lemmas above are about; never reads past the terminator |
| Format.Printer.VPrintf | src/printf.c:149-161 | Returns the number of characters emitted, and the screen gains exactly them if none is NUL |
| Screen.PaintsFullBytesIff | src/screen.c:32-39 | Painting covers exactly the bytes fully inside the pixel range if and only if the range is shorter than a byte's pixels, or starts past 0 and is aligned or its ragged ends make up a byte |
| Screen.PaintFitsIff | src/screen.c:17-40 | Of the ranges the screen test accepts, exactly the whole screen from pixel 0 is painted past the plane's end, by one byte |
| Screen.PaintedPixels | src/screen.c:24-39 | Painting, pixel by pixel: the colour of exactly the whole bytes counted from the first one that starts in the range (from pixel 8, if that starts at 0) |
| Screen.FlatCopyScrolls | src/screen.c:95-101 | One flat overlapping copy over all four planes plus painting equals scrolling each plane on its own |
| Screen.ScrolledPixels | src/screen.c:95-101 | After scrolling, every pixel has the colour of the one so many rows below, and the last rows have the clear colour |
| Screen.ScrollShows | src/screen.c:95-101 | If the buffer shows 60 lines of a text roll, it shows the next 60 after scrolling by a text row |
| Screen.DrawShows | src/screen.c:75-92 | Drawing a character into an empty cell, or clearing a cell, shows the roll with exactly that change |
| Screen.DrawnPixels | src/screen.c:75-92 | Pixel by pixel: where the mirrored glyph has ink the four plane bits spell the character's colour modulo 16, elsewhere the pixel keeps its colour; a backspace gives the whole cell the clear colour; nothing outside the cell changes |
| Screen.ShownPixels | src/screen.c:75-92 | A buffer that shows a roll has, in every cell, the character's ink in the character's colour and all other pixels in the clear colour |
| Screen.BlankPixels | src/screen.c:135-156 | A cleared screen has the clear colour at every pixel |
| Screen.ScreenBuffer.PaintRange | src/screen.c:15-47 | All four planes painted with their colour bits; ranges off the screen ignored |
| Screen.ScreenBuffer.DrawCharAt | src/screen.c:49-93 | The two assignments to each of the 32 bytes of one cell, in the state DrawnPixels is about; codes above 127 and cells off the screen draw nothing |
| Screen.ScreenBuffer.ClearScreen | src/screen.c:135-156 | The whole buffer holds the clear colour |
| Screen.ScreenBuffer.ScrollScreen | src/screen.c:95-101 | Each plane's rows move up and its last rows take the clear colour |
| Console.FifoIff | src/console.c:39-64 | Over any sequence of reads every typed character is returned, once and in order, if and only if no poll finds 512 or more outstanding |
| Console.PushKeeps | src/console.c:44-52 | The ring keeps the last `n mod 512` of `n` stored characters: a write that fills it forgets everything |
| Console.ArrivedInOrder | src/console.c:44-48 | Of a poll every code but 0 is stored, in order, codes from 128 on as negative characters |
| Console.InputBuffer.GetChar | src/console.c:39-64 | Returns the oldest kept character, or 0, and leaves the rest, as in the reads of FifoIff |
| Console.ScrollsOnce | src/console.c:19-37 | A character moves the cursor over a line end exactly on a newline or in the last column, and the window over the text follows by at most one line |
| Console.ScrollsLeast | src/console.c:25-28 | The window is scrolled by the least number of lines that shows the cursor's line |
| Console.NewlineAndBackspace | src/console.c:66-79 | A newline goes to the start of the next line; a backspace takes back the character before it, cursor and roll, if and only if that was not put in the last column |
| Console.Cursor.MoveCursor | src/console.c:19-37 | The clamped and wrapped position, and the number of scrolls |
| Console.PlainText | src/console.c:76-89 | A plain text stands on the roll of 80-column lines character by character |
| Console.PlainTextPixels | src/console.c:76-89 | On a screen that shows it, each of its characters has its ink in the text's colour at the right cell, and the rest of the cell has the clear colour |
| Console.Cursor.PutChar | src/console.c:66-79 | Puts one character on the endless roll of lines and moves the cursor by one cell of it, and the screen buffer keeps showing exactly the roll's last lines |
| Console.Cursor.PutStr | src/console.c:81-89 | The text is laid out on the roll, and the screen buffer shows, byte for byte, the 60 lines of the roll up to the cursor's |
| Console.Cursor.ResetCursor | src/console.c:91-95 | After ClearScreen the cursor starts over on an empty roll |
| Monitor.WordsOfJoin | src/monitor.c:123-142 | Splitting words that were joined with spaces gives the words back |
| Monitor.WordsOfSpread | src/monitor.c:123-142 | Words separated by any non-empty mix of tabs, returns, newlines and blanks, with any before and after, are the words of the line |
| Monitor.WordsAreWords | src/monitor.c:123-142 | The words of a line are non-empty, contain no white space, and hold exactly its other characters in order |
| Monitor.StringCmp | src/string.c:3-10 | Zero if and only if the C string equals the name |
| Monitor.CommandsByName | src/monitor.c:145-155 | "help" runs command 0, "textcolor" 1 and "user" 2, any other first word is unknown, and more than 15 words or none run nothing |
| Monitor.RunCommand | src/monitor.c:116-156 | After the in-place NUL writing each argument, read as a C string, is the corresponding word of the original line, whether the command is known or not: no word is nothing, more than 15 is an error, otherwise the first word selects the command |
| Monitor.PlainTyping | src/monitor.c:204-208 | Typing plain characters appends them to the line as long as they fit |
| Monitor.IdleKeys | src/monitor.c:183-203 | A poll without a key, and a backspace on an empty line, change nothing |
| Monitor.BackspaceUndoesIff | src/monitor.c:198-208 | A backspace takes back the key before it if and only if the line was not full |
| Monitor.TypedWordsRun | src/monitor.c:183-208 | From an empty line, typing words and a newline runs the command they spell |
| Monitor.LineEditor.MonitorRun | src/monitor.c:183-210 | The buffer holds the fold of the keys with backspace and the 511 cap, and each newline runs the line so far |

## Left out

- Assembly, control registers, the TLB, GDT/IDT/TSS and interrupt controller setup, port I/O and the trap frames: hardware effects with little logic. `ContextSwitch` is modelled as "save into from, load from to".
- The VGA device, `DisplayBuffer` and `DisplayUserBuffer`: device output. The font and its mirror table are parameters.
- Keyboard scan codes: `GetChar` takes the codes the keyboard yields before it reports -1.
- Boot banners, colour commands, panic and stack traces, the demo user program, `SysGetChar`, the unused `SysSpawn` and `SysYield` stubs: no hard property. The monitor's commands are modelled up to the words they are called with.
- `CreateProcess` beyond `ThreadSpawn` and `ELFLoad`: it only stores constants into the user context.
- The user library's near-copies of the division and the formatter need no second model.
- A panic is modelled as the end of the load; nothing is claimed about memory after it.
- The page directories and the other kernel tables are fields of their own and not bytes of the modelled physical memory, except the identity tables and all page tables. That kernel data structures do not overlap each other is the linker's promise.
- Quotas and usages are unbounded integers; the invariant bounds them by the number of user pages, so 32-bit words hold them.
- The scheduler class has the container table as a field of its own, beside the memory system's; `ThreadSpawn` changes it by the same function as `ContainerSplit`.
- The three scanning loops of `PhysicalPageAlloc` are one method called with three ranges, and the common head of the three copy loops is one method.
- Frames.PageAllocComplete: for the allocator as coded it needs that no freed page is remembered; `IssuedPageMarkedIff`, `DoubleIssue` and `TwoFreesShareAFrame` say what happens otherwise.
- Runs.RunKeepsInv: as coded it covers runs without frees, with the allocator corrected all runs; `AllocKeepsOwnershipIff` shows that this is the exact border.
- Runs.StepIsolated: user addresses and processes other than 0 only, since the identity tables are shared; a split must have room and stay within the parent's quota, which `ContainerSplit` leaves to its callers.
- Leakage.QuietDropsNothing: pages are asked for as present, as all callers of `AllocPage` do; a page mapped without its present bit would be replaced by the next copy through it.
- Ownership.MapPageEffect: for a frame the process was charged for and has not mapped yet, as `AllocPage` passes it.
- KernelMemory.MemorySystem.PTCopyOut: the kernel buffer ends below 2^32, as an object does. The theorems about the effect ask for a user range and a kernel buffer above page 0.
- KernelMemory.MemorySystem.PTCopyIn: as PTCopyOut; its theorems also ask for a buffer clear of the identity tables.
- KernelMemory.MemorySystem.PTMemSet: it has no guard in the source; its theorems ask for a user range.
- KernelMemory.MemorySystem.ELFLoad: headers in the image and segments as the System V gABI (chapter 5, "Program Header") asks, in user space; the loader does not check this.
- KernelMemory.MemorySystem.ELFLoadSegment: a conformant header, as for ELFLoad.
- KernelMemory.MemorySystem.SysPutStr: that `PrintfColor` interprets `%` in the user's text again is not modelled, only the bytes it is given.
- KernelMemory.MemorySystem.ContainerSplit: the child id must fit the table; the C code would write outside it.
- Quota.ContainerSplit: as KernelMemory.MemorySystem.ContainerSplit.
- Threads.Scheduler.ThreadSpawn: without room for a child the id it computes must not be running or queued, because TQEnqueue is meant for a thread in no queue.
- Screen.ScreenBuffer.PaintRange: the whole screen from pixel 0 is excluded, because it writes one byte past the buffer; `PaintFitsIff` shows that no other accepted range does.
- Screen.ScreenBuffer.ScrollScreen: fewer rows than the screen has, because scrolling by all of them paints that excluded range; the kernel scrolls by 8.
- Monitor.LineEditor.MonitorRun: the endless loop is followed over any finite sequence of keys; the echo is not modelled.
