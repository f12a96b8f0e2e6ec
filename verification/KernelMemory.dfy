/** The memory subsystem as the source runs it: globals updated in place, physical memory one
    byte array with the page tables inside it. Each method is tied to its function on
    `Machine.State` through `Abs`. */
module KernelMemory {
  import opened Words
  import Bytes
  import opened Frames
  import opened Quota
  import opened Machine
  import opened Books
  import opened PageTables
  import opened Ownership
  import opened UserMemory
  import opened CopyLoops
  import opened CopyInLoop
  import opened ElfImage
  import opened ElfLoad
  import opened PutStr
  import opened Boot

  class MemorySystem {
    const pPageInfo: array<PageInfo>
    const containers: array<Container>
    const pageDirEntries: array<uint32>   // one row of 1024 slots for each process
    const memory: array<byte>
    const pageDirIdentity: int            // its address
    var lastFreedPage: int
    var lastAllocPage: int
    ghost var roles: map<int, Role>

    ghost predicate Valid()
      reads this
    {
      && pPageInfo.Length == NUM_PAGES
      && containers.Length == MAX_PROCS
      && pageDirEntries.Length == MAX_PROCS * NUM_TABLES
      && memory.Length == WORD
      && -1 <= lastFreedPage < NUM_PAGES && -1 <= lastAllocPage < NUM_PAGES
      && pageDirIdentity % PAGESIZE == 0 && PAGESIZE <= pageDirIdentity <= USERLO - NUM_TABLES * PAGESIZE
    }

    ghost function Table(): (ft: FrameTable)
      reads this, pPageInfo
      requires Valid()
      ensures WellFormed(ft)
    {
      FrameTable(pPageInfo[..], lastFreedPage, lastAllocPage)
    }

    /** The machine state these globals stand for. */
    ghost function Abs(): (s: State)
      reads this, pPageInfo, containers, pageDirEntries, memory
      requires Valid()
      ensures Shaped(s)
    {
      State(Table(), containers[..], pageDirEntries[..], memory[..], pageDirIdentity, roles)
    }

    /** The statically initialised globals; the linker chooses where the identity tables go. */
    constructor (identity: int)
      requires identity % PAGESIZE == 0 && PAGESIZE <= identity <= USERLO - NUM_TABLES * PAGESIZE
      ensures Valid() && fresh(pPageInfo) && fresh(containers) && fresh(pageDirEntries) && fresh(memory)
      ensures lastFreedPage == lastAllocPage == -1 && roles == map[]
      ensures forall i :: 0 <= i < MAX_PROCS ==> containers[i] == ZERO
    {
      pPageInfo := new PageInfo[NUM_PAGES](i => PageInfo(false, Bios));
      containers := new Container[MAX_PROCS](i => ZERO);
      pageDirEntries := new uint32[MAX_PROCS * NUM_TABLES](i => 0);
      memory := new byte[WORD](i => 0);
      pageDirIdentity := identity;
      lastFreedPage, lastAllocPage := -1, -1;
      roles := map[];
    }

    // ----- mem_physical.c

    /** The scan over `[lo, hi)` that all three branches share. */
    method Scan(lo: nat, hi: nat) returns (page: nat)
      requires Valid() && hi <= NUM_PAGES
      ensures lo <= hi ==> page == FirstFree(pPageInfo[..], lo, hi)
      ensures lo > hi ==> page == lo
    {
      page := lo;
      while page < hi
        invariant lo <= hi ==>
                    lo <= page <= hi && FirstFree(pPageInfo[..], page, hi) == FirstFree(pPageInfo[..], lo, hi)
        invariant lo > hi ==> page == lo
      {
        if !pPageInfo[page].taken && pPageInfo[page].perm == User {
          return;
        }
        page := page + 1;
      }
    }

    method PhysicalPageAlloc() returns (page: nat)
      requires Valid()
      modifies `lastFreedPage, `lastAllocPage, pPageInfo
      ensures Valid() && (Table(), page) == PageAlloc(old(Table()), AsCoded)
    {
      if lastFreedPage != -1 {
        page := lastFreedPage;
        lastAllocPage := lastFreedPage;
        lastFreedPage := -1;
        return;
      } else if lastAllocPage != -1 {
        page := Scan(lastAllocPage + 1, USERHI_PI);
        if page < USERHI_PI {
          pPageInfo[page] := pPageInfo[page].(taken := true);
          lastAllocPage := page;
          return;
        }
        page := Scan(USERLO_PI, lastAllocPage + 1);
        if page < lastAllocPage + 1 {
          pPageInfo[page] := pPageInfo[page].(taken := true);
          lastAllocPage := page;
          return;
        }
      } else {
        page := Scan(USERLO_PI, USERHI_PI);
        if page < USERHI_PI {
          pPageInfo[page] := pPageInfo[page].(taken := true);
          lastAllocPage := page;
          return;
        }
      }
      page := 0;
    }

    method PhysicalPageFree(page: nat)
      requires Valid() && page < NUM_PAGES
      modifies `lastFreedPage, pPageInfo
      ensures Valid() && Table() == PageFree(old(Table()), page)
    {
      pPageInfo[page] := pPageInfo[page].(taken := false);
      lastFreedPage := page;
    }

    method ContainerSplit(id: nat, quota: nat) returns (childID: nat)
      requires Valid() && id < MAX_PROCS && 0 <= ChildId(containers[..], id) < MAX_PROCS
      modifies containers
      ensures childID == ChildId(old(containers[..]), id)
      ensures Abs() == old(Abs()).(cs := Split(old(containers[..]), id, quota))
    {
      childID := Quota.ContainerSplit(containers, id, quota);
    }

    method ContainerAlloc(id: nat) returns (page: nat)
      requires Valid() && id < MAX_PROCS
      modifies this, pPageInfo, containers
      ensures Valid() && (Abs(), page) == Machine.ContainerAlloc(old(Abs()), id, AsCoded)
    {
      if containers[id].usage == containers[id].quota {
        return 0;
      }
      containers[id] := containers[id].(usage := containers[id].usage + 1);
      page := PhysicalPageAlloc();
      roles := if page == 0 then roles else roles[page := Unplaced(id)];
    }

    method ContainerFree(id: nat, pageIndex: nat)
      requires Valid() && id < MAX_PROCS && pageIndex < NUM_PAGES
      modifies this, pPageInfo, containers
      ensures Valid() && Abs() == Machine.ContainerFree(old(Abs()), id, pageIndex)
    {
      if pPageInfo[pageIndex].taken {
        PhysicalPageFree(pageIndex);
        if containers[id].usage > 0 {
          containers[id] := containers[id].(usage := containers[id].usage - 1);
        }
        roles := roles - {pageIndex};
      }
    }

    // ----- words and bytes of physical memory

    method LoadWord(addr: nat) returns (w: uint32)
      requires Valid() && addr + 4 <= WORD
      ensures w == Word(memory[..], addr)
    {
      w := memory[addr] as int + 0x100 * memory[addr + 1] as int
           + 0x1_0000 * memory[addr + 2] as int + 0x100_0000 * memory[addr + 3] as int;
    }

    method StoreWord(addr: nat, w: uint32)
      requires Valid() && addr + 4 <= WORD
      modifies memory
      ensures memory[..] == SetWord(old(memory[..]), addr, w)
    {
      memory[addr] := w % 0x100;
      memory[addr + 1] := w / 0x100 % 0x100;
      memory[addr + 2] := w / 0x1_0000 % 0x100;
      memory[addr + 3] := w / 0x100_0000;
    }

    // ----- mem_virtual.c

    method GetPageTableEntry(procIndex: nat, pdeIndex: nat, pteIndex: nat) returns (pte: uint32)
      requires Valid() && procIndex < MAX_PROCS && pdeIndex < NUM_TABLES && pteIndex < NUM_TABLES
      ensures pte == Word(memory[..], EntryAddr(pageDirEntries[..], procIndex, pdeIndex * NUM_TABLES + pteIndex))
    {
      var addr := pageDirEntries[procIndex * NUM_TABLES + pdeIndex] / PAGESIZE * PAGESIZE + pteIndex * 4;
      pte := LoadWord(addr);
    }

    /** SetPageTableEntry and, with `entry` 0, RemovePageTableEntry. */
    method WritePageTableEntry(procIndex: nat, pdeIndex: nat, pteIndex: nat, entry: uint32)
      requires Valid() && procIndex < MAX_PROCS && pdeIndex < NUM_TABLES && pteIndex < NUM_TABLES
      modifies memory
      ensures memory[..] == SetWord(old(memory[..]), EntryAddr(pageDirEntries[..], procIndex,
                                                               pdeIndex * NUM_TABLES + pteIndex), entry)
    {
      hide SetWord;
      EntryIndex(pdeIndex, pteIndex);
      var addr := pageDirEntries[procIndex * NUM_TABLES + pdeIndex] / PAGESIZE * PAGESIZE + pteIndex * 4;
      StoreWord(addr, entry);
    }

    method GetPageTableEntryByVA(procIndex: nat, va: uint32) returns (pte: uint32)
      requires Valid() && procIndex < MAX_PROCS
      ensures pte == Pte(pageDirEntries[..], memory[..], procIndex, va / PAGESIZE)
    {
      VaIndices(va);
      var pdeIndex := va / (PAGESIZE * NUM_TABLES);
      var pde := pageDirEntries[procIndex * NUM_TABLES + pdeIndex];
      if pde == 0 {
        return 0;
      }
      pte := GetPageTableEntry(procIndex, pdeIndex, va / PAGESIZE % NUM_TABLES);
    }

    method AllocPageTable(procIndex: nat, va: uint32) returns (page: nat)
      requires Valid() && procIndex < MAX_PROCS
      modifies this, pPageInfo, containers, pageDirEntries, memory
      ensures Valid() && (Abs(), page) == Machine.AllocPageTable(old(Abs()), procIndex, va / PAGESIZE, AsCoded)
    {
      VaIndices(va);
      page := ContainerAlloc(procIndex);
      if page != 0 {
        ghost var s1 := Abs();
        var pdeIndex := va / (PAGESIZE * NUM_TABLES);
        pageDirEntries[procIndex * NUM_TABLES + pdeIndex] := page * PAGESIZE + PTE_PWU;
        ClearTable(procIndex, pdeIndex, page);
        roles := roles[page := Role.Table(procIndex, pdeIndex)];
        assert Abs() == PlaceTable(s1, procIndex, va / PAGESIZE, page);
      }
    }

    /** The loop of AllocPageTable over the new table's entries. */
    method ClearTable(procIndex: nat, pdeIndex: nat, page: nat)
      requires Valid() && procIndex < MAX_PROCS && pdeIndex < NUM_TABLES && page < NUM_PAGES
      requires pageDirEntries[Slot(procIndex, pdeIndex)] == page * PAGESIZE + PTE_PWU
      modifies memory
      ensures memory[..] == Fill(old(memory[..]), page * PAGESIZE, PAGESIZE, 0)
    {
      var i := 0;
      while i < NUM_TABLES
        invariant i <= NUM_TABLES
        invariant memory[..] == Fill(old(memory[..]), page * PAGESIZE, i * 4, 0)
      {
        ghost var before := memory[..];
        assert EntryAddr(pageDirEntries[..], procIndex, pdeIndex * NUM_TABLES + i) == page * PAGESIZE + i * 4;
        WritePageTableEntry(procIndex, pdeIndex, i, 0);
        FillFour(old(memory[..]), page * PAGESIZE, i * 4);
        i := i + 1;
      }
    }

    method FreePageTable(procIndex: nat, va: uint32)
      requires Valid() && procIndex < MAX_PROCS
      modifies this, pPageInfo, containers, pageDirEntries
      ensures Valid() && Abs() == Machine.FreePageTable(old(Abs()), procIndex, va / PAGESIZE)
    {
      VaIndices(va);
      var pdeIndex := va / (PAGESIZE * NUM_TABLES);
      var pde := pageDirEntries[procIndex * NUM_TABLES + pdeIndex];
      pageDirEntries[procIndex * NUM_TABLES + pdeIndex] := 0;
      roles := DetachTable(roles, procIndex, pdeIndex);
      ContainerFree(procIndex, pde / PAGESIZE);
    }

    method MapPage(procIndex: nat, va: uint32, page: nat, perm: nat) returns (result: nat, err: bool)
      requires Valid() && procIndex < MAX_PROCS && page < NUM_PAGES && perm < PAGESIZE
      modifies this, pPageInfo, containers, pageDirEntries, memory
      ensures Valid() && (Abs(), result, !err)
              == Machine.MapPage(old(Abs()), procIndex, va / PAGESIZE, page, perm, AsCoded)
    {
      VaIndices(va);
      var pdeIndex := va / (PAGESIZE * NUM_TABLES);
      var pde := pageDirEntries[procIndex * NUM_TABLES + pdeIndex];
      if pde != 0 {
        result := pde / PAGESIZE;
      } else {
        result := AllocPageTable(procIndex, va);
        if result == 0 {
          return 0, true;
        }
      }
      SetPageTableEntry(procIndex, va, page, perm);
      err := false;
    }

    method SetPageTableEntry(procIndex: nat, va: uint32, page: nat, perm: nat)
      requires Valid() && procIndex < MAX_PROCS && page < NUM_PAGES && perm < PAGESIZE
      modifies `roles, memory
      ensures Valid() && Abs() == SetEntry(old(Abs()), procIndex, va / PAGESIZE, page, perm)
    {
      hide Pte, EntryAddr, SetWord, DetachPage;
      VaIndices(va);
      ghost var pte := Pte(pageDirEntries[..], memory[..], procIndex, va / PAGESIZE);
      roles := DetachPage(roles, procIndex, pte)[page := Data(procIndex, va / PAGESIZE)];
      WritePageTableEntry(procIndex, va / (PAGESIZE * NUM_TABLES), va / PAGESIZE % NUM_TABLES, page * PAGESIZE + perm);
    }

    method UnmapPage(procIndex: nat, va: uint32) returns (pte: uint32)
      requires Valid() && procIndex < MAX_PROCS
      modifies `roles, memory
      ensures Valid() && (Abs(), pte) == Machine.UnmapPage(old(Abs()), procIndex, va / PAGESIZE)
    {
      VaIndices(va);
      pte := GetPageTableEntryByVA(procIndex, va);
      if pte != 0 {
        WritePageTableEntry(procIndex, va / (PAGESIZE * NUM_TABLES), va / PAGESIZE % NUM_TABLES, 0);
        roles := DetachPage(roles, procIndex, pte);
      }
    }

    method AllocPage(procIndex: nat, va: uint32, perm: nat) returns (result: nat, err: bool)
      requires Valid() && procIndex < MAX_PROCS && perm < PAGESIZE
      modifies this, pPageInfo, containers, pageDirEntries, memory
      ensures Valid() && (Abs(), result, !err) == Machine.AllocPage(old(Abs()), procIndex, va / PAGESIZE, perm, AsCoded)
    {
      var page := ContainerAlloc(procIndex);
      if page == 0 {
        return 0, true;
      }
      var mapPageErr;
      result, mapPageErr := MapPage(procIndex, va, page, perm);
      if mapPageErr {
        return 0, true;
      }
      err := false;
    }

    // ----- the copy loops

    method PTCopyOut(kva: uint32, pid: nat, uva: uint32, len: uint32) returns (copied: nat)
      requires Valid() && pid < MAX_PROCS && kva + len < WORD
      modifies this, pPageInfo, containers, pageDirEntries, memory
      ensures Valid()
      ensures if CopyGuard(uva, kva, len)
              then copied == len && Abs() == CopyOutAround(old(Abs()), kva, pid, uva, len, AsCoded)
              else copied == 0 && Abs() == old(Abs())
    {
      hide Abs, OutStep, ReadStep, Shaped, CopyOutAround, CopyInAround;
      if !(USERLO <= uva && (uva + len) % WORD <= USERHI) {
        return 0;
      }
      if (kva + len) % WORD > USERHI {
        return 0;
      }
      copied := 0;
      var remaining, from, to := len, kva, uva;
      while remaining > 0
        invariant Valid() && copied + remaining == len && from == kva + copied && 0 <= to < WORD
        invariant CopyOutAround(Abs(), from, pid, to, remaining, AsCoded)
                  == CopyOutAround(old(Abs()), kva, pid, uva, len, AsCoded)
      {
        CopyOutAroundStep(Abs(), from, pid, to, remaining, AsCoded);
        var size := CopyOutChunk(from, pid, to, remaining);
        remaining, to, from, copied := remaining - size, (to + size) % WORD, from + size, copied + size;
      }
      NothingAround(Abs(), from, pid, to, 0, AsCoded);
    }

    method PTCopyIn(pid: nat, uva: uint32, kva: uint32, len: uint32) returns (copied: nat)
      requires Valid() && pid < MAX_PROCS && kva + len < WORD
      modifies this, pPageInfo, containers, pageDirEntries, memory
      ensures Valid()
      ensures if CopyGuard(uva, kva, len)
              then copied == len && Abs() == CopyInAround(old(Abs()), pid, uva, kva, len, AsCoded)
              else copied == 0 && Abs() == old(Abs())
    {
      hide Abs, OutStep, ReadStep, Shaped, CopyOutAround, CopyInAround;
      if !(USERLO <= uva && (uva + len) % WORD <= USERHI) {
        return 0;
      }
      if (kva + len) % WORD > USERHI {
        return 0;
      }
      copied := 0;
      var remaining, from, to := len, uva, kva;
      while remaining > 0
        invariant Valid() && copied + remaining == len && 0 <= from < WORD && to == kva + copied
        invariant CopyInAround(Abs(), pid, from, to, remaining, AsCoded)
                  == CopyInAround(old(Abs()), pid, uva, kva, len, AsCoded)
      {
        CopyInAroundStep(Abs(), pid, from, to, remaining, AsCoded);
        var size := CopyInChunk(pid, from, to, remaining);
        remaining, from, to, copied := remaining - size, (from + size) % WORD, to + size, copied + size;
      }
      NothingAround(Abs(), to, pid, from, 0, AsCoded);
    }

    method PTMemSet(pid: nat, va: uint32, c: byte, len: uint32) returns (done: nat)
      requires Valid() && pid < MAX_PROCS
      modifies this, pPageInfo, containers, pageDirEntries, memory
      ensures Valid() && done == len && Abs() == MemSetAround(old(Abs()), pid, va, c, len, AsCoded)
    {
      hide Abs, SetStep, Shaped, MemSetAround;
      done := 0;
      var remaining, to := len, va;
      while remaining > 0
        invariant Valid() && done + remaining == len && 0 <= to < WORD
        invariant MemSetAround(Abs(), pid, to, c, remaining, AsCoded)
                  == MemSetAround(old(Abs()), pid, va, c, len, AsCoded)
      {
        MemSetAroundStep(Abs(), pid, to, c, remaining, AsCoded);
        var size := MemSetChunk(pid, to, c, remaining);
        remaining, to, done := remaining - size, (to + size) % WORD, done + size;
      }
      NothingAround(Abs(), 0, pid, to, c, AsCoded);
    }

    method CopyOutChunk(from: nat, pid: nat, to: uint32, len: nat) returns (size: nat)
      requires Valid() && pid < MAX_PROCS && len > 0 && from + len < WORD
      modifies this, pPageInfo, containers, pageDirEntries, memory
      ensures Valid() && size == ChunkSize(to, len) && Abs() == OutStep(old(Abs()), from, pid, to, size, AsCoded)
    {
      var pa;
      pa, size := UserChunk(pid, to, len);
      Bytes.MemCopy(memory, pa, from, size);
    }

    method CopyInChunk(pid: nat, from: uint32, to: nat, len: nat) returns (size: nat)
      requires Valid() && pid < MAX_PROCS && len > 0 && to + len < WORD
      modifies this, pPageInfo, containers, pageDirEntries, memory
      ensures Valid() && size == ChunkSize(from, len) && Abs() == ReadStep(old(Abs()), pid, from, to, size, AsCoded)
    {
      var pa;
      pa, size := UserChunk(pid, from, len);
      Bytes.MemCopy(memory, to, pa, size);
    }

    method MemSetChunk(pid: nat, to: uint32, c: byte, len: nat) returns (size: nat)
      requires Valid() && pid < MAX_PROCS && len > 0
      modifies this, pPageInfo, containers, pageDirEntries, memory
      ensures Valid() && size == ChunkSize(to, len) && Abs() == SetStep(old(Abs()), pid, to, c, size, AsCoded)
    {
      var pa;
      pa, size := UserChunk(pid, to, len);
      Bytes.MemSet(memory, pa, c, size);
    }

    /** The common head of the three loops: allocate the page if it is not present (ignoring
        failure), and find the physical address and size of the chunk. */
    method UserChunk(pid: nat, uva: uint32, len: nat) returns (pa: nat, size: nat)
      requires Valid() && pid < MAX_PROCS && len > 0
      modifies this, pPageInfo, containers, pageDirEntries, memory
      ensures Valid() && Abs() == EnsurePage(old(Abs()), pid, uva / PAGESIZE, AsCoded)
      ensures pa == PhysAddr(pageDirEntries[..], memory[..], pid, uva) && size == ChunkSize(uva, len)
    {
      VaIndices(uva);
      var pte := GetPageTableEntryByVA(pid, uva);
      if pte % 2 == 0 {
        var _, _ := AllocPage(pid, uva, PTE_P + PTE_U + PTE_W);
        pte := GetPageTableEntryByVA(pid, uva);
      }
      pa := pte / PAGESIZE * PAGESIZE + uva % PAGESIZE;
      size := if len < PAGESIZE - pa % PAGESIZE then len else PAGESIZE - pa % PAGESIZE;
    }

    // ----- elf.c

    method LoadHalf(addr: nat) returns (h: nat)
      requires Valid() && addr + 2 <= WORD
      ensures h == Half(memory[..], addr)
    {
      h := memory[addr] as int + 0x100 * memory[addr + 1] as int;
    }

    method LoadHeader(ph: nat) returns (h: ProgHdr)
      requires Valid() && ph + PROGHDR_SIZE <= WORD
      ensures h == HdrAt(memory[..], ph)
    {
      var kind := LoadWord(ph);
      var offset := LoadWord(ph + 4);
      var va := LoadWord(ph + 8);
      var filesz := LoadWord(ph + 16);
      var memsz := LoadWord(ph + 20);
      var flags := LoadWord(ph + 24);
      h := ProgHdr(kind, offset, va, filesz, memsz, flags);
    }

    /** The body of ELFLoad's page loop. */
    method ELFLoadPage(pid: nat, fa: nat, va: uint32, h: ProgHdr) returns (err: bool)
      requires Valid() && pid < MAX_PROCS && va % PAGESIZE == 0 && USERLO <= va && va + PAGESIZE <= USERHI
      requires PageSource(fa, va, h)
      modifies this, pPageInfo, containers, pageDirEntries, memory
      ensures Valid() && (Abs(), !err) == LoadPage(old(Abs()), pid, fa, va, h, AsCoded)
    {
      hide Abs, CopyOut, MemSetUser, Machine.AllocPage, ZeroFrom;
      var zva: uint32 := (h.va + h.filesz) % WORD;
      assert zva == ZeroFrom(h) by { ZeroFromIs(h); }
      var table;
      table, err := AllocPage(pid, va, PermOf(h));
      if err {
        return;
      }
      if va < RoundDown(zva, PAGESIZE) {
        var _ := PTCopyOut(fa, pid, va, PAGESIZE);
      } else if va < zva && h.filesz != 0 {
        assert zva - va <= PAGESIZE by { PageAgainst(va / PAGESIZE, zva); }
        var _ := PTMemSet(pid, va, 0, PAGESIZE);
        var _ := PTCopyOut(fa, pid, va, zva - va);
      } else {
        var _ := PTMemSet(pid, va, 0, PAGESIZE);
      }
    }

    /** One loadable header: the page loop. */
    method ELFLoadSegment(pid: nat, exe: nat, h: ProgHdr) returns (panicked: bool)
      requires Valid() && 1 <= pid < MAX_PROCS && SegmentOk(h, exe)
      requires Inv(Abs()) && Sound(Abs().frames, AsCoded)
      modifies this, pPageInfo, containers, pageDirEntries, memory
      ensures Valid() && (Abs(), !panicked) == LoadSegment(old(Abs()), pid, exe, h, AsCoded)
    {
      hide Abs, Inv, Sound, LoadPage, LoadPages, SegSource, PageSource, FirstPage, LastPage, RoundDown, RoundUp,
           Base, End, FileBase, SegmentOk;
      SegmentStart(h, exe);
      ghost var whole := LoadSegment(Abs(), pid, exe, h, AsCoded);
      var fa: nat := exe + RoundDown(h.offset, PAGESIZE);
      var va: nat := RoundDown(h.va, PAGESIZE);
      var eva: nat := RoundUp((h.va + h.memsz) % WORD, PAGESIZE);
      ghost var x, xe := FirstPage(h), LastPage(h);
      while va < eva
        invariant Valid() && va == x * PAGESIZE && eva == xe * PAGESIZE && x <= xe
        invariant USERLO_PI <= x && xe <= USERHI_PI
        invariant SegSource(fa, x, xe, h) && fa + (xe - x) * PAGESIZE <= WORD
        invariant Inv(Abs()) && Sound(Abs().frames, AsCoded)
        invariant LoadPages(Abs(), pid, fa, x, xe, h, AsCoded) == whole
        decreases eva - va
      {
        LoadPagesUnfold(Abs(), pid, fa, x, xe, h, AsCoded);
        var err := ELFLoadPage(pid, fa, va, h);
        if err {
          return true;
        }
        va, fa := va + PAGESIZE, fa + PAGESIZE;
        x := x + 1;
      }
      LoadPagesDone(Abs(), pid, fa, x, h, AsCoded);
      panicked := false;
    }

    /** ELFLoad; a failed assertion or allocation panics, and a panic does not return. */
    method ELFLoad(exe: nat, pid: nat) returns (panicked: bool)
      requires Valid() && 1 <= pid < MAX_PROCS && HeadersFit(memory[..], exe)
      requires AllOk(Hdrs(memory[..], exe + PhOff(memory[..], exe), PhNum(memory[..], exe)), exe)
      requires Inv(Abs()) && Sound(Abs().frames, AsCoded)
      modifies this, pPageInfo, containers, pageDirEntries, memory
      ensures Valid()
      ensures var m := old(memory[..]); var hs := Hdrs(m, exe + PhOff(m, exe), PhNum(m, exe));
              if !AssertsHold(m, exe) then panicked && Abs() == old(Abs())
              else (Abs(), !panicked) == LoadSegments(old(Abs()), pid, exe, hs, AsCoded)
    {
      hide Inv, Sound, AllOk, LoadSegments, Abs, Word, Half;
      ghost var m := memory[..];
      var magic := LoadWord(exe);
      if magic != ELF_MAGIC {
        return true;
      }
      var shstrndx := LoadHalf(exe + 50);
      if shstrndx == ELF_SHN_UNDEF {
        return true;
      }
      var shoff := LoadWord(exe + 32);
      var kind := LoadWord(exe + shoff + SECHDR_SIZE * shstrndx + 4);
      if kind != ELF_SHT_STRTAB {
        return true;
      }
      var phoff := LoadWord(exe + 28);
      var phnum := LoadHalf(exe + 44);
      panicked := ELFLoadHeaders(exe, pid, exe + phoff, phnum);
    }

    /** The loop over the program headers from `ph` on. */
    method ELFLoadHeaders(exe: nat, pid: nat, ph: nat, phnum: nat) returns (panicked: bool)
      requires Valid() && 1 <= pid < MAX_PROCS && PAGESIZE <= ph && ph + PROGHDR_SIZE * phnum <= USERLO
      requires AllOk(Hdrs(memory[..], ph, phnum), exe)
      requires Inv(Abs()) && Sound(Abs().frames, AsCoded)
      modifies this, pPageInfo, containers, pageDirEntries, memory
      ensures Valid() && (Abs(), !panicked)
              == LoadSegments(old(Abs()), pid, exe, old(Hdrs(memory[..], ph, phnum)), AsCoded)
    {
      hide Inv, Sound, LoadSegment, SegmentOk, AllOk, KernelKept, HdrAt, LoadKeeps, SlotsFilled, FirstPage, LastPage;
      ghost var m := memory[..];
      ghost var s0 := Abs();
      ghost var hs := Hdrs(m, ph, phnum);
      KernelKeptSelf(m);
      var i := 0;
      while i < phnum
        invariant Valid() && i <= phnum
        invariant Inv(Abs()) && Sound(Abs().frames, AsCoded) && KernelKept(m, memory[..])
        invariant AllOk(hs[i..], exe) && AllOk(hs, exe)
        invariant LoadSegments(Abs(), pid, exe, hs[i..], AsCoded) == LoadSegments(s0, pid, exe, hs, AsCoded)
      {
        var h := LoadHeader(ph + PROGHDR_SIZE * i);
        SameHeader(m, memory[..], ph + PROGHDR_SIZE * i);
        assert hs[i..][0] == h && hs[i..][1..] == hs[i + 1..];
        TailOk(hs[i..], exe);
        if h.kind == ELF_PROG_LOAD {
          ghost var s := Abs();
          LoadSegmentEffect(s, pid, exe, h, AsCoded);
          panicked := ELFLoadSegment(pid, exe, h);
          if panicked {
            return;
          }
          KeepsInv(s, Abs(), pid, FirstPage(h), LastPage(h), AsCoded);
          KernelKeptOn(m, s.mem, memory[..]);
        }
        i := i + 1;
      }
      panicked := false;
    }

    // ----- syscall.c

    /** SysPutStr for the process `pid`, its `sysBuf` row at `buf`, on any two registers; `handed`
        collects what PrintfColor is given. */
    method SysPutStr(pid: nat, strVA: uint32, len: uint32, buf: nat) returns (result: PutResult, handed: seq<seq<byte>>)
      requires Valid() && pid < MAX_PROCS && KernelBuffer(buf, PAGESIZE)
      modifies this, pPageInfo, containers, pageDirEntries, memory
      ensures Valid() && (Abs(), handed, result) == SysPut(old(Abs()), pid, strVA, len, buf, AsCoded)
    {
      hide Abs, PutStep, Shaped, PutRun;
      handed := [];
      if !(USERLO <= strVA && (strVA + len) % WORD <= USERHI) {
        return InvalidAddress, [];
      }
      var remain: nat, curPos: uint32 := len, strVA;
      ghost var whole := PutRun(Abs(), pid, strVA, len, buf, AsCoded);
      assert [] + whole.1 == whole.1;
      while remain > 0
        invariant Valid()
        invariant var (s', rest, r) := PutRun(Abs(), pid, curPos, remain, buf, AsCoded);
                  (s', handed + rest, r) == whole
      {
        var nBytes := if remain < PAGESIZE - 1 then remain else PAGESIZE - 1;
        PutRunCases(Abs(), pid, curPos, remain, buf, AsCoded);
        var read := PutOneChunk(pid, curPos, nBytes, buf);
        if !read {
          assert handed + [] == handed;
          return NoMemory, handed;
        }
        MemoryOfAbs();
        var chunk := memory[buf..buf + nBytes];
        ghost var rest := PutRun(Abs(), pid, (curPos + nBytes) % WORD, remain - nBytes, buf, AsCoded).1;
        assert handed + ([chunk] + rest) == handed + [chunk] + rest;
        handed := handed + [chunk];
        remain, curPos := remain - nBytes, (curPos + nBytes) % WORD;
      }
      PutNone(Abs(), pid, curPos, buf, AsCoded);
      assert handed + [] == handed;
      result := Success;
    }

    lemma MemoryOfAbs()
      requires Valid()
      ensures Abs().mem == memory[..]
    {}

    method PutOneChunk(pid: nat, va: uint32, n: nat, buf: nat) returns (read: bool)
      requires Valid() && pid < MAX_PROCS && 0 < n < PAGESIZE && KernelBuffer(buf, PAGESIZE)
      modifies this, pPageInfo, containers, pageDirEntries, memory
      ensures Valid() && (read <==> CopyGuard(va, buf, n))
      ensures Abs() == if read then PutStep(old(Abs()), pid, va, n, buf, AsCoded) else old(Abs())
    {
      var copied := PTCopyIn(pid, va, buf, n);
      if copied != n {
        return false;
      }
      memory[buf + n] := 0;
      read := true;
    }

    // ----- boot

    /** ContainerInit; containers start out zero. */
    method ContainerInit(userPages: nat)
      requires Valid() && forall i :: 0 <= i < MAX_PROCS ==> containers[i] == ZERO
      modifies containers
      ensures containers[..] == Init(userPages)
    {
      containers[0] := containers[0].(quota := userPages);
      containers[0] := containers[0].(usage := 0);
      containers[0] := containers[0].(parent := 0);
      containers[0] := containers[0].(numChildren := 0);
      containers[0] := containers[0].(used := true);
    }

    /** The inner loop over the memory map, up to its terminator. */
    method PageReserved(smap: seq<Smap>, page: nat) returns (reserved: bool)
      requires page < NUM_PAGES && smap != [] && Terminator(smap[|smap| - 1])
      ensures reserved == !Usable(smap, page)
    {
      var pgStart := page * PAGESIZE;
      var pgEnd := (pgStart + PAGESIZE) % WORD;
      reserved := true;
      var p := 0;
      while !Terminator(smap[p])
        invariant p < |smap| && Usable(smap[p..], page) == Usable(smap, page)
        decreases |smap| - p
      {
        var start := smap[p].base % WORD;
        var end := (start + smap[p].length % WORD) % WORD;
        assert smap[p..][0] == smap[p] && smap[p..][1..] == smap[p + 1..];
        if pgStart >= start && pgEnd <= end {
          if smap[p].kind == 1 {
            reserved := false;
            break;
          }
        }
        p := p + 1;
      }
      assert smap[p..][0] == smap[p];
    }

    /** PhysicalMemoryInit: every page is classified, the three counts cover all 2^20 pages, and
        the root's quota is the number of free user pages. */
    method PhysicalMemoryInit(smap: seq<Smap>) returns (biosPages: nat, kernPages: nat, userPages: nat)
      requires Valid() && smap != [] && Terminator(smap[|smap| - 1])
      requires forall i :: 0 <= i < MAX_PROCS ==> containers[i] == ZERO
      modifies pPageInfo, containers
      ensures forall page :: 0 <= page < NUM_PAGES ==> pPageInfo[page] == Classify(smap, page)
      ensures biosPages + kernPages + userPages == NUM_PAGES
      ensures biosPages == |PermPages(pPageInfo[..], NUM_PAGES, Bios)|
      ensures userPages == |UserPages(pPageInfo[..])| == |FreePages(pPageInfo[..])|
      ensures containers[..] == Init(userPages)
    {
      biosPages, kernPages, userPages := 0, 0, 0;
      var page := 0;
      while page < NUM_PAGES
        invariant page <= NUM_PAGES && biosPages + kernPages + userPages == page
        invariant forall q :: 0 <= q < page ==> pPageInfo[q] == Classify(smap, q)
        invariant biosPages == |PermPages(pPageInfo[..], page, Bios)|
        invariant userPages == |PermPages(pPageInfo[..], page, User)|
        invariant forall i :: 0 <= i < MAX_PROCS ==> containers[i] == ZERO
      {
        var pageReserved := PageReserved(smap, page);
        ghost var before := pPageInfo[..];
        if pageReserved {
          pPageInfo[page] := PageInfo(true, Bios);
          biosPages := biosPages + 1;
        } else if USERLO_PI <= page < USERHI_PI {
          pPageInfo[page] := PageInfo(false, User);
          userPages := userPages + 1;
        } else {
          pPageInfo[page] := PageInfo(false, Perm.Kernel);
          kernPages := kernPages + 1;
        }
        PermPagesStep(before, pPageInfo[..], page, Bios);
        PermPagesStep(before, pPageInfo[..], page, User);
        page := page + 1;
      }
      AllUserPages(pPageInfo[..], smap);
      ContainerInit(userPages);
    }

    /** VirtualMemoryInit's two table loops: the identity tables are in place, kernel slots and
        all of process 0 point at them, other processes' user slots are empty. */
    method VirtualMemoryInit()
      requires Valid()
      modifies pageDirEntries, memory
      ensures IdentityInv(Abs())
      ensures forall p, pde :: UserSlot(p, pde) ==> pageDirEntries[..][Slot(p, pde)] == 0
      ensures forall i :: 0 <= i < WORD && !(pageDirIdentity <= i < pageDirIdentity + NUM_TABLES * PAGESIZE) ==>
                memory[i] == old(memory[i])
    {
      FillIdentityTables();
      FillDirectories();
    }

    /** KernelMain's two memory calls: from the static globals to the invariant. */
    method MemoryInit(smap: seq<Smap>)
      requires Valid() && smap != [] && Terminator(smap[|smap| - 1])
      requires lastFreedPage == lastAllocPage == -1 && roles == map[]
      requires forall i :: 0 <= i < MAX_PROCS ==> containers[i] == ZERO
      modifies pPageInfo, containers, pageDirEntries, memory
      ensures Valid() && Booted(Abs(), smap) && Inv(Abs()) && Sound(Abs().frames, AsCoded)
    {
      hide Inv, TablesInv, PagesInv, IdentityInv, Word;
      var _, _, userPages := PhysicalMemoryInit(smap);
      VirtualMemoryInit();
      BootEstablishesInv(Abs(), smap);
    }

    method FillIdentityTables()
      requires Valid()
      modifies memory
      ensures forall page :: 0 <= page < NUM_PAGES ==>
                Word(memory[..], pageDirIdentity + page * 4) == page * PAGESIZE + IdentityPerm(page / NUM_TABLES)
      ensures forall i :: 0 <= i < WORD && !(pageDirIdentity <= i < pageDirIdentity + NUM_TABLES * PAGESIZE) ==>
                memory[i] == old(memory[i])
    {
      hide IdentityUpTo, SetWord, Word, IdentityPerm;
      ghost var m0 := memory[..];
      IdentityStart(m0, pageDirIdentity);
      var i := 0;
      while i < NUM_TABLES
        invariant i <= NUM_TABLES && IdentityUpTo(memory[..], old(memory[..]), pageDirIdentity, i * NUM_TABLES)
      {
        var perm := if i >= USERLO_PDIR && i < USERHI_PDIR then PTE_P + PTE_W else PTE_P + PTE_W + PTE_G;
        assert perm == IdentityPerm(i) by { IdentityPermIs(i); }
        var j := 0;
        while j < NUM_TABLES
          invariant j <= NUM_TABLES && IdentityUpTo(memory[..], old(memory[..]), pageDirIdentity, i * NUM_TABLES + j)
        {
          ghost var before := memory[..];
          StoreWord(pageDirIdentity + (i * NUM_TABLES + j) * 4, (i * NUM_TABLES + j) * PAGESIZE + perm);
          IdentityStep(before, memory[..], old(memory[..]), pageDirIdentity, i, j);
          j := j + 1;
        }
        i := i + 1;
      }
      IdentityDone(memory[..], m0, pageDirIdentity);
    }

    method FillDirectories()
      requires Valid()
      modifies pageDirEntries
      ensures forall p, pde :: 0 <= p < MAX_PROCS && 0 <= pde < NUM_TABLES ==>
                pageDirEntries[..][Slot(p, pde)]
                  == if UserSlot(p, pde) then 0 else pageDirIdentity + pde * PAGESIZE + PTE_PWU
    {
      var i := 0;
      while i < MAX_PROCS
        invariant i <= MAX_PROCS && DirectoriesUpTo(pageDirEntries[..], pageDirIdentity, i, 0)
      {
        var j := 0;
        while j < NUM_TABLES
          invariant j <= NUM_TABLES && DirectoriesUpTo(pageDirEntries[..], pageDirIdentity, i, j)
        {
          ghost var before := pageDirEntries[..];
          var entry: uint32 := if j >= USERLO_PDIR && j < USERHI_PDIR && i != 0 then 0
                               else pageDirIdentity + j * PAGESIZE + PTE_PWU;
          pageDirEntries[i * NUM_TABLES + j] := entry;
          assert pageDirEntries[..] == before[Slot(i, j) := entry];
          DirectoriesStep(before, pageDirEntries[..], pageDirIdentity, i, j);
          j := j + 1;
        }
        i := i + 1;
      }
    }
  }

  lemma EntryIndex(pdeIndex: nat, pteIndex: nat)
    requires pdeIndex < NUM_TABLES && pteIndex < NUM_TABLES
    ensures (pdeIndex * NUM_TABLES + pteIndex) / NUM_TABLES == pdeIndex
    ensures (pdeIndex * NUM_TABLES + pteIndex) % NUM_TABLES == pteIndex
  {}

  /** The index macros agree with splitting the page number. */
  lemma VaIndices(va: uint32)
    ensures va / (PAGESIZE * NUM_TABLES) == va / PAGESIZE / NUM_TABLES
    ensures va / (PAGESIZE * NUM_TABLES) * NUM_TABLES + va / PAGESIZE % NUM_TABLES == va / PAGESIZE
    ensures InTable(0, va / PAGESIZE)
  {}

  lemma FillFour(m: seq<byte>, a: nat, n: nat)
    requires a + n + 4 <= |m|
    ensures SetWord(Fill(m, a, n, 0), a + n, 0) == Fill(m, a, n + 4, 0)
  {
    var l, r := SetWord(Fill(m, a, n, 0), a + n, 0), Fill(m, a, n + 4, 0);
    assert WordBytes(0) == [0, 0, 0, 0];
    forall i | 0 <= i < |m| ensures l[i] == r[i] {}
  }

  lemma SegmentStart(h: ProgHdr, exe: nat)
    requires SegmentOk(h, exe)
    ensures RoundDown(h.va, PAGESIZE) == FirstPage(h) * PAGESIZE
    ensures RoundUp((h.va + h.memsz) % WORD, PAGESIZE) == LastPage(h) * PAGESIZE
    ensures exe + RoundDown(h.offset, PAGESIZE) == FileBase(h, exe)
    ensures USERLO_PI <= FirstPage(h) <= LastPage(h) <= USERHI_PI
    ensures SegSource(FileBase(h, exe), FirstPage(h), LastPage(h), h)
    ensures FileBase(h, exe) + (LastPage(h) - FirstPage(h)) * PAGESIZE <= WORD
  {
    hide SegSource, SegmentOk, RoundDown, RoundUp, ZeroFrom, FirstPage, LastPage;
    SegmentPages(h, exe);
    SegmentSource(h, exe);
    SegSourceBounds(FileBase(h, exe), FirstPage(h), LastPage(h), h);
  }

  lemma LoadPagesUnfold(s: State, pid: nat, fa: nat, x: nat, xe: nat, h: ProgHdr, v: Variant)
    requires Inv(s) && Shaped(s) && Sound(s.frames, v) && 1 <= pid < MAX_PROCS
    requires USERLO_PI <= x < xe <= USERHI_PI && SegSource(fa, x, xe, h) && fa + (xe - x) * PAGESIZE <= WORD
    ensures PageSource(fa, x * PAGESIZE, h) && SegSource(fa + PAGESIZE, x + 1, xe, h)
    ensures var (s1, ok) := LoadPage(s, pid, fa, x * PAGESIZE, h, v);
            && LoadPages(s, pid, fa, x, xe, h, v)
               == (if ok then LoadPages(s1, pid, fa + PAGESIZE, x + 1, xe, h, v) else (s1, false))
            && (ok ==> Inv(s1) && Sound(s1.frames, v))
  {
    hide Inv, LoadPage, SegSource, PageSource, PageLoaded, PageCost;
    SegSourceStep(fa, x, xe, h);
    SegSourceBounds(fa + PAGESIZE, x + 1, xe, h);
    LoadPageEffect(s, pid, fa, x, h, v);
    var (s1, ok) := LoadPage(s, pid, fa, x * PAGESIZE, h, v);
    if ok {
      PageLoadedParts(s, s1, pid, fa, x, h, v);
    }
  }

  lemma LoadPagesDone(s: State, pid: nat, fa: nat, x: nat, h: ProgHdr, v: Variant)
    requires Shaped(s) && pid < MAX_PROCS && x <= NUM_PAGES
    ensures LoadPages(s, pid, fa, x, x, h, v) == (s, true)
  {}

  lemma ZeroFromIs(h: ProgHdr)
    ensures ZeroFrom(h) == (h.va + h.filesz) % WORD
  {}

  lemma KernelKeptSelf(m: seq<byte>)
    requires |m| == WORD
    ensures KernelKept(m, m)
  {}

  lemma KernelKeptOn(m: seq<byte>, m1: seq<byte>, m2: seq<byte>)
    requires |m| == |m1| == |m2| == WORD && KernelKept(m, m1) && KernelKept(m1, m2)
    ensures KernelKept(m, m2)
  {}

  lemma SameHeader(m: seq<byte>, m1: seq<byte>, ph: nat)
    requires |m| == |m1| == WORD && KernelKept(m, m1) && PAGESIZE <= ph && ph + PROGHDR_SIZE <= USERLO
    ensures HdrAt(m1, ph) == HdrAt(m, ph)
  {}

  lemma TailOk(hs: seq<ProgHdr>, exe: nat)
    requires AllOk(hs, exe) && hs != []
    ensures AllOk(hs[1..], exe) && (hs[0].kind == ELF_PROG_LOAD ==> SegmentOk(hs[0], exe))
  {
    assert forall i :: 0 <= i < |hs[1..]| ==> hs[1..][i] == hs[i + 1];
  }

  // ----- the boot loops' invariants

  ghost function PermPages(info: seq<PageInfo>, n: int, perm: Perm): set<int>
    requires |info| == NUM_PAGES
  {
    set q | 0 <= q < n && q < NUM_PAGES && info[q].perm == perm
  }

  lemma PermPagesStep(before: seq<PageInfo>, after: seq<PageInfo>, page: nat, perm: Perm)
    requires |before| == |after| == NUM_PAGES && page < NUM_PAGES && after == before[page := after[page]]
    ensures |PermPages(after, page + 1, perm)|
            == |PermPages(before, page, perm)| + if after[page].perm == perm then 1 else 0
  {
    assert PermPages(after, page + 1, perm)
        == if after[page].perm == perm then PermPages(before, page, perm) + {page} else PermPages(before, page, perm);
  }

  lemma AllUserPages(info: seq<PageInfo>, smap: seq<Smap>)
    requires |info| == NUM_PAGES && forall page :: 0 <= page < NUM_PAGES ==> info[page] == Classify(smap, page)
    ensures PermPages(info, NUM_PAGES, User) == UserPages(info) == FreePages(info)
  {}

  /** The words of the first `n` pages are written; memory outside the tables is untouched. */
  ghost predicate IdentityUpTo(m: seq<byte>, m0: seq<byte>, identity: nat, n: nat)
    requires |m| == |m0| == WORD && identity + NUM_TABLES * PAGESIZE <= WORD && n <= NUM_PAGES
  {
    && (forall page :: 0 <= page < n ==>
       Word(m, identity + page * 4) == page * PAGESIZE + IdentityPerm(page / NUM_TABLES))
    && (forall i :: 0 <= i < WORD && !(identity <= i < identity + NUM_TABLES * PAGESIZE) ==> m[i] == m0[i])
  }

  lemma IdentityPermIs(i: nat)
    ensures IdentityPerm(i) == if i >= USERLO_PDIR && i < USERHI_PDIR then PTE_P + PTE_W else PTE_P + PTE_W + PTE_G
  {}

  lemma IdentityStart(m: seq<byte>, identity: nat)
    requires |m| == WORD && identity + NUM_TABLES * PAGESIZE <= WORD
    ensures IdentityUpTo(m, m, identity, 0)
  {}

  lemma IdentityDone(m: seq<byte>, m0: seq<byte>, identity: nat)
    requires |m| == |m0| == WORD && identity + NUM_TABLES * PAGESIZE <= WORD && IdentityUpTo(m, m0, identity, NUM_PAGES)
    ensures forall page :: 0 <= page < NUM_PAGES ==>
            Word(m, identity + page * 4) == page * PAGESIZE + IdentityPerm(page / NUM_TABLES)
    ensures forall i :: 0 <= i < WORD && !(identity <= i < identity + NUM_TABLES * PAGESIZE) ==> m[i] == m0[i]
  {}

  lemma IdentityStep(before: seq<byte>, after: seq<byte>, m0: seq<byte>, identity: nat, i: nat, j: nat)
    requires |before| == |after| == |m0| == WORD && identity + NUM_TABLES * PAGESIZE <= WORD && i < NUM_TABLES
             && j < NUM_TABLES
    requires IdentityUpTo(before, m0, identity, i * NUM_TABLES + j)
    requires after == SetWord(before, identity + (i * NUM_TABLES + j) * 4,
             (i * NUM_TABLES + j) * PAGESIZE + IdentityPerm(i))
    ensures IdentityUpTo(after, m0, identity, i * NUM_TABLES + j + 1)
  {
    var n := i * NUM_TABLES + j;
    assert n / NUM_TABLES == i;
    forall page | 0 <= page < n ensures Word(after, identity + page * 4) == Word(before, identity + page * 4) {}
  }

  /** The directory rows before `i`, and the slots before `j` of row `i`, are written. */
  ghost predicate DirectoriesUpTo(dirs: seq<uint32>, identity: int, i: int, j: int)
    requires |dirs| == MAX_PROCS * NUM_TABLES
  {
    forall p, pde :: 0 <= p < MAX_PROCS && 0 <= pde < NUM_TABLES && (p < i || (p == i && pde < j)) ==>
      dirs[Slot(p, pde)] == if UserSlot(p, pde) then 0 else identity + pde * PAGESIZE + PTE_PWU
  }

  lemma DirectoriesStep(before: seq<uint32>, after: seq<uint32>, identity: int, i: nat, j: nat)
    requires |before| == |after| == MAX_PROCS * NUM_TABLES && i < MAX_PROCS && j < NUM_TABLES
    requires DirectoriesUpTo(before, identity, i, j)
    requires after == before[Slot(i, j) := after[Slot(i, j)]]
    requires after[Slot(i, j)] == if UserSlot(i, j) then 0 else identity + j * PAGESIZE + PTE_PWU
    ensures DirectoriesUpTo(after, identity, i, j + 1)
  {
    forall p, pde | 0 <= p < MAX_PROCS && 0 <= pde < NUM_TABLES && (p < i || (p == i && pde < j + 1))
      ensures after[Slot(p, pde)] == if UserSlot(p, pde) then 0 else identity + pde * PAGESIZE + PTE_PWU
    {
      if !(p == i && pde == j) {
        SlotsDiffer(p, pde, i, j);
      }
    }
  }
}
