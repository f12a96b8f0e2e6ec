/** Writing a process's memory through its page tables, page by page and allocating on the
    way, as PTCopyOut and PTMemSet do: what arrives, what it costs, and what stays put. */
module UserMemory {
  import opened Words
  import opened Frames
  import opened Quota
  import opened Machine
  import opened Books
  import opened PageTables
  import opened Ownership

  // ----- one page

  /** The head of the copy loops: allocate the page unless its entry is present. */
  function EnsurePage(s: State, p: nat, vpn: nat, v: Variant): (r: State)
    requires Shaped(s) && InTable(p, vpn)
    ensures Shaped(r)
  {
    if Pte(s.dirs, s.mem, p, vpn) % 2 == 0 then AllocPage(s, p, vpn, PTE_PWU, v).0 else s
  }

  predicate Absent(s: State, p: int, vpn: int)
    requires Shaped(s) && InTable(p, vpn)
  {
    Pte(s.dirs, s.mem, p, vpn) % 2 == 0
  }

  /** Tables other than those of (`p`, `vpn`) are the same slots, and none disappears. */
  ghost predicate SlotsKept(dirs: seq<uint32>, dirs': seq<uint32>, p: nat, pde: nat)
    requires |dirs| == |dirs'| == MAX_PROCS * NUM_TABLES && p < MAX_PROCS && pde < NUM_TABLES
  {
    dirs' == dirs || OnlySlot(dirs, dirs', p, pde)
  }

  /** What EnsurePage promises: the page is there afterwards exactly when the quota covers it;
      only its entry and its slot may change, the entry to present, writable and user; and mapped
      bytes stay. */
  ghost predicate Ensured(s: State, s1: State, p: nat, vpn: nat, v: Variant)
    requires Shaped(s) && Shaped(s1) && UserPage(p, vpn)
  {
    && Inv(s1) && Sound(s1.frames, v)
    && OnlyEntryOf(s.dirs, s.mem, s1.dirs, s1.mem, p, vpn)
    && ContentsKept(s.mem, s1.mem, s.roles)
    && SlotsKept(s.dirs, s1.dirs, p, vpn / NUM_TABLES)
    && NewPage(s, s1, p, vpn)
  }

  ghost predicate NewPage(s: State, s1: State, p: nat, vpn: nat)
    requires Shaped(s) && Shaped(s1) && UserPage(p, vpn)
  {
    if !Absent(s, p, vpn) then s1 == s
    else if Room(s, p) >= PageCost(s.dirs, p, vpn) then
      && !Absent(s1, p, vpn)
      && Charged(s.cs, s1.cs, p, PageCost(s.dirs, p, vpn))
      && s1.dirs[Slot(p, vpn / NUM_TABLES)] != 0
      && Pte(s1.dirs, s1.mem, p, vpn) % 4096 == 7
    else
      && s1.dirs == s.dirs && s1.mem == s.mem && Charged(s.cs, s1.cs, p, Room(s, p))
  }

  /** The processor's walk: bits 22 to 31 of an address select the directory entry, bits 12 to 21
      the entry of the table it names, and the low 12 the byte of the page that one names. What a
      process sees at a user address is what this walk finds, if both entries are present; and
      every entry it finds in the directory is absent, or present, writable and user. */
  lemma MmuWalk(s: State, p: nat, va: nat)
    requires Shaped(s) && Inv(s) && 1 <= p < 64 && 0x4000_0000 <= va < 0xF000_0000
    ensures var pde := s.dirs[1024 * p + va / 0x40_0000];
            if pde == 0 then UserByte(s, p, va) == None
            else
              var a := pde / 4096 * 4096 + va / 4096 % 1024 * 4;
              && pde % 4096 == 7 && a + 4 <= |s.mem|
              && var pte := Word(s.mem, a);
                 if pte % 2 == 0 then UserByte(s, p, va) == None
                 else UserByte(s, p, va) == Some(s.mem[pte / 4096 * 4096 + va % 4096])
  {
    assert va / 4096 / 1024 == va / 0x40_0000;
    UserTable(s, p, va / 0x40_0000);
    hide Inv;
  }

  lemma UserTable(s: State, p: nat, pde: nat)
    requires Inv(s) && UserSlot(p, pde)
    ensures var entry := s.dirs[1024 * p + pde]; entry == 0 || entry % 4096 == 7
  {
    assert Slot(p, pde) == 1024 * p + pde;
  }

  lemma IdentityAfterSlot(s: State, s1: State, p: nat, vpn: nat)
    requires Shaped(s) && Shaped(s1) && UserPage(p, vpn) && IdentityInv(s) && s1.identity == s.identity
    requires ContentsKept(s.mem, s1.mem, s.roles) && SlotsKept(s.dirs, s1.dirs, p, vpn / NUM_TABLES)
    ensures IdentityInv(s1)
  {
    forall q, pde | 0 <= q < MAX_PROCS && 0 <= pde < NUM_TABLES && !UserSlot(q, pde)
      ensures s1.dirs[Slot(q, pde)] == s.dirs[Slot(q, pde)]
    {
      SlotsDiffer(q, pde, p, vpn / NUM_TABLES);
    }
    IdentityKept(s, s1);
  }

  lemma EnsurePageEffect(s: State, p: nat, vpn: nat, v: Variant)
    requires Inv(s) && UserPage(p, vpn) && Sound(s.frames, v)
    ensures Ensured(s, EnsurePage(s, p, vpn, v), p, vpn, v)
  {
    if Absent(s, p, vpn) {
      AllocPageEffect(s, p, vpn, PTE_PWU, v);
      AllocEnsures(s, p, vpn, v);
    }
  }

  lemma AllocEnsures(s: State, p: nat, vpn: nat, v: Variant)
    requires Inv(s) && UserPage(p, vpn) && Sound(s.frames, v) && Absent(s, p, vpn)
    requires AllocPageOutcome(s, p, vpn, PTE_PWU, v)
    ensures Ensured(s, EnsurePage(s, p, vpn, v), p, vpn, v)
  {
    var (s1, table, ok) := AllocPage(s, p, vpn, PTE_PWU, v);
    assert EnsurePage(s, p, vpn, v) == s1;
    assert IdentityInv(s);
    hide Inv, Core, AllocPage, IdentityInv, NoNewLeak, LeakedOne, EnsurePage, OnlyEntryOf, ContentsKept, OnlySlot,
         Charged, Pte;
    if ok {
      MappedPresent(s, s1, p, vpn, PTE_PWU);
      MappedPerm(s, s1, p, vpn, PTE_PWU);
      MappedParts(s, s1, p, vpn, PTE_PWU);
    } else {
      NothingMapped(s, s1, p, vpn);
    }
    IdentityAfterSlot(s, s1, p, vpn);
    InvParts(s1);
  }

  lemma InvParts(s: State)
    ensures Inv(s) <==> Core(s) && IdentityInv(s)
  {}

  lemma MappedParts(s: State, s1: State, p: nat, vpn: nat, perm: nat)
    requires Shaped(s) && Shaped(s1) && UserPage(p, vpn)
    requires Mapped(s, s1, p, vpn, FrameOf(Pte(s1.dirs, s1.mem, p, vpn)), perm)
    ensures OnlyEntryOf(s.dirs, s.mem, s1.dirs, s1.mem, p, vpn) && ContentsKept(s.mem, s1.mem, s.roles)
    ensures SlotsKept(s.dirs, s1.dirs, p, vpn / NUM_TABLES) && s1.dirs[Slot(p, vpn / NUM_TABLES)] != 0
  {}

  lemma NothingMapped(s: State, s1: State, p: nat, vpn: nat)
    requires Shaped(s) && Shaped(s1) && UserPage(p, vpn) && s1.dirs == s.dirs && s1.mem == s.mem
    ensures OnlyEntryOf(s.dirs, s.mem, s1.dirs, s1.mem, p, vpn) && ContentsKept(s.mem, s1.mem, s.roles)
    ensures SlotsKept(s.dirs, s1.dirs, p, vpn / NUM_TABLES)
  {}

  lemma MappedPerm(s: State, s1: State, p: nat, vpn: nat, perm: nat)
    requires Shaped(s) && Shaped(s1) && UserPage(p, vpn) && perm < PAGESIZE
    requires Mapped(s, s1, p, vpn, FrameOf(Pte(s1.dirs, s1.mem, p, vpn)), perm)
    ensures Pte(s1.dirs, s1.mem, p, vpn) % PAGESIZE == perm
  {}

  lemma MappedPresent(s: State, s1: State, p: nat, vpn: nat, perm: nat)
    requires Shaped(s) && Shaped(s1) && UserPage(p, vpn) && perm < PAGESIZE && perm % 2 == 1
    requires Mapped(s, s1, p, vpn, FrameOf(Pte(s1.dirs, s1.mem, p, vpn)), perm)
    ensures !Absent(s1, p, vpn)
  {}

  // ----- one chunk

  function WriteChunk(s: State, p: nat, va: nat, data: seq<byte>): (r: State)
    requires Shaped(s) && InTable(p, va / PAGESIZE) && va % PAGESIZE + |data| <= PAGESIZE
    ensures Shaped(r)
  {
    s.(mem := Blit(s.mem, PhysAddr(s.dirs, s.mem, p, va), data))
  }

  /** Every entry stays, and exactly the bytes of `p` at `[va, va + |data|)` that are mapped
      change: no other process's memory, no page table, and of kernel memory only page 0. */
  ghost predicate ChunkWritten(s: State, s': State, p: nat, va: nat, data: seq<byte>)
    requires Shaped(s) && Shaped(s')
  {
    && SameEntries(s.dirs, s.mem, s'.dirs, s'.mem)
    && s' == s.(mem := s'.mem)
    && (forall q, w :: UserPage(q, w / PAGESIZE) ==>
          UserByte(s', q, w) == if q == p && va <= w < va + |data| && UserByte(s, p, w).Some? then Some(data[w - va])
                                else UserByte(s, q, w))
    && (forall i :: PAGESIZE <= i < USERLO ==> s'.mem[i] == s.mem[i])
  }

  /** The physical frame a user page names: a data frame of its own, or page 0 if it has none. */
  lemma PageFrame(s: State, q: int, x: int)
    requires Inv(s) && UserPage(q, x)
    ensures var f := FrameOf(Pte(s.dirs, s.mem, q, x));
            if Pte(s.dirs, s.mem, q, x) == 0 then f == 0
            else f in s.roles && s.roles[f] == Data(q, x) && USERLO_PI <= f < USERHI_PI
  {
    RolesInUserRange(s);
  }

  /** Two pages never share a frame: the one that is mapped names a frame only it names. */
  lemma PagesApart(s: State, q: int, x: int, p: int, y: int)
    requires Inv(s) && UserPage(q, x) && UserPage(p, y) && !(q == p && x == y)
    requires Pte(s.dirs, s.mem, q, x) != 0
    ensures FrameOf(Pte(s.dirs, s.mem, q, x)) != FrameOf(Pte(s.dirs, s.mem, p, y))
  {
    PageFrame(s, q, x);
    PageFrame(s, p, y);
  }

  lemma ChunkSparesTables(s: State, p: nat, va: nat, data: seq<byte>)
    requires Inv(s) && UserPage(p, va / PAGESIZE) && va % PAGESIZE + |data| <= PAGESIZE
    ensures var mem' := WriteChunk(s, p, va, data).mem;
            && TablesKept(s.mem, mem', s.roles)
            && (forall i :: PAGESIZE <= i < USERLO ==> mem'[i] == s.mem[i])
  {
    PageFrame(s, p, va / PAGESIZE);
    RolesInUserRange(s);
    var pa := PhysAddr(s.dirs, s.mem, p, va);
    var f := FrameOf(Pte(s.dirs, s.mem, p, va / PAGESIZE));
    forall i | pa <= i < pa + |data| ensures i / PAGESIZE == f {}
  }

  lemma WriteChunkKeepsInv(s: State, p: nat, va: nat, data: seq<byte>)
    requires Inv(s) && UserPage(p, va / PAGESIZE) && va % PAGESIZE + |data| <= PAGESIZE
    ensures Inv(WriteChunk(s, p, va, data))
    ensures SameEntries(s.dirs, s.mem, s.dirs, WriteChunk(s, p, va, data).mem)
  {
    var s' := WriteChunk(s, p, va, data);
    ChunkSparesTables(s, p, va, data);
    EntriesUntouched(s.dirs, s.mem, s'.mem, s.roles);
    PagesSameEntries(s.dirs, s.mem, s'.dirs, s'.mem, s.roles);
    IdentityAbovePage0(s, s');
  }

  lemma PagesSameEntries(dirs: seq<uint32>, mem: seq<byte>, dirs': seq<uint32>, mem': seq<byte>, roles: map<int, Role>)
    requires |dirs| == |dirs'| == MAX_PROCS * NUM_TABLES && |mem| == |mem'| == WORD
    requires PagesInv(dirs, mem, roles) && SameEntries(dirs, mem, dirs', mem')
    ensures PagesInv(dirs', mem', roles)
  {}

  lemma IdentityAbovePage0(s: State, s': State)
    requires Shaped(s) && Shaped(s') && IdentityInv(s) && s'.identity == s.identity && s'.dirs == s.dirs
    requires forall i :: PAGESIZE <= i < USERLO ==> s'.mem[i] == s.mem[i]
    ensures IdentityInv(s')
  {
    forall page | 0 <= page < NUM_PAGES
      ensures Word(s'.mem, s.identity + page * 4) == page * PAGESIZE + IdentityPerm(page / NUM_TABLES)
    {
      assert Word(s'.mem, s.identity + page * 4) == Word(s.mem, s.identity + page * 4);
    }
  }

  lemma WriteChunkByte(s: State, p: nat, va: nat, data: seq<byte>, q: int, w: int)
    requires Inv(s) && UserPage(p, va / PAGESIZE) && va % PAGESIZE + |data| <= PAGESIZE
    requires UserPage(q, w / PAGESIZE)
    requires SameEntries(s.dirs, s.mem, s.dirs, WriteChunk(s, p, va, data).mem)
    ensures UserByte(WriteChunk(s, p, va, data), q, w)
            == if q == p && va <= w < va + |data| && UserByte(s, p, w).Some? then Some(data[w - va])
               else UserByte(s, q, w)
  {
    hide Inv, Pte, Blit, SameEntries;
    InvShaped(s);
    var s' := WriteChunk(s, p, va, data);
    SameEntryAt(s.dirs, s.mem, s'.dirs, s'.mem, q, w / PAGESIZE);
    if !Absent(s, q, w / PAGESIZE) {
      StoredByte(s, p, va, data, q, w);
      assert PhysAddr(s'.dirs, s'.mem, q, w) == PhysAddr(s.dirs, s.mem, q, w);
    }
  }

  lemma StoredByte(s: State, p: nat, va: nat, data: seq<byte>, q: int, w: int)
    requires Inv(s) && UserPage(p, va / PAGESIZE) && va % PAGESIZE + |data| <= PAGESIZE
    requires UserPage(q, w / PAGESIZE) && !Absent(s, q, w / PAGESIZE)
    ensures WriteChunk(s, p, va, data).mem[PhysAddr(s.dirs, s.mem, q, w)]
            == if q == p && va <= w < va + |data| then data[w - va] else s.mem[PhysAddr(s.dirs, s.mem, q, w)]
  {
    hide Inv, Pte, Blit, Absent;
    InvShaped(s);
    var f, g := FrameOf(Pte(s.dirs, s.mem, p, va / PAGESIZE)), FrameOf(Pte(s.dirs, s.mem, q, w / PAGESIZE));
    SameFrameIff(s, p, va / PAGESIZE, q, w / PAGESIZE);
    assert PhysAddr(s.dirs, s.mem, q, w) == g * PAGESIZE + w % PAGESIZE;
    BlitAt(s.mem, f, g, va, w, data);
  }

  lemma SameFrameIff(s: State, p: int, y: int, q: int, x: int)
    requires Inv(s) && UserPage(p, y) && UserPage(q, x) && !Absent(s, q, x)
    ensures FrameOf(Pte(s.dirs, s.mem, p, y)) == FrameOf(Pte(s.dirs, s.mem, q, x)) <==> q == p && x == y
  {
    if !(q == p && x == y) {
      PagesApart(s, q, x, p, y);
    }
  }

  lemma InvShaped(s: State)
    requires Inv(s)
    ensures Shaped(s)
  {}

  /** A store inside one page of frame `f`, read back inside a page of frame `g`. */
  lemma BlitAt(m: seq<byte>, f: nat, g: nat, va: nat, w: int, data: seq<byte>)
    requires |m| == WORD && f < NUM_PAGES && g < NUM_PAGES
    requires va % PAGESIZE + |data| <= PAGESIZE
    ensures Blit(m, f * PAGESIZE + va % PAGESIZE, data)[g * PAGESIZE + w % PAGESIZE]
            == if f == g && va % PAGESIZE <= w % PAGESIZE < va % PAGESIZE + |data|
               then data[w % PAGESIZE - va % PAGESIZE]
               else m[g * PAGESIZE + w % PAGESIZE]
    ensures va <= w < va + |data|
            <==> va / PAGESIZE == w / PAGESIZE && va % PAGESIZE <= w % PAGESIZE < va % PAGESIZE + |data|
    ensures va <= w < va + |data| ==> w - va == w % PAGESIZE - va % PAGESIZE
  {
    ChunkOffsets(f, g, va, w, |data|);
  }

  lemma SameEntryAt(dirs: seq<uint32>, mem: seq<byte>, dirs': seq<uint32>, mem': seq<byte>, q: int, x: int)
    requires |dirs| == |dirs'| == MAX_PROCS * NUM_TABLES && |mem| == |mem'| == WORD
    requires SameEntries(dirs, mem, dirs', mem') && UserPage(q, x)
    ensures Pte(dirs', mem', q, x) == Pte(dirs, mem, q, x)
  {}

  /** A chunk inside one page, compared with another address, virtually and physically. */
  lemma ChunkOffsets(f: nat, g: nat, va: nat, w: int, n: nat)
    requires va % PAGESIZE + n <= PAGESIZE
    ensures var pa, pw := f * PAGESIZE + va % PAGESIZE, g * PAGESIZE + w % PAGESIZE;
            && (pa <= pw < pa + n <==> f == g && va % PAGESIZE <= w % PAGESIZE < va % PAGESIZE + n)
            && (va <= w < va + n <==>
                  va / PAGESIZE == w / PAGESIZE && va % PAGESIZE <= w % PAGESIZE < va % PAGESIZE + n)
            && (f == g && va / PAGESIZE == w / PAGESIZE ==> pw - pa == w - va)
  {}

  /** Isolation, one chunk: whatever the state of the page written through. */
  lemma WriteChunkEffect(s: State, p: nat, va: nat, data: seq<byte>)
    requires Inv(s) && UserPage(p, va / PAGESIZE) && va % PAGESIZE + |data| <= PAGESIZE
    ensures Inv(WriteChunk(s, p, va, data))
    ensures ChunkWritten(s, WriteChunk(s, p, va, data), p, va, data)
  {
    WriteChunkKeepsInv(s, p, va, data);
    ChunkSparesTables(s, p, va, data);
    hide Inv;
    forall q, w | UserPage(q, w / PAGESIZE)
      ensures UserByte(WriteChunk(s, p, va, data), q, w)
              == if q == p && va <= w < va + |data| && UserByte(s, p, w).Some? then Some(data[w - va])
                 else UserByte(s, q, w)
    {
      WriteChunkByte(s, p, va, data, q, w);
    }
  }

  // ----- the whole range

  function ChunkSize(va: nat, len: nat): (n: nat)
    ensures len > 0 ==> 0 < n <= len && va % PAGESIZE + n <= PAGESIZE
  {
    if len < PAGESIZE - va % PAGESIZE then len else PAGESIZE - va % PAGESIZE
  }

  ghost predicate UserRange(p: int, va: int,
                            n: int) { 1 <= p < MAX_PROCS && USERLO <= va && 0 <= n && va + n <= USERHI }

  /** The copy loops' walk over `[va, va + |data|)`: ensure each page, write its chunk. */
  function WriteUser(s: State, p: nat, va: nat, data: seq<byte>, v: Variant): (r: State)
    requires Shaped(s) && p < MAX_PROCS && va + |data| <= WORD
    ensures Shaped(r)
    decreases |data|
  {
    if data == [] then s
    else
      var n := ChunkSize(va, |data|);
      var s1 := EnsurePage(s, p, va / PAGESIZE, v);
      WriteUser(WriteChunk(s1, p, va, data[..n]), p, va + n, data[n..], v)
  }

  /** Entries outside the pages `[lo, hi)` of `p` are untouched. */
  ghost predicate EntriesOutside(s: State, s': State, p: int, lo: int, hi: int)
    requires Shaped(s) && Shaped(s')
  {
    forall q, x :: UserPage(q, x) && !(q == p && lo <= x < hi) ==>
      Pte(s'.dirs, s'.mem, q, x) == Pte(s.dirs, s.mem, q, x)
  }

  /** Bytes that were mapped and are not in `[lo, hi)` of `p` are untouched. */
  ghost predicate BytesOutside(s: State, s': State, p: int, lo: int, hi: int)
    requires Shaped(s) && Shaped(s')
  {
    forall q, w :: UserPage(q, w / PAGESIZE) && UserByte(s, q, w).Some? && !(q == p && lo <= w < hi) ==>
      UserByte(s', q, w) == UserByte(s, q, w)
  }

  ghost predicate KernelKept(mem: seq<byte>, mem': seq<byte>)
    requires |mem| == |mem'| == WORD
  {
    forall i :: PAGESIZE <= i < USERLO ==> mem'[i] == mem[i]
  }

  /** One past the last page of a range. */
  function EndPage(va: nat, n: nat): nat { if n == 0 then va / PAGESIZE else (va + n - 1) / PAGESIZE + 1 }

  /** A present page keeps its byte when its entry stays and mapped contents are kept. */
  lemma ByteKept(s: State, s1: State, q: int, w: int)
    requires Inv(s) && Shaped(s1) && UserPage(q, w / PAGESIZE) && UserByte(s, q, w).Some?
    requires Pte(s1.dirs, s1.mem, q, w / PAGESIZE) == Pte(s.dirs, s.mem, q, w / PAGESIZE)
    requires ContentsKept(s.mem, s1.mem, s.roles)
    ensures UserByte(s1, q, w) == UserByte(s, q, w)
  {
    var pte := Pte(s.dirs, s.mem, q, w / PAGESIZE);
    var pw := FrameOf(pte) * PAGESIZE + w % PAGESIZE;
    assert UserByte(s, q, w) == if pte % 2 == 1 then Some(s.mem[pw]) else None;
    assert UserByte(s1, q, w) == if pte % 2 == 1 then Some(s1.mem[pw]) else None;
    PageFrame(s, q, w / PAGESIZE);
    hide Inv, Pte, UserByte;
    assert pw / PAGESIZE == FrameOf(pte);
  }

  lemma EnsuredBytes(s: State, s1: State, p: nat, vpn: nat, v: Variant)
    requires Inv(s) && Shaped(s1) && UserPage(p, vpn) && Ensured(s, s1, p, vpn, v)
    ensures BytesOutside(s, s1, p, 0, 0) && KernelKept(s.mem, s1.mem)
  {
    assert Shaped(s);
    hide Inv, Charged, SlotsKept, UserByte, PageCost, Room;
    forall q, w | UserPage(q, w / PAGESIZE) && UserByte(s, q, w).Some?
      ensures UserByte(s1, q, w) == UserByte(s, q, w)
    {
      if q == p && w / PAGESIZE == vpn {
        SomeIsPresent(s, q, w);
      } else {
        ByteKept(s, s1, q, w);
      }
    }
  }

  lemma SomeIsPresent(s: State, q: int, w: int)
    requires Shaped(s) && InTable(q, w / PAGESIZE)
    ensures UserByte(s, q, w).Some? <==> !Absent(s, q, w / PAGESIZE)
  {}
}
