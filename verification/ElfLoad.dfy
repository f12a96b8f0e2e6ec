/** ELF loading is correct: every page of every loadable segment ends up holding the file's
    bytes and then zeros, nobody else changes, and the load panics exactly when the quota
    does not cover its pages and missing tables. */
module ElfLoad {
  import opened Words
  import opened Frames
  import opened Quota
  import opened Machine
  import opened Books
  import opened PageTables
  import opened Ownership
  import opened UserMemory
  import opened UserWrite
  import opened Delivery
  import opened CopyLoops
  import opened ElfImage

  /** What loading pages `[x, xe)` of `pid` leaves alone. */
  ghost predicate LoadKeeps(s: State, s': State, pid: nat, x: int, xe: int, v: Variant)
    requires Shaped(s) && Shaped(s')
  {
    && Inv(s') && Sound(s'.frames, v) && s'.identity == s.identity
    && EntriesOutside(s, s', pid, x, xe)
    && BytesOutside(s, s', pid, x * PAGESIZE, xe * PAGESIZE)
    && KernelKept(s.mem, s'.mem)
  }

  // ----- one page

  lemma AllocForLoad(s: State, pid: nat, x: nat, perm: nat, v: Variant)
    requires Inv(s) && Sound(s.frames, v) && UserPage(pid, x) && perm < PAGESIZE && perm % 2 == 1
    ensures var (s1, _, ok) := AllocPage(s, pid, x, perm, v);
            && (ok <==> PageCost(s.dirs, pid, x) <= Room(s, pid))
            && (ok ==> LoadKeeps(s, s1, pid, x, x + 1, v) && !Absent(s1, pid, x)
                       && Pte(s1.dirs, s1.mem, pid, x) % PAGESIZE == perm
                       && Charged(s.cs, s1.cs, pid, PageCost(s.dirs, pid, x))
                       && OnlySlot(s.dirs, s1.dirs, pid, x / NUM_TABLES))
  {
    hide Inv, Core, AllocPage, IdentityInv, Mapped, Pte, Absent, Charged, NoNewLeak, LeakedOne;
    InvParts(s);
    InvShaped(s);
    AllocPageEffect(s, pid, x, perm, v);
    var (s1, _, ok) := AllocPage(s, pid, x, perm, v);
    if ok {
      MappedParts(s, s1, pid, x, perm);
      MappedPresent(s, s1, pid, x, perm);
      MappedSlot(s, s1, pid, x, perm);
      MappedPerm(s, s1, pid, x, perm);
      IdentityAfterSlot(s, s1, pid, x);
      InvParts(s1);
      AllocBytes(s, s1, pid, x);
    }
  }

  lemma MappedSlot(s: State, s1: State, p: nat, vpn: nat, perm: nat)
    requires Shaped(s) && Shaped(s1) && UserPage(p, vpn)
    requires Mapped(s, s1, p, vpn, FrameOf(Pte(s1.dirs, s1.mem, p, vpn)), perm)
    ensures OnlySlot(s.dirs, s1.dirs, p, vpn / NUM_TABLES)
  {}

  lemma AllocBytes(s: State, s1: State, pid: nat, x: nat)
    requires Inv(s) && Shaped(s1) && UserPage(pid, x)
    requires OnlyEntryOf(s.dirs, s.mem, s1.dirs, s1.mem, pid, x) && ContentsKept(s.mem, s1.mem, s.roles)
    ensures Shaped(s) && EntriesOutside(s, s1, pid, x, x + 1)
    ensures BytesOutside(s, s1, pid, x * PAGESIZE, (x + 1) * PAGESIZE) && KernelKept(s.mem, s1.mem)
  {
    hide Inv, Pte, UserByte;
    InvShaped(s);
    forall q, w | UserPage(q, w / PAGESIZE) && UserByte(s, q, w).Some?
      && !(q == pid && x * PAGESIZE <= w < (x + 1) * PAGESIZE)
      ensures UserByte(s1, q, w) == UserByte(s, q, w)
    {
      assert !(q == pid && w / PAGESIZE == x);
      ByteKept(s, s1, q, w);
    }
  }

  /** Writing within one present page allocates nothing. */
  lemma WriteInPage(s: State, p: nat, va: nat, data: seq<byte>, v: Variant)
    requires Inv(s) && Sound(s.frames, v) && UserPage(p, va / PAGESIZE) && !Absent(s, p, va / PAGESIZE)
    requires va % PAGESIZE == 0 && |data| <= PAGESIZE
    ensures var s' := WriteUser(s, p, va, data, v);
            && s' == s.(mem := s'.mem) && Inv(s') && SameEntries(s.dirs, s.mem, s'.dirs, s'.mem)
            && Holds(s', p, va, data) && KernelKept(s.mem, s'.mem)
            && BytesOutside(s, s', p, va, va + |data|)
  {
    hide Inv, Pte, UserByte, EnsurePage;
    InvShaped(s);
    WriteChunkEffect(s, p, va, data);
    OnePageWalk(s, p, va, data, v);
    if data != [] {
      ChunkHolds(s, WriteChunk(s, p, va, data), p, va, data);
    }
  }

  lemma OnePageWalk(s: State, p: nat, va: nat, data: seq<byte>, v: Variant)
    requires Shaped(s) && UserPage(p, va / PAGESIZE) && !Absent(s, p, va / PAGESIZE)
    requires va % PAGESIZE == 0 && |data| <= PAGESIZE
    ensures WriteUser(s, p, va, data, v) == if data == [] then s else WriteChunk(s, p, va, data)
  {
    if data != [] {
      assert EnsurePage(s, p, va / PAGESIZE, v) == s;
      assert ChunkSize(va, |data|) == |data|;
      assert data[..|data|] == data && data[|data|..] == [];
    }
  }

  /** The 4096 bytes a page of the segment should hold, from `fa` in the image. */
  ghost function PageData(m: seq<byte>, fa: nat, va: nat, h: ProgHdr): (d: seq<byte>)
    requires |m| == WORD && fa + PAGESIZE <= WORD
    ensures |d| == PAGESIZE
  {
    SegData(m, fa, va, PAGESIZE, h)
  }

  ghost function SegData(m: seq<byte>, fa: nat, va: nat, n: nat, h: ProgHdr): (d: seq<byte>)
    requires |m| == WORD && fa + n <= WORD
    ensures |d| == n
    ensures forall i :: 0 <= i < n ==> d[i] == if h.filesz != 0 && va + i < ZeroFrom(h) then m[fa + i] else 0
  {
    seq(n, i requires 0 <= i < n => if h.filesz != 0 && va + i < ZeroFrom(h) then m[fa + i] else 0)
  }

  /** Where the page's file part ends; the loop body's three cases by it. */
  function FilePart(va: nat, h: ProgHdr): (n: nat)
    ensures n <= PAGESIZE
  {
    if va < RoundDown(ZeroFrom(h), PAGESIZE) then PAGESIZE
    else if va < ZeroFrom(h) && h.filesz != 0 && ZeroFrom(h) - va <= PAGESIZE then ZeroFrom(h) - va
    else 0
  }

  lemma FilePartIs(x: nat, h: ProgHdr, i: nat)
    requires h.filesz == 0 ==> x * PAGESIZE + PAGESIZE > ZeroFrom(h)
    requires i < PAGESIZE
    ensures i < FilePart(x * PAGESIZE, h) <==> h.filesz != 0 && x * PAGESIZE + i < ZeroFrom(h)
  {
    hide ZeroFrom, RoundDown;
    PageAgainst(x, ZeroFrom(h));
  }

  lemma PageAgainst(x: nat, z: uint32)
    ensures if x * PAGESIZE < RoundDown(z, PAGESIZE) then x * PAGESIZE + PAGESIZE <= z else z < x * PAGESIZE + PAGESIZE
  {
    PageRounding(z);
    hide RoundDown;
    assert x * PAGESIZE < z / PAGESIZE * PAGESIZE <==> x < z / PAGESIZE;
  }

  /** Zeros over the whole page, then the file part. */
  lemma ZeroThenFile(s1: State, pid: nat, va: nat, data: seq<byte>, v: Variant)
    requires Inv(s1) && Sound(s1.frames, v) && UserPage(pid, va / PAGESIZE) && !Absent(s1, pid, va / PAGESIZE)
    requires va % PAGESIZE == 0 && |data| <= PAGESIZE
    ensures var z := WriteUser(s1, pid, va, Repeat(0, PAGESIZE), v); var s2 := WriteUser(z, pid, va, data, v);
            && s2 == s1.(mem := s2.mem) && Inv(s2) && SameEntries(s1.dirs, s1.mem, s2.dirs, s2.mem)
            && Holds(s2, pid, va, data + Repeat(0, PAGESIZE - |data|)) && KernelKept(s1.mem, s2.mem)
            && BytesOutside(s1, s2, pid, va, va + PAGESIZE)
  {
    hide Inv, Pte, UserByte, WriteUser, Absent;
    InvShaped(s1);
    WriteInPage(s1, pid, va, Repeat(0, PAGESIZE), v);
    var z := WriteUser(s1, pid, va, Repeat(0, PAGESIZE), v);
    StillPresent(s1, z, pid, va / PAGESIZE);
    WriteInPage(z, pid, va, data, v);
    OverZeros(z, WriteUser(z, pid, va, data, v), pid, va, data);
  }

  lemma StillPresent(s: State, s': State, p: nat, x: nat)
    requires Shaped(s) && Shaped(s') && UserPage(p, x) && SameEntries(s.dirs, s.mem, s'.dirs, s'.mem)
    ensures Absent(s', p, x) <==> Absent(s, p, x)
  {}

  lemma OverZeros(z: State, s2: State, p: nat, va: nat, data: seq<byte>)
    requires Shaped(z) && Shaped(s2) && |data| <= PAGESIZE
    requires Holds(z, p, va, Repeat(0, PAGESIZE)) && Holds(s2, p, va, data) && BytesOutside(z, s2, p, va, va + |data|)
    ensures Holds(s2, p, va, data + Repeat(0, PAGESIZE - |data|))
  {
    hide UserByte;
  }

  /** The image bytes a page is filled from are kernel memory. */
  ghost predicate PageSource(fa: nat, va: nat, h: ProgHdr) {
    PAGESIZE <= fa && fa + PAGESIZE <= WORD && (FilePart(va, h) > 0 ==> fa + FilePart(va, h) <= USERLO)
  }

  /** The page after its allocation: the C calls fill it with exactly `PageData`. */
  lemma FillPage(s1: State, pid: nat, fa: nat, x: nat, h: ProgHdr, v: Variant)
    requires Inv(s1) && Sound(s1.frames, v) && UserPage(pid, x) && !Absent(s1, pid, x)
    requires PageSource(fa, x * PAGESIZE, h)
    requires h.filesz == 0 ==> x * PAGESIZE + PAGESIZE > ZeroFrom(h)
    ensures var va := x * PAGESIZE;
            var s2 := FillStep(s1, pid, fa, va, h, v);
            && s2 == s1.(mem := s2.mem) && Inv(s2) && SameEntries(s1.dirs, s1.mem, s2.dirs, s2.mem)
            && Holds(s2, pid, va, PageData(s1.mem, fa, va, h)) && KernelKept(s1.mem, s2.mem)
            && BytesOutside(s1, s2, pid, va, va + PAGESIZE)
  {
    hide Inv, Pte, UserByte, WriteUser, Absent, CopyOut, MemSetUser, Holds, SameEntries, BytesOutside, ZeroFrom,
         FilePart;
    InvShaped(s1);
    var va := x * PAGESIZE;
    var n := FilePart(va, h);
    var data := s1.mem[fa..fa + n];
    ZeroThenFile(s1, pid, va, data, v);
    WriteInPage(s1, pid, va, Repeat(0, PAGESIZE), v);
    WriteInPage(s1, pid, va, data, v);
    PageDataIs(s1.mem, fa, x, h);
    FillIsWrites(s1, pid, fa, x, h, v);
    assert n == PAGESIZE ==> data + Repeat(0, PAGESIZE - n) == data;
    assert n == 0 ==> data + Repeat(0, PAGESIZE - n) == Repeat(0, PAGESIZE);
  }

  lemma PageDataIs(m: seq<byte>, fa: nat, x: nat, h: ProgHdr)
    requires |m| == WORD && fa + PAGESIZE <= WORD
    requires h.filesz == 0 ==> x * PAGESIZE + PAGESIZE > ZeroFrom(h)
    ensures var n := FilePart(x * PAGESIZE, h);
            PageData(m, fa, x * PAGESIZE, h) == m[fa..fa + n] + Repeat(0, PAGESIZE - n)
  {
    hide FilePart, ZeroFrom;
    var n := FilePart(x * PAGESIZE, h);
    forall i | 0 <= i < PAGESIZE
      ensures PageData(m, fa, x * PAGESIZE, h)[i] == (m[fa..fa + n] + Repeat(0, PAGESIZE - n))[i]
    {
      FilePartIs(x, h, i);
    }
  }

  /** Each branch is the corresponding writes, kernel source bytes unchanged in between. */
  lemma FillIsWrites(s1: State, pid: nat, fa: nat, x: nat, h: ProgHdr, v: Variant)
    requires Inv(s1) && Sound(s1.frames, v) && UserPage(pid, x) && Shaped(s1) && !Absent(s1, pid, x)
    requires PageSource(fa, x * PAGESIZE, h)
    ensures var va := x * PAGESIZE; var n := FilePart(va, h);
            var data := s1.mem[fa..fa + n];
            FillStep(s1, pid, fa, va, h, v)
            == if n == PAGESIZE && va < RoundDown(ZeroFrom(h), PAGESIZE) then WriteUser(s1, pid, va, data, v)
               else if n == 0 then WriteUser(s1, pid, va, Repeat(0, PAGESIZE), v)
               else WriteUser(WriteUser(s1, pid, va, Repeat(0, PAGESIZE), v), pid, va, data, v)
  {
    hide Inv, Pte, UserByte, WriteUser, Absent, CopyOut, MemSetUser, Holds, SameEntries, BytesOutside, ZeroFrom,
         RoundDown;
    var va := x * PAGESIZE;
    var n := FilePart(va, h);
    var z := WriteUser(s1, pid, va, Repeat(0, PAGESIZE), v);
    MemSetWrites(s1, pid, va, 0, PAGESIZE, v);
    if va < RoundDown(ZeroFrom(h), PAGESIZE) {
      CopyOutWrites(s1, fa, pid, va, PAGESIZE, v);
    } else {
      WriteInPage(s1, pid, va, Repeat(0, PAGESIZE), v);
      if n > 0 {
        CopyOutWrites(z, fa, pid, va, n, v);
      }
      assert z.mem[fa..fa + n] == s1.mem[fa..fa + n];
    }
  }

  /** One page loaded: filled as the image says, one page and at most one table charged. */
  ghost predicate PageLoaded(s: State, s': State, pid: nat, fa: nat, x: nat, h: ProgHdr, v: Variant)
    requires Shaped(s) && Shaped(s') && UserPage(pid, x) && fa + PAGESIZE <= WORD
  {
    && LoadKeeps(s, s', pid, x, x + 1, v)
    && Holds(s', pid, x * PAGESIZE, PageData(s.mem, fa, x * PAGESIZE, h))
    && Charged(s.cs, s'.cs, pid, PageCost(s.dirs, pid, x))
    && OnlySlot(s.dirs, s'.dirs, pid, x / NUM_TABLES)
    && HasPerm(s', pid, x, h)
  }

  /** The page's entry says present, user, and writable if the segment is: bits 0, 2 and 1 of the
      entry, bit 1 of the segment's flags. No other of the low twelve bits is set. */
  ghost predicate HasPerm(s: State, pid: nat, x: int, h: ProgHdr)
    requires Shaped(s)
  {
    UserPage(pid, x) ==> Pte(s.dirs, s.mem, pid, x) % 4096 == 5 + 2 * (h.flags / 2 % 2)
  }

  lemma PermOfIs(h: ProgHdr)
    ensures PermOf(h) == 5 + 2 * (h.flags / 2 % 2)
  {}

  lemma LoadPageEffect(s: State, pid: nat, fa: nat, x: nat, h: ProgHdr, v: Variant)
    requires Inv(s) && Sound(s.frames, v) && UserPage(pid, x) && Shaped(s)
    requires PageSource(fa, x * PAGESIZE, h)
    requires h.filesz == 0 ==> x * PAGESIZE + PAGESIZE > ZeroFrom(h)
    ensures var (s', ok) := LoadPage(s, pid, fa, x * PAGESIZE, h, v);
            && (ok <==> PageCost(s.dirs, pid, x) <= Room(s, pid))
            && (ok ==> PageLoaded(s, s', pid, fa, x, h, v))
  {
    hide Inv, AllocPage, LoadKeeps, FillStep, Holds, Charged, OnlySlot, PageData, Absent, ZeroFrom, RoundDown;
    var (s1, _, ok) := AllocPage(s, pid, x, PermOf(h), v);
    AllocForLoad(s, pid, x, PermOf(h), v);
    LoadPageIs(s, pid, fa, x, h, v);
    if ok {
      KeepsInv(s, s1, pid, x, x + 1, v);
      assert Shaped(s1);
      FillPage(s1, pid, fa, x, h, v);
      KernelSource(s, s1, pid, fa, x, h, v);
      var s2 := FillStep(s1, pid, fa, x * PAGESIZE, h, v);
      LoadThenFill(s, s1, s2, pid, x, v);
      PermOfIs(h);
      SameEntryAt(s1.dirs, s1.mem, s2.dirs, s2.mem, pid, x);
    }
  }

  lemma LoadPageIs(s: State, pid: nat, fa: nat, x: nat, h: ProgHdr, v: Variant)
    requires Shaped(s) && UserPage(pid, x) && fa + PAGESIZE <= WORD
    ensures var (s1, _, ok) := AllocPage(s, pid, x, PermOf(h), v);
            LoadPage(s, pid, fa, x * PAGESIZE, h, v)
              == if ok then (FillStep(s1, pid, fa, x * PAGESIZE, h, v), true) else (s1, false)
  {
    hide AllocPage, CopyOut, MemSetUser, ZeroFrom, RoundDown;
    assert x * PAGESIZE / PAGESIZE == x;
  }

  lemma KeepsInv(s: State, s1: State, pid: nat, x: int, xe: int, v: Variant)
    requires Shaped(s) && Shaped(s1) && LoadKeeps(s, s1, pid, x, xe, v)
    ensures Inv(s1) && Sound(s1.frames, v) && KernelKept(s.mem, s1.mem)
    ensures EntriesOutside(s, s1, pid, x, xe) && BytesOutside(s, s1, pid, x * PAGESIZE, xe * PAGESIZE)
  {}

  lemma KernelSource(s: State, s1: State, pid: nat, fa: nat, x: nat, h: ProgHdr, v: Variant)
    requires Shaped(s) && Shaped(s1) && KernelKept(s.mem, s1.mem) && PageSource(fa, x * PAGESIZE, h)
    requires h.filesz == 0 ==> x * PAGESIZE + PAGESIZE > ZeroFrom(h)
    ensures PageData(s1.mem, fa, x * PAGESIZE, h) == PageData(s.mem, fa, x * PAGESIZE, h)
  {
    PageDataIs(s.mem, fa, x, h);
    PageDataIs(s1.mem, fa, x, h);
    hide FilePart, ZeroFrom;
    var n := FilePart(x * PAGESIZE, h);
    assert s1.mem[fa..fa + n] == s.mem[fa..fa + n];
  }

  lemma LoadThenFill(s: State, s1: State, s2: State, pid: nat, x: nat, v: Variant)
    requires Shaped(s) && Shaped(s1) && Shaped(s2) && UserPage(pid, x) && LoadKeeps(s, s1, pid, x, x + 1, v)
    requires s2 == s1.(mem := s2.mem) && Inv(s2) && SameEntries(s1.dirs, s1.mem, s2.dirs, s2.mem)
    requires KernelKept(s1.mem, s2.mem) && BytesOutside(s1, s2, pid, x * PAGESIZE, x * PAGESIZE + PAGESIZE)
    ensures LoadKeeps(s, s2, pid, x, x + 1, v)
  {
    hide Inv, Pte, UserByte;
  }

  // ----- the pages of a segment

  /** What loading pages `[x, xe)` charges: every page, and the tables missing for them. */
  ghost function LoadCost(s: State, pid: int, x: int, xe: int): int
    requires Shaped(s)
  {
    xe - x + |AbsentTables(s, pid, x, xe)|
  }

  /** Directory slots of `pid` afterwards: those of `[x, xe)` filled, the others unchanged. */
  ghost predicate SlotsFilled(dirs: seq<uint32>, dirs': seq<uint32>, pid: int, x: int, xe: int)
    requires |dirs| == |dirs'| == MAX_PROCS * NUM_TABLES
  {
    forall t :: UserSlot(pid, t) ==>
      if x < xe && x / NUM_TABLES <= t <= (xe - 1) / NUM_TABLES then dirs'[Slot(pid, t)] != 0
      else dirs'[Slot(pid, t)] == dirs[Slot(pid, t)]
  }

  ghost predicate PagesLoaded(s: State, s': State, pid: nat, fa: nat, x: nat, xe: nat, h: ProgHdr, v: Variant)
    requires Shaped(s) && Shaped(s') && pid < MAX_PROCS && x <= xe && fa + (xe - x) * PAGESIZE <= WORD
  {
    && LoadKeeps(s, s', pid, x, xe, v)
    && Holds(s', pid, x * PAGESIZE, SegData(s.mem, fa, x * PAGESIZE, (xe - x) * PAGESIZE, h))
    && Charged(s.cs, s'.cs, pid, LoadCost(s, pid, x, xe))
    && SlotsFilled(s.dirs, s'.dirs, pid, x, xe)
    && HavePerms(s', pid, x, xe, h)
  }

  ghost predicate HavePerms(s: State, pid: nat, x: int, xe: int, h: ProgHdr)
    requires Shaped(s)
  {
    forall y :: x <= y < xe ==> HasPerm(s, pid, y, h)
  }

  /** The file part of the rest of the segment lies in kernel memory. */
  ghost predicate SegSource(fa: nat, x: nat, xe: nat, h: ProgHdr) {
    && PAGESIZE <= fa && x <= xe && fa + (xe - x) * PAGESIZE <= WORD
    && (if h.filesz == 0 then x * PAGESIZE + PAGESIZE > ZeroFrom(h) else fa + ZeroFrom(h) <= USERLO + x * PAGESIZE)
  }

  lemma SegSourceStep(fa: nat, x: nat, xe: nat, h: ProgHdr)
    requires SegSource(fa, x, xe, h) && x < xe
    ensures PageSource(fa, x * PAGESIZE, h) && SegSource(fa + PAGESIZE, x + 1, xe, h)
    ensures h.filesz == 0 ==> x * PAGESIZE + PAGESIZE > ZeroFrom(h)
  {
    hide ZeroFrom, RoundDown;
    PageAgainst(x, ZeroFrom(h));
  }

  lemma LoadCostStep(s: State, s2: State, pid: nat, x: nat, xe: nat)
    requires Shaped(s) && Shaped(s2) && UserPage(pid, x) && x < xe <= USERHI_PI
    requires OnlySlot(s.dirs, s2.dirs, pid, x / NUM_TABLES)
    ensures LoadCost(s, pid, x, xe) == PageCost(s.dirs, pid, x) + LoadCost(s2, pid, x + 1, xe)
  {
    AbsentTablesStep(s, s2, pid, x, xe);
  }

  lemma SlotsFilledStep(dirs: seq<uint32>, dirs1: seq<uint32>, dirs': seq<uint32>, pid: nat, x: nat, xe: nat)
    requires |dirs| == |dirs1| == |dirs'| == MAX_PROCS * NUM_TABLES && UserPage(pid, x) && x < xe
    requires OnlySlot(dirs, dirs1, pid, x / NUM_TABLES) && SlotsFilled(dirs1, dirs', pid, x + 1, xe)
    ensures SlotsFilled(dirs, dirs', pid, x, xe)
  {
    forall t | UserSlot(pid, t)
      ensures if x / NUM_TABLES <= t <= (xe - 1) / NUM_TABLES then dirs'[Slot(pid, t)] != 0
              else dirs'[Slot(pid, t)] == dirs[Slot(pid, t)]
    {
      if t != x / NUM_TABLES {
        SlotsDiffer(pid, t, pid, x / NUM_TABLES);
      }
    }
  }

  lemma KeepsStep(s: State, s1: State, s': State, pid: nat, x: nat, xe: nat, v: Variant)
    requires Shaped(s) && Shaped(s1) && Shaped(s') && x < xe
    requires LoadKeeps(s, s1, pid, x, x + 1, v) && LoadKeeps(s1, s', pid, x + 1, xe, v)
    ensures LoadKeeps(s, s', pid, x, xe, v)
  {
    hide Inv, Pte, UserByte;
  }

  lemma SegDataSplit(m: seq<byte>, m1: seq<byte>, fa: nat, x: nat, xe: nat, h: ProgHdr)
    requires |m| == |m1| == WORD && SegSource(fa, x, xe, h) && x < xe && KernelKept(m, m1)
    ensures SegData(m, fa, x * PAGESIZE, (xe - x) * PAGESIZE, h)
            == PageData(m, fa, x * PAGESIZE, h)
               + SegData(m1, fa + PAGESIZE, (x + 1) * PAGESIZE, (xe - x - 1) * PAGESIZE, h)
  {
    hide ZeroFrom;
    var d := SegData(m, fa, x * PAGESIZE, (xe - x) * PAGESIZE, h);
    var e := SegData(m1, fa + PAGESIZE, (x + 1) * PAGESIZE, (xe - x - 1) * PAGESIZE, h);
    forall i | PAGESIZE <= i < (xe - x) * PAGESIZE ensures d[i] == e[i - PAGESIZE] {
      assert x * PAGESIZE + i == (x + 1) * PAGESIZE + (i - PAGESIZE);
      assert fa + i == fa + PAGESIZE + (i - PAGESIZE);
    }
  }

  lemma PagesLoadedStep(s: State, s1: State, s': State, pid: nat, fa: nat, x: nat, xe: nat, h: ProgHdr, v: Variant)
    requires Shaped(s) && Shaped(s1) && Shaped(s') && UserPage(pid, x) && x < xe <= USERHI_PI && SegSource(fa, x, xe, h)
    requires PageLoaded(s, s1, pid, fa, x, h, v) && PagesLoaded(s1, s', pid, fa + PAGESIZE, x + 1, xe, h, v)
    ensures PagesLoaded(s, s', pid, fa, x, xe, h, v)
  {
    hide Inv, LoadKeeps, Holds, Charged, SlotsFilled, OnlySlot, SegSource, SegData, BytesOutside, EntriesOutside,
         KernelKept, LoadCost, PageCost, PageData, HasPerm, HavePerms;
    SegSourceBounds(fa, x, xe, h);
    KeepsInv(s, s1, pid, x, x + 1, v);
    KeepsInv(s1, s', pid, x + 1, xe, v);
    KeepsStep(s, s1, s', pid, x, xe, v);
    SlotsFilledStep(s.dirs, s1.dirs, s'.dirs, pid, x, xe);
    LoadCostStep(s, s1, pid, x, xe);
    ChargedSteps(s.cs, s1.cs, s'.cs, pid, PageCost(s.dirs, pid, x), LoadCost(s1, pid, x + 1, xe));
    SegDataSplit(s.mem, s1.mem, fa, x, xe, h);
    var first := PageData(s.mem, fa, x * PAGESIZE, h);
    var rest := SegData(s1.mem, fa + PAGESIZE, (x + 1) * PAGESIZE, (xe - x - 1) * PAGESIZE, h);
    HoldsBoth(s1, s', pid, x * PAGESIZE, first, rest);
    PermsStep(s1, s', pid, x, xe, h);
  }

  lemma PermsStep(s1: State, s': State, pid: nat, x: nat, xe: nat, h: ProgHdr)
    requires Shaped(s1) && Shaped(s') && EntriesOutside(s1, s', pid, x + 1, xe)
    requires HasPerm(s1, pid, x, h) && HavePerms(s', pid, x + 1, xe, h)
    ensures HavePerms(s', pid, x, xe, h)
  {
    hide Pte;
  }

  lemma HoldsBoth(s1: State, s': State, p: nat, va: nat, first: seq<byte>, rest: seq<byte>)
    requires Shaped(s1) && Shaped(s')
    requires Holds(s1, p, va, first) && BytesOutside(s1, s', p, va + |first|, va + |first| + |rest|)
    requires Holds(s', p, va + |first|, rest)
    ensures Holds(s', p, va, first + rest)
  {
    assert (first + rest)[..|first|] == first && (first + rest)[|first|..] == rest;
    HoldsOn(s1, s', p, va, |first|, |rest|, first + rest);
  }

  /** The page loop loads all its pages, or panics exactly when the quota falls short. */
  lemma {:induction false} LoadPagesEffect(s: State, pid: nat, fa: nat, x: nat, xe: nat, h: ProgHdr, v: Variant)
    requires Inv(s) && Sound(s.frames, v) && Shaped(s) && 1 <= pid < MAX_PROCS
    requires USERLO_PI <= x && xe <= USERHI_PI && SegSource(fa, x, xe, h)
    ensures var (s', ok) := LoadPages(s, pid, fa, x, xe, h, v);
            && (ok <==> LoadCost(s, pid, x, xe) <= Room(s, pid))
            && (ok ==> PagesLoaded(s, s', pid, fa, x, xe, h, v))
    decreases xe - x
  {
    hide Inv, LoadPage, LoadKeeps, Holds, Charged, SlotsFilled, OnlySlot, SegSource, PageSource, PageData, SegData,
         LoadCost, PagesLoaded, PageLoaded, PageCost, ZeroFrom;
    SegSourceBounds(fa, x, xe, h);
    InvRoom(s, pid);
    if x == xe {
      NoPages(s, pid, fa, x, h, v);
    } else {
      SegSourceStep(fa, x, xe, h);
      LoadPageEffect(s, pid, fa, x, h, v);
      LoadCostCovers(s, pid, x, xe);
      var (s1, ok) := LoadPage(s, pid, fa, x * PAGESIZE, h, v);
      if ok {
        PageLoadedParts(s, s1, pid, fa, x, h, v);
        LoadCostStep(s, s1, pid, x, xe);
        RoomAfter(s, s1, pid, PageCost(s.dirs, pid, x));
        LoadPagesEffect(s1, pid, fa + PAGESIZE, x + 1, xe, h, v);
        if LoadPages(s1, pid, fa + PAGESIZE, x + 1, xe, h, v).1 {
          PagesLoadedStep(s, s1, LoadPages(s1, pid, fa + PAGESIZE, x + 1, xe, h, v).0, pid, fa, x, xe, h, v);
        }
      }
    }
  }

  lemma SegSourceBounds(fa: nat, x: nat, xe: nat, h: ProgHdr)
    requires SegSource(fa, x, xe, h)
    ensures x <= xe && fa + (xe - x) * PAGESIZE <= WORD
  {}

  lemma NoPages(s: State, pid: nat, fa: nat, x: nat, h: ProgHdr, v: Variant)
    requires Inv(s) && Sound(s.frames, v) && Shaped(s) && pid < MAX_PROCS && fa <= WORD
    ensures PagesLoaded(s, s, pid, fa, x, x, h, v) && LoadCost(s, pid, x, x) == 0
  {
    assert AbsentTables(s, pid, x, x) == {};
    ChargedNone(s.cs, pid);
  }

  lemma LoadCostCovers(s: State, pid: nat, x: nat, xe: nat)
    requires Shaped(s) && UserPage(pid, x) && x < xe <= USERHI_PI
    ensures LoadCost(s, pid, x, xe) >= PageCost(s.dirs, pid, x)
  {
    if s.dirs[Slot(pid, x / NUM_TABLES)] == 0 {
      Inhabited(AbsentTables(s, pid, x, xe), x / NUM_TABLES);
    }
  }

  lemma PageLoadedParts(s: State, s1: State, pid: nat, fa: nat, x: nat, h: ProgHdr, v: Variant)
    requires Shaped(s) && Shaped(s1) && UserPage(pid, x) && fa + PAGESIZE <= WORD && PageLoaded(s, s1, pid, fa, x, h, v)
    ensures Inv(s1) && Sound(s1.frames, v) && OnlySlot(s.dirs, s1.dirs, pid, x / NUM_TABLES)
    ensures Charged(s.cs, s1.cs, pid, PageCost(s.dirs, pid, x))
  {}

  // ----- segments

  /** All the bytes of a segment's pages: the file part, then zeros. */
  ghost function Image(m: seq<byte>, exe: nat, h: ProgHdr): seq<byte>
    requires |m| == WORD && SegmentOk(h, exe)
  {
    SegmentPages(h, exe);
    SegData(m, FileBase(h, exe), Base(h), (LastPage(h) - FirstPage(h)) * PAGESIZE, h)
  }

  lemma SegmentSource(h: ProgHdr, exe: nat)
    requires SegmentOk(h, exe)
    ensures SegSource(FileBase(h, exe), FirstPage(h), LastPage(h), h)
  {
    SegmentPages(h, exe);
    hide ZeroFrom, Base, End, FileBase;
  }

  lemma LoadSegmentEffect(s: State, pid: nat, exe: nat, h: ProgHdr, v: Variant)
    requires Inv(s) && Sound(s.frames, v) && Shaped(s) && 1 <= pid < MAX_PROCS && SegmentOk(h, exe)
    ensures var (s', ok) := LoadSegment(s, pid, exe, h, v); var x, xe := FirstPage(h), LastPage(h);
            && (ok <==> LoadCost(s, pid, x, xe) <= Room(s, pid))
            && (ok ==> LoadKeeps(s, s', pid, x, xe, v) && Holds(s', pid, Base(h), Image(s.mem, exe, h))
                       && Charged(s.cs, s'.cs, pid, LoadCost(s, pid, x, xe))
                       && SlotsFilled(s.dirs, s'.dirs, pid, x, xe) && HavePerms(s', pid, x, xe, h))
  {
    hide Inv, LoadPages, LoadKeeps, Holds, Charged, SlotsFilled, SegSource, SegData, LoadCost, ZeroFrom, Base, End,
         FileBase, FirstPage, LastPage, SegmentOk;
    SegmentPages(h, exe);
    SegmentSource(h, exe);
    SegSourceBounds(FileBase(h, exe), FirstPage(h), LastPage(h), h);
    LoadPagesEffect(s, pid, FileBase(h, exe), FirstPage(h), LastPage(h), h, v);
  }

  predicate Covers(h: ProgHdr, x: int) { h.kind == ELF_PROG_LOAD && FirstPage(h) <= x < LastPage(h) }

  /** The pages of a segment are those its memory touches. */
  lemma CoversIff(h: ProgHdr, x: int)
    requires h.kind == 1 && h.memsz > 0
    ensures Covers(h, x) <==> h.va < x * 4096 + 4096 && x * 4096 < h.va + h.memsz
  {}

  /** The page `x` belongs to some loadable segment. */
  ghost predicate InSegments(hs: seq<ProgHdr>, x: int) { exists i :: 0 <= i < |hs| && Covers(hs[i], x) }

  ghost predicate PageDisjoint(hs: seq<ProgHdr>) {
    forall i, j :: 0 <= i < j < |hs| && hs[i].kind == ELF_PROG_LOAD && hs[j].kind == ELF_PROG_LOAD ==>
      LastPage(hs[i]) <= FirstPage(hs[j]) || LastPage(hs[j]) <= FirstPage(hs[i])
  }

  /** Tables that some segment's pages need and `pid` lacks. */
  ghost function NeededTables(s: State, pid: int, hs: seq<ProgHdr>): set<int>
    requires Shaped(s)
  {
    set t | UserSlot(pid, t) && USERLO_PDIR <= t < USERHI_PDIR && s.dirs[Slot(pid, t)] == 0 && NeedsTable(hs, t)
  }

  predicate Touches(h: ProgHdr, t: int) {
    && h.kind == ELF_PROG_LOAD && FirstPage(h) < LastPage(h)
    && FirstPage(h) / NUM_TABLES <= t <= (LastPage(h) - 1) / NUM_TABLES
  }

  ghost predicate NeedsTable(hs: seq<ProgHdr>, t: int) { exists i :: 0 <= i < |hs| && Touches(hs[i], t) }

  ghost function TotalPages(hs: seq<ProgHdr>): int {
    if hs == [] then 0
    else TotalPages(hs[1..]) + if hs[0].kind == ELF_PROG_LOAD then LastPage(hs[0]) - FirstPage(hs[0]) else 0
  }

  ghost function ImageCost(s: State, pid: int, hs: seq<ProgHdr>): int
    requires Shaped(s)
  {
    TotalPages(hs) + |NeededTables(s, pid, hs)|
  }

  lemma NeededSplit(s: State, s1: State, pid: nat, h: ProgHdr, rest: seq<ProgHdr>)
    requires Shaped(s) && Shaped(s1) && 1 <= pid < MAX_PROCS && h.kind == ELF_PROG_LOAD
    requires SlotsFilled(s.dirs, s1.dirs, pid, FirstPage(h), LastPage(h))
    ensures |NeededTables(s, pid, [h] + rest)|
            == |AbsentTables(s, pid, FirstPage(h), LastPage(h))| + |NeededTables(s1, pid, rest)|
  {
    hide FirstPage, LastPage;
    var all, now, later := NeededTables(s, pid, [h] + rest), AbsentTables(s, pid, FirstPage(h), LastPage(h)),
      NeededTables(s1, pid, rest);
    forall t ensures t in all <==> t in now || t in later {
      NeedsFirst(h, rest, t);
    }
    assert all == now + later && now !! later;
  }

  lemma NeedsFirst(h: ProgHdr, rest: seq<ProgHdr>, t: int)
    ensures NeedsTable([h] + rest, t) <==> Touches(h, t) || NeedsTable(rest, t)
  {
    var all := [h] + rest;
    assert all[0] == h;
    assert forall i :: 0 <= i < |rest| ==> rest[i] == all[i + 1];
  }

  lemma NeededSkip(s: State, pid: nat, h: ProgHdr, rest: seq<ProgHdr>)
    requires Shaped(s) && h.kind != ELF_PROG_LOAD
    ensures NeededTables(s, pid, [h] + rest) == NeededTables(s, pid, rest)
  {
    forall t ensures t in NeededTables(s, pid, [h] + rest) <==> t in NeededTables(s, pid, rest) {
      NeedsFirst(h, rest, t);
    }
  }

  /** What a whole load leaves alone. */
  ghost predicate ImageKeeps(s: State, s': State, pid: nat, hs: seq<ProgHdr>, v: Variant)
    requires Shaped(s) && Shaped(s')
  {
    && Inv(s') && Sound(s'.frames, v) && KernelKept(s.mem, s'.mem)
    && (forall q, x :: UserPage(q, x) && !(q == pid && InSegments(hs, x)) ==>
          Pte(s'.dirs, s'.mem, q, x) == Pte(s.dirs, s.mem, q, x))
    && (forall q, w ::
          UserPage(q, w / PAGESIZE) && UserByte(s, q, w).Some? && !(q == pid && InSegments(hs, w / PAGESIZE)) ==>
          UserByte(s', q, w) == UserByte(s, q, w))
  }

  /** Segment `i` is the last one loaded over page `x`. */
  ghost predicate LastOver(hs: seq<ProgHdr>, i: int, x: int) {
    0 <= i < |hs| && Covers(hs[i], x) && !InSegments(hs[i + 1..], x)
  }

  /** The byte the segment wants at `w`. */
  ghost function SegByte(m: seq<byte>, exe: nat, h: ProgHdr, w: int): byte
    requires |m| == WORD && SegmentOk(h, exe)
  {
    if Base(h) <= w < Base(h) + |Image(m, exe, h)| then Image(m, exe, h)[w - Base(h)] else 0
  }

  /** The gABI's promise for one segment, byte by byte. */
  lemma ImageBytes(m: seq<byte>, exe: nat, h: ProgHdr, w: int)
    requires |m| == WORD && SegmentOk(h, exe) && h.va <= w < h.va + h.memsz
    ensures h.kind == ELF_PROG_LOAD ==> Covers(h, w / PAGESIZE)
    ensures SegByte(m, exe, h, w) == if w < h.va + h.filesz then m[exe + h.offset + (w - h.va)] else 0
  {
    SegmentPages(h, exe);
    hide ZeroFrom, Base, End, FileBase;
  }

  /** Every byte of every segment's pages is as the last segment loaded over its page wants it. */
  ghost predicate ImageHeld(s: State, pid: nat, m: seq<byte>, exe: nat, hs: seq<ProgHdr>)
    requires Shaped(s) && |m| == WORD && AllOk(hs, exe)
  {
    forall i, w {:trigger UserByte(s, pid, w), hs[i]} ::
      0 <= i < |hs| && UserPage(pid, w / PAGESIZE) && LastOver(hs, i, w / PAGESIZE) ==>
      UserByte(s, pid, w) == Some(SegByte(m, exe, hs[i], w))
  }

  /** Every page of every segment has the permissions of the last segment loaded over it. */
  ghost predicate ImagePerms(s: State, pid: nat, hs: seq<ProgHdr>)
    requires Shaped(s)
  {
    forall i, x :: 0 <= i < |hs| && LastOver(hs, i, x) ==> HasPerm(s, pid, x, hs[i])
  }

  /** Segments that share no page are all in place. */
  lemma DisjointInPlace(s: State, pid: nat, m: seq<byte>, exe: nat, hs: seq<ProgHdr>, i: nat)
    requires Shaped(s) && |m| == WORD && 1 <= pid < MAX_PROCS && AllOk(hs, exe) && ImageHeld(s, pid, m, exe, hs)
    requires PageDisjoint(hs) && i < |hs| && hs[i].kind == ELF_PROG_LOAD
    ensures Holds(s, pid, Base(hs[i]), Image(m, exe, hs[i]))
  {
    hide UserByte, FirstPage, LastPage, Base, SegData;
    SegmentPages(hs[i], exe);
    forall w | Base(hs[i]) <= w < Base(hs[i]) + |Image(m, exe, hs[i])| && UserPage(pid, w / PAGESIZE)
      ensures UserByte(s, pid, w) == Some(Image(m, exe, hs[i])[w - Base(hs[i])])
    {
      assert FirstPage(hs[i]) <= w / PAGESIZE < LastPage(hs[i]);
      var later := hs[i + 1..];
      assert forall j :: 0 <= j < |later| ==> later[j] == hs[i + 1 + j];
      assert LastOver(hs, i, w / PAGESIZE);
    }
  }

  lemma InSegmentsFirst(h: ProgHdr, rest: seq<ProgHdr>, x: int)
    ensures InSegments([h] + rest, x) <==> Covers(h, x) || InSegments(rest, x)
  {
    var all := [h] + rest;
    assert all[0] == h;
    assert forall i :: 0 <= i < |rest| ==> rest[i] == all[i + 1];
  }

  lemma ImageKeepsSkip(s: State, s': State, pid: nat, h: ProgHdr, rest: seq<ProgHdr>, v: Variant)
    requires Shaped(s) && Shaped(s') && ImageKeeps(s, s', pid, rest, v) && h.kind != ELF_PROG_LOAD
    ensures ImageKeeps(s, s', pid, [h] + rest, v)
  {
    hide Inv, Pte, UserByte, InSegments;
    forall x ensures InSegments([h] + rest, x) <==> InSegments(rest, x) { InSegmentsFirst(h, rest, x); }
  }

  lemma ImageKeepsStep(s: State, s1: State, s': State, pid: nat, h: ProgHdr, rest: seq<ProgHdr>, v: Variant)
    requires Shaped(s) && Shaped(s1) && Shaped(s') && h.kind == ELF_PROG_LOAD
    requires LoadKeeps(s, s1, pid, FirstPage(h), LastPage(h), v) && ImageKeeps(s1, s', pid, rest, v)
    ensures ImageKeeps(s, s', pid, [h] + rest, v)
  {
    hide Inv, Pte, UserByte, InSegments, FirstPage, LastPage;
    forall x ensures InSegments([h] + rest, x) <==> Covers(h, x) || InSegments(rest, x) { InSegmentsFirst(h, rest, x); }
    forall w | w / PAGESIZE < FirstPage(h) || w / PAGESIZE >= LastPage(h)
      ensures !(FirstPage(h) * PAGESIZE <= w < LastPage(h) * PAGESIZE)
    {}
  }

  lemma SameImage(m: seq<byte>, m1: seq<byte>, exe: nat, h: ProgHdr)
    requires |m| == |m1| == WORD && KernelKept(m, m1) && SegmentOk(h, exe)
    ensures Image(m1, exe, h) == Image(m, exe, h)
  {
    SegmentPages(h, exe);
    var d, d1 := Image(m, exe, h), Image(m1, exe, h);
    forall i | 0 <= i < |d| ensures d1[i] == d[i] {
      if h.filesz != 0 && Base(h) + i < ZeroFrom(h) {
        SourceByte(m, m1, exe, h, i);
      }
    }
  }

  lemma SourceByte(m: seq<byte>, m1: seq<byte>, exe: nat, h: ProgHdr, i: nat)
    requires |m| == |m1| == WORD && KernelKept(m, m1) && SegmentOk(h, exe) && Base(h) + i < ZeroFrom(h)
    ensures FileBase(h, exe) + i < WORD && m1[FileBase(h, exe) + i] == m[FileBase(h, exe) + i]
  {
    SegmentPages(h, exe);
    hide ZeroFrom, Base, FileBase;
  }

  /** The whole-image theorem, for any list of headers. */
  ghost predicate ImageLoaded(s: State, s': State, pid: nat, exe: nat, hs: seq<ProgHdr>, v: Variant)
    requires Shaped(s) && Shaped(s') && pid < MAX_PROCS && AllOk(hs, exe)
  {
    ImageKeeps(s, s', pid, hs, v) && ImageHeld(s', pid, s.mem, exe, hs) && ImagePerms(s', pid, hs)
      && Charged(s.cs, s'.cs, pid, ImageCost(s, pid, hs))
  }

  lemma RestOk(h: ProgHdr, rest: seq<ProgHdr>, exe: nat)
    requires AllOk([h] + rest, exe)
    ensures AllOk(rest, exe) && (h.kind == ELF_PROG_LOAD ==> SegmentOk(h, exe))
  {
    var all := [h] + rest;
    assert all[0] == h;
    assert forall i :: 0 <= i < |rest| ==> rest[i] == all[i + 1];
  }

  lemma CostFirst(s: State, pid: nat, h: ProgHdr, rest: seq<ProgHdr>)
    requires Shaped(s) && 1 <= pid < MAX_PROCS && h.kind == ELF_PROG_LOAD
    ensures ImageCost(s, pid, [h] + rest) >= LoadCost(s, pid, FirstPage(h), LastPage(h)) + TotalPages(rest)
  {
    var all := [h] + rest;
    assert all[0] == h && all[1..] == rest;
    var now, needed := AbsentTables(s, pid, FirstPage(h), LastPage(h)), NeededTables(s, pid, all);
    forall t | t in now ensures t in needed { NeedsFirst(h, rest, t); }
    SubsetSize(now, needed);
  }

  lemma SubsetSize(a: set<int>, b: set<int>)
    requires a <= b
    ensures |a| <= |b|
  {
    assert b == a + (b - a);
  }

  lemma {:induction false} TotalPagesNonNegative(hs: seq<ProgHdr>, exe: nat)
    requires AllOk(hs, exe)
    ensures TotalPages(hs) >= 0
  {
    if hs != [] {
      var rest := hs[1..];
      assert forall i :: 0 <= i < |rest| ==> rest[i] == hs[i + 1];
      TotalPagesNonNegative(rest, exe);
      if hs[0].kind == ELF_PROG_LOAD {
        SegmentPages(hs[0], exe);
      }
    }
  }

  lemma CostThen(s: State, s1: State, pid: nat, h: ProgHdr, rest: seq<ProgHdr>)
    requires Shaped(s) && Shaped(s1) && 1 <= pid < MAX_PROCS && h.kind == ELF_PROG_LOAD
    requires SlotsFilled(s.dirs, s1.dirs, pid, FirstPage(h), LastPage(h))
    ensures ImageCost(s, pid, [h] + rest) == LoadCost(s, pid, FirstPage(h), LastPage(h)) + ImageCost(s1, pid, rest)
  {
    hide NeededTables, AbsentTables, FirstPage, LastPage;
    NeededSplit(s, s1, pid, h, rest);
    var all := [h] + rest;
    assert all[0] == h && all[1..] == rest;
  }

  lemma ImageLoadedStep(s: State, s1: State, s': State, pid: nat, exe: nat, h: ProgHdr, rest: seq<ProgHdr>, v: Variant)
    requires Shaped(s) && Shaped(s1) && Shaped(s') && 1 <= pid < MAX_PROCS
    requires AllOk([h] + rest, exe) && h.kind == ELF_PROG_LOAD && AllOk(rest, exe)
    requires SegmentOk(h, exe)
    requires LoadKeeps(s, s1, pid, FirstPage(h), LastPage(h), v) && Holds(s1, pid, Base(h), Image(s.mem, exe, h))
    requires Charged(s.cs, s1.cs, pid, LoadCost(s, pid, FirstPage(h), LastPage(h)))
    requires SlotsFilled(s.dirs, s1.dirs, pid, FirstPage(h), LastPage(h))
    requires HavePerms(s1, pid, FirstPage(h), LastPage(h), h)
    requires ImageLoaded(s1, s', pid, exe, rest, v)
    ensures ImageLoaded(s, s', pid, exe, [h] + rest, v)
  {
    hide Inv, LoadKeeps, Holds, Charged, SlotsFilled, ImageKeeps, ImageHeld, ImageCost, LoadCost, FirstPage,
         LastPage, Base, Image, KernelKept, EntriesOutside, BytesOutside, SegmentOk;
    RestOk(h, rest, exe);
    KeepsInv(s, s1, pid, FirstPage(h), LastPage(h), v);
    ImageKeepsStep(s, s1, s', pid, h, rest, v);
    HeldBoth(s, s1, s', pid, exe, h, rest, v);
    PermsBoth(s1, s', pid, h, rest, v);
    CostThen(s, s1, pid, h, rest);
    ChargedSteps(s.cs, s1.cs, s'.cs, pid, LoadCost(s, pid, FirstPage(h), LastPage(h)), ImageCost(s1, pid, rest));
  }

  lemma HeldBoth(s: State, s1: State, s': State, pid: nat, exe: nat, h: ProgHdr, rest: seq<ProgHdr>, v: Variant)
    requires Shaped(s) && Shaped(s1) && Shaped(s') && AllOk([h] + rest, exe) && AllOk(rest, exe)
             && KernelKept(s.mem, s1.mem)
    requires h.kind == ELF_PROG_LOAD && SegmentOk(h, exe) && Holds(s1, pid, Base(h), Image(s.mem, exe, h))
    requires ImageKeeps(s1, s', pid, rest, v) && ImageHeld(s', pid, s1.mem, exe, rest)
    ensures ImageHeld(s', pid, s.mem, exe, [h] + rest)
  {
    hide Holds, Base, Image, SegmentOk, KernelKept, ImageKeeps, UserByte, FirstPage, LastPage, InSegments, SegByte;
    var all := [h] + rest;
    forall i, w | 0 <= i < |all| && UserPage(pid, w / PAGESIZE) && LastOver(all, i, w / PAGESIZE)
      ensures UserByte(s', pid, w) == Some(SegByte(s.mem, exe, all[i], w))
    {
      if i == 0 {
        assert all[1..] == rest;
        HeldFirst(s1, s', pid, s.mem, exe, h, rest, w, v);
      } else {
        assert all[i] == rest[i - 1] && all[i + 1..] == rest[i..];
        assert LastOver(rest, i - 1, w / PAGESIZE);
        SameSegByte(s.mem, s1.mem, exe, rest[i - 1], w);
      }
    }
  }

  lemma PermsBoth(s1: State, s': State, pid: nat, h: ProgHdr, rest: seq<ProgHdr>, v: Variant)
    requires Shaped(s1) && Shaped(s') && h.kind == ELF_PROG_LOAD
    requires HavePerms(s1, pid, FirstPage(h), LastPage(h), h) && ImageKeeps(s1, s', pid, rest, v)
    requires ImagePerms(s', pid, rest)
    ensures ImagePerms(s', pid, [h] + rest)
  {
    hide Inv, Pte, UserByte, FirstPage, LastPage, InSegments;
    var all := [h] + rest;
    forall i, x | 0 <= i < |all| && LastOver(all, i, x) ensures HasPerm(s', pid, x, all[i]) {
      if i == 0 {
        assert all[1..] == rest;
        assert HasPerm(s1, pid, x, h);
      } else {
        assert all[i] == rest[i - 1] && all[i + 1..] == rest[i..];
        assert LastOver(rest, i - 1, x);
      }
    }
  }

  /** A byte of the first segment that no later one covers. */
  lemma HeldFirst(s1: State, s': State, pid: nat, m: seq<byte>, exe: nat, h: ProgHdr, rest: seq<ProgHdr>, w: int,
                  v: Variant)
    requires Shaped(s1) && Shaped(s') && |m| == WORD && SegmentOk(h, exe) && UserPage(pid, w / PAGESIZE)
    requires Holds(s1, pid, Base(h), Image(m, exe, h)) && ImageKeeps(s1, s', pid, rest, v)
    requires Covers(h, w / PAGESIZE) && !InSegments(rest, w / PAGESIZE)
    ensures UserByte(s', pid, w) == Some(SegByte(m, exe, h, w))
  {
    SegmentPages(h, exe);
    hide Inv, Pte, UserByte, FirstPage, LastPage, Base, SegData, InSegments;
    assert UserByte(s1, pid, w) == Some(Image(m, exe, h)[w - Base(h)]);
  }

  lemma SameSegByte(m: seq<byte>, m1: seq<byte>, exe: nat, h: ProgHdr, w: int)
    requires |m| == |m1| == WORD && KernelKept(m, m1) && SegmentOk(h, exe)
    ensures SegByte(m1, exe, h, w) == SegByte(m, exe, h, w)
  {
    hide Image, Base, SegmentOk, KernelKept;
    SameImage(m, m1, exe, h);
  }

  /** ELF loading: the load succeeds exactly when the unused quota covers the segments' pages and
      missing tables; then every page is as the last segment over it wants it, bytes and
      permissions (all segments are in place if they share no page), exactly that is charged,
      and nothing else of anybody's memory changes. */
  lemma {:induction false} LoadSegmentsEffect(s: State, pid: nat, exe: nat, hs: seq<ProgHdr>, v: Variant)
    requires Inv(s) && Sound(s.frames, v) && Shaped(s) && 1 <= pid < MAX_PROCS
    requires AllOk(hs, exe)
    ensures var (s', ok) := LoadSegments(s, pid, exe, hs, v);
            && (ok <==> ImageCost(s, pid, hs) <= Room(s, pid))
            && (ok ==> ImageLoaded(s, s', pid, exe, hs, v))
    decreases |hs|
  {
    hide Inv, LoadSegment, LoadKeeps, Holds, Charged, SlotsFilled, ImageKeeps, ImageHeld, ImageCost, LoadCost,
         FirstPage, LastPage, Base, Image, KernelKept, EntriesOutside, BytesOutside, SegmentOk, AllOk, ImageLoaded;
    InvRoom(s, pid);
    if hs == [] {
      NothingLoaded(s, pid, exe, v);
    } else {
      var h, rest := hs[0], hs[1..];
      assert hs == [h] + rest;
      RestOk(h, rest, exe);
      if h.kind != ELF_PROG_LOAD {
        LoadSegmentsEffect(s, pid, exe, rest, v);
        SkipSegment(s, LoadSegments(s, pid, exe, rest, v).0, pid, exe, h, rest, v);
      } else {
        LoadSegmentEffect(s, pid, exe, h, v);
        CostFirst(s, pid, h, rest);
        TotalPagesNonNegative(rest, exe);
        var (s1, ok) := LoadSegment(s, pid, exe, h, v);
        if ok {
          KeepsInv(s, s1, pid, FirstPage(h), LastPage(h), v);
          CostThen(s, s1, pid, h, rest);
          RoomAfter(s, s1, pid, LoadCost(s, pid, FirstPage(h), LastPage(h)));
          LoadSegmentsEffect(s1, pid, exe, rest, v);
          if LoadSegments(s1, pid, exe, rest, v).1 {
            ImageLoadedStep(s, s1, LoadSegments(s1, pid, exe, rest, v).0, pid, exe, h, rest, v);
          }
        }
      }
    }
  }

  lemma NothingLoaded(s: State, pid: nat, exe: nat, v: Variant)
    requires Inv(s) && Sound(s.frames, v) && Shaped(s) && pid < MAX_PROCS
    ensures AllOk([], exe) && ImageLoaded(s, s, pid, exe, [], v) && ImageCost(s, pid, []) == 0
  {
    assert NeededTables(s, pid, []) == {};
    ChargedNone(s.cs, pid);
  }

  lemma SkipSegment(s: State, s': State, pid: nat, exe: nat, h: ProgHdr, rest: seq<ProgHdr>, v: Variant)
    requires Shaped(s) && Shaped(s') && pid < MAX_PROCS && h.kind != ELF_PROG_LOAD && AllOk(rest, exe)
             && AllOk([h] + rest, exe)
    ensures ImageCost(s, pid, [h] + rest) == ImageCost(s, pid, rest)
    ensures ImageLoaded(s, s', pid, exe, rest, v) ==> ImageLoaded(s, s', pid, exe, [h] + rest, v)
  {
    hide ImageKeeps, Image, Charged, NeededTables, Base, UserByte, InSegments, SegByte, HasPerm;
    var all := [h] + rest;
    assert all[0] == h && all[1..] == rest;
    NeededSkip(s, pid, h, rest);
    if ImageLoaded(s, s', pid, exe, rest, v) {
      ImageKeepsSkip(s, s', pid, h, rest, v);
      forall i, w | 0 <= i < |all| && UserPage(pid, w / PAGESIZE) && LastOver(all, i, w / PAGESIZE)
        ensures UserByte(s', pid, w) == Some(SegByte(s.mem, exe, all[i], w))
      {
        assert i > 0 && all[i] == rest[i - 1] && all[i + 1..] == rest[i..];
        assert LastOver(rest, i - 1, w / PAGESIZE);
      }
      forall i, x | 0 <= i < |all| && LastOver(all, i, x) ensures HasPerm(s', pid, x, all[i]) {
        assert i > 0 && all[i] == rest[i - 1] && all[i + 1..] == rest[i..];
        assert LastOver(rest, i - 1, x);
      }
    }
  }
}
