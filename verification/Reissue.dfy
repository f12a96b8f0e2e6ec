/** What the unmarked fast path of the frame allocator does to isolation: after two frees, two
    processes end up with one frame. */
module Reissue {
  import opened Words
  import opened Frames
  import opened Quota
  import opened Machine
  import opened Books
  import opened PageTables
  import opened Ownership
  import opened UserMemory
  import opened UserWrite
  import opened Release

  /** The state with frame `f` not marked allocated. */
  function Unmark(s: State, f: nat): (r: State)
    requires Shaped(s) && f < NUM_PAGES
    ensures Shaped(r)
  {
    s.(frames := s.frames.(info := s.frames.info[f := s.frames.info[f].(taken := false)]))
  }

  predicate HasTable(s: State, p: int, vpn: int)
    requires Shaped(s) && InTable(p, vpn)
  {
    s.dirs[Slot(p, vpn / NUM_TABLES)] != 0
  }

  /** With the table there, an allocation takes the remembered page, as coded without marking it;
      pages that are already unmarked stay so. */
  lemma FastPath(s: State, f: nat, p: nat, vpn: nat, perm: nat)
    requires Shaped(s) && f < NUM_PAGES && UserPage(p, vpn) && perm < PAGESIZE && HasTable(s, p, vpn)
    requires s.cs[p].usage != s.cs[p].quota && s.frames.lastFreed > 0 && !s.frames.info[s.frames.lastFreed].taken
    ensures var u := s.frames.lastFreed;
            var c := AllocPage(s, p, vpn, perm, Corrected).0;
            && AllocPage(Unmark(s, f), p, vpn, perm, AsCoded).0 == Unmark(Unmark(c, u), f)
            && c.frames.info == s.frames.info[u := s.frames.info[u].(taken := true)]
            && c.frames.lastFreed == -1 && c.frames.lastAlloc == u && c.cs == Charge(s.cs, p, 1) && c.dirs == s.dirs
  {
    var u := s.frames.lastFreed;
    var k := Unmark(s, f);
    assert PageAlloc(k.frames, AsCoded) == (k.frames.(lastFreed := -1, lastAlloc := u), u);
    var sc := ContainerAlloc(s, p, Corrected).0;
    var kc := ContainerAlloc(k, p, AsCoded).0;
    assert kc.frames.info == Unmark(Unmark(sc, u), f).frames.info;
    assert kc == Unmark(Unmark(sc, u), f);
    hide Pte, EntryAddr, SetWord, DetachPage;
    assert AllocPage(s, p, vpn, perm, Corrected).0 == SetEntry(sc, p, vpn, u, perm);
    assert AllocPage(k, p, vpn, perm, AsCoded).0 == SetEntry(kc, p, vpn, u, perm);
  }

  /** Freeing another table does not notice the unmarked frame. */
  lemma FreeBeside(s: State, f: nat, p: nat, vpn: nat)
    requires Shaped(s) && UserPage(p, vpn) && f < NUM_PAGES && f != FrameOf(s.dirs[Slot(p, vpn / NUM_TABLES)])
    ensures FreePageTable(Unmark(s, f), p, vpn) == Unmark(FreePageTable(s, p, vpn), f)
  {
    hide DetachTable;
    var page := FrameOf(s.dirs[Slot(p, vpn / NUM_TABLES)]);
    var a, b := FreePageTable(Unmark(s, f), p, vpn), Unmark(FreePageTable(s, p, vpn), f);
    assert a.frames.info == b.frames.info;
  }

  /** The frame of a table is taken, and freeing it makes it the remembered page. */
  lemma TableGiven(s: State, p: nat, vpn: nat)
    requires Inv(s) && UserPage(p, vpn) && HasTable(s, p, vpn)
    ensures var t := FrameOf(s.dirs[Slot(p, vpn / NUM_TABLES)]); var s' := FreePageTable(s, p, vpn);
            && USERLO_PI <= t < USERHI_PI && s.frames.info[t] == PageInfo(true, User)
            && s'.frames == PageFree(s.frames, t) && Inv(s') && s'.cs == Charge(s.cs, p, -1)
            && s'.dirs == s.dirs[Slot(p, vpn / NUM_TABLES) := 0]
  {
    FreePageTableEffect(s, p, vpn);
    EntryInTable(s.dirs, s.roles, p, vpn);
    var t := FrameOf(s.dirs[Slot(p, vpn / NUM_TABLES)]);
    assert t in s.roles.Keys;
  }

  /** A process frees one of its tables and then allocates a page under another one. */
  predicate Swaps(s: State, p: int, freed: int, page: int)
    requires Shaped(s)
  {
    && UserPage(p, freed) && UserPage(p, page) && freed / NUM_TABLES != page / NUM_TABLES
    && HasTable(s, p, freed) && HasTable(s, p, page)
  }

  function FreedFrame(s: State, p: int, freed: int): nat
    requires Shaped(s) && InTable(p, freed)
  {
    FrameOf(s.dirs[Slot(p, freed / NUM_TABLES)])
  }

  /** One such swap, as coded and corrected: they differ in the mark of the frame only. */
  lemma Swap(s: State, f: nat, p: nat, freed: nat, page: nat, perm: nat)
    requires Inv(s) && s.frames.lastFreed == -1 && Swaps(s, p, freed, page) && perm < PAGESIZE
    requires f < NUM_PAGES && f != FreedFrame(s, p, freed)
    ensures Shaped(s)
    ensures var t := FreedFrame(s, p, freed);
            var c := AllocPage(FreePageTable(s, p, freed), p, page, perm, Corrected).0;
            && t < NUM_PAGES && Inv(c) && c.frames.lastFreed == -1 && c.frames.lastAlloc == t
            && c.frames.info == s.frames.info && c.dirs == s.dirs[Slot(p, freed / NUM_TABLES) := 0]
            && (forall q :: 0 <= q < MAX_PROCS && q != p ==> c.cs[q] == s.cs[q])
            && AllocPage(FreePageTable(Unmark(s, f), p, freed), p, page, perm, AsCoded).0 == Unmark(Unmark(c, t), f)
  {
    hide Inv, AllocPage, FreePageTable, Pte;
    InvShaped(s);
    TableGiven(s, p, freed);
    FreeBeside(s, f, p, freed);
    var t, s1 := FreedFrame(s, p, freed), FreePageTable(s, p, freed);
    SlotsDiffer(p, page / NUM_TABLES, p, freed / NUM_TABLES);
    RoomAfterFree(s, p);
    FastPath(s1, f, p, page, perm);
    AllocKeepsInv(s1, p, page, perm);
    assert AllocPage(s1, p, page, perm, Corrected).0.frames.info == s.frames.info;
  }

  lemma RoomAfterFree(s: State, p: nat)
    requires Inv(s) && p < MAX_PROCS
    ensures s.cs[p].usage <= s.cs[p].quota
  {}

  lemma AllocKeepsInv(s: State, p: nat, vpn: nat, perm: nat)
    requires Inv(s) && UserPage(p, vpn) && perm < PAGESIZE
    ensures Inv(AllocPage(s, p, vpn, perm, Corrected).0)
  {
    hide Inv, AllocPage, IdentityInv, FramesInv, BooksInv, TablesInv, PagesInv, Mapped, Pte;
    InvParts(s);
    AllocPageEffect(s, p, vpn, perm, Corrected);
    var (s', table, ok) := AllocPage(s, p, vpn, perm, Corrected);
    if ok {
      MappedParts(s, s', p, vpn, perm);
    } else {
      NothingMapped(s, s', p, vpn);
    }
    IdentityAfterSlot(s, s', p, vpn);
    InvParts(s');
  }

  /** The first swap of a run. */
  lemma FirstSwap(s: State, p: nat, freed: nat, page: nat, perm: nat)
    requires Inv(s) && s.frames.lastFreed == -1 && Swaps(s, p, freed, page) && perm < PAGESIZE
    ensures Shaped(s)
    ensures var t := FreedFrame(s, p, freed);
            var c := AllocPage(FreePageTable(s, p, freed), p, page, perm, Corrected).0;
            && t < NUM_PAGES && Inv(c) && c.frames.lastFreed == -1 && c.frames.info == s.frames.info
            && c.dirs == s.dirs[Slot(p, freed / NUM_TABLES) := 0]
            && (forall q :: 0 <= q < MAX_PROCS && q != p ==> c.cs[q] == s.cs[q])
            && AllocPage(FreePageTable(s, p, freed), p, page, perm, AsCoded).0 == Unmark(c, t)
  {
    hide Inv, AllocPage, FreePageTable, Pte;
    InvShaped(s);
    TableGiven(s, p, freed);
    var t, s1 := FreedFrame(s, p, freed), FreePageTable(s, p, freed);
    SlotsDiffer(p, page / NUM_TABLES, p, freed / NUM_TABLES);
    RoomAfterFree(s, p);
    UnmarkTwice(s1, t);
    FastPath(s1, t, p, page, perm);
    AllocKeepsInv(s1, p, page, perm);
    UnmarkTwice(AllocPage(s1, p, page, perm, Corrected).0, t);
    assert AllocPage(s1, p, page, perm, Corrected).0.frames.info == s.frames.info;
  }

  lemma UnmarkTwice(s: State, f: nat)
    requires Shaped(s) && f < NUM_PAGES
    ensures Unmark(Unmark(s, f), f) == Unmark(s, f)
    ensures !s.frames.info[f].taken ==> Unmark(s, f) == s
  {
    assert Unmark(Unmark(s, f), f).frames.info == Unmark(s, f).frames.info;
    assert !s.frames.info[f].taken ==> Unmark(s, f).frames.info == s.frames.info;
  }

  /** The page of a swap is mapped to the frame of the freed table; other processes' entries stay. */
  lemma SwapEntries(s: State, p: nat, freed: nat, page: nat, perm: nat)
    requires Inv(s) && s.frames.lastFreed == -1 && Swaps(s, p, freed, page) && perm < PAGESIZE
    ensures Shaped(s)
    ensures var c := AllocPage(FreePageTable(s, p, freed), p, page, perm, Corrected).0;
            && FrameOf(Pte(c.dirs, c.mem, p, page)) == FreedFrame(s, p, freed)
            && forall q, x :: UserPage(q, x) && q != p ==> Pte(c.dirs, c.mem, q, x) == Pte(s.dirs, s.mem, q, x)
  {
    hide Inv, AllocPage, FreePageTable, Pte, Core;
    InvShaped(s);
    TableGiven(s, p, freed);
    FreePageTableEffect(s, p, freed);
    var s1 := FreePageTable(s, p, freed);
    SlotsDiffer(p, page / NUM_TABLES, p, freed / NUM_TABLES);
    RoomAfterFree(s, p);
    InvParts(s1);
    FastEntry(s1, p, page, perm);
  }

  lemma FastEntry(s: State, p: nat, vpn: nat, perm: nat)
    requires Core(s) && UserPage(p, vpn) && perm < PAGESIZE && HasTable(s, p, vpn)
    requires s.cs[p].usage != s.cs[p].quota && s.frames.lastFreed > 0
    ensures var c := AllocPage(s, p, vpn, perm, Corrected).0;
            && Pte(c.dirs, c.mem, p, vpn) == s.frames.lastFreed * PAGESIZE + perm
            && OnlyEntryOf(s.dirs, s.mem, c.dirs, c.mem, p, vpn)
  {
    RolesInUserRange(s);
    var u := s.frames.lastFreed;
    assert AllocPage(s, p, vpn, perm, Corrected).0.mem
           == SetWord(s.mem, EntryAddr(s.dirs, p, vpn), u * PAGESIZE + perm);
    assert AllocPage(s, p, vpn, perm, Corrected).0.dirs == s.dirs;
    hide Pte, EntryAddr, SetWord, DetachPage, AllocPage;
    EntryWrite(s.dirs, s.mem, s.roles, p, vpn, u * PAGESIZE + perm);
  }

  /** The scan after the last allocation comes to the unmarked frame `t` first. */
  lemma ScanFinds(s: State, t: nat, q: nat, y: nat, perm: nat)
    requires Shaped(s) && UserPage(q, y) && perm < PAGESIZE && HasTable(s, q, y) && s.cs[q].usage != s.cs[q].quota
    requires s.frames.lastFreed == -1 && 0 <= s.frames.lastAlloc < t < USERHI_PI && IsFree(s.frames.info, t)
    requires forall f :: s.frames.lastAlloc < f < t ==> !IsFree(s.frames.info, f)
    ensures var k := AllocPage(s, q, y, perm, AsCoded).0;
            && k.dirs == s.dirs && k.mem == SetWord(s.mem, EntryAddr(s.dirs, q, y), t * PAGESIZE + perm)
  {
    hide Pte, EntryAddr, SetWord, DetachPage;
    assert FirstFree(s.frames.info, s.frames.lastAlloc + 1, USERHI_PI) == t;
    assert ContainerAlloc(s, q, AsCoded).1 == t;
  }

  /** As coded, isolation fails after two frees: two processes each free a page table and allocate
      a page elsewhere; then a third one's new page is mapped to the frame the first one's is,
      if that is the next free-looking frame after the second one's. */
  lemma TwoFreesShareAFrame(s: State, p: nat, a: nat, x: nat, r: nat, b: nat, z: nat, q: nat, y: nat, perm: nat)
    requires Inv(s) && s.frames.lastFreed == -1 && perm < PAGESIZE
    requires Swaps(s, p, a, x) && Swaps(s, r, b, z) && UserPage(q, y) && HasTable(s, q, y)
    requires p != r && q != p && q != r && Room(s, q) > 0
    requires FreedFrame(s, r, b) < FreedFrame(s, p, a)
    requires forall f :: FreedFrame(s, r, b) < f < FreedFrame(s, p, a) ==> !IsFree(s.frames.info, f)
    ensures Shaped(s)
    ensures var k1 := AllocPage(FreePageTable(s, p, a), p, x, perm, AsCoded).0;
            var k2 := AllocPage(FreePageTable(k1, r, b), r, z, perm, AsCoded).0;
            var k := AllocPage(k2, q, y, perm, AsCoded).0;
            FrameOf(Pte(k.dirs, k.mem, p, x)) == FrameOf(Pte(k.dirs, k.mem, q, y)) == FreedFrame(s, p, a)
  {
    hide Inv, AllocPage, FreePageTable, Pte, EntryAddr, SetWord;
    InvShaped(s);
    var t, u := FreedFrame(s, p, a), FreedFrame(s, r, b);
    FirstSwap(s, p, a, x, perm);
    SwapEntries(s, p, a, x, perm);
    var c1 := AllocPage(FreePageTable(s, p, a), p, x, perm, Corrected).0;
    OtherSlots(s.dirs, c1.dirs, p, a / NUM_TABLES);
    assert Swaps(c1, r, b, z) && FreedFrame(c1, r, b) == u;
    Swap(c1, t, r, b, z, perm);
    SwapEntries(c1, r, b, z, perm);
    var c2 := AllocPage(FreePageTable(c1, r, b), r, z, perm, Corrected).0;
    OtherSlots(c1.dirs, c2.dirs, r, b / NUM_TABLES);
    TableGiven(s, p, a);
    LastStep(s, c2, Unmark(Unmark(c2, u), t), t, u, p, x, q, y, perm);
  }

  lemma OtherSlots(dirs: seq<uint32>, dirs': seq<uint32>, p: int, pde: int)
    requires |dirs| == MAX_PROCS * NUM_TABLES && UserSlot(p, pde) && dirs' == dirs[Slot(p, pde) := 0]
    ensures forall q, j :: UserSlot(q, j) && q != p ==> dirs'[Slot(q, j)] == dirs[Slot(q, j)]
  {}

  lemma UnmarkedPages(c: State, u: nat, t: nat)
    requires Shaped(c) && u < t < USERHI_PI && c.frames.info[t].perm == User
    ensures var info := Unmark(Unmark(c, u), t).frames.info;
            && IsFree(info, t)
            && forall f :: u < f < t ==> (IsFree(info, f) <==> IsFree(c.frames.info, f))
  {}

  lemma LastStep(s: State, c: State, k: State, t: nat, u: nat, p: nat, x: nat, q: nat, y: nat, perm: nat)
    requires Inv(c) && Shaped(s) && UserPage(p, x) && UserPage(q, y) && q != p && perm < PAGESIZE
    requires u < t < USERHI_PI && USERLO_PI <= t && k == Unmark(Unmark(c, u), t)
             && s.frames.info[t] == PageInfo(true, User)
    requires c.frames.info == s.frames.info && c.frames.lastFreed == -1 && c.frames.lastAlloc == u
    requires forall f :: u < f < t ==> !IsFree(s.frames.info, f)
    requires HasTable(c, q, y) && c.cs[q].usage != c.cs[q].quota
    requires FrameOf(Pte(c.dirs, c.mem, p, x)) == t
    ensures var k' := AllocPage(k, q, y, perm, AsCoded).0;
            FrameOf(Pte(k'.dirs, k'.mem, p, x)) == FrameOf(Pte(k'.dirs, k'.mem, q, y)) == t
  {
    hide AllocPage, Pte, EntryAddr, SetWord, IsFree, Inv;
    InvShaped(c);
    UnmarkedPages(c, u, t);
    ScanFinds(k, t, q, y, perm);
    InvParts(c);
    RolesInUserRange(c);
    EntryWrite(c.dirs, c.mem, c.roles, q, y, t * PAGESIZE + perm);
  }
}
