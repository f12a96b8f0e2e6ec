/** Frames a process is charged for and can never reach again: each dropped mapping adds one,
    and a failing AllocPage can add one more, once, when it uses up the quota. */
module Leakage {
  import opened Words
  import opened Frames
  import opened Quota
  import opened Machine
  import opened Books
  import opened PageTables
  import opened Ownership
  import opened UserMemory
  import opened UserWrite
  import opened CopyLoops
  import opened CopyInLoop
  import opened Release
  import opened Runs
  import opened Conservation

  ghost function MappedPages(s: State, p: int): set<int>
    requires Shaped(s)
  {
    set x | USERLO_PI <= x < USERHI_PI && UserPage(p, x) && Pte(s.dirs, s.mem, p, x) != 0
  }

  /** What `p` is charged for beyond its page tables and its mapped pages. */
  ghost function Lost(s: State, p: int): int
    requires Shaped(s) && 1 <= p < MAX_PROCS
  {
    Charges(s.cs, p) - |FilledSlots(s.dirs, p)| - |MappedPages(s, p)|
  }

  // ----- the lost frames themselves

  /** No directory slot and no page table entry of any process names the frame. */
  ghost predicate Unnamed(s: State, f: int)
    requires Shaped(s)
  {
    && (forall q, pde :: UserSlot(q, pde) && s.dirs[Slot(q, pde)] != 0 ==> FrameOf(s.dirs[Slot(q, pde)]) != f)
    && (forall q, x :: UserPage(q, x) && Pte(s.dirs, s.mem, q, x) != 0 ==> FrameOf(Pte(s.dirs, s.mem, q, x)) != f)
  }

  ghost function UnnamedFrames(s: State, p: int): set<int>
    requires Shaped(s)
  {
    set f | f in Owned(s.roles, p) && Unnamed(s, f)
  }

  ghost function TableFrames(roles: map<int, Role>, p: int): set<int> {
    set f | f in roles && roles[f].Table? && roles[f].owner == p
  }

  ghost function DataFrames(roles: map<int, Role>, p: int): set<int> {
    set f | f in roles && roles[f].Data? && roles[f].owner == p
  }

  lemma TablesOfSlots(s: State, p: nat)
    requires Inv(s) && 1 <= p < MAX_PROCS
    ensures |FilledSlots(s.dirs, p)| == |TableFrames(s.roles, p)|
  {
    hide FramesInv, BooksInv, PagesInv, IdentityInv;
    TableSlots(s.dirs, s.roles, p);
    SameSize(FilledSlots(s.dirs, p), TableFrames(s.roles, p), pde => FrameOfSlot(s.dirs, p, pde));
  }

  function FrameOfSlot(dirs: seq<uint32>, p: int, pde: int): int
    requires |dirs| == MAX_PROCS * NUM_TABLES
  {
    if UserSlot(p, pde) then FrameOf(dirs[Slot(p, pde)]) else 0
  }

  lemma TableSlots(dirs: seq<uint32>, roles: map<int, Role>, p: nat)
    requires |dirs| == MAX_PROCS * NUM_TABLES && TablesInv(dirs, roles) && 1 <= p < MAX_PROCS
    ensures forall pde :: pde in FilledSlots(dirs, p) ==>
              FrameOfSlot(dirs, p, pde) in TableFrames(roles, p) && roles[FrameOfSlot(dirs, p, pde)] == Table(p, pde)
    ensures forall f :: f in TableFrames(roles, p) ==>
              roles[f].pde in FilledSlots(dirs, p) && FrameOfSlot(dirs, p, roles[f].pde) == f
  {}

  lemma PagesOfEntries(s: State, p: nat)
    requires Inv(s) && 1 <= p < MAX_PROCS
    ensures |MappedPages(s, p)| == |DataFrames(s.roles, p)|
  {
    hide FramesInv, BooksInv, TablesInv, IdentityInv;
    FramePositive(s);
    DataEntries(s, p);
    SameSize(MappedPages(s, p), DataFrames(s.roles, p), x => FrameOfPage(s, p, x));
  }

  function FrameOfPage(s: State, p: int, x: int): int
    requires Shaped(s)
  {
    if UserPage(p, x) then FrameOf(Pte(s.dirs, s.mem, p, x)) else 0
  }

  lemma FramePositive(s: State)
    requires Inv(s)
    ensures forall f :: f in s.roles ==> f > 0
  {
    RolesInUserRange(s);
  }

  lemma DataEntries(s: State, p: nat)
    requires Shaped(s) && PagesInv(s.dirs, s.mem, s.roles) && 1 <= p < MAX_PROCS
    requires forall f :: f in s.roles ==> f > 0
    ensures forall x :: x in MappedPages(s, p) ==>
              FrameOfPage(s, p, x) in DataFrames(s.roles, p) && s.roles[FrameOfPage(s, p, x)] == Data(p, x)
    ensures forall f :: f in DataFrames(s.roles, p) ==>
              s.roles[f].vpn in MappedPages(s, p) && FrameOfPage(s, p, s.roles[f].vpn) == f
  {
    hide Pte;
  }

  /** `Lost` is the number of frames charged to `p` that nothing names any more. */
  lemma LostAreUnnamed(s: State, p: nat)
    requires Inv(s) && 1 <= p < MAX_PROCS
    ensures Shaped(s) && Lost(s, p) == |UnnamedFrames(s, p)|
  {
    hide Inv, Pte, FilledSlots, MappedPages, TableFrames, DataFrames, UnnamedFrames, Charges;
    InvShaped(s);
    TablesOfSlots(s, p);
    PagesOfEntries(s, p);
    ChargesAreFrames(s, p);
    OwnedSplit(s, p);
  }

  lemma OwnedSplit(s: State, p: nat)
    requires Inv(s) && 1 <= p < MAX_PROCS
    ensures Shaped(s)
    ensures |Owned(s.roles, p)| == |TableFrames(s.roles, p)| + |DataFrames(s.roles, p)| + |UnnamedFrames(s, p)|
  {
    hide Inv, Pte, Unnamed;
    InvShaped(s);
    UnnamedRoles(s, p);
    var tables, pages, lost := TableFrames(s.roles, p), DataFrames(s.roles, p), UnnamedFrames(s, p);
    assert Owned(s.roles, p) == tables + pages + lost;
    assert tables !! pages && (tables + pages) !! lost;
  }

  lemma UnnamedRoles(s: State, p: nat)
    requires Inv(s) && 1 <= p < MAX_PROCS
    ensures Shaped(s)
    ensures forall f :: f in Owned(s.roles, p) ==>
            (f in UnnamedFrames(s, p) <==> !s.roles[f].Table? && !s.roles[f].Data?)
  {
    hide Pte, FramesInv, BooksInv, IdentityInv;
    FramePositive(s);
  }

  // ----- what an operation drops

  /** The pages of `p` whose entry named a frame before and does not name it any more. */
  ghost function Dropped(s: State, s': State, p: int): set<int>
    requires Shaped(s) && Shaped(s')
  {
    set x | USERLO_PI <= x < USERHI_PI && UserPage(p, x) && Pte(s.dirs, s.mem, p, x) != 0
            && FrameOf(Pte(s'.dirs, s'.mem, p, x)) != FrameOf(Pte(s.dirs, s.mem, p, x))
  }

  /** `p` loses the `dropped` frames, and at most one more: when that one goes, the quota is
      used up, and was not before. */
  ghost predicate Leaks(s: State, s': State, p: int, dropped: int)
    requires Shaped(s) && Shaped(s') && 1 <= p < MAX_PROCS
  {
    && Lost(s, p) + dropped <= Lost(s', p) <= Lost(s, p) + dropped + 1
    && (Lost(s', p) > Lost(s, p) + dropped ==> s'.cs[p].used && Room(s', p) == 0 && (Room(s, p) > 0 || !s.cs[p].used))
    && (s.cs[p].used ==> s'.cs[p].used && Room(s', p) <= Room(s, p))
    && 0 <= Room(s', p) && (!s'.cs[p].used ==> Room(s', p) == 0)
  }

  lemma LeaksThen(s: State, s1: State, s': State, p: int, a: int, b: int)
    requires Shaped(s) && Shaped(s1) && Shaped(s') && 1 <= p < MAX_PROCS
    requires Leaks(s, s1, p, a) && Leaks(s1, s', p, b)
    ensures Leaks(s, s', p, a + b)
  {
    hide Lost;
  }

  /** If each entry changes at most once on the way, what is dropped adds up. */
  lemma DroppedThen(s: State, s1: State, s': State, p: int)
    requires Shaped(s) && Shaped(s1) && Shaped(s')
    requires forall x :: UserPage(p, x) ==>
               || Pte(s1.dirs, s1.mem, p, x) == Pte(s.dirs, s.mem, p, x)
               || Pte(s'.dirs, s'.mem, p, x) == Pte(s1.dirs, s1.mem, p, x)
    ensures |Dropped(s, s', p)| == |Dropped(s, s1, p)| + |Dropped(s1, s', p)|
  {
    hide Pte;
    assert Dropped(s, s', p) == Dropped(s, s1, p) + Dropped(s1, s', p);
    assert Dropped(s, s1, p) !! Dropped(s1, s', p);
  }

  // ----- one operation

  lemma InvAccounts(s: State, p: nat)
    requires Inv(s) && p < MAX_PROCS
    ensures Shaped(s) && Tree(s.cs) && Balanced(s.cs) && Room(s, p) >= 0 && (!s.cs[p].used ==> Room(s, p) == 0)
  {
    ChargesOfAccounts(s.cs, Own(s.roles));
  }

  /** Nothing moves but memory outside the page tables. */
  lemma NothingLost(s: State, s': State, p: nat)
    requires Inv(s) && Inv(s') && 1 <= p < MAX_PROCS
    requires s'.cs == s.cs && s'.dirs == s.dirs
    requires forall x :: UserPage(p, x) ==> Pte(s'.dirs, s'.mem, p, x) == Pte(s.dirs, s.mem, p, x)
    ensures Shaped(s) && Shaped(s') && Dropped(s, s', p) == {} && Leaks(s, s', p, 0)
  {
    hide Inv, Pte, Charges, FilledSlots;
    InvShaped(s);
    InvAccounts(s', p);
    assert MappedPages(s', p) == MappedPages(s, p);
  }

  /** Another process's charge, slot and entries. */
  lemma OthersUnmoved(s: State, s': State, p: nat, q: nat, units: int)
    requires Inv(s) && Inv(s') && 1 <= p < MAX_PROCS && 1 <= q < MAX_PROCS && q != p
    requires Shaped(s) && Shaped(s') && Charged(s.cs, s'.cs, p, units)
    requires FilledSlots(s'.dirs, q) == FilledSlots(s.dirs, q)
    requires forall x :: UserPage(q, x) ==> Pte(s'.dirs, s'.mem, q, x) == Pte(s.dirs, s.mem, q, x)
    ensures Dropped(s, s', q) == {} && Leaks(s, s', q, 0)
  {
    hide Inv, Pte, FilledSlots;
    InvAccounts(s', q);
    ChildQuotasAfterCharge(s.cs, p, units, q, MAX_PROCS);
    assert MappedPages(s', q) == MappedPages(s, q);
  }

  lemma ChargesAfter(cs: seq<Container>, cs': seq<Container>, p: nat, units: int)
    requires |cs| == MAX_PROCS && p < MAX_PROCS && Charged(cs, cs', p, units)
    ensures |cs'| == MAX_PROCS && Charges(cs', p) == Charges(cs, p) + units && cs'[p].used == cs[p].used
    ensures cs'[p].quota - cs'[p].usage == cs[p].quota - cs[p].usage - units
  {
    ChildQuotasAfterCharge(cs, p, units, p, MAX_PROCS);
  }

  /** What AllocPage adds to the lost frames of its process: the frame its page named before, if
      it succeeds, and else the frame it could not map. */
  lemma AllocLeaks(s: State, p: nat, vpn: nat, perm: nat, v: Variant)
    requires Inv(s) && Sound(s.frames, v) && UserPage(p, vpn) && perm < PAGESIZE && Shaped(s)
    ensures var (s', table, ok) := AllocPage(s, p, vpn, perm, v);
            && Dropped(s, s', p) == (if ok && vpn in MappedPages(s, p) then {vpn} else {})
            && Lost(s', p) == Lost(s, p) + |Dropped(s, s', p)| + (if ok then 0 else Room(s, p))
            && Leaks(s, s', p, |Dropped(s, s', p)|)
  {
    hide Inv, AllocPage, Pte, Charges, Mapped, Core, NoNewLeak, LeakedOne, Charged, PageCost, Leaks, Lost,
         FilledSlots, MappedPages, Dropped;
    InvShaped(s);
    InvParts(s);
    InvAccounts(s, p);
    AllocPageEffect(s, p, vpn, perm, v);
    var (s', table, ok) := AllocPage(s, p, vpn, perm, v);
    AllocInv(s, p, vpn, perm, v);
    InvAccounts(s', p);
    if ok {
      AllocMapped(s, s', p, vpn, perm);
      ChargesAfter(s.cs, s'.cs, p, PageCost(s.dirs, p, vpn));
      LostAfter(s, s', p, PageCost(s.dirs, p, vpn), PageCost(s.dirs, p, vpn) - 1, 1 - |Dropped(s, s', p)|);
    } else {
      ChargesAfter(s.cs, s'.cs, p, Room(s, p));
      NothingDropped(s, s', p);
      LostAfter(s, s', p, Room(s, p), 0, 0);
    }
    AllocLeaksLaw(s, s', p, ok, |Dropped(s, s', p)|);
  }

  lemma LostAfter(s: State, s': State, p: nat, units: int, slots: int, pages: int)
    requires Shaped(s) && Shaped(s') && 1 <= p < MAX_PROCS
    requires Charges(s'.cs, p) == Charges(s.cs, p) + units
    requires |FilledSlots(s'.dirs, p)| == |FilledSlots(s.dirs, p)| + slots
    requires |MappedPages(s', p)| == |MappedPages(s, p)| + pages
    ensures Lost(s', p) == Lost(s, p) + units - slots - pages
  {
    hide Charges, FilledSlots, MappedPages;
  }

  lemma NothingDropped(s: State, s': State, p: nat)
    requires Shaped(s) && Shaped(s') && s'.dirs == s.dirs && s'.mem == s.mem
    ensures MappedPages(s', p) == MappedPages(s, p) && Dropped(s, s', p) == {}
  {}

  lemma AllocLeaksLaw(s: State, s': State, p: nat, ok: bool, dropped: nat)
    requires Shaped(s) && Shaped(s') && 1 <= p < MAX_PROCS
    requires Lost(s', p) == Lost(s, p) + dropped + if ok then 0 else Room(s, p)
    requires 0 <= Room(s', p) <= Room(s, p) && s'.cs[p].used == s.cs[p].used
    requires !ok ==> Room(s, p) <= 1 && Room(s', p) == 0
    requires !s.cs[p].used ==> Room(s, p) == 0
    ensures Leaks(s, s', p, dropped)
  {
    hide Lost;
  }

  lemma AllocInv(s: State, p: nat, vpn: nat, perm: nat, v: Variant)
    requires Inv(s) && Sound(s.frames, v) && UserPage(p, vpn) && perm < PAGESIZE
    ensures Shaped(s) && Inv(AllocPage(s, p, vpn, perm, v).0) && Sound(AllocPage(s, p, vpn, perm, v).0.frames, v)
    ensures forall q, x :: UserPage(q, x) && q != p ==>
              Pte(AllocPage(s, p, vpn, perm, v).0.dirs, AllocPage(s, p, vpn, perm, v).0.mem, q, x)
                == Pte(s.dirs, s.mem, q, x)
  {
    hide Inv, AllocPage, Pte, UserByte;
    InvShaped(s);
    AllocIsolated(s, p, vpn, perm, v);
    var s' := AllocPage(s, p, vpn, perm, v).0;
    forall q, x | UserPage(q, x) && q != p ensures Pte(s'.dirs, s'.mem, q, x) == Pte(s.dirs, s.mem, q, x) {
      assert SameFor(s, s', q);
    }
  }

  /** The success case: one more page, and a table if the slot was empty. */
  lemma AllocMapped(s: State, s': State, p: nat, vpn: nat, perm: nat)
    requires Inv(s) && Shaped(s') && UserPage(p, vpn)
    requires FrameOf(Pte(s'.dirs, s'.mem, p, vpn)) !in s.roles && FrameOf(Pte(s'.dirs, s'.mem, p, vpn)) != 0
    requires Mapped(s, s', p, vpn, FrameOf(Pte(s'.dirs, s'.mem, p, vpn)), perm)
    ensures Shaped(s)
    ensures |MappedPages(s', p)| == |MappedPages(s, p)| + 1 - |Dropped(s, s', p)|
    ensures Dropped(s, s', p) == if vpn in MappedPages(s, p) then {vpn} else {}
    ensures |FilledSlots(s'.dirs, p)| == |FilledSlots(s.dirs, p)| + PageCost(s.dirs, p, vpn) - 1
  {
    hide Inv, Pte, ContentsKept;
    InvShaped(s);
    PageFrame(s, p, vpn);
    var pde := vpn / NUM_TABLES;
    assert MappedPages(s', p) == MappedPages(s, p) + {vpn};
    assert Dropped(s, s', p) == if vpn in MappedPages(s, p) then {vpn} else {};
    assert FilledSlots(s'.dirs, p) == FilledSlots(s.dirs, p) + {pde} by {
      SlotFilled(s.dirs, s'.dirs, p, pde);
    }
    assert pde in FilledSlots(s.dirs, p) <==> s.dirs[Slot(p, pde)] != 0;
  }

  lemma SlotFilled(dirs: seq<uint32>, dirs': seq<uint32>, p: nat, pde: nat)
    requires |dirs| == |dirs'| == MAX_PROCS * NUM_TABLES && UserSlot(p, pde) && OnlySlot(dirs, dirs', p, pde)
    ensures FilledSlots(dirs', p) == FilledSlots(dirs, p) + {pde}
    ensures forall q :: 1 <= q < MAX_PROCS && q != p ==> FilledSlots(dirs', q) == FilledSlots(dirs, q)
  {}

  /** For every process: what an allocation by `p` does to the lost frames of `q`. */
  lemma AllocLeaksAny(s: State, p: nat, vpn: nat, perm: nat, v: Variant, q: nat)
    requires Inv(s) && Sound(s.frames, v) && UserPage(p, vpn) && perm < PAGESIZE && 1 <= q < MAX_PROCS
    ensures Shaped(s) && Leaks(s, AllocPage(s, p, vpn, perm, v).0, q, |Dropped(s, AllocPage(s, p, vpn, perm, v).0, q)|)
  {
    hide Inv, AllocPage, Pte, Mapped, Core, NoNewLeak, LeakedOne, Charged, PageCost, Leaks, FilledSlots;
    InvShaped(s);
    if q == p {
      AllocLeaks(s, p, vpn, perm, v);
    } else {
      InvParts(s);
      AllocPageEffect(s, p, vpn, perm, v);
      AllocInv(s, p, vpn, perm, v);
      var (s', table, ok) := AllocPage(s, p, vpn, perm, v);
      if ok {
        MappedSlots(s, s', p, vpn, FrameOf(Pte(s'.dirs, s'.mem, p, vpn)), perm);
      }
      OthersUnmoved(s, s', p, q, if ok then PageCost(s.dirs, p, vpn) else Room(s, p));
    }
  }

  lemma MappedSlots(s: State, s': State, p: nat, vpn: nat, page: nat, perm: nat)
    requires Shaped(s) && Shaped(s') && UserPage(p, vpn) && Mapped(s, s', p, vpn, page, perm)
    ensures forall q :: 1 <= q < MAX_PROCS && q != p ==> FilledSlots(s'.dirs, q) == FilledSlots(s.dirs, q)
  {
    SlotFilled(s.dirs, s'.dirs, p, vpn / NUM_TABLES);
  }

  /** UnmapPage adds exactly the frame it unmaps. */
  lemma UnmapLeaks(s: State, p: nat, vpn: nat, q: nat)
    requires Inv(s) && UserPage(p, vpn) && 1 <= q < MAX_PROCS && Shaped(s)
    ensures var s' := UnmapPage(s, p, vpn).0;
            && Dropped(s, s', q) == (if q == p && vpn in MappedPages(s, p) then {vpn} else {})
            && Lost(s', q) == Lost(s, q) + |Dropped(s, s', q)|
            && Leaks(s, s', q, |Dropped(s, s', q)|)
  {
    hide Inv, UnmapPage, Pte, FilledSlots, Charges;
    InvShaped(s);
    UnmapPageEffect(s, p, vpn);
    var s' := UnmapPage(s, p, vpn).0;
    InvAccounts(s', q);
    UnmapDrops(s, s', p, vpn, q);
  }

  lemma UnmapDrops(s: State, s': State, p: nat, vpn: nat, q: nat)
    requires Inv(s) && Shaped(s') && UserPage(p, vpn) && 1 <= q < MAX_PROCS && Shaped(s)
    requires OnlyEntryOf(s.dirs, s.mem, s'.dirs, s'.mem, p, vpn) && Pte(s'.dirs, s'.mem, p, vpn) == 0
    ensures Dropped(s, s', q) == if q == p && vpn in MappedPages(s, p) then {vpn} else {}
    ensures MappedPages(s', q) == MappedPages(s, q) - Dropped(s, s', q)
  {
    hide Inv, Pte;
    PageFrame(s, p, vpn);
  }

  /** FreePageTable adds all the frames the table still mapped; its own frame is given back. */
  lemma FreePageTableLeaks(s: State, p: nat, vpn: nat)
    requires Inv(s) && UserPage(p, vpn) && s.dirs[Slot(p, vpn / NUM_TABLES)] != 0 && Shaped(s)
    ensures var s' := FreePageTable(s, p, vpn);
            && Dropped(s, s', p) == (set x | x in MappedPages(s, p) && x / NUM_TABLES == vpn / NUM_TABLES)
            && Lost(s', p) == Lost(s, p) + |Dropped(s, s', p)|
            && Room(s', p) == Room(s, p) + 1
  {
    hide Inv, FreePageTable, Pte, Charges;
    InvShaped(s);
    FreePageTableEffect(s, p, vpn);
    var s' := FreePageTable(s, p, vpn);
    var pde := vpn / NUM_TABLES;
    FreedSlot(s, p, vpn);
    SlotRemoved(s.dirs, p, pde);
    assert pde in FilledSlots(s.dirs, p);
    ChargesAfter(s.cs, s'.cs, p, -1);
    FreeDrops(s, s', p, pde);
  }

  lemma FreedSlot(s: State, p: nat, vpn: nat)
    requires Shaped(s) && UserPage(p, vpn)
    ensures FreePageTable(s, p, vpn).dirs == s.dirs[Slot(p, vpn / NUM_TABLES) := 0]
  {}

  lemma FreeDrops(s: State, s': State, p: nat, pde: nat)
    requires Inv(s) && Shaped(s') && Shaped(s) && 1 <= p < MAX_PROCS && TableFreed(s, s', p, pde)
    ensures Dropped(s, s', p) == set x | x in MappedPages(s, p) && x / NUM_TABLES == pde
    ensures MappedPages(s', p) == MappedPages(s, p) - Dropped(s, s', p)
  {
    hide Inv, Pte;
    forall x | UserPage(p, x) && Pte(s.dirs, s.mem, p, x) != 0 ensures FrameOf(Pte(s.dirs, s.mem, p, x)) != 0 {
      PageFrame(s, p, x);
    }
  }

  // ----- the copies

  lemma EnsurePageLeaks(s: State, p: nat, vpn: nat, v: Variant, q: nat)
    requires Inv(s) && Sound(s.frames, v) && UserPage(p, vpn) && 1 <= q < MAX_PROCS
    ensures Shaped(s) && Leaks(s, EnsurePage(s, p, vpn, v), q, |Dropped(s, EnsurePage(s, p, vpn, v), q)|)
  {
    hide Inv, AllocPage, Pte, Leaks, Dropped;
    InvShaped(s);
    if Absent(s, p, vpn) {
      AllocLeaksAny(s, p, vpn, PTE_PWU, v, q);
    } else {
      NothingLost(s, s, q);
    }
  }

  /** A store after the page was ensured. */
  lemma StoreLeaks(s: State, s1: State, s2: State, q: nat)
    requires Shaped(s) && Inv(s1) && Inv(s2) && 1 <= q < MAX_PROCS && Leaks(s, s1, q, |Dropped(s, s1, q)|)
    requires s2.cs == s1.cs && s2.dirs == s1.dirs && SameEntries(s1.dirs, s1.mem, s2.dirs, s2.mem)
    ensures Leaks(s, s2, q, |Dropped(s, s2, q)|)
  {
    hide Inv, Pte, Leaks, Dropped;
    InvShaped(s1);
    InvShaped(s2);
    NothingLost(s1, s2, q);
    DroppedThen(s, s1, s2, q);
    LeaksThen(s, s1, s2, q, |Dropped(s, s1, q)|, 0);
  }

  lemma WriteStepLeaks(s: State, p: nat, va: nat, data: seq<byte>, v: Variant, q: nat)
    requires Inv(s) && Sound(s.frames, v) && UserPage(p, va / PAGESIZE) && va % PAGESIZE + |data| <= PAGESIZE
    requires 1 <= q < MAX_PROCS
    ensures Shaped(s) && Leaks(s, WriteStep(s, p, va, data, v), q, |Dropped(s, WriteStep(s, p, va, data, v), q)|)
  {
    hide Inv, Pte, Leaks, Dropped, EnsurePage, UserByte, Ensured;
    InvShaped(s);
    var s1 := EnsurePage(s, p, va / PAGESIZE, v);
    EnsurePageEffect(s, p, va / PAGESIZE, v);
    EnsuredKernel(s, s1, p, va / PAGESIZE, v);
    EnsurePageLeaks(s, p, va / PAGESIZE, v, q);
    WriteChunkEffect(s1, p, va, data);
    StoreLeaks(s, s1, WriteStep(s, p, va, data, v), q);
  }

  lemma ReadStepLeaks(s: State, p: nat, uva: nat, kva: nat, n: nat, v: Variant, q: nat)
    requires Inv(s) && Sound(s.frames, v) && UserPage(p, uva / PAGESIZE) && uva % PAGESIZE + n <= PAGESIZE
    requires ReadBuffer(s, kva, n) && 1 <= q < MAX_PROCS
    ensures Shaped(s) && Leaks(s, ReadStep(s, p, uva, kva, n, v), q, |Dropped(s, ReadStep(s, p, uva, kva, n, v), q)|)
  {
    hide Inv, Pte, Leaks, Dropped, EnsurePage, UserByte, Ensured, Got, CopyForward, PhysAddr, ReadStepped;
    InvShaped(s);
    var s1 := EnsurePage(s, p, uva / PAGESIZE, v);
    EnsurePageEffect(s, p, uva / PAGESIZE, v);
    EnsuredKernel(s, s1, p, uva / PAGESIZE, v);
    EnsurePageLeaks(s, p, uva / PAGESIZE, v, q);
    ReadStepKeeps(s, p, uva, kva, n, v);
    ReadSteppedInv(s, ReadStep(s, p, uva, kva, n, v), p, uva, kva, n, v);
    StoreLeaks(s, s1, ReadStep(s, p, uva, kva, n, v), q);
  }

  lemma ReadSteppedInv(s: State, s2: State, p: nat, uva: nat, kva: nat, n: nat, v: Variant)
    requires Shaped(s) && Shaped(s2) && UserPage(p, uva / PAGESIZE) && ReadStepped(s, s2, p, uva, kva, n, v)
    ensures Inv(s2) && Sound(s2.frames, v) && EntriesOutside(s, s2, p, uva / PAGESIZE, uva / PAGESIZE + 1)
  {}

  /** The walk goes to later pages, so no entry changes twice. */
  lemma WalkLeaks(s: State, s2: State, s': State, p: nat, va: nat, n: nat, len: nat, q: nat)
    requires Shaped(s) && Shaped(s2) && Shaped(s') && 0 < n <= len && va % PAGESIZE + n <= PAGESIZE
             && 1 <= q < MAX_PROCS
    requires n == len || (va + n) % PAGESIZE == 0
    requires EntriesOutside(s, s2, p, va / PAGESIZE, va / PAGESIZE + 1)
    requires EntriesOutside(s2, s', p, (va + n) / PAGESIZE, EndPage(va + n, len - n))
    requires Leaks(s, s2, q, |Dropped(s, s2, q)|) && Leaks(s2, s', q, |Dropped(s2, s', q)|)
    ensures Leaks(s, s', q, |Dropped(s, s', q)|)
  {
    hide Pte, Leaks, Dropped;
    PagesOfRange(va, n, len - n);
    DroppedThen(s, s2, s', q);
    LeaksThen(s, s2, s', q, |Dropped(s, s2, q)|, |Dropped(s2, s', q)|);
  }

  lemma {:induction false} WriteUserLeaks(s: State, p: nat, va: nat, data: seq<byte>, v: Variant, q: nat)
    requires Inv(s) && Sound(s.frames, v) && UserRange(p, va, |data|) && 1 <= q < MAX_PROCS
    ensures Shaped(s) && Leaks(s, WriteUser(s, p, va, data, v), q, |Dropped(s, WriteUser(s, p, va, data, v), q)|)
    decreases |data|
  {
    hide Inv, Pte, Leaks, Dropped, WriteStep, Stepped, EnsurePage, ChunkSize, Walked, EntriesOutside;
    InvShaped(s);
    if data == [] {
      NothingLost(s, s, q);
    } else {
      WriteUserUnfold(s, p, va, data, v);
      var n := ChunkSize(va, |data|);
      var s2 := WriteStep(s, p, va, data[..n], v);
      WriteStepLeaks(s, p, va, data[..n], v, q);
      WriteUserLeaks(s2, p, va + n, data[n..], v, q);
      WriteUserKeeps(s2, p, va + n, data[n..], v);
      WalkEntries(s, s2, WriteUser(s2, p, va + n, data[n..], v), p, va, data, n, v);
      WalkLeaks(s, s2, WriteUser(s2, p, va + n, data[n..], v), p, va, n, |data|, q);
    }
  }

  lemma WalkEntries(s: State, s2: State, s': State, p: nat, va: nat, data: seq<byte>, n: nat, v: Variant)
    requires Shaped(s) && Shaped(s2) && Shaped(s') && UserPage(p, va / PAGESIZE) && n <= |data|
    requires Stepped(s, s2, p, va, data[..n], v) && Walked(s2, s', p, va + n, |data| - n, v)
    ensures EntriesOutside(s, s2, p, va / PAGESIZE, va / PAGESIZE + 1)
    ensures EntriesOutside(s2, s', p, (va + n) / PAGESIZE, EndPage(va + n, |data| - n))
  {}

  lemma {:induction false} CopyInLeaks(s: State, p: nat, uva: nat, kva: nat, len: nat, v: Variant, q: nat)
    requires Inv(s) && Sound(s.frames, v) && UserRange(p, uva, len) && ReadBuffer(s, kva, len) && 1 <= q < MAX_PROCS
    ensures Shaped(s) && kva + len <= USERLO
    ensures Leaks(s, CopyIn(s, p, uva, kva, len, v), q, |Dropped(s, CopyIn(s, p, uva, kva, len, v), q)|)
    decreases len
  {
    hide Inv, Pte, Leaks, Dropped, CopyIn, ReadStep, ReadStepped, EnsurePage, ChunkSize, ReadWalked, ReadBuffer,
         EntriesOutside;
    InvShaped(s);
    BufferBounds(s, kva, len);
    if len == 0 {
      CopyInNone(s, p, uva, kva, v);
      NothingLost(s, s, q);
    } else {
      CopyInUnfold(s, p, uva, kva, len, v);
      var n := ChunkSize(uva, len);
      var s2 := ReadStep(s, p, uva, kva, n, v);
      ShorterBuffer(s, kva, n, len);
      ReadStepLeaks(s, p, uva, kva, n, v, q);
      CopyInLeaks(s2, p, uva + n, kva + n, len - n, v, q);
      CopyInKeeps(s2, p, uva + n, kva + n, len - n, v);
      ReadEntries(s, s2, CopyIn(s2, p, uva + n, kva + n, len - n, v), p, uva, kva, len, n, v);
      WalkLeaks(s, s2, CopyIn(s2, p, uva + n, kva + n, len - n, v), p, uva, n, len, q);
    }
  }

  lemma ReadEntries(s: State, s2: State, s': State, p: nat, uva: nat, kva: nat, len: nat, n: nat, v: Variant)
    requires Shaped(s) && Shaped(s2) && Shaped(s') && UserPage(p, uva / PAGESIZE) && n <= len
    requires ReadStepped(s, s2, p, uva, kva, n, v) && ReadWalked(s2, s', p, uva + n, kva + n, len - n, v)
    ensures EntriesOutside(s, s2, p, uva / PAGESIZE, uva / PAGESIZE + 1)
    ensures EntriesOutside(s2, s', p, (uva + n) / PAGESIZE, EndPage(uva + n, len - n))
  {}

  // ----- any operation, any run

  lemma SplitLeaks(s: State, parent: nat, quota: nat, v: Variant, q: nat)
    requires Inv(s) && Sound(s.frames, v) && Shaped(s) && Enabled(s, Op.Split(parent, quota)) && 1 <= q < MAX_PROCS
    ensures Leaks(s, Step(s, Op.Split(parent, quota), v), q, |Dropped(s, Step(s, Op.Split(parent, quota), v), q)|)
  {
    hide Inv, Pte, FilledSlots, Charges, Lost;
    var s' := Step(s, Op.Split(parent, quota), v);
    InvAccounts(s, q);
    SplitKeepsTree(s.cs, parent, quota);
    SplitMoves(s.cs, parent, quota);
    NothingDropped(s, s', q);
    LostAfter(s, s', q, 0, 0, 0);
    SplitRooms(s.cs, parent, quota, q);
  }

  lemma SplitRooms(cs: seq<Container>, parent: nat, quota: nat, q: nat)
    requires Tree(cs) && parent < MAX_PROCS && cs[parent].used && RoomForChild(cs, parent) && q < MAX_PROCS
    requires cs[parent].usage + quota <= cs[parent].quota && 0 <= cs[q].quota - cs[q].usage
    ensures var c := Quota.Split(cs, parent, quota)[q];
            && 0 <= c.quota - c.usage && (cs[q].used ==> c.used && c.quota - c.usage <= cs[q].quota - cs[q].usage)
            && (!c.used ==> c == cs[q])
  {
    SplitKeepsTree(cs, parent, quota);
  }

  /** Every operation but a free: what `q` loses is what its entries dropped, and at most one
      frame more, as it uses up its quota. */
  lemma StepLeaks(s: State, op: Op, v: Variant, q: nat)
    requires Inv(s) && Sound(s.frames, v) && Shaped(s) && Enabled(s, op) && !op.FreeTable? && 1 <= q < MAX_PROCS
    ensures Leaks(s, Step(s, op, v), q, |Dropped(s, Step(s, op, v), q)|)
  {
    hide Inv, Leaks, Dropped, AllocPage, UnmapPage, FreePageTable, WriteUser, CopyIn, WriteChunk, Pte;
    match op
    case Split(parent, quota) => SplitLeaks(s, parent, quota, v, q);
    case Alloc(p, vpn, perm) => AllocLeaksAny(s, p, vpn, perm, v, q);
    case Unmap(p, vpn) => UnmapLeaks(s, p, vpn, q);
    case CopyTo(p, va, data) => WriteUserLeaks(s, p, va, data, v, q);
    case CopyFrom(p, va, kva, len) => CopyInLeaks(s, p, va, kva, len, v, q);
    case Store(p, va, data) => UserStoreLeaks(s, p, va, data, q);
    case KernelStore(kva, data) => KernelStoreLeaks(s, kva, data, q);
  }

  lemma UserStoreLeaks(s: State, p: nat, va: nat, data: seq<byte>, q: nat)
    requires Inv(s) && Shaped(s) && UserPage(p, va / PAGESIZE) && va % PAGESIZE + |data| <= PAGESIZE
             && 1 <= q < MAX_PROCS
    ensures Leaks(s, WriteChunk(s, p, va, data), q, |Dropped(s, WriteChunk(s, p, va, data), q)|)
  {
    hide Inv, Pte, UserByte, Leaks, Dropped;
    WriteChunkEffect(s, p, va, data);
    NothingLost(s, WriteChunk(s, p, va, data), q);
  }

  lemma KernelStoreLeaks(s: State, kva: nat, data: seq<byte>, q: nat)
    requires Inv(s) && Shaped(s) && ReadBuffer(s, kva, |data|) && 1 <= q < MAX_PROCS
    ensures var s' := s.(mem := Blit(s.mem, kva, data)); Leaks(s, s', q, |Dropped(s, s', q)|)
  {
    hide Inv, Pte, UserByte, Leaks, Dropped;
    var s' := s.(mem := Blit(s.mem, kva, data));
    KernelWriteEffect(s, s', kva, |data|);
    NothingLost(s, s', q);
  }

  /** How many mappings of `q` the operations of a run drop. */
  ghost function RunDropped(s: State, ops: seq<Op>, v: Variant, q: int): nat
    requires Shaped(s) && Called(s, ops, v)
    decreases |ops|
  {
    if ops == [] then 0
    else |Dropped(s, Step(s, ops[0], v), q)| + RunDropped(Step(s, ops[0], v), ops[1..], v, q)
  }

  /** The leak of any run without frees, exactly up to one frame: each dropped mapping is a
      frame lost, and one more can go, when the quota is used up. */
  lemma {:induction false} RunLeaks(s: State, ops: seq<Op>, v: Variant, q: nat)
    requires Inv(s) && Legal(s, ops, v) && Sound(s.frames, v) && NoFrees(ops) && 1 <= q < MAX_PROCS
    ensures Leaks(s, Run(s, ops, v), q, RunDropped(s, ops, v, q))
    decreases |ops|
  {
    hide Inv, Step, Enabled, Leaks, Dropped;
    InvShaped(s);
    if ops == [] {
      NothingLost(s, s, q);
    } else {
      RunUnfold(s, ops, v);
      var s1 := Step(s, ops[0], v);
      StepLeaks(s, ops[0], v, q);
      assert forall i :: 0 <= i < |ops[1..]| ==> ops[1..][i] == ops[i + 1];
      RunLeaks(s1, ops[1..], v, q);
      LeaksThen(s, s1, Run(s, ops, v), q, |Dropped(s, s1, q)|, RunDropped(s1, ops[1..], v, q));
    }
  }

  // ----- runs that drop nothing

  /** Every mapped page is present, as all callers of AllocPage ask for. */
  ghost predicate AllPresent(s: State)
    requires Shaped(s)
  {
    forall q, x :: UserPage(q, x) && Pte(s.dirs, s.mem, q, x) != 0 ==> Pte(s.dirs, s.mem, q, x) % 2 == PTE_P
  }

  /** AllocPage as its comment promises it is called, for a page with no mapping; nothing is
      unmapped or freed. */
  ghost predicate QuietOp(s: State, op: Op)
    requires Shaped(s) && Enabled(s, op)
  {
    match op
    case Alloc(p, vpn, perm) => Pte(s.dirs, s.mem, p, vpn) == 0 && perm % 2 == PTE_P
    case Unmap(_, _) => false
    case FreeTable(_, _) => false
    case _ => true
  }

  ghost predicate Quiet(s: State, ops: seq<Op>, v: Variant)
    requires Shaped(s) && Called(s, ops, v)
    decreases |ops|
  {
    ops == [] || (QuietOp(s, ops[0]) && Quiet(Step(s, ops[0], v), ops[1..], v))
  }

  /** Entries are only added, and present ones. */
  ghost predicate OnlyAdded(s: State, s': State)
    requires Shaped(s) && Shaped(s')
  {
    && AllPresent(s')
    && forall q, x :: UserPage(q, x) && Pte(s.dirs, s.mem, q, x) != 0 ==>
         Pte(s'.dirs, s'.mem, q, x) == Pte(s.dirs, s.mem, q, x)
  }

  lemma OnlyAddedThen(s: State, s1: State, s': State)
    requires Shaped(s) && Shaped(s1) && Shaped(s') && OnlyAdded(s, s1) && OnlyAdded(s1, s')
    ensures OnlyAdded(s, s')
  {
    hide Pte;
  }

  lemma SameAdded(s: State, s1: State, s2: State)
    requires Shaped(s) && Shaped(s1) && Shaped(s2) && OnlyAdded(s, s1)
    requires SameEntries(s1.dirs, s1.mem, s2.dirs, s2.mem)
    ensures OnlyAdded(s, s2)
  {
    hide Pte;
  }

  lemma AllocAdds(s: State, p: nat, vpn: nat, perm: nat, v: Variant)
    requires Inv(s) && Sound(s.frames, v) && UserPage(p, vpn) && perm < PAGESIZE && perm % 2 == PTE_P && Shaped(s)
    requires AllPresent(s) && Pte(s.dirs, s.mem, p, vpn) == 0
    ensures OnlyAdded(s, AllocPage(s, p, vpn, perm, v).0)
  {
    hide Inv, AllocPage, Core, NoNewLeak, LeakedOne, Charged, PageCost, Pte, ContentsKept;
    InvParts(s);
    AllocPageEffect(s, p, vpn, perm, v);
  }

  lemma EnsureAdds(s: State, p: nat, vpn: nat, v: Variant)
    requires Inv(s) && Sound(s.frames, v) && UserPage(p, vpn) && Shaped(s) && AllPresent(s)
    ensures OnlyAdded(s, EnsurePage(s, p, vpn, v))
  {
    hide Inv, AllocPage, Pte;
    if Absent(s, p, vpn) {
      AllocAdds(s, p, vpn, PTE_PWU, v);
    }
  }

  lemma WriteStepAdds(s: State, p: nat, va: nat, data: seq<byte>, v: Variant)
    requires Inv(s) && Sound(s.frames, v) && UserPage(p, va / PAGESIZE) && va % PAGESIZE + |data| <= PAGESIZE
    requires Shaped(s) && AllPresent(s)
    ensures OnlyAdded(s, WriteStep(s, p, va, data, v))
  {
    hide Inv, EnsurePage, UserByte, Ensured, Pte, OnlyAdded;
    var s1 := EnsurePage(s, p, va / PAGESIZE, v);
    EnsurePageEffect(s, p, va / PAGESIZE, v);
    EnsuredKernel(s, s1, p, va / PAGESIZE, v);
    EnsureAdds(s, p, va / PAGESIZE, v);
    WriteChunkEffect(s1, p, va, data);
    SameAdded(s, s1, WriteStep(s, p, va, data, v));
  }

  lemma ReadStepAdds(s: State, p: nat, uva: nat, kva: nat, n: nat, v: Variant)
    requires Inv(s) && Sound(s.frames, v) && UserPage(p, uva / PAGESIZE) && uva % PAGESIZE + n <= PAGESIZE
    requires Shaped(s) && AllPresent(s) && ReadBuffer(s, kva, n)
    ensures OnlyAdded(s, ReadStep(s, p, uva, kva, n, v))
  {
    hide Inv, EnsurePage, UserByte, Ensured, Pte, OnlyAdded, Got, CopyForward, PhysAddr, ReadStepped;
    var s1 := EnsurePage(s, p, uva / PAGESIZE, v);
    EnsureAdds(s, p, uva / PAGESIZE, v);
    ReadStepKeeps(s, p, uva, kva, n, v);
    SameAdded(s, s1, ReadStep(s, p, uva, kva, n, v));
  }

  lemma AddedPresent(s: State, s': State)
    requires Shaped(s) && Shaped(s') && OnlyAdded(s, s')
    ensures AllPresent(s')
  {}

  lemma {:induction false} WriteUserAdds(s: State, p: nat, va: nat, data: seq<byte>, v: Variant)
    requires Inv(s) && Sound(s.frames, v) && UserRange(p, va, |data|) && Shaped(s) && AllPresent(s)
    ensures OnlyAdded(s, WriteUser(s, p, va, data, v))
    decreases |data|
  {
    hide Inv, Pte, OnlyAdded, AllPresent, WriteStep, Stepped, EnsurePage, ChunkSize;
    if data == [] {
      NothingAdded(s);
    } else {
      WriteUserUnfold(s, p, va, data, v);
      var n := ChunkSize(va, |data|);
      var s2 := WriteStep(s, p, va, data[..n], v);
      WriteStepAdds(s, p, va, data[..n], v);
      AddedPresent(s, s2);
      WriteUserAdds(s2, p, va + n, data[n..], v);
      OnlyAddedThen(s, s2, WriteUser(s2, p, va + n, data[n..], v));
    }
  }

  lemma NothingAdded(s: State)
    requires Shaped(s) && AllPresent(s)
    ensures OnlyAdded(s, s)
  {}

  lemma {:induction false} CopyInAdds(s: State, p: nat, uva: nat, kva: nat, len: nat, v: Variant)
    requires Inv(s) && Sound(s.frames, v) && UserRange(p, uva, len) && ReadBuffer(s, kva, len) && Shaped(s)
             && AllPresent(s)
    ensures kva + len <= USERLO && OnlyAdded(s, CopyIn(s, p, uva, kva, len, v))
    decreases len
  {
    hide Inv, Pte, OnlyAdded, AllPresent, CopyIn, ReadStep, ReadStepped, EnsurePage, ChunkSize, ReadBuffer;
    BufferBounds(s, kva, len);
    if len == 0 {
      CopyInNone(s, p, uva, kva, v);
      NothingAdded(s);
    } else {
      CopyInUnfold(s, p, uva, kva, len, v);
      var n := ChunkSize(uva, len);
      var s2 := ReadStep(s, p, uva, kva, n, v);
      ShorterBuffer(s, kva, n, len);
      ReadStepAdds(s, p, uva, kva, n, v);
      AddedPresent(s, s2);
      CopyInAdds(s2, p, uva + n, kva + n, len - n, v);
      OnlyAddedThen(s, s2, CopyIn(s2, p, uva + n, kva + n, len - n, v));
    }
  }

  lemma UnmovedAdded(s: State, s': State)
    requires Shaped(s) && Shaped(s') && AllPresent(s) && SameEntries(s.dirs, s.mem, s'.dirs, s'.mem)
    ensures OnlyAdded(s, s')
  {
    hide Pte;
  }

  lemma QuietStep(s: State, op: Op, v: Variant)
    requires Inv(s) && Sound(s.frames, v) && Shaped(s) && Enabled(s, op) && QuietOp(s, op) && AllPresent(s)
    ensures OnlyAdded(s, Step(s, op, v))
  {
    hide Inv, OnlyAdded, AllPresent, AllocPage, UnmapPage, FreePageTable, WriteUser, CopyIn, WriteChunk, Pte, UserByte;
    match op
    case Split(parent, quota) => UnmovedAdded(s, Step(s, op, v));
    case Alloc(p, vpn, perm) => AllocAdds(s, p, vpn, perm, v);
    case CopyTo(p, va, data) => WriteUserAdds(s, p, va, data, v);
    case CopyFrom(p, va, kva, len) => CopyInAdds(s, p, va, kva, len, v);
    case Store(p, va, data) =>
      WriteChunkEffect(s, p, va, data);
      UnmovedAdded(s, Step(s, op, v));
    case KernelStore(kva, data) =>
      KernelWriteEffect(s, Step(s, op, v), kva, |data|);
      UnmovedAdded(s, Step(s, op, v));
  }

  lemma AddedDropsNothing(s: State, s': State, q: int)
    requires Shaped(s) && Shaped(s') && OnlyAdded(s, s')
    ensures Dropped(s, s', q) == {}
  {
    hide Pte;
  }

  lemma {:induction false} QuietDropsNothing(s: State, ops: seq<Op>, v: Variant, q: nat)
    requires Inv(s) && Legal(s, ops, v) && Sound(s.frames, v) && Quiet(s, ops, v) && AllPresent(s)
    ensures RunDropped(s, ops, v, q) == 0 && NoFrees(ops)
    decreases |ops|
  {
    hide Inv, Step, Enabled, Dropped, OnlyAdded, AllPresent;
    InvShaped(s);
    if ops != [] {
      RunUnfold(s, ops, v);
      var s1 := Step(s, ops[0], v);
      QuietStep(s, ops[0], v);
      AddedDropsNothing(s, s1, q);
      AddedPresent(s, s1);
      QuietDropsNothing(s1, ops[1..], v, q);
      assert forall i :: 0 < i < |ops| ==> ops[i] == ops[1..][i - 1];
      assert !ops[0].FreeTable?;
    }
  }

  /** In any run in which every AllocPage is for a page with no mapping and nothing is unmapped or
      freed, a process loses at most one frame, and only with its quota used up. */
  lemma RunLeakBound(s: State, ops: seq<Op>, v: Variant, q: nat)
    requires Inv(s) && Legal(s, ops, v) && Sound(s.frames, v) && Quiet(s, ops, v) && AllPresent(s) && 1 <= q < MAX_PROCS
    ensures var r := Run(s, ops, v);
            && Lost(s, q) <= Lost(r, q) <= Lost(s, q) + 1
            && (Lost(r, q) > Lost(s, q) ==> Room(r, q) == 0)
  {
    hide Inv, Step, Enabled, Lost, Dropped;
    InvShaped(s);
    QuietDropsNothing(s, ops, v, q);
    RunLeaks(s, ops, v, q);
  }
}
