/** The two-level tables refine a flat map: each word of each table is the entry of one
    (process, virtual page) and no two of them overlap, because frames have one role each. */
module PageTables {
  import opened Words
  import opened Frames
  import opened Quota
  import opened Machine

  ghost predicate InUserRange(roles: map<int, Role>) {
    forall f :: f in roles ==> USERLO_PI <= f < USERHI_PI
  }

  /** All entries but that of (`p`, `vpn`) agree. */
  ghost predicate OnlyEntryOf(dirs: seq<uint32>, mem: seq<byte>, dirs': seq<uint32>, mem': seq<byte>, p: int, vpn: int)
    requires |dirs| == |dirs'| == MAX_PROCS * NUM_TABLES && |mem| == |mem'| == WORD
  {
    forall q, x :: UserPage(q, x) && !(q == p && x == vpn) ==> Pte(dirs', mem', q, x) == Pte(dirs, mem, q, x)
  }

  ghost predicate SameEntries(dirs: seq<uint32>, mem: seq<byte>, dirs': seq<uint32>, mem': seq<byte>)
    requires |dirs| == |dirs'| == MAX_PROCS * NUM_TABLES && |mem| == |mem'| == WORD
  {
    forall q, x :: UserPage(q, x) ==> Pte(dirs', mem', q, x) == Pte(dirs, mem, q, x)
  }

  /** The bytes of page tables agree. */
  ghost predicate TablesKept(mem: seq<byte>, mem': seq<byte>, roles: map<int, Role>)
    requires |mem| == |mem'| == WORD
  {
    forall i :: 0 <= i < WORD && i / PAGESIZE in roles && roles[i / PAGESIZE].Table? ==> mem'[i] == mem[i]
  }

  /** Kernel memory and the bytes of frames that hold data agree. */
  ghost predicate ContentsKept(mem: seq<byte>, mem': seq<byte>, roles: map<int, Role>)
    requires |mem| == |mem'| == WORD
  {
    forall i :: 0 <= i < WORD && (i < USERLO || (i / PAGESIZE in roles && !roles[i / PAGESIZE].Table?))
      ==> mem'[i] == mem[i]
  }

  /** Where the table of a mapped page is, and that its entry lies inside it. */
  lemma EntryInTable(dirs: seq<uint32>, roles: map<int, Role>, q: int, x: int)
    requires |dirs| == MAX_PROCS * NUM_TABLES && TablesInv(dirs, roles)
    requires UserPage(q, x) && dirs[Slot(q, x / NUM_TABLES)] != 0
    ensures var t := FrameOf(dirs[Slot(q, x / NUM_TABLES)]);
            && UserSlot(q, x / NUM_TABLES) && t in roles && roles[t] == Table(q, x / NUM_TABLES)
            && t * PAGESIZE <= EntryAddr(dirs, q, x) <= t * PAGESIZE + PAGESIZE - 4
  {
    assert UserSlot(q, x / NUM_TABLES);
  }

  /** Two different pages have disjoint entries. */
  lemma EntriesDisjoint(dirs: seq<uint32>, roles: map<int, Role>, p: int, vpn: int, q: int, x: int)
    requires |dirs| == MAX_PROCS * NUM_TABLES && TablesInv(dirs, roles)
    requires UserPage(p, vpn) && dirs[Slot(p, vpn / NUM_TABLES)] != 0
    requires UserPage(q, x) && dirs[Slot(q, x / NUM_TABLES)] != 0
    requires !(q == p && x == vpn)
    ensures EntryAddr(dirs, p, vpn) + 4 <= EntryAddr(dirs, q, x) || EntryAddr(dirs, q, x) + 4 <= EntryAddr(dirs, p, vpn)
  {
    EntryInTable(dirs, roles, p, vpn);
    EntryInTable(dirs, roles, q, x);
    var t, u := FrameOf(dirs[Slot(p, vpn / NUM_TABLES)]), FrameOf(dirs[Slot(q, x / NUM_TABLES)]);
    if t == u {
      assert Table(p, vpn / NUM_TABLES) == Table(q, x / NUM_TABLES);
    }
  }

  /** Writing one entry changes the flat map at that key only. */
  lemma EntryWrite(dirs: seq<uint32>, mem: seq<byte>, roles: map<int, Role>, p: int, vpn: int, w: uint32)
    requires |dirs| == MAX_PROCS * NUM_TABLES && |mem| == WORD && TablesInv(dirs, roles) && InUserRange(roles)
    requires UserPage(p, vpn) && dirs[Slot(p, vpn / NUM_TABLES)] != 0
    ensures var mem' := SetWord(mem, EntryAddr(dirs, p, vpn), w);
            && Pte(dirs, mem', p, vpn) == w
            && OnlyEntryOf(dirs, mem, dirs, mem', p, vpn)
            && ContentsKept(mem, mem', roles)
  {
    var mem' := SetWord(mem, EntryAddr(dirs, p, vpn), w);
    forall q, x | UserPage(q, x) && !(q == p && x == vpn)
      ensures Pte(dirs, mem', q, x) == Pte(dirs, mem, q, x)
    {
      if dirs[Slot(q, x / NUM_TABLES)] != 0 {
        EntriesDisjoint(dirs, roles, p, vpn, q, x);
      }
    }
    EntryInTable(dirs, roles, p, vpn);
    EntryWriteKeeps(dirs, mem, roles, p, vpn, w);
  }

  lemma EntryWriteKeeps(dirs: seq<uint32>, mem: seq<byte>, roles: map<int, Role>, p: int, vpn: int, w: uint32)
    requires |dirs| == MAX_PROCS * NUM_TABLES && |mem| == WORD && TablesInv(dirs, roles) && InUserRange(roles)
    requires UserPage(p, vpn) && dirs[Slot(p, vpn / NUM_TABLES)] != 0
    ensures ContentsKept(mem, SetWord(mem, EntryAddr(dirs, p, vpn), w), roles)
  {
    EntryInTable(dirs, roles, p, vpn);
    var a := EntryAddr(dirs, p, vpn);
    var t := FrameOf(dirs[Slot(p, vpn / NUM_TABLES)]);
    forall i | a <= i < a + 4 ensures i / PAGESIZE == t {}
    assert dirs[Slot(p, vpn / NUM_TABLES)] == t * PAGESIZE + PTE_PWU;
  }

  /** A write that spares the tables spares the whole flat map. */
  lemma EntriesUntouched(dirs: seq<uint32>, mem: seq<byte>, mem': seq<byte>, roles: map<int, Role>)
    requires |dirs| == MAX_PROCS * NUM_TABLES && |mem| == |mem'| == WORD && TablesInv(dirs, roles)
    requires TablesKept(mem, mem', roles)
    ensures SameEntries(dirs, mem, dirs, mem')
  {
    forall q, x | UserPage(q, x) ensures Pte(dirs, mem', q, x) == Pte(dirs, mem, q, x) {
      if dirs[Slot(q, x / NUM_TABLES)] != 0 {
        EntryInTable(dirs, roles, q, x);
        var a := EntryAddr(dirs, q, x);
        forall i | a <= i < a + 4 ensures mem'[i] == mem[i] {
          assert i / PAGESIZE == FrameOf(dirs[Slot(q, x / NUM_TABLES)]);
        }
      }
    }
  }

  /** Hanging a cleared table into an empty slot leaves the flat map as it was. */
  lemma FreshTable(dirs: seq<uint32>, mem: seq<byte>, roles: map<int, Role>, p: int, vpn: int, page: int)
    requires |dirs| == MAX_PROCS * NUM_TABLES && |mem| == WORD && TablesInv(dirs, roles)
    requires UserPage(p, vpn) && dirs[Slot(p, vpn / NUM_TABLES)] == 0
    requires USERLO_PI <= page < USERHI_PI && page in roles && roles[page] == Unplaced(p)
    ensures var dirs' := dirs[Slot(p, vpn / NUM_TABLES) := page * PAGESIZE + PTE_PWU];
            var mem' := Fill(mem, page * PAGESIZE, PAGESIZE, 0);
            && TablesInv(dirs', roles[page := Table(p, vpn / NUM_TABLES)])
            && SameEntries(dirs, mem, dirs', mem')
  {
    var pde := vpn / NUM_TABLES;
    var dirs' := dirs[Slot(p, pde) := page * PAGESIZE + PTE_PWU];
    var mem' := Fill(mem, page * PAGESIZE, PAGESIZE, 0);
    assert FrameOf(dirs'[Slot(p, pde)]) == page;
    FreshTableInv(dirs, roles, p, pde, page);
    forall q, x | UserPage(q, x) ensures Pte(dirs', mem', q, x) == Pte(dirs, mem, q, x) {
      if q == p && x / NUM_TABLES == pde {
        assert Word(mem', EntryAddr(dirs', q, x)) == 0;
      } else {
        SlotsDiffer(q, x / NUM_TABLES, p, pde);
        if dirs[Slot(q, x / NUM_TABLES)] != 0 {
          EntryInTable(dirs, roles, q, x);
        }
      }
    }
  }

  lemma SlotsDiffer(q: int, x: int, p: int, pde: int)
    requires 0 <= x < NUM_TABLES && 0 <= pde < NUM_TABLES && !(q == p && x == pde)
    ensures Slot(q, x) != Slot(p, pde)
  {}

  lemma FreshTableInv(dirs: seq<uint32>, roles: map<int, Role>, p: int, pde: int, page: int)
    requires |dirs| == MAX_PROCS * NUM_TABLES && TablesInv(dirs, roles)
    requires UserSlot(p, pde) && dirs[Slot(p, pde)] == 0
    requires USERLO_PI <= page < USERHI_PI && page in roles && roles[page] == Unplaced(p)
    ensures TablesInv(dirs[Slot(p, pde) := page * PAGESIZE + PTE_PWU], roles[page := Table(p, pde)])
  {
    var dirs' := dirs[Slot(p, pde) := page * PAGESIZE + PTE_PWU];
    var roles' := roles[page := Table(p, pde)];
    forall q, j | UserSlot(q, j) && dirs'[Slot(q, j)] != 0
      ensures FrameOf(dirs'[Slot(q, j)]) in roles' && roles'[FrameOf(dirs'[Slot(q, j)])] == Table(q, j)
    {
      if !(q == p && j == pde) {
        SlotsDiffer(q, j, p, pde);
      }
    }
    forall f | f in roles' && roles'[f].Table?
      ensures UserSlot(roles'[f].owner, roles'[f].pde)
      ensures dirs'[Slot(roles'[f].owner, roles'[f].pde)] == f * PAGESIZE + PTE_PWU
    {
      if f != page {
        assert dirs[Slot(roles[f].owner, roles[f].pde)] != 0;
      }
    }
  }

  // ----- entries and data frames

  /** A cleared entry: its frame, if any, loses its mapping. */
  lemma PagesAfterClear(dirs: seq<uint32>, mem: seq<byte>, dirs': seq<uint32>, mem': seq<byte>, roles: map<int, Role>,
                        p: nat, vpn: nat)
    requires |dirs| == |dirs'| == MAX_PROCS * NUM_TABLES && |mem| == |mem'| == WORD
    requires PagesInv(dirs, mem, roles) && UserPage(p, vpn)
    requires OnlyEntryOf(dirs, mem, dirs', mem', p, vpn) && Pte(dirs', mem', p, vpn) == 0
    ensures PagesInv(dirs', mem', DetachPage(roles, p, Pte(dirs, mem, p, vpn)))
  {
    var roles' := DetachPage(roles, p, Pte(dirs, mem, p, vpn));
    forall f | f in roles' && roles'[f].Data?
      ensures UserPage(roles'[f].owner, roles'[f].vpn)
      ensures FrameOf(Pte(dirs', mem', roles'[f].owner, roles'[f].vpn)) == f
    {
      assert roles[f] == roles'[f];
      if roles[f].owner == p && roles[f].vpn == vpn {
        assert FrameOf(Pte(dirs, mem, p, vpn)) == f;
      }
    }
  }

  /** A filled entry: the unplaced frame becomes the page's data. */
  lemma PagesAfterFill(dirs: seq<uint32>, mem: seq<byte>, dirs': seq<uint32>, mem': seq<byte>, roles: map<int, Role>,
                       p: nat, vpn: nat, page: int)
    requires |dirs| == |dirs'| == MAX_PROCS * NUM_TABLES && |mem| == |mem'| == WORD
    requires PagesInv(dirs, mem, roles) && UserPage(p, vpn)
    requires OnlyEntryOf(dirs, mem, dirs', mem', p, vpn) && FrameOf(Pte(dirs', mem', p, vpn)) == page != 0
    requires page in roles && roles[page] == Unplaced(p) && InUserRange(roles)
    ensures PagesInv(dirs', mem', DetachPage(roles, p, Pte(dirs, mem, p, vpn))[page := Data(p, vpn)])
  {
    var roles' := DetachPage(roles, p, Pte(dirs, mem, p, vpn))[page := Data(p, vpn)];
    forall f | f in roles' && roles'[f].Data?
      ensures UserPage(roles'[f].owner, roles'[f].vpn)
      ensures FrameOf(Pte(dirs', mem', roles'[f].owner, roles'[f].vpn)) == f
    {
      if f != page {
        assert roles[f] == roles'[f];
        assert !(roles[f].owner == p && roles[f].vpn == vpn);
      }
    }
  }

  lemma TablesAfterDetach(dirs: seq<uint32>, mem: seq<byte>, roles: map<int, Role>, p: nat, vpn: nat)
    requires |dirs| == MAX_PROCS * NUM_TABLES && |mem| == WORD
    requires TablesInv(dirs, roles) && PagesInv(dirs, mem, roles) && UserPage(p, vpn)
    ensures TablesInv(dirs, DetachPage(roles, p, Pte(dirs, mem, p, vpn)))
  {}

  lemma TablesAfterPlace(dirs: seq<uint32>, roles: map<int, Role>, page: int, r: Role)
    requires |dirs| == MAX_PROCS * NUM_TABLES && TablesInv(dirs, roles)
    requires !r.Table? && (page in roles ==> !roles[page].Table?)
    ensures TablesInv(dirs, roles[page := r])
  {}
}
