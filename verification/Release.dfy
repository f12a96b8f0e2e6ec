/** UnmapPage and FreePageTable: what they undo, and what the allocator as coded then breaks. */
module Release {
  import opened Words
  import opened Frames
  import opened Quota
  import opened Machine
  import opened Books
  import opened PageTables
  import opened Ownership
  import opened UserMemory
  import opened UserWrite

  // ----- UnmapPage

  ghost predicate Unmapped(s: State, s': State, p: nat, vpn: nat)
    requires Shaped(s) && Shaped(s') && UserPage(p, vpn)
  {
    && Pte(s'.dirs, s'.mem, p, vpn) == 0
    && OnlyEntryOf(s.dirs, s.mem, s'.dirs, s'.mem, p, vpn)
    && ContentsKept(s.mem, s'.mem, s.roles)
    && s'.dirs == s.dirs && s'.cs == s.cs && s'.frames == s.frames && s'.identity == s.identity
    && NoNewLeak(s.roles, s'.roles)
  }

  lemma UnmapMap(s: State, p: nat, vpn: nat)
    requires Core(s) && UserPage(p, vpn)
    ensures Unmapped(s, UnmapPage(s, p, vpn).0, p, vpn)
  {
    RolesInUserRange(s);
    if Pte(s.dirs, s.mem, p, vpn) != 0 {
      EntryWrite(s.dirs, s.mem, s.roles, p, vpn, 0);
    }
  }

  lemma UnmapRoles(s: State, p: nat, vpn: nat)
    requires Core(s) && UserPage(p, vpn)
    ensures var s' := UnmapPage(s, p, vpn).0;
            FramesInv(s'.frames, s'.roles) && BooksInv(s'.frames, s'.cs, s'.roles) && TablesInv(s'.dirs, s'.roles)
  {
    var s' := UnmapPage(s, p, vpn).0;
    var pte := Pte(s.dirs, s.mem, p, vpn);
    if pte != 0 {
      assert FrameOf(pte) in s.roles && s.roles[FrameOf(pte)] == Data(p, vpn);
      assert s'.roles.Keys == s.roles.Keys;
      RoleChange(s.frames, s.cs, s.roles, s'.roles);
      TablesAfterDetach(s.dirs, s.mem, s.roles, p, vpn);
    }
  }

  /** UnmapPage returns the old entry and deletes exactly that key of the flat map; the frame
      it named stays charged. */
  lemma UnmapPageEffect(s: State, p: nat, vpn: nat)
    requires Inv(s) && UserPage(p, vpn)
    ensures var (s', pte) := UnmapPage(s, p, vpn);
            && Inv(s') && pte == Pte(s.dirs, s.mem, p, vpn) && Unmapped(s, s', p, vpn)
  {
    var s' := UnmapPage(s, p, vpn).0;
    UnmapMap(s, p, vpn);
    UnmapInv(s, s', p, vpn);
  }

  lemma UnmapInv(s: State, s': State, p: nat, vpn: nat)
    requires Inv(s) && UserPage(p, vpn) && s' == UnmapPage(s, p, vpn).0 && Unmapped(s, s', p, vpn)
    ensures Inv(s')
  {
    UnmapRoles(s, p, vpn);
    PagesAfterClear(s.dirs, s.mem, s'.dirs, s'.mem, s.roles, p, vpn);
    assert s'.roles == DetachPage(s.roles, p, Pte(s.dirs, s.mem, p, vpn));
    IdentityAfterSlot(s, s', p, vpn);
  }

  // ----- FreePageTable

  /** The slot is emptied: every entry of its table is gone, every other entry stays. */
  ghost predicate TableFreed(s: State, s': State, p: nat, pde: nat)
    requires Shaped(s) && Shaped(s') && p < MAX_PROCS
  {
    && (forall q, x :: UserPage(q, x) ==>
          Pte(s'.dirs, s'.mem, q, x) == if q == p && x / NUM_TABLES == pde then 0 else Pte(s.dirs, s.mem, q, x))
    && s'.mem == s.mem && s'.identity == s.identity
    && s'.cs == Charge(s.cs, p, -1)
  }

  lemma DetachTableRoles(s: State, p: nat, pde: nat)
    requires Core(s) && UserSlot(p, pde) && s.dirs[Slot(p, pde)] != 0
    ensures var roles' := DetachTable(s.roles, p, pde); var t := FrameOf(s.dirs[Slot(p, pde)]);
            && FramesInv(s.frames, roles') && BooksInv(s.frames, s.cs, roles')
            && t in roles' && roles'[t] == Table(p, pde) && s.frames.info[t].taken
  {
    var roles' := DetachTable(s.roles, p, pde);
    var t := FrameOf(s.dirs[Slot(p, pde)]);
    assert roles'.Keys == s.roles.Keys;
    RoleChange(s.frames, s.cs, s.roles, roles');
    assert t in s.roles.Keys;
  }

  lemma TablesAfterFree(dirs: seq<uint32>, roles: map<int, Role>, p: nat, pde: nat)
    requires |dirs| == MAX_PROCS * NUM_TABLES && TablesInv(dirs, roles)
    requires UserSlot(p, pde) && dirs[Slot(p, pde)] != 0
    ensures TablesInv(dirs[Slot(p, pde) := 0], DetachTable(roles, p, pde) - {FrameOf(dirs[Slot(p, pde)])})
  {
    var t := FrameOf(dirs[Slot(p, pde)]);
    var dirs' := dirs[Slot(p, pde) := 0];
    var roles' := DetachTable(roles, p, pde) - {t};
    assert roles[t] == Table(p, pde);
    forall q, j | UserSlot(q, j) && dirs'[Slot(q, j)] != 0
      ensures FrameOf(dirs'[Slot(q, j)]) in roles' && roles'[FrameOf(dirs'[Slot(q, j)])] == Table(q, j)
    {
      assert dirs'[Slot(q, j)] == dirs[Slot(q, j)];
    }
    forall f | f in roles' && roles'[f].Table?
      ensures UserSlot(roles'[f].owner, roles'[f].pde)
      ensures dirs'[Slot(roles'[f].owner, roles'[f].pde)] == f * PAGESIZE + PTE_PWU
    {
      assert roles[f] == roles'[f];
      SlotsDiffer(roles[f].owner, roles[f].pde, p, pde);
    }
  }

  lemma EntriesAfterFree(dirs: seq<uint32>, mem: seq<byte>, p: nat, pde: nat)
    requires |dirs| == MAX_PROCS * NUM_TABLES && |mem| == WORD && UserSlot(p, pde)
    ensures forall q, x :: UserPage(q, x) ==>
              Pte(dirs[Slot(p, pde) := 0], mem, q, x)
              == if q == p && x / NUM_TABLES == pde then 0 else Pte(dirs, mem, q, x)
  {
    forall q, x | UserPage(q, x)
      ensures Pte(dirs[Slot(p, pde) := 0], mem, q, x)
              == if q == p && x / NUM_TABLES == pde then 0 else Pte(dirs, mem, q, x)
    {
      if !(q == p && x / NUM_TABLES == pde) {
        SlotsDiffer(q, x / NUM_TABLES, p, pde);
      }
    }
  }

  lemma PagesAfterFree(dirs: seq<uint32>, mem: seq<byte>, dirs': seq<uint32>, roles: map<int, Role>, p: nat, pde: nat,
                       t: int)
    requires |dirs| == |dirs'| == MAX_PROCS * NUM_TABLES && |mem| == WORD && PagesInv(dirs, mem, roles)
    requires forall q, x :: UserPage(q, x) ==>
               Pte(dirs', mem, q, x) == if q == p && x / NUM_TABLES == pde then 0 else Pte(dirs, mem, q, x)
    requires t in roles && roles[t].Table?
    ensures PagesInv(dirs', mem, DetachTable(roles, p, pde) - {t})
  {
    hide Pte;
    var roles' := DetachTable(roles, p, pde) - {t};
    forall q, x | UserPage(q, x) && Pte(dirs', mem, q, x) != 0
      ensures FrameOf(Pte(dirs', mem, q, x)) in roles' && roles'[FrameOf(Pte(dirs', mem, q, x))] == Data(q, x)
    {
      assert Pte(dirs', mem, q, x) == Pte(dirs, mem, q, x);
    }
    forall f | f in roles' && roles'[f].Data?
      ensures UserPage(roles'[f].owner, roles'[f].vpn)
      ensures FrameOf(Pte(dirs', mem, roles'[f].owner, roles'[f].vpn)) == f
    {
      assert roles[f] == roles'[f];
    }
  }

  /** FreePageTable gives the table's frame back to its owner's quota and to the free pages. */
  lemma FreePageTableEffect(s: State, p: nat, vpn: nat)
    requires Inv(s) && UserPage(p, vpn) && s.dirs[Slot(p, vpn / NUM_TABLES)] != 0
    ensures var s' := FreePageTable(s, p, vpn);
            Inv(s') && TableFreed(s, s', p, vpn / NUM_TABLES)
  {
    var pde := vpn / NUM_TABLES;
    var t := FrameOf(s.dirs[Slot(p, pde)]);
    var cleared := s.(dirs := s.dirs[Slot(p, pde) := 0], roles := DetachTable(s.roles, p, pde));
    assert FreePageTable(s, p, vpn) == ContainerFree(cleared, p, t);
    DetachTableRoles(s, p, pde);
    ContainerFreeEffect(cleared, t);
    FreeInv(s, ContainerFree(cleared, p, t), p, vpn, t);
  }

  lemma FreeInv(s: State, s': State, p: nat, vpn: nat, t: nat)
    requires Inv(s) && UserPage(p, vpn) && s.dirs[Slot(p, vpn / NUM_TABLES)] != 0
             && t == FrameOf(s.dirs[Slot(p, vpn / NUM_TABLES)])
    requires Shaped(s') && FramesInv(s'.frames, s'.roles) && BooksInv(s'.frames, s'.cs, s'.roles)
    requires s'.dirs == s.dirs[Slot(p, vpn / NUM_TABLES) := 0] && s'.mem == s.mem && s'.identity == s.identity
    requires s'.roles == DetachTable(s.roles, p, vpn / NUM_TABLES) - {t} && s'.cs == Charge(s.cs, p, -1)
    ensures Inv(s') && TableFreed(s, s', p, vpn / NUM_TABLES)
  {
    hide FramesInv, BooksInv;
    var pde := vpn / NUM_TABLES;
    EntriesAfterFree(s.dirs, s.mem, p, pde);
    EntryInTableFrame(s, p, pde);
    TablesAfterFree(s.dirs, s.roles, p, pde);
    PagesAfterFree(s.dirs, s.mem, s'.dirs, s.roles, p, pde, t);
    IdentityAfterFree(s, s', p, pde);
  }

  lemma EntryInTableFrame(s: State, p: nat, pde: nat)
    requires Core(s) && UserSlot(p, pde) && s.dirs[Slot(p, pde)] != 0
    ensures FrameOf(s.dirs[Slot(p, pde)]) in s.roles && s.roles[FrameOf(s.dirs[Slot(p, pde)])] == Table(p, pde)
  {}

  lemma IdentityAfterFree(s: State, s': State, p: nat, pde: nat)
    requires Shaped(s) && Shaped(s') && UserSlot(p, pde) && IdentityInv(s)
    requires s'.dirs == s.dirs[Slot(p, pde) := 0] && s'.mem == s.mem && s'.identity == s.identity
    ensures IdentityInv(s')
  {
    forall q, j | 0 <= q < MAX_PROCS && 0 <= j < NUM_TABLES && !UserSlot(q, j)
      ensures s'.dirs[Slot(q, j)] == s.dirs[Slot(q, j)]
    {
      SlotsDiffer(q, j, p, pde);
    }
  }

  /** After a free, the allocator as coded breaks ownership: within quota, an allocation keeps
      every frame's role exact if and only if no freed page is remembered. */
  lemma AllocKeepsOwnershipIff(s: State, p: nat)
    requires Core(s) && 1 <= p < MAX_PROCS && Room(s, p) > 0
    ensures var s' := ContainerAlloc(s, p, AsCoded).0;
            FramesInv(s'.frames, s'.roles) <==> s.frames.lastFreed == -1
  {
    if s.frames.lastFreed == -1 {
      ContainerAllocEffect(s, p, AsCoded);
    } else {
      var (s', page) := ContainerAlloc(s, p, AsCoded);
      assert page == s.frames.lastFreed && page in s'.roles.Keys;
      assert page in FreePages(s'.frames.info);
    }
  }
}
