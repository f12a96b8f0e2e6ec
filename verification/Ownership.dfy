/** Ownership: every operation on page tables keeps the invariant, changes the flat map at
    one key at most, leaves the bytes of mapped frames alone, and charges exactly. */
module Ownership {
  import opened Words
  import opened Frames
  import opened Quota
  import opened Machine
  import opened Books
  import opened PageTables

  lemma RolesInUserRange(s: State)
    requires FramesInv(s.frames, s.roles)
    ensures InUserRange(s.roles)
  {
    forall f | f in s.roles ensures USERLO_PI <= f < USERHI_PI {
      assert f in s.roles.Keys;
    }
  }

  /** The shared identity tables survive whatever leaves kernel memory and kernel slots alone. */
  lemma IdentityKept(s: State, s': State)
    requires Shaped(s) && Shaped(s') && IdentityInv(s) && s'.identity == s.identity
    requires forall i :: 0 <= i < USERLO ==> s'.mem[i] == s.mem[i]
    requires forall p, pde :: 0 <= p < MAX_PROCS && 0 <= pde < NUM_TABLES && !UserSlot(p, pde) ==>
               s'.dirs[Slot(p, pde)] == s.dirs[Slot(p, pde)]
    ensures IdentityInv(s')
  {
    forall page | 0 <= page < NUM_PAGES
      ensures Word(s'.mem, s.identity + page * 4) == page * PAGESIZE + IdentityPerm(page / NUM_TABLES)
    {
      assert Word(s'.mem, s.identity + page * 4) == Word(s.mem, s.identity + page * 4);
    }
  }

  // ----- charging

  /** What AllocPage charges for a page: its frame, and a table if the slot is empty. */
  function PageCost(dirs: seq<uint32>, p: int, vpn: int): (c: int)
    requires |dirs| == MAX_PROCS * NUM_TABLES && InTable(p, vpn)
    ensures 1 <= c <= 2
  {
    if dirs[Slot(p, vpn / NUM_TABLES)] == 0 then 2 else 1
  }

  function Room(s: State, p: int): int
    requires 0 <= p < |s.cs|
  {
    s.cs[p].quota - s.cs[p].usage
  }

  /** Only `p`'s usage differs, by `units`. */
  ghost predicate Charged(cs: seq<Container>, cs': seq<Container>, p: nat, units: int)
    requires p < |cs|
  {
    cs' == Charge(cs, p, units)
  }

  lemma ChargedSteps(cs: seq<Container>, cs1: seq<Container>, cs2: seq<Container>, p: nat, a: int, b: int)
    requires p < |cs| && p < |cs1|
    requires Charged(cs, cs1, p, a) && Charged(cs1, cs2, p, b)
    ensures Charged(cs, cs2, p, a + b)
  {
    ChargeTwice(cs, p, a, b);
  }

  lemma ChargedNone(cs: seq<Container>, p: nat)
    requires p < |cs|
    ensures Charged(cs, cs, p, 0)
  {
    ChargeTwice(cs, p, 0, 0);
  }

  // ----- the steps of AllocPage

  /** The parts of the invariant that an allocation moves through one step at a time. */
  ghost predicate Core(s: State) {
    && Shaped(s)
    && FramesInv(s.frames, s.roles)
    && BooksInv(s.frames, s.cs, s.roles)
    && TablesInv(s.dirs, s.roles)
    && PagesInv(s.dirs, s.mem, s.roles)
  }

  /** A newly charged frame is known to no table and no entry. */
  lemma ContainerAllocCore(s: State, p: nat, v: Variant)
    requires Core(s) && 1 <= p < MAX_PROCS && Sound(s.frames, v)
    ensures Core(ContainerAlloc(s, p, v).0)
  {
    ContainerAllocEffect(s, p, v);
    var (s', page) := ContainerAlloc(s, p, v);
    if page != 0 {
      UnplacedAdded(s.dirs, s.mem, s.roles, p, page);
    }
  }

  lemma UnplacedAdded(dirs: seq<uint32>, mem: seq<byte>, roles: map<int, Role>, p: nat, page: nat)
    requires |dirs| == MAX_PROCS * NUM_TABLES && |mem| == WORD
    requires TablesInv(dirs, roles) && PagesInv(dirs, mem, roles) && page !in roles
    ensures TablesInv(dirs, roles[page := Unplaced(p)]) && PagesInv(dirs, mem, roles[page := Unplaced(p)])
  {}

  lemma AllocPageTableMap(s: State, p: nat, vpn: nat, page: nat)
    requires Core(s) && UserPage(p, vpn)
    requires s.dirs[Slot(p, vpn / NUM_TABLES)] == 0
    requires page in s.roles && s.roles[page] == Unplaced(p) && USERLO_PI <= page < USERHI_PI
    ensures Core(PlaceTable(s, p, vpn, page))
    ensures SameEntries(s.dirs, s.mem, PlaceTable(s, p, vpn, page).dirs, PlaceTable(s, p, vpn, page).mem)
  {
    var s' := PlaceTable(s, p, vpn, page);
    assert TablesInv(s'.dirs, s'.roles) && SameEntries(s.dirs, s.mem, s'.dirs, s'.mem) by {
      FreshTable(s.dirs, s.mem, s.roles, p, vpn, page);
    }
    assert FramesInv(s'.frames, s'.roles) && BooksInv(s'.frames, s'.cs, s'.roles) by {
      assert s'.roles.Keys == s.roles.Keys;
      RoleChange(s.frames, s.cs, s.roles, s'.roles);
    }
    assert PagesInv(s'.dirs, s'.mem, s'.roles) by {
      TablePages(s, s', p, vpn, page);
    }
  }

  /** What a successful ContainerAlloc did: `page` is new and charged to `p`. */
  ghost predicate Granted(s: State, s1: State, p: nat, page: nat)
    requires Shaped(s) && Shaped(s1) && p < MAX_PROCS
  {
    && USERLO_PI <= page < USERHI_PI && page !in s.roles
    && s1.roles == s.roles[page := Unplaced(p)]
    && Charged(s.cs, s1.cs, p, 1)
    && s1.dirs == s.dirs && s1.mem == s.mem && s1.identity == s.identity
  }

  lemma ContainerAllocGranted(s: State, p: nat, v: Variant)
    requires Core(s) && 1 <= p < MAX_PROCS && Sound(s.frames, v)
    ensures var (s1, page) := ContainerAlloc(s, p, v);
            && Core(s1) && Sound(s1.frames, v)
            && (page == 0 <==> Room(s, p) == 0)
            && (if page == 0 then s1 == s else Granted(s, s1, p, page))
  {
    ContainerAllocCore(s, p, v);
    ContainerAllocEffect(s, p, v);
  }

  /** What a successful AllocPageTable did: an empty table in an empty slot, one frame charged,
      no entry of the flat map changed. */
  ghost predicate TableAdded(s: State, t: State, p: nat, vpn: nat, table: nat)
    requires Shaped(s) && Shaped(t) && UserPage(p, vpn)
  {
    && table < NUM_PAGES
    && table !in s.roles && t.roles == s.roles[table := Table(p, vpn / NUM_TABLES)]
    && t.dirs == s.dirs[Slot(p, vpn / NUM_TABLES) := table * PAGESIZE + PTE_PWU]
    && ContentsKept(s.mem, t.mem, s.roles)
    && SameEntries(s.dirs, s.mem, t.dirs, t.mem)
    && t.identity == s.identity
  }

  lemma TablePlaced(s: State, s1: State, p: nat, vpn: nat, table: nat)
    requires Shaped(s) && Shaped(s1) && UserPage(p, vpn) && InUserRange(s.roles)
    requires Granted(s, s1, p, table)
    requires SameEntries(s1.dirs, s1.mem, PlaceTable(s1, p, vpn, table).dirs, PlaceTable(s1, p, vpn, table).mem)
    ensures TableAdded(s, PlaceTable(s1, p, vpn, table), p, vpn, table)
    ensures Charged(s.cs, PlaceTable(s1, p, vpn, table).cs, p, 1)
  {
    var mem' := PlaceTable(s1, p, vpn, table).mem;
    forall i | 0 <= i < WORD && (i < USERLO || (i / PAGESIZE in s.roles && !s.roles[i / PAGESIZE].Table?))
      ensures mem'[i] == s.mem[i]
    {
      assert !(table * PAGESIZE <= i < table * PAGESIZE + PAGESIZE);
    }
    assert s1.roles[table := Table(p, vpn / NUM_TABLES)] == s.roles[table := Table(p, vpn / NUM_TABLES)];
  }

  /** AllocPageTable fails, changing nothing, exactly at the quota limit. */
  lemma AllocPageTableEffect(s: State, p: nat, vpn: nat, v: Variant)
    requires Core(s) && UserPage(p, vpn) && Sound(s.frames, v)
    requires s.dirs[Slot(p, vpn / NUM_TABLES)] == 0
    ensures var (t, table) := AllocPageTable(s, p, vpn, v);
            && Core(t) && Sound(t.frames, v)
            && (table == 0 <==> Room(s, p) == 0)
            && (if table == 0 then t == s else TableAdded(s, t, p, vpn, table) && Charged(s.cs, t.cs, p, 1))
  {
    RolesInUserRange(s);
    ContainerAllocGranted(s, p, v);
    var (s1, page) := ContainerAlloc(s, p, v);
    if page != 0 {
      AllocPageTableMap(s1, p, vpn, page);
      TablePlaced(s, s1, p, vpn, page);
    }
  }

  lemma RoleChange(frames: FrameTable, cs: seq<Container>, roles: map<int, Role>, roles': map<int, Role>)
    requires FramesInv(frames, roles) && BooksInv(frames, cs, roles)
    requires roles'.Keys == roles.Keys
    requires forall f :: f in roles ==> roles'[f].owner == roles[f].owner
    ensures FramesInv(frames, roles') && BooksInv(frames, cs, roles')
  {
    BooksSameOwners(frames, cs, roles, roles');
  }

  lemma TablePages(s: State, s': State, p: nat, vpn: nat, page: int)
    requires Core(s) && Shaped(s') && UserPage(p, vpn)
    requires page in s.roles && s.roles[page] == Unplaced(p)
    requires s'.roles == s.roles[page := Table(p, vpn / NUM_TABLES)]
    requires SameEntries(s.dirs, s.mem, s'.dirs, s'.mem)
    ensures PagesInv(s'.dirs, s'.mem, s'.roles)
  {}

  /** The part of SetPageTableEntry's effect that is about the flat map. */
  lemma SetEntryMap(s: State, p: nat, vpn: nat, page: nat, perm: nat)
    requires Shaped(s) && TablesInv(s.dirs, s.roles) && InUserRange(s.roles)
    requires UserPage(p, vpn) && page < NUM_PAGES && perm < PAGESIZE
    requires s.dirs[Slot(p, vpn / NUM_TABLES)] != 0
    ensures var s' := SetEntry(s, p, vpn, page, perm);
            && Pte(s'.dirs, s'.mem, p, vpn) == page * PAGESIZE + perm
            && OnlyEntryOf(s.dirs, s.mem, s'.dirs, s'.mem, p, vpn)
            && ContentsKept(s.mem, s'.mem, s.roles)
  {
    EntryWrite(s.dirs, s.mem, s.roles, p, vpn, page * PAGESIZE + perm);
  }

  lemma SetEntryTables(s: State, p: nat, vpn: nat, page: nat, perm: nat)
    requires Shaped(s) && TablesInv(s.dirs, s.roles) && PagesInv(s.dirs, s.mem, s.roles)
    requires UserPage(p, vpn) && page < NUM_PAGES && perm < PAGESIZE
    requires page in s.roles && s.roles[page] == Unplaced(p)
    ensures TablesInv(s.dirs, SetEntry(s, p, vpn, page, perm).roles)
  {
    var before := Pte(s.dirs, s.mem, p, vpn);
    TablesAfterDetach(s.dirs, s.mem, s.roles, p, vpn);
    TablesAfterPlace(s.dirs, DetachPage(s.roles, p, before), page, Data(p, vpn));
  }

  lemma SetEntryBooks(s: State, p: nat, vpn: nat, page: nat, perm: nat)
    requires Shaped(s) && FramesInv(s.frames, s.roles) && BooksInv(s.frames, s.cs, s.roles)
    requires PagesInv(s.dirs, s.mem, s.roles)
    requires UserPage(p, vpn) && page < NUM_PAGES && perm < PAGESIZE
    requires page in s.roles && s.roles[page] == Unplaced(p)
    ensures FramesInv(s.frames, SetEntry(s, p, vpn, page, perm).roles)
    ensures BooksInv(s.frames, s.cs, SetEntry(s, p, vpn, page, perm).roles)
  {
    var s' := SetEntry(s, p, vpn, page, perm);
    var pte := Pte(s.dirs, s.mem, p, vpn);
    assert pte != 0 ==> FrameOf(pte) in s.roles && s.roles[FrameOf(pte)] == Data(p, vpn);
    assert s'.roles.Keys == s.roles.Keys;
    RoleChange(s.frames, s.cs, s.roles, s'.roles);
  }

  /** SetPageTableEntry with a table present and an unplaced frame. */
  lemma SetEntryEffect(s: State, p: nat, vpn: nat, page: nat, perm: nat)
    requires Core(s) && UserPage(p, vpn) && page < NUM_PAGES && perm < PAGESIZE
    requires s.dirs[Slot(p, vpn / NUM_TABLES)] != 0
    requires page in s.roles && s.roles[page] == Unplaced(p)
    ensures Core(SetEntry(s, p, vpn, page, perm))
  {
    var s' := SetEntry(s, p, vpn, page, perm);
    assert TablesInv(s'.dirs, s'.roles) by { SetEntryTables(s, p, vpn, page, perm); }
    assert FramesInv(s'.frames, s'.roles) && BooksInv(s'.frames, s'.cs, s'.roles) by {
      SetEntryBooks(s, p, vpn, page, perm);
    }
    assert PagesInv(s'.dirs, s'.mem, s'.roles) by {
      RolesInUserRange(s);
      SetEntryMap(s, p, vpn, page, perm);
      PagesAfterFill(s.dirs, s.mem, s'.dirs, s'.mem, s.roles, p, vpn, page);
    }
  }

  /** MapPage's success on an unplaced frame, seen from `s`: one entry set, a table more if
      the slot was empty, the bytes of mapped frames and of kernel memory untouched. */
  ghost predicate Mapped(s: State, s': State, p: nat, vpn: nat, page: nat, perm: nat)
    requires Shaped(s) && Shaped(s') && UserPage(p, vpn)
  {
    && Pte(s'.dirs, s'.mem, p, vpn) == page * PAGESIZE + perm
    && OnlyEntryOf(s.dirs, s.mem, s'.dirs, s'.mem, p, vpn)
    && ContentsKept(s.mem, s'.mem, s.roles)
    && OnlySlot(s.dirs, s'.dirs, p, vpn / NUM_TABLES)
    && s'.identity == s.identity
  }

  /** Slots other than (`p`, `pde`) agree, and that one ends up filled. */
  ghost predicate OnlySlot(dirs: seq<uint32>, dirs': seq<uint32>, p: nat, pde: nat)
    requires |dirs| == |dirs'| == MAX_PROCS * NUM_TABLES && p < MAX_PROCS && pde < NUM_TABLES
  {
    && (forall i :: 0 <= i < |dirs| && i != Slot(p, pde) ==> dirs'[i] == dirs[i])
    && dirs'[Slot(p, pde)] != 0
    && (dirs[Slot(p, pde)] != 0 ==> dirs'[Slot(p, pde)] == dirs[Slot(p, pde)])
  }

  /** No frame became unplaced. */
  ghost predicate NoNewLeak(roles: map<int, Role>, roles': map<int, Role>) {
    forall f :: f in roles' && roles'[f].Unplaced? ==> f in roles && roles[f] == roles'[f]
  }

  ghost predicate LeakedOne(roles: map<int, Role>, roles': map<int, Role>, p: int) {
    exists f :: f in roles' && f !in roles && roles' == roles[f := Unplaced(p)]
  }

  lemma RoomNonNegative(s: State, p: nat)
    requires BooksInv(s.frames, s.cs, s.roles) && p < MAX_PROCS
    ensures Room(s, p) >= 0
  {}

  lemma SetEntryMapped(s: State, p: nat, vpn: nat, page: nat, perm: nat)
    requires Core(s) && UserPage(p, vpn) && page < NUM_PAGES && perm < PAGESIZE
    requires s.dirs[Slot(p, vpn / NUM_TABLES)] != 0
    requires page in s.roles && s.roles[page] == Unplaced(p)
    ensures Mapped(s, SetEntry(s, p, vpn, page, perm), p, vpn, page, perm)
    ensures NoNewLeak(s.roles, SetEntry(s, p, vpn, page, perm).roles)
    ensures var s' := SetEntry(s, p, vpn, page, perm);
            && page in s'.roles && s'.roles[page] == Data(p, vpn)
            && s'.frames == s.frames && s'.cs == s.cs && s'.dirs == s.dirs
  {
    RolesInUserRange(s);
    SetEntryMap(s, p, vpn, page, perm);
  }

  lemma ContentsKeptTwice(mem: seq<byte>, mem1: seq<byte>, mem2: seq<byte>, roles: map<int, Role>,
                          roles1: map<int, Role>)
    requires |mem| == |mem1| == |mem2| == WORD
    requires ContentsKept(mem, mem1, roles) && ContentsKept(mem1, mem2, roles1)
    requires forall f :: f in roles && !roles[f].Table? ==> f in roles1 && !roles1[f].Table?
    ensures ContentsKept(mem, mem2, roles)
  {}

  /** Composing a fresh table with a new entry. */
  lemma MappedThroughTable(s: State, t: State, s': State, p: nat, vpn: nat, page: nat, table: nat, perm: nat)
    requires Shaped(s) && Shaped(t) && Shaped(s') && UserPage(p, vpn)
    requires TableAdded(s, t, p, vpn, table) && s.dirs[Slot(p, vpn / NUM_TABLES)] == 0
    requires Mapped(t, s', p, vpn, page, perm) && NoNewLeak(t.roles, s'.roles)
    ensures Mapped(s, s', p, vpn, page, perm) && NoNewLeak(s.roles, s'.roles)
  {
    ContentsKeptTwice(s.mem, t.mem, s'.mem, s.roles, t.roles);
  }

  /** MapPage of an unplaced frame fails, changing nothing, exactly when it needs a table and
      `p` is at its quota; else it sets exactly one entry of the flat map. */
  ghost predicate MapPageOutcome(s: State, p: nat, vpn: nat, page: nat, perm: nat, v: Variant)
    requires Shaped(s) && p < MAX_PROCS && UserPage(p, vpn) && page < NUM_PAGES && perm < PAGESIZE
  {
    var (s', table, ok) := MapPage(s, p, vpn, page, perm, v);
    && Core(s') && Sound(s'.frames, v)
    && (ok <==> Room(s, p) >= PageCost(s.dirs, p, vpn) - 1)
    && (if !ok then s' == s
        else && Mapped(s, s', p, vpn, page, perm) && NoNewLeak(s.roles, s'.roles)
             && page in s'.roles && s'.roles[page] == Data(p, vpn)
             && Charged(s.cs, s'.cs, p, PageCost(s.dirs, p, vpn) - 1)
             && table == FrameOf(s'.dirs[Slot(p, vpn / NUM_TABLES)]))
  }

  lemma MapPageInPlace(s: State, p: nat, vpn: nat, page: nat, perm: nat, v: Variant)
    requires Core(s) && UserPage(p, vpn) && page < NUM_PAGES && perm < PAGESIZE && Sound(s.frames, v)
    requires page in s.roles && s.roles[page] == Unplaced(p)
    requires s.dirs[Slot(p, vpn / NUM_TABLES)] != 0
    ensures MapPageOutcome(s, p, vpn, page, perm, v)
  {
    RoomNonNegative(s, p);
    ChargedNone(s.cs, p);
    hide Core, Mapped, NoNewLeak, SetEntry, AllocPageTable, Charged, TableAdded;
    SetEntryEffect(s, p, vpn, page, perm);
    SetEntryMapped(s, p, vpn, page, perm);
    assert PageCost(s.dirs, p, vpn) == 1;
    assert MapPage(s, p, vpn, page, perm, v)
        == (SetEntry(s, p, vpn, page, perm), FrameOf(s.dirs[Slot(p, vpn / NUM_TABLES)]), true);
  }

  lemma MapPageWithTable(s: State, p: nat, vpn: nat, page: nat, perm: nat, v: Variant)
    requires Core(s) && UserPage(p, vpn) && page < NUM_PAGES && perm < PAGESIZE && Sound(s.frames, v)
    requires page in s.roles && s.roles[page] == Unplaced(p)
    requires s.dirs[Slot(p, vpn / NUM_TABLES)] == 0
    ensures MapPageOutcome(s, p, vpn, page, perm, v)
  {
    RoomNonNegative(s, p);
    hide Core, Mapped, NoNewLeak, SetEntry, AllocPageTable, Charged, TableAdded;
    AllocPageTableEffect(s, p, vpn, v);
    var (t, table) := AllocPageTable(s, p, vpn, v);
    assert PageCost(s.dirs, p, vpn) == 2;
    if table == 0 {
      assert MapPage(s, p, vpn, page, perm, v) == (t, 0, false);
    } else {
      assert MapPage(s, p, vpn, page, perm, v) == (SetEntry(t, p, vpn, page, perm), table, true);
      TableAddedFacts(s, t, p, vpn, page, table);
      SetEntryEffect(t, p, vpn, page, perm);
      SetEntryMapped(t, p, vpn, page, perm);
      MappedThroughTable(s, t, SetEntry(t, p, vpn, page, perm), p, vpn, page, table, perm);
    }
  }

  lemma MapPageEffect(s: State, p: nat, vpn: nat, page: nat, perm: nat, v: Variant)
    requires Core(s) && UserPage(p, vpn) && page < NUM_PAGES && perm < PAGESIZE && Sound(s.frames, v)
    requires page in s.roles && s.roles[page] == Unplaced(p)
    ensures MapPageOutcome(s, p, vpn, page, perm, v)
  {
    hide MapPageOutcome;
    if s.dirs[Slot(p, vpn / NUM_TABLES)] != 0 {
      MapPageInPlace(s, p, vpn, page, perm, v);
    } else {
      MapPageWithTable(s, p, vpn, page, perm, v);
    }
  }

  lemma TableAddedFacts(s: State, t: State, p: nat, vpn: nat, page: nat, table: nat)
    requires Shaped(s) && Shaped(t) && UserPage(p, vpn)
    requires TableAdded(s, t, p, vpn, table) && page in s.roles
    ensures t.dirs[Slot(p, vpn / NUM_TABLES)] != 0 && FrameOf(t.dirs[Slot(p, vpn / NUM_TABLES)]) == table
    ensures page in t.roles && t.roles[page] == s.roles[page]
  {}

  // ----- AllocPage

  lemma GrantedMapped(s: State, s1: State, s': State, p: nat, vpn: nat, page: nat, perm: nat)
    requires Shaped(s) && Shaped(s1) && Shaped(s') && UserPage(p, vpn)
    requires Granted(s, s1, p, page) && Mapped(s1, s', p, vpn, page, perm)
    ensures Mapped(s, s', p, vpn, page, perm) && Pte(s'.dirs, s'.mem, p, vpn) == page * PAGESIZE + perm
  {
    ContentsKeptTwice(s.mem, s1.mem, s'.mem, s.roles, s1.roles);
  }

  /** AllocPage succeeds exactly when the quota covers the page and, if absent, its table.
      Success maps a frame nobody held and charges exactly that cost. Failure leaves memory
      and every mapping alone, but spends what was left of the quota: the one leaked frame. */
  ghost predicate AllocPageOutcome(s: State, p: nat, vpn: nat, perm: nat, v: Variant)
    requires Shaped(s) && p < MAX_PROCS && UserPage(p, vpn) && perm < PAGESIZE
  {
    var (s', table, ok) := AllocPage(s, p, vpn, perm, v);
    && Core(s') && Sound(s'.frames, v) && s'.identity == s.identity
    && (ok <==> Room(s, p) >= PageCost(s.dirs, p, vpn))
    && Charged(s.cs, s'.cs, p, if ok then PageCost(s.dirs, p, vpn) else Room(s, p))
    && (if ok then
          var page := FrameOf(Pte(s'.dirs, s'.mem, p, vpn));
          && USERLO_PI <= page < USERHI_PI && page !in s.roles
          && Mapped(s, s', p, vpn, page, perm)
          && NoNewLeak(s.roles, s'.roles)
          && table == FrameOf(s'.dirs[Slot(p, vpn / NUM_TABLES)])
        else
          && s'.dirs == s.dirs && s'.mem == s.mem
          && if Room(s, p) == 0 then s'.roles == s.roles
             else Room(s, p) == 1 && LeakedOne(s.roles, s'.roles, p))
  }

  lemma AllocPageEffect(s: State, p: nat, vpn: nat, perm: nat, v: Variant)
    requires Core(s) && UserPage(p, vpn) && perm < PAGESIZE && Sound(s.frames, v)
    ensures AllocPageOutcome(s, p, vpn, perm, v)
  {
    RoomNonNegative(s, p);
    ContainerAllocGranted(s, p, v);
    var (s1, page) := ContainerAlloc(s, p, v);
    if page == 0 {
      ChargedNone(s.cs, p);
    } else {
      MapPageEffect(s1, p, vpn, page, perm, v);
      if MapPage(s1, p, vpn, page, perm, v).2 {
        AllocPageSuccess(s, s1, p, vpn, page, perm, v);
      } else {
        AllocPageLeak(s, s1, p, vpn, page, perm, v);
      }
    }
  }

  /** From a granted frame to the outcome of the whole call, when MapPage succeeds. */
  lemma AllocPageSuccess(s: State, s1: State, p: nat, vpn: nat, page: nat, perm: nat, v: Variant)
    requires Shaped(s) && Shaped(s1) && UserPage(p, vpn) && page != 0 && perm < PAGESIZE
    requires ContainerAlloc(s, p, v) == (s1, page) && Granted(s, s1, p, page) && Core(s1) && Sound(s1.frames, v)
    requires MapPageOutcome(s1, p, vpn, page, perm, v) && MapPage(s1, p, vpn, page, perm, v).2
    ensures AllocPageOutcome(s, p, vpn, perm, v)
  {
    hide Core, Granted, Mapped, Charged, ContainerAlloc, MapPage, NoNewLeak;
    GrantedFacts(s, s1, p, page);
    var (s', table, ok) := MapPage(s1, p, vpn, page, perm, v);
    assert AllocPage(s, p, vpn, perm, v) == (s', table, true);
    NoLeakThroughGrant(s.roles, s1.roles, s'.roles, p, page);
    assert PageCost(s1.dirs, p, vpn) == PageCost(s.dirs, p, vpn);
    ChargedSteps(s.cs, s1.cs, s'.cs, p, 1, PageCost(s.dirs, p, vpn) - 1);
    GrantedMapped(s, s1, s', p, vpn, page, perm);
    assert FrameOf(page * PAGESIZE + perm) == page;
  }

  lemma GrantedFacts(s: State, s1: State, p: nat, page: nat)
    requires Shaped(s) && Shaped(s1) && p < MAX_PROCS && Granted(s, s1, p, page)
    ensures USERLO_PI <= page < USERHI_PI && page !in s.roles
    ensures s1.roles == s.roles[page := Unplaced(p)]
    ensures s1.dirs == s.dirs && s1.mem == s.mem && s1.identity == s.identity
    ensures Room(s1, p) == Room(s, p) - 1 && Charged(s.cs, s1.cs, p, 1)
  {}

  lemma NoLeakThroughGrant(roles: map<int, Role>, roles1: map<int, Role>, roles': map<int, Role>, p: nat, page: nat)
    requires roles1 == roles[page := Unplaced(p)] && NoNewLeak(roles1, roles')
    requires page in roles' && !roles'[page].Unplaced?
    ensures NoNewLeak(roles, roles')
  {}

  /** And when it fails: the granted frame stays charged and unplaced. */
  lemma AllocPageLeak(s: State, s1: State, p: nat, vpn: nat, page: nat, perm: nat, v: Variant)
    requires Shaped(s) && Shaped(s1) && UserPage(p, vpn) && page != 0 && perm < PAGESIZE
    requires ContainerAlloc(s, p, v) == (s1, page) && Granted(s, s1, p, page) && Core(s1) && Sound(s1.frames, v)
    requires MapPageOutcome(s1, p, vpn, page, perm, v) && !MapPage(s1, p, vpn, page, perm, v).2
    ensures AllocPageOutcome(s, p, vpn, perm, v)
  {
    assert Room(s1, p) == Room(s, p) - 1;
    RoomNonNegative(s1, p);
    assert AllocPage(s, p, vpn, perm, v) == (s1, 0, false);
    assert LeakedOne(s.roles, s1.roles, p);
  }
}
