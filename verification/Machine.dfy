/** The memory subsystem as one value: the frame table, the quota tree, the page directories
    and physical memory, with every operation of src/mem_physical.c and src/mem_virtual.c as
    a function on it. Page tables are words inside `mem`. */
module Machine {
  import opened Words
  import opened Frames
  import opened Quota

  const NUM_TABLES: int := 1024
  const USERLO_PDIR: int := 256
  const USERHI_PDIR: int := 960
  const PTE_P: int := 1
  const PTE_W: int := 2
  const PTE_U: int := 4
  const PTE_G: int := 0x100
  const PTE_PWU: int := 7

  /** What an allocated user frame is used for. `Unplaced` frames were charged but never
      mapped; `Detached` frames lost their mapping and are still charged. */
  datatype Role =
    | Table(owner: int, pde: int)
    | Data(owner: int, vpn: int)
    | Unplaced(owner: int)
    | Detached(owner: int)

  /** `dirs` is pageDirEntries row by row, `identity` the address of pageDirIdentity. `roles`
      is a history variable: no operation's effect on the rest depends on it. */
  datatype State = State(frames: FrameTable, cs: seq<Container>, dirs: seq<uint32>, mem: seq<byte>,
                         identity: int, roles: map<int, Role>)

  ghost predicate Shaped(s: State) {
    && WellFormed(s.frames)
    && |s.cs| == MAX_PROCS
    && |s.dirs| == MAX_PROCS * NUM_TABLES
    && |s.mem| == WORD
    && s.identity % PAGESIZE == 0 && PAGESIZE <= s.identity <= USERLO - NUM_TABLES * PAGESIZE
  }

  predicate UserSlot(p: int, pde: int) { 1 <= p < MAX_PROCS && USERLO_PDIR <= pde < USERHI_PDIR }

  /** `vpn` is a virtual address divided by the page size. */
  predicate UserPage(p: int, vpn: int) { 1 <= p < MAX_PROCS && USERLO_PI <= vpn < USERHI_PI }

  predicate InTable(p: int, vpn: int) { 0 <= p < MAX_PROCS && 0 <= vpn < NUM_PAGES }

  function Slot(p: int, pde: int): int { p * NUM_TABLES + pde }

  function FrameOf(entry: uint32): nat { entry / PAGESIZE }

  // ----- page table entries

  function EntryAddr(dirs: seq<uint32>, p: int, vpn: int): (a: nat)
    requires |dirs| == MAX_PROCS * NUM_TABLES && InTable(p, vpn)
    ensures a + 4 <= WORD
  {
    FrameOf(dirs[Slot(p, vpn / NUM_TABLES)]) * PAGESIZE + vpn % NUM_TABLES * 4
  }

  /** GetPageTableEntryByVA. */
  function Pte(dirs: seq<uint32>, mem: seq<byte>, p: int, vpn: int): uint32
    requires |dirs| == MAX_PROCS * NUM_TABLES && |mem| == WORD && InTable(p, vpn)
  {
    if dirs[Slot(p, vpn / NUM_TABLES)] == 0 then 0 else Word(mem, EntryAddr(dirs, p, vpn))
  }

  // ----- mem_physical.c, second half

  function ContainerAlloc(s: State, p: nat, v: Variant): (r: (State, nat))
    requires Shaped(s) && p < MAX_PROCS
    ensures Shaped(r.0) && r.1 < NUM_PAGES
  {
    if s.cs[p].usage == s.cs[p].quota then (s, 0)
    else
      var (ft, page) := PageAlloc(s.frames, v);
      (s.(cs := Charge(s.cs, p, 1), frames := ft,
          roles := if page == 0 then s.roles else s.roles[page := Unplaced(p)]), page)
  }

  function ContainerFree(s: State, p: nat, page: nat): (r: State)
    requires Shaped(s) && p < MAX_PROCS && page < NUM_PAGES
    ensures Shaped(r)
  {
    if s.frames.info[page].taken then
      s.(frames := PageFree(s.frames, page),
         cs := if s.cs[p].usage > 0 then Charge(s.cs, p, -1) else s.cs,
         roles := s.roles - {page})
    else s
  }

  // ----- mem_virtual.c

  function AllocPageTable(s: State, p: nat, vpn: nat, v: Variant): (r: (State, nat))
    requires Shaped(s) && InTable(p, vpn)
    ensures Shaped(r.0) && r.1 < NUM_PAGES
  {
    var (s1, page) := ContainerAlloc(s, p, v);
    if page == 0 then (s1, 0) else (PlaceTable(s1, p, vpn, page), page)
  }

  /** SetPageDirEntry and the loop clearing the new table's 1024 entries. */
  function PlaceTable(s: State, p: nat, vpn: nat, page: nat): (r: State)
    requires Shaped(s) && InTable(p, vpn) && page < NUM_PAGES
    ensures Shaped(r)
  {
    s.(dirs := s.dirs[Slot(p, vpn / NUM_TABLES) := page * PAGESIZE + PTE_PWU],
       mem := Fill(s.mem, page * PAGESIZE, PAGESIZE, 0),
       roles := s.roles[page := Table(p, vpn / NUM_TABLES)])
  }

  /** FreePageTable. The frames its entries still name lose their mapping. */
  function FreePageTable(s: State, p: nat, vpn: nat): (r: State)
    requires Shaped(s) && InTable(p, vpn)
    ensures Shaped(r)
  {
    var pde := vpn / NUM_TABLES;
    var page := FrameOf(s.dirs[Slot(p, pde)]);
    ContainerFree(s.(dirs := s.dirs[Slot(p, pde) := 0], roles := DetachTable(s.roles, p, pde)), p, page)
  }

  function DetachTable(roles: map<int, Role>, p: nat, pde: nat): map<int, Role> {
    map f | f in roles :: if roles[f].Data? && roles[f].owner == p && roles[f].vpn / NUM_TABLES == pde
                          then Detached(p) else roles[f]
  }

  function DetachPage(roles: map<int, Role>, p: nat, pte: uint32): map<int, Role> {
    if pte != 0 && FrameOf(pte) in roles then roles[FrameOf(pte) := Detached(p)] else roles
  }

  /** SetPageTableEntry with `page * PAGESIZE + perm`. */
  function SetEntry(s: State, p: nat, vpn: nat, page: nat, perm: nat): (r: State)
    requires Shaped(s) && InTable(p, vpn) && page < NUM_PAGES && perm < PAGESIZE
    ensures Shaped(r)
  {
    s.(mem := SetWord(s.mem, EntryAddr(s.dirs, p, vpn), page * PAGESIZE + perm),
       roles := DetachPage(s.roles, p, Pte(s.dirs, s.mem, p, vpn))[page := Data(p, vpn)])
  }

  /** MapPage: the new state, the page-table frame, and whether it succeeded. */
  function MapPage(s: State, p: nat, vpn: nat, page: nat, perm: nat, v: Variant): (r: (State, nat, bool))
    requires Shaped(s) && InTable(p, vpn) && page < NUM_PAGES && perm < PAGESIZE
    ensures Shaped(r.0)
  {
    var pde := s.dirs[Slot(p, vpn / NUM_TABLES)];
    if pde != 0 then (SetEntry(s, p, vpn, page, perm), FrameOf(pde), true)
    else
      var (s1, table) := AllocPageTable(s, p, vpn, v);
      if table == 0 then (s1, 0, false) else (SetEntry(s1, p, vpn, page, perm), table, true)
  }

  /** UnmapPage: the new state and the old entry. */
  function UnmapPage(s: State, p: nat, vpn: nat): (r: (State, uint32))
    requires Shaped(s) && InTable(p, vpn)
    ensures Shaped(r.0)
  {
    var pte := Pte(s.dirs, s.mem, p, vpn);
    if pte == 0 then (s, 0)
    else (s.(mem := SetWord(s.mem, EntryAddr(s.dirs, p, vpn), 0),
             roles := DetachPage(s.roles, p, pte)), pte)
  }

  /** AllocPage: on success it returns the page-table frame, as MapPage does. */
  function AllocPage(s: State, p: nat, vpn: nat, perm: nat, v: Variant): (r: (State, nat, bool))
    requires Shaped(s) && InTable(p, vpn) && perm < PAGESIZE
    ensures Shaped(r.0)
  {
    var (s1, page) := ContainerAlloc(s, p, v);
    if page == 0 then (s1, 0, false)
    else
      var (s2, table, ok) := MapPage(s1, p, vpn, page, perm, v);
      if ok then (s2, table, true) else (s2, 0, false)
  }

  // ----- what a process sees

  datatype Option<+T> = None | Some(value: T)

  function PhysAddr(dirs: seq<uint32>, mem: seq<byte>, p: int, va: int): (a: nat)
    requires |dirs| == MAX_PROCS * NUM_TABLES && |mem| == WORD && InTable(p, va / PAGESIZE)
    ensures a % PAGESIZE == va % PAGESIZE && a + PAGESIZE - va % PAGESIZE <= WORD
  {
    FrameOf(Pte(dirs, mem, p, va / PAGESIZE)) * PAGESIZE + va % PAGESIZE
  }

  /** The byte process `p` sees at virtual address `va`, if a present page is mapped there. */
  function UserByte(s: State, p: int, va: int): Option<byte>
    requires Shaped(s) && InTable(p, va / PAGESIZE)
  {
    if Pte(s.dirs, s.mem, p, va / PAGESIZE) % 2 == PTE_P then Some(s.mem[PhysAddr(s.dirs, s.mem, p, va)])
    else None
  }

  // ----- the invariant

  /** Every allocated user frame has a role, and no other frame has. */
  ghost predicate FramesInv(frames: FrameTable, roles: map<int, Role>) {
    && Ready(frames)
    && roles.Keys == UserPages(frames.info) - FreePages(frames.info)
  }

  ghost function Owned(roles: map<int, Role>, p: int): set<int> { set f | f in roles && roles[f].owner == p }

  ghost function Own(roles: map<int, Role>): (own: seq<nat>)
    ensures |own| == MAX_PROCS && forall p :: 0 <= p < MAX_PROCS ==> own[p] == |Owned(roles, p)|
  {
    seq(MAX_PROCS, p => |Owned(roles, p)|)
  }

  /** The quota tree accounts for exactly the frames that have a role. */
  ghost predicate BooksInv(frames: FrameTable, cs: seq<Container>, roles: map<int, Role>) {
    && Tree(cs) && Accounts(cs, Own(roles))
    && cs[0].quota == |UserPages(frames.info)|
    && (forall f :: f in roles ==> 1 <= roles[f].owner < MAX_PROCS)
  }

  /** Page directories and `Table` roles name each other. */
  ghost predicate TablesInv(dirs: seq<uint32>, roles: map<int, Role>)
    requires |dirs| == MAX_PROCS * NUM_TABLES
  {
    && (forall p, pde :: UserSlot(p, pde) && dirs[Slot(p, pde)] != 0 ==>
          && FrameOf(dirs[Slot(p, pde)]) in roles
          && roles[FrameOf(dirs[Slot(p, pde)])] == Table(p, pde))
    && (forall f :: f in roles && roles[f].Table? ==>
          && UserSlot(roles[f].owner, roles[f].pde)
          && dirs[Slot(roles[f].owner, roles[f].pde)] == f * PAGESIZE + PTE_PWU)
  }

  /** Page table entries and `Data` roles name each other. */
  ghost predicate PagesInv(dirs: seq<uint32>, mem: seq<byte>, roles: map<int, Role>)
    requires |dirs| == MAX_PROCS * NUM_TABLES && |mem| == WORD
  {
    && (forall p, vpn :: UserPage(p, vpn) && Pte(dirs, mem, p, vpn) != 0 ==>
          && FrameOf(Pte(dirs, mem, p, vpn)) in roles
          && roles[FrameOf(Pte(dirs, mem, p, vpn))] == Data(p, vpn))
    && (forall f :: f in roles && roles[f].Data? ==>
          && UserPage(roles[f].owner, roles[f].vpn)
          && FrameOf(Pte(dirs, mem, roles[f].owner, roles[f].vpn)) == f)
  }

  function IdentityPerm(pde: int): int {
    if USERLO_PDIR <= pde < USERHI_PDIR then PTE_P + PTE_W else PTE_P + PTE_W + PTE_G
  }

  /** Process 0 everywhere, and every process outside the user range, see physical memory. */
  ghost predicate IdentityInv(s: State)
    requires Shaped(s)
  {
    && (forall p, pde :: 0 <= p < MAX_PROCS && 0 <= pde < NUM_TABLES && !UserSlot(p, pde) ==>
          s.dirs[Slot(p, pde)] == s.identity + pde * PAGESIZE + PTE_PWU)
    && (forall page :: 0 <= page < NUM_PAGES ==>
          Word(s.mem, s.identity + page * 4) == page * PAGESIZE + IdentityPerm(page / NUM_TABLES))
  }

  ghost predicate Inv(s: State) {
    && Shaped(s)
    && FramesInv(s.frames, s.roles)
    && BooksInv(s.frames, s.cs, s.roles)
    && TablesInv(s.dirs, s.roles)
    && PagesInv(s.dirs, s.mem, s.roles)
    && IdentityInv(s)
  }
}
