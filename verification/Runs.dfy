/** Safety over whole runs: any sequence of splits, allocations, unmappings, table frees and
    memory accesses keeps the invariant, leaves uninvolved processes alone, and keeps
    subtrees within quota. */
module Runs {
  import opened Words
  import opened Frames
  import opened Quota
  import opened Machine
  import opened Books
  import opened PageTables
  import opened Ownership
  import opened UserMemory
  import opened UserWrite
  import opened Delivery
  import opened CopyLoops
  import opened CopyInLoop
  import opened Release

  /** `CopyTo` is PTCopyOut or PTMemSet of `data`, `CopyFrom` is PTCopyIn; `Store` is the process
      itself storing bytes inside one page, `KernelStore` the kernel storing into its memory. */
  datatype Op =
    | Split(parent: nat, quota: nat)
    | Alloc(p: nat, vpn: nat, perm: nat)
    | Unmap(p: nat, vpn: nat)
    | FreeTable(p: nat, vpn: nat)
    | CopyTo(p: nat, va: nat, data: seq<byte>)
    | CopyFrom(p: nat, va: nat, kva: nat, len: nat)
    | Store(p: nat, va: nat, data: seq<byte>)
    | KernelStore(kva: nat, data: seq<byte>)

  /** What each operation's callers owe it. */
  ghost predicate Enabled(s: State, op: Op)
    requires Shaped(s)
  {
    match op
    case Split(parent, quota) =>
      && parent < MAX_PROCS && s.cs[parent].used && RoomForChild(s.cs, parent)
      && s.cs[parent].usage + quota <= s.cs[parent].quota
    case Alloc(p, vpn, perm) => UserPage(p, vpn) && perm < PAGESIZE
    case Unmap(p, vpn) => UserPage(p, vpn)
    case FreeTable(p, vpn) => UserPage(p, vpn) && s.dirs[Slot(p, vpn / NUM_TABLES)] != 0
    case CopyTo(p, va, data) => UserRange(p, va, |data|)
    case CopyFrom(p, va, kva, len) => UserRange(p, va, len) && ReadBuffer(s, kva, len)
    case Store(p, va, data) =>
      UserPage(p, va / PAGESIZE) && !Absent(s, p, va / PAGESIZE) && va % PAGESIZE + |data| <= PAGESIZE
    case KernelStore(kva, data) => ReadBuffer(s, kva, |data|)
  }

  function Step(s: State, op: Op, v: Variant): (r: State)
    requires Shaped(s) && Enabled(s, op)
    ensures Shaped(r)
  {
    match op
    case Split(parent, quota) => s.(cs := Quota.Split(s.cs, parent, quota))
    case Alloc(p, vpn, perm) => AllocPage(s, p, vpn, perm, v).0
    case Unmap(p, vpn) => UnmapPage(s, p, vpn).0
    case FreeTable(p, vpn) => FreePageTable(s, p, vpn)
    case CopyTo(p, va, data) => WriteUser(s, p, va, data, v)
    case CopyFrom(p, va, kva, len) => CopyIn(s, p, va, kva, len, v)
    case Store(p, va, data) => WriteChunk(s, p, va, data)
    case KernelStore(kva, data) => s.(mem := Blit(s.mem, kva, data))
  }

  /** The process whose mappings an operation goes through, or 0 for none. */
  function Actor(op: Op): nat {
    match op
    case Split(_, _) => 0
    case KernelStore(_, _) => 0
    case Alloc(p, _, _) => p
    case Unmap(p, _) => p
    case FreeTable(p, _) => p
    case CopyTo(p, _, _) => p
    case CopyFrom(p, _, _, _) => p
    case Store(p, _, _) => p
  }

  // ----- one step

  /** `q` has the same entries and sees the same bytes. */
  ghost predicate SameFor(s: State, s': State, q: int)
    requires Shaped(s) && Shaped(s')
  {
    && (forall x :: UserPage(q, x) ==> Pte(s'.dirs, s'.mem, q, x) == Pte(s.dirs, s.mem, q, x))
    && (forall w :: UserPage(q, w / PAGESIZE) ==> UserByte(s', q, w) == UserByte(s, q, w))
  }

  lemma SameForAbsent(s: State, s': State, q: int)
    requires Shaped(s) && Shaped(s')
    requires forall x :: UserPage(q, x) ==> Pte(s'.dirs, s'.mem, q, x) == Pte(s.dirs, s.mem, q, x)
    requires forall w :: UserPage(q, w / PAGESIZE) && UserByte(s, q, w).Some? ==>
             UserByte(s', q, w) == UserByte(s, q, w)
    ensures SameFor(s, s', q)
  {
    forall w | UserPage(q, w / PAGESIZE) ensures UserByte(s', q, w) == UserByte(s, q, w) {
      SomeIsPresent(s, q, w);
      SomeIsPresent(s', q, w);
    }
  }

  /** What one step by `p` keeps: the invariant, and every other process's memory. */
  ghost predicate Isolated(s: State, s': State, p: int, v: Variant)
    requires Shaped(s) && Shaped(s')
  {
    && Inv(s') && Sound(s'.frames, v)
    && forall q :: 1 <= q < MAX_PROCS && q != p ==> SameFor(s, s', q)
  }

  lemma IsolatedFromParts(s: State, s': State, p: int, v: Variant)
    requires Shaped(s) && Shaped(s') && Inv(s') && Sound(s'.frames, v)
    requires forall q, x :: UserPage(q, x) && q != p ==> Pte(s'.dirs, s'.mem, q, x) == Pte(s.dirs, s.mem, q, x)
    requires forall q, w :: UserPage(q, w / PAGESIZE) && q != p && UserByte(s, q, w).Some? ==>
               UserByte(s', q, w) == UserByte(s, q, w)
    ensures Isolated(s, s', p, v)
  {
    hide Inv, Pte, UserByte, SameFor;
    forall q | 1 <= q < MAX_PROCS && q != p ensures SameFor(s, s', q) {
      SameForAbsent(s, s', q);
    }
  }

  lemma KeptBytesIsolated(s: State, s': State, p: int, v: Variant)
    requires Inv(s) && Inv(s') && Sound(s'.frames, v)
    requires forall q, x :: UserPage(q, x) && q != p ==> Pte(s'.dirs, s'.mem, q, x) == Pte(s.dirs, s.mem, q, x)
    requires ContentsKept(s.mem, s'.mem, s.roles)
    ensures Isolated(s, s', p, v)
  {
    hide Inv, Pte, UserByte, ContentsKept;
    InvShaped(s);
    InvShaped(s');
    forall q, w | UserPage(q, w / PAGESIZE) && q != p && UserByte(s, q, w).Some?
      ensures UserByte(s', q, w) == UserByte(s, q, w)
    {
      ByteKept(s, s', q, w);
    }
    IsolatedFromParts(s, s', p, v);
  }

  lemma SplitIsolated(s: State, parent: nat, quota: nat, v: Variant)
    requires Inv(s) && Sound(s.frames, v) && Enabled(s, Op.Split(parent, quota))
    ensures Isolated(s, Step(s, Op.Split(parent, quota), v), 0, v)
  {
    SplitKeepsTree(s.cs, parent, quota);
    SplitEffect(s, parent, quota);
    var s' := Step(s, Op.Split(parent, quota), v);
    SplitSame(s, s');
  }

  lemma SplitSame(s: State, s': State)
    requires Inv(s) && Shaped(s') && BooksInv(s.frames, s'.cs, s.roles) && s' == s.(cs := s'.cs)
    ensures Inv(s') && forall q :: SameFor(s, s', q)
  {}

  lemma AllocIsolated(s: State, p: nat, vpn: nat, perm: nat, v: Variant)
    requires Inv(s) && Sound(s.frames, v) && UserPage(p, vpn) && perm < PAGESIZE
    ensures Isolated(s, AllocPage(s, p, vpn, perm, v).0, p, v)
  {
    hide Inv, AllocPage, IdentityInv, FramesInv, BooksInv, TablesInv, PagesInv, Mapped, Pte;
    InvParts(s);
    AllocPageEffect(s, p, vpn, perm, v);
    var (s', table, ok) := AllocPage(s, p, vpn, perm, v);
    if ok {
      MappedParts(s, s', p, vpn, perm);
    } else {
      NothingMapped(s, s', p, vpn);
    }
    IdentityAfterSlot(s, s', p, vpn);
    InvParts(s');
    KeptBytesIsolated(s, s', p, v);
  }

  lemma UnmapIsolated(s: State, p: nat, vpn: nat, v: Variant)
    requires Inv(s) && Sound(s.frames, v) && UserPage(p, vpn)
    ensures Isolated(s, UnmapPage(s, p, vpn).0, p, v)
  {
    hide Inv, UnmapPage, Pte;
    InvShaped(s);
    UnmapPageEffect(s, p, vpn);
    KeptBytesIsolated(s, UnmapPage(s, p, vpn).0, p, v);
  }

  lemma FreeIsolated(s: State, p: nat, vpn: nat)
    requires Inv(s) && UserPage(p, vpn) && s.dirs[Slot(p, vpn / NUM_TABLES)] != 0
    ensures Isolated(s, FreePageTable(s, p, vpn), p, Corrected)
  {
    hide Inv, FreePageTable, Pte;
    InvShaped(s);
    FreePageTableEffect(s, p, vpn);
    KeptBytesIsolated(s, FreePageTable(s, p, vpn), p, Corrected);
  }

  lemma CopyToIsolated(s: State, p: nat, va: nat, data: seq<byte>, v: Variant)
    requires Inv(s) && Sound(s.frames, v) && UserRange(p, va, |data|)
    ensures Isolated(s, WriteUser(s, p, va, data, v), p, v)
  {
    hide Inv, WriteUser, Pte, UserByte, Isolated;
    WriteUserKeeps(s, p, va, data, v);
    IsolatedFromParts(s, WriteUser(s, p, va, data, v), p, v);
  }

  lemma CopyFromIsolated(s: State, p: nat, va: nat, kva: nat, len: nat, v: Variant)
    requires Inv(s) && Sound(s.frames, v) && UserRange(p, va, len) && ReadBuffer(s, kva, len)
    ensures Isolated(s, CopyIn(s, p, va, kva, len, v), p, v)
  {
    hide Inv, CopyIn, Pte, UserByte, Isolated;
    CopyInKeeps(s, p, va, kva, len, v);
    IsolatedFromParts(s, CopyIn(s, p, va, kva, len, v), p, v);
  }

  lemma StoreIsolated(s: State, p: nat, va: nat, data: seq<byte>, v: Variant)
    requires Inv(s) && Sound(s.frames, v) && UserPage(p, va / PAGESIZE) && va % PAGESIZE + |data| <= PAGESIZE
    ensures Isolated(s, WriteChunk(s, p, va, data), p, v)
  {
    hide Inv, Pte, UserByte, Isolated;
    InvShaped(s);
    WriteChunkEffect(s, p, va, data);
    IsolatedFromParts(s, WriteChunk(s, p, va, data), p, v);
  }

  lemma KernelStoreIsolated(s: State, kva: nat, data: seq<byte>, v: Variant)
    requires Inv(s) && Sound(s.frames, v) && ReadBuffer(s, kva, |data|)
    ensures Isolated(s, s.(mem := Blit(s.mem, kva, data)), 0, v)
  {
    hide Inv, Pte, UserByte, Isolated;
    InvShaped(s);
    var s' := s.(mem := Blit(s.mem, kva, data));
    KernelWriteEffect(s, s', kva, |data|);
    IsolatedFromParts(s, s', 0, v);
  }

  /** Ownership and isolation, one step: as coded for anything but a free, corrected for all. */
  lemma StepIsolated(s: State, op: Op, v: Variant)
    requires Inv(s) && Sound(s.frames, v) && Enabled(s, op) && (op.FreeTable? ==> v == Corrected)
    ensures Isolated(s, Step(s, op, v), Actor(op), v)
  {
    hide Inv, Isolated, AllocPage, UnmapPage, FreePageTable, WriteUser, CopyIn, WriteChunk;
    match op
    case Split(parent, quota) => SplitIsolated(s, parent, quota, v);
    case Alloc(p, vpn, perm) => AllocIsolated(s, p, vpn, perm, v);
    case Unmap(p, vpn) => UnmapIsolated(s, p, vpn, v);
    case FreeTable(p, vpn) => FreeIsolated(s, p, vpn);
    case CopyTo(p, va, data) => CopyToIsolated(s, p, va, data, v);
    case CopyFrom(p, va, kva, len) => CopyFromIsolated(s, p, va, kva, len, v);
    case Store(p, va, data) => StoreIsolated(s, p, va, data, v);
    case KernelStore(kva, data) => KernelStoreIsolated(s, kva, data, v);
  }

  // ----- runs

  /** Every operation is called as its callers must. */
  ghost predicate Called(s: State, ops: seq<Op>, v: Variant)
    requires Shaped(s)
    decreases |ops|
  {
    ops == [] || (Enabled(s, ops[0]) && Called(Step(s, ops[0], v), ops[1..], v))
  }

  ghost predicate NoFrees(ops: seq<Op>) { forall i :: 0 <= i < |ops| ==> !ops[i].FreeTable? }

  /** And as coded nothing is freed. */
  ghost predicate Legal(s: State, ops: seq<Op>, v: Variant)
    requires Shaped(s)
  {
    Called(s, ops, v) && (v == Corrected || NoFrees(ops))
  }

  ghost function Run(s: State, ops: seq<Op>, v: Variant): (r: State)
    requires Shaped(s) && Called(s, ops, v)
    ensures Shaped(r)
    decreases |ops|
  {
    if ops == [] then s else Run(Step(s, ops[0], v), ops[1..], v)
  }

  lemma RunUnfold(s: State, ops: seq<Op>, v: Variant)
    requires Inv(s) && Legal(s, ops, v) && ops != [] && Sound(s.frames, v)
    ensures Enabled(s, ops[0]) && (ops[0].FreeTable? ==> v == Corrected)
    ensures Legal(Step(s, ops[0], v), ops[1..], v)
    ensures Run(s, ops, v) == Run(Step(s, ops[0], v), ops[1..], v)
    ensures Inv(Step(s, ops[0], v)) && Sound(Step(s, ops[0], v).frames, v)
  {
    hide Inv, Step, Enabled;
    InvShaped(s);
    assert forall i :: 0 <= i < |ops[1..]| ==> ops[1..][i] == ops[i + 1];
    StepIsolated(s, ops[0], v);
  }

  /** Every reachable state satisfies the invariant: each allocated user frame has exactly one
      role, table and data frames never coincide, and the quota tree accounts for all of them. */
  lemma {:induction false} RunKeepsInv(s: State, ops: seq<Op>, v: Variant)
    requires Inv(s) && Legal(s, ops, v) && Sound(s.frames, v)
    ensures Inv(Run(s, ops, v)) && Sound(Run(s, ops, v).frames, v)
    decreases |ops|
  {
    hide Inv, Step, Enabled;
    InvShaped(s);
    if ops != [] {
      RunUnfold(s, ops, v);
      RunKeepsInv(Step(s, ops[0], v), ops[1..], v);
    }
  }

  lemma SameForTrans(s: State, s1: State, s2: State, q: int)
    requires Shaped(s) && Shaped(s1) && Shaped(s2) && SameFor(s, s1, q) && SameFor(s1, s2, q)
    ensures SameFor(s, s2, q)
  {
    hide Pte, UserByte;
  }

  ghost predicate Held(s: State, f: int) { 0 <= f < |s.frames.info| && s.frames.info[f] == PageInfo(true, User) }

  ghost predicate TablesDistinct(dirs: seq<uint32>)
    requires |dirs| == MAX_PROCS * NUM_TABLES
  {
    forall p, pde, q, j :: UserSlot(p, pde) && UserSlot(q, j) && !(p == q && pde == j) && dirs[Slot(p, pde)] != 0 ==>
      FrameOf(dirs[Slot(p, pde)]) != FrameOf(dirs[Slot(q, j)])
  }

  ghost predicate PagesDistinct(dirs: seq<uint32>, mem: seq<byte>)
    requires |dirs| == MAX_PROCS * NUM_TABLES && |mem| == WORD
  {
    && (forall p, x, q, y :: UserPage(p, x) && UserPage(q, y) && !(p == q && x == y) && Pte(dirs, mem, p, x) != 0 ==>
          FrameOf(Pte(dirs, mem, p, x)) != FrameOf(Pte(dirs, mem, q, y)))
    && (forall p, pde, q, y :: UserSlot(p, pde) && UserPage(q, y) && dirs[Slot(p, pde)] != 0 ==>
          FrameOf(dirs[Slot(p, pde)]) != FrameOf(Pte(dirs, mem, q, y)))
  }

  /** Read off directories, memory and frame table alone: page tables and mapped pages are
      allocated user frames, and no frame serves twice, within a process or across processes. */
  ghost predicate NoSharing(s: State)
    requires Shaped(s)
  {
    && (forall p, pde :: UserSlot(p, pde) && s.dirs[Slot(p, pde)] != 0 ==> Held(s, FrameOf(s.dirs[Slot(p, pde)])))
    && (forall p, x :: UserPage(p, x) && Pte(s.dirs, s.mem, p, x) != 0 ==> Held(s, FrameOf(Pte(s.dirs, s.mem, p, x))))
    && TablesDistinct(s.dirs) && PagesDistinct(s.dirs, s.mem)
  }

  lemma InvNoSharing(s: State)
    requires Inv(s)
    ensures NoSharing(s)
  {
    hide TablesDistinct, PagesDistinct;
    HeldRoles(s);
    TablesApart(s.dirs, s.roles);
    MappingsApart(s.dirs, s.mem, s.roles);
  }

  lemma HeldRoles(s: State)
    requires Shaped(s) && FramesInv(s.frames, s.roles)
    ensures forall f :: f in s.roles ==> f > 0 && Held(s, f)
  {
    forall f | f in s.roles ensures f > 0 && Held(s, f) {
      assert f in s.roles.Keys;
    }
  }

  lemma TablesApart(dirs: seq<uint32>, roles: map<int, Role>)
    requires |dirs| == MAX_PROCS * NUM_TABLES && TablesInv(dirs, roles)
    requires forall f :: f in roles ==> f > 0
    ensures TablesDistinct(dirs)
  {
    forall p, pde, q, j | UserSlot(p, pde) && UserSlot(q, j) && !(p == q && pde == j) && dirs[Slot(p, pde)] != 0
      ensures FrameOf(dirs[Slot(p, pde)]) != FrameOf(dirs[Slot(q, j)])
    {
      assert dirs[Slot(q, j)] != 0 ==> roles[FrameOf(dirs[Slot(q, j)])] == Table(q, j) != Table(p, pde);
    }
  }

  lemma MappingsApart(dirs: seq<uint32>, mem: seq<byte>, roles: map<int, Role>)
    requires |dirs| == MAX_PROCS * NUM_TABLES && |mem| == WORD
    requires TablesInv(dirs, roles) && PagesInv(dirs, mem, roles)
    requires forall f :: f in roles ==> f > 0
    ensures PagesDistinct(dirs, mem)
  {
    hide Pte;
    forall p, x, q, y | UserPage(p, x) && UserPage(q, y) && !(p == q && x == y) && Pte(dirs, mem, p, x) != 0
      ensures FrameOf(Pte(dirs, mem, p, x)) != FrameOf(Pte(dirs, mem, q, y))
    {
      assert Pte(dirs, mem, q, y) != 0 ==> roles[FrameOf(Pte(dirs, mem, q, y))] == Data(q, y) != Data(p, x);
    }
  }

  /** In every reachable state no page table and no mapped page shares its frame. */
  lemma RunNoSharing(s: State, ops: seq<Op>, v: Variant)
    requires Inv(s) && Legal(s, ops, v) && Sound(s.frames, v)
    ensures NoSharing(Run(s, ops, v))
  {
    hide Inv, Step, Enabled, NoSharing;
    InvShaped(s);
    RunKeepsInv(s, ops, v);
    InvNoSharing(Run(s, ops, v));
  }

  /** Isolation over a run: whatever the others do, a process that takes no part keeps every
      mapping and every byte it sees. */
  lemma {:induction false} RunIsolation(s: State, ops: seq<Op>, v: Variant, q: int)
    requires Inv(s) && Legal(s, ops, v) && Sound(s.frames, v)
    requires 1 <= q < MAX_PROCS && forall i :: 0 <= i < |ops| ==> Actor(ops[i]) != q
    ensures SameFor(s, Run(s, ops, v), q)
    decreases |ops|
  {
    hide Inv, Step, Enabled, Pte, UserByte;
    InvShaped(s);
    if ops != [] {
      RunUnfold(s, ops, v);
      StepIsolated(s, ops[0], v);
      var s1 := Step(s, ops[0], v);
      assert forall i :: 0 <= i < |ops[1..]| ==> ops[1..][i] == ops[i + 1];
      RunIsolation(s1, ops[1..], v, q);
      SameForTrans(s, s1, Run(s1, ops[1..], v), q);
    }
  }
}
