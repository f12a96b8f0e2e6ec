/** What is charged to each container, read off the quota tree alone. These accounts balance in
    every run of the allocator as coded, frees included, whatever becomes of the frames. */
module Conservation {
  import opened Words
  import opened Frames
  import opened Quota
  import opened Machine
  import opened Books
  import opened Ownership
  import opened UserMemory
  import opened UserWrite
  import opened CopyLoops
  import opened CopyInLoop
  import opened Runs

  /** Units charged to `p` itself: its usage without its children's quotas. */
  ghost function Charges(cs: seq<Container>, p: int): int
    requires |cs| == MAX_PROCS && 0 <= p < MAX_PROCS
  {
    cs[p].usage - ChildQuotas(cs, p, MAX_PROCS)
  }

  ghost predicate Balanced(cs: seq<Container>) {
    && |cs| == MAX_PROCS
    && forall i :: 0 <= i < MAX_PROCS ==> cs[i].usage <= cs[i].quota && 0 <= Charges(cs, i) <= cs[i].usage
  }

  ghost function AllCharges(cs: seq<Container>): (own: seq<nat>)
    requires Balanced(cs)
    ensures |own| == MAX_PROCS && forall i :: 0 <= i < MAX_PROCS ==> own[i] == Charges(cs, i)
  {
    seq(MAX_PROCS, i requires 0 <= i < MAX_PROCS => Charges(cs, i))
  }

  /** The slots of `p` that hold a page table. */
  ghost function FilledSlots(dirs: seq<uint32>, p: int): set<int>
    requires |dirs| == MAX_PROCS * NUM_TABLES
  {
    set pde | USERLO_PDIR <= pde < USERHI_PDIR && UserSlot(p, pde) && dirs[Slot(p, pde)] != 0
  }

  /** The accounts: they balance, and every page table has been paid for. */
  ghost predicate AccountsInv(cs: seq<Container>, dirs: seq<uint32>)
    requires |dirs| == MAX_PROCS * NUM_TABLES
  {
    && Tree(cs) && Balanced(cs)
    && forall p :: 1 <= p < MAX_PROCS ==> |FilledSlots(dirs, p)| <= Charges(cs, p)
  }

  lemma AccountsOfCharges(cs: seq<Container>)
    requires Balanced(cs)
    ensures Accounts(cs, AllCharges(cs))
  {}

  lemma ChargesOfAccounts(cs: seq<Container>, own: seq<nat>)
    requires Accounts(cs, own)
    ensures Balanced(cs) && forall i :: 0 <= i < MAX_PROCS ==> Charges(cs, i) == own[i]
  {
    forall i | 0 <= i < MAX_PROCS ensures 0 <= Charges(cs, i) <= cs[i].usage {
      ChildQuotasNonNegative(cs, i, MAX_PROCS);
    }
  }

  /** With the whole invariant, what is charged to `p` is the number of frames it holds. */
  lemma ChargesAreFrames(s: State, p: nat)
    requires Inv(s) && 1 <= p < MAX_PROCS
    ensures |s.cs| == MAX_PROCS && Charges(s.cs, p) == |Owned(s.roles, p)|
  {
    ChargesOfAccounts(s.cs, Own(s.roles));
  }

  // ----- the three mutations

  lemma ChargeMoves(cs: seq<Container>, p: nat, units: int)
    requires Tree(cs) && Balanced(cs) && p < MAX_PROCS && cs[p].used
    requires Charges(cs, p) + units >= 0 && cs[p].usage + units <= cs[p].quota
    ensures var cs' := Charge(cs, p, units);
            && Tree(cs') && Balanced(cs') && Charges(cs', p) == Charges(cs, p) + units
            && forall q :: 0 <= q < MAX_PROCS && q != p ==> Charges(cs', q) == Charges(cs, q)
  {
    AccountsOfCharges(cs);
    ChargeKeepsAccounts(cs, AllCharges(cs), p, units);
    ChargesOfAccounts(Charge(cs, p, units), AllCharges(cs)[p := AllCharges(cs)[p] + units]);
  }

  lemma SplitMoves(cs: seq<Container>, id: nat, quota: nat)
    requires Tree(cs) && Balanced(cs) && id < MAX_PROCS && cs[id].used && RoomForChild(cs, id)
    requires cs[id].usage + quota <= cs[id].quota
    ensures var cs' := Quota.Split(cs, id, quota);
            Tree(cs') && Balanced(cs') && forall q :: 0 <= q < MAX_PROCS ==> Charges(cs', q) == Charges(cs, q)
  {
    AccountsOfCharges(cs);
    SplitKeepsTree(cs, id, quota);
    SplitKeepsAccounts(cs, AllCharges(cs), id, quota);
    ChargesOfAccounts(Quota.Split(cs, id, quota), AllCharges(cs));
  }

  lemma SlotAdded(dirs: seq<uint32>, p: int, pde: int, w: uint32)
    requires |dirs| == MAX_PROCS * NUM_TABLES && UserSlot(p, pde) && w != 0
    ensures FilledSlots(dirs[Slot(p, pde) := w], p) == FilledSlots(dirs, p) + {pde}
    ensures forall q :: 1 <= q < MAX_PROCS && q != p ==> FilledSlots(dirs[Slot(p, pde) := w], q) == FilledSlots(dirs, q)
  {}

  lemma SlotRemoved(dirs: seq<uint32>, p: int, pde: int)
    requires |dirs| == MAX_PROCS * NUM_TABLES && UserSlot(p, pde)
    ensures FilledSlots(dirs[Slot(p, pde) := 0], p) == FilledSlots(dirs, p) - {pde}
    ensures forall q :: 1 <= q < MAX_PROCS && q != p ==> FilledSlots(dirs[Slot(p, pde) := 0], q) == FilledSlots(dirs, q)
  {}

  // ----- the operations

  lemma ContainerAllocCharges(s: State, p: nat, v: Variant)
    requires Shaped(s) && AccountsInv(s.cs, s.dirs) && 1 <= p < MAX_PROCS
    ensures var (s1, page) := ContainerAlloc(s, p, v);
            && s1.dirs == s.dirs && s1.mem == s.mem && AccountsInv(s1.cs, s1.dirs)
            && (page != 0 ==> Charges(s1.cs, p) == Charges(s.cs, p) + 1)
  {
    if s.cs[p].usage != s.cs[p].quota {
      assert s.cs[p].used;
      ChargeMoves(s.cs, p, 1);
    }
  }

  /** A page table is paid for before its slot is filled. */
  lemma AllocPageTableCharges(s: State, p: nat, vpn: nat, v: Variant)
    requires Shaped(s) && AccountsInv(s.cs, s.dirs) && UserPage(p, vpn)
    ensures var s' := AllocPageTable(s, p, vpn, v).0; AccountsInv(s'.cs, s'.dirs)
  {
    hide ContainerAlloc, Balanced, Charges, Tree;
    ContainerAllocCharges(s, p, v);
    var (s1, page) := ContainerAlloc(s, p, v);
    if page != 0 {
      SlotAdded(s1.dirs, p, vpn / NUM_TABLES, page * PAGESIZE + PTE_PWU);
    }
  }

  lemma AllocPageCharges(s: State, p: nat, vpn: nat, perm: nat, v: Variant)
    requires Shaped(s) && AccountsInv(s.cs, s.dirs) && UserPage(p, vpn) && perm < PAGESIZE
    ensures var s' := AllocPage(s, p, vpn, perm, v).0; AccountsInv(s'.cs, s'.dirs)
  {
    hide ContainerAlloc, AllocPageTable, AccountsInv;
    ContainerAllocCharges(s, p, v);
    AllocPageTableCharges(ContainerAlloc(s, p, v).0, p, vpn, v);
  }

  /** A free takes off at most one unit, and the table's slot with it. */
  lemma FreePageTableCharges(s: State, p: nat, vpn: nat)
    requires Shaped(s) && AccountsInv(s.cs, s.dirs) && UserPage(p, vpn) && s.dirs[Slot(p, vpn / NUM_TABLES)] != 0
    ensures var s' := FreePageTable(s, p, vpn); AccountsInv(s'.cs, s'.dirs)
    ensures var taken := s.frames.info[FrameOf(s.dirs[Slot(p, vpn / NUM_TABLES)])].taken;
            var cs' := FreePageTable(s, p, vpn).cs;
            |cs'| == MAX_PROCS && Charges(cs', p) == Charges(s.cs, p) - if taken then 1 else 0
  {
    var pde := vpn / NUM_TABLES;
    SlotRemoved(s.dirs, p, pde);
    assert pde in FilledSlots(s.dirs, p) && |FilledSlots(s.dirs, p)| > 0;
    assert s.cs[p].used;
    ChargeMoves(s.cs, p, -1);
  }

  lemma EnsurePageCharges(s: State, p: nat, vpn: nat, v: Variant)
    requires Shaped(s) && AccountsInv(s.cs, s.dirs) && UserPage(p, vpn)
    ensures var s1 := EnsurePage(s, p, vpn, v); AccountsInv(s1.cs, s1.dirs)
  {
    hide AllocPage, AccountsInv;
    AllocPageCharges(s, p, vpn, PTE_PWU, v);
  }

  lemma {:induction false} WriteUserCharges(s: State, p: nat, va: nat, data: seq<byte>, v: Variant)
    requires Shaped(s) && AccountsInv(s.cs, s.dirs) && UserRange(p, va, |data|)
    ensures var s' := WriteUser(s, p, va, data, v); AccountsInv(s'.cs, s'.dirs)
    decreases |data|
  {
    hide AccountsInv, EnsurePage, ChunkSize, PhysAddr;
    if data != [] {
      var n := ChunkSize(va, |data|);
      EnsurePageCharges(s, p, va / PAGESIZE, v);
      WriteUserCharges(WriteChunk(EnsurePage(s, p, va / PAGESIZE, v), p, va, data[..n]), p, va + n, data[n..], v);
    }
  }

  lemma {:induction false} CopyInCharges(s: State, p: nat, uva: nat, kva: nat, len: nat, v: Variant)
    requires Shaped(s) && AccountsInv(s.cs, s.dirs) && UserRange(p, uva, len) && kva + len <= WORD
    ensures var s' := CopyIn(s, p, uva, kva, len, v); AccountsInv(s'.cs, s'.dirs)
    decreases len
  {
    hide AccountsInv, EnsurePage, ChunkSize, PhysAddr;
    if len > 0 {
      var n := ChunkSize(uva, len);
      EnsurePageCharges(s, p, uva / PAGESIZE, v);
      CopyInCharges(ReadStep(s, p, uva, kva, n, v), p, uva + n, kva + n, len - n, v);
    }
  }

  lemma SplitCharges(s: State, parent: nat, quota: nat, v: Variant)
    requires Shaped(s) && AccountsInv(s.cs, s.dirs) && Enabled(s, Op.Split(parent, quota))
    ensures var s' := Step(s, Op.Split(parent, quota), v); AccountsInv(s'.cs, s'.dirs)
  {
    hide Balanced, Charges, Tree;
    SplitMoves(s.cs, parent, quota);
  }

  /** Every operation keeps the accounts, under either allocator and even after frees. */
  lemma StepCharges(s: State, op: Op, v: Variant)
    requires Shaped(s) && AccountsInv(s.cs, s.dirs) && Enabled(s, op)
    ensures var s' := Step(s, op, v); AccountsInv(s'.cs, s'.dirs)
  {
    hide AccountsInv, AllocPage, UnmapPage, FreePageTable, WriteUser, CopyIn, WriteChunk;
    match op
    case Split(parent, quota) => SplitCharges(s, parent, quota, v);
    case Alloc(p, vpn, perm) => AllocPageCharges(s, p, vpn, perm, v);
    case Unmap(p, vpn) => UnmapCharges(s, p, vpn);
    case FreeTable(p, vpn) => FreePageTableCharges(s, p, vpn);
    case CopyTo(p, va, data) => WriteUserCharges(s, p, va, data, v);
    case CopyFrom(p, va, kva, len) => CopyInCharges(s, p, va, kva, len, v);
    case Store(p, va, data) => StoreCharges(s, p, va, data);
    case KernelStore(kva, data) =>
  }

  lemma UnmapCharges(s: State, p: nat, vpn: nat)
    requires Shaped(s) && UserPage(p, vpn)
    ensures UnmapPage(s, p, vpn).0.cs == s.cs && UnmapPage(s, p, vpn).0.dirs == s.dirs
  {}

  lemma StoreCharges(s: State, p: nat, va: nat, data: seq<byte>)
    requires Shaped(s) && InTable(p, va / PAGESIZE) && va % PAGESIZE + |data| <= PAGESIZE
    ensures WriteChunk(s, p, va, data).cs == s.cs && WriteChunk(s, p, va, data).dirs == s.dirs
  {}

  // ----- runs

  lemma {:induction false} RunAccounts(s: State, ops: seq<Op>, v: Variant)
    requires Shaped(s) && AccountsInv(s.cs, s.dirs) && Called(s, ops, v)
    ensures var r := Run(s, ops, v); AccountsInv(r.cs, r.dirs)
    decreases |ops|
  {
    hide AccountsInv, Step, Enabled;
    if ops != [] {
      StepCharges(s, ops[0], v);
      RunAccounts(Step(s, ops[0], v), ops[1..], v);
    }
  }

  /** Tree conservation in every run, as coded or corrected, frees included: no container passes
      its quota, what is charged to a container's whole subtree stays within its quota, and
      all charges together with all unused quota make up the root's quota. */
  lemma RunSubtreeBound(s: State, ops: seq<Op>, v: Variant, id: nat)
    requires Shaped(s) && AccountsInv(s.cs, s.dirs) && Called(s, ops, v) && id < MAX_PROCS
    ensures var cs := Run(s, ops, v).cs;
            && Tree(cs) && Balanced(cs)
            && SubtreeHeld(cs, AllCharges(cs), id) <= cs[id].usage <= cs[id].quota
            && Sum(AllCharges(cs)) + Slack(cs, MAX_PROCS) == cs[0].quota
  {
    hide Step, Enabled, Balanced, Tree;
    RunAccounts(s, ops, v);
    var cs := Run(s, ops, v).cs;
    AccountsOfCharges(cs);
    SubtreeWithinQuota(cs, AllCharges(cs), id);
    Telescope(cs, AllCharges(cs));
  }

  /** Where frames keep their roles, the charges are the frames held: as coded without frees, or
      corrected. */
  lemma RunChargesAreFrames(s: State, ops: seq<Op>, v: Variant)
    requires Inv(s) && Legal(s, ops, v) && Sound(s.frames, v)
    ensures var r := Run(s, ops, v); Balanced(r.cs) && AllCharges(r.cs) == Own(r.roles)
  {
    hide Step, Enabled, Inv;
    InvShaped(s);
    RunKeepsInv(s, ops, v);
    ChargesAreOwned(Run(s, ops, v));
  }

  lemma ChargesAreOwned(s: State)
    requires Inv(s)
    ensures Balanced(s.cs) && AllCharges(s.cs) == Own(s.roles)
  {
    ChargesOfAccounts(s.cs, Own(s.roles));
  }
}
