/** PTCopyIn: the kernel buffer ends up holding what the process sees, and nothing else moves. */
module CopyInLoop {
  import opened Words
  import opened Frames
  import opened Quota
  import opened Machine
  import opened Books
  import opened PageTables
  import opened Ownership
  import opened UserMemory
  import opened UserWrite
  import opened Delivery
  import opened CopyLoops

  /** A kernel buffer clear of the identity tables. */
  predicate ReadBuffer(s: State, kva: int, len: int) {
    && KernelBuffer(kva, len)
    && (kva + len <= s.identity || s.identity + NUM_TABLES * PAGESIZE <= kva)
  }

  /** Below the user area, only `[a, a + n)` may differ. */
  ghost predicate BufferOnly(mem: seq<byte>, mem': seq<byte>, a: int, n: int)
    requires |mem| == |mem'| == WORD
  {
    forall i :: 0 <= i < USERLO && !(a <= i < a + n) ==> mem'[i] == mem[i]
  }

  /** Kernel memory changes, user memory does not. */
  ghost predicate KernelWrite(s: State, s': State, a: int, n: int)
    requires Shaped(s) && Shaped(s')
  {
    && s' == s.(mem := s'.mem)
    && (forall i :: 0 <= i < WORD && !(a <= i < a + n) ==> s'.mem[i] == s.mem[i])
  }

  /** The kernel storing into its own memory changes no mapping and no byte any process sees. */
  lemma KernelWriteEffect(s: State, s': State, a: int, n: int)
    requires Inv(s) && Shaped(s') && KernelWrite(s, s', a, n) && 0 <= a <= a + n <= USERLO
    requires a + n <= s.identity || s.identity + NUM_TABLES * PAGESIZE <= a
    ensures Inv(s') && SameEntries(s.dirs, s.mem, s'.dirs, s'.mem)
    ensures forall q, w :: UserPage(q, w / PAGESIZE) ==> UserByte(s', q, w) == UserByte(s, q, w)
  {
    RolesInUserRange(s);
    KernelWriteTables(s.mem, s'.mem, s.roles, a, n);
    EntriesUntouched(s.dirs, s.mem, s'.mem, s.roles);
    PagesSameEntries(s.dirs, s.mem, s'.dirs, s'.mem, s.roles);
    KernelWriteIdentity(s, s', a, n);
    forall q, w | UserPage(q, w / PAGESIZE) ensures UserByte(s', q, w) == UserByte(s, q, w) {
      KernelWriteByte(s, s', a, n, q, w);
    }
  }

  lemma KernelWriteTables(mem: seq<byte>, mem': seq<byte>, roles: map<int, Role>, a: int, n: int)
    requires |mem| == |mem'| == WORD && InUserRange(roles) && a + n <= USERLO
    requires forall i :: 0 <= i < WORD && !(a <= i < a + n) ==> mem'[i] == mem[i]
    ensures TablesKept(mem, mem', roles)
  {}

  lemma KernelWriteIdentity(s: State, s': State, a: int, n: int)
    requires Shaped(s) && Shaped(s') && IdentityInv(s) && KernelWrite(s, s', a, n)
    requires a + n <= s.identity || s.identity + NUM_TABLES * PAGESIZE <= a
    ensures IdentityInv(s')
  {
    forall page | 0 <= page < NUM_PAGES
      ensures Word(s'.mem, s.identity + page * 4) == page * PAGESIZE + IdentityPerm(page / NUM_TABLES)
    {
      assert Word(s'.mem, s.identity + page * 4) == Word(s.mem, s.identity + page * 4);
    }
  }

  lemma KernelWriteByte(s: State, s': State, a: int, n: int, q: int, w: int)
    requires Inv(s) && Shaped(s') && KernelWrite(s, s', a, n) && a + n <= USERLO
    requires SameEntries(s.dirs, s.mem, s'.dirs, s'.mem) && UserPage(q, w / PAGESIZE)
    ensures UserByte(s', q, w) == UserByte(s, q, w)
  {
    hide Inv, SameEntries, Pte;
    InvShaped(s);
    SameEntryAt(s.dirs, s.mem, s'.dirs, s'.mem, q, w / PAGESIZE);
    PageFrame(s, q, w / PAGESIZE);
  }

  // ----- one page

  /** `[kva, kva + n)` holds what `p` sees at `[uva, uva + n)`. */
  ghost predicate Got(s: State, p: int, uva: int, kva: int, n: int)
    requires Shaped(s) && 0 <= kva <= kva + n <= WORD
  {
    forall w :: uva <= w < uva + n && UserPage(p, w / PAGESIZE) ==> UserByte(s, p, w) == Some(s.mem[kva + w - uva])
  }

  ghost predicate ReadStepped(s: State, s2: State, p: nat, uva: nat, kva: nat, n: nat, v: Variant)
    requires Shaped(s) && Shaped(s2) && UserPage(p, uva / PAGESIZE)
  {
    && Inv(s2) && Sound(s2.frames, v) && s2.identity == s.identity
    && EntriesOutside(s, s2, p, uva / PAGESIZE, uva / PAGESIZE + 1)
    && BytesOutside(s, s2, p, 0, 0)
    && BufferOnly(s.mem, s2.mem, kva, n)
  }

  /** The store of ReadStep, on the state after EnsurePage. */
  lemma ReadStore(s1: State, s2: State, p: nat, uva: nat, kva: nat, n: nat)
    requires Inv(s1) && UserPage(p, uva / PAGESIZE) && uva % PAGESIZE + n <= PAGESIZE && ReadBuffer(s1, kva, n)
    requires s2 == s1.(mem := CopyForward(s1.mem, kva, PhysAddr(s1.dirs, s1.mem, p, uva), n))
    ensures Shaped(s2) && KernelWrite(s1, s2, kva, n)
    ensures var pa := PhysAddr(s1.dirs, s1.mem, p, uva); s2.mem == Blit(s1.mem, kva, s1.mem[pa..pa + n])
  {
    hide Inv, PhysAddr, CopyForward;
    InvShaped(s1);
    ChunkApartFromBuffer(s1, p, uva, n, kva);
    CopyForwardMoves(s1.mem, kva, PhysAddr(s1.dirs, s1.mem, p, uva), n);
  }

  lemma ReadStoreGot(s1: State, s2: State, p: nat, uva: nat, kva: nat, n: nat)
    requires Shaped(s1) && Shaped(s2) && UserPage(p, uva / PAGESIZE) && uva % PAGESIZE + n <= PAGESIZE
             && kva + n <= USERLO
    requires !Absent(s1, p, uva / PAGESIZE)
    requires var pa := PhysAddr(s1.dirs, s1.mem, p, uva); s2.mem == Blit(s1.mem, kva, s1.mem[pa..pa + n])
    requires forall q, w :: UserPage(q, w / PAGESIZE) ==> UserByte(s2, q, w) == UserByte(s1, q, w)
    ensures Got(s2, p, uva, kva, n)
  {
    var pa := PhysAddr(s1.dirs, s1.mem, p, uva);
    forall w | uva <= w < uva + n && UserPage(p, w / PAGESIZE)
      ensures UserByte(s2, p, w) == Some(s2.mem[kva + w - uva])
    {
      assert w / PAGESIZE == uva / PAGESIZE;
      PhysAddrInPage(s1, p, uva, w);
      assert s2.mem[kva + w - uva] == s1.mem[pa..pa + n][w - uva];
    }
  }

  lemma PhysAddrInPage(s: State, p: nat, va: nat, w: nat)
    requires Shaped(s) && UserPage(p, va / PAGESIZE) && w / PAGESIZE == va / PAGESIZE && va <= w
    ensures PhysAddr(s.dirs, s.mem, p, w) == PhysAddr(s.dirs, s.mem, p, va) + (w - va)
    ensures !Absent(s, p, va / PAGESIZE) ==> UserByte(s, p, w) == Some(s.mem[PhysAddr(s.dirs, s.mem, p, w)])
  {
    hide Pte;
  }

  lemma ReadStepKeeps(s: State, p: nat, uva: nat, kva: nat, n: nat, v: Variant)
    requires Inv(s) && UserPage(p, uva / PAGESIZE) && uva % PAGESIZE + n <= PAGESIZE && Sound(s.frames, v)
    requires ReadBuffer(s, kva, n)
    ensures ReadStepped(s, ReadStep(s, p, uva, kva, n, v), p, uva, kva, n, v)
    ensures var s1 := EnsurePage(s, p, uva / PAGESIZE, v); var s2 := ReadStep(s, p, uva, kva, n, v);
            && Ensured(s, s1, p, uva / PAGESIZE, v) && SameEntries(s1.dirs, s1.mem, s2.dirs, s2.mem)
            && s2.cs == s1.cs && s2.dirs == s1.dirs
            && (!Absent(s1, p, uva / PAGESIZE) ==> Got(s2, p, uva, kva, n))
  {
    hide Inv, Ensured, EnsurePage, PhysAddr, CopyForward, BytesOutside, UserByte, Got, SameEntries, EntriesOutside,
         Absent;
    InvShaped(s);
    var s1 := EnsurePage(s, p, uva / PAGESIZE, v);
    var s2 := ReadStep(s, p, uva, kva, n, v);
    IdentityFixed(s, p, uva, [], v);
    IdentityOfEnsured(s, p, uva, v);
    EnsurePageEffect(s, p, uva / PAGESIZE, v);
    EnsuredKernel(s, s1, p, uva / PAGESIZE, v);
    EnsuredBytes(s, s1, p, uva / PAGESIZE, v);
    ReadStore(s1, s2, p, uva, kva, n);
    KernelWriteEffect(s1, s2, kva, n);
    if !Absent(s1, p, uva / PAGESIZE) {
      ReadStoreGot(s1, s2, p, uva, kva, n);
    }
    ReadOutside(s, s1, s2, p, uva / PAGESIZE, v);
  }

  lemma IdentityOfEnsured(s: State, p: nat, va: nat, v: Variant)
    requires Shaped(s) && UserPage(p, va / PAGESIZE)
    requires WriteStep(s, p, va, [], v).identity == s.identity
    ensures EnsurePage(s, p, va / PAGESIZE, v).identity == s.identity
  {}

  lemma ReadOutside(s: State, s1: State, s2: State, p: nat, vpn: nat, v: Variant)
    requires Shaped(s) && Shaped(s1) && Shaped(s2) && UserPage(p, vpn)
    requires Ensured(s, s1, p, vpn, v) && BytesOutside(s, s1, p, 0, 0)
    requires SameEntries(s1.dirs, s1.mem, s2.dirs, s2.mem)
    requires forall q, w :: UserPage(q, w / PAGESIZE) ==> UserByte(s2, q, w) == UserByte(s1, q, w)
    ensures EntriesOutside(s, s2, p, vpn, vpn + 1) && BytesOutside(s, s2, p, 0, 0)
  {
    hide Inv, Pte, UserByte;
  }

  // ----- the whole range

  /** What a read of `[uva, uva + len)` into the buffer leaves alone, quota or not. */
  ghost predicate ReadWalked(s: State, s': State, p: int, uva: nat, kva: nat, len: nat, v: Variant)
    requires Shaped(s) && Shaped(s')
  {
    && Inv(s') && Sound(s'.frames, v) && s'.identity == s.identity
    && EntriesOutside(s, s', p, uva / PAGESIZE, EndPage(uva, len))
    && BytesOutside(s, s', p, 0, 0)
    && BufferOnly(s.mem, s'.mem, kva, len)
  }

  lemma ReadWalkOn(s: State, s2: State, s': State, p: nat, uva: nat, kva: nat, n: nat, len: nat, v: Variant)
    requires Shaped(s) && Shaped(s2) && Shaped(s') && UserPage(p, uva / PAGESIZE)
    requires 0 < n <= len && (n == len || (uva + n) % PAGESIZE == 0) && uva % PAGESIZE + n <= PAGESIZE
    requires ReadStepped(s, s2, p, uva, kva, n, v)
    requires ReadWalked(s2, s', p, uva + n, kva + n, len - n, v)
    ensures ReadWalked(s, s', p, uva, kva, len, v)
  {
    hide Inv, Pte, UserByte;
    PagesOfRange(uva, n, len - n);
  }

  lemma CopyInUnfold(s: State, p: nat, uva: nat, kva: nat, len: nat, v: Variant)
    requires Inv(s) && UserRange(p, uva, len) && len > 0 && Sound(s.frames, v) && ReadBuffer(s, kva, len)
    ensures var n := ChunkSize(uva, len);
            var s2 := ReadStep(s, p, uva, kva, n, v);
            && UserPage(p, uva / PAGESIZE) && Shaped(s) && Inv(s2) && Sound(s2.frames, v)
            && ReadBuffer(s2, kva + n, len - n)
            && (n == len || (uva + n) % PAGESIZE == 0)
            && ReadStepped(s, s2, p, uva, kva, n, v)
            && CopyIn(s, p, uva, kva, len, v) == CopyIn(s2, p, uva + n, kva + n, len - n, v)
  {
    hide Inv, ReadStep, EnsurePage, Ensured, EntriesOutside, BytesOutside, BufferOnly, SameEntries, Got;
    InvShaped(s);
    ChunkEnds(uva, len);
    ReadStepKeeps(s, p, uva, kva, ChunkSize(uva, len), v);
  }

  lemma ReadWalkedNothing(s: State, p: nat, uva: nat, kva: nat, v: Variant)
    requires Inv(s) && p < MAX_PROCS && uva <= WORD && kva <= WORD && Sound(s.frames, v)
    ensures ReadWalked(s, CopyIn(s, p, uva, kva, 0, v), p, uva, kva, 0, v)
  {}

  /** Isolation of a read: it may map pages of `p`, and stores into the buffer only. */
  lemma {:induction false} CopyInKeeps(s: State, p: nat, uva: nat, kva: nat, len: nat, v: Variant)
    requires Inv(s) && UserRange(p, uva, len) && Sound(s.frames, v) && ReadBuffer(s, kva, len)
    ensures Shaped(s) && ReadWalked(s, CopyIn(s, p, uva, kva, len, v), p, uva, kva, len, v)
    decreases len
  {
    hide Inv, ReadStepped, ReadWalked, CopyIn, ReadStep, ChunkSize, ReadBuffer;
    InvShaped(s);
    BufferBounds(s, kva, len);
    if len == 0 {
      ReadWalkedNothing(s, p, uva, kva, v);
    } else {
      CopyInUnfold(s, p, uva, kva, len, v);
      var n := ChunkSize(uva, len);
      var s2 := ReadStep(s, p, uva, kva, n, v);
      CopyInKeeps(s2, p, uva + n, kva + n, len - n, v);
      ReadWalkOn(s, s2, CopyIn(s2, p, uva + n, kva + n, len - n, v), p, uva, kva, n, len, v);
    }
  }

  lemma BufferBounds(s: State, kva: nat, len: nat)
    requires ReadBuffer(s, kva, len)
    ensures kva + len <= USERLO
  {}

  /** What was read stays read while later pages are read. */
  lemma GotOn(s2: State, s': State, p: nat, uva: nat, kva: nat, n: nat, m: nat)
    requires Shaped(s2) && Shaped(s') && kva + n + m <= USERLO
    requires Got(s2, p, uva, kva, n) && Got(s', p, uva + n, kva + n, m)
    requires BytesOutside(s2, s', p, 0, 0) && BufferOnly(s2.mem, s'.mem, kva + n, m)
    ensures Got(s', p, uva, kva, n + m)
  {
    hide UserByte;
    forall w | uva <= w < uva + n + m && UserPage(p, w / PAGESIZE)
      ensures UserByte(s', p, w) == Some(s'.mem[kva + w - uva])
    {
      if w < uva + n {
        assert UserByte(s2, p, w) == Some(s2.mem[kva + w - uva]);
      } else {
        assert kva + n + (w - (uva + n)) == kva + w - uva;
      }
    }
  }

  lemma ReadWalkedParts(s: State, s': State, p: int, uva: nat, kva: nat, len: nat, v: Variant)
    requires Shaped(s) && Shaped(s') && ReadWalked(s, s', p, uva, kva, len, v)
    ensures BytesOutside(s, s', p, 0, 0) && BufferOnly(s.mem, s'.mem, kva, len)
    ensures EntriesOutside(s, s', p, uva / PAGESIZE, EndPage(uva, len))
  {}

  lemma ReadStepDelivers(s: State, p: nat, uva: nat, kva: nat, n: nat, v: Variant)
    requires Inv(s) && UserPage(p, uva / PAGESIZE) && uva % PAGESIZE + n <= PAGESIZE && Sound(s.frames, v)
    requires ReadBuffer(s, kva, n)
    ensures var s2 := ReadStep(s, p, uva, kva, n, v);
            if Room(s, p) >= StepCost(s, p, uva / PAGESIZE) then
              && !Absent(s2, p, uva / PAGESIZE) && Got(s2, p, uva, kva, n)
              && Charged(s.cs, s2.cs, p, StepCost(s, p, uva / PAGESIZE))
              && SlotsKept(s.dirs, s2.dirs, p, uva / PAGESIZE / NUM_TABLES)
              && EntriesOutside(s, s2, p, uva / PAGESIZE, uva / PAGESIZE + 1)
            else Absent(s2, p, uva / PAGESIZE)
  {
    hide Inv, ReadStep, EnsurePage, Ensured, Got, BytesOutside, BufferOnly, SameEntries, Charged, SlotsKept,
         EntriesOutside, Pte;
    InvShaped(s);
    InvRoom(s, p);
    var s1 := EnsurePage(s, p, uva / PAGESIZE, v);
    var s2 := ReadStep(s, p, uva, kva, n, v);
    ReadStepKeeps(s, p, uva, kva, n, v);
    SameEntryAt(s1.dirs, s1.mem, s2.dirs, s2.mem, p, uva / PAGESIZE);
    if Room(s, p) >= StepCost(s, p, uva / PAGESIZE) {
      EnsuredPresent(s, s1, p, uva / PAGESIZE, v);
    } else {
      EnsuredAbsent(s, s1, s2, p, uva / PAGESIZE, v);
    }
  }

  /** Reading, exactly: the buffer ends up holding what `p` sees if and only if the unused
      quota covers what is missing from the range, and then exactly that is charged. */
  lemma {:induction false} CopyInGotIff(s: State, p: nat, uva: nat, kva: nat, len: nat, v: Variant)
    requires Inv(s) && UserRange(p, uva, len) && Sound(s.frames, v) && ReadBuffer(s, kva, len) && Shaped(s)
    ensures var s' := CopyIn(s, p, uva, kva, len, v);
            var cost := RangeCost(s, p, uva / PAGESIZE, EndPage(uva, len));
            && kva + len <= USERLO
            && (Got(s', p, uva, kva, len) <==> cost <= Room(s, p))
            && (cost <= Room(s, p) ==> Charged(s.cs, s'.cs, p, cost))
    decreases len, 1
  {
    hide Inv, CopyIn, RangeCost, Got, EndPage, Charged, ReadBuffer;
    BufferBounds(s, kva, len);
    InvRoom(s, p);
    if len == 0 {
      NothingRead(s, p, uva, kva, v);
    } else if Room(s, p) >= StepCost(s, p, uva / PAGESIZE) {
      CopyInGotStep(s, p, uva, kva, len, v);
    } else {
      CopyInMisses(s, p, uva, kva, len, v);
    }
  }

  lemma NothingRead(s: State, p: nat, uva: nat, kva: nat, v: Variant)
    requires Inv(s) && UserRange(p, uva, 0) && kva <= USERLO && Shaped(s)
    ensures Got(CopyIn(s, p, uva, kva, 0, v), p, uva, kva, 0) && CopyIn(s, p, uva, kva, 0, v) == s
    ensures RangeCost(s, p, uva / PAGESIZE, EndPage(uva, 0)) == 0 && Charged(s.cs, s.cs, p, 0)
  {
    NothingDelivered(s, p, uva);
  }

  lemma {:induction false} CopyInGotStep(s: State, p: nat, uva: nat, kva: nat, len: nat, v: Variant)
    requires Inv(s) && UserRange(p, uva, len) && Sound(s.frames, v) && ReadBuffer(s, kva, len) && Shaped(s) && len > 0
    requires Room(s, p) >= StepCost(s, p, uva / PAGESIZE)
    ensures var s' := CopyIn(s, p, uva, kva, len, v);
            var cost := RangeCost(s, p, uva / PAGESIZE, EndPage(uva, len));
            && kva + len <= USERLO
            && (Got(s', p, uva, kva, len) <==> cost <= Room(s, p))
            && (cost <= Room(s, p) ==> Charged(s.cs, s'.cs, p, cost))
    decreases len, 0
  {
    hide Inv, CopyIn, RangeCost, Got, EndPage, Charged, ReadStep, ChunkSize, ReadStepped, ReadWalked, Absent,
         SlotsKept, EntriesOutside, BytesOutside, BufferOnly, StepCost, ReadBuffer;
    BufferBounds(s, kva, len);
    CopyInUnfold(s, p, uva, kva, len, v);
    var n := ChunkSize(uva, len);
    var s2 := ReadStep(s, p, uva, kva, n, v);
    var s' := CopyIn(s2, p, uva + n, kva + n, len - n, v);
    ShorterBuffer(s, kva, n, len);
    ReadStepDelivers(s, p, uva, kva, n, v);
    CostAfterStep(s, s2, p, uva, len);
    RoomAfter(s, s2, p, StepCost(s, p, uva / PAGESIZE));
    CopyInGotIff(s2, p, uva + n, kva + n, len - n, v);
    CopyInKeeps(s2, p, uva + n, kva + n, len - n, v);
    ReadWalkedParts(s2, s', p, uva + n, kva + n, len - n, v);
    var rest := RangeCost(s2, p, (uva + n) / PAGESIZE, EndPage(uva + n, len - n));
    if rest <= Room(s2, p) {
      GotOn(s2, s', p, uva, kva, n, len - n);
      ChargedSteps(s.cs, s2.cs, s'.cs, p, StepCost(s, p, uva / PAGESIZE), rest);
    } else {
      GotSuffix(s', p, uva, kva, n, len);
    }
  }

  lemma ShorterBuffer(s: State, kva: nat, n: nat, len: nat)
    requires ReadBuffer(s, kva, len) && n <= len
    ensures ReadBuffer(s, kva, n)
  {}

  lemma GotSuffix(s: State, p: nat, uva: nat, kva: nat, n: nat, len: nat)
    requires Shaped(s) && kva + len <= USERLO && n <= len
    ensures Got(s, p, uva, kva, len) ==> Got(s, p, uva + n, kva + n, len - n)
  {
    hide UserByte;
    if Got(s, p, uva, kva, len) {
      forall w | uva + n <= w < uva + len && UserPage(p, w / PAGESIZE)
        ensures UserByte(s, p, w) == Some(s.mem[kva + n + w - (uva + n)])
      {
        assert kva + n + w - (uva + n) == kva + w - uva;
      }
    }
  }

  lemma CopyInMisses(s: State, p: nat, uva: nat, kva: nat, len: nat, v: Variant)
    requires Inv(s) && UserRange(p, uva, len) && Sound(s.frames, v) && ReadBuffer(s, kva, len) && Shaped(s) && len > 0
    requires Room(s, p) < StepCost(s, p, uva / PAGESIZE) && kva + len <= USERLO
    ensures !Got(CopyIn(s, p, uva, kva, len, v), p, uva, kva, len)
    ensures RangeCost(s, p, uva / PAGESIZE, EndPage(uva, len)) > Room(s, p)
  {
    hide Inv, CopyIn, RangeCost, Got, Charged, ReadStep, ReadStepped, ReadWalked, Absent, SlotsKept, EntriesOutside,
         BytesOutside, BufferOnly, StepCost, ReadBuffer, ChunkSize, EndPage;
    CopyInUnfold(s, p, uva, kva, len, v);
    var n := ChunkSize(uva, len);
    var s2 := ReadStep(s, p, uva, kva, n, v);
    var s' := CopyIn(s2, p, uva + n, kva + n, len - n, v);
    FirstCost(s, p, uva, len);
    ShorterBuffer(s, kva, n, len);
    ReadStepDelivers(s, p, uva, kva, n, v);
    CopyInKeeps(s2, p, uva + n, kva + n, len - n, v);
    ReadWalkedParts(s2, s', p, uva + n, kva + n, len - n, v);
    StaysUnread(s2, s', p, uva, kva, n, len);
  }

  lemma FirstCost(s: State, p: nat, uva: nat, len: nat)
    requires Shaped(s) && UserRange(p, uva, len) && len > 0
    ensures UserPage(p, uva / PAGESIZE)
    ensures StepCost(s, p, uva / PAGESIZE) <= RangeCost(s, p, uva / PAGESIZE, EndPage(uva, len))
  {
    RangeCostCoversFirst(s, p, uva / PAGESIZE, EndPage(uva, len));
  }

  lemma StaysUnread(s2: State, s': State, p: nat, uva: nat, kva: nat, n: nat, len: nat)
    requires Shaped(s2) && Shaped(s') && UserRange(p, uva, len) && 0 < n <= len && kva + len <= USERLO
    requires UserPage(p, uva / PAGESIZE) && Absent(s2, p, uva / PAGESIZE)
    requires n == len || (uva + n) % PAGESIZE == 0
    requires EntriesOutside(s2, s', p, (uva + n) / PAGESIZE, EndPage(uva + n, len - n))
    ensures !Got(s', p, uva, kva, len)
  {
    hide Pte;
    assert Absent(s', p, uva / PAGESIZE) by {
      if n == len {
        assert EndPage(uva + n, 0) == (uva + n) / PAGESIZE;
      } else {
        assert uva / PAGESIZE < (uva + n) / PAGESIZE;
      }
    }
    SomeIsPresent(s', p, uva);
  }

  // ----- round trip

  lemma NothingAbsent(s: State, p: nat, va: nat, data: seq<byte>)
    requires Shaped(s) && UserRange(p, va, |data|) && Holds(s, p, va, data)
    ensures RangeCost(s, p, va / PAGESIZE, EndPage(va, |data|)) == 0
  {
    var lo, hi := va / PAGESIZE, EndPage(va, |data|);
    forall x | lo <= x < hi && UserPage(p, x) ensures !Absent(s, p, x) {
      var w := if x == lo then va else x * PAGESIZE;
      assert va <= w < va + |data| && w / PAGESIZE == x;
      SomeIsPresent(s, p, w);
    }
    assert AbsentPages(s, p, lo, hi) == {};
    forall t | lo / NUM_TABLES <= t <= (hi - 1) / NUM_TABLES && lo < hi && UserSlot(p, t)
      ensures s.dirs[Slot(p, t)] != 0
    {
      var x := if t == lo / NUM_TABLES then lo else t * NUM_TABLES;
      assert lo <= x < hi && x / NUM_TABLES == t && UserPage(p, x);
      TableOfPresentPage(s, p, x);
    }
    assert AbsentTables(s, p, lo, hi) == {};
  }

  /** Round trip: bytes copied out of one kernel buffer and read back into another come back
      unchanged, and reading them back allocates nothing. */
  lemma CopyRoundTrip(s: State, from: nat, to: nat, p: nat, uva: nat, len: nat, v: Variant)
    requires Inv(s) && UserRange(p, uva, len) && Sound(s.frames, v) && Shaped(s)
    requires KernelBuffer(from, len) && ReadBuffer(s, to, len)
    requires RangeCost(s, p, uva / PAGESIZE, EndPage(uva, len)) <= Room(s, p)
    ensures var out := CopyOut(s, from, p, uva, len, v);
            var back := CopyIn(out, p, uva, to, len, v);
            && back.mem[to..to + len] == s.mem[from..from + len]
            && Charged(out.cs, back.cs, p, 0)
  {
    hide Inv, CopyOut, CopyIn, WriteUser, RangeCost, Holds, Got, EndPage, Charged, Walked, ReadBuffer, ReadWalked;
    BufferBounds(s, to, len);
    var data := s.mem[from..from + len];
    var out := CopyOut(s, from, p, uva, len, v);
    var back := CopyIn(out, p, uva, to, len, v);
    CopyOutWrites(s, from, p, uva, len, v);
    DeliveredIff(s, p, uva, data, v);
    WriteUserKeeps(s, p, uva, data, v);
    WalkedSummary(s, out, p, uva, len, v);
    SameReadBuffer(s, out, to, len);
    NothingAbsent(out, p, uva, data);
    InvRoom(out, p);
    CopyInGotIff(out, p, uva, to, len, v);
    CopyInKeeps(out, p, uva, to, len, v);
    ReadWalkedParts(out, back, p, uva, to, len, v);
    GotEqualsHeld(out, back, p, uva, to, data);
  }

  lemma WalkedSummary(s: State, s': State, p: nat, va: nat, n: nat, v: Variant)
    requires Shaped(s) && Shaped(s') && Walked(s, s', p, va, n, v)
    ensures Inv(s') && Sound(s'.frames, v) && s'.identity == s.identity
  {}

  lemma SameReadBuffer(s: State, s': State, kva: nat, len: nat)
    requires ReadBuffer(s, kva, len) && s'.identity == s.identity
    ensures ReadBuffer(s', kva, len)
  {}

  lemma GotEqualsHeld(out: State, back: State, p: nat, uva: nat, to: nat, data: seq<byte>)
    requires Shaped(out) && Shaped(back) && UserRange(p, uva, |data|) && to + |data| <= USERLO
    requires Holds(out, p, uva, data) && Got(back, p, uva, to, |data|) && BytesOutside(out, back, p, 0, 0)
    ensures back.mem[to..to + |data|] == data
  {
    hide UserByte;
    forall i | 0 <= i < |data| ensures back.mem[to + i] == data[i] {
      assert UserPage(p, (uva + i) / PAGESIZE);
      assert UserByte(out, p, uva + i) == Some(data[uva + i - uva]);
      assert UserByte(back, p, uva + i) == Some(back.mem[to + (uva + i) - uva]);
    }
  }
}
