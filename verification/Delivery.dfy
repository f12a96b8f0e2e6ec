/** When a copy into user memory arrives: exactly when the unused quota covers the pages and
    the tables that are missing from its range. */
module Delivery {
  import opened Words
  import opened Frames
  import opened Quota
  import opened Machine
  import opened Books
  import opened PageTables
  import opened Ownership
  import opened UserMemory
  import opened UserWrite

  // ----- what a range costs

  ghost function AbsentPages(s: State, p: int, lo: int, hi: int): set<int>
    requires Shaped(s)
  {
    set x | lo <= x < hi && UserPage(p, x) && Absent(s, p, x)
  }

  /** Missing tables of the slots that the pages `[lo, hi)` fall into. */
  ghost function AbsentTables(s: State, p: int, lo: int, hi: int): set<int>
    requires Shaped(s)
  {
    set t | lo / NUM_TABLES <= t <= (hi - 1) / NUM_TABLES && lo < hi && UserSlot(p, t) && s.dirs[Slot(p, t)] == 0
  }

  /** The frames that mapping all of `[lo, hi)` takes. */
  ghost function RangeCost(s: State, p: int, lo: int, hi: int): nat
    requires Shaped(s)
  {
    |AbsentPages(s, p, lo, hi)| + |AbsentTables(s, p, lo, hi)|
  }

  ghost function StepCost(s: State, p: int, vpn: int): int
    requires Shaped(s) && InTable(p, vpn)
  {
    if Absent(s, p, vpn) then PageCost(s.dirs, p, vpn) else 0
  }

  lemma TableOfPresentPage(s: State, p: int, x: int)
    requires Shaped(s) && UserPage(p, x) && !Absent(s, p, x)
    ensures s.dirs[Slot(p, x / NUM_TABLES)] != 0
  {}

  lemma AbsentPagesStep(s: State, s2: State, p: int, lo: int, hi: int)
    requires Shaped(s) && Shaped(s2) && UserPage(p, lo) && lo < hi <= USERHI_PI
    requires EntriesOutside(s, s2, p, lo, lo + 1)
    ensures |AbsentPages(s, p, lo, hi)| == |AbsentPages(s2, p, lo + 1, hi)| + if Absent(s, p, lo) then 1 else 0
  {
    hide Pte;
    var here, rest := AbsentPages(s, p, lo, hi), AbsentPages(s2, p, lo + 1, hi);
    assert here == if Absent(s, p, lo) then rest + {lo} else rest;
    assert lo !in rest;
  }

  lemma AbsentTablesStep(s: State, s2: State, p: int, lo: int, hi: int)
    requires Shaped(s) && Shaped(s2) && UserPage(p, lo) && lo < hi <= USERHI_PI
    requires SlotsKept(s.dirs, s2.dirs, p, lo / NUM_TABLES) && s2.dirs[Slot(p, lo / NUM_TABLES)] != 0
    ensures |AbsentTables(s, p, lo, hi)|
            == |AbsentTables(s2, p, lo + 1, hi)| + if s.dirs[Slot(p, lo / NUM_TABLES)] == 0 then 1 else 0
  {
    var t := lo / NUM_TABLES;
    var here, rest := AbsentTables(s, p, lo, hi), AbsentTables(s2, p, lo + 1, hi);
    assert here == (if s.dirs[Slot(p, t)] == 0 then rest + {t} else rest) by {
      forall u | UserSlot(p, u) && u != t ensures s2.dirs[Slot(p, u)] == s.dirs[Slot(p, u)] {
        SlotsDiffer(p, u, p, t);
      }
    }
    assert t !in rest;
  }

  /** Once the first page is present, the rest costs exactly what is left. */
  lemma RangeCostStep(s: State, s2: State, p: int, lo: int, hi: int)
    requires Shaped(s) && Shaped(s2) && UserPage(p, lo) && lo < hi <= USERHI_PI
    requires EntriesOutside(s, s2, p, lo, lo + 1) && SlotsKept(s.dirs, s2.dirs, p, lo / NUM_TABLES)
    requires !Absent(s2, p, lo)
    ensures RangeCost(s, p, lo, hi) == StepCost(s, p, lo) + RangeCost(s2, p, lo + 1, hi)
  {
    hide EntriesOutside, SlotsKept, Pte, AbsentPages, AbsentTables, Absent;
    AbsentPagesStep(s, s2, p, lo, hi);
    TableOfPresentPage(s2, p, lo);
    AbsentTablesStep(s, s2, p, lo, hi);
    if !Absent(s, p, lo) {
      TableOfPresentPage(s, p, lo);
    }
  }

  lemma RangeCostCoversFirst(s: State, p: int, lo: int, hi: int)
    requires Shaped(s) && UserPage(p, lo) && lo < hi <= USERHI_PI
    ensures RangeCost(s, p, lo, hi) >= StepCost(s, p, lo)
  {
    if Absent(s, p, lo) {
      assert lo in AbsentPages(s, p, lo, hi);
      assert |AbsentPages(s, p, lo, hi)| >= 1 by { Inhabited(AbsentPages(s, p, lo, hi), lo); }
      if s.dirs[Slot(p, lo / NUM_TABLES)] == 0 {
        Inhabited(AbsentTables(s, p, lo, hi), lo / NUM_TABLES);
      }
    }
  }

  lemma Inhabited(a: set<int>, x: int)
    requires x in a
    ensures |a| >= 1
  {
    assert a != {};
  }

  lemma EmptyRangeCostsNothing(s: State, p: int, lo: int, hi: int)
    requires Shaped(s) && hi <= lo
    ensures RangeCost(s, p, lo, hi) == 0
  {
    assert AbsentPages(s, p, lo, hi) == {} && AbsentTables(s, p, lo, hi) == {};
  }

  // ----- one step, with the quota

  /** Enough quota for the page: it is present and holds the chunk. */
  ghost predicate StepDelivered(s: State, s2: State, p: nat, va: nat, data: seq<byte>)
    requires Shaped(s) && Shaped(s2) && UserPage(p, va / PAGESIZE)
  {
    && !Absent(s2, p, va / PAGESIZE)
    && Charged(s.cs, s2.cs, p, StepCost(s, p, va / PAGESIZE))
    && SlotsKept(s.dirs, s2.dirs, p, va / PAGESIZE / NUM_TABLES)
    && Holds(s2, p, va, data)
  }

  /** `p` sees exactly `data` at `va`. */
  ghost predicate Holds(s: State, p: int, va: int, data: seq<byte>)
    requires Shaped(s)
  {
    forall w :: va <= w < va + |data| && UserPage(p, w / PAGESIZE) ==> UserByte(s, p, w) == Some(data[w - va])
  }

  lemma ChunkHolds(s1: State, s2: State, p: nat, va: nat, data: seq<byte>)
    requires Shaped(s1) && Shaped(s2) && UserPage(p, va / PAGESIZE) && va % PAGESIZE + |data| <= PAGESIZE
    requires !Absent(s1, p, va / PAGESIZE) && ChunkWritten(s1, s2, p, va, data)
    ensures Holds(s2, p, va, data) && !Absent(s2, p, va / PAGESIZE) && s2.cs == s1.cs && s2.dirs == s1.dirs
  {
    hide Pte, UserByte;
    forall w | va <= w < va + |data| ensures UserByte(s2, p, w) == Some(data[w - va]) {
      assert w / PAGESIZE == va / PAGESIZE;
      SomeIsPresent(s1, p, w);
    }
  }

  lemma StepDelivers(s: State, p: nat, va: nat, data: seq<byte>, v: Variant)
    requires Inv(s) && UserPage(p, va / PAGESIZE) && va % PAGESIZE + |data| <= PAGESIZE && Sound(s.frames, v)
    requires Room(s, p) >= StepCost(s, p, va / PAGESIZE)
    ensures StepDelivered(s, WriteStep(s, p, va, data, v), p, va, data)
  {
    var s1 := EnsurePage(s, p, va / PAGESIZE, v);
    EnsurePageEffect(s, p, va / PAGESIZE, v);
    WriteChunkEffect(s1, p, va, data);
    EnsuredPresent(s, s1, p, va / PAGESIZE, v);
    ChunkHolds(s1, WriteStep(s, p, va, data, v), p, va, data);
  }

  lemma EnsuredPresent(s: State, s1: State, p: nat, vpn: nat, v: Variant)
    requires Shaped(s) && Shaped(s1) && UserPage(p, vpn) && Ensured(s, s1, p, vpn, v)
    requires Room(s, p) >= StepCost(s, p, vpn)
    ensures !Absent(s1, p, vpn) && Charged(s.cs, s1.cs, p, StepCost(s, p, vpn))
    ensures SlotsKept(s.dirs, s1.dirs, p, vpn / NUM_TABLES)
  {
    hide Inv, Pte, OnlyEntryOf, ContentsKept, SlotsKept, Charged;
    ChargedNone(s.cs, p);
  }

  /** Not enough: the page stays absent. */
  lemma StepFails(s: State, p: nat, va: nat, data: seq<byte>, v: Variant)
    requires Inv(s) && UserPage(p, va / PAGESIZE) && va % PAGESIZE + |data| <= PAGESIZE && Sound(s.frames, v)
    requires Room(s, p) < StepCost(s, p, va / PAGESIZE)
    ensures Absent(WriteStep(s, p, va, data, v), p, va / PAGESIZE)
  {
    var s1 := EnsurePage(s, p, va / PAGESIZE, v);
    EnsurePageEffect(s, p, va / PAGESIZE, v);
    RoomNonNegative(s, p);
    WriteChunkEffect(s1, p, va, data);
    EnsuredAbsent(s, s1, WriteStep(s, p, va, data, v), p, va / PAGESIZE, v);
  }

  lemma EnsuredAbsent(s: State, s1: State, s2: State, p: nat, vpn: nat, v: Variant)
    requires Shaped(s) && Shaped(s1) && Shaped(s2) && UserPage(p, vpn) && Ensured(s, s1, p, vpn, v)
    requires 0 <= Room(s, p) < StepCost(s, p, vpn)
    requires SameEntries(s1.dirs, s1.mem, s2.dirs, s2.mem)
    ensures Absent(s2, p, vpn)
  {
    hide Inv, OnlyEntryOf, ContentsKept, SlotsKept, Charged, Pte;
  }

  // ----- the whole range

  lemma RoomAfter(s: State, s2: State, p: nat, units: int)
    requires p < |s.cs| && Charged(s.cs, s2.cs, p, units)
    ensures p < |s2.cs| && Room(s2, p) == Room(s, p) - units
  {}

  /** What was delivered stays delivered while later pages are written. */
  lemma HoldsOn(s2: State, s': State, p: nat, va: nat, n: nat, m: nat, data: seq<byte>)
    requires Shaped(s2) && Shaped(s') && n + m == |data|
    requires Holds(s2, p, va, data[..n]) && BytesOutside(s2, s', p, va + n, va + n + m)
    requires Holds(s', p, va + n, data[n..])
    ensures Holds(s', p, va, data)
  {
    hide UserByte;
    forall w | va <= w < va + |data| && UserPage(p, w / PAGESIZE)
      ensures UserByte(s', p, w) == Some(data[w - va])
    {
      if w < va + n {
        assert UserByte(s2, p, w) == Some(data[..n][w - va]);
      } else {
        assert data[n..][w - (va + n)] == data[w - va];
      }
    }
  }

  /** The cost of a range, seen after its first page is there. */
  lemma CostAfterStep(s: State, s2: State, p: nat, va: nat, len: nat)
    requires Shaped(s) && Shaped(s2) && UserRange(p, va, len) && len > 0
    requires UserPage(p, va / PAGESIZE) && !Absent(s2, p, va / PAGESIZE)
    requires EntriesOutside(s, s2, p, va / PAGESIZE, va / PAGESIZE + 1)
    requires SlotsKept(s.dirs, s2.dirs, p, va / PAGESIZE / NUM_TABLES)
    ensures var n := ChunkSize(va, len);
            RangeCost(s, p, va / PAGESIZE, EndPage(va, len))
            == StepCost(s, p, va / PAGESIZE) + RangeCost(s2, p, (va + n) / PAGESIZE, EndPage(va + n, len - n))
  {
    hide EntriesOutside, RangeCost, Absent, SlotsKept;
    var n := ChunkSize(va, len);
    ChunkEnds(va, len);
    PagesOfRange(va, n, len - n);
    assert va / PAGESIZE < EndPage(va, len) <= USERHI_PI;
    RangeCostStep(s, s2, p, va / PAGESIZE, EndPage(va, len));
    if n == len {
      EmptyRangeCostsNothing(s2, p, va / PAGESIZE + 1, EndPage(va, len));
      EmptyRangeCostsNothing(s2, p, (va + n) / PAGESIZE, EndPage(va + n, 0));
    }
  }

  lemma NothingDelivered(s: State, p: nat, va: nat)
    requires Shaped(s) && p < MAX_PROCS && va <= USERHI
    ensures Holds(s, p, va, []) && RangeCost(s, p, va / PAGESIZE, EndPage(va, 0)) == 0
    ensures Charged(s.cs, s.cs, p, 0)
  {
    hide RangeCost;
    ChargedNone(s.cs, p);
    EmptyRangeCostsNothing(s, p, va / PAGESIZE, EndPage(va, 0));
  }

  /** Enough quota: every byte arrives, and exactly the missing frames are charged. */
  lemma {:induction false} WriteUserDelivers(s: State, p: nat, va: nat, data: seq<byte>, v: Variant)
    requires Inv(s) && UserRange(p, va, |data|) && Sound(s.frames, v)
    requires RangeCost(s, p, va / PAGESIZE, EndPage(va, |data|)) <= Room(s, p)
    ensures var s' := WriteUser(s, p, va, data, v);
            && Holds(s', p, va, data)
            && Charged(s.cs, s'.cs, p, RangeCost(s, p, va / PAGESIZE, EndPage(va, |data|)))
    decreases |data|, 1
  {
    if data == [] {
      NothingDelivered(s, p, va);
    } else {
      DeliverStep(s, p, va, data, v);
    }
  }

  lemma {:induction false} DeliverStep(s: State, p: nat, va: nat, data: seq<byte>, v: Variant)
    requires Inv(s) && UserRange(p, va, |data|) && Sound(s.frames, v) && data != [] && Shaped(s)
    requires RangeCost(s, p, va / PAGESIZE, EndPage(va, |data|)) <= Room(s, p)
    ensures var s' := WriteUser(s, p, va, data, v);
            && Holds(s', p, va, data)
            && Charged(s.cs, s'.cs, p, RangeCost(s, p, va / PAGESIZE, EndPage(va, |data|)))
    decreases |data|, 0
  {
    hide Inv, Stepped, StepDelivered, WriteUser, WriteStep, ChunkSize, RangeCost, Charged, Holds, BytesOutside,
         EntriesOutside, SlotsKept, EndPage, Absent;
    WriteUserUnfold(s, p, va, data, v);
    var n := ChunkSize(va, |data|);
    var s2 := WriteStep(s, p, va, data[..n], v);
    var s' := WriteUser(s2, p, va + n, data[n..], v);
    FirstPageAffordable(s, p, va, data);
    StepDelivers(s, p, va, data[..n], v);
    StepDeliveredParts(s, s2, p, va, data[..n]);
    SteppedEntries(s, s2, p, va, data[..n], v);
    CostAfterStep(s, s2, p, va, |data|);
    RoomAfter(s, s2, p, StepCost(s, p, va / PAGESIZE));
    WriteUserDelivers(s2, p, va + n, data[n..], v);
    WriteUserKeeps(s2, p, va + n, data[n..], v);
    WalkedBytes(s2, s', p, va + n, |data| - n, v);
    HoldsOn(s2, s', p, va, n, |data| - n, data);
    ChargedSteps(s.cs, s2.cs, s'.cs, p, StepCost(s, p, va / PAGESIZE),
                 RangeCost(s2, p, (va + n) / PAGESIZE, EndPage(va + n, |data| - n)));
  }

  lemma FirstPageAffordable(s: State, p: nat, va: nat, data: seq<byte>)
    requires Shaped(s) && UserRange(p, va, |data|) && data != []
    ensures UserPage(p, va / PAGESIZE)
    ensures StepCost(s, p, va / PAGESIZE) <= RangeCost(s, p, va / PAGESIZE, EndPage(va, |data|))
  {
    RangeCostCoversFirst(s, p, va / PAGESIZE, EndPage(va, |data|));
  }

  lemma StepDeliveredParts(s: State, s2: State, p: nat, va: nat, data: seq<byte>)
    requires Shaped(s) && Shaped(s2) && UserPage(p, va / PAGESIZE) && StepDelivered(s, s2, p, va, data)
    ensures Charged(s.cs, s2.cs, p, StepCost(s, p, va / PAGESIZE)) && Holds(s2, p, va, data)
    ensures !Absent(s2, p, va / PAGESIZE) && SlotsKept(s.dirs, s2.dirs, p, va / PAGESIZE / NUM_TABLES)
  {}

  lemma SteppedEntries(s: State, s2: State, p: nat, va: nat, data: seq<byte>, v: Variant)
    requires Shaped(s) && Shaped(s2) && UserPage(p, va / PAGESIZE) && Stepped(s, s2, p, va, data, v)
    ensures EntriesOutside(s, s2, p, va / PAGESIZE, va / PAGESIZE + 1)
  {}

  lemma WalkedBytes(s: State, s': State, p: nat, va: nat, n: nat, v: Variant)
    requires Shaped(s) && Shaped(s') && Walked(s, s', p, va, n, v)
    ensures BytesOutside(s, s', p, va, va + n) && EntriesOutside(s, s', p, va / PAGESIZE, EndPage(va, n))
    ensures Inv(s') && Sound(s'.frames, v) && KernelKept(s.mem, s'.mem)
  {}

  /** Too little quota: some byte of the range is not mapped afterwards. */
  lemma {:induction false} WriteUserFallsShort(s: State, p: nat, va: nat, data: seq<byte>, v: Variant)
    requires Inv(s) && UserRange(p, va, |data|) && Sound(s.frames, v)
    requires RangeCost(s, p, va / PAGESIZE, EndPage(va, |data|)) > Room(s, p)
    ensures !Holds(WriteUser(s, p, va, data, v), p, va, data)
    decreases |data|
  {
    hide Inv, Stepped, StepDelivered, WriteUser, WriteStep, ChunkSize, RangeCost, Charged, Holds, EndPage, Absent,
         Walked, EntriesOutside, SlotsKept;
    InvShaped(s);
    InvRoom(s, p);
    if data == [] {
      NothingDelivered(s, p, va);
    } else {
      WriteUserUnfold(s, p, va, data, v);
      var n := ChunkSize(va, |data|);
      var s2 := WriteStep(s, p, va, data[..n], v);
      var s' := WriteUser(s2, p, va + n, data[n..], v);
      if Room(s, p) < StepCost(s, p, va / PAGESIZE) {
        StepFails(s, p, va, data[..n], v);
        WriteUserKeeps(s2, p, va + n, data[n..], v);
        WalkedBytes(s2, s', p, va + n, |data| - n, v);
        StaysAbsent(s2, s', p, va, n, data);
      } else {
        StepDelivers(s, p, va, data[..n], v);
        StepDeliveredParts(s, s2, p, va, data[..n]);
        SteppedEntries(s, s2, p, va, data[..n], v);
        CostAfterStep(s, s2, p, va, |data|);
        RoomAfter(s, s2, p, StepCost(s, p, va / PAGESIZE));
        WriteUserFallsShort(s2, p, va + n, data[n..], v);
        HoldsSuffix(s', p, va, n, data);
      }
    }
  }

  lemma InvRoom(s: State, p: nat)
    requires Inv(s) && p < MAX_PROCS
    ensures Room(s, p) >= 0
  {}

  lemma StaysAbsent(s2: State, s': State, p: nat, va: nat, n: nat, data: seq<byte>)
    requires Shaped(s2) && Shaped(s') && UserRange(p, va, |data|) && 0 < n <= |data|
    requires UserPage(p, va / PAGESIZE) && Absent(s2, p, va / PAGESIZE)
    requires n == |data| || (va + n) % PAGESIZE == 0
    requires EntriesOutside(s2, s', p, (va + n) / PAGESIZE, EndPage(va + n, |data| - n))
    ensures !Holds(s', p, va, data)
  {
    hide Pte;
    assert Absent(s', p, va / PAGESIZE) by {
      if n == |data| {
        assert EndPage(va + n, 0) == (va + n) / PAGESIZE;
      } else {
        assert va / PAGESIZE < (va + n) / PAGESIZE;
      }
    }
    SomeIsPresent(s', p, va);
  }

  lemma HoldsSuffix(s': State, p: nat, va: nat, n: nat, data: seq<byte>)
    requires Shaped(s') && UserRange(p, va, |data|) && n <= |data|
    ensures Holds(s', p, va, data) ==> Holds(s', p, va + n, data[n..])
  {
    hide UserByte;
    if Holds(s', p, va, data) {
      forall w | va + n <= w < va + n + |data[n..]| && UserPage(p, w / PAGESIZE)
        ensures UserByte(s', p, w) == Some(data[n..][w - (va + n)])
      {
        assert data[n..][w - (va + n)] == data[w - va];
      }
    }
  }

  /** Delivery, exactly: after the copy `p` sees `data` at `va` if and only if its unused quota
      covers the absent pages and absent tables of the range, and then it is charged exactly
      that many frames. */
  lemma DeliveredIff(s: State, p: nat, va: nat, data: seq<byte>, v: Variant)
    requires Inv(s) && UserRange(p, va, |data|) && Sound(s.frames, v)
    ensures var s' := WriteUser(s, p, va, data, v);
            var cost := RangeCost(s, p, va / PAGESIZE, EndPage(va, |data|));
            && (Holds(s', p, va, data) <==> cost <= Room(s, p))
            && (cost <= Room(s, p) ==> Charged(s.cs, s'.cs, p, cost))
  {
    hide Inv, WriteUser, RangeCost, Holds, EndPage, Charged;
    InvShaped(s);
    if RangeCost(s, p, va / PAGESIZE, EndPage(va, |data|)) <= Room(s, p) {
      WriteUserDelivers(s, p, va, data, v);
    } else {
      WriteUserFallsShort(s, p, va, data, v);
    }
  }
}
