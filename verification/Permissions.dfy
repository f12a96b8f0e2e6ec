/** The permissions of the pages the copies add: present, writable and user (bits 0, 1 and 2 of
    the entry, section 4.3 of Intel SDM volume 3A), while every present page keeps its entry. */
module Permissions {
  import opened Words
  import opened Frames
  import opened Quota
  import opened Machine
  import opened Books
  import opened PageTables
  import opened Ownership
  import opened UserMemory
  import opened UserWrite
  import opened Delivery
  import opened CopyLoops
  import opened CopyInLoop
  import opened PutStr

  /** Only absent pages of `p` in `[lo, hi)` get new entries, and those end in 7. */
  ghost predicate Gained(s: State, s': State, p: int, lo: int, hi: int)
    requires Shaped(s) && Shaped(s')
  {
    forall q, x :: UserPage(q, x) ==>
      || Pte(s'.dirs, s'.mem, q, x) == Pte(s.dirs, s.mem, q, x)
      || (q == p && lo <= x < hi && Pte(s.dirs, s.mem, q, x) % 2 == 0 && Pte(s'.dirs, s'.mem, q, x) % 4096 == 7)
  }

  lemma EnsureGains(s: State, s1: State, p: nat, vpn: nat, v: Variant)
    requires Shaped(s) && Shaped(s1) && UserPage(p, vpn) && Ensured(s, s1, p, vpn, v)
    ensures Gained(s, s1, p, vpn, vpn + 1)
  {
    hide Inv, ContentsKept, Charged;
  }

  lemma StoreGains(s: State, s1: State, s2: State, p: nat, lo: nat, hi: nat)
    requires Shaped(s) && Shaped(s1) && Shaped(s2) && Gained(s, s1, p, lo, hi)
    requires SameEntries(s1.dirs, s1.mem, s2.dirs, s2.mem)
    ensures Gained(s, s2, p, lo, hi)
  {
    hide Pte;
  }

  lemma WalkGains(s: State, s2: State, s': State, p: nat, va: nat, n: nat, len: nat)
    requires Shaped(s) && Shaped(s2) && Shaped(s') && 0 < n <= len && va % PAGESIZE + n <= PAGESIZE
    requires n == len || (va + n) % PAGESIZE == 0
    requires Gained(s, s2, p, va / PAGESIZE, va / PAGESIZE + 1)
    requires Gained(s2, s', p, (va + n) / PAGESIZE, EndPage(va + n, len - n))
    ensures Gained(s, s', p, va / PAGESIZE, EndPage(va, len))
  {
    hide Pte;
    PagesOfRange(va, n, len - n);
  }

  lemma {:induction false} WriteUserGains(s: State, p: nat, va: nat, data: seq<byte>, v: Variant)
    requires Inv(s) && Sound(s.frames, v) && UserRange(p, va, |data|)
    ensures Shaped(s) && Gained(s, WriteUser(s, p, va, data, v), p, va / PAGESIZE, EndPage(va, |data|))
    decreases |data|
  {
    hide Inv, Pte, Gained, WriteStep, Stepped, EnsurePage, ChunkSize, Walked, EndPage;
    InvShaped(s);
    if data == [] {
      GainedNothing(s, p, va / PAGESIZE, EndPage(va, 0));
    } else {
      WriteUserUnfold(s, p, va, data, v);
      var n := ChunkSize(va, |data|);
      ChunkEnds(va, |data|);
      var s2 := WriteStep(s, p, va, data[..n], v);
      WriteStepGains(s, p, va, data[..n], v);
      WriteUserGains(s2, p, va + n, data[n..], v);
      WalkGains(s, s2, WriteUser(s2, p, va + n, data[n..], v), p, va, n, |data|);
    }
  }

  lemma GainedNothing(s: State, p: nat, lo: nat, hi: nat)
    requires Shaped(s)
    ensures Gained(s, s, p, lo, hi)
  {
    hide Pte;
  }

  lemma WriteStepGains(s: State, p: nat, va: nat, data: seq<byte>, v: Variant)
    requires Inv(s) && Sound(s.frames, v) && UserPage(p, va / PAGESIZE) && va % PAGESIZE + |data| <= PAGESIZE
    ensures Shaped(s) && Gained(s, WriteStep(s, p, va, data, v), p, va / PAGESIZE, va / PAGESIZE + 1)
  {
    hide Inv, Pte, Gained, EnsurePage, UserByte, Ensured;
    InvShaped(s);
    var s1 := EnsurePage(s, p, va / PAGESIZE, v);
    EnsurePageEffect(s, p, va / PAGESIZE, v);
    EnsuredKernel(s, s1, p, va / PAGESIZE, v);
    EnsureGains(s, s1, p, va / PAGESIZE, v);
    WriteChunkEffect(s1, p, va, data);
    StoreGains(s, s1, WriteStep(s, p, va, data, v), p, va / PAGESIZE, va / PAGESIZE + 1);
  }

  lemma {:induction false} CopyInGains(s: State, p: nat, uva: nat, kva: nat, len: nat, v: Variant)
    requires Inv(s) && Sound(s.frames, v) && UserRange(p, uva, len) && ReadBuffer(s, kva, len)
    ensures Shaped(s) && kva + len <= USERLO
    ensures Gained(s, CopyIn(s, p, uva, kva, len, v), p, uva / PAGESIZE, EndPage(uva, len))
    decreases len
  {
    hide Inv, Pte, Gained, CopyIn, ReadStep, ReadStepped, EnsurePage, ChunkSize, ReadWalked, ReadBuffer, EndPage;
    InvShaped(s);
    BufferBounds(s, kva, len);
    if len == 0 {
      CopyInNone(s, p, uva, kva, v);
      GainedNothing(s, p, uva / PAGESIZE, EndPage(uva, 0));
    } else {
      CopyInUnfold(s, p, uva, kva, len, v);
      var n := ChunkSize(uva, len);
      ChunkEnds(uva, len);
      var s2 := ReadStep(s, p, uva, kva, n, v);
      ShorterBuffer(s, kva, n, len);
      ReadStepGains(s, p, uva, kva, n, v);
      CopyInGains(s2, p, uva + n, kva + n, len - n, v);
      WalkGains(s, s2, CopyIn(s2, p, uva + n, kva + n, len - n, v), p, uva, n, len);
    }
  }

  lemma ReadStepGains(s: State, p: nat, uva: nat, kva: nat, n: nat, v: Variant)
    requires Inv(s) && Sound(s.frames, v) && UserPage(p, uva / PAGESIZE) && uva % PAGESIZE + n <= PAGESIZE
    requires ReadBuffer(s, kva, n)
    ensures Shaped(s) && Gained(s, ReadStep(s, p, uva, kva, n, v), p, uva / PAGESIZE, uva / PAGESIZE + 1)
  {
    hide Inv, Pte, Gained, EnsurePage, UserByte, Ensured, Got, CopyForward, PhysAddr, ReadStepped;
    InvShaped(s);
    var s1 := EnsurePage(s, p, uva / PAGESIZE, v);
    EnsurePageEffect(s, p, uva / PAGESIZE, v);
    EnsureGains(s, s1, p, uva / PAGESIZE, v);
    ReadStepKeeps(s, p, uva, kva, n, v);
    StoreGains(s, s1, ReadStep(s, p, uva, kva, n, v), p, uva / PAGESIZE, uva / PAGESIZE + 1);
  }

  // ----- within quota

  /** The entry of a page of the range, after a copy that arrived. */
  ghost predicate EntryAfter(s: State, s': State, p: int, x: int)
    requires Shaped(s) && Shaped(s')
  {
    UserPage(p, x) ==>
      var before, after := Pte(s.dirs, s.mem, p, x), Pte(s'.dirs, s'.mem, p, x);
      if before % 2 == 1 then after == before else after % 4096 == 7
  }

  lemma EntriesAfter(s: State, s': State, p: nat, lo: nat, hi: nat)
    requires Shaped(s) && Shaped(s') && 1 <= p < MAX_PROCS && Gained(s, s', p, lo, hi)
    requires forall x :: lo <= x < hi && UserPage(p, x) ==> !Absent(s', p, x)
    ensures forall x :: lo <= x < hi ==> EntryAfter(s, s', p, x)
  {
    hide Pte;
    forall x | lo <= x < hi ensures EntryAfter(s, s', p, x) {
      if UserPage(p, x) {
        assert !Absent(s', p, x);
      }
    }
  }

  /** A write to a user range within quota: every page of the range that was absent is then
      present, writable and user, and every one that was present keeps its entry. */
  lemma WriteUserPermissions(s: State, p: nat, va: nat, data: seq<byte>, v: Variant)
    requires Inv(s) && Sound(s.frames, v) && UserRange(p, va, |data|) && Shaped(s)
    requires RangeCost(s, p, va / PAGESIZE, EndPage(va, |data|)) <= Room(s, p)
    ensures forall x :: va / PAGESIZE <= x < EndPage(va, |data|) ==> EntryAfter(s, WriteUser(s, p, va, data, v), p, x)
  {
    hide Inv, Pte, Gained, WriteUser, RangeCost, Holds, EntryAfter, EndPage, Absent;
    DeliveredIff(s, p, va, data, v);
    WriteUserGains(s, p, va, data, v);
    HeldPagesPresent(WriteUser(s, p, va, data, v), p, va, data);
    EntriesAfter(s, WriteUser(s, p, va, data, v), p, va / PAGESIZE, EndPage(va, |data|));
  }

  /** The same for a read. */
  lemma CopyInPermissions(s: State, p: nat, uva: nat, kva: nat, len: nat, v: Variant)
    requires Inv(s) && Sound(s.frames, v) && UserRange(p, uva, len) && ReadBuffer(s, kva, len) && Shaped(s)
    requires RangeCost(s, p, uva / PAGESIZE, EndPage(uva, len)) <= Room(s, p)
    ensures kva + len <= USERLO
    ensures forall x :: uva / PAGESIZE <= x < EndPage(uva, len) ==> EntryAfter(s, CopyIn(s, p, uva, kva, len, v), p, x)
  {
    hide Inv, Pte, Gained, CopyIn, RangeCost, Got, EntryAfter, EndPage, Absent, ReadBuffer;
    BufferBounds(s, kva, len);
    CopyInGotIff(s, p, uva, kva, len, v);
    CopyInGains(s, p, uva, kva, len, v);
    GotPagesPresent(CopyIn(s, p, uva, kva, len, v), p, uva, kva, len);
    EntriesAfter(s, CopyIn(s, p, uva, kva, len, v), p, uva / PAGESIZE, EndPage(uva, len));
  }

  lemma GotPagesPresent(s: State, p: nat, uva: nat, kva: nat, len: nat)
    requires Shaped(s) && UserRange(p, uva, len) && kva + len <= WORD && Got(s, p, uva, kva, len)
    ensures forall x :: uva / PAGESIZE <= x < EndPage(uva, len) && UserPage(p, x) ==> !Absent(s, p, x)
  {
    hide UserByte;
    forall x | uva / PAGESIZE <= x < EndPage(uva, len) && UserPage(p, x) ensures !Absent(s, p, x) {
      var w := if x == uva / PAGESIZE then uva else x * PAGESIZE;
      assert uva <= w < uva + len && w / PAGESIZE == x;
      SomeIsPresent(s, p, w);
    }
  }
}
