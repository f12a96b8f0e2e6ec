/** The copy loops as a whole: what a write to a user range leaves alone in any case, and that
    it arrives exactly when the quota covers the absent pages and absent tables of the range. */
module UserWrite {
  import opened Words
  import opened Frames
  import opened Quota
  import opened Machine
  import opened Books
  import opened PageTables
  import opened Ownership
  import opened UserMemory

  // ----- in any case, quota or not

  /** What a walk over `[va, va + n)` of `p` leaves alone. */
  ghost predicate Walked(s: State, s': State, p: int, va: nat, n: nat, v: Variant)
    requires Shaped(s) && Shaped(s')
  {
    && Inv(s') && Sound(s'.frames, v) && s'.identity == s.identity
    && EntriesOutside(s, s', p, va / PAGESIZE, EndPage(va, n))
    && BytesOutside(s, s', p, va, va + n)
    && KernelKept(s.mem, s'.mem)
  }

  /** One page of the walk. */
  function WriteStep(s: State, p: nat, va: nat, data: seq<byte>, v: Variant): (r: State)
    requires Shaped(s) && InTable(p, va / PAGESIZE) && va % PAGESIZE + |data| <= PAGESIZE
    ensures Shaped(r)
  {
    WriteChunk(EnsurePage(s, p, va / PAGESIZE, v), p, va, data)
  }

  lemma IdentityFixed(s: State, p: nat, va: nat, data: seq<byte>, v: Variant)
    requires Inv(s) && UserPage(p, va / PAGESIZE) && va % PAGESIZE + |data| <= PAGESIZE && Sound(s.frames, v)
    ensures WriteStep(s, p, va, data, v).identity == s.identity
  {
    if Absent(s, p, va / PAGESIZE) {
      AllocPageEffect(s, p, va / PAGESIZE, PTE_PWU, v);
    }
  }

  /** Entries and bytes after one step, before looking at the quota. */
  ghost predicate Stepped(s: State, s2: State, p: nat, va: nat, data: seq<byte>, v: Variant)
    requires Shaped(s) && Shaped(s2) && UserPage(p, va / PAGESIZE)
  {
    && Inv(s2) && Sound(s2.frames, v) && s2.identity == s.identity
    && EntriesOutside(s, s2, p, va / PAGESIZE, va / PAGESIZE + 1)
    && BytesOutside(s, s2, p, va, va + |data|)
    && KernelKept(s.mem, s2.mem)
  }

  lemma StepOutside(s: State, s1: State, s2: State, p: nat, va: nat, data: seq<byte>)
    requires Shaped(s) && Shaped(s1) && Shaped(s2) && UserPage(p, va / PAGESIZE)
    requires OnlyEntryOf(s.dirs, s.mem, s1.dirs, s1.mem, p, va / PAGESIZE)
    requires BytesOutside(s, s1, p, 0, 0) && KernelKept(s.mem, s1.mem)
    requires ChunkWritten(s1, s2, p, va, data)
    ensures EntriesOutside(s, s2, p, va / PAGESIZE, va / PAGESIZE + 1)
    ensures BytesOutside(s, s2, p, va, va + |data|) && KernelKept(s.mem, s2.mem)
  {
    hide UserByte, Pte;
  }

  lemma StepKeeps(s: State, p: nat, va: nat, data: seq<byte>, v: Variant)
    requires Inv(s) && UserPage(p, va / PAGESIZE) && va % PAGESIZE + |data| <= PAGESIZE && Sound(s.frames, v)
    ensures Stepped(s, WriteStep(s, p, va, data, v), p, va, data, v)
  {
    var s1 := EnsurePage(s, p, va / PAGESIZE, v);
    var s2 := WriteStep(s, p, va, data, v);
    IdentityFixed(s, p, va, data, v);
    EnsurePageEffect(s, p, va / PAGESIZE, v);
    EnsuredBytes(s, s1, p, va / PAGESIZE, v);
    WriteChunkEffect(s1, p, va, data);
    StepOutside(s, s1, s2, p, va, data);
  }

  lemma Compose(s: State, s2: State, s': State, p: nat, va: nat, n: nat, m: nat)
    requires Shaped(s) && Shaped(s2) && Shaped(s') && UserPage(p, va / PAGESIZE)
    requires 0 < n && (m == 0 || (va + n) % PAGESIZE == 0) && va % PAGESIZE + n <= PAGESIZE
    requires EntriesOutside(s, s2, p, va / PAGESIZE, va / PAGESIZE + 1)
    requires BytesOutside(s, s2, p, va, va + n)
    requires EntriesOutside(s2, s', p, (va + n) / PAGESIZE, EndPage(va + n, m))
    requires BytesOutside(s2, s', p, va + n, va + n + m)
    ensures EntriesOutside(s, s', p, va / PAGESIZE, EndPage(va, n + m))
    ensures BytesOutside(s, s', p, va, va + n + m)
  {
    hide UserByte, Pte;
    PagesOfRange(va, n, m);
  }

  lemma PagesOfRange(va: nat, n: nat, m: nat)
    requires 0 < n && (m == 0 || (va + n) % PAGESIZE == 0) && va % PAGESIZE + n <= PAGESIZE
    ensures m > 0 ==> (va + n) / PAGESIZE == va / PAGESIZE + 1 && EndPage(va + n, m) == EndPage(va, n + m)
    ensures m == 0 ==> EndPage(va, n + m) == va / PAGESIZE + 1
    ensures m > 0 ==> EndPage(va, n + m) > va / PAGESIZE + 1
  {}

  lemma ChunkEnds(va: nat, len: nat)
    requires len > 0
    ensures var n := ChunkSize(va, len); n == len || (va + n) % PAGESIZE == 0
  {}

  lemma WalkedNothing(s: State, p: int, va: nat, v: Variant)
    requires Inv(s) && Sound(s.frames, v)
    ensures Walked(s, s, p, va, 0, v)
  {}

  lemma WalkOn(s: State, s2: State, s': State, p: nat, va: nat, n: nat, data: seq<byte>, v: Variant)
    requires Shaped(s) && Shaped(s2) && Shaped(s') && UserPage(p, va / PAGESIZE)
    requires 0 < n <= |data| && (n == |data| || (va + n) % PAGESIZE == 0) && va % PAGESIZE + n <= PAGESIZE
    requires Stepped(s, s2, p, va, data[..n], v)
    requires Walked(s2, s', p, va + n, |data| - n, v)
    ensures Walked(s, s', p, va, |data|, v)
  {
    hide Inv, EntriesOutside, BytesOutside;
    Compose(s, s2, s', p, va, n, |data| - n);
  }

  lemma WriteUserUnfold(s: State, p: nat, va: nat, data: seq<byte>, v: Variant)
    requires Inv(s) && UserRange(p, va, |data|) && data != [] && Sound(s.frames, v)
    ensures var n := ChunkSize(va, |data|);
            var s2 := WriteStep(s, p, va, data[..n], v);
            && UserPage(p, va / PAGESIZE) && Shaped(s) && Inv(s2) && Sound(s2.frames, v)
            && (n == |data| || (va + n) % PAGESIZE == 0)
            && Stepped(s, s2, p, va, data[..n], v)
            && WriteUser(s, p, va, data, v) == WriteUser(s2, p, va + n, data[n..], v)
  {
    hide Stepped, Inv, WriteChunk, EnsurePage;
    InvShaped(s);
    ChunkEnds(va, |data|);
    StepKeeps(s, p, va, data[..ChunkSize(va, |data|)], v);
    SteppedInv(s, p, va, data[..ChunkSize(va, |data|)], v);
  }

  lemma SteppedInv(s: State, p: nat, va: nat, data: seq<byte>, v: Variant)
    requires Shaped(s) && UserPage(p, va / PAGESIZE) && va % PAGESIZE + |data| <= PAGESIZE
    requires Stepped(s, WriteStep(s, p, va, data, v), p, va, data, v)
    ensures Inv(WriteStep(s, p, va, data, v)) && Sound(WriteStep(s, p, va, data, v).frames, v)
  {}

  /** Isolation of a whole copy, even one whose allocations fail: it keeps the invariant, no
      other process and no other page of `p` is affected, and kernel memory above page 0 stays. */
  lemma {:induction false} WriteUserKeeps(s: State, p: nat, va: nat, data: seq<byte>, v: Variant)
    requires Inv(s) && UserRange(p, va, |data|) && Sound(s.frames, v)
    ensures Shaped(s) && Walked(s, WriteUser(s, p, va, data, v), p, va, |data|, v)
    decreases |data|, 1
  {
    if data == [] {
      WalkedNothing(s, p, va, v);
    } else {
      WriteUserStep(s, p, va, data, v);
    }
  }

  lemma {:induction false} WriteUserStep(s: State, p: nat, va: nat, data: seq<byte>, v: Variant)
    requires Inv(s) && UserRange(p, va, |data|) && Sound(s.frames, v) && data != []
    ensures Shaped(s) && Walked(s, WriteUser(s, p, va, data, v), p, va, |data|, v)
    decreases |data|, 0
  {
    hide Inv, Stepped, Walked, WriteUser, WriteStep, ChunkSize;
    WriteUserUnfold(s, p, va, data, v);
    var n := ChunkSize(va, |data|);
    var s2 := WriteStep(s, p, va, data[..n], v);
    WriteUserKeeps(s2, p, va + n, data[n..], v);
    WalkOn(s, s2, WriteUser(s2, p, va + n, data[n..], v), p, va, n, data, v);
  }
}
