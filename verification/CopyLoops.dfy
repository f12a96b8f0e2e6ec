/** PTCopyOut, PTMemSet and PTCopyIn as the source iterates them, between user memory and a
    kernel buffer at its identity-mapped address. */
module CopyLoops {
  import opened Words
  import opened Frames
  import opened Quota
  import opened Machine
  import opened Books
  import opened PageTables
  import opened Ownership
  import opened UserMemory
  import opened UserWrite
  import opened Delivery

  /** A buffer in kernel memory, above page 0. */
  predicate KernelBuffer(kva: int, len: int) { PAGESIZE <= kva && 0 <= len && kva + len <= USERLO }

  /** The guard of PTCopyIn and PTCopyOut, with its 32-bit additions. */
  predicate CopyGuard(uva: uint32, kva: uint32, len: uint32) {
    USERLO <= uva && (uva + len) % WORD <= USERHI && (kva + len) % WORD <= USERHI
  }

  /** With a kernel buffer, the guard lets through the user ranges and, wrongly, the ranges
      whose end wraps past 32 bits. */
  lemma CopyGuardIff(uva: uint32, kva: uint32, len: uint32)
    requires KernelBuffer(kva, len)
    ensures CopyGuard(uva, kva, len) <==> USERLO <= uva && (uva + len <= USERHI || uva + len >= WORD)
  {}

  function CopyOut(s: State, kva: nat, p: nat, uva: nat, len: nat, v: Variant): (r: State)
    requires Shaped(s) && p < MAX_PROCS && uva + len <= WORD && kva + len <= WORD
    ensures Shaped(r)
    decreases len
  {
    if len == 0 then s
    else
      var n := ChunkSize(uva, len);
      CopyOut(OutStep(s, kva, p, uva, n, v), kva + n, p, uva + n, len - n, v)
  }

  /** One iteration of PTCopyOut's loop. */
  function OutStep(s: State, kva: nat, p: nat, uva: nat, n: nat, v: Variant): (r: State)
    requires Shaped(s) && InTable(p, uva / PAGESIZE) && uva % PAGESIZE + n <= PAGESIZE && kva + n <= WORD
    ensures Shaped(r)
  {
    var s1 := EnsurePage(s, p, uva / PAGESIZE, v);
    s1.(mem := CopyForward(s1.mem, PhysAddr(s1.dirs, s1.mem, p, uva), kva, n))
  }

  function MemSetUser(s: State, p: nat, va: nat, c: byte, len: nat, v: Variant): (r: State)
    requires Shaped(s) && p < MAX_PROCS && va + len <= WORD
    ensures Shaped(r)
    decreases len
  {
    if len == 0 then s
    else
      var n := ChunkSize(va, len);
      MemSetUser(SetStep(s, p, va, c, n, v), p, va + n, c, len - n, v)
  }

  /** One iteration of PTMemSet's loop. */
  function SetStep(s: State, p: nat, va: nat, c: byte, n: nat, v: Variant): (r: State)
    requires Shaped(s) && InTable(p, va / PAGESIZE) && va % PAGESIZE + n <= PAGESIZE
    ensures Shaped(r)
  {
    var s1 := EnsurePage(s, p, va / PAGESIZE, v);
    s1.(mem := Fill(s1.mem, PhysAddr(s1.dirs, s1.mem, p, va), n, c))
  }

  function CopyIn(s: State, p: nat, uva: nat, kva: nat, len: nat, v: Variant): (r: State)
    requires Shaped(s) && p < MAX_PROCS && uva + len <= WORD && kva + len <= WORD
    ensures Shaped(r)
    decreases len
  {
    if len == 0 then s
    else CopyIn(ReadStep(s, p, uva, kva, ChunkSize(uva, len), v), p, uva + ChunkSize(uva, len),
                kva + ChunkSize(uva, len), len - ChunkSize(uva, len), v)
  }

  /** One iteration of PTCopyIn's loop. */
  function ReadStep(s: State, p: nat, uva: nat, kva: nat, n: nat, v: Variant): (r: State)
    requires Shaped(s) && InTable(p, uva / PAGESIZE) && uva % PAGESIZE + n <= PAGESIZE && kva + n <= WORD
    ensures Shaped(r)
  {
    var s1 := EnsurePage(s, p, uva / PAGESIZE, v);
    s1.(mem := CopyForward(s1.mem, kva, PhysAddr(s1.dirs, s1.mem, p, uva), n))
  }

  // ----- ranges whose end passes 2^32: the user address wraps to 0 once

  function CopyOutAround(s: State, kva: nat, p: nat, uva: uint32, len: uint32, v: Variant): (r: State)
    requires Shaped(s) && p < MAX_PROCS && kva + len <= WORD
    ensures Shaped(r)
  {
    if uva + len <= WORD then CopyOut(s, kva, p, uva, len, v)
    else
      var first := WORD - uva;
      CopyOut(CopyOut(s, kva, p, uva, first, v), kva + first, p, 0, len - first, v)
  }

  function CopyInAround(s: State, p: nat, uva: uint32, kva: nat, len: uint32, v: Variant): (r: State)
    requires Shaped(s) && p < MAX_PROCS && kva + len <= WORD
    ensures Shaped(r)
  {
    if uva + len <= WORD then CopyIn(s, p, uva, kva, len, v)
    else
      var first := WORD - uva;
      CopyIn(CopyIn(s, p, uva, kva, first, v), p, 0, kva + first, len - first, v)
  }

  function MemSetAround(s: State, p: nat, va: uint32, c: byte, len: uint32, v: Variant): (r: State)
    requires Shaped(s) && p < MAX_PROCS
    ensures Shaped(r)
  {
    if va + len <= WORD then MemSetUser(s, p, va, c, len, v)
    else
      var first := WORD - va;
      MemSetUser(MemSetUser(s, p, va, c, first, v), p, 0, c, len - first, v)
  }

  /** No chunk crosses the end of the address space. */
  lemma ChunkBeforeEnd(uva: uint32, len: uint32)
    requires len > 0
    ensures var n := ChunkSize(uva, len);
            && uva + n <= WORD && 0 < n <= len
            && (uva + len > WORD ==> n == ChunkSize(uva, WORD - uva))
            && (uva + n < WORD ==> (uva + n) % WORD == uva + n) && (uva + n == WORD ==> (uva + n) % WORD == 0)
  {}

  lemma CopyOutNone(s: State, kva: nat, p: nat, uva: nat, v: Variant)
    requires Shaped(s) && p < MAX_PROCS && uva <= WORD && kva <= WORD
    ensures CopyOut(s, kva, p, uva, 0, v) == s
  {}

  lemma CopyOutOnce(s: State, kva: nat, p: nat, uva: nat, len: nat, v: Variant)
    requires Shaped(s) && p < MAX_PROCS && uva + len <= WORD && kva + len <= WORD && len > 0
    ensures var n := ChunkSize(uva, len);
            CopyOut(s, kva, p, uva, len, v) == CopyOut(OutStep(s, kva, p, uva, n, v), kva + n, p, uva + n, len - n, v)
  {}

  lemma CopyInNone(s: State, p: nat, uva: nat, kva: nat, v: Variant)
    requires Shaped(s) && p < MAX_PROCS && uva <= WORD && kva <= WORD
    ensures CopyIn(s, p, uva, kva, 0, v) == s
  {}

  lemma CopyInOnce(s: State, p: nat, uva: nat, kva: nat, len: nat, v: Variant)
    requires Shaped(s) && p < MAX_PROCS && uva + len <= WORD && kva + len <= WORD && len > 0
    ensures var n := ChunkSize(uva, len);
            CopyIn(s, p, uva, kva, len, v) == CopyIn(ReadStep(s, p, uva, kva, n, v), p, uva + n, kva + n, len - n, v)
  {}

  lemma MemSetNone(s: State, p: nat, va: nat, c: byte, v: Variant)
    requires Shaped(s) && p < MAX_PROCS && va <= WORD
    ensures MemSetUser(s, p, va, c, 0, v) == s
  {}

  lemma MemSetOnce(s: State, p: nat, va: nat, c: byte, len: nat, v: Variant)
    requires Shaped(s) && p < MAX_PROCS && va + len <= WORD && len > 0
    ensures var n := ChunkSize(va, len);
            MemSetUser(s, p, va, c, len, v) == MemSetUser(SetStep(s, p, va, c, n, v), p, va + n, c, len - n, v)
  {}

  lemma NothingAround(s: State, kva: nat, p: nat, uva: uint32, c: byte, v: Variant)
    requires Shaped(s) && p < MAX_PROCS && kva <= WORD
    ensures CopyOutAround(s, kva, p, uva, 0, v) == CopyInAround(s, p, uva, kva, 0, v)
            == MemSetAround(s, p, uva, c, 0, v) == s
  {}

  lemma CopyOutAroundStep(s: State, kva: nat, p: nat, uva: uint32, len: uint32, v: Variant)
    requires Shaped(s) && p < MAX_PROCS && kva + len <= WORD && len > 0
    ensures var n := ChunkSize(uva, len);
            && uva % PAGESIZE + n <= PAGESIZE && n <= len
            && CopyOutAround(s, kva, p, uva, len, v)
               == CopyOutAround(OutStep(s, kva, p, uva, n, v), kva + n, p, (uva + n) % WORD, len - n, v)
  {
    hide OutStep, ChunkSize, CopyOut;
    ChunkBeforeEnd(uva, len);
    var n := ChunkSize(uva, len);
    var s2 := OutStep(s, kva, p, uva, n, v);
    var first := if uva + len <= WORD then len else WORD - uva;
    CopyOutOnce(s, kva, p, uva, first, v);
    if uva + n == WORD {
      CopyOutNone(s2, kva + n, p, WORD, v);
      CopyOutNone(s2, kva + n, p, 0, v);
    } else {
      assert first == len || uva + n + (len - n) > WORD;
    }
  }

  lemma CopyInAroundStep(s: State, p: nat, uva: uint32, kva: nat, len: uint32, v: Variant)
    requires Shaped(s) && p < MAX_PROCS && kva + len <= WORD && len > 0
    ensures var n := ChunkSize(uva, len);
            && uva % PAGESIZE + n <= PAGESIZE && n <= len
            && CopyInAround(s, p, uva, kva, len, v)
               == CopyInAround(ReadStep(s, p, uva, kva, n, v), p, (uva + n) % WORD, kva + n, len - n, v)
  {
    hide ReadStep, ChunkSize, CopyIn;
    ChunkBeforeEnd(uva, len);
    var n := ChunkSize(uva, len);
    var s2 := ReadStep(s, p, uva, kva, n, v);
    var first := if uva + len <= WORD then len else WORD - uva;
    CopyInOnce(s, p, uva, kva, first, v);
    if uva + n == WORD {
      CopyInNone(s2, p, WORD, kva + n, v);
      CopyInNone(s2, p, 0, kva + n, v);
    } else {
      assert first == len || uva + n + (len - n) > WORD;
    }
  }

  lemma MemSetAroundStep(s: State, p: nat, va: uint32, c: byte, len: uint32, v: Variant)
    requires Shaped(s) && p < MAX_PROCS && len > 0
    ensures var n := ChunkSize(va, len);
            && va % PAGESIZE + n <= PAGESIZE && n <= len
            && MemSetAround(s, p, va, c, len, v)
               == MemSetAround(SetStep(s, p, va, c, n, v), p, (va + n) % WORD, c, len - n, v)
  {
    hide SetStep, ChunkSize, MemSetUser;
    ChunkBeforeEnd(va, len);
    var n := ChunkSize(va, len);
    var s2 := SetStep(s, p, va, c, n, v);
    var first := if va + len <= WORD then len else WORD - va;
    MemSetOnce(s, p, va, c, first, v);
    if va + n == WORD {
      MemSetNone(s2, p, WORD, c, v);
      MemSetNone(s2, p, 0, c, v);
    } else {
      assert first == len || va + n + (len - n) > WORD;
    }
  }

  // ----- both writing loops are the same walk

  /** A user page's frame and a kernel buffer never overlap, even when the page is missing. */
  lemma ChunkApartFromBuffer(s: State, p: nat, va: nat, n: nat, kva: nat)
    requires Inv(s) && UserPage(p, va / PAGESIZE) && va % PAGESIZE + n <= PAGESIZE && KernelBuffer(kva, n)
    ensures var pa := PhysAddr(s.dirs, s.mem, p, va); pa + n <= kva || kva + n <= pa
  {
    PageFrame(s, p, va / PAGESIZE);
  }

  lemma CopyOutChunk(s: State, kva: nat, p: nat, uva: nat, n: nat, v: Variant)
    requires Inv(s) && UserPage(p, uva / PAGESIZE) && uva % PAGESIZE + n <= PAGESIZE
    requires Sound(s.frames, v) && KernelBuffer(kva, n)
    ensures OutStep(s, kva, p, uva, n, v) == WriteStep(s, p, uva, s.mem[kva..kva + n], v)
  {
    hide Inv, Ensured, EnsurePage, PhysAddr, CopyForward;
    InvShaped(s);
    var s1 := EnsurePage(s, p, uva / PAGESIZE, v);
    EnsurePageEffect(s, p, uva / PAGESIZE, v);
    EnsuredKernel(s, s1, p, uva / PAGESIZE, v);
    ChunkApartFromBuffer(s1, p, uva, n, kva);
    CopyForwardMoves(s1.mem, PhysAddr(s1.dirs, s1.mem, p, uva), kva, n);
    assert s1.mem[kva..kva + n] == s.mem[kva..kva + n];
  }

  lemma CopyOutStep(s: State, kva: nat, p: nat, uva: nat, len: nat, v: Variant)
    requires Inv(s) && UserRange(p, uva, len) && Sound(s.frames, v) && KernelBuffer(kva, len) && len > 0
    ensures var n := ChunkSize(uva, len);
            var s2 := WriteStep(s, p, uva, s.mem[kva..kva + n], v);
            && CopyOut(s, kva, p, uva, len, v) == CopyOut(s2, kva + n, p, uva + n, len - n, v)
            && s2.mem[kva + n..kva + len] == s.mem[kva + n..kva + len]
  {
    hide Inv, Stepped, WriteStep, OutStep;
    InvShaped(s);
    var n := ChunkSize(uva, len);
    CopyOutChunk(s, kva, p, uva, n, v);
    StepKeeps(s, p, uva, s.mem[kva..kva + n], v);
    SteppedKernel(s, WriteStep(s, p, uva, s.mem[kva..kva + n], v), p, uva, s.mem[kva..kva + n], v);
  }

  lemma EnsuredKernel(s: State, s1: State, p: nat, vpn: nat, v: Variant)
    requires Shaped(s) && Shaped(s1) && UserPage(p, vpn) && Ensured(s, s1, p, vpn, v)
    ensures Inv(s1) && Sound(s1.frames, v)
    ensures forall i :: 0 <= i < USERLO ==> s1.mem[i] == s.mem[i]
  {}

  lemma SteppedKernel(s: State, s2: State, p: nat, va: nat, data: seq<byte>, v: Variant)
    requires Shaped(s) && Shaped(s2) && UserPage(p, va / PAGESIZE) && Stepped(s, s2, p, va, data, v)
    ensures Inv(s2) && Sound(s2.frames, v) && KernelKept(s.mem, s2.mem)
  {}

  /** PTCopyOut from a kernel buffer writes the buffer's bytes, as they were before the call. */
  lemma {:induction false} CopyOutWrites(s: State, kva: nat, p: nat, uva: nat, len: nat, v: Variant)
    requires Inv(s) && UserRange(p, uva, len) && Sound(s.frames, v) && KernelBuffer(kva, len)
    ensures CopyOut(s, kva, p, uva, len, v) == WriteUser(s, p, uva, s.mem[kva..kva + len], v)
    decreases len
  {
    hide Inv, Stepped, WriteUser, CopyOut, WriteStep, ChunkSize;
    InvShaped(s);
    var data := s.mem[kva..kva + len];
    if len == 0 {
      NoBytes(s, kva, p, uva, v);
    } else {
      var n := ChunkSize(uva, len);
      CopyOutStep(s, kva, p, uva, len, v);
      WriteUserUnfold(s, p, uva, data, v);
      assert data[..n] == s.mem[kva..kva + n] && data[n..] == s.mem[kva + n..kva + len];
      CopyOutWrites(WriteStep(s, p, uva, data[..n], v), kva + n, p, uva + n, len - n, v);
    }
  }

  lemma NoBytes(s: State, kva: nat, p: nat, uva: nat, v: Variant)
    requires Shaped(s) && p < MAX_PROCS && uva <= WORD && kva <= WORD
    ensures CopyOut(s, kva, p, uva, 0, v) == s && WriteUser(s, p, uva, [], v) == s
    ensures s.mem[kva..kva + 0] == []
  {}

  function Repeat(c: byte, len: nat): (data: seq<byte>)
    ensures |data| == len && forall i :: 0 <= i < len ==> data[i] == c
  {
    seq(len, i => c)
  }

  /** PTMemSet writes `len` copies of the byte. */
  lemma {:induction false} MemSetWrites(s: State, p: nat, va: nat, c: byte, len: nat, v: Variant)
    requires Shaped(s) && p < MAX_PROCS && va + len <= WORD
    ensures MemSetUser(s, p, va, c, len, v) == WriteUser(s, p, va, Repeat(c, len), v)
    decreases len
  {
    hide EnsurePage, WriteUser, MemSetUser, WriteStep;
    MemSetUnfold(s, p, va, c, len, v);
    if len > 0 {
      var n := ChunkSize(va, len);
      assert Repeat(c, len)[..n] == Repeat(c, n) && Repeat(c, len)[n..] == Repeat(c, len - n);
      MemSetWrites(WriteStep(s, p, va, Repeat(c, n), v), p, va + n, c, len - n, v);
    }
  }

  lemma MemSetUnfold(s: State, p: nat, va: nat, c: byte, len: nat, v: Variant)
    requires Shaped(s) && p < MAX_PROCS && va + len <= WORD
    ensures var n := ChunkSize(va, len);
            if len == 0 then MemSetUser(s, p, va, c, len, v) == WriteUser(s, p, va, Repeat(c, len), v)
            else
              && MemSetUser(s, p, va, c, len, v)
                 == MemSetUser(WriteStep(s, p, va, Repeat(c, n), v), p, va + n, c, len - n, v)
              && WriteUser(s, p, va, Repeat(c, len), v)
                 == WriteUser(WriteStep(s, p, va, Repeat(c, len)[..n], v), p, va + n, Repeat(c, len)[n..], v)
  {
    hide EnsurePage, PhysAddr;
    if len > 0 {
      var n := ChunkSize(va, len);
      var s1 := EnsurePage(s, p, va / PAGESIZE, v);
      assert Repeat(c, n) == seq(n, i => c);
      assert SetStep(s, p, va, c, n, v) == s1.(mem := Fill(s1.mem, PhysAddr(s1.dirs, s1.mem, p, va), n, c));
      assert SetStep(s, p, va, c, n, v) == WriteStep(s, p, va, Repeat(c, n), v);
    }
  }
}
