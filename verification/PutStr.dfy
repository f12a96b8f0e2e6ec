/** SysPutStr (src/syscall.c): the chunks it reads through PTCopyIn tile the user's string. */
module PutStr {
  import opened Words
  import Format
  import opened Frames
  import opened Quota
  import opened Machine
  import opened Books
  import opened PageTables
  import opened Ownership
  import opened UserMemory
  import opened UserWrite
  import opened Delivery
  import opened CopyLoops
  import opened CopyInLoop
  import opened ElfLoad

  // ----- what a delivered read leaves in the directory, and the cost of a range in two parts

  lemma {:induction false} CopyInSlots(s: State, p: nat, uva: nat, kva: nat, len: nat, v: Variant)
    requires Inv(s) && UserRange(p, uva, len) && Sound(s.frames, v) && ReadBuffer(s, kva, len) && Shaped(s)
    requires RangeCost(s, p, uva / PAGESIZE, EndPage(uva, len)) <= Room(s, p)
    ensures kva + len <= USERLO
    ensures SlotsFilled(s.dirs, CopyIn(s, p, uva, kva, len, v).dirs, p, uva / PAGESIZE, EndPage(uva, len))
    decreases len
  {
    hide Inv, CopyIn, RangeCost, Charged, ReadStep, ChunkSize, ReadStepped, Absent, SlotsKept, EntriesOutside,
         StepCost, ReadBuffer, EndPage, SlotsFilled, Got;
    BufferBounds(s, kva, len);
    if len == 0 {
      NoSlots(s, p, uva, kva, v);
    } else {
      CopyInUnfold(s, p, uva, kva, len, v);
      var n := ChunkSize(uva, len);
      var s2 := ReadStep(s, p, uva, kva, n, v);
      FirstCost(s, p, uva, len);
      ShorterBuffer(s, kva, n, len);
      ReadStepDelivers(s, p, uva, kva, n, v);
      CostAfterStep(s, s2, p, uva, len);
      RoomAfter(s, s2, p, StepCost(s, p, uva / PAGESIZE));
      CopyInSlots(s2, p, uva + n, kva + n, len - n, v);
      SlotsStep(s, s2, CopyIn(s2, p, uva + n, kva + n, len - n, v).dirs, p, uva, len);
    }
  }

  lemma NoSlots(s: State, p: nat, uva: nat, kva: nat, v: Variant)
    requires Shaped(s) && p < MAX_PROCS && uva <= WORD && kva <= WORD
    ensures SlotsFilled(s.dirs, CopyIn(s, p, uva, kva, 0, v).dirs, p, uva / PAGESIZE, EndPage(uva, 0))
  {}

  lemma SlotsStep(s: State, s2: State, dirs': seq<uint32>, p: nat, uva: nat, len: nat)
    requires Shaped(s) && Shaped(s2) && |dirs'| == MAX_PROCS * NUM_TABLES && UserRange(p, uva, len) && len > 0
    requires UserPage(p, uva / PAGESIZE) && !Absent(s2, p, uva / PAGESIZE)
    requires SlotsKept(s.dirs, s2.dirs, p, uva / PAGESIZE / NUM_TABLES)
    requires var n := ChunkSize(uva, len);
             SlotsFilled(s2.dirs, dirs', p, (uva + n) / PAGESIZE, EndPage(uva + n, len - n))
    ensures SlotsFilled(s.dirs, dirs', p, uva / PAGESIZE, EndPage(uva, len))
  {
    hide Pte, SlotsFilled, EndPage, Absent;
    var n := ChunkSize(uva, len);
    ChunkEnds(uva, len);
    PagesOfRange(uva, n, len - n);
    TableOfPresentPage(s2, p, uva / PAGESIZE);
    assert OnlySlot(s.dirs, s2.dirs, p, uva / PAGESIZE / NUM_TABLES);
    if n == len {
      EmptyRange(uva + n);
      FilledNowhere(s2.dirs, dirs', p, (uva + n) / PAGESIZE, uva / PAGESIZE + 1);
    }
    SlotsFilledStep(s.dirs, s2.dirs, dirs', p, uva / PAGESIZE, EndPage(uva, len));
  }

  lemma EmptyRange(va: nat)
    ensures EndPage(va, 0) == va / PAGESIZE
  {}

  lemma FilledNowhere(dirs: seq<uint32>, dirs': seq<uint32>, p: int, x: int, y: int)
    requires |dirs| == |dirs'| == MAX_PROCS * NUM_TABLES && SlotsFilled(dirs, dirs', p, x, x)
    ensures SlotsFilled(dirs, dirs', p, y, y)
  {}

  /** A range's cost is its front's cost plus, once the front is present, the rest's; the two
      may share a page. */
  lemma RangeCostSplit(s: State, s1: State, p: nat, lo: nat, mid: nat, from: nat, hi: nat)
    requires Shaped(s) && Shaped(s1) && UserPage(p, lo) && lo < mid <= hi <= USERHI_PI && mid - 1 <= from <= mid
    requires EntriesOutside(s, s1, p, lo, mid) && SlotsFilled(s.dirs, s1.dirs, p, lo, mid)
    requires forall x :: lo <= x < mid && UserPage(p, x) ==> !Absent(s1, p, x)
    ensures RangeCost(s, p, lo, hi) == RangeCost(s, p, lo, mid) + RangeCost(s1, p, from, hi)
  {
    hide Pte;
    var all, front, rest := AbsentPages(s, p, lo, hi), AbsentPages(s, p, lo, mid), AbsentPages(s1, p, from, hi);
    assert all == front + rest && front !! rest;
    var tall, tfront, trest := AbsentTables(s, p, lo, hi), AbsentTables(s, p, lo, mid), AbsentTables(s1, p, from, hi);
    assert tall == tfront + trest && tfront !! trest;
  }

  // ----- the system call's loop

  function PutChunk(len: nat): nat { if len < PAGESIZE - 1 then len else PAGESIZE - 1 }

  /** The loop from `va` with `len` bytes remaining, through the buffer at `buf`: the final
      state and the bytes handed to PrintfColor each time, before the NUL stored after them. */
  function PutLoop(s: State, pid: nat, va: nat, len: nat, buf: nat, v: Variant): (r: (State, seq<seq<byte>>))
    requires Shaped(s) && pid < MAX_PROCS && va + len <= WORD && buf + PAGESIZE <= USERLO
    ensures Shaped(r.0)
    decreases len
  {
    if len == 0 then (s, [])
    else
      var n := PutChunk(len);
      var s1 := PutStep(s, pid, va, n, buf, v);
      var (s', rest) := PutLoop(s1, pid, va + n, len - n, buf, v);
      (s', [s1.mem[buf..buf + n]] + rest)
  }

  /** One chunk: read it into the buffer and store the NUL. */
  function PutStep(s: State, pid: nat, va: uint32, n: nat, buf: nat, v: Variant): (r: State)
    requires Shaped(s) && pid < MAX_PROCS && buf + PAGESIZE <= USERLO && n < PAGESIZE
    ensures Shaped(r)
  {
    var read := CopyInAround(s, pid, va, buf, n, v);
    read.(mem := read.mem[buf + n := 0])
  }

  /** The C string the printer finds in the buffer is the chunk, up to its first NUL if it has
      one, and never runs on into older bytes. */
  lemma ChunkIsPrinted(s: State, pid: nat, va: uint32, n: nat, buf: nat, v: Variant)
    requires Shaped(s) && pid < MAX_PROCS && buf + PAGESIZE <= USERLO && n < PAGESIZE
    ensures var m := PutStep(s, pid, va, n, buf, v).mem;
            && Format.CString(m[buf..]) == Format.CString(m[buf..buf + n])
            && (0 !in m[buf..buf + n] ==> Format.CString(m[buf..]) == m[buf..buf + n])
  {
    hide CopyInAround, Format.CString;
    var m := PutStep(s, pid, va, n, buf, v).mem;
    assert m[buf..][n] == 0 && m[buf..][..n] == m[buf..buf + n];
    Format.TerminatedCString(m[buf..], n);
    Format.CStringWhole(m[buf..buf + n]);
  }

  function Flatten(chunks: seq<seq<byte>>): seq<byte> {
    if chunks == [] then [] else chunks[0] + Flatten(chunks[1..])
  }

  /** `p` sees exactly `data` at `va`, and the chunks fit the buffer with their NUL. */
  ghost predicate Tiles(s: State, pid: int, va: int, chunks: seq<seq<byte>>)
    requires Shaped(s)
  {
    Holds(s, pid, va, Flatten(chunks)) && forall i :: 0 <= i < |chunks| ==> 0 < |chunks[i]| < PAGESIZE
  }

  /** One chunk within quota: read, terminated, and nothing seen by anyone changed. */
  lemma PutStepEffect(s: State, pid: nat, va: nat, n: nat, buf: nat, v: Variant)
    requires Inv(s) && Sound(s.frames, v) && UserRange(pid, va, n) && 0 < n < PAGESIZE && Shaped(s)
    requires ReadBuffer(s, buf, PAGESIZE)
    requires RangeCost(s, pid, va / PAGESIZE, EndPage(va, n)) <= Room(s, pid)
    ensures buf + PAGESIZE <= USERLO
    ensures var s1 := PutStep(s, pid, va, n, buf, v);
            && Inv(s1) && Sound(s1.frames, v) && s1.identity == s.identity
            && Charged(s.cs, s1.cs, pid, RangeCost(s, pid, va / PAGESIZE, EndPage(va, n)))
            && EntriesOutside(s, s1, pid, va / PAGESIZE, EndPage(va, n)) && BytesOutside(s, s1, pid, 0, 0)
            && SlotsFilled(s.dirs, s1.dirs, pid, va / PAGESIZE, EndPage(va, n))
            && Holds(s1, pid, va, s1.mem[buf..buf + n])
  {
    hide Inv, CopyIn, RangeCost, Charged, EntriesOutside, BytesOutside, SlotsFilled, Holds, Got, EndPage, ReadBuffer,
         ReadWalked, UserByte, Pte, SameEntries;
    BufferBounds(s, buf, PAGESIZE);
    ShorterBuffer(s, buf, n, PAGESIZE);
    InvRoom(s, pid);
    var read := CopyIn(s, pid, va, buf, n, v);
    var s1 := PutStep(s, pid, va, n, buf, v);
    assert CopyInAround(s, pid, va, buf, n, v) == read;
    CopyInKeeps(s, pid, va, buf, n, v);
    ReadWalkedInv(s, read, pid, va, buf, n, v);
    CopyInGotIff(s, pid, va, buf, n, v);
    CopyInSlots(s, pid, va, buf, n, v);
    BufferClear(read, buf, n, s);
    KernelWriteEffect(read, s1, buf + n, 1);
    AfterNul(s, read, s1, pid, va, n, buf);
  }

  lemma ReadWalkedInv(s: State, s': State, p: int, uva: nat, kva: nat, len: nat, v: Variant)
    requires Shaped(s) && Shaped(s') && ReadWalked(s, s', p, uva, kva, len, v)
    ensures Inv(s') && Sound(s'.frames, v) && s'.identity == s.identity
    ensures EntriesOutside(s, s', p, uva / PAGESIZE, EndPage(uva, len)) && BytesOutside(s, s', p, 0, 0)
  {}

  lemma BufferClear(read: State, buf: nat, n: nat, s: State)
    requires ReadBuffer(s, buf, PAGESIZE) && read.identity == s.identity && n < PAGESIZE
    ensures buf + n + 1 <= read.identity || read.identity + NUM_TABLES * PAGESIZE <= buf + n
  {}

  lemma AfterNul(s: State, read: State, s1: State, pid: nat, va: nat, n: nat, buf: nat)
    requires Shaped(s) && Shaped(read) && Shaped(s1) && UserRange(pid, va, n) && 0 < n < PAGESIZE
             && buf + PAGESIZE <= USERLO
    requires s1 == read.(mem := read.mem[buf + n := 0])
    requires SameEntries(read.dirs, read.mem, s1.dirs, s1.mem)
    requires forall q, w :: UserPage(q, w / PAGESIZE) ==> UserByte(s1, q, w) == UserByte(read, q, w)
    requires EntriesOutside(s, read, pid, va / PAGESIZE, EndPage(va, n)) && BytesOutside(s, read, pid, 0, 0)
    requires Got(read, pid, va, buf, n)
    ensures EntriesOutside(s, s1, pid, va / PAGESIZE, EndPage(va, n)) && BytesOutside(s, s1, pid, 0, 0)
    ensures Holds(s1, pid, va, s1.mem[buf..buf + n])
  {
    hide Pte, UserByte, EndPage;
    var data := s1.mem[buf..buf + n];
    forall w | va <= w < va + |data| && UserPage(pid, w / PAGESIZE) ensures UserByte(s1, pid, w) == Some(data[w - va]) {
      assert UserByte(read, pid, w) == Some(read.mem[buf + w - va]);
      assert data[w - va] == s1.mem[buf + (w - va)];
    }
  }

  /** The cost of the rest of the string, after its first chunk. */
  lemma PutCost(s: State, s1: State, pid: nat, va: nat, n: nat, len: nat, data: seq<byte>)
    requires Shaped(s) && Shaped(s1) && UserRange(pid, va, len) && 0 < n <= len && |data| == n
    requires EntriesOutside(s, s1, pid, va / PAGESIZE, EndPage(va, n))
    requires SlotsFilled(s.dirs, s1.dirs, pid, va / PAGESIZE, EndPage(va, n))
    requires Holds(s1, pid, va, data)
    ensures RangeCost(s, pid, va / PAGESIZE, EndPage(va, len))
            == RangeCost(s, pid, va / PAGESIZE, EndPage(va, n))
               + RangeCost(s1, pid, (va + n) / PAGESIZE, EndPage(va + n, len - n))
  {
    hide RangeCost, EntriesOutside, SlotsFilled, UserByte, Absent;
    var lo, mid, hi := va / PAGESIZE, EndPage(va, n), EndPage(va, len);
    HeldPagesPresent(s1, pid, va, data);
    if n == len {
      RangeCostSplit(s, s1, pid, lo, mid, mid, hi);
      EmptyRangeCostsNothing(s1, pid, mid, hi);
      EmptyRangeCostsNothing(s1, pid, (va + n) / PAGESIZE, EndPage(va + n, 0));
    } else {
      assert EndPage(va + n, len - n) == hi && mid - 1 <= (va + n) / PAGESIZE <= mid;
      RangeCostSplit(s, s1, pid, lo, mid, (va + n) / PAGESIZE, hi);
    }
  }

  lemma HeldPagesPresent(s: State, p: nat, va: nat, data: seq<byte>)
    requires Shaped(s) && UserRange(p, va, |data|) && Holds(s, p, va, data)
    ensures forall x :: va / PAGESIZE <= x < EndPage(va, |data|) && UserPage(p, x) ==> !Absent(s, p, x)
  {
    hide UserByte;
    forall x | va / PAGESIZE <= x < EndPage(va, |data|) && UserPage(p, x) ensures !Absent(s, p, x) {
      var w := if x == va / PAGESIZE then va else x * PAGESIZE;
      assert va <= w < va + |data| && w / PAGESIZE == x;
      SomeIsPresent(s, p, w);
    }
  }

  /** SysPutStr: when the quota covers what is missing from the user's range, the bytes handed
      to the printer, chunk after chunk, are exactly the bytes the process sees in the range. */
  lemma {:induction false} PutLoopTiles(s: State, pid: nat, va: nat, len: nat, buf: nat, v: Variant)
    requires Inv(s) && Sound(s.frames, v) && UserRange(pid, va, len) && ReadBuffer(s, buf, PAGESIZE) && Shaped(s)
    requires RangeCost(s, pid, va / PAGESIZE, EndPage(va, len)) <= Room(s, pid)
    ensures buf + PAGESIZE <= USERLO
    ensures var (s', chunks) := PutLoop(s, pid, va, len, buf, v);
            && Inv(s') && |Flatten(chunks)| == len && Tiles(s', pid, va, chunks) && BytesOutside(s, s', pid, 0, 0)
            && Charged(s.cs, s'.cs, pid, RangeCost(s, pid, va / PAGESIZE, EndPage(va, len)))
    decreases len
  {
    hide Inv, RangeCost, Charged, EntriesOutside, BytesOutside, SlotsFilled, Holds, EndPage, ReadBuffer, PutStep,
         UserByte;
    BufferBounds(s, buf, PAGESIZE);
    if len == 0 {
      NothingPut(s, pid, va);
    } else {
      var n := PutChunk(len);
      ChunkCheaper(s, pid, va, n, len);
      PutStepEffect(s, pid, va, n, buf, v);
      var s1 := PutStep(s, pid, va, n, buf, v);
      var data := s1.mem[buf..buf + n];
      PutCost(s, s1, pid, va, n, len, data);
      RoomAfter(s, s1, pid, RangeCost(s, pid, va / PAGESIZE, EndPage(va, n)));
      SameReadBuffer(s, s1, buf, PAGESIZE);
      PutLoopTiles(s1, pid, va + n, len - n, buf, v);
      var (s', rest) := PutLoop(s1, pid, va + n, len - n, buf, v);
      PutJoin(s, s1, s', pid, va, data, rest);
      ChargedSteps(s.cs, s1.cs, s'.cs, pid, RangeCost(s, pid, va / PAGESIZE, EndPage(va, n)),
                   RangeCost(s1, pid, (va + n) / PAGESIZE, EndPage(va + n, len - n)));
    }
  }

  lemma NothingPut(s: State, pid: nat, va: nat)
    requires Shaped(s) && pid < MAX_PROCS && va <= USERHI
    ensures Holds(s, pid, va, []) && BytesOutside(s, s, pid, 0, 0)
    ensures RangeCost(s, pid, va / PAGESIZE, EndPage(va, 0)) == 0 && Charged(s.cs, s.cs, pid, 0)
  {
    NothingDelivered(s, pid, va);
  }

  lemma ChunkCheaper(s: State, pid: nat, va: nat, n: nat, len: nat)
    requires Shaped(s) && UserRange(pid, va, len) && 0 < n <= len
    ensures RangeCost(s, pid, va / PAGESIZE, EndPage(va, n)) <= RangeCost(s, pid, va / PAGESIZE, EndPage(va, len))
  {
    hide Absent;
    var lo, mid, hi := va / PAGESIZE, EndPage(va, n), EndPage(va, len);
    assert mid <= hi;
    SubsetSize(AbsentPages(s, pid, lo, mid), AbsentPages(s, pid, lo, hi));
    SubsetSize(AbsentTables(s, pid, lo, mid), AbsentTables(s, pid, lo, hi));
  }

  lemma PutJoin(s: State, s1: State, s': State, pid: nat, va: nat, data: seq<byte>, rest: seq<seq<byte>>)
    requires Shaped(s) && Shaped(s1) && Shaped(s') && 0 < |data| < PAGESIZE
    requires Holds(s1, pid, va, data) && BytesOutside(s, s1, pid, 0, 0) && BytesOutside(s1, s', pid, 0, 0)
    requires Tiles(s', pid, va + |data|, rest)
    ensures Tiles(s', pid, va, [data] + rest) && BytesOutside(s, s', pid, 0, 0)
    ensures |Flatten([data] + rest)| == |data| + |Flatten(rest)|
  {
    hide UserByte;
    assert ([data] + rest)[1..] == rest && ([data] + rest)[0] == data;
    HoldsBoth(s1, s', pid, va, data, Flatten(rest));
  }

  // ----- the whole call, for any two registers

  /** What the process gets back. */
  datatype PutResult = InvalidAddress | NoMemory | Success

  /** The system call's own test of its range, with its 32-bit addition. */
  predicate PutGuard(va: uint32, len: uint32) { USERLO <= va && (va + len) % WORD <= USERHI }

  /** The loop with its 32-bit position: it fails with E_MEM when PTCopyIn refuses a chunk. */
  function PutRun(s: State, pid: nat, va: uint32, len: nat, buf: nat, v: Variant)
      : (r: (State, seq<seq<byte>>, PutResult))
    requires Shaped(s) && pid < MAX_PROCS && buf + PAGESIZE <= USERLO
    ensures Shaped(r.0)
    decreases len
  {
    if len == 0 then (s, [], Success)
    else
      var n := PutChunk(len);
      if !CopyGuard(va, buf, n) then (s, [], NoMemory)
      else
        var s1 := PutStep(s, pid, va, n, buf, v);
        var (s', rest, result) := PutRun(s1, pid, (va + n) % WORD, len - n, buf, v);
        (s', [s1.mem[buf..buf + n]] + rest, result)
  }

  function SysPut(s: State, pid: nat, va: uint32, len: uint32, buf: nat, v: Variant)
      : (r: (State, seq<seq<byte>>, PutResult))
    requires Shaped(s) && pid < MAX_PROCS && buf + PAGESIZE <= USERLO
  {
    if PutGuard(va, len) then PutRun(s, pid, va, len, buf, v) else (s, [], InvalidAddress)
  }

  lemma PutRunCases(s: State, pid: nat, va: uint32, len: nat, buf: nat, v: Variant)
    requires Shaped(s) && pid < MAX_PROCS && buf + PAGESIZE <= USERLO && len > 0
    ensures var n := PutChunk(len);
            if !CopyGuard(va, buf, n) then PutRun(s, pid, va, len, buf, v) == (s, [], NoMemory)
            else
              var s1 := PutStep(s, pid, va, n, buf, v);
              var rest := PutRun(s1, pid, (va + n) % WORD, len - n, buf, v);
              PutRun(s, pid, va, len, buf, v) == (rest.0, [s1.mem[buf..buf + n]] + rest.1, rest.2)
  {
    hide PutStep;
  }

  lemma PutLoopOnce(s: State, pid: nat, va: uint32, len: nat, buf: nat, v: Variant)
    requires Shaped(s) && pid < MAX_PROCS && buf + PAGESIZE <= USERLO && len > 0 && va + len <= WORD
    ensures var n := PutChunk(len);
            var s1 := PutStep(s, pid, va, n, buf, v);
            var rest := PutLoop(s1, pid, va + n, len - n, buf, v);
            PutLoop(s, pid, va, len, buf, v) == (rest.0, [s1.mem[buf..buf + n]] + rest.1)
  {
    hide PutStep;
  }

  lemma PutNone(s: State, pid: nat, va: uint32, buf: nat, v: Variant)
    requires Shaped(s) && pid < MAX_PROCS && buf + PAGESIZE <= USERLO
    ensures PutRun(s, pid, va, 0, buf, v) == (s, [], Success) && PutLoop(s, pid, va, 0, buf, v) == (s, [])
  {}

  lemma {:induction false} PutRunInside(s: State, pid: nat, va: uint32, len: nat, buf: nat, v: Variant)
    requires Shaped(s) && pid < MAX_PROCS && KernelBuffer(buf, PAGESIZE) && USERLO <= va && va + len <= USERHI
    ensures var (s', chunks) := PutLoop(s, pid, va, len, buf, v);
            PutRun(s, pid, va, len, buf, v) == (s', chunks, Success)
    decreases len
  {
    hide PutStep, PutRun, PutLoop;
    if len == 0 {
      PutNone(s, pid, va, buf, v);
    } else {
      var n := PutChunk(len);
      PutRunCases(s, pid, va, len, buf, v);
      PutLoopOnce(s, pid, va, len, buf, v);
      PutRunInside(PutStep(s, pid, va, n, buf, v), pid, va + n, len - n, buf, v);
    }
  }

  /** From a wrapping range only a single chunk can arrive: a longer one is refused before the
      end of the address space, or after passing it. */
  lemma {:induction false} PutRunAcross(s: State, pid: nat, va: uint32, len: nat, buf: nat, v: Variant)
    requires Shaped(s) && pid < MAX_PROCS && KernelBuffer(buf, PAGESIZE)
    requires USERLO <= va && va + len >= WORD && len < WORD && va + len <= WORD + USERHI
    ensures PutRun(s, pid, va, len, buf, v).2 == if len < PAGESIZE then Success else NoMemory
    decreases len
  {
    hide PutStep;
    var n := PutChunk(len);
    if CopyGuard(va, buf, n) && len >= PAGESIZE {
      var s1 := PutStep(s, pid, va, n, buf, v);
      if va + n <= USERHI {
        PutRunAcross(s1, pid, va + n, len - n, buf, v);
      } else {
        assert (va + n) % WORD < USERLO && !CopyGuard((va + n) % WORD, buf, PutChunk(len - n));
      }
    }
  }

  /** The ranges the call accepts: those in user space, and those whose end wraps past 2^32 and
      not above user space again. */
  lemma PutGuardIff(va: uint32, len: uint32)
    ensures PutGuard(va, len) <==> USERLO <= va && (va + len <= USERHI || WORD <= va + len <= WORD + USERHI)
  {}

  /** The result for every pair of registers: of the accepted ranges, E_MEM exactly for the
      wrapping ones longer than a chunk. The state and the quota play no part. */
  lemma PutResultIff(s: State, pid: nat, va: uint32, len: uint32, buf: nat, v: Variant)
    requires Shaped(s) && pid < MAX_PROCS && KernelBuffer(buf, PAGESIZE)
    ensures var result := SysPut(s, pid, va, len, buf, v).2;
            && (result == InvalidAddress <==> !PutGuard(va, len))
            && (result == NoMemory <==> PutGuard(va, len) && va + len >= WORD && len >= PAGESIZE)
  {
    hide PutLoop, PutRun;
    PutGuardIff(va, len);
    if PutGuard(va, len) {
      if va + len < WORD {
        PutRunInside(s, pid, va, len, buf, v);
      } else {
        PutRunAcross(s, pid, va, len, buf, v);
      }
      NeverInvalid(s, pid, va, len, buf, v);
    }
  }

  lemma {:induction false} NeverInvalid(s: State, pid: nat, va: uint32, len: nat, buf: nat, v: Variant)
    requires Shaped(s) && pid < MAX_PROCS && buf + PAGESIZE <= USERLO
    ensures PutRun(s, pid, va, len, buf, v).2 != InvalidAddress
    decreases len
  {
    hide PutStep;
    if len > 0 && CopyGuard(va, buf, PutChunk(len)) {
      var n := PutChunk(len);
      NeverInvalid(PutStep(s, pid, va, n, buf, v), pid, (va + n) % WORD, len - n, buf, v);
    }
  }

  // ----- what a wrapping range reads

  /** The ranges of virtual addresses the loop reads, in order. */
  function PutRanges(va: uint32, len: nat): seq<(uint32, nat)>
    decreases len
  {
    if len == 0 || !PutGuard(va, PutChunk(len)) then []
    else [(va, PutChunk(len))] + PutRanges((va + PutChunk(len)) % WORD, len - PutChunk(len))
  }

  ghost predicate InsideUser(ranges: seq<(uint32, nat)>) {
    forall i :: 0 <= i < |ranges| ==> USERLO <= ranges[i].0 && ranges[i].0 + ranges[i].1 <= USERHI
  }

  /** One chunk is handed over for each range read, and of its size. */
  lemma {:induction false} ChunksAreRanges(s: State, pid: nat, va: uint32, len: nat, buf: nat, v: Variant)
    requires Shaped(s) && pid < MAX_PROCS && KernelBuffer(buf, PAGESIZE)
    ensures var (chunks, ranges) := (PutRun(s, pid, va, len, buf, v).1, PutRanges(va, len));
            |chunks| == |ranges| && forall i :: 0 <= i < |chunks| ==> |chunks[i]| == ranges[i].1
    decreases len
  {
    hide PutStep;
    if len > 0 && PutGuard(va, PutChunk(len)) {
      var n := PutChunk(len);
      ChunksAreRanges(PutStep(s, pid, va, n, buf, v), pid, (va + n) % WORD, len - n, buf, v);
    }
  }

  /** In user space the ranges cut the string into pieces of 4095 bytes; the last may be shorter. */
  lemma {:induction false} RangesCutEvenly(va: nat, len: nat, i: nat)
    requires 0x4000_0000 <= va && va + len <= 0xF000_0000
    ensures |PutRanges(va, len)| == (len + 4094) / 4095
    ensures 4095 * i < len ==>
              i < |PutRanges(va, len)|
              && PutRanges(va, len)[i] == (va + 4095 * i, if len - 4095 * i < 4095 then len - 4095 * i else 4095)
    decreases len
  {
    if len > 0 {
      var n := PutChunk(len);
      var rest := PutRanges(va + n, len - n);
      assert PutRanges(va, len) == [(va, n)] + rest by {
        assert (va + n) % WORD == va + n;
      }
      RangesCutEvenly(va + n, len - n, if i == 0 then 0 else i - 1);
      assert (len + 4094) / 4095 == 1 + (len - n + 4094) / 4095;
    }
  }

  lemma InsideCons(range: (uint32, nat), rest: seq<(uint32, nat)>)
    ensures InsideUser([range] + rest)
            <==> USERLO <= range.0 && range.0 + range.1 <= USERHI && InsideUser(rest)
  {
    var all := [range] + rest;
    assert all[0] == range && forall i :: 0 <= i < |rest| ==> all[i + 1] == rest[i];
  }

  /** An accepted call reads outside user space if and only if its first chunk passes the end of
      the address space; this happens whether or not the call then fails. */
  lemma {:induction false} ReadsInsideIff(va: uint32, len: uint32)
    requires PutGuard(va, len)
    ensures InsideUser(PutRanges(va, len)) <==> va + (if len < 4095 then len else 4095) < WORD
    decreases len
  {
    hide InsideUser;
    var n := PutChunk(len);
    if len == 0 || !PutGuard(va, n) {
      assert PutRanges(va, len) == [];
      NoRanges();
    } else {
      var next := (va + n) % WORD;
      InsideCons((va, n), PutRanges(next, len - n));
      if va + n <= USERHI {
        ReadsInsideIff(va + n, len - n);
      }
    }
  }

  lemma NoRanges()
    ensures InsideUser([])
  {}

  /** A page of the identity tables is present and names itself. */
  lemma IdentityPage(s: State, p: nat, x: nat)
    requires Inv(s) && p < MAX_PROCS && x < NUM_PAGES && !UserSlot(p, x / NUM_TABLES)
    ensures Pte(s.dirs, s.mem, p, x) == x * PAGESIZE + IdentityPerm(x / NUM_TABLES)
  {
    var pde := x / NUM_TABLES;
    assert s.dirs[Slot(p, pde)] == s.identity + pde * PAGESIZE + PTE_PWU;
    assert FrameOf(s.dirs[Slot(p, pde)]) * PAGESIZE == s.identity + pde * PAGESIZE;
    assert EntryAddr(s.dirs, p, x) == s.identity + x * 4;
  }

  /** Process 0 everywhere, and every process outside user space, sees physical memory, through
      entries that are present and writable, not user, and global outside user space. */
  lemma SeesPhysical(s: State, p: nat, va: nat)
    requires Inv(s) && p < 64 && va < WORD && (p == 0 || va < 0x4000_0000 || va >= 0xF000_0000)
    ensures Shaped(s) && UserByte(s, p, va) == Some(s.mem[va])
    ensures Pte(s.dirs, s.mem, p, va / 4096)
            == va / 4096 * 4096 + if 0x4000_0000 <= va < 0xF000_0000 then 3 else 0x103
  {
    hide Inv, Pte;
    InvShaped(s);
    var x := va / 4096;
    TableRange(va);
    IdentityPage(s, p, x);
    assert IdentityPerm(x / NUM_TABLES) == if 0x4000_0000 <= va < 0xF000_0000 then 3 else 0x103;
    assert FrameOf(Pte(s.dirs, s.mem, p, x)) == x;
  }

  lemma TableRange(va: nat)
    requires va < WORD
    ensures va / 4096 < NUM_PAGES
    ensures USERLO_PDIR <= va / 4096 / NUM_TABLES < USERHI_PDIR <==> 0x4000_0000 <= va < 0xF000_0000
  {
    assert va / 4096 / 1024 == va / 0x40_0000;
  }

  lemma PhysicalStep(s: State, p: nat, va: nat, kva: nat, n: nat, v: Variant)
    requires Inv(s) && p < MAX_PROCS && va < WORD && 0 < n && va % PAGESIZE + n <= PAGESIZE
    requires !UserSlot(p, va / PAGESIZE / NUM_TABLES) && kva + n <= WORD && (kva + n <= va || va + n <= kva)
    ensures ReadStep(s, p, va, kva, n, v) == s.(mem := Blit(s.mem, kva, s.mem[va..va + n]))
  {
    hide Inv, Pte, CopyForward;
    InvShaped(s);
    IdentityPage(s, p, va / PAGESIZE);
    assert EnsurePage(s, p, va / PAGESIZE, v) == s;
    assert PhysAddr(s.dirs, s.mem, p, va) == va;
    CopyForwardMoves(s.mem, kva, va, n);
  }

  /** Reading through the identity tables copies physical memory. */
  lemma IdentityRead(s: State, p: nat, va: nat, kva: nat, n: nat, v: Variant)
    requires Inv(s) && p < MAX_PROCS && va < WORD && va % PAGESIZE + n <= PAGESIZE
    requires !UserSlot(p, va / PAGESIZE / NUM_TABLES) && kva + n <= WORD && (kva + n <= va || va + n <= kva)
    ensures CopyIn(s, p, va, kva, n, v) == s.(mem := Blit(s.mem, kva, s.mem[va..va + n]))
  {
    hide Inv, Pte, CopyIn, ReadStep;
    InvShaped(s);
    if n == 0 {
      CopyInNone(s, p, va, kva, v);
    } else {
      PhysicalStep(s, p, va, kva, n, v);
      CopyInOnce(s, p, va, kva, n, v);
      CopyInNone(ReadStep(s, p, va, kva, n, v), p, va + n, kva + n, v);
    }
  }

  /** A chunk that passes the end of the address space hands over physical memory: its last
      bytes, then its first ones. */
  lemma AroundReadsMemory(s: State, pid: nat, va: uint32, n: nat, buf: nat, v: Variant)
    requires Inv(s) && pid < MAX_PROCS && ReadBuffer(s, buf, PAGESIZE) && n < PAGESIZE && va + n >= WORD
    ensures buf + PAGESIZE <= USERLO && |s.mem| == WORD
    ensures PutStep(s, pid, va, n, buf, v).mem[buf..buf + n] == s.mem[va..] + s.mem[..va + n - WORD]
  {
    hide Inv, CopyIn, PutStep, Blit, ReadBuffer;
    InvShaped(s);
    BufferBounds(s, buf, PAGESIZE);
    var first, rest := WORD - va, va + n - WORD;
    var s1 := CopyIn(s, pid, va, buf, first, v);
    TopRead(s, pid, va, buf, first, v);
    BottomRead(s1, pid, buf + first, rest, v);
    StepAround(s, pid, va, n, buf, v);
    TwoBlits(s.mem, va, buf, n);
  }

  lemma TopRead(s: State, pid: nat, va: uint32, buf: nat, first: nat, v: Variant)
    requires Inv(s) && pid < MAX_PROCS && ReadBuffer(s, buf, PAGESIZE) && va + first == WORD && first < PAGESIZE
    ensures Shaped(s) && PAGESIZE <= buf && buf + PAGESIZE <= USERLO
    ensures CopyIn(s, pid, va, buf, first, v) == s.(mem := Blit(s.mem, buf, s.mem[va..va + first]))
    ensures Inv(CopyIn(s, pid, va, buf, first, v))
  {
    hide Inv, CopyIn;
    InvShaped(s);
    assert va / PAGESIZE / NUM_TABLES == NUM_TABLES - 1;
    IdentityRead(s, pid, va, buf, first, v);
    KernelWriteEffect(s, CopyIn(s, pid, va, buf, first, v), buf, first);
  }

  lemma BottomRead(s: State, pid: nat, buf: nat, rest: nat, v: Variant)
    requires Inv(s) && pid < MAX_PROCS && PAGESIZE <= buf && buf + rest <= USERLO && rest < PAGESIZE
    ensures Shaped(s) && CopyIn(s, pid, 0, buf, rest, v) == s.(mem := Blit(s.mem, buf, s.mem[0..0 + rest]))
  {
    hide Inv, CopyIn;
    InvShaped(s);
    IdentityRead(s, pid, 0, buf, rest, v);
  }

  lemma StepAround(s: State, pid: nat, va: uint32, n: nat, buf: nat, v: Variant)
    requires Shaped(s) && pid < MAX_PROCS && buf + PAGESIZE <= USERLO && n < PAGESIZE && va + n >= WORD
    ensures var first := WORD - va;
            PutStep(s, pid, va, n, buf, v).mem
            == CopyIn(CopyIn(s, pid, va, buf, first, v), pid, 0, buf + first, n - first, v).mem[buf + n := 0]
  {
    hide CopyIn;
    if va + n == WORD {
      CopyInNone(CopyIn(s, pid, va, buf, n, v), pid, 0, buf + n, v);
    }
  }

  lemma TwoBlits(m: seq<byte>, va: nat, buf: nat, n: nat)
    requires |m| == WORD && PAGESIZE <= buf && buf + n < va < WORD <= va + n && n < PAGESIZE
    ensures var first := WORD - va; var m1 := Blit(m, buf, m[va..va + first]);
            var m2 := Blit(m1, buf + first, m1[0..0 + (n - first)]);
            m2[buf + n := 0][buf..buf + n] == m[va..] + m[..n - first]
  {
    var first := WORD - va;
    var m1 := Blit(m, buf, m[va..va + first]);
    var m2 := Blit(m1, buf + first, m1[0..n - first]);
    assert m1[0..n - first] == m[..n - first];
    assert m2[buf..buf + first] == m[va..] && m2[buf + first..buf + n] == m[..n - first];
    var got := m2[buf + n := 0][buf..buf + n];
    assert got == m2[buf..buf + first] + m2[buf + first..buf + n];
  }
}
