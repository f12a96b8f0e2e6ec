/** Boot: classifying physical pages from the E820 map (ACPI section 15.1), and the state in
    which the kernel first satisfies its invariant. */
module Boot {
  import opened Words
  import opened Frames
  import opened Quota
  import opened Machine
  import opened Books
  import opened Ownership
  import opened Runs
  import opened Conservation
  import opened Leakage

  /** One entry of the memory map; the list ends at the first all-zero entry. */
  datatype Smap = Smap(base: uint64, length: uint64, kind: uint32)

  predicate Terminator(e: Smap) { e.base == 0 && e.length == 0 && e.kind == 0 }

  /** The loop's test, with the source's 32-bit truncations and additions. */
  predicate Inside(e: Smap, page: int)
    requires 0 <= page < NUM_PAGES
  {
    var pgStart := page * PAGESIZE;
    var pgEnd := (pgStart + PAGESIZE) % WORD;
    var start := e.base % WORD;
    var end := (start + e.length % WORD) % WORD;
    pgStart >= start && pgEnd <= end && e.kind == 1
  }

  /** Some entry before the terminator, from the first on, makes the page usable. */
  predicate Usable(smap: seq<Smap>, page: int)
    requires 0 <= page < NUM_PAGES
  {
    smap != [] && !Terminator(smap[0]) && (Inside(smap[0], page) || Usable(smap[1..], page))
  }

  function Classify(smap: seq<Smap>, page: int): PageInfo
    requires 0 <= page < NUM_PAGES
  {
    if !Usable(smap, page) then PageInfo(true, Bios)
    else if USERLO_PI <= page < USERHI_PI then PageInfo(false, User)
    else PageInfo(false, Kernel)
  }

  /** The entry's address range contains the page. */
  predicate Within(e: Smap, page: int) {
    e.base <= page * PAGESIZE && page * PAGESIZE + PAGESIZE <= e.base + e.length
  }

  /** No entry up to `i` is all zero. */
  ghost predicate Listed(smap: seq<Smap>, i: int) {
    0 <= i < |smap| && forall j :: 0 <= j <= i ==> smap[j].base != 0 || smap[j].length != 0 || smap[j].kind != 0
  }

  /** Entry `i` is in the list, is of type 1, and contains the page. */
  ghost predicate Contains(smap: seq<Smap>, i: int, page: int) {
    Listed(smap, i) && smap[i].kind == 1 && Within(smap[i], page)
  }

  lemma {:induction false} UsableMeans(smap: seq<Smap>, page: int)
    requires 0 <= page < NUM_PAGES
    ensures Usable(smap, page) <==> exists i :: Listed(smap, i) && Inside(smap[i], page)
  {
    if smap != [] {
      UsableMeans(smap[1..], page);
      forall i | 0 <= i < |smap[1..]| && !Terminator(smap[0])
        ensures Listed(smap, i + 1) <==> Listed(smap[1..], i)
      {
        ListedTail(smap, i);
      }
      if Usable(smap, page) && !Inside(smap[0], page) {
        var i :| Listed(smap[1..], i) && Inside(smap[1..][i], page);
        assert Inside(smap[i + 1], page);
      }
      if i :| Listed(smap, i) && Inside(smap[i], page) {
        assert !Terminator(smap[0]);
        if i > 0 {
          assert Inside(smap[1..][i - 1], page);
        }
      }
    }
  }

  lemma ListedTail(smap: seq<Smap>, i: nat)
    requires i < |smap| - 1 && !Terminator(smap[0])
    ensures Listed(smap, i + 1) <==> Listed(smap[1..], i)
  {
    assert forall j :: 0 <= j < |smap[1..]| ==> smap[1..][j] == smap[j + 1];
    if Listed(smap[1..], i) {
      forall j | 0 <= j <= i + 1 ensures !Terminator(smap[j]) {
        assert j == 0 || smap[j] == smap[1..][j - 1];
      }
    }
    if Listed(smap, i + 1) {
      forall j | 0 <= j <= i ensures !Terminator(smap[1..][j]) {
        assert smap[1..][j] == smap[j + 1];
      }
    }
  }

  // ----- one entry

  /** Read modulo 2^32, an entry means the pages it contains: it ends below 2^32; or it reaches
      from the last but one page or earlier across 4 GiB to the end of the truncated address
      space again; or it starts later and its truncated range holds no whole page. */
  predicate EntryExact(e: Smap) {
    var end := e.base + e.length;
    || end < WORD
    || (if e.base <= WORD - 2 * PAGESIZE then end % WORD >= WORD - PAGESIZE
        else PageAbove(e.base % WORD) * PAGESIZE + PAGESIZE > end % WORD)
  }

  /** The first page that starts at or after the address. */
  function PageAbove(a: nat): nat { (a + PAGESIZE - 1) / PAGESIZE }

  lemma InsideIs(e: Smap, page: int)
    requires 0 <= page < NUM_PAGES - 1
    ensures Inside(e, page) <==>
            && e.kind == 1 && e.base % WORD <= page * PAGESIZE
            && page * PAGESIZE + PAGESIZE <= (e.base + e.length) % WORD
  {
    assert (e.base % WORD + e.length % WORD) % WORD == (e.base + e.length) % WORD;
  }

  /** One type-1 entry, exactly: the source's truncated test agrees with containment on every
      page but the last if and only if the entry is one of those three kinds. */
  lemma EntryExactIff(e: Smap)
    requires e.kind == 1
    ensures (forall page :: 0 <= page < NUM_PAGES - 1 ==> (Inside(e, page) <==> Within(e, page))) <==> EntryExact(e)
  {
    if EntryExact(e) {
      forall page | 0 <= page < NUM_PAGES - 1 ensures Inside(e, page) <==> Within(e, page) {
        InsideIs(e, page);
      }
    } else {
      var page := if e.base <= WORD - 2 * PAGESIZE then NUM_PAGES - 2 else PageAbove(e.base % WORD);
      assert 0 <= page < NUM_PAGES - 1;
      InsideIs(e, page);
      assert Inside(e, page) != Within(e, page);
    }
  }

  /** The second kind is not empty: all of the first 8 GiB but a byte reads as all of 4 GiB. */
  lemma WrapsToTheEnd()
    ensures EntryExact(Smap(0, 2 * WORD - 1, 1)) && Within(Smap(0, 2 * WORD - 1, 1), 0)
  {}

  // ----- the whole map

  ghost predicate Read(smap: seq<Smap>, page: int)
    requires 0 <= page < NUM_PAGES
  {
    exists i :: Listed(smap, i) && Inside(smap[i], page)
  }

  ghost predicate Contained(smap: seq<Smap>, page: int) { exists i :: Contains(smap, i, page) }

  /** The map, exactly: a page other than the last is classified as the type-1 entries contain
      it if and only if, where an inexact entry contains it, some entry is read as containing
      it, and where an inexact entry is read as containing it, some entry does. */
  lemma MapRightIff(smap: seq<Smap>, page: int)
    requires 0 <= page < NUM_PAGES - 1
    ensures (Classify(smap, page).perm != Bios <==> Contained(smap, page))
            <==>
            forall i :: Listed(smap, i) && smap[i].kind == 1 && !EntryExact(smap[i]) ==>
              && (Within(smap[i], page) ==> Read(smap, page))
              && (Inside(smap[i], page) ==> Contained(smap, page))
  {
    hide Inside, Within, EntryExact, Usable;
    UsableMeans(smap, page);
    forall i | Listed(smap, i)
      ensures smap[i].kind == 1 && EntryExact(smap[i]) ==> (Inside(smap[i], page) <==> Within(smap[i], page))
      ensures Inside(smap[i], page) ==> smap[i].kind == 1 && Read(smap, page)
      ensures smap[i].kind == 1 && Within(smap[i], page) ==> Contained(smap, page)
    {
      InsideKind(smap[i], page);
      if smap[i].kind == 1 {
        EntryExactIff(smap[i]);
        assert Within(smap[i], page) ==> Contains(smap, i, page);
      }
    }
    assert Classify(smap, page).perm != Bios <==> Read(smap, page);
    if Read(smap, page) && !Contained(smap, page) {
      var i :| Listed(smap, i) && Inside(smap[i], page);
      assert !EntryExact(smap[i]);
    } else if Contained(smap, page) && !Read(smap, page) {
      var i :| Contains(smap, i, page);
      assert !EntryExact(smap[i]);
    }
  }

  lemma InsideKind(e: Smap, page: int)
    requires 0 <= page < NUM_PAGES
    ensures Inside(e, page) ==> e.kind == 1
  {}

  /** So when every type-1 entry is exact, as when all end below 2^32, a page other than the last
      is not BIOS if and only if one type-1 entry contains it. */
  lemma UsableIff(smap: seq<Smap>, page: int)
    requires 0 <= page < NUM_PAGES - 1
    requires forall i :: Listed(smap, i) && smap[i].kind == 1 ==> EntryExact(smap[i])
    ensures Classify(smap, page).perm != Bios <==> Contained(smap, page)
  {
    hide EntryExact, Inside, Within, Contained, Read;
    MapRightIff(smap, page);
  }

  /** The three kinds of page: what is not read is BIOS and never free; what is read is free, for
      users from address 0x40000000 up to 0xF0000000, for the kernel elsewhere. */
  lemma KindsIff(smap: seq<Smap>, page: int)
    requires 0 <= page < NUM_PAGES
    ensures var user := 0x4000_0000 <= page * 4096 < 0xF000_0000;
            && (Classify(smap, page) == PageInfo(true, Bios) <==> !Read(smap, page))
            && (Classify(smap, page) == PageInfo(false, User) <==> Read(smap, page) && user)
            && (Classify(smap, page) == PageInfo(false, Kernel) <==> Read(smap, page) && !user)
  {
    UsableMeans(smap, page);
  }

  /** So for exact entries the user pages are those the type-1 entries contain in user space. */
  lemma UserPagesIff(smap: seq<Smap>, page: int)
    requires 0 <= page < NUM_PAGES
    requires forall i :: Listed(smap, i) && smap[i].kind == 1 ==> EntryExact(smap[i])
    ensures Classify(smap, page) == PageInfo(false, User)
            <==> Contained(smap, page) && 0x4000_0000 <= page * 4096 < 0xF000_0000
    ensures page != NUM_PAGES - 1 ==>
              (Classify(smap, page) == PageInfo(false, Kernel)
               <==> Contained(smap, page) && !(0x4000_0000 <= page * 4096 < 0xF000_0000))
  {
    hide EntryExact, Inside, Contained, Read;
    KindsIff(smap, page);
    if page != NUM_PAGES - 1 {
      UsableIff(smap, page);
    }
  }

  /** The last page's end wraps to 0, so there only the start of an entry is compared. */
  lemma LastPageIff(smap: seq<Smap>)
    ensures Classify(smap, NUM_PAGES - 1).perm != Bios <==>
            exists i :: Listed(smap, i) && smap[i].kind == 1 && smap[i].base % WORD <= WORD - PAGESIZE
  {
    UsableMeans(smap, NUM_PAGES - 1);
    forall i | 0 <= i < |smap|
      ensures Inside(smap[i], NUM_PAGES - 1) <==> smap[i].kind == 1 && smap[i].base % WORD <= WORD - PAGESIZE
    {}
  }

  /** An inexact entry above 4 GiB: it is read as the entry 4 GiB lower, so it makes pages usable
      that it does not contain. */
  lemma HighEntryAliases(base: nat, length: nat, page: int)
    requires 0 <= page < NUM_PAGES - 1 && base + length < WORD
    requires base <= page * PAGESIZE && page * PAGESIZE + PAGESIZE <= base + length
    ensures var smap := [Smap(base + WORD, length, 1), Smap(0, 0, 0)];
            Classify(smap, page).perm != Bios && !Contained(smap, page)
  {
    var smap := [Smap(base + WORD, length, 1), Smap(0, 0, 0)];
    assert (base + WORD) % WORD == base && (base + WORD + length) % WORD == base + length;
    InsideIs(smap[0], page);
  }

  /** An inexact entry across 4 GiB: pages it contains above its truncated end become BIOS. */
  lemma CrossingEntryLoses(e: Smap, page: int)
    requires 0 <= page < NUM_PAGES - 1 && e.kind == 1 && Within(e, page)
    requires (e.base + e.length) % WORD < page * PAGESIZE + PAGESIZE
    ensures Classify([e, Smap(0, 0, 0)], page).perm == Bios && Contained([e, Smap(0, 0, 0)], page)
  {
    var smap := [e, Smap(0, 0, 0)];
    InsideIs(e, page);
    assert smap[1..] == [Smap(0, 0, 0)];
    assert !Usable(smap[1..], page);
    assert Contains(smap, 0, page);
  }

  // ----- the booted state

  /** What PhysicalMemoryInit and VirtualMemoryInit leave behind. */
  ghost predicate Booted(s: State, smap: seq<Smap>) {
    && Shaped(s)
    && (forall page :: 0 <= page < NUM_PAGES ==> s.frames.info[page] == Classify(smap, page))
    && s.frames.lastFreed == s.frames.lastAlloc == -1
    && s.cs == Init(|UserPages(s.frames.info)|)
    && (forall p, pde :: UserSlot(p, pde) ==> s.dirs[Slot(p, pde)] == 0)
    && IdentityInv(s)
    && s.roles == map[]
  }

  lemma InitAccounts(n: nat)
    ensures Accounts(Init(n), Own(map[]))
  {
    var cs := Init(n);
    forall i | 0 <= i < MAX_PROCS ensures cs[i].usage == Own(map[])[i] + ChildQuotas(cs, i, MAX_PROCS) {
      assert Owned(map[], i) == {};
      NoChildren(cs, i, MAX_PROCS);
    }
  }

  lemma {:induction false} NoChildren(cs: seq<Container>, id: int, n: nat)
    requires n <= |cs| && forall i :: 1 <= i < |cs| ==> !cs[i].used
    ensures ChildQuotas(cs, id, n) == 0
  {
    if n > 0 {
      NoChildren(cs, id, n - 1);
    }
  }

  /** Boot establishes the invariant, with the root's quota equal to the free user pages. */
  lemma BootEstablishesInv(s: State, smap: seq<Smap>)
    requires Booted(s, smap)
    ensures Inv(s) && Sound(s.frames, AsCoded)
    ensures s.cs[0].quota == |FreePages(s.frames.info)|
  {
    assert UserPages(s.frames.info) == FreePages(s.frames.info);
    InitAccounts(|UserPages(s.frames.info)|);
    InitIsTree(|UserPages(s.frames.info)|);
    BootPages(s);
  }

  /** With exact entries, the quota the root boots with is the number of pages between 0x40000000
      and 0xF0000000 that a type-1 entry contains. */
  lemma RootQuota(s: State, smap: seq<Smap>)
    requires Booted(s, smap)
    requires forall i :: Listed(smap, i) && smap[i].kind == 1 ==> EntryExact(smap[i])
    ensures s.cs[0].quota == |set page | 0x4_0000 <= page < 0xF_0000 && Contained(smap, page)|
  {
    hide EntryExact, Inside, Contained, Classify;
    forall page | 0 <= page < NUM_PAGES
      ensures page in UserPages(s.frames.info) <==> 0x4_0000 <= page < 0xF_0000 && Contained(smap, page)
    {
      ClassifyUser(smap, page);
      UserPagesIff(smap, page);
    }
    assert UserPages(s.frames.info) == set page | 0x4_0000 <= page < 0xF_0000 && Contained(smap, page);
  }

  lemma ClassifyUser(smap: seq<Smap>, page: int)
    requires 0 <= page < NUM_PAGES
    ensures Classify(smap, page).perm == User <==> Classify(smap, page) == PageInfo(false, User)
  {}

  lemma BootPages(s: State)
    requires Shaped(s) && s.roles == map[] && forall p, pde :: UserSlot(p, pde) ==> s.dirs[Slot(p, pde)] == 0
    ensures TablesInv(s.dirs, s.roles) && PagesInv(s.dirs, s.mem, s.roles)
  {
    forall p, vpn | UserPage(p, vpn) ensures Pte(s.dirs, s.mem, p, vpn) == 0 {
      assert UserSlot(p, vpn / NUM_TABLES);
    }
  }

  /** At boot nothing is charged and nothing lost. */
  lemma BootAccounts(s: State, smap: seq<Smap>, q: nat)
    requires Booted(s, smap) && 1 <= q < MAX_PROCS
    ensures AccountsInv(s.cs, s.dirs) && AllPresent(s) && Lost(s, q) == 0
  {
    InitAccounts(|UserPages(s.frames.info)|);
    InitIsTree(|UserPages(s.frames.info)|);
    ChargesOfAccounts(s.cs, Own(map[]));
    forall p | 1 <= p < MAX_PROCS ensures Charges(s.cs, p) == 0 == |FilledSlots(s.dirs, p)| {
      assert Owned(map[], p) == {};
      assert FilledSlots(s.dirs, p) == {};
    }
    forall p, x | UserPage(p, x) ensures Pte(s.dirs, s.mem, p, x) == 0 {
      assert UserSlot(p, x / NUM_TABLES);
    }
    assert MappedPages(s, q) == {};
  }

  /** From boot on, as coded and without frees: no frame is shared; and the frames a process is
      charged for that nothing names are one for each mapping dropped, and at most one more,
      when its quota is used up. */
  lemma FromBoot(s: State, smap: seq<Smap>, ops: seq<Op>, q: nat)
    requires Booted(s, smap) && Called(s, ops, AsCoded) && NoFrees(ops) && 1 <= q < MAX_PROCS
    ensures var r := Run(s, ops, AsCoded); var lost := |UnnamedFrames(r, q)|;
            var dropped := RunDropped(s, ops, AsCoded, q);
            && NoSharing(r)
            && dropped <= lost <= dropped + 1 && (lost > dropped ==> Room(r, q) == 0)
            && (Quiet(s, ops, AsCoded) ==> dropped == 0)
  {
    hide Inv, Step, Enabled, NoSharing, Booted, Lost, AccountsInv, AllPresent, Quiet, RunDropped, UnnamedFrames;
    BootEstablishesInv(s, smap);
    BootAccounts(s, smap, q);
    RunNoSharing(s, ops, AsCoded);
    RunKeepsInv(s, ops, AsCoded);
    RunLeaks(s, ops, AsCoded, q);
    LostAreUnnamed(Run(s, ops, AsCoded), q);
    if Quiet(s, ops, AsCoded) {
      QuietDropsNothing(s, ops, AsCoded, q);
    }
  }

  /** From boot on, as coded and with frees: every container stays within its quota, and so does
      all that is charged below it. */
  lemma FromBootConserves(s: State, smap: seq<Smap>, ops: seq<Op>, id: nat)
    requires Booted(s, smap) && Called(s, ops, AsCoded) && id < MAX_PROCS
    ensures var cs := Run(s, ops, AsCoded).cs;
            && Tree(cs) && Balanced(cs)
            && SubtreeHeld(cs, AllCharges(cs), id) <= cs[id].usage <= cs[id].quota
            && Sum(AllCharges(cs)) + Slack(cs, MAX_PROCS) == cs[0].quota
  {
    hide Step, Enabled, Balanced, Tree;
    BootAccounts(s, smap, 1);
    RunSubtreeBound(s, ops, AsCoded, id);
  }
}
