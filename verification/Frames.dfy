/** The physical frame table of src/mem_physical.c and its next-fit allocator, on values. */
module Frames {

  const NUM_PAGES: int := 0x10_0000
  const USERLO: int := 0x4000_0000
  const USERHI: int := 0xF000_0000
  const USERLO_PI: int := 0x4_0000
  const USERHI_PI: int := 0xF_0000

  datatype Perm = Bios | Kernel | User

  datatype PageInfo = PageInfo(taken: bool, perm: Perm)

  /** `lastFreed` and `lastAlloc` are page indices, or -1 for none. */
  datatype FrameTable = FrameTable(info: seq<PageInfo>, lastFreed: int, lastAlloc: int)

  /** PhysicalPageAlloc as the source has it, or with the missing `allocated = 1` put in. */
  datatype Variant = AsCoded | Corrected

  ghost predicate WellFormed(ft: FrameTable) {
    && |ft.info| == NUM_PAGES
    && -1 <= ft.lastFreed < NUM_PAGES
    && -1 <= ft.lastAlloc < NUM_PAGES
  }

  predicate IsFree(info: seq<PageInfo>, page: int) {
    0 <= page < |info| && !info[page].taken && info[page].perm == User
  }

  ghost function UserPages(info: seq<PageInfo>): set<int> {
    set page | USERLO_PI <= page < USERHI_PI && page < |info| && info[page].perm == User
  }

  ghost function FreePages(info: seq<PageInfo>): set<int> {
    set page | USERLO_PI <= page < USERHI_PI && IsFree(info, page)
  }

  /** The least free page in `[lo, hi)`, or `hi`. */
  function FirstFree(info: seq<PageInfo>, lo: nat, hi: nat): (r: nat)
    requires lo <= hi <= |info|
    ensures lo <= r <= hi
    ensures r < hi ==> IsFree(info, r)
    ensures forall page :: lo <= page < r ==> !IsFree(info, page)
    decreases hi - lo
  {
    if lo == hi || IsFree(info, lo) then lo else FirstFree(info, lo + 1, hi)
  }

  function Mark(ft: FrameTable, page: nat): FrameTable
    requires page < |ft.info|
  {
    FrameTable(ft.info[page := ft.info[page].(taken := true)], ft.lastFreed, page)
  }

  /** PhysicalPageAlloc: the remembered freed page, else the next free one after the last. */
  function PageAlloc(ft: FrameTable, v: Variant): (r: (FrameTable, nat))
    requires WellFormed(ft)
    ensures WellFormed(r.0) && r.1 < NUM_PAGES
    ensures r.0.lastFreed == -1
  {
    if ft.lastFreed != -1 then
      var page := ft.lastFreed;
      var picked := ft.(lastFreed := -1, lastAlloc := page);
      (if v == Corrected then Mark(picked, page) else picked, page)
    else if ft.lastAlloc != -1 then
      var from := if ft.lastAlloc + 1 <= USERHI_PI then ft.lastAlloc + 1 else USERHI_PI;
      var after := FirstFree(ft.info, from, USERHI_PI);
      if after < USERHI_PI then (Mark(ft, after), after)
      else if ft.lastAlloc + 1 <= USERLO_PI then (ft, 0)
      else
        var before := FirstFree(ft.info, USERLO_PI, ft.lastAlloc + 1);
        if before < ft.lastAlloc + 1 then (Mark(ft, before), before) else (ft, 0)
    else
      var page := FirstFree(ft.info, USERLO_PI, USERHI_PI);
      if page < USERHI_PI then (Mark(ft, page), page) else (ft, 0)
  }

  function PageFree(ft: FrameTable, page: nat): FrameTable
    requires page < |ft.info|
  {
    FrameTable(ft.info[page := ft.info[page].(taken := false)], page, ft.lastAlloc)
  }

  /** What every boot and every allocation keeps: user pages lie in the user range, and the
      remembered pages do too. */
  ghost predicate Ready(ft: FrameTable) {
    && WellFormed(ft)
    && (ft.lastFreed != -1 ==> USERLO_PI <= ft.lastFreed < USERHI_PI && IsFree(ft.info, ft.lastFreed))
    && (ft.lastAlloc != -1 ==> USERLO_PI <= ft.lastAlloc < USERHI_PI)
    && forall page :: 0 <= page < NUM_PAGES && ft.info[page].perm == User ==> USERLO_PI <= page < USERHI_PI
  }

  /** Next-fit completeness. The scan and its wrap-around miss no user page: the result is 0
      exactly when no user page is free; otherwise a free user page is taken and nothing else
      in the table changes. As coded this needs that no freed page is remembered. */
  lemma PageAllocComplete(ft: FrameTable, v: Variant)
    requires Ready(ft)
    requires v == Corrected || ft.lastFreed == -1
    ensures var (ft', page) := PageAlloc(ft, v);
            && Ready(ft')
            && (page == 0 <==> FreePages(ft.info) == {})
            && (page == 0 ==> ft' == ft)
            && (page != 0 ==> page in FreePages(ft.info)
                              && ft'.info == ft.info[page := PageInfo(true, User)])
  {
    var (ft', page) := PageAlloc(ft, v);
    if page == 0 {
      forall q | USERLO_PI <= q < USERHI_PI ensures !IsFree(ft.info, q) {}
      assert FreePages(ft.info) == {};
    } else {
      assert page in FreePages(ft.info);
    }
  }

  /** Next fit: a remembered freed page is handed out first; otherwise it is the least free page
      after the last one handed out, or, if there is none, the least free page of all. */
  lemma NextFit(ft: FrameTable, v: Variant)
    requires Ready(ft) && PageAlloc(ft, v).1 != 0
    ensures var (ft', page) := PageAlloc(ft, v);
            && ft'.lastAlloc == page && ft'.lastFreed == -1
            && if ft.lastFreed != -1 then page == ft.lastFreed
               else
                 && page in FreePages(ft.info)
                 && forall q :: q in FreePages(ft.info) ==>
                      if page > ft.lastAlloc then q <= ft.lastAlloc || page <= q
                      else page <= q <= ft.lastAlloc
  {}

  /** Taking or returning a page moves exactly it out of or into the free pages. */
  lemma FreePagesAfterUpdate(info: seq<PageInfo>, page: nat, taken: bool)
    requires |info| == NUM_PAGES && USERLO_PI <= page < USERHI_PI && info[page].perm == User
    ensures var info' := info[page := PageInfo(taken, User)];
            && UserPages(info') == UserPages(info)
            && FreePages(info') == if taken then FreePages(info) - {page} else FreePages(info) + {page}
  {}

  /** The fast path as coded: the page handed out is marked allocated exactly when no freed
      page was remembered. */
  lemma IssuedPageMarkedIff(ft: FrameTable)
    requires Ready(ft) && PageAlloc(ft, AsCoded).1 != 0
    ensures PageAlloc(ft, AsCoded).0.info[PageAlloc(ft, AsCoded).1].taken <==> ft.lastFreed == -1
  {}

  /** And the consequence: a page freed once is handed out twice in a row when it is the only
      free page, while the corrected step then reports exhaustion. */
  lemma DoubleIssue(ft: FrameTable, page: nat)
    requires Ready(ft) && FreePages(ft.info) == {} && ft.lastFreed == -1
    requires USERLO_PI <= page < USERHI_PI && ft.info[page].perm == User
    ensures var freed := PageFree(ft, page);
            var (once, first) := PageAlloc(freed, AsCoded);
            && first == page
            && PageAlloc(once, AsCoded).1 == page
            && PageAlloc(freed, Corrected).1 == page
            && PageAlloc(PageAlloc(freed, Corrected).0, Corrected).1 == 0
  {
    var freed := PageFree(ft, page);
    var once := PageAlloc(freed, AsCoded).0;
    FreePagesAfterUpdate(ft.info, page, false);
    assert Ready(freed) && Ready(once);
    PageAllocComplete(once, AsCoded);
    assert FreePages(once.info) == {page};
    var fixed := PageAlloc(freed, Corrected).0;
    assert fixed.info[page].taken && FreePages(fixed.info) == {};
    PageAllocComplete(freed, Corrected);
    PageAllocComplete(fixed, Corrected);
  }
}
