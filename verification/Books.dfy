/** Quota implies supply: the frames that have a role, the quota tree that charges for them,
    and the free pages always balance, so an allocation within quota finds a frame. */
module Books {
  import opened Words
  import opened Frames
  import opened Quota
  import opened Machine

  // ----- counting owners

  lemma OwnAfterAdd(roles: map<int, Role>, f: int, r: Role)
    requires f !in roles && 0 <= r.owner < MAX_PROCS
    ensures Own(roles[f := r]) == Own(roles)[r.owner := Own(roles)[r.owner] + 1]
  {
    forall p | 0 <= p < MAX_PROCS
      ensures Owned(roles[f := r], p) == if p == r.owner then Owned(roles, p) + {f} else Owned(roles, p)
    {}
  }

  lemma OwnAfterRemove(roles: map<int, Role>, f: int)
    requires f in roles && 0 <= roles[f].owner < MAX_PROCS
    ensures Own(roles)[roles[f].owner] > 0
    ensures Own(roles - {f}) == Own(roles)[roles[f].owner := Own(roles)[roles[f].owner] - 1]
  {
    var o := roles[f].owner;
    assert f in Owned(roles, o);
    forall p | 0 <= p < MAX_PROCS
      ensures Owned(roles - {f}, p) == if p == o then Owned(roles, p) - {f} else Owned(roles, p)
    {}
  }

  lemma OwnSameOwners(roles: map<int, Role>, roles': map<int, Role>)
    requires roles.Keys == roles'.Keys
    requires forall f :: f in roles ==> roles[f].owner == roles'[f].owner
    ensures Own(roles') == Own(roles)
  {
    forall p | 0 <= p < MAX_PROCS ensures Owned(roles', p) == Owned(roles, p) {
      forall f ensures f in Owned(roles', p) <==> f in Owned(roles, p) {
        assert f in roles.Keys <==> f in roles'.Keys;
      }
    }
  }

  lemma {:induction false} SumOfOwn(roles: map<int, Role>, n: nat)
    requires n <= MAX_PROCS
    ensures Sum(Own(roles)[..n]) == |set f | f in roles && 0 <= roles[f].owner < n|
  {
    var upTo := set f | f in roles && 0 <= roles[f].owner < n;
    if n == 0 {
      assert upTo == {};
    } else {
      SumOfOwn(roles, n - 1);
      var below := set f | f in roles && 0 <= roles[f].owner < n - 1;
      assert upTo == below + Owned(roles, n - 1) && below !! Owned(roles, n - 1);
      assert Own(roles)[..n][..n - 1] == Own(roles)[..n - 1];
    }
  }

  /** Frames charged to all processes together are the frames that have a role. */
  lemma OwnTotal(roles: map<int, Role>)
    requires forall f :: f in roles ==> 1 <= roles[f].owner < MAX_PROCS
    ensures Sum(Own(roles)) == |roles.Keys|
  {
    SumOfOwn(roles, MAX_PROCS);
    assert Own(roles)[..MAX_PROCS] == Own(roles);
    forall f ensures f in roles.Keys <==> f in roles && 0 <= roles[f].owner < MAX_PROCS {}
    assert roles.Keys == set f | f in roles && 0 <= roles[f].owner < MAX_PROCS;
  }

  // ----- supply

  lemma PartitionSize(whole: set<int>, part: set<int>, rest: set<int>)
    requires part <= whole && rest == whole - part
    ensures |whole| == |part| + |rest|
  {
    assert whole == part + rest && part !! rest;
  }

  /** Free frames and unused quota are the same number. */
  lemma FreeIsSlack(s: State)
    requires Shaped(s) && FramesInv(s.frames, s.roles) && BooksInv(s.frames, s.cs, s.roles)
    ensures |FreePages(s.frames.info)| == Slack(s.cs, MAX_PROCS)
  {
    Telescope(s.cs, Own(s.roles));
    OwnTotal(s.roles);
    assert FreePages(s.frames.info) <= UserPages(s.frames.info);
    PartitionSize(UserPages(s.frames.info), FreePages(s.frames.info), s.roles.Keys);
  }

  /** Any container below its quota guarantees a free user frame. */
  lemma QuotaImpliesSupply(s: State, p: nat)
    requires Shaped(s) && FramesInv(s.frames, s.roles) && BooksInv(s.frames, s.cs, s.roles)
    requires p < MAX_PROCS && s.cs[p].usage < s.cs[p].quota
    ensures FreePages(s.frames.info) != {}
  {
    FreeIsSlack(s);
    SlackCovers(s.cs, p, MAX_PROCS);
  }

  /** The source's allocator needs that no freed page is remembered; the corrected one does not. */
  predicate Sound(frames: FrameTable, v: Variant) { v == Corrected || frames.lastFreed == -1 }

  lemma TakeFrame(frames: FrameTable, ft: FrameTable, roles: map<int, Role>, p: nat, page: nat)
    requires FramesInv(frames, roles) && Ready(ft) && page in FreePages(frames.info)
    requires ft.info == frames.info[page := PageInfo(true, User)]
    ensures page !in roles && FramesInv(ft, roles[page := Unplaced(p)])
    ensures UserPages(ft.info) == UserPages(frames.info)
  {
    assert forall f :: f in roles <==> f in roles.Keys;
    FreePagesAfterUpdate(frames.info, page, true);
    var roles' := roles[page := Unplaced(p)];
    assert roles'.Keys == roles.Keys + {page};
  }

  lemma ChargeBooks(s: State, ft: FrameTable, p: nat, page: nat)
    requires BooksInv(s.frames, s.cs, s.roles) && UserPages(ft.info) == UserPages(s.frames.info)
    requires 1 <= p < MAX_PROCS && s.cs[p].usage != s.cs[p].quota && page !in s.roles
    ensures BooksInv(ft, Charge(s.cs, p, 1), s.roles[page := Unplaced(p)])
  {
    OwnAfterAdd(s.roles, page, Unplaced(p));
    assert s.cs[p].used;
    ChargeKeepsAccounts(s.cs, Own(s.roles), p, 1);
  }

  /** ContainerAlloc gives 0 exactly at the quota limit, when nothing changes; otherwise the
      frame is a user frame nobody held, charged to `p`. Its missing rollback is never needed. */
  lemma ContainerAllocEffect(s: State, p: nat, v: Variant)
    requires Shaped(s) && FramesInv(s.frames, s.roles) && BooksInv(s.frames, s.cs, s.roles)
    requires 1 <= p < MAX_PROCS && Sound(s.frames, v)
    ensures var (s', page) := ContainerAlloc(s, p, v);
            && (page == 0 <==> s.cs[p].usage == s.cs[p].quota)
            && (page == 0 ==> s' == s)
            && (page != 0 ==>
                  && USERLO_PI <= page < USERHI_PI && page !in s.roles
                  && s'.roles == s.roles[page := Unplaced(p)]
                  && s'.cs == Charge(s.cs, p, 1)
                  && s'.dirs == s.dirs && s'.mem == s.mem && s'.identity == s.identity)
            && FramesInv(s'.frames, s'.roles) && BooksInv(s'.frames, s'.cs, s'.roles)
            && Sound(s'.frames, v)
  {
    if s.cs[p].usage != s.cs[p].quota {
      QuotaImpliesSupply(s, p);
      PageAllocComplete(s.frames, v);
      var (ft, page) := PageAlloc(s.frames, v);
      TakeFrame(s.frames, ft, s.roles, p, page);
      ChargeBooks(s, ft, p, page);
    }
  }

  /** Giving back a held frame takes it off its owner's account and no other. */
  lemma ContainerFreeEffect(s: State, page: int)
    requires Shaped(s) && FramesInv(s.frames, s.roles) && BooksInv(s.frames, s.cs, s.roles)
    requires page in s.roles
    ensures var p := s.roles[page].owner; var s' := ContainerFree(s, p, page);
            && s'.roles == s.roles - {page} && s'.cs == Charge(s.cs, p, -1)
            && s'.dirs == s.dirs && s'.mem == s.mem && s'.identity == s.identity
            && FramesInv(s'.frames, s'.roles) && BooksInv(s'.frames, s'.cs, s'.roles)
  {
    var p := s.roles[page].owner;
    FreePagesAfterUpdate(s.frames.info, page, false);
    OwnAfterRemove(s.roles, page);
    ChildQuotasNonNegative(s.cs, p, MAX_PROCS);
    assert s.cs[p].usage == Own(s.roles)[p] + ChildQuotas(s.cs, p, MAX_PROCS);
    assert s.cs[p].used;
    ChargeKeepsAccounts(s.cs, Own(s.roles), p, -1);
  }

  /** A split within the parent's quota keeps the books, whoever holds frames. */
  lemma SplitEffect(s: State, id: nat, quota: nat)
    requires Shaped(s) && BooksInv(s.frames, s.cs, s.roles)
    requires id < MAX_PROCS && s.cs[id].used && RoomForChild(s.cs, id)
    requires s.cs[id].usage + quota <= s.cs[id].quota
    ensures BooksInv(s.frames, Split(s.cs, id, quota), s.roles)
  {
    SplitKeepsTree(s.cs, id, quota);
    SplitKeepsAccounts(s.cs, Own(s.roles), id, quota);
  }

  /** Changing what frames are used for, but not whose they are, leaves the books alone. */
  lemma BooksSameOwners(frames: FrameTable, cs: seq<Container>, roles: map<int, Role>, roles': map<int, Role>)
    requires BooksInv(frames, cs, roles)
    requires roles.Keys == roles'.Keys
    requires forall f :: f in roles ==> roles[f].owner == roles'[f].owner
    ensures BooksInv(frames, cs, roles')
  {
    OwnSameOwners(roles, roles');
  }
}
