/** The tree of quota containers of src/mem_physical.c, on values. */
module Quota {

  const MAX_PROCS: int := 64
  const MAX_CHILDREN: int := 8

  /** A never-used container is the zero-initialised one. */
  datatype Container = Container(quota: int, usage: int, parent: int, numChildren: int, used: bool)

  const ZERO: Container := Container(0, 0, 0, 0, false)

  function ChildId(cs: seq<Container>, id: nat): int
    requires id < |cs|
  {
    id * MAX_CHILDREN + 1 + cs[id].numChildren
  }

  /** ContainerInit: only the root is in use, and it owns every user page. */
  function Init(userPages: nat): (cs: seq<Container>)
    ensures |cs| == MAX_PROCS
  {
    [Container(userPages, 0, 0, 0, true)] + seq(MAX_PROCS - 1, i => ZERO)
  }

  /** ContainerSplit. */
  function Split(cs: seq<Container>, id: nat, quota: int): (r: seq<Container>)
    requires id < |cs| && 0 <= ChildId(cs, id) < |cs|
    ensures |r| == |cs|
  {
    var childId := ChildId(cs, id);
    var withChild := cs[childId := Container(quota, 0, id, 0, true)];
    withChild[id := withChild[id].(usage := withChild[id].usage + quota,
                                   numChildren := withChild[id].numChildren + 1)]
  }

  function Charge(cs: seq<Container>, id: nat, units: int): (r: seq<Container>)
    requires id < |cs|
    ensures |r| == |cs|
  {
    cs[id := cs[id].(usage := cs[id].usage + units)]
  }

  lemma ChargeTwice(cs: seq<Container>, id: nat, a: int, b: int)
    requires id < |cs|
    ensures Charge(cs, id, 0) == cs
    ensures Charge(Charge(cs, id, a), id, b) == Charge(cs, id, a + b)
  {}

  // ----- shape of the tree

  function Parent(id: int): int { (id - 1) / MAX_CHILDREN }

  /** The ids in use are exactly the first `numChildren` child slots of ids in use. */
  ghost predicate Tree(cs: seq<Container>) {
    && |cs| == MAX_PROCS
    && cs[0].used && cs[0].parent == 0
    && (forall i :: 0 <= i < MAX_PROCS ==>
          && 0 <= cs[i].numChildren <= MAX_CHILDREN
          && (cs[i].numChildren > 0 ==> i * MAX_CHILDREN + cs[i].numChildren < MAX_PROCS)
          && (!cs[i].used ==> cs[i] == ZERO))
    && (forall i :: 1 <= i < MAX_PROCS ==>
          && (cs[i].used <==> cs[Parent(i)].used && (i - 1) % MAX_CHILDREN < cs[Parent(i)].numChildren)
          && (cs[i].used ==> cs[i].parent == Parent(i)))
  }

  /** What ContainerSplit checks nowhere and leaves to its callers. */
  predicate RoomForChild(cs: seq<Container>, id: nat)
    requires id < |cs|
  {
    0 <= cs[id].numChildren < MAX_CHILDREN && ChildId(cs, id) < MAX_PROCS
  }

  lemma InitIsTree(userPages: nat)
    ensures Tree(Init(userPages))
  {}

  lemma NthChild(id: nat, k: nat)
    requires k < MAX_CHILDREN
    ensures Parent(id * MAX_CHILDREN + 1 + k) == id
    ensures (id * MAX_CHILDREN + 1 + k - 1) % MAX_CHILDREN == k
  {}

  lemma ChildIdPositive(cs: seq<Container>, id: nat)
    requires Tree(cs) && id < MAX_PROCS
    ensures ChildId(cs, id) > 0
  {}

  /** A split made with room gets an id never used before, below its parent in the tree,
      and keeps the tree's shape. */
  lemma SplitKeepsTree(cs: seq<Container>, id: nat, quota: int)
    requires Tree(cs) && id < MAX_PROCS && cs[id].used && RoomForChild(cs, id)
    ensures var child := ChildId(cs, id);
            && id < child < MAX_PROCS && !cs[child].used && Parent(child) == id
            && Tree(Split(cs, id, quota))
  {
    var child := ChildId(cs, id);
    NthChild(id, cs[id].numChildren);
    var cs' := Split(cs, id, quota);
    forall i | 1 <= i < MAX_PROCS
      ensures cs'[i].used <==> cs'[Parent(i)].used && (i - 1) % MAX_CHILDREN < cs'[Parent(i)].numChildren
    {
      if Parent(i) == id && (i - 1) % MAX_CHILDREN == cs[id].numChildren {
        assert i == child;
      }
    }
  }

  /** What a split grants: the child gets the quota, unused and without children; the parent's
      usage grows by as much and its children by one; no other container changes. */
  lemma SplitGrants(cs: seq<Container>, id: nat, quota: int, i: nat)
    requires Tree(cs) && id < MAX_PROCS && cs[id].used && RoomForChild(cs, id) && i < MAX_PROCS
    ensures var c, c' := cs[i], Split(cs, id, quota)[i];
            if i == 8 * id + 1 + cs[id].numChildren then c' == Container(quota, 0, id, 0, true)
            else if i == id then
              && c'.usage == c.usage + quota && c'.numChildren == c.numChildren + 1
              && c'.quota == c.quota && c'.parent == c.parent && c'.used
            else c' == c
  {}

  /** The missing check, exactly: among ids that fit the table, a split keeps the tree's shape
      if and only if the parent has fewer than eight children. */
  lemma SplitKeepsTreeIff(cs: seq<Container>, id: nat, quota: int)
    requires Tree(cs) && id < MAX_PROCS && cs[id].used && ChildId(cs, id) < MAX_PROCS
    ensures Tree(Split(cs, id, quota)) <==> cs[id].numChildren < MAX_CHILDREN
  {
    if cs[id].numChildren < MAX_CHILDREN {
      SplitKeepsTree(cs, id, quota);
    } else {
      assert Split(cs, id, quota)[id].numChildren == MAX_CHILDREN + 1;
    }
  }

  /** And what breaks then: the ninth child's id is the first child slot of the next id, whose
      first child it overwrites if there is one. */
  lemma NinthChildIsANephew(cs: seq<Container>, id: nat, quota: int)
    requires Tree(cs) && id < MAX_PROCS && cs[id].numChildren == MAX_CHILDREN && ChildId(cs, id) < MAX_PROCS
    ensures var child := ChildId(cs, id);
            && child == (id + 1) * MAX_CHILDREN + 1 && Parent(child) == id + 1
            && (cs[child].used <==> cs[id + 1].used && cs[id + 1].numChildren > 0)
            && Split(cs, id, quota)[child] == Container(quota, 0, id, 0, true)
            && (cs[child].used ==> cs[child].parent == id + 1)
  {
    NthChild(id + 1, 0);
  }

  /** The chain of parents from any id decreases to the root. */
  function Depth(id: nat): (d: nat)
    ensures id > 0 ==> d > 0 && 0 <= Parent(id) < id && d == Depth(Parent(id)) + 1
  {
    if id == 0 then 0 else Depth(Parent(id)) + 1
  }

  // ----- what the containers owe: own frames plus the children's quotas

  /** Quotas of the children of `id` among the first `n` containers. */
  ghost function ChildQuotas(cs: seq<Container>, id: int, n: nat): int
    requires n <= |cs|
  {
    if n == 0 then 0
    else ChildQuotas(cs, id, n - 1)
         + if n > 1 && cs[n - 1].used && cs[n - 1].parent == id then cs[n - 1].quota else 0
  }

  /** The accounts: `own[i]` frames are charged to container `i` itself. */
  ghost predicate Accounts(cs: seq<Container>, own: seq<nat>) {
    && |cs| == |own| == MAX_PROCS
    && (forall i :: 0 <= i < MAX_PROCS ==> 0 <= cs[i].usage <= cs[i].quota)
    && (forall i :: 0 <= i < MAX_PROCS ==> cs[i].usage == own[i] + ChildQuotas(cs, i, MAX_PROCS))
  }

  ghost function Sum(own: seq<nat>): nat
  {
    if own == [] then 0 else Sum(own[..|own| - 1]) + own[|own| - 1]
  }

  /** Quota not yet used, over the first `n` containers. */
  ghost function Slack(cs: seq<Container>, n: nat): int
    requires n <= |cs|
  {
    if n == 0 then 0 else Slack(cs, n - 1) + cs[n - 1].quota - cs[n - 1].usage
  }

  ghost function Quotas(cs: seq<Container>, n: nat): int
    requires n <= |cs|
  {
    if n == 0 then 0 else Quotas(cs, n - 1) + cs[n - 1].quota
  }

  /** Children's quotas summed over the first `m` parents. */
  ghost function AllChildQuotas(cs: seq<Container>, m: nat, n: nat): int
    requires n <= |cs|
  {
    if m == 0 then 0 else AllChildQuotas(cs, m - 1, n) + ChildQuotas(cs, m - 1, n)
  }

  lemma {:induction false} AllChildQuotasStep(cs: seq<Container>, m: nat, n: nat)
    requires 0 < n <= |cs|
    ensures AllChildQuotas(cs, m, n) == AllChildQuotas(cs, m, n - 1)
            + if n > 1 && cs[n - 1].used && 0 <= cs[n - 1].parent < m then cs[n - 1].quota else 0
  {
    if m > 0 {
      AllChildQuotasStep(cs, m - 1, n);
    }
  }

  lemma {:induction false} AllChildQuotasNone(cs: seq<Container>, m: nat)
    ensures AllChildQuotas(cs, m, 0) == 0
  {
    if m > 0 {
      AllChildQuotasNone(cs, m - 1);
    }
  }

  /** Every quota but the root's is some parent's child quota. */
  lemma {:induction false} QuotasAreChildQuotas(cs: seq<Container>, n: nat)
    requires Tree(cs) && 1 <= n <= MAX_PROCS
    ensures Quotas(cs, n) == cs[0].quota + AllChildQuotas(cs, MAX_PROCS, n)
  {
    AllChildQuotasStep(cs, MAX_PROCS, n);
    if n == 1 {
      AllChildQuotasNone(cs, MAX_PROCS);
    } else {
      QuotasAreChildQuotas(cs, n - 1);
    }
  }

  lemma {:induction false} UsageSum(cs: seq<Container>, own: seq<nat>, n: nat)
    requires Accounts(cs, own) && n <= MAX_PROCS
    ensures Quotas(cs, n) - Slack(cs, n) == Sum(own[..n]) + AllChildQuotas(cs, n, MAX_PROCS)
  {
    if n > 0 {
      UsageSum(cs, own, n - 1);
      assert own[..n][..n - 1] == own[..n - 1];
    }
  }

  /** The telescoping sum: frames charged anywhere plus quota unused anywhere is the root quota. */
  lemma Telescope(cs: seq<Container>, own: seq<nat>)
    requires Tree(cs) && Accounts(cs, own)
    ensures Sum(own) + Slack(cs, MAX_PROCS) == cs[0].quota
  {
    UsageSum(cs, own, MAX_PROCS);
    QuotasAreChildQuotas(cs, MAX_PROCS);
    assert own[..MAX_PROCS] == own;
  }

  lemma {:induction false} SlackCovers(cs: seq<Container>, id: nat, n: nat)
    requires id < n <= |cs|
    requires forall i :: 0 <= i < |cs| ==> cs[i].usage <= cs[i].quota
    ensures Slack(cs, n) >= cs[id].quota - cs[id].usage
  {
    if id == n - 1 {
      SlackNonNegative(cs, n - 1);
    } else {
      SlackCovers(cs, id, n - 1);
    }
  }

  lemma {:induction false} SlackNonNegative(cs: seq<Container>, n: nat)
    requires n <= |cs|
    requires forall i :: 0 <= i < |cs| ==> cs[i].usage <= cs[i].quota
    ensures Slack(cs, n) >= 0
  {
    if n > 0 {
      SlackNonNegative(cs, n - 1);
    }
  }

  // ----- the subtree bound

  /** Frames charged to `id` and to every container below it. */
  ghost function SubtreeHeld(cs: seq<Container>, own: seq<nat>, id: nat): int
    requires |cs| == |own| == MAX_PROCS && id < MAX_PROCS
    decreases MAX_PROCS - id, MAX_CHILDREN + 1
  {
    own[id] + ChildrenHeld(cs, own, id, MAX_PROCS)
  }

  ghost function ChildrenHeld(cs: seq<Container>, own: seq<nat>, id: nat, n: nat): int
    requires |cs| == |own| == MAX_PROCS && id < MAX_PROCS && n <= MAX_PROCS
    decreases MAX_PROCS - id, 0, n
  {
    if n == 0 then 0
    else ChildrenHeld(cs, own, id, n - 1)
         + if n - 1 > id && cs[n - 1].used && cs[n - 1].parent == id then SubtreeHeld(cs, own, n - 1) else 0
  }

  /** The frames held by a container and everything below it never exceed its quota. */
  lemma {:induction false} SubtreeWithinQuota(cs: seq<Container>, own: seq<nat>, id: nat)
    requires Tree(cs) && Accounts(cs, own) && id < MAX_PROCS
    ensures SubtreeHeld(cs, own, id) <= cs[id].usage <= cs[id].quota
    decreases MAX_PROCS - id, MAX_CHILDREN + 1
  {
    ChildrenWithinQuotas(cs, own, id, MAX_PROCS);
  }

  lemma {:induction false} ChildrenWithinQuotas(cs: seq<Container>, own: seq<nat>, id: nat, n: nat)
    requires Tree(cs) && Accounts(cs, own) && id < MAX_PROCS && n <= MAX_PROCS
    ensures ChildrenHeld(cs, own, id, n) <= ChildQuotas(cs, id, n)
    decreases MAX_PROCS - id, 0, n
  {
    if n > 0 {
      ChildrenWithinQuotas(cs, own, id, n - 1);
      var c := n - 1;
      if c > 0 && cs[c].used && cs[c].parent == id {
        assert Parent(c) == id && c > id;
        SubtreeWithinQuota(cs, own, c);
      }
    }
  }

  // ----- how the three mutations move the accounts

  lemma {:induction false} ChildQuotasAfterCharge(cs: seq<Container>, id: nat, units: int, p: int, n: nat)
    requires id < |cs| && n <= |cs|
    ensures ChildQuotas(Charge(cs, id, units), p, n) == ChildQuotas(cs, p, n)
  {
    if n > 0 {
      ChildQuotasAfterCharge(cs, id, units, p, n - 1);
    }
  }

  /** One frame more or fewer for `id`. */
  lemma ChargeKeepsAccounts(cs: seq<Container>, own: seq<nat>, id: nat, units: int)
    requires Tree(cs) && Accounts(cs, own) && id < MAX_PROCS
    requires own[id] + units >= 0
    requires cs[id].usage + units <= cs[id].quota && cs[id].used
    ensures Tree(Charge(cs, id, units))
    ensures Accounts(Charge(cs, id, units), own[id := own[id] + units])
  {
    forall i | 0 <= i < MAX_PROCS
      ensures ChildQuotas(Charge(cs, id, units), i, MAX_PROCS) == ChildQuotas(cs, i, MAX_PROCS)
    {
      ChildQuotasAfterCharge(cs, id, units, i, MAX_PROCS);
    }
    ChildQuotasNonNegative(cs, id, MAX_PROCS);
    assert cs[id].usage == own[id] + ChildQuotas(cs, id, MAX_PROCS);
  }

  lemma {:induction false} ChildQuotasNonNegative(cs: seq<Container>, p: int, n: nat)
    requires n <= |cs|
    requires forall i :: 0 <= i < |cs| ==> 0 <= cs[i].usage <= cs[i].quota
    ensures ChildQuotas(cs, p, n) >= 0
  {
    if n > 0 {
      ChildQuotasNonNegative(cs, p, n - 1);
    }
  }

  lemma {:induction false} ChildQuotasAfterSplit(cs: seq<Container>, id: nat, quota: int, p: int, n: nat)
    requires n <= |cs| && id < |cs| && id < ChildId(cs, id) < |cs| && !cs[ChildId(cs, id)].used
    ensures ChildQuotas(Split(cs, id, quota), p, n)
            == ChildQuotas(cs, p, n) + if p == id && n > ChildId(cs, id) then quota else 0
  {
    if n > 0 {
      ChildQuotasAfterSplit(cs, id, quota, p, n - 1);
    }
  }

  /** A safe split keeps every account: the parent's usage grows by what the child may use. */
  lemma SplitKeepsAccounts(cs: seq<Container>, own: seq<nat>, id: nat, quota: nat)
    requires Tree(cs) && Accounts(cs, own) && id < MAX_PROCS && cs[id].used && RoomForChild(cs, id)
    requires cs[id].usage + quota <= cs[id].quota
    ensures Accounts(Split(cs, id, quota), own)
  {
    SplitKeepsTree(cs, id, quota);
    var cs' := Split(cs, id, quota);
    ChildQuotasNonNegative(cs, ChildId(cs, id), MAX_PROCS);
    assert own[ChildId(cs, id)] == 0;
    forall i | 0 <= i < MAX_PROCS
      ensures cs'[i].usage == own[i] + ChildQuotas(cs', i, MAX_PROCS)
    {
      ChildQuotasAfterSplit(cs, id, quota, i, MAX_PROCS);
      assert cs[i].usage == own[i] + ChildQuotas(cs, i, MAX_PROCS);
    }
  }

  /** ContainerSplit on the container table. */
  method ContainerSplit(containers: array<Container>, id: nat, quota: nat) returns (childID: nat)
    requires id < containers.Length && 0 <= ChildId(containers[..], id) < containers.Length
    modifies containers
    ensures childID == ChildId(old(containers[..]), id)
    ensures containers[..] == Split(old(containers[..]), id, quota)
  {
    var numChildren := containers[id].numChildren;
    childID := id * MAX_CHILDREN + 1 + numChildren;
    containers[childID] := containers[childID].(used := true);
    containers[childID] := containers[childID].(quota := quota);
    containers[childID] := containers[childID].(usage := 0);
    containers[childID] := containers[childID].(parent := id);
    containers[childID] := containers[childID].(numChildren := 0);
    containers[id] := containers[id].(usage := containers[id].usage + quota);
    containers[id] := containers[id].(numChildren := containers[id].numChildren + 1);
  }
}
