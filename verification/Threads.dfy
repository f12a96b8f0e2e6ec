/** Thread queues and the scheduler of src/thread.c: doubly linked lists threaded through one
    array of control blocks, and round-robin yielding over the ready list. */
module Threads {
  import opened Quota

  const NULL: int := MAX_PROCS        // the null thread index
  const READY_QUEUE: int := MAX_PROCS // the queue of ready threads

  datatype ThreadState = Ready | Run | Sleep | Dead
  datatype Tcb = Tcb(state: ThreadState, prev: int, next: int)
  datatype ThreadQueue = ThreadQueue(head: int, tail: int)
  datatype KernelContext = KernelContext(esp: int, edi: int, esi: int, ebx: int, ebp: int, eip: int)

  // ----- lists

  ghost predicate NoDup(q: seq<int>) { forall i, j :: 0 <= i < j < |q| ==> q[i] != q[j] }

  ghost predicate Indices(q: seq<int>) { forall i :: 0 <= i < |q| ==> 0 <= q[i] < MAX_PROCS }

  function Before(q: seq<int>, i: int): int
    requires 0 <= i < |q|
  {
    if i == 0 then NULL else q[i - 1]
  }

  function After(q: seq<int>, i: int): int
    requires 0 <= i < |q|
  {
    if i == |q| - 1 then NULL else q[i + 1]
  }

  /** Head, tail and links of the control blocks spell out the list `q`. */
  ghost predicate Linked(tcbs: seq<Tcb>, tq: ThreadQueue, q: seq<int>)
    requires |tcbs| == MAX_PROCS && Indices(q)
  {
    && tq.head == (if q == [] then NULL else q[0])
    && tq.tail == (if q == [] then NULL else q[|q| - 1])
    && (forall i {:trigger Before(q, i)} :: 0 <= i < |q| ==> tcbs[q[i]].prev == Before(q, i))
    && (forall i {:trigger After(q, i)} :: 0 <= i < |q| ==> tcbs[q[i]].next == After(q, i))
  }

  /** Every queue spells out its list, and no thread is in two places. */
  ghost predicate WellFormed(tcbs: seq<Tcb>, queues: seq<ThreadQueue>, lists: seq<seq<int>>) {
    && |tcbs| == MAX_PROCS && |queues| == |lists| == MAX_PROCS + 1
    && (forall a :: 0 <= a <= MAX_PROCS ==> Indices(lists[a]) && NoDup(lists[a]) && Linked(tcbs, queues[a], lists[a]))
    && (forall a, b, t :: 0 <= a <= MAX_PROCS && 0 <= b <= MAX_PROCS && t in lists[a] && t in lists[b] ==> a == b)
  }

  ghost predicate Queued(lists: seq<seq<int>>, t: int) { exists a :: 0 <= a < |lists| && t in lists[a] }

  function Without(q: seq<int>, k: nat): seq<int>
    requires k < |q|
  {
    q[..k] + q[k + 1..]
  }

  /** A list keeps its links when only control blocks outside it change. */
  lemma LinkedElsewhere(tcbs: seq<Tcb>, tcbs': seq<Tcb>, tq: ThreadQueue, q: seq<int>)
    requires |tcbs| == |tcbs'| == MAX_PROCS && Indices(q) && Linked(tcbs, tq, q)
    requires forall t :: t in q ==> tcbs'[t].prev == tcbs[t].prev && tcbs'[t].next == tcbs[t].next
    ensures Linked(tcbs', tq, q)
  {
    forall i | 0 <= i < |q| ensures q[i] in q {}
  }

  /** Changing one list, and only its members' links (old or new), keeps the others. */
  lemma OneListChanged(tcbs: seq<Tcb>, queues: seq<ThreadQueue>, lists: seq<seq<int>>,
                       tcbs': seq<Tcb>, queues': seq<ThreadQueue>, a: nat, q: seq<int>)
    requires WellFormed(tcbs, queues, lists) && a <= MAX_PROCS
    requires |tcbs'| == MAX_PROCS && |queues'| == |queues| && queues' == queues[a := queues'[a]]
    requires Indices(q) && NoDup(q) && Linked(tcbs', queues'[a], q)
    requires forall t :: t in q && t !in lists[a] ==> !Queued(lists, t)
    requires forall t :: 0 <= t < MAX_PROCS && t !in q && t !in lists[a] ==>
               tcbs'[t].prev == tcbs[t].prev && tcbs'[t].next == tcbs[t].next
    ensures WellFormed(tcbs', queues', lists[a := q])
  {
    forall b | 0 <= b <= MAX_PROCS && b != a ensures Linked(tcbs', queues'[b], lists[b]) {
      forall t | t in lists[b] ensures t !in q && t !in lists[a] {
        assert Queued(lists, t);
      }
      LinkedElsewhere(tcbs, tcbs', queues[b], lists[b]);
    }
    forall b, t | 0 <= b <= MAX_PROCS && b != a && t in lists[b] ensures t !in q {
      assert Queued(lists, t);
    }
  }

  // ----- the three list edits, on values

  function Prev(tcbs: seq<Tcb>, t: int, p: int): seq<Tcb>
    requires 0 <= t < |tcbs|
  {
    tcbs[t := tcbs[t].(prev := p)]
  }

  function Next(tcbs: seq<Tcb>, t: int, n: int): seq<Tcb>
    requires 0 <= t < |tcbs|
  {
    tcbs[t := tcbs[t].(next := n)]
  }

  /** States stay, and so do the links of everyone outside `touched`. */
  ghost predicate LinksOnly(tcbs: seq<Tcb>, tcbs': seq<Tcb>, touched: set<int>) {
    && |tcbs'| == |tcbs|
    && (forall t :: 0 <= t < |tcbs| ==> tcbs'[t].state == tcbs[t].state)
    && (forall t :: 0 <= t < |tcbs| && t !in touched ==> tcbs'[t] == tcbs[t])
  }

  function Enqueue(tcbs: seq<Tcb>, tq: ThreadQueue, id: int): (seq<Tcb>, ThreadQueue)
    requires 0 <= id < |tcbs| == MAX_PROCS && (tq.tail != NULL ==> 0 <= tq.tail < MAX_PROCS)
  {
    if tq.tail == NULL then (Prev(Next(tcbs, id, NULL), id, NULL), ThreadQueue(id, id))
    else (Next(Prev(Next(tcbs, tq.tail, id), id, tq.tail), id, NULL), tq.(tail := id))
  }

  lemma EnqueueAppends(tcbs: seq<Tcb>, tq: ThreadQueue, q: seq<int>, id: int)
    requires |tcbs| == MAX_PROCS && Indices(q) && NoDup(q) && Linked(tcbs, tq, q)
    requires 0 <= id < MAX_PROCS && id !in q
    ensures tq.tail != NULL ==> 0 <= tq.tail < MAX_PROCS
    ensures var (tcbs', tq') := Enqueue(tcbs, tq, id);
            && Indices(q + [id]) && NoDup(q + [id]) && LinksOnly(tcbs, tcbs', Members(q + [id]))
            && Linked(tcbs', tq', q + [id])
  {
    hide Linked;
    EndsOf(tcbs, tq, q);
    EnqueueLinks(tcbs, tq, q, id);
    assert q != [] ==> q[|q| - 1] in q + [id];
    assert (q + [id])[|q|] == id;
  }

  lemma EndsOf(tcbs: seq<Tcb>, tq: ThreadQueue, q: seq<int>)
    requires |tcbs| == MAX_PROCS && Indices(q) && Linked(tcbs, tq, q)
    ensures tq.head == (if q == [] then NULL else q[0]) && tq.tail == (if q == [] then NULL else q[|q| - 1])
  {}

  lemma EnqueueLinks(tcbs: seq<Tcb>, tq: ThreadQueue, q: seq<int>, id: int)
    requires |tcbs| == MAX_PROCS && Indices(q) && NoDup(q) && Linked(tcbs, tq, q) && 0 <= id < MAX_PROCS && id !in q
    requires tq.tail == if q == [] then NULL else q[|q| - 1]
    ensures Indices(q + [id]) && Linked(Enqueue(tcbs, tq, id).0, Enqueue(tcbs, tq, id).1, q + [id])
  {
    var tcbs' := Enqueue(tcbs, tq, id).0;
    var r := q + [id];
    forall i | 0 <= i < |r| ensures tcbs'[r[i]].prev == Before(r, i) && tcbs'[r[i]].next == After(r, i) {
      EnqueueLinkAt(tcbs, tq, q, id, i);
    }
  }

  lemma EnqueueLinkAt(tcbs: seq<Tcb>, tq: ThreadQueue, q: seq<int>, id: int, i: nat)
    requires |tcbs| == MAX_PROCS && Indices(q) && NoDup(q) && Linked(tcbs, tq, q) && 0 <= id < MAX_PROCS && id !in q
    requires tq.tail == if q == [] then NULL else q[|q| - 1]
    requires i <= |q|
    ensures var tcbs' := Enqueue(tcbs, tq, id).0; var r := q + [id];
            && 0 <= r[i] < MAX_PROCS && tcbs'[r[i]].prev == Before(r, i) && tcbs'[r[i]].next == After(r, i)
  {
    if i < |q| {
      assert tcbs[q[i]].prev == Before(q, i) && tcbs[q[i]].next == After(q, i);
      assert q[i] in q && (i < |q| - 1 ==> q[i] != q[|q| - 1]);
    }
    hide Linked, NoDup, Indices;
  }

  function Members(q: seq<int>): set<int> { set t | t in q }

  function Dequeue(tcbs: seq<Tcb>, tq: ThreadQueue): (seq<Tcb>, ThreadQueue)
    requires |tcbs| == MAX_PROCS && 0 <= tq.head < MAX_PROCS
    requires tcbs[tq.head].next != NULL ==> 0 <= tcbs[tq.head].next < MAX_PROCS
  {
    var next := tcbs[tq.head].next;
    var cut := Next(tcbs, tq.head, NULL);
    if next == NULL then (cut, ThreadQueue(NULL, NULL)) else (Prev(cut, next, NULL), tq.(head := next))
  }

  lemma DequeuePops(tcbs: seq<Tcb>, tq: ThreadQueue, q: seq<int>)
    requires |tcbs| == MAX_PROCS && Indices(q) && NoDup(q) && Linked(tcbs, tq, q) && q != []
    ensures 0 <= tq.head < MAX_PROCS && (tcbs[tq.head].next != NULL ==> 0 <= tcbs[tq.head].next < MAX_PROCS)
    ensures var (tcbs', tq') := Dequeue(tcbs, tq);
            && Indices(q[1..]) && NoDup(q[1..]) && LinksOnly(tcbs, tcbs', Members(q)) && Linked(tcbs', tq', q[1..])
  {
    hide Linked;
    HeadOf(tcbs, tq, q);
    DequeueLinks(tcbs, tq, q);
    assert q[0] in q && (|q| > 1 ==> q[1] in q);
  }

  lemma HeadOf(tcbs: seq<Tcb>, tq: ThreadQueue, q: seq<int>)
    requires |tcbs| == MAX_PROCS && Indices(q) && Linked(tcbs, tq, q) && q != []
    ensures tq.head == q[0] && tcbs[q[0]].next == if |q| == 1 then NULL else q[1]
  {
    assert tcbs[q[0]].next == After(q, 0);
  }

  lemma DequeueLinks(tcbs: seq<Tcb>, tq: ThreadQueue, q: seq<int>)
    requires |tcbs| == MAX_PROCS && Indices(q) && NoDup(q) && Linked(tcbs, tq, q) && q != []
    requires tq.head == q[0] && tcbs[q[0]].next == if |q| == 1 then NULL else q[1]
    ensures Indices(q[1..]) && Linked(Dequeue(tcbs, tq).0, Dequeue(tcbs, tq).1, q[1..])
  {
    var (tcbs', tq') := Dequeue(tcbs, tq);
    var r := q[1..];
    forall i | 0 <= i < |r| ensures tcbs'[r[i]].prev == Before(r, i) && tcbs'[r[i]].next == After(r, i) {
      assert r[i] == q[i + 1];
      assert tcbs[q[i + 1]].prev == Before(q, i + 1) && tcbs[q[i + 1]].next == After(q, i + 1);
    }
  }

  function Remove(tcbs: seq<Tcb>, tq: ThreadQueue, id: int): (seq<Tcb>, ThreadQueue)
    requires 0 <= id < |tcbs| == MAX_PROCS
    requires tcbs[id].prev != NULL ==> 0 <= tcbs[id].prev < MAX_PROCS
    requires tcbs[id].next != NULL ==> 0 <= tcbs[id].next < MAX_PROCS
  {
    var prev, next := tcbs[id].prev, tcbs[id].next;
    var cut := Next(Prev(tcbs, id, NULL), id, NULL);
    var cut1 := if prev == NULL then cut else Next(cut, prev, next);
    var cut2 := if next == NULL then cut1 else Prev(cut1, next, prev);
    (cut2, ThreadQueue(if prev == NULL then next else tq.head, if next == NULL then prev else tq.tail))
  }

  lemma NeighboursIn(tcbs: seq<Tcb>, tq: ThreadQueue, q: seq<int>, k: nat)
    requires |tcbs| == MAX_PROCS && Indices(q) && Linked(tcbs, tq, q) && k < |q|
    ensures tcbs[q[k]].prev == Before(q, k) && tcbs[q[k]].next == After(q, k)
    ensures 0 <= Before(q, k) <= MAX_PROCS && (Before(q, k) == NULL <==> k == 0)
    ensures 0 <= After(q, k) <= MAX_PROCS && (After(q, k) == NULL <==> k == |q| - 1)
  {}

  lemma RemoveDeletes(tcbs: seq<Tcb>, tq: ThreadQueue, q: seq<int>, k: nat)
    requires |tcbs| == MAX_PROCS && Indices(q) && NoDup(q) && Linked(tcbs, tq, q) && k < |q|
    requires tcbs[q[k]].prev == Before(q, k) && tcbs[q[k]].next == After(q, k)
    requires 0 <= Before(q, k) <= MAX_PROCS && 0 <= After(q, k) <= MAX_PROCS
    ensures var (tcbs', tq') := Remove(tcbs, tq, q[k]); var r := Without(q, k);
            && Indices(r) && NoDup(r) && LinksOnly(tcbs, tcbs', Members(q)) && Linked(tcbs', tq', r)
  {
    hide Linked;
    RemoveLinks(tcbs, tq, q, k);
    assert k > 0 ==> q[k - 1] in q;
    assert k < |q| - 1 ==> q[k + 1] in q;
  }

  lemma RemoveLinks(tcbs: seq<Tcb>, tq: ThreadQueue, q: seq<int>, k: nat)
    requires |tcbs| == MAX_PROCS && Indices(q) && NoDup(q) && Linked(tcbs, tq, q) && k < |q|
    requires tcbs[q[k]].prev == Before(q, k) && tcbs[q[k]].next == After(q, k)
    requires 0 <= Before(q, k) <= MAX_PROCS && 0 <= After(q, k) <= MAX_PROCS
    ensures Indices(Without(q, k)) && Linked(Remove(tcbs, tq, q[k]).0, Remove(tcbs, tq, q[k]).1, Without(q, k))
  {
    hide NoDup;
    EndsOf(tcbs, tq, q);
    var tcbs' := Remove(tcbs, tq, q[k]).0;
    var r := Without(q, k);
    forall i | 0 <= i < |r| ensures tcbs'[r[i]].prev == Before(r, i) && tcbs'[r[i]].next == After(r, i) {
      RemoveLinkAt(tcbs, tq, q, k, i);
    }
  }

  lemma RemoveLinkAt(tcbs: seq<Tcb>, tq: ThreadQueue, q: seq<int>, k: nat, i: nat)
    requires |tcbs| == MAX_PROCS && Indices(q) && NoDup(q) && Linked(tcbs, tq, q) && k < |q| && i < |q| - 1
    requires tcbs[q[k]].prev == Before(q, k) && tcbs[q[k]].next == After(q, k)
    requires 0 <= Before(q, k) <= MAX_PROCS && 0 <= After(q, k) <= MAX_PROCS
    ensures var tcbs' := Remove(tcbs, tq, q[k]).0; var r := Without(q, k);
            && 0 <= r[i] < MAX_PROCS && tcbs'[r[i]].prev == Before(r, i) && tcbs'[r[i]].next == After(r, i)
  {
    hide Linked, NoDup, Indices;
    var r := Without(q, k);
    var j := if i < k then i else i + 1;
    assert r[i] == q[j];
    assert i > 0 ==> r[i - 1] == q[if i - 1 < k then i - 1 else i];
    assert i + 1 < |r| ==> r[i + 1] == q[if i + 1 < k then i + 1 else i + 2];
    LinksAt(tcbs, tq, q, k);
    LinksAt(tcbs, tq, q, j);
    DistinctAt(q, j, k);
    if k > 0 {
      LinksAt(tcbs, tq, q, k - 1);
      DistinctAt(q, j, k - 1);
    }
    if k < |q| - 1 {
      LinksAt(tcbs, tq, q, k + 1);
      DistinctAt(q, j, k + 1);
    }
  }

  lemma LinksAt(tcbs: seq<Tcb>, tq: ThreadQueue, q: seq<int>, j: nat)
    requires |tcbs| == MAX_PROCS && Indices(q) && Linked(tcbs, tq, q) && j < |q|
    ensures 0 <= q[j] < MAX_PROCS && tcbs[q[j]].prev == Before(q, j) && tcbs[q[j]].next == After(q, j)
  {}

  lemma DistinctAt(q: seq<int>, i: nat, j: nat)
    requires NoDup(q) && i < |q| && j < |q|
    ensures q[i] == q[j] <==> i == j
  {}

  // ----- round robin

  /** The current thread followed by the ready list. */
  function Ring(current: int, ready: seq<int>): seq<int> { [current] + ready }

  function Rotate(ring: seq<int>): seq<int>
    requires ring != []
  {
    ring[1..] + [ring[0]]
  }

  function Yields(ring: seq<int>, k: nat): (r: seq<int>)
    requires ring != []
    ensures |r| == |ring|
  {
    if k == 0 then ring else Rotate(Yields(ring, k - 1))
  }

  /** Round robin: after `k` yields the ring has turned by `k`, so the thread at position `k` of
      the ready list runs after exactly `k + 1` yields and a full turn restores everything. */
  lemma {:induction false} YieldsTurn(ring: seq<int>, k: nat)
    requires ring != [] && k <= |ring|
    ensures Yields(ring, k) == ring[k..] + ring[..k]
  {
    if k > 0 {
      YieldsTurn(ring, k - 1);
      assert ring[k - 1..] == [ring[k - 1]] + ring[k..];
      assert ring[..k] == ring[..k - 1] + [ring[k - 1]];
    }
  }

  lemma RoundRobin(current: int, ready: seq<int>)
    ensures forall k :: 0 <= k < |ready| ==> Yields(Ring(current, ready), k + 1)[0] == ready[k]
    ensures Yields(Ring(current, ready), |ready| + 1) == Ring(current, ready)
  {
    hide Yields;
    var ring := Ring(current, ready);
    forall k | 0 <= k < |ready| ensures Yields(ring, k + 1)[0] == ready[k] {
      YieldsTurn(ring, k + 1);
      assert ring[k + 1..][0] == ring[k + 1];
    }
    YieldsTurn(ring, |ring|);
    assert ring[|ring|..] + ring[..|ring|] == ring;
  }

  // ----- saved contexts

  /** ContextSwitch: save the registers into `from`, then load them from `to`. */
  function Switch(saved: seq<KernelContext>, cpu: KernelContext, from: nat, to: nat)
      : (seq<KernelContext>, KernelContext)
    requires from < |saved| && to < |saved|
  {
    (saved[from := cpu], saved[from := cpu][to])
  }

  /** The registers thread `t` will continue with. */
  function ContextOf(saved: seq<KernelContext>, cpu: KernelContext, current: int, t: int): KernelContext
    requires 0 <= t < |saved|
  {
    if t == current then cpu else saved[t]
  }

  /** Switching from the old current thread keeps every thread's registers. */
  lemma SwitchKeepsContexts(saved: seq<KernelContext>, cpu: KernelContext, current: nat, next: nat, t: nat)
    requires current < |saved| && next < |saved| && t < |saved| && next != current
    ensures var (saved', cpu') := Switch(saved, cpu, current, next);
            ContextOf(saved', cpu', next, t) == ContextOf(saved, cpu, current, t)
  {}

  /** As ThreadYield has it, "from" and "to" are both the next thread. That keeps everybody's
      registers if and only if the old, the new and the processor's registers all coincide. */
  lemma CodedSwitchKeepsContextsIff(saved: seq<KernelContext>, cpu: KernelContext, current: nat, next: nat)
    requires current < |saved| && next < |saved| && next != current
    ensures var (saved', cpu') := Switch(saved, cpu, next, next);
            (forall t :: 0 <= t < |saved| ==> ContextOf(saved', cpu', next, t) == ContextOf(saved, cpu, current, t))
            <==> saved[next] == cpu && saved[current] == cpu
  {
    var (saved', cpu') := Switch(saved, cpu, next, next);
    if forall t :: 0 <= t < |saved| ==> ContextOf(saved', cpu', next, t) == ContextOf(saved, cpu, current, t) {
      assert ContextOf(saved', cpu', next, next) == ContextOf(saved, cpu, current, next);
      assert ContextOf(saved', cpu', next, current) == ContextOf(saved, cpu, current, current);
    }
  }

  // ----- the globals

  class Scheduler {
    const tcbs: array<Tcb>
    const threadQueues: array<ThreadQueue>
    const kernelContexts: array<KernelContext>
    const containers: array<Container>
    const procStacks: int  // address of the stacks
    var currentID: nat
    var cpu: KernelContext
    ghost var lists: seq<seq<int>>

    /** The list structure, without the scheduling invariant. */
    ghost predicate Structured()
      reads this, tcbs, threadQueues, containers
    {
      && tcbs.Length == kernelContexts.Length == containers.Length == MAX_PROCS
      && threadQueues.Length == MAX_PROCS + 1
      && WellFormed(tcbs[..], threadQueues[..], lists)
      && currentID < MAX_PROCS
    }

    /** The running thread is RUN and in no queue, ready threads are READY, and whoever is
        current or queued has a container in use. */
    ghost predicate Valid()
      reads this, tcbs, threadQueues, containers
    {
      && Structured() && Tree(containers[..])
      && tcbs[currentID].state == Run && !Queued(lists, currentID)
      && (forall t :: t in ReadyList() ==> 0 <= t < MAX_PROCS && tcbs[t].state == Ready)
      && (forall t :: 0 <= t < MAX_PROCS && (t == currentID || Queued(lists, t)) ==> containers[t].used)
    }

    ghost function ReadyList(): seq<int>
      reads this
    {
      if |lists| == MAX_PROCS + 1 then lists[READY_QUEUE] else []
    }

    /** The scheduler seen from outside. */
    ghost function Abs(): Sched
      reads this, containers
      requires containers.Length == MAX_PROCS
    {
      Sched(currentID, ReadyList(), set t | 0 <= t < MAX_PROCS && containers[t].used)
    }

    lemma ValidIsSchedInv()
      requires Valid()
      ensures SchedInv(Abs())
    {
      hide Linked;
      assert lists[READY_QUEUE] == ReadyList();
      forall i | 0 <= i < |ReadyList()| ensures ReadyList()[i] != currentID && Queued(lists, ReadyList()[i]) {
        assert ReadyList()[i] in lists[READY_QUEUE];
      }
    }

    // ----- queue operations

    /** TQEnqueue is append; the other queues keep their lists. */
    method TQEnqueue(id1: nat, id2: nat)
      requires Structured() && id1 <= MAX_PROCS && id2 < MAX_PROCS && !Queued(lists, id2)
      modifies `lists, tcbs, threadQueues
      ensures Structured() && lists == old(lists)[id1 := old(lists)[id1] + [id2]]
      ensures forall t :: 0 <= t < MAX_PROCS ==> tcbs[t].state == old(tcbs[t].state)
    {
      hide Linked, NoDup, Indices;
      ghost var q, tq0 := lists[id1], threadQueues[id1];
      ghost var tcbs0, queues0 := tcbs[..], threadQueues[..];
      assert id2 !in q by { assert !Queued(lists, id2); }
      EnqueueAppends(tcbs0, tq0, q, id2);
      var oldTailID := threadQueues[id1].tail;
      if oldTailID == NULL {
        threadQueues[id1] := threadQueues[id1].(head := id2);
        threadQueues[id1] := threadQueues[id1].(tail := id2);
        tcbs[id2] := tcbs[id2].(next := NULL);
        tcbs[id2] := tcbs[id2].(prev := NULL);
      } else {
        tcbs[oldTailID] := tcbs[oldTailID].(next := id2);
        tcbs[id2] := tcbs[id2].(prev := oldTailID);
        tcbs[id2] := tcbs[id2].(next := NULL);
        threadQueues[id1] := threadQueues[id1].(tail := id2);
      }
      assert (tcbs[..], threadQueues[id1]) == Enqueue(tcbs0, tq0, id2);
      OneListChanged(tcbs0, queues0, lists, tcbs[..], threadQueues[..], id1, q + [id2]);
      lists := lists[id1 := q + [id2]];
    }

    /** TQDequeue is pop-front, or the null index on an empty queue. */
    method TQDequeue(pid: nat) returns (head: int)
      requires Structured() && pid <= MAX_PROCS
      modifies `lists, tcbs, threadQueues
      ensures Structured()
      ensures if old(lists)[pid] == [] then head == NULL && lists == old(lists)
              else head == old(lists)[pid][0] && lists == old(lists)[pid := old(lists)[pid][1..]]
      ensures forall t :: 0 <= t < MAX_PROCS ==> tcbs[t].state == old(tcbs[t].state)
    {
      hide NoDup;
      ghost var q, tq0 := lists[pid], threadQueues[pid];
      ghost var tcbs0, queues0 := tcbs[..], threadQueues[..];
      head := threadQueues[pid].head;
      if head != NULL {
        DequeuePops(tcbs0, tq0, q);
        var next := tcbs[head].next;
        tcbs[head] := tcbs[head].(next := NULL);
        threadQueues[pid] := threadQueues[pid].(head := next);
        if next == NULL {
          threadQueues[pid] := threadQueues[pid].(tail := NULL);
        } else {
          tcbs[next] := tcbs[next].(prev := NULL);
        }
        assert (tcbs[..], threadQueues[pid]) == Dequeue(tcbs0, tq0);
        OneListChanged(tcbs0, queues0, lists, tcbs[..], threadQueues[..], pid, q[1..]);
        lists := lists[pid := q[1..]];
      }
    }

    /** TQRemove deletes from any position `k`. */
    method TQRemove(id1: nat, id2: nat, ghost k: nat)
      requires Structured() && id1 <= MAX_PROCS && k < |lists[id1]| && lists[id1][k] == id2
      modifies `lists, tcbs, threadQueues
      ensures Structured() && lists == old(lists)[id1 := Without(old(lists)[id1], k)]
      ensures forall t :: 0 <= t < MAX_PROCS ==> tcbs[t].state == old(tcbs[t].state)
    {
      hide NoDup, Linked;
      ghost var q, tq0 := lists[id1], threadQueues[id1];
      ghost var tcbs0, queues0 := tcbs[..], threadQueues[..];
      NeighboursIn(tcbs0, tq0, q, k);
      RemoveDeletes(tcbs0, tq0, q, k);
      var prev := tcbs[id2].prev;
      var next := tcbs[id2].next;
      tcbs[id2] := tcbs[id2].(prev := NULL);
      tcbs[id2] := tcbs[id2].(next := NULL);
      if prev == NULL {
        threadQueues[id1] := threadQueues[id1].(head := next);
      } else {
        tcbs[prev] := tcbs[prev].(next := next);
      }
      if next == NULL {
        threadQueues[id1] := threadQueues[id1].(tail := prev);
      } else {
        tcbs[next] := tcbs[next].(prev := prev);
      }
      assert (tcbs[..], threadQueues[id1]) == Remove(tcbs0, tq0, id2);
      OneListChanged(tcbs0, queues0, lists, tcbs[..], threadQueues[..], id1, Without(q, k));
      lists := lists[id1 := Without(q, k)];
    }

    // ----- the scheduler

    /** ThreadInit: everything empty and dead, thread 0 running; the root container is in use. */
    method ThreadInit()
      requires tcbs.Length == kernelContexts.Length == containers.Length == MAX_PROCS
      requires threadQueues.Length == MAX_PROCS + 1 && Tree(containers[..])
      modifies this, tcbs, threadQueues
      ensures Valid() && currentID == 0 && forall a :: 0 <= a <= READY_QUEUE ==> lists[a] == []
      ensures forall t :: 0 <= t < 64 ==> tcbs[t] == Tcb(if t == 0 then Run else Dead, 64, 64)
      ensures forall a :: 0 <= a <= 64 ==> threadQueues[a] == ThreadQueue(64, 64)
    {
      var i := 0;
      while i < MAX_PROCS
        invariant i <= MAX_PROCS
        invariant forall t :: 0 <= t < i ==> tcbs[t] == Tcb(Dead, NULL, NULL)
      {
        tcbs[i] := Tcb(Dead, NULL, NULL);
        i := i + 1;
      }
      i := 0;
      while i < MAX_PROCS + 1
        invariant i <= MAX_PROCS + 1 && forall t :: 0 <= t < MAX_PROCS ==> tcbs[t] == Tcb(Dead, NULL, NULL)
        invariant forall k :: 0 <= k < i ==> threadQueues[k] == ThreadQueue(NULL, NULL)
      {
        threadQueues[i] := ThreadQueue(NULL, NULL);
        i := i + 1;
      }
      currentID := 0;
      tcbs[0] := tcbs[0].(state := Run);
      lists := seq(MAX_PROCS + 1, k => []);
    }

    /** The states of all other threads and all queues but the ready list are as they were. */
    twostate predicate OthersStay(threads: set<int>)
      reads this, tcbs, threadQueues, containers
      requires old(Structured()) && Structured()
    {
      && (forall a :: 0 <= a < READY_QUEUE ==> lists[a] == old(lists)[a])
      && (forall t :: 0 <= t < MAX_PROCS && t !in threads ==> tcbs[t].state == old(tcbs[t]).state)
    }

    /** ThreadSpawn: the new thread joins the end of the ready list, and nobody else moves. With
        room for a child its id has never been used; without, it must not be running or queued,
        and the tree of ids is lost. */
    method ThreadSpawn(parent: nat, quota: nat, entry: int) returns (id: nat)
      requires Valid() && parent < MAX_PROCS && containers[parent].used && ChildId(containers[..], parent) < MAX_PROCS
      requires RoomForChild(containers[..], parent)
               || (!Queued(lists, ChildId(containers[..], parent)) && ChildId(containers[..], parent) != currentID)
      modifies `lists, tcbs, threadQueues, kernelContexts, containers
      ensures Structured() && id == ChildId(old(containers[..]), parent) < MAX_PROCS
      ensures ReadyList() == old(ReadyList()) + [id] && currentID == old(currentID)
      ensures containers[..] == Split(old(containers[..]), parent, quota)
      ensures kernelContexts[..] == old(kernelContexts[..])[id :=
                old(kernelContexts[id]).(eip := entry, esp := procStacks + id * 4096 + 4095)]
      ensures tcbs[id].state == Ready && OthersStay({id})
      ensures old(RoomForChild(containers[..], parent)) ==>
                Valid() && !old(containers[id].used) && Parent(id) == parent
                  && Abs() == SchedStep(old(Abs()), Spawn(id))
    {
      hide WellFormed, Tree, Split, Parent;
      ghost var room, cs := RoomForChild(containers[..], parent), containers[..];
      if room {
        FreshChild(parent, quota);
      }
      ChildIdPositive(cs, parent);
      id := Quota.ContainerSplit(containers, parent, quota);
      kernelContexts[id] := kernelContexts[id].(eip := entry, esp := procStacks + id * 4096 + 4095);
      Enroll(id);
      UsedAfterSplit(cs, parent, quota);
    }

    lemma FreshChild(parent: nat, quota: nat)
      requires Valid() && parent < MAX_PROCS && containers[parent].used && RoomForChild(containers[..], parent)
      ensures var id := ChildId(containers[..], parent);
              && !Queued(lists, id) && id != currentID && !containers[id].used && Parent(id) == parent
              && Tree(Split(containers[..], parent, quota))
    {
      hide WellFormed, Tree;
      SplitKeepsTree(containers[..], parent, quota);
    }

    /** The new thread's entry into the ready list. */
    method Enroll(id: nat)
      requires Structured() && id < MAX_PROCS && !Queued(lists, id)
      modifies `lists, tcbs, threadQueues
      ensures Structured() && |old(lists)| == MAX_PROCS + 1
      ensures lists == old(lists)[READY_QUEUE := old(ReadyList()) + [id]]
      ensures forall t :: Queued(lists, t) <==> old(Queued(lists, t)) || t == id
      ensures forall t :: 0 <= t < MAX_PROCS ==> tcbs[t].state == if t == id then Ready else old(tcbs[t].state)
    {
      hide WellFormed;
      tcbs[id] := tcbs[id].(state := Ready);
      StateOnly(old(tcbs[..]), tcbs[..], threadQueues[..], lists);
      ListCount(tcbs[..], threadQueues[..], lists);
      ghost var before := lists;
      TQEnqueue(READY_QUEUE, id);
      QueuedAfterAppend(before, READY_QUEUE, id);
    }

    /** ThreadYield turns the ring by one, never running the null thread. The registers are
        exchanged as coded: saved into, and loaded from, the next thread's context. */
    method ThreadYield()
      requires Valid()
      modifies this, tcbs, threadQueues, kernelContexts
      ensures Valid() && currentID < MAX_PROCS
      ensures Ring(currentID, ReadyList()) == Rotate(old(Ring(currentID, ReadyList())))
      ensures Abs() == SchedStep(old(Abs()), Yield)
      ensures if currentID == old(currentID) then kernelContexts[..] == old(kernelContexts[..]) && cpu == old(cpu)
              else (kernelContexts[..], cpu) == Switch(old(kernelContexts[..]), old(cpu), currentID, currentID)
      ensures currentID != old(currentID) ==> tcbs[old(currentID)].state == Ready
      ensures OthersStay({old(currentID), currentID})
    {
      hide WellFormed, Queued, Tree;
      tcbs[currentID] := tcbs[currentID].(state := Ready);
      StateOnly(old(tcbs[..]), tcbs[..], threadQueues[..], lists);
      var nextID := Requeue();
      ghost var tcbs2 := tcbs[..];
      tcbs[nextID] := tcbs[nextID].(state := Run);
      StateOnly(tcbs2, tcbs[..], threadQueues[..], lists);
      if nextID != currentID {
        currentID := nextID;
        kernelContexts[currentID] := cpu;
        cpu := kernelContexts[nextID];
      }
    }

    /** ForceRunProcess takes `pid` out of the ready list and runs it, saving into the old
        thread's context and loading from the new one's. The old thread keeps its RUN state and
        is in no queue: nothing will schedule it again. */
    method ForceRunProcess(pid: nat, ghost k: nat)
      requires Valid() && k < |ReadyList()| && ReadyList()[k] == pid
      modifies this, tcbs, threadQueues, kernelContexts
      ensures Valid() && currentID == pid && ReadyList() == Without(old(ReadyList()), k)
      ensures (kernelContexts[..], cpu) == Switch(old(kernelContexts[..]), old(cpu), old(currentID), pid)
      ensures !Queued(lists, old(currentID)) && tcbs[old(currentID)].state == Run && OthersStay({pid})
      ensures Abs() == SchedStep(old(Abs()), Force(k))
    {
      hide WellFormed;
      var curid := currentID;
      InReadyList(k);
      RemoveFacts(tcbs[..], threadQueues[..], lists, READY_QUEUE, k);
      TQRemove(READY_QUEUE, pid, k);
      ghost var tcbs1 := tcbs[..];
      tcbs[pid] := tcbs[pid].(state := Run);
      StateOnly(tcbs1, tcbs[..], threadQueues[..], lists);
      currentID := pid;
      kernelContexts[curid] := cpu;
      cpu := kernelContexts[pid];
    }

    lemma InReadyList(k: nat)
      requires Valid() && k < |ReadyList()|
      ensures ReadyList()[k] in ReadyList() && 0 <= ReadyList()[k] < MAX_PROCS && |lists| == MAX_PROCS + 1
    {}

    /** The two queue operations of a yield, with the current thread already READY. */
    method Requeue() returns (nextID: nat)
      requires Structured() && !Queued(lists, currentID)
      modifies `lists, tcbs, threadQueues
      ensures Structured() && nextID < MAX_PROCS && !Queued(lists, nextID)
      ensures var q := old(ReadyList()) + [currentID]; nextID == q[0] && ReadyList() == q[1..]
      ensures forall t :: Queued(lists, t) ==> old(Queued(lists, t)) || t == currentID
      ensures nextID == currentID || old(Queued(lists, nextID))
      ensures forall t :: t in ReadyList() ==>
              0 <= t < MAX_PROCS && t != nextID && (t == currentID || t in old(ReadyList()))
      ensures forall t :: 0 <= t < MAX_PROCS ==> tcbs[t].state == old(tcbs[t].state)
      ensures forall a :: 0 <= a < READY_QUEUE ==> lists[a] == old(lists[a])
    {
      hide Linked, NoDup, Indices, Queued;
      ghost var lists0 := lists;
      TQEnqueue(READY_QUEUE, currentID);
      QueuedAfterAppend(lists0, READY_QUEUE, currentID);
      ghost var lists1 := lists;
      PopFacts(tcbs[..], threadQueues[..], lists1, READY_QUEUE);
      assert lists1[READY_QUEUE] == lists0[READY_QUEUE] + [currentID];
      var head := TQDequeue(READY_QUEUE);
      nextID := head;
    }
  }

  // ----- who stays schedulable over a run

  /** The scheduler seen from outside: the running thread, the ready list, the ids ever used. */
  datatype Sched = Sched(current: int, ready: seq<int>, used: set<int>)

  datatype SchedOp = Spawn(id: int) | Yield | Force(k: nat)

  ghost predicate SchedInv(s: Sched) {
    NoDup(Ring(s.current, s.ready)) && Members(Ring(s.current, s.ready)) <= s.used
  }

  predicate SchedEnabled(s: Sched, op: SchedOp) {
    match op
    case Spawn(id) => id !in s.used
    case Yield => true
    case Force(k) => k < |s.ready|
  }

  function SchedStep(s: Sched, op: SchedOp): Sched
    requires SchedEnabled(s, op)
  {
    match op
    case Spawn(id) => Sched(s.current, s.ready + [id], s.used + {id})
    case Yield => var ring := Rotate(Ring(s.current, s.ready)); Sched(ring[0], ring[1..], s.used)
    case Force(k) => Sched(s.ready[k], Without(s.ready, k), s.used)
  }

  /** Threads that were spawned but will never be scheduled again. */
  ghost function Lost(s: Sched): set<int> { s.used - Members(Ring(s.current, s.ready)) }

  /** Spawning and yielding lose nobody; forcing a process loses exactly the current thread. */
  lemma StepLoses(s: Sched, op: SchedOp)
    requires SchedInv(s) && SchedEnabled(s, op)
    ensures SchedInv(SchedStep(s, op))
    ensures Lost(SchedStep(s, op)) == if op.Force? then Lost(s) + {s.current} else Lost(s)
    ensures s.current !in Lost(s)
  {
    var s' := SchedStep(s, op);
    var ring, ring' := Ring(s.current, s.ready), Ring(s'.current, s'.ready);
    assert ring[0] == s.current && s.current in ring;
    match op
    case Spawn(id) =>
      assert ring' == ring + [id];
      forall i | 0 <= i < |ring| ensures ring[i] != id { assert ring[i] in Members(ring); }
      assert Members(ring') == Members(ring) + {id};
    case Yield =>
      assert ring' == ring[1..] + [ring[0]];
      assert Members(ring') == Members(ring);
    case Force(k) =>
      ForcedRing(s.current, s.ready, k);
  }

  lemma ForcedRing(current: int, ready: seq<int>, k: nat)
    requires NoDup(Ring(current, ready)) && k < |ready|
    ensures var ring := Ring(ready[k], Without(ready, k));
            NoDup(ring) && Members(ring) == Members(Ring(current, ready)) - {current}
  {
    var all, ring := Ring(current, ready), Ring(ready[k], Without(ready, k));
    forall i | 0 <= i < |ring|
      ensures ring[i] == all[if i == 0 then k + 1 else if i <= k then i else i + 1]
    {}
    forall t | t in all && t != current ensures t in ring {
      var j :| 0 <= j < |all| && all[j] == t;
      assert ring[if j == k + 1 then 0 else if j <= k then j else j - 1] == t;
    }
    forall t | t in ring ensures t in all && t != current {
      var i :| 0 <= i < |ring| && ring[i] == t;
      assert all[0] == current;
    }
  }

  ghost predicate SchedLegal(s: Sched, ops: seq<SchedOp>)
    decreases |ops|
  {
    ops == [] || (SchedEnabled(s, ops[0]) && SchedLegal(SchedStep(s, ops[0]), ops[1..]))
  }

  ghost function SchedRun(s: Sched, ops: seq<SchedOp>): Sched
    requires SchedLegal(s, ops)
    decreases |ops|
  {
    if ops == [] then s else SchedRun(SchedStep(s, ops[0]), ops[1..])
  }

  function Forces(ops: seq<SchedOp>): nat {
    if ops == [] then 0 else (if ops[0].Force? then 1 else 0) + Forces(ops[1..])
  }

  /** Over any run exactly one thread is lost for each forced process: every thread spawned stays
      schedulable if and only if none was forced. */
  lemma {:induction false} RunLoses(s: Sched, ops: seq<SchedOp>)
    requires SchedInv(s) && SchedLegal(s, ops)
    ensures SchedInv(SchedRun(s, ops)) && Lost(s) <= Lost(SchedRun(s, ops))
    ensures |Lost(SchedRun(s, ops))| == |Lost(s)| + Forces(ops)
    decreases |ops|
  {
    hide SchedStep, SchedInv, Lost;
    if ops != [] {
      StepLoses(s, ops[0]);
      RunLoses(SchedStep(s, ops[0]), ops[1..]);
    }
  }

  /** Changing a thread's state leaves the queues alone. */
  lemma StateOnly(tcbs: seq<Tcb>, tcbs': seq<Tcb>, queues: seq<ThreadQueue>, lists: seq<seq<int>>)
    requires WellFormed(tcbs, queues, lists) && |tcbs'| == |tcbs|
    requires forall t :: 0 <= t < |tcbs| ==> tcbs'[t].prev == tcbs[t].prev && tcbs'[t].next == tcbs[t].next
    ensures WellFormed(tcbs', queues, lists)
  {
    forall a | 0 <= a <= MAX_PROCS ensures Linked(tcbs', queues[a], lists[a]) {
      LinkedElsewhere(tcbs, tcbs', queues[a], lists[a]);
    }
  }

  lemma ListCount(tcbs: seq<Tcb>, queues: seq<ThreadQueue>, lists: seq<seq<int>>)
    requires WellFormed(tcbs, queues, lists)
    ensures |lists| == MAX_PROCS + 1
  {}

  lemma QueuedAfterAppend(lists: seq<seq<int>>, a: nat, id: int)
    requires a < |lists|
    ensures forall t :: Queued(lists[a := lists[a] + [id]], t) <==> Queued(lists, t) || t == id
  {
    var lists' := lists[a := lists[a] + [id]];
    forall t ensures Queued(lists', t) <==> Queued(lists, t) || t == id {
      assert lists'[a] == lists[a] + [id];
      if b :| 0 <= b < |lists| && t in lists[b] {
        assert t in lists'[b];
      }
      if t == id {
        assert t in lists'[a];
      }
      if b :| 0 <= b < |lists'| && t in lists'[b] {
        if b != a {
          assert lists'[b] == lists[b];
        }
      }
    }
  }

  lemma RemoveFacts(tcbs: seq<Tcb>, queues: seq<ThreadQueue>, lists: seq<seq<int>>, a: nat, k: nat)
    requires WellFormed(tcbs, queues, lists) && a <= MAX_PROCS && k < |lists[a]|
    ensures var after := lists[a := Without(lists[a], k)]; var id := lists[a][k];
            && Queued(lists, id) && !Queued(after, id)
            && (forall t :: Queued(after, t) ==> Queued(lists, t))
            && (forall t :: t in after[a] ==> t != id && t in lists[a])
  {
    hide Linked;
    var after := lists[a := Without(lists[a], k)];
    var id := lists[a][k];
    assert id in lists[a];
    forall b | 0 <= b < |after| ensures id !in after[b] {}
    forall t | Queued(after, t) ensures Queued(lists, t) {
      var b :| 0 <= b < |after| && t in after[b];
      assert t in lists[b];
    }
  }

  lemma UsedAfterSplit(cs: seq<Container>, parent: nat, quota: nat)
    requires |cs| == MAX_PROCS && parent < MAX_PROCS && 0 <= ChildId(cs, parent) < MAX_PROCS
    ensures forall t :: 0 <= t < MAX_PROCS ==>
              Split(cs, parent, quota)[t].used == (cs[t].used || t == ChildId(cs, parent))
  {}

  /** A popped thread is in no queue any more; the others stay where they were. */
  lemma PopFacts(tcbs: seq<Tcb>, queues: seq<ThreadQueue>, lists: seq<seq<int>>, a: nat)
    requires WellFormed(tcbs, queues, lists) && a <= MAX_PROCS && lists[a] != []
    ensures var after := lists[a := lists[a][1..]]; var head := lists[a][0];
            && 0 <= head < MAX_PROCS && Queued(lists, head) && !Queued(after, head)
            && (forall t :: Queued(after, t) ==> Queued(lists, t))
            && (forall t :: t in after[a] ==> 0 <= t < MAX_PROCS && t != head && t in lists[a])
  {
    hide Linked;
    var after := lists[a := lists[a][1..]];
    var head := lists[a][0];
    assert head in lists[a];
    forall b | 0 <= b < |after| ensures head !in after[b] {}
    forall t | Queued(after, t) ensures Queued(lists, t) {
      var b :| 0 <= b < |after| && t in after[b];
      assert t in lists[b];
    }
  }
}
