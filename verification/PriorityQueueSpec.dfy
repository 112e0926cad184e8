/**
 The abstract state of the priority queue store, and what its operations do to it.

 The store keeps one FIFO queue of items per discriminator and arranges these queues in a binary
 min-heap. A queue's priority is the priority of its head item, or `MAX_SAFE_INTEGER` while the
 queue holds an unexpired lock. Nothing here mentions rows: the two tables that represent this
 state are in `PriorityQueueStore`.
 */
module PriorityQueueSpec {
  import opened Wrappers
  import opened HeapOrder

  type Discriminator = string
  type Token = string
  type Item = string            // the JSON text of an item
  type ItemIdentifier = string

  datatype Error =
    | InvalidOperation
    | ItemNotFound
    | ItemNotLocked
    | TokenMismatch
    | NullQueue                 // the TypeError of dereferencing a missing right child
    | NullItem                  // the TypeError of taking the item out of a missing row

  datatype Entry = Entry(item: Item, priority: int)

  datatype Lock = Lock(until: int, token: Token)

  /**
   `heap[i]` is the queue whose index in the priority queue is i; `fifo[d]` are the items stored
   for d, head first. A discriminator may have items without having a queue (see `AfterRemove`).
   */
  datatype View = View(
    heap: seq<Discriminator>,
    locks: map<Discriminator, Lock>,
    fifo: map<Discriminator, seq<Entry>>)

  // ---------- Structure ----------

  function Fifo(v: View, d: Discriminator): seq<Entry> {
    if d in v.fifo then v.fifo[d] else []
  }

  ghost predicate Distinct(heap: seq<Discriminator>) {
    forall i, j :: 0 <= i < j < |heap| ==> heap[i] != heap[j]
  }

  /** What holds of every state except that the queue of `x` may have lost its last item. */
  ghost predicate NearlyInv(v: View, x: Discriminator) {
    && Distinct(v.heap)
    && (forall d :: d in v.heap && d != x ==> d in v.fifo)
    && (forall d :: d in v.fifo ==> v.fifo[d] != [])
    && (forall d :: d in v.fifo && d !in v.heap ==> |v.fifo[d]| == 1)
    && (forall d :: d in v.locks ==> d in v.heap)
  }

  /** What holds of every reachable state, whatever the clock and the priorities are. */
  ghost predicate Inv(v: View) {
    && Distinct(v.heap)
    && (forall d :: d in v.heap ==> d in v.fifo)
    && (forall d :: d in v.fifo ==> v.fifo[d] != [])
    && (forall d :: d in v.fifo && d !in v.heap ==> |v.fifo[d]| == 1)
    && (forall d :: d in v.locks ==> d in v.heap)
  }

  /** w holds the same queues, locks and items as v, with the queues in another heap order. */
  ghost predicate Reordered(v: View, w: View) {
    && w.locks == v.locks
    && w.fifo == v.fifo
    && Distinct(w.heap)
    && |w.heap| == |v.heap|
    && forall d :: d in w.heap <==> d in v.heap
  }

  ghost function IndexOf(heap: seq<Discriminator>, d: Discriminator): (i: nat)
    requires d in heap
    ensures i < |heap| && heap[i] == d
  {
    var i :| 0 <= i < |heap| && heap[i] == d;
    i
  }

  /** Every stored priority is a number that the source language represents exactly. */
  ghost predicate Bounded(v: View) {
    forall d, k :: d in v.fifo && 0 <= k < |v.fifo[d]| ==> v.fifo[d][k].priority <= MAX_SAFE_INTEGER
  }

  // ---------- Priorities at one instant ----------

  predicate Unexpired(v: View, d: Discriminator, now: int) {
    d in v.locks && v.locks[d].until > now
  }

  function Priority(v: View, d: Discriminator, now: int): int
    requires Fifo(v, d) != []
  {
    if Unexpired(v, d, now) then MAX_SAFE_INTEGER else v.fifo[d][0].priority
  }

  /** The priorities along the heap. */
  ghost function Priorities(v: View, now: int): (p: seq<int>)
    requires Inv(v)
    ensures |p| == |v.heap|
    ensures forall i :: 0 <= i < |p| ==> p[i] == Priority(v, v.heap[i], now)
  {
    seq(|v.heap|, i requires 0 <= i < |v.heap| => Priority(v, v.heap[i], now))
  }

  ghost predicate HeapOrdered(v: View, now: int)
    requires Inv(v)
  {
    Ordered(Priorities(v, now))
  }

  // ---------- Heap repair at one instant ----------

  function Swapped(v: View, i: nat, j: nat): View
    requires i < |v.heap| && j < |v.heap|
  {
    v.(heap := Swap(v.heap, i, j))
  }

  lemma SwapKeeps(v: View, i: nat, j: nat)
    requires Inv(v) && i < |v.heap| && j < |v.heap|
    ensures Inv(Swapped(v, i, j)) && Reordered(v, Swapped(v, i, j))
  {
    var w := Swapped(v, i, j);
    assert w.heap[i] == v.heap[j] && w.heap[j] == v.heap[i];
    forall d ensures d in w.heap <==> d in v.heap {
      if d in v.heap {
        var k := IndexOf(v.heap, d);
        assert w.heap[if k == i then j else if k == j then i else k] == d;
      }
    }
  }

  ghost function RepairedUp(v: View, now: int, i: nat): (w: View)
    requires Inv(v) && i < |v.heap|
    ensures Inv(w) && Reordered(v, w)
    decreases i
  {
    if i == 0 || Priorities(v, now)[Parent(i)] <= Priorities(v, now)[i] then v
    else
      SwapKeeps(v, i, Parent(i));
      RepairedUp(Swapped(v, i, Parent(i)), now, Parent(i))
  }

  /** `None` is the case in which the code swaps with a right child that does not exist. */
  ghost function RepairedDown(v: View, now: int, i: nat): (w: Option<View>)
    requires Inv(v) && i < |v.heap|
    ensures w.Some? ==> Inv(w.value) && Reordered(v, w.value)
    decreases |v.heap| - i
  {
    match SinkChoice(Priorities(v, now), i)
    case Stay => Some(v)
    case Into(c) =>
      SwapKeeps(v, i, c);
      RepairedDown(Swapped(v, i, c), now, c)
    case MissingRight => None
  }

  // ---------- What each operation changes, before the heap is repaired ----------

  function AfterEnqueue(v: View, d: Discriminator, e: Entry): View {
    View(
      if d in v.heap then v.heap else v.heap + [d],
      v.locks,
      v.fifo[d := Fifo(v, d) + [e]])
  }

  function AfterLock(v: View, d: Discriminator, lock: Lock): View {
    v.(locks := v.locks[d := lock])
  }

  ghost function WithoutQueue(v: View, d: Discriminator): View
    requires d in v.heap
  {
    v.(heap := Unseated(v.heap, IndexOf(v.heap, d)), locks := v.locks - {d})
  }

  function WithoutHead(v: View, d: Discriminator): View
    requires Fifo(v, d) != []
  {
    v.(fifo := if |v.fifo[d]| == 1 then v.fifo - {d} else v.fifo[d := v.fifo[d][1..]])
  }

  ghost function AfterAcknowledge(v: View, d: Discriminator): View
    requires d in v.heap && Fifo(v, d) != []
  {
    var w := WithoutHead(v, d);
    if d in w.fifo then w.(locks := w.locks - {d}) else WithoutQueue(w, d)
  }

  ghost function AfterDefer(v: View, d: Discriminator, priority: int): View
    requires d in v.heap && Fifo(v, d) != []
  {
    AfterEnqueue(AfterAcknowledge(v, d), d, Entry(v.fifo[d][0].item, priority))
  }

  /** Removing the only item of a queue deletes the queue but keeps the item. */
  ghost function AfterRemove(v: View, d: Discriminator, k: nat): View
    requires d in v.heap && k < |Fifo(v, d)|
  {
    if |v.fifo[d]| == 1 then WithoutQueue(v, d)
    else v.(fifo := v.fifo[d := v.fifo[d][..k] + v.fifo[d][k + 1..]])
  }

  // ---------- These changes keep the structure ----------

  lemma EnqueueKeepsInv(v: View, d: Discriminator, e: Entry)
    requires Inv(v)
    ensures Inv(AfterEnqueue(v, d, e))
  {
    var w := AfterEnqueue(v, d, e);
    assert w.fifo[d] != [];
    assert d in w.heap by {
      if d !in v.heap { assert w.heap[|v.heap|] == d; }
    }
    forall x | x in v.heap ensures x in w.heap {
      assert w.heap[IndexOf(v.heap, x)] == x;
    }
  }

  lemma UnseatedElements(heap: seq<Discriminator>, i: nat)
    requires Distinct(heap) && i < |heap|
    ensures Distinct(Unseated(heap, i))
    ensures forall d :: d in Unseated(heap, i) <==> d in heap && d != heap[i]
  {
    var h, count := Unseated(heap, i), |heap| - 1;
    forall d ensures d in h <==> d in heap && d != heap[i] {
      if d in heap && d != heap[i] {
        var k := IndexOf(heap, d);
        assert h[if k == count then i else k] == d;
      }
    }
  }

  lemma WithoutQueueKeepsInv(v: View, d: Discriminator)
    requires NearlyInv(v, d) && d in v.heap && |Fifo(v, d)| <= 1
    ensures Inv(WithoutQueue(v, d))
  {
    UnseatedElements(v.heap, IndexOf(v.heap, d));
  }

  lemma AcknowledgeKeepsInv(v: View, d: Discriminator)
    requires Inv(v) && d in v.heap
    ensures Inv(AfterAcknowledge(v, d))
  {
    var w := WithoutHead(v, d);
    if d !in w.fifo { WithoutQueueKeepsInv(w, d); }
  }

  lemma RemoveKeepsInv(v: View, d: Discriminator, k: nat)
    requires Inv(v) && d in v.heap && k < |Fifo(v, d)|
    ensures Inv(AfterRemove(v, d, k))
  {
    if |v.fifo[d]| == 1 { WithoutQueueKeepsInv(v, d); }
  }

  lemma DeferKeepsInv(v: View, d: Discriminator, priority: int)
    requires Inv(v) && d in v.heap
    ensures Inv(AfterDefer(v, d, priority))
  {
    AcknowledgeKeepsInv(v, d);
    EnqueueKeepsInv(AfterAcknowledge(v, d), d, Entry(v.fifo[d][0].item, priority));
  }

  // ---------- The operations at one instant: the change, then the repair ----------

  ghost function Enqueued(v: View, now: int, d: Discriminator, e: Entry): (w: View)
    requires Inv(v)
    ensures Inv(w) && Reordered(AfterEnqueue(v, d, e), w)
  {
    EnqueueKeepsInv(v, d, e);
    if d in v.heap then AfterEnqueue(v, d, e)
    else RepairedUp(AfterEnqueue(v, d, e), now, |v.heap|)
  }

  /** `d` is the queue with the lowest index among those that are not locked at `now`. */
  ghost predicate IsNext(v: View, now: int, d: Discriminator) {
    && d in v.heap
    && !Unexpired(v, d, now)
    && forall j :: 0 <= j < IndexOf(v.heap, d) ==> Unexpired(v, v.heap[j], now)
  }

  ghost predicate AllLocked(v: View, now: int) {
    forall d :: d in v.heap ==> Unexpired(v, d, now)
  }

  /** Both granting and renewing a lock write the lock and repair down. */
  ghost function Locked(v: View, now: int, d: Discriminator, lock: Lock): Option<View>
    requires Inv(v) && d in v.heap
  {
    RepairedDown(AfterLock(v, d, lock), now, IndexOf(v.heap, d))
  }

  /** Repairs slot i down if a queue has been moved there. */
  ghost function RefilledDown(v: View, now: int, i: nat): (w: Option<View>)
    requires Inv(v)
    ensures w.Some? ==> Inv(w.value) && Reordered(v, w.value)
  {
    if i >= |v.heap| then Some(v) else RepairedDown(v, now, i)
  }

  ghost function QueueRemoved(v: View, now: int, d: Discriminator): Option<View>
    requires NearlyInv(v, d) && d in v.heap && |Fifo(v, d)| <= 1
  {
    WithoutQueueKeepsInv(v, d);
    RefilledDown(WithoutQueue(v, d), now, IndexOf(v.heap, d))
  }

  ghost function Acknowledged(v: View, now: int, d: Discriminator): Option<View>
    requires Inv(v) && d in v.heap
  {
    AcknowledgeKeepsInv(v, d);
    RefilledDown(AfterAcknowledge(v, d), now, IndexOf(v.heap, d))
  }

  lemma AcknowledgedReorders(v: View, now: int, d: Discriminator)
    requires Inv(v) && d in v.heap && Acknowledged(v, now, d).Some?
    ensures Inv(Acknowledged(v, now, d).value)
    ensures Reordered(AfterAcknowledge(v, d), Acknowledged(v, now, d).value)
  {
    AcknowledgeKeepsInv(v, d);
  }

  ghost function Deferred(v: View, now: int, d: Discriminator, priority: int): Option<View>
    requires Inv(v) && d in v.heap
  {
    match Acknowledged(v, now, d)
    case None => None
    case Some(w) =>
      AcknowledgedReorders(v, now, d);
      Some(Enqueued(w, now, d, Entry(v.fifo[d][0].item, priority)))
  }

  ghost function Removed(v: View, now: int, d: Discriminator, k: nat): Option<View>
    requires Inv(v) && d in v.heap && k < |Fifo(v, d)|
  {
    RemoveKeepsInv(v, d, k);
    if |v.fifo[d]| == 1 then RefilledDown(AfterRemove(v, d, k), now, IndexOf(v.heap, d))
    else if k > 0 then Some(AfterRemove(v, d, k))
    else
      match RepairedDown(AfterRemove(v, d, 0), now, IndexOf(v.heap, d))
      case None => None
      case Some(w) => Some(RepairedUp(w, now, IndexOf(w.heap, d)))
  }

  lemma ReorderedReflexive(v: View)
    requires Inv(v)
    ensures Reordered(v, v)
  {}

  lemma ReorderedTransitive(u: View, v: View, w: View)
    requires Reordered(u, v) && Reordered(v, w)
    ensures Reordered(u, w)
  {}

  lemma ReorderedBounded(v: View, w: View)
    requires Reordered(v, w)
    ensures Bounded(v) <==> Bounded(w)
  {}

  lemma ReorderedKeepsInv(v: View, w: View)
    requires Inv(v) && Reordered(v, w)
    ensures Inv(w)
  {}

  /** The operations do not depend on the heap order in what they change otherwise. */
  lemma ReorderedEnqueue(v: View, w: View, d: Discriminator, e: Entry)
    requires Inv(v) && Reordered(v, w)
    ensures Reordered(AfterEnqueue(v, d, e), AfterEnqueue(w, d, e))
  {
    ReorderedKeepsInv(v, w);
    EnqueueKeepsInv(v, d, e);
    EnqueueKeepsInv(w, d, e);
  }
}
