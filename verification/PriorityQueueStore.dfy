/**
 The priority queue store over its two tables. Every public operation is one call from the serial
 call queue, inside one transaction: an error leaves both tables as they were.
 */
module PriorityQueueStore {
  import opened Wrappers
  import opened HeapOrder
  import opened HeapRepair
  import opened PriorityQueueSpec
  import opened PriorityQueueTables
  import opened PriorityQueueProtocol
  import opened PriorityQueueEffects
  import opened TableQueries

  type Result<T> = Outcome<T, Error>

  /** A queue as the code reads it from the join of both tables. */
  datatype Queue = Queue(discriminator: Discriminator, index: int, priority: int, lock: Option<Lock>)

  function PriorityAt(queue: Queue, now: int): int {
    if queue.lock.Some? && queue.lock.value.until > now then MAX_SAFE_INTEGER else queue.priority
  }

  datatype Granted = Granted(item: Item, discriminator: Discriminator, token: Token)

  /** `queue` is what the join yields for d with the row of one of its items. */
  ghost predicate IsRow(v: View, d: Discriminator, queue: Queue) {
    && d in v.heap && queue.discriminator == d && queue.index == IndexOf(v.heap, d)
    && queue.lock == LockOf(v, d)
    && exists k :: 0 <= k < |Fifo(v, d)| && queue.priority == Fifo(v, d)[k].priority
  }

  ghost predicate IsHeadRow(v: View, d: Discriminator, queue: Queue) {
    IsRow(v, d, queue) && queue.priority == Fifo(v, d)[0].priority
  }

  lemma RowIndex(v: View, queue: Queue)
    requires IsRow(v, queue.discriminator, queue)
    ensures 0 <= queue.index < |v.heap|
  {}

  /** The call has made the choice `c`. */
  ghost predicate Chooses(r: Result<Option<Queue>>, c: Sink) {
    match c
    case Stay => r == Ok(None)
    case Into(child) => r.Ok? && r.value.Some? && r.value.value.index == child
    case MissingRight => r == Err(NullQueue)
  }

  lemma RowPriority(v: View, d: Discriminator, queue: Queue, now: int)
    requires Inv(v) && IsRow(v, d, queue)
    ensures IsHeadRow(v, d, queue) ==> PriorityAt(queue, now) == Priorities(v, now)[queue.index]
  {}

  /** The call has done what is expected at one instant: `None` stands for the missing right child. */
  ghost predicate Yields(r: Result<()>, v: View, expected: Option<View>) {
    match expected
    case Some(w) => r == Ok(()) && v == w
    case None => r == Err(NullQueue)
  }

  lemma RowsAreSwapped(queues: QueueTable, v: View, d: Discriminator, e: Discriminator)
    requires RepQueues(queues, v) && Inv(v) && d in v.heap && e in v.heap && d != e
    ensures d in queues && e in queues
    ensures var i, j := IndexOf(v.heap, d), IndexOf(v.heap, e);
      && RepQueues(
          queues[d := queues[d].(indexInPriorityQueue := -1)]
                [e := queues[e].(indexInPriorityQueue := i)]
                [d := queues[d].(indexInPriorityQueue := j)], Swapped(v, i, j))
      && Inv(Swapped(v, i, j)) && Reordered(v, Swapped(v, i, j))
      && |Swapped(v, i, j).heap| == |v.heap|
      && d in Swapped(v, i, j).heap && IndexOf(Swapped(v, i, j).heap, d) == j
  {
    var i, j := IndexOf(v.heap, d), IndexOf(v.heap, e);
    IndexIsIndexOf(queues, v, d);
    IndexIsIndexOf(queues, v, e);
    SwapRepresents(queues, v, d, e);
    SwapKeeps(v, i, j);
    SwapInThreeUpdates(queues, d, e, i, j);
    assert Swapped(v, i, j).heap[j] == d;
  }

  lemma SwapKeepsTokens(v: View, w: View, issued: set<Token>, items: ItemTable)
    requires TokensIssued(v, issued) && RepItems(items, v) && Reordered(v, w)
    ensures TokensIssued(w, issued) && RepItems(items, w)
  {
    SameItems(items, v, w);
  }

  lemma QueueRows(queues: QueueTable, v: View, d: Discriminator)
    requires RepQueues(queues, v)
    ensures d in queues <==> d in v.heap
  {}

  lemma NearlyDistinct(v: View, d: Discriminator)
    requires NearlyInv(v, d)
    ensures Distinct(v.heap)
  {}

  lemma WithoutQueueIsValid(v: View, d: Discriminator, items: ItemTable, issued: set<Token>)
    requires NearlyInv(v, d) && d in v.heap && |Fifo(v, d)| <= 1
    requires RepItems(items, v) && TokensIssued(v, issued)
    ensures var w := WithoutQueue(v, d);
      && Inv(w) && RepItems(items, w) && TokensIssued(w, issued) && Reordered(w, w)
      && |w.heap| == |v.heap| - 1 && (Bounded(v) ==> Bounded(w))
  {
    WithoutQueueKeepsInv(v, d);
    forall e, k ensures RepItemAt(items, WithoutQueue(v, d), e, k) {
      assert RepItemAt(items, v, e, k);
    }
  }

  /** Why a token is refused: checked in this order. */
  function Refusal(v: View, d: Discriminator, token: Token): Error {
    if d !in v.heap then ItemNotFound
    else if d !in v.locks then ItemNotLocked
    else TokenMismatch
  }

  lemma EnqueueIsValid(
      queues: QueueTable, items: ItemTable, v: View, issued: set<Token>, d: Discriminator, e: Entry)
    requires RepQueues(queues, v) && RepItems(items, v) && Inv(v) && TokensIssued(v, issued)
    ensures Inv(AfterEnqueue(v, d, e)) && TokensIssued(AfterEnqueue(v, d, e), issued)
    ensures RepItems(items[(d, NextIndex(IndicesOf(items, d))) := e], AfterEnqueue(v, d, e))
    ensures d in queues <==> d in v.heap
    ensures d in queues ==> RepQueues(queues, AfterEnqueue(v, d, e))
    ensures d !in queues ==>
      && RepQueues(queues[d := QueueRow(NextIndex(PositionsOf(queues)), None)], AfterEnqueue(v, d, e))
      && d in AfterEnqueue(v, d, e).heap && IndexOf(AfterEnqueue(v, d, e).heap, d) == |v.heap|
    ensures Reordered(AfterEnqueue(v, d, e), AfterEnqueue(v, d, e))
  {
    EnqueueKeepsInv(v, d, e);
    InsertRepresents(items, v, d, e);
    EnqueueRows(queues, v, d, e);
    hide RepQueues, RepItems, Inv, NextIndex;
  }

  lemma EnqueueRows(queues: QueueTable, v: View, d: Discriminator, e: Entry)
    requires RepQueues(queues, v) && Inv(v)
    ensures d in queues <==> d in v.heap
    ensures d in queues ==> RepQueues(queues, AfterEnqueue(v, d, e))
    ensures d !in queues ==>
      && RepQueues(queues[d := QueueRow(NextIndex(PositionsOf(queues)), None)], AfterEnqueue(v, d, e))
      && AfterEnqueue(v, d, e).heap[|v.heap|] == d
  {
    PositionsAreRange(queues, v);
    NextIndexOfRange(|v.heap|);
    if d !in queues {
      AppendRepresents(queues, v, d, e);
    }
  }

  lemma ViewFacts(v: View)
    requires Inv(v)
    ensures Distinct(v.heap) && Reordered(v, v)
  {}

  lemma NextHasHead(v: View, now: int, d: Discriminator)
    requires Inv(v) && IsNext(v, now, d)
    ensures d in v.heap && Fifo(v, d) != [] && IsEntry(v, d, 0, Fifo(v, d)[0])
  {}

  lemma LockIsValid(
      queues: QueueTable, items: ItemTable, v: View, issued: set<Token>, d: Discriminator, lock: Lock)
    requires RepQueues(queues, v) && RepItems(items, v) && Inv(v) && TokensIssued(v, issued)
    requires d in v.heap
    ensures var w := AfterLock(v, d, lock);
      && d in queues && RepQueues(queues[d := queues[d].(lock := Some(lock))], w) && RepItems(items, w)
      && Inv(w) && TokensIssued(w, issued + {lock.token}) && (Bounded(v) ==> Bounded(w)) && w.heap == v.heap
  {
    LockRow(queues, v, d, lock);
    LockKeepsInv(v, issued, d, lock);
    SameItems(items, v, AfterLock(v, d, lock));
    hide RepQueues, RepItems, Inv, TokensIssued, Bounded;
  }

  lemma LockRow(queues: QueueTable, v: View, d: Discriminator, lock: Lock)
    requires RepQueues(queues, v) && d in v.heap
    ensures d in queues && RepQueues(queues[d := queues[d].(lock := Some(lock))], AfterLock(v, d, lock))
  {}

  lemma LockKeepsInv(v: View, issued: set<Token>, d: Discriminator, lock: Lock)
    requires Inv(v) && TokensIssued(v, issued) && d in v.heap
    ensures var w := AfterLock(v, d, lock);
      Inv(w) && TokensIssued(w, issued + {lock.token}) && (Bounded(v) ==> Bounded(w))
  {}

  lemma SameItems(items: ItemTable, v: View, w: View)
    requires RepItems(items, v) && w.fifo == v.fifo
    ensures RepItems(items, w)
  {
    forall d, k ensures RepItemAt(items, w, d, k) {
      assert RepItemAt(items, v, d, k);
    }
  }

  /** Like `Yields`, for a call that returns something. */
  ghost predicate Delivers<T>(r: Result<T>, v: View, expected: Option<View>) {
    match expected
    case Some(w) => r.Ok? && v == w
    case None => r == Err(NullQueue)
  }

  lemma LockNextFallsIff(v: View, now: int, event: Event, lock: Lock)
    requires Inv(v)
    requires event.Grant? ==> IsNext(v, now, event.d)
    requires event.Nothing? ==> AllLocked(v, now)
    ensures event.Grant? ==>
      (Locked(v, now, event.d, lock).None? <==> LockNextFalls(v, now, lock.until))
    ensures event.Nothing? ==> !LockNextFalls(v, now, lock.until)
  {
    hide Locked, LockFalls;
    if event.Grant? {
      LockFallsIff(v, now, event.d, lock);
      forall d | IsNext(v, now, d) ensures d == event.d { NextIsUnique(v, now, d, event.d); }
    }
  }

  lemma LockedInHeap(v: View)
    requires Inv(v)
    ensures forall d :: d in v.locks ==> d in v.heap
  {}

  /** What `lockNext` returns says what it did. */
  predicate Announces(r: Option<Granted>, event: Event) {
    match r
    case None => event.Nothing?
    case Some(g) =>
      event.Grant? && event.d == g.discriminator && event.token == g.token && event.entry.item == g.item
  }

  lemma TokenIsIssued(v: View, issued: set<Token>, d: Discriminator, token: Token)
    requires TokensIssued(v, issued) && HoldsToken(v, d, token)
    ensures issued + {token} == issued
  {}

  lemma WithoutHeadNearly(v: View, d: Discriminator)
    requires Inv(v) && d in v.heap
    ensures Fifo(v, d) != [] && NearlyInv(WithoutHead(v, d), d)
  {}

  lemma WithoutHeadBounded(v: View, d: Discriminator)
    requires Fifo(v, d) != [] && Bounded(v)
    ensures Bounded(WithoutHead(v, d))
  {
    var w := WithoutHead(v, d);
    forall e, k | e in w.fifo && 0 <= k < |w.fifo[e]| ensures w.fifo[e][k].priority <= MAX_SAFE_INTEGER {
      assert w.fifo[e][k] == v.fifo[e][if e == d then k + 1 else k];
    }
  }

  lemma WithoutHeadIsValid(queues: QueueTable, v: View, issued: set<Token>, d: Discriminator)
    requires RepQueues(queues, v) && Inv(v) && TokensIssued(v, issued) && d in v.heap
    ensures Fifo(v, d) != [] && d in queues && IsEntry(v, d, 0, Fifo(v, d)[0])
    ensures var u := WithoutHead(v, d);
      && NearlyInv(u, d) && TokensIssued(u, issued) && RepQueues(queues, u)
      && u.heap == v.heap && u.locks == v.locks && (Bounded(v) ==> Bounded(u))
      && Fifo(u, d) == Fifo(v, d)[1..]
  {
    hide NearlyInv, Inv, Bounded;
    WithoutHeadNearly(v, d);
    if Bounded(v) { WithoutHeadBounded(v, d); }
  }

  lemma UnlockIsValid(queues: QueueTable, v: View, issued: set<Token>, d: Discriminator)
    requires RepQueues(queues, v) && NearlyInv(v, d) && TokensIssued(v, issued) && d in v.heap && d in v.fifo
    requires d in queues
    ensures var w := v.(locks := v.locks - {d});
      && Inv(w) && TokensIssued(w, issued) && RepQueues(queues[d := queues[d].(lock := None)], w)
      && (Bounded(v) ==> Bounded(w))
  {}

  lemma AcknowledgeCases(v: View, d: Discriminator)
    requires Fifo(v, d) != [] && d in v.heap
    ensures var u := WithoutHead(v, d);
      && (1 < |Fifo(v, d)| ==> d in u.fifo && AfterAcknowledge(v, d) == u.(locks := u.locks - {d}))
      && (|Fifo(v, d)| == 1 ==> AfterAcknowledge(v, d) == WithoutQueue(u, d))
  {}

  /** Both ways of counting the remaining rows, before and after the update, agree. */
  lemma HeadIsDropped(items: ItemTable, r: ItemTable, v: View, d: Discriminator)
    requires RepItems(items, v) && Fifo(v, d) != [] && IsDecremented(items - {(d, 0)}, r, d, None)
    ensures RepItems(r, WithoutHead(v, d))
    ensures |IndicesOf(items - {(d, 0)}, d)| == |Fifo(v, d)| - 1 == |IndicesOf(r, d)|
  {
    var n := |Fifo(v, d)|;
    DropHeadRepresents(items, r, v, d);
    IndicesAreRange(r, WithoutHead(v, d), d);
    IndicesAreRange(items, v, d);
    assert IndicesOf(items - {(d, 0)}, d) == Range(1, n) by {
      assert IndicesOf(items - {(d, 0)}, d) == IndicesOf(items, d) - {0};
    }
    RangeSize(1, n);
    RangeSize(0, n - 1);
  }

  lemma QueueHasHead(v: View, d: Discriminator)
    requires Inv(v) && d in v.heap
    ensures Fifo(v, d) != [] && IsEntry(v, d, 0, Fifo(v, d)[0])
  {}

  lemma AfterDeferIs(v: View, d: Discriminator, u: View, w: View, priority: int)
    requires Inv(v) && d in v.heap && Inv(u) && Reordered(AfterAcknowledge(v, d), u)
    requires Reordered(AfterEnqueue(u, d, Entry(v.fifo[d][0].item, priority)), w)
    ensures Reordered(AfterDefer(v, d, priority), w)
  {
    hide AfterAcknowledge, AfterEnqueue, Reordered;
    var e := Entry(v.fifo[d][0].item, priority);
    AcknowledgeKeepsInv(v, d);
    ReorderedEnqueue(AfterAcknowledge(v, d), u, d, e);
    ReorderedTransitive(AfterDefer(v, d, priority), AfterEnqueue(u, d, e), w);
  }

  lemma RemoveHeadCases(v: View, d: Discriminator)
    requires Inv(v) && d in v.heap
    ensures Fifo(v, d) != [] && NearlyInv(v, d)
    ensures |Fifo(v, d)| == 1 ==> AfterRemove(v, d, 0) == WithoutQueue(v, d)
    ensures 1 < |Fifo(v, d)| ==> AfterRemove(v, d, 0) == WithoutHead(v, d) && Inv(WithoutHead(v, d))
    ensures 1 < |Fifo(v, d)| ==> Reordered(WithoutHead(v, d), WithoutHead(v, d))
  {
    RemoveKeepsInv(v, d, 0);
    if 1 < |Fifo(v, d)| {
      assert v.fifo[d][..0] + v.fifo[d][0 + 1..] == v.fifo[d][1..];
    }
  }

  lemma RemoveLaterCases(queues: QueueTable, v: View, issued: set<Token>, d: Discriminator, k: nat)
    requires RepQueues(queues, v) && Inv(v) && TokensIssued(v, issued) && d in v.heap && 0 < k < |Fifo(v, d)|
    ensures var w := AfterRemove(v, d, k);
      RepQueues(queues, w) && TokensIssued(w, issued) && Reordered(w, w)
  {}

  lemma ReorderedHeap(v: View, w: View, d: Discriminator)
    requires Reordered(v, w)
    ensures d in w.heap <==> d in v.heap
  {}

  class PriorityQueueStore {
    const doesIdentifierMatchItem: (Item, ItemIdentifier) -> bool
    const expirationTime: nat
    const returningSql: bool    // whether the driver reports the rows an update affects

    /**
     Whether the join that reads a queue by its discriminator returns the row of the head item first.
     The query does not ask for it, so nothing but the claims about heap order may depend on it.
     */
    const headRowFirst: bool

    var clock: int
    var queues: QueueTable
    var items: ItemTable

    ghost var view: View
    ghost var issued: set<Token>

    ghost function CurrentState(): State
      reads this
    {
      State(view, clock, issued, expirationTime)
    }

    ghost predicate Valid()
      reads this
    {
      RepQueues(queues, view) && RepItems(items, view) && Inv(view) && TokensIssued(view, issued)
    }

    constructor (matcher: (Item, ItemIdentifier) -> bool, expirationTime: nat, returningSql: bool,
                 headRowFirst: bool, now: int)
      ensures Valid() && view == View([], map[], map[]) && issued == {} && clock == now
      ensures this.doesIdentifierMatchItem == matcher && this.expirationTime == expirationTime
      ensures this.returningSql == returningSql && this.headRowFirst == headRowFirst
    {
      this.doesIdentifierMatchItem, this.expirationTime := matcher, expirationTime;
      this.returningSql, this.headRowFirst := returningSql, headRowFirst;
      clock, queues, items := now, map[], map[];
      view, issued := View([], map[], map[]), {};
    }

    // ---------- Readings ----------

    /** Reads the clock, which may have advanced by any amount since the last reading. */
    method Now() returns (t: int)
      modifies this`clock
      ensures old(clock) <= clock == t
    {
      t := *;
      if t < clock {
        t := clock;
      }
      clock := t;
    }

    method GetPriority(queue: Queue) returns (priority: int)
      modifies this`clock
      ensures old(clock) <= clock
      ensures priority == queue.priority || priority == 9007199254740991
      ensures queue.lock.None? || queue.lock.value.until <= old(clock) ==> priority == queue.priority
      ensures queue.lock.Some? && clock < queue.lock.value.until ==> priority == 9007199254740991
      ensures clock == old(clock) ==> priority == PriorityAt(queue, clock)
    {
      if queue.lock.Some? {
        var now := Now();
        if queue.lock.value.until > now {
          return MAX_SAFE_INTEGER;
        }
      }
      return queue.priority;
    }

    method GetQueueByDiscriminator(d: Discriminator) returns (r: Option<Queue>)
      requires Valid()
      ensures r.Some? <==> d in view.heap
      ensures r.Some? ==> IsRow(view, d, r.value) && (headRowFirst ==> IsHeadRow(view, d, r.value))
    {
      if d !in queues {
        return None;
      }
      var k: int := *;
      if headRowFirst || (d, k) !in items {
        k := 0;
      }
      assert RepItemAt(items, view, d, k);
      r := Some(Queue(d, queues[d].indexInPriorityQueue, items[(d, k)].priority, queues[d].lock));
    }

    method GetQueueByIndex(index: int) returns (r: Option<Queue>)
      requires Valid()
      ensures r.Some? <==> 0 <= index < |view.heap|
      ensures r.Some? ==> IsHeadRow(view, r.value.discriminator, r.value)
      ensures r.Some? ==> r.value.index == index && r.value.discriminator == view.heap[index]
    {
      if 0 <= index < |view.heap| {
        assert RepItemAt(items, view, view.heap[index], 0);
      }
      if d :| d in queues && queues[d].indexInPriorityQueue == index && (d, 0) in items {
        assert RepItemAt(items, view, d, 0);
        r := Some(Queue(d, index, items[(d, 0)].priority, queues[d].lock));
      } else {
        r := None;
      }
    }

    // ---------- Heap repair ----------

    method SwapPositions(first: Queue, second: Queue)
      requires Valid() && IsRow(view, first.discriminator, first) && IsRow(view, second.discriminator, second)
      requires first.discriminator != second.discriminator
      modifies this`queues, this`view
      ensures Valid() && view == Swapped(old(view), first.index, second.index)
      ensures Reordered(old(view), view) && |view.heap| == |old(view).heap|
      ensures first.discriminator in view.heap && IndexOf(view.heap, first.discriminator) == second.index
    {
      hide RepQueues, RepItems, TokensIssued, Inv, Reordered, Swapped;
      var d, e := first.discriminator, second.discriminator;
      RowsAreSwapped(queues, view, d, e);
      queues := queues[d := queues[d].(indexInPriorityQueue := -1)];
      queues := queues[e := queues[e].(indexInPriorityQueue := first.index)];
      queues := queues[d := queues[d].(indexInPriorityQueue := second.index)];
      view := Swapped(view, first.index, second.index);
      SwapKeepsTokens(old(view), view, issued, items);
    }

    method RepairUp(d: Discriminator) returns (r: Result<()>)
      requires Valid()
      modifies this`clock, this`queues, this`view
      ensures Valid() && Reordered(old(view), view) && old(clock) <= clock
      ensures r == if d in old(view.heap) then Ok(()) else Err(InvalidOperation)
      ensures d in old(view.heap) && headRowFirst && clock == old(clock) ==>
        view == RepairedUp(old(view), clock, IndexOf(old(view.heap), d))
      decreases if d in view.heap then IndexOf(view.heap, d) else 0
    {
      hide RepQueues, RepItems, TokensIssued, Inv, Reordered, Swapped;
      ReorderedReflexive(view);
      var found := GetQueueByDiscriminator(d);
      if found.None? {
        return Err(InvalidOperation);
      }
      var queue := found.value;
      if queue.index == 0 {
        return Ok(());
      }
      var parent := GetQueueByIndex(Parent(queue.index));
      var priority := GetPriority(queue);
      var parentPriority := GetPriority(parent.value);
      RowPriority(view, d, queue, clock);
      RowPriority(view, parent.value.discriminator, parent.value, clock);
      if parentPriority <= priority {
        return Ok(());
      }
      SwapPositions(queue, parent.value);
      ghost var swapped := view;
      r := RepairUp(d);
      ReorderedTransitive(old(view), swapped, view);
    }

    /** Reads the priorities of a queue and its children, each at a time of its own. */
    method ReadPriorities(queue: Queue, left: Queue, right: Option<Queue>)
      returns (priority: int, leftPriority: int, rightPriority: int)
      requires Valid() && IsRow(view, queue.discriminator, queue)
      requires IsHeadRow(view, left.discriminator, left)
      requires right.Some? ==> IsHeadRow(view, right.value.discriminator, right.value)
      modifies this`clock
      ensures Valid() && old(clock) <= clock
      ensures Bounded(view) ==> priority <= MAX_SAFE_INTEGER && leftPriority <= MAX_SAFE_INTEGER
      ensures right.None? ==> rightPriority == MAX_SAFE_INTEGER
      ensures IsHeadRow(view, queue.discriminator, queue) && clock == old(clock) ==>
        var p := Priorities(view, clock);
        && priority == p[queue.index] && leftPriority == p[left.index]
        && (right.Some? ==> rightPriority == p[right.value.index])
    {
      hide RepQueues, RepItems, TokensIssued, Inv;
      priority := GetPriority(queue);
      leftPriority := GetPriority(left);
      rightPriority := MAX_SAFE_INTEGER;
      if right.Some? {
        rightPriority := GetPriority(right.value);
        RowPriority(view, right.value.discriminator, right.value, clock);
      }
      RowPriority(view, queue.discriminator, queue, clock);
      RowPriority(view, left.discriminator, left, clock);
    }

    /** The child to swap a queue with, if any: the readings and comparisons of `repairDown`. */
    method ChildToSwap(queue: Queue) returns (r: Result<Option<Queue>>)
      requires Valid() && IsRow(view, queue.discriminator, queue)
      modifies this`clock
      ensures Valid() && old(clock) <= clock
      ensures r.Ok? && r.value.Some? ==>
        && IsHeadRow(view, r.value.value.discriminator, r.value.value)
        && queue.index < r.value.value.index
      ensures r.Err? ==> r == Err(NullQueue) && !Bounded(view)
      ensures IsHeadRow(view, queue.discriminator, queue) && clock == old(clock) ==>
        Chooses(r, SinkChoice(Priorities(view, clock), queue.index))
    {
      hide RepQueues, RepItems, TokensIssued, Inv, Bounded, IsRow;
      assert 0 <= queue.index < |view.heap| by { RowIndex(view, queue); }
      var left := GetQueueByIndex(2 * queue.index + 1);
      if left.None? {
        return Ok(None);
      }
      var right := GetQueueByIndex(2 * queue.index + 2);
      var priority, leftPriority, rightPriority := ReadPriorities(queue, left.value, right);
      if priority <= leftPriority && priority <= rightPriority {
        return Ok(None);
      }
      if leftPriority <= rightPriority {
        return Ok(left);
      }
      return if right.Some? then Ok(right) else Err(NullQueue);
    }

    method RepairDown(d: Discriminator) returns (r: Result<()>)
      requires Valid()
      modifies this`clock, this`queues, this`view
      ensures Valid() && Reordered(old(view), view) && old(clock) <= clock
      ensures d !in old(view.heap) ==> r == Err(InvalidOperation)
      ensures d in old(view.heap) ==> r == Ok(()) || r == Err(NullQueue)
      ensures d in old(view.heap) && Bounded(old(view)) ==> r == Ok(())
      ensures d in old(view.heap) && headRowFirst && clock == old(clock) ==>
        Yields(r, view, RepairedDown(old(view), clock, IndexOf(old(view.heap), d)))
      decreases |view.heap| - if d in view.heap then IndexOf(view.heap, d) else 0
    {
      hide RepQueues, RepItems, TokensIssued, Inv, Reordered, Swapped, Bounded, SinkChoice;
      ReorderedReflexive(view);
      var found := GetQueueByDiscriminator(d);
      if found.None? {
        return Err(InvalidOperation);
      }
      var queue := found.value;
      var child := ChildToSwap(queue);
      if child.Err? {
        return Err(child.error);
      }
      if child.value.None? {
        return Ok(());
      }
      SwapPositions(queue, child.value.value);
      ghost var swapped := view;
      r := RepairDown(d);
      ReorderedTransitive(old(view), swapped, view);
      ReorderedBounded(old(view), swapped);
    }

    // ---------- Removing a queue ----------

    method RemoveQueueInternal(d: Discriminator) returns (r: Result<()>)
      requires RepQueues(queues, view) && RepItems(items, view) && TokensIssued(view, issued)
      requires NearlyInv(view, d) && |Fifo(view, d)| <= 1
      modifies this`clock, this`queues, this`view
      ensures old(clock) <= clock
      ensures d !in old(view.heap) ==> r == Err(InvalidOperation)
      ensures d in old(view.heap) ==> Valid() && Reordered(WithoutQueue(old(view), d), view)
      ensures d in old(view.heap) ==> r == Ok(()) || r == Err(NullQueue)
      ensures d in old(view.heap) && Bounded(old(view)) ==> r == Ok(())
      ensures d in old(view.heap) && headRowFirst && clock == old(clock) ==>
        Yields(r, view, QueueRemoved(old(view), clock, d))
    {
      hide RepQueues, RepItems, TokensIssued, Inv, NearlyInv, Reordered, WithoutQueue;
      if d !in queues {
        QueueRows(queues, view, d);
        return Err(InvalidOperation);
      }
      var row := queues[d];
      QueueRows(queues, view, d);
      NearlyDistinct(view, d);
      TakeOutFindsLast(queues, view, d);
      WithoutQueueIsValid(view, d, items, issued);
      queues := queues - {d};
      var count := |queues|;
      if row.indexInPriorityQueue >= count {
        view := WithoutQueue(view, d);
        return Ok(());
      }
      var moved :| moved in queues && queues[moved].indexInPriorityQueue == count;
      queues := queues[moved := queues[moved].(indexInPriorityQueue := row.indexInPriorityQueue)];
      view := WithoutQueue(view, d);
      r := RepairDown(moved);
    }

    // ---------- Items ----------

    method GetFirstItemInQueue(d: Discriminator) returns (r: Result<Item>)
      requires Valid()
      ensures r == if Fifo(view, d) == [] then Err(NullItem) else Ok(Fifo(view, d)[0].item)
    {
      RowsAreFifo(items, view, d);
      var rows := RowsOf(items, d);
      return if rows == [] then Err(NullItem) else Ok(rows[0].item);
    }

    method GetQueueIfLocked(d: Discriminator, token: Token) returns (r: Result<Queue>)
      requires Valid()
      ensures r.Ok? ==> HoldsToken(view, d, token) && IsRow(view, d, r.value)
      ensures r.Err? ==> r.error == Refusal(view, d, token) && !HoldsToken(view, d, token)
      ensures d !in view.heap ==> r == Err(ItemNotFound)
      ensures d in view.heap && d !in view.locks ==> r == Err(ItemNotLocked)
      ensures d in view.heap && d in view.locks && view.locks[d].token != token ==> r == Err(TokenMismatch)
    {
      hide RepQueues, RepItems, TokensIssued, Inv;
      var found := GetQueueByDiscriminator(d);
      if found.None? {
        return Err(ItemNotFound);
      }
      var queue := found.value;
      if queue.lock.None? {
        return Err(ItemNotLocked);
      }
      if queue.lock.value.token != token {
        return Err(TokenMismatch);
      }
      return Ok(queue);
    }

    // ---------- Enqueue ----------

    method EnqueueInternal(item: Item, d: Discriminator, priority: int) returns (r: Result<()>)
      requires Valid()
      modifies this`clock, this`queues, this`items, this`view
      ensures Valid() && old(clock) <= clock && r == Ok(())
      ensures Reordered(AfterEnqueue(old(view), d, Entry(item, priority)), view)
      ensures headRowFirst && clock == old(clock) ==>
        view == Enqueued(old(view), clock, d, Entry(item, priority))
    {
      hide RepQueues, RepItems, TokensIssued, Inv, Reordered, AfterEnqueue, Distinct;
      ghost var e := Entry(item, priority);
      EnqueueIsValid(queues, items, view, issued, d, e);
      var next := NextIndex(IndicesOf(items, d));
      items := items[(d, next) := Entry(item, priority)];
      if d in queues {
        view := AfterEnqueue(view, d, e);
        return Ok(());
      }
      var nextInPriorityQueue := NextIndex(PositionsOf(queues));
      queues := queues[d := QueueRow(nextInPriorityQueue, None)];
      view := AfterEnqueue(view, d, e);
      r := RepairUp(d);
    }

    // ---------- Locks ----------

    method LockNextInternal(token: Token) returns (r: Result<Option<Granted>>, ghost event: Event)
      requires Valid() && token !in issued
      modifies this`clock, this`queues, this`view, this`issued
      ensures old(clock) <= clock
      ensures r.Ok? ==> Valid() && Step(old(CurrentState()), event, CurrentState())
      ensures r.Ok? ==> Announces(r.value, event)
      ensures event.Grant? ==> event.token == token && (clock == old(clock) ==> event.until == clock + expirationTime)
      ensures event.Grant? ==> old(clock) <= event.readAt <= clock && IsNext(old(view), event.readAt, event.d)
      ensures event.Nothing? ==> old(clock) <= event.readAt <= clock && AllLocked(old(view), event.readAt)
      ensures event.Grant? || event.Nothing?
      ensures r.Err? ==> r.error == NullQueue && event.Grant?
      ensures Bounded(old(view)) ==> r.Ok?
      ensures event.Grant? && headRowFirst && clock == old(clock) ==>
        && event.d in old(view.heap)
        && Delivers(r, view, Locked(old(view), clock, event.d, Lock(event.until, event.token)))
    {
      hide RepQueues, RepItems, TokensIssued, Inv, Reordered, Distinct, IsNext, AfterLock, IsEntry;
      ViewFacts(view);
      var now := Now();
      var next := FindNext(queues, now, view);
      if next.None? {
        r, event := Ok(None), Nothing(now);
        return;
      }
      var d := next.value;
      NextHasHead(view, now, d);
      var item := GetFirstItemInQueue(d);
      var later := Now();
      var until := later + expirationTime;
      event := Grant(d, Fifo(view, d)[0], token, now, until);
      LockIsValid(queues, items, view, issued, d, Lock(until, token));
      queues := queues[d := queues[d].(lock := Some(Lock(until, token)))];
      view := AfterLock(view, d, Lock(until, token));
      issued := issued + {token};
      var repaired := RepairDown(d);
      if repaired.Err? {
        r := Err(repaired.error);
        return;
      }
      r := Ok(Some(Granted(item.value, d, token)));
    }

    method RenewLockInternal(d: Discriminator, token: Token) returns (r: Result<()>, ghost event: Event)
      requires Valid()
      modifies this`clock, this`queues, this`view
      ensures old(clock) <= clock
      ensures r.Ok? ==> Valid() && Step(old(CurrentState()), event, CurrentState()) && event.Renew?
      ensures r.Ok? ==> event.d == d && event.token == token
      ensures HoldsToken(old(view), d, token) ==> r.Ok? || r == Err(NullQueue)
      ensures !HoldsToken(old(view), d, token) ==> r == Err(Refusal(old(view), d, token))
      ensures HoldsToken(old(view), d, token) && Bounded(old(view)) ==> r.Ok?
      ensures HoldsToken(old(view), d, token) && headRowFirst && clock == old(clock) ==>
        Yields(r, view, Locked(old(view), clock, d, Lock(clock + expirationTime, token)))
    {
      hide RepQueues, RepItems, TokensIssued, Inv, Reordered, AfterLock, Bounded, IsRow, RepairedDown;
      var found := GetQueueIfLocked(d, token);
      if found.Err? {
        r, event := Err(found.error), Refuse(found.error);
        return;
      }
      var now := Now();
      var lock := Lock(now + expirationTime, token);
      LockIsValid(queues, items, view, issued, d, lock);
      TokenIsIssued(view, issued, d, token);
      event := Renew(d, token, lock.until);
      queues := queues[d := queues[d].(lock := Some(lock))];
      view := AfterLock(view, d, lock);
      r := RepairDown(d);
    }

    // ---------- Acknowledge and defer ----------

    /** Deletes the row with index 0 and lowers the index of the others; counts the others. */
    method DeleteHead(d: Discriminator) returns (affected: nat)
      requires Valid() && d in view.heap
      modifies this`items, this`view
      ensures Fifo(old(view), d) != [] && affected == |Fifo(old(view), d)| - 1
      ensures view == WithoutHead(old(view), d)
      ensures Fifo(view, d) == Fifo(old(view), d)[1..]
      ensures view.heap == old(view).heap && view.locks == old(view).locks && d in queues
      ensures RepQueues(queues, view) && RepItems(items, view)
      ensures NearlyInv(view, d) && TokensIssued(view, issued)
      ensures Bounded(old(view)) ==> Bounded(view)
    {
      hide RepQueues, RepItems, TokensIssued, Inv, NearlyInv, WithoutHead, Bounded;
      WithoutHeadIsValid(queues, view, issued, d);
      items := items - {(d, 0)};
      var matched := |IndicesOf(items, d)|;
      items := Decrement(items, d, None);
      affected := if returningSql then matched else |IndicesOf(items, d)|;
      HeadIsDropped(old(items), items, view, d);
      view := WithoutHead(view, d);
    }

    method AcknowledgeInternal(d: Discriminator, token: Token) returns (r: Result<()>)
      requires Valid()
      modifies this`clock, this`queues, this`items, this`view
      ensures old(clock) <= clock
      ensures HoldsToken(old(view), d, token) ==> Valid() && Reordered(AfterAcknowledge(old(view), d), view)
      ensures HoldsToken(old(view), d, token) ==> r.Ok? || r == Err(NullQueue)
      ensures !HoldsToken(old(view), d, token) ==> r == Err(Refusal(old(view), d, token))
      ensures HoldsToken(old(view), d, token) && Bounded(old(view)) ==> r == Ok(())
      ensures HoldsToken(old(view), d, token) && headRowFirst && clock == old(clock) ==>
        Yields(r, view, Acknowledged(old(view), clock, d))
    {
      hide RepQueues, RepItems, TokensIssued, Inv, Reordered, NearlyInv, WithoutHead, WithoutQueue, AfterAcknowledge;
      var found := GetQueueIfLocked(d, token);
      if found.Err? {
        return Err(found.error);
      }
      AcknowledgeCases(view, d);
      var affected := DeleteHead(d);
      if affected > 0 {
        UnlockIsValid(queues, view, issued, d);
        SameItems(items, view, view.(locks := view.locks - {d}));
        queues := queues[d := queues[d].(lock := None)];
        view := view.(locks := view.locks - {d});
        r := RepairDown(d);
      } else {
        r := RemoveQueueInternal(d);
      }
    }

    method DeferInternal(d: Discriminator, token: Token, priority: int) returns (r: Result<()>)
      requires Valid()
      modifies this`clock, this`queues, this`items, this`view
      ensures old(clock) <= clock
      ensures r.Ok? ==> Valid() && HoldsToken(old(view), d, token) && Fifo(old(view), d) != []
      ensures r.Ok? ==> Reordered(AfterDefer(old(view), d, priority), view)
      ensures HoldsToken(old(view), d, token) ==> r.Ok? || r == Err(NullQueue)
      ensures !HoldsToken(old(view), d, token) ==> r == Err(Refusal(old(view), d, token))
      ensures HoldsToken(old(view), d, token) && Bounded(old(view)) ==> r == Ok(())
      ensures HoldsToken(old(view), d, token) && headRowFirst && clock == old(clock) ==>
        Yields(r, view, Deferred(old(view), clock, d, priority))
    {
      hide RepQueues, RepItems, TokensIssued, Inv, Reordered, AfterAcknowledge, AfterEnqueue, Acknowledged, Bounded;
      var found := GetQueueIfLocked(d, token);
      if found.Err? {
        return Err(found.error);
      }
      QueueHasHead(view, d);
      var item := GetFirstItemInQueue(d);
      r := AcknowledgeInternal(d, token);
      if r.Err? {
        return;
      }
      ghost var acknowledged := view;
      r := EnqueueInternal(item.value, d, priority);
      AfterDeferIs(old(view), d, acknowledged, view, priority);
    }

    // ---------- Remove ----------

    method FindIndex(rows: seq<Entry>, id: ItemIdentifier) returns (index: int)
      ensures -1 <= index < |rows|
      ensures 0 <= index ==> IsFirstMatch(rows, id, index)
      ensures index == -1 ==> forall j :: 0 <= j < |rows| ==> !doesIdentifierMatchItem(rows[j].item, id)
    {
      index := 0;
      while index < |rows|
        invariant 0 <= index <= |rows|
        invariant forall j :: 0 <= j < index ==> !doesIdentifierMatchItem(rows[j].item, id)
      {
        if doesIdentifierMatchItem(rows[index].item, id) {
          return;
        }
        index := index + 1;
      }
      index := -1;
    }

    predicate IsFirstMatch(rows: seq<Entry>, id: ItemIdentifier, k: int) {
      && 0 <= k < |rows| && doesIdentifierMatchItem(rows[k].item, id)
      && forall j :: 0 <= j < k ==> !doesIdentifierMatchItem(rows[j].item, id)
    }

    /** Why an item is not removed: there is no such queue or item, or it is locked. */
    ghost predicate NotRemovable(v: View, d: Discriminator, id: ItemIdentifier, now: int) {
      || d !in v.heap
      || (forall j :: 0 <= j < |Fifo(v, d)| ==> !doesIdentifierMatchItem(Fifo(v, d)[j].item, id))
      || (IsFirstMatch(Fifo(v, d), id, 0) && Unexpired(v, d, now))
    }

    /** Removing the first matching item throws. */
    ghost predicate RemovalFalls(v: View, d: Discriminator, id: ItemIdentifier, now: int)
      requires Inv(v)
    {
      d in v.heap && exists k: nat :: IsFirstMatch(Fifo(v, d), id, k) && RemoveFalls(v, now, d, k)
    }

    lemma RemovalFallsIff(v: View, d: Discriminator, id: ItemIdentifier, now: int, event: Event)
      requires Inv(v)
      requires event.Remove? ==>
        && d in v.heap && IsFirstMatch(Fifo(v, d), id, event.index)
        && (event.index == 0 ==> !Unexpired(v, d, now))
      ensures event.Remove? ==>
        && !NotRemovable(v, d, id, now)
        && (Removed(v, now, d, event.index).None? <==> RemovalFalls(v, d, id, now))
    {
      hide Removed, RemoveFalls, Inv;
      if event.Remove? {
        RemoveFallsIff(v, now, d, event.index);
      }
    }

    method RemoveInternal(d: Discriminator, id: ItemIdentifier) returns (r: Result<()>, ghost event: Event)
      requires Valid()
      modifies this`clock, this`queues, this`items, this`view
      ensures r.Ok? ==> Valid() && Step(old(CurrentState()), event, CurrentState())
      ensures event.Remove? ==>
        && event.d == d && d in old(view.heap) && IsFirstMatch(Fifo(old(view), d), id, event.index)
        && old(clock) <= event.readAt <= clock
        && (event.index == 0 ==> !Unexpired(old(view), d, event.readAt))
      ensures old(clock) <= clock
      ensures event.Remove? ==> r == Ok(()) || r == Err(NullQueue)
      ensures event.Remove? && 0 < event.index ==> r == Ok(())
      ensures event.Remove? && Bounded(old(view)) ==> r == Ok(())
      ensures event.Remove? && headRowFirst && clock == old(clock) ==>
        Yields(r, view, Removed(old(view), clock, d, event.index))
      ensures !event.Remove? ==> r == Err(ItemNotFound) && NotRemovable(old(view), d, id, old(clock))
    {
      hide RepQueues, RepItems, TokensIssued, Inv, Reordered, AfterRemove, Removed, Bounded;
      event := Refuse(ItemNotFound);
      var found := GetQueueByDiscriminator(d);
      if found.None? {
        return Err(ItemNotFound), event;
      }
      var queue := found.value;
      RowsAreFifo(items, view, d);
      var rows := RowsOf(items, d);
      var index := FindIndex(rows, id);
      if index == -1 {
        return Err(ItemNotFound), event;
      }
      ghost var readAt := clock;
      if index == 0 {
        if queue.lock.Some? {
          var now := Now();
          readAt := now;
          if queue.lock.value.until > now {
            return Err(ItemNotFound), event;
          }
        }
        r := RemoveHead(d, |rows|);
      } else {
        RemoveLater(d, index);
        r := Ok(());
      }
      event := Event.Remove(d, index, rows[index], readAt);
    }

    method RemoveHead(d: Discriminator, count: nat) returns (r: Result<()>)
      requires Valid() && d in view.heap && 0 < count == |Fifo(view, d)|
      modifies this`clock, this`queues, this`items, this`view
      ensures old(clock) <= clock
      ensures Valid() && Reordered(AfterRemove(old(view), d, 0), view)
      ensures r == Ok(()) || r == Err(NullQueue)
      ensures Bounded(old(view)) ==> r == Ok(())
      ensures headRowFirst && clock == old(clock) ==> Yields(r, view, Removed(old(view), clock, d, 0))
    {
      hide RepQueues, RepItems, TokensIssued, Inv, NearlyInv, Reordered, WithoutHead, WithoutQueue, Bounded;
      RemoveHeadCases(view, d);
      if count == 1 {
        r := RemoveQueueInternal(d);
        return;
      }
      var _ := DeleteHead(d);
      ghost var deleted := view;
      r := RepairDown(d);
      if r.Err? {
        return;
      }
      ghost var sunk := view;
      ReorderedHeap(deleted, sunk, d);
      r := RepairUp(d);
      ReorderedTransitive(deleted, sunk, view);
    }

    method RemoveLater(d: Discriminator, k: nat)
      requires Valid() && d in view.heap && 0 < k < |Fifo(view, d)|
      modifies this`items, this`view
      ensures Valid() && view == AfterRemove(old(view), d, k) && Reordered(view, view)
      ensures Removed(old(view), clock, d, k) == Some(view)
    {
      hide RepQueues, RepItems, TokensIssued, Inv, Reordered;
      ghost var was := items;
      items := items - {(d, k)};
      items := Decrement(items, d, Some(k));
      RemoveAtRepresents(was, items, view, d, k);
      RemoveKeepsInv(view, d, k);
      RemoveLaterCases(queues, view, issued, d, k);
      view := AfterRemove(view, d, k);
    }

    // ---------- The public operations ----------

    method Enqueue(item: Item, d: Discriminator, priority: int) returns (r: Result<()>, ghost event: Event)
      requires Valid()
      modifies this`clock, this`queues, this`items, this`view
      ensures Valid() && Step(old(CurrentState()), event, CurrentState())
      ensures r == Ok(()) && event == Event.Enqueue(d, Entry(item, priority))
      ensures Fifo(view, d) == Fifo(old(view), d) + [Entry(item, priority)] && d in view.heap
      ensures (d in view.locks <==> d in old(view.locks)) && (d in view.locks ==> view.locks[d] == old(view.locks)[d])
      ensures OthersSame(old(view), view, d)
      ensures headRowFirst && clock == old(clock) ==>
        view == Enqueued(old(view), clock, d, Entry(item, priority))
    {
      event := Event.Enqueue(d, Entry(item, priority));
      r := EnqueueInternal(item, d, priority);
      EnqueueEffect(old(view), d, Entry(item, priority), view);
    }

    method LockNext(token: Token) returns (r: Result<Option<Granted>>, ghost event: Event)
      requires Valid() && token !in issued
      modifies this`clock, this`queues, this`view, this`issued
      ensures Valid() && Step(old(CurrentState()), event, CurrentState())
      ensures r.Ok? ==> Announces(r.value, event) && (event.Grant? ==> event.token == token)
      ensures r.Err? ==> event == Refuse(NullQueue) && queues == old(queues) && view == old(view)
      ensures r == Ok(None) ==> view == old(view) && forall d :: d in old(view.heap) ==>
        d in old(view.locks) && old(clock) < old(view.locks)[d].until
      ensures (forall d :: d in old(view.heap) ==> d in old(view.locks) && clock < old(view.locks)[d].until) ==>
        r == Ok(None)
      ensures r.Ok? && r.value.Some? ==>
        var g := r.value.value; var d := g.discriminator;
        && Fifo(old(view), d) != [] && g.item == Fifo(old(view), d)[0].item && g.token == token
        && d in old(view.heap) && (d in old(view.locks) ==> old(view.locks)[d].until <= clock)
        && (forall j :: 0 <= j < IndexOf(old(view.heap), d) ==>
              var e := old(view.heap)[j]; e in old(view.locks) && old(clock) < old(view.locks)[e].until)
        && Fifo(view, d) == Fifo(old(view), d) && d in view.heap && d in view.locks
        && view.locks[d].token == token
        && old(clock) + expirationTime <= view.locks[d].until <= clock + expirationTime
        && OthersSame(old(view), view, d)
      ensures Bounded(old(view)) ==> r.Ok?
      ensures headRowFirst && clock == old(clock) ==>
        (r.Err? <==> LockNextFalls(old(view), clock, clock + expirationTime))
      ensures event.Grant? && headRowFirst && clock == old(clock) ==>
        && event.d in old(view.heap)
        && Locked(old(view), clock, event.d, Lock(clock + expirationTime, token)) == Some(view)
    {
      hide RepQueues, RepItems, TokensIssued, Inv, Reordered, Bounded, AfterEnqueue, AfterAcknowledge,
        AfterDefer, Acknowledged, Deferred, Removed, Locked;
      var queues0 := queues;
      ghost var view0, issued0 := view, issued;
      r, event := LockNextInternal(token);
      if clock == old(clock) {
        LockNextFallsIff(view0, clock, event, Lock(clock + expirationTime, token));
      }
      if r.Err? {
        queues, view, issued := queues0, view0, issued0;
        event := Refuse(r.error);
      } else if event.Grant? {
        LockEffect(view0, event.d, Lock(event.until, token), view);
      }
    }

    method RenewLock(d: Discriminator, token: Token) returns (r: Result<()>, ghost event: Event)
      requires Valid()
      modifies this`clock, this`queues, this`view
      ensures Valid() && Step(old(CurrentState()), event, CurrentState())
      ensures r.Ok? ==> event.Renew? && event.d == d && event.token == token
      ensures d !in old(view.heap) ==> r == Err(ItemNotFound)
      ensures d in old(view.heap) && d !in old(view.locks) ==> r == Err(ItemNotLocked)
      ensures d in old(view.locks) && old(view.locks)[d].token != token ==> r == Err(TokenMismatch)
      ensures d in old(view.locks) && old(view.locks)[d].token == token ==> r.Ok? || r == Err(NullQueue)
      ensures r.Err? ==> view == old(view)
      ensures r.Err? ==> event == if r.error == NullQueue then Refuse(NullQueue) else Deny(d, token, r.error)
      ensures r.Err? ==> queues == old(queues)
      ensures r.Ok? ==>
        && Fifo(view, d) == Fifo(old(view), d) && d in view.heap && d in view.locks
        && view.locks[d].token == token
        && old(clock) + expirationTime <= view.locks[d].until <= clock + expirationTime
        && OthersSame(old(view), view, d)
      ensures HoldsToken(old(view), d, token) && Bounded(old(view)) ==> r.Ok?
      ensures HoldsToken(old(view), d, token) && headRowFirst && clock == old(clock) ==>
        if LockFalls(old(view), clock, d, clock + expirationTime) then r == Err(NullQueue) else r.Ok?
      ensures r.Ok? && headRowFirst && clock == old(clock) ==>
        && d in old(view.heap)
        && Locked(old(view), clock, d, Lock(clock + expirationTime, token)) == Some(view)
    {
      hide RepQueues, RepItems, TokensIssued, Inv, Reordered, Bounded, IsEntry, AfterEnqueue, AfterAcknowledge,
        AfterDefer, Acknowledged, Deferred, Removed, Locked;
      var queues0 := queues;
      ghost var view0 := view;
      LockedInHeap(view);
      if HoldsToken(view, d, token) {
        LockFallsIff(view, clock, d, Lock(clock + expirationTime, token));
      }
      r, event := RenewLockInternal(d, token);
      if r.Err? {
        queues, view := queues0, view0;
        event := if HoldsToken(view, d, token) then Refuse(r.error) else Deny(d, token, r.error);
      } else {
        LockEffect(view0, d, Lock(event.until, token), view);
      }
    }

    method Acknowledge(d: Discriminator, token: Token) returns (r: Result<()>, ghost event: Event)
      requires Valid()
      modifies this`clock, this`queues, this`items, this`view
      ensures Valid() && Step(old(CurrentState()), event, CurrentState())
      ensures r.Ok? ==> event.Acknowledge? && event.d == d && event.token == token
      ensures d !in old(view.heap) ==> r == Err(ItemNotFound)
      ensures d in old(view.heap) && d !in old(view.locks) ==> r == Err(ItemNotLocked)
      ensures d in old(view.locks) && old(view.locks)[d].token != token ==> r == Err(TokenMismatch)
      ensures d in old(view.locks) && old(view.locks)[d].token == token ==> r.Ok? || r == Err(NullQueue)
      ensures r.Err? ==> view == old(view)
      ensures r.Err? ==> event == if r.error == NullQueue then Refuse(NullQueue) else Deny(d, token, r.error)
      ensures r.Err? ==> queues == old(queues) && items == old(items)
      ensures r.Ok? ==>
        && Fifo(old(view), d) != [] && Fifo(view, d) == Fifo(old(view), d)[1..] && d !in view.locks
        && (d in view.heap <==> 1 < |Fifo(old(view), d)|)
        && OthersSame(old(view), view, d)
      ensures HoldsToken(old(view), d, token) && Bounded(old(view)) ==> r.Ok?
      ensures HoldsToken(old(view), d, token) && headRowFirst && clock == old(clock) ==>
        if AcknowledgeFalls(old(view), clock, d) then r == Err(NullQueue) else r.Ok?
      ensures r.Ok? && headRowFirst && clock == old(clock) ==>
        d in old(view.heap) && Acknowledged(old(view), clock, d) == Some(view)
    {
      hide RepQueues, RepItems, TokensIssued, Inv, Reordered, Bounded, IsEntry, AfterEnqueue, AfterAcknowledge,
        AfterDefer, Acknowledged, Deferred, Removed, Locked;
      var queues0, items0 := queues, items;
      ghost var view0 := view;
      LockedInHeap(view);
      event := Event.Acknowledge(d, token, if Fifo(view, d) != [] then Fifo(view, d)[0] else Entry("", 0));
      if HoldsToken(view, d, token) {
        QueueHasHead(view, d);
        AcknowledgeFallsIff(view, clock, d);
      }
      r := AcknowledgeInternal(d, token);
      if r.Err? {
        queues, items, view := queues0, items0, view0;
        event := if HoldsToken(view, d, token) then Refuse(r.error) else Deny(d, token, r.error);
      } else {
        AcknowledgeEffect(view0, d, view);
      }
    }

    method Defer(d: Discriminator, token: Token, priority: int) returns (r: Result<()>, ghost event: Event)
      requires Valid()
      modifies this`clock, this`queues, this`items, this`view
      ensures Valid() && Step(old(CurrentState()), event, CurrentState())
      ensures r.Ok? ==> event.Defer? && event.d == d && event.token == token && event.priority == priority
      ensures d !in old(view.heap) ==> r == Err(ItemNotFound)
      ensures d in old(view.heap) && d !in old(view.locks) ==> r == Err(ItemNotLocked)
      ensures d in old(view.locks) && old(view.locks)[d].token != token ==> r == Err(TokenMismatch)
      ensures d in old(view.locks) && old(view.locks)[d].token == token ==> r.Ok? || r == Err(NullQueue)
      ensures r.Err? ==> view == old(view)
      ensures r.Err? ==> event == if r.error == NullQueue then Refuse(NullQueue) else Deny(d, token, r.error)
      ensures r.Err? ==> queues == old(queues) && items == old(items)
      ensures r.Ok? ==>
        && Fifo(old(view), d) != [] && d in view.heap && d !in view.locks
        && Fifo(view, d) == Fifo(old(view), d)[1..] + [Entry(Fifo(old(view), d)[0].item, priority)]
        && OthersSame(old(view), view, d)
      ensures HoldsToken(old(view), d, token) && Bounded(old(view)) ==> r.Ok?
      ensures HoldsToken(old(view), d, token) && headRowFirst && clock == old(clock) ==>
        if AcknowledgeFalls(old(view), clock, d) then r == Err(NullQueue) else r.Ok?
      ensures r.Ok? && headRowFirst && clock == old(clock) ==>
        d in old(view.heap) && Deferred(old(view), clock, d, priority) == Some(view)
    {
      hide RepQueues, RepItems, TokensIssued, Inv, Reordered, Bounded, IsEntry, AfterEnqueue, AfterAcknowledge,
        AfterDefer, Acknowledged, Deferred, Removed, Locked;
      var queues0, items0 := queues, items;
      ghost var view0 := view;
      LockedInHeap(view);
      event := Event.Defer(d, token, if Fifo(view, d) != [] then Fifo(view, d)[0] else Entry("", 0), priority);
      if HoldsToken(view, d, token) {
        QueueHasHead(view, d);
        DeferFallsIff(view, clock, d, priority);
      }
      r := DeferInternal(d, token, priority);
      if r.Err? {
        queues, items, view := queues0, items0, view0;
        event := if HoldsToken(view, d, token) then Refuse(r.error) else Deny(d, token, r.error);
      } else {
        DeferEffect(view0, d, priority, view);
      }
    }

    method Remove(d: Discriminator, id: ItemIdentifier) returns (r: Result<()>, ghost event: Event)
      requires Valid()
      modifies this`clock, this`queues, this`items, this`view
      ensures Valid() && Step(old(CurrentState()), event, CurrentState())
      ensures r.Ok? ==> event.Remove? && event.d == d && d in old(view.heap)
      ensures r.Ok? ==> IsFirstMatch(Fifo(old(view), d), id, event.index)
      ensures r.Err? ==> event == Refuse(r.error) && queues == old(queues) && items == old(items) && view == old(view)
      ensures r.Ok? || r == Err(ItemNotFound) || r == Err(NullQueue)
      ensures r.Ok? ==>
        var fifo, k := Fifo(old(view), d), event.index;
        && k < |fifo| && doesIdentifierMatchItem(fifo[k].item, id)
        && (forall j :: 0 <= j < k ==> !doesIdentifierMatchItem(fifo[j].item, id))
        && (k == 0 && d in old(view.locks) ==> old(view.locks)[d].until <= clock)
        && (1 < |fifo| ==>
              && Fifo(view, d) == fifo[..k] + fifo[k + 1..] && d in view.heap
              && (d in view.locks <==> d in old(view.locks))
              && (d in view.locks ==> view.locks[d] == old(view.locks)[d]))
        && (|fifo| == 1 ==> Fifo(view, d) == fifo && d !in view.heap && d !in view.locks)
        && OthersSame(old(view), view, d)
      ensures d !in old(view.heap) ==> r == Err(ItemNotFound)
      ensures (forall e :: e in Fifo(old(view), d) ==> !doesIdentifierMatchItem(e.item, id)) ==> r == Err(ItemNotFound)
      ensures d in old(view.heap) && Fifo(old(view), d) != [] ==>
        var first := doesIdentifierMatchItem(Fifo(old(view), d)[0].item, id);
        var matching := exists e :: e in Fifo(old(view), d) && doesIdentifierMatchItem(e.item, id);
        var locks := old(view.locks);
        && (!first && matching ==> r.Ok?)
        && (first && d in locks && clock < locks[d].until ==> r == Err(ItemNotFound))
        && (first && (d in locks ==> locks[d].until <= old(clock)) ==> r == Ok(()) || r == Err(NullQueue))
      ensures r.Err? && Bounded(old(view)) ==> r.error == ItemNotFound
      ensures r == Err(ItemNotFound) ==> NotRemovable(old(view), d, id, old(clock))
      ensures headRowFirst && clock == old(clock) ==>
        if NotRemovable(old(view), d, id, clock) then r == Err(ItemNotFound)
        else if RemovalFalls(old(view), d, id, clock) then r == Err(NullQueue) else r.Ok?
      ensures r.Ok? && headRowFirst && clock == old(clock) ==>
        Removed(old(view), clock, d, event.index) == Some(view)
    {
      hide RepQueues, RepItems, TokensIssued, Inv, Reordered, Bounded, IsEntry, AfterEnqueue, AfterAcknowledge,
        AfterDefer, Acknowledged, Deferred, Removed, Locked;
      var queues0, items0 := queues, items;
      ghost var view0 := view;
      r, event := RemoveInternal(d, id);
      if clock == old(clock) {
        RemovalFallsIff(view0, d, id, clock, event);
      }
      if r.Err? {
        queues, items, view := queues0, items0, view0;
        event := Refuse(r.error);
      } else {
        RemoveEffect(view0, d, event.index, view);
      }
    }
  }
}
