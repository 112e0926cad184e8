/**
 Heap order at one instant: what `repairUp` and `repairDown` restore, which operations keep heap
 order, and exactly when acknowledging an item or removing a queue does not.
 */
module HeapRepair {
  import opened HeapOrder
  import opened HeapClimb
  import opened HeapDescent
  import opened PriorityQueueSpec

  // ---------- Repairing one queue ----------

  lemma SwappedPriorities(v: View, now: int, i: nat, j: nat)
    requires Inv(v) && i < |v.heap| && j < |v.heap|
    ensures Inv(Swapped(v, i, j))
    ensures Priorities(Swapped(v, i, j), now) == Swap(Priorities(v, now), i, j)
  {
    SwapKeeps(v, i, j);
    var w := Swapped(v, i, j);
    forall k | 0 <= k < |v.heap|
      ensures Priorities(w, now)[k] == Swap(Priorities(v, now), i, j)[k]
    {
      assert w.heap[k] == v.heap[if k == j then i else if k == i then j else k];
    }
  }

  /** Which slots hold a queue of `skip`. */
  function Free(heap: seq<Discriminator>, skip: set<Discriminator>): (free: seq<bool>)
    ensures |free| == |heap| && forall i :: 0 <= i < |heap| ==> free[i] == (heap[i] in skip)
  {
    seq(|heap|, i requires 0 <= i < |heap| => heap[i] in skip)
  }

  lemma FreeSwapped(heap: seq<Discriminator>, skip: set<Discriminator>, i: nat, j: nat)
    requires i < |heap| && j < |heap|
    ensures Free(Swap(heap, i, j), skip) == Swap(Free(heap, skip), i, j)
  {
    assert forall k :: 0 <= k < |heap| ==> Free(Swap(heap, i, j), skip)[k] == Swap(Free(heap, skip), i, j)[k];
  }

  /** Heap order on every edge, except the edges that lead into a queue of `skip`. */
  ghost predicate HeapOrderedBut(v: View, now: int, skip: set<Discriminator>)
    requires Inv(v)
  {
    OrderedBut(Priorities(v, now), Free(v.heap, skip))
  }

  lemma {:induction false} RepairedUpRestores(v: View, now: int, i: nat, skip: set<Discriminator>)
    requires Inv(v) && i < |v.heap| && v.heap[i] !in skip
    requires MayRise(Priorities(v, now), Free(v.heap, skip), i)
    ensures HeapOrderedBut(RepairedUp(v, now, i), now, skip)
    decreases i
  {
    var p, free := Priorities(v, now), Free(v.heap, skip);
    if i == 0 || p[Parent(i)] <= p[i] {
      RiseEnds(p, free, i);
    } else {
      var w := Swapped(v, i, Parent(i));
      RiseStep(p, free, i);
      SwappedPriorities(v, now, i, Parent(i));
      FreeSwapped(v.heap, skip, i, Parent(i));
      RepairedUpRestores(w, now, Parent(i), skip);
    }
  }

  /** Repairing up has, on the priorities, exactly the effect of a climb. */
  lemma {:induction false} RepairedUpIsRisen(v: View, now: int, i: nat)
    requires Inv(v) && i < |v.heap|
    ensures Priorities(RepairedUp(v, now, i), now) == Risen(Priorities(v, now), i)
    decreases i
  {
    if i > 0 && Priorities(v, now)[Parent(i)] > Priorities(v, now)[i] {
      SwappedPriorities(v, now, i, Parent(i));
      RepairedUpIsRisen(Swapped(v, i, Parent(i)), now, Parent(i));
    }
  }

  /** The queue in slot i is no smaller than its parent. */
  ghost predicate ParentFits(v: View, now: int, i: nat)
    requires Inv(v) && i < |v.heap|
  {
    0 < i ==> Edge(Priorities(v, now), i)
  }

  /**
   Repairing down mends every edge except the one into slot i. That edge is wrong afterwards exactly
   when it was wrong before, and then nothing has moved and repairing up would mend it.
   */
  lemma {:induction false} RepairedDownRestores(v: View, now: int, i: nat)
    requires Inv(v) && i < |v.heap| && MaySink(Priorities(v, now), i)
    requires !FallsOff(Priorities(v, now), i)
    ensures RepairedDown(v, now, i).Some?
    ensures var w := RepairedDown(v, now, i).value; var p := Priorities(w, now);
      && (forall j :: 0 < j < |p| && j != i ==> Edge(p, j))
      && (HeapOrdered(w, now) <==> ParentFits(v, now, i))
      && (!ParentFits(v, now, i) ==> w == v)
    decreases |v.heap| - i
  {
    var p := Priorities(v, now);
    FallsOffStep(p, i);
    match SinkChoice(p, i)
    case Stay =>
    case Into(c) =>
      SinkStep(p, i, c);
      SwappedPriorities(v, now, i, c);
      RepairedDownRestores(Swapped(v, i, c), now, c);
  }

  /** The right-child swap is taken without a right child if and only if the sinking queue falls off. */
  lemma {:induction false} RepairedDownFallsIff(v: View, now: int, i: nat)
    requires Inv(v) && i < |v.heap|
    ensures RepairedDown(v, now, i).None? <==> FallsOff(Priorities(v, now), i)
    decreases |v.heap| - i
  {
    FallsOffStep(Priorities(v, now), i);
    var c := SinkChoice(Priorities(v, now), i);
    if c.Into? {
      SwappedPriorities(v, now, i, c.child);
      RepairedDownFallsIff(Swapped(v, i, c.child), now, c.child);
    }
  }

  /** In particular it is not while the priority of the sinking queue is safe, as it is under a lock. */
  lemma SafeNeverNull(v: View, now: int, i: nat)
    requires Inv(v) && i < |v.heap| && Priorities(v, now)[i] <= MAX_SAFE_INTEGER
    ensures RepairedDown(v, now, i).Some?
  {
    RepairedDownFallsIff(v, now, i);
  }

  // ---------- Repairing up from a state that is a heap but for one queue ----------

  lemma RepairedUpRestoresAll(v: View, now: int, i: nat)
    requires Inv(v) && i < |v.heap|
    requires MayRise(Priorities(v, now), NoneFree(Priorities(v, now)), i)
    ensures HeapOrdered(RepairedUp(v, now, i), now)
  {
    assert Free(v.heap, {}) == NoneFree(Priorities(v, now));
    RepairedUpRestores(v, now, i, {});
    var w := RepairedUp(v, now, i);
    assert forall j :: 0 < j < |w.heap| ==> !Free(w.heap, {})[j];
  }

  lemma RepairedUpIdle(v: View, now: int, i: nat)
    requires Inv(v) && i < |v.heap| && HeapOrdered(v, now)
    ensures RepairedUp(v, now, i) == v
  {
    if 0 < i { assert Edge(Priorities(v, now), i); }
  }

  // ---------- Operations that change the priority of one queue ----------

  /** v and w differ, at most, in the items and the lock of d. */
  ghost predicate OnlyQueueDiffers(v: View, w: View, d: Discriminator) {
    forall e :: e != d ==>
      && Fifo(w, e) == Fifo(v, e)
      && (e in w.locks <==> e in v.locks)
      && (e in v.locks ==> w.locks[e] == v.locks[e])
  }

  lemma SamePriority(v: View, w: View, now: int, d: Discriminator, e: Discriminator)
    requires OnlyQueueDiffers(v, w, d) && e != d && Fifo(v, e) != []
    ensures Fifo(w, e) != [] && Priority(w, e, now) == Priority(v, e, now)
  {}

  lemma OneChanged(v: View, w: View, now: int, d: Discriminator)
    requires Inv(v) && Inv(w) && d in v.heap && w.heap == v.heap && OnlyQueueDiffers(v, w, d)
    ensures Priorities(w, now) == Priorities(v, now)[IndexOf(v.heap, d) := Priority(w, d, now)]
  {
    var i := IndexOf(v.heap, d);
    forall k | 0 <= k < |v.heap| && k != i ensures Priorities(w, now)[k] == Priorities(v, now)[k] {
      SamePriority(v, w, now, d, v.heap[k]);
    }
  }

  /** The parent of queue d is no larger than `priority`. */
  ghost predicate Fits(v: View, now: int, d: Discriminator, priority: int)
    requires Inv(v) && d in v.heap
  {
    var i := IndexOf(v.heap, d);
    0 < i ==> Priorities(v, now)[Parent(i)] <= priority
  }

  /**
   Slot i has been repaired: no edge but the one into it can be wrong, that edge is right if and only
   if `fits`, and if it is wrong, repairing slot i upwards would restore heap order.
   */
  ghost predicate MendedIff(v: View, now: int, i: nat, fits: bool)
    requires Inv(v)
  {
    && (forall j :: 0 < j < |v.heap| && j != i ==> Edge(Priorities(v, now), j))
    && (HeapOrdered(v, now) <==> fits)
    && (!fits ==> i < |v.heap| && HeapOrdered(RepairedUp(v, now, i), now))
  }

  // ---------- Calls that fail ----------

  /** Locking queue d until `until` throws: with the priority it has then, the queue falls off. */
  ghost predicate LockFalls(v: View, now: int, d: Discriminator, until: int)
    requires Inv(v) && d in v.heap
  {
    var i := IndexOf(v.heap, d);
    FallsOff(Priorities(v, now)[i := if now < until then MAX_SAFE_INTEGER else v.fifo[d][0].priority], i)
  }

  /** Removing queue d throws: the last queue falls off when it has moved to d's slot. */
  ghost predicate RefillFalls(v: View, now: int, d: Discriminator)
    requires Inv(v) && d in v.heap
  {
    var p, i := Priorities(v, now), IndexOf(v.heap, d);
    i < |p| - 1 && FallsOff(Unseated(p, i), i)
  }

  /** Acknowledging or deferring the head of d throws, with the second item if there is one. */
  ghost predicate AcknowledgeFalls(v: View, now: int, d: Discriminator)
    requires Inv(v) && d in v.heap
  {
    var i := IndexOf(v.heap, d);
    if 1 < |v.fifo[d]| then FallsOff(Priorities(v, now)[i := v.fifo[d][1].priority], i) else RefillFalls(v, now, d)
  }

  /** Removing item k of d throws. */
  ghost predicate RemoveFalls(v: View, now: int, d: Discriminator, k: nat)
    requires Inv(v) && d in v.heap && k < |Fifo(v, d)|
  {
    var i := IndexOf(v.heap, d);
    if |v.fifo[d]| == 1 then RefillFalls(v, now, d)
    else k == 0 && FallsOff(Priorities(v, now)[
      i := if Unexpired(v, d, now) then MAX_SAFE_INTEGER else v.fifo[d][1].priority], i)
  }

  lemma ChangedFallsIff(v: View, w: View, now: int, d: Discriminator)
    requires Inv(v) && Inv(w) && d in v.heap && w.heap == v.heap && OnlyQueueDiffers(v, w, d)
    ensures var i := IndexOf(v.heap, d);
      RepairedDown(w, now, i).None? <==> FallsOff(Priorities(v, now)[i := Priority(w, d, now)], i)
  {
    OneChanged(v, w, now, d);
    RepairedDownFallsIff(w, now, IndexOf(v.heap, d));
  }

  lemma TakenOutFallsIff(v: View, w: View, now: int, d: Discriminator)
    requires Inv(v) && Inv(w) && d in v.heap && QueueTakenOut(v, w, d)
    ensures RefilledDown(w, now, IndexOf(v.heap, d)).None? <==> RefillFalls(v, now, d)
  {
    var i := IndexOf(v.heap, d);
    TakenOutPriorities(v, w, now, d);
    if i < |w.heap| { RepairedDownFallsIff(w, now, i); }
  }

  lemma LockFallsIff(v: View, now: int, d: Discriminator, lock: Lock)
    requires Inv(v) && d in v.heap
    ensures Locked(v, now, d, lock).None? <==> LockFalls(v, now, d, lock.until)
    ensures LockFalls(v, now, d, lock.until) ==> lock.until <= now && MAX_SAFE_INTEGER < v.fifo[d][0].priority
  {
    ChangedFallsIff(v, AfterLock(v, d, lock), now, d);
  }

  lemma AcknowledgeFallsIff(v: View, now: int, d: Discriminator)
    requires Inv(v) && d in v.heap
    ensures Acknowledged(v, now, d).None? <==> AcknowledgeFalls(v, now, d)
  {
    AcknowledgeKeepsInv(v, d);
    AcknowledgeDiffers(v, d);
    if 1 < |v.fifo[d]| {
      ChangedFallsIff(v, AfterAcknowledge(v, d), now, d);
    } else {
      TakenOutFallsIff(v, AfterAcknowledge(v, d), now, d);
    }
  }

  lemma DeferFallsIff(v: View, now: int, d: Discriminator, priority: int)
    requires Inv(v) && d in v.heap
    ensures Deferred(v, now, d, priority).None? <==> AcknowledgeFalls(v, now, d)
  {
    AcknowledgeFallsIff(v, now, d);
  }

  lemma RemoveFallsIff(v: View, now: int, d: Discriminator, k: nat)
    requires Inv(v) && d in v.heap && k < |Fifo(v, d)|
    ensures Removed(v, now, d, k).None? <==> RemoveFalls(v, now, d, k)
  {
    RemoveKeepsInv(v, d, k);
    if |v.fifo[d]| == 1 {
      WithoutQueueTakesOut(v, d);
      TakenOutFallsIff(v, AfterRemove(v, d, k), now, d);
    } else if k == 0 {
      ChangedFallsIff(v, AfterRemove(v, d, 0), now, d);
    }
  }

  lemma BoundedMeans(v: View)
    ensures Bounded(v) <==>
      forall d, k :: d in v.fifo && 0 <= k < |v.fifo[d]| ==> v.fifo[d][k].priority <= 9007199254740991
  {}

  /** No call throws while every priority is a safe integer. */
  lemma BoundedNeverFalls(v: View, now: int, d: Discriminator, until: int, k: nat)
    requires Inv(v) && Bounded(v) && d in v.heap && k < |Fifo(v, d)|
    ensures !LockFalls(v, now, d, until) && !AcknowledgeFalls(v, now, d) && !RemoveFalls(v, now, d, k)
  {}

  /** Locking the next queue throws. */
  ghost predicate LockNextFalls(v: View, now: int, until: int)
    requires Inv(v)
  {
    exists d :: IsNext(v, now, d) && LockFalls(v, now, d, until)
  }

  lemma NextIsUnique(v: View, now: int, d: Discriminator, e: Discriminator)
    requires Distinct(v.heap) && IsNext(v, now, d) && IsNext(v, now, e)
    ensures d == e
  {}

  // ---------- What the operations keep ----------

  lemma ChangedPriority(v: View, w: View, now: int, d: Discriminator)
    requires Inv(v) && Inv(w) && d in v.heap && w.heap == v.heap && OnlyQueueDiffers(v, w, d)
    requires HeapOrdered(v, now)
    requires RepairedDown(w, now, IndexOf(v.heap, d)).Some?
    ensures var i := IndexOf(v.heap, d); var u := RepairedDown(w, now, i).value;
      && MendedIff(u, now, i, Fits(v, now, d, Priority(w, d, now)))
      && (!HeapOrdered(u, now) ==> u == w)
  {
    var p, i, x := Priorities(v, now), IndexOf(v.heap, d), Priority(w, d, now);
    OneChanged(v, w, now, d);
    ChangedMaySink(p, i, x);
    ChangedFallsIff(v, w, now, d);
    RepairedDownRestores(w, now, i);
    if !Fits(v, now, d, x) {
      LoweredMayRise(p, i, x);
      assert NoneFree(p) == NoneFree(p[i := x]);
      RepairedUpRestoresAll(w, now, i);
    }
  }

  /** Locking the next queue keeps heap order, whatever the priorities are. */
  lemma LockNextKeepsHeap(v: View, now: int, d: Discriminator, lock: Lock)
    requires Inv(v) && HeapOrdered(v, now) && IsNext(v, now, d) && !LockFalls(v, now, d, lock.until)
    ensures Locked(v, now, d, lock).Some? && HeapOrdered(Locked(v, now, d, lock).value, now)
  {
    LockFallsIff(v, now, d, lock);
    NextFits(v, now, d, lock);
    ChangedPriority(v, AfterLock(v, d, lock), now, d);
  }

  /** The parent of the next queue is locked, so that the queue itself is beyond the safe integers. */
  lemma NextFits(v: View, now: int, d: Discriminator, lock: Lock)
    requires Inv(v) && HeapOrdered(v, now) && IsNext(v, now, d)
    ensures Fits(v, now, d, Priority(AfterLock(v, d, lock), d, now))
  {
    var i := IndexOf(v.heap, d);
    if 0 < i {
      assert Unexpired(v, v.heap[Parent(i)], now);
      assert Edge(Priorities(v, now), i);
    }
  }

  /**
   Renewing a lock, even an expired one, keeps heap order if and only if the parent of the queue is no
   larger than the queue is then.
   */
  lemma RenewHeap(v: View, now: int, d: Discriminator, lock: Lock)
    requires Inv(v) && HeapOrdered(v, now) && d in v.heap && !LockFalls(v, now, d, lock.until)
    ensures Locked(v, now, d, lock).Some?
    ensures HeapOrdered(Locked(v, now, d, lock).value, now) <==>
            Fits(v, now, d, Priority(AfterLock(v, d, lock), d, now))
  {
    LockFallsIff(v, now, d, lock);
    ChangedPriority(v, AfterLock(v, d, lock), now, d);
  }

  // ---------- Time passing ----------

  predicate Expires(v: View, d: Discriminator, now: int, later: int) {
    Unexpired(v, d, now) && !Unexpired(v, d, later)
  }

  /** The edges into slot i that time can break: a lock on either end expires. */
  ghost predicate Exposed(v: View, now: int, later: int, i: nat)
    requires Inv(v) && 0 < i < |v.heap|
  {
    var parent := v.heap[Parent(i)];
    || Expires(v, v.heap[i], now, later)
    || (Expires(v, parent, now, later) && MAX_SAFE_INTEGER < v.fifo[parent][0].priority)
  }

  /**
   Time alone keeps heap order if and only if each queue whose lock expires is then no smaller than its
   parent, and each child of a queue whose lock expires on an item beyond the safe integers no smaller
   than that.
   */
  lemma ExpiryKeepsHeapIff(v: View, now: int, later: int)
    requires Inv(v) && HeapOrdered(v, now) && now <= later
    ensures HeapOrdered(v, later) <==>
      forall i :: 0 < i < |v.heap| && Exposed(v, now, later, i) ==> Edge(Priorities(v, later), i)
  {
    forall i | 0 < i < |v.heap| && !Exposed(v, now, later, i) ensures Edge(Priorities(v, later), i) {
      assert Edge(Priorities(v, now), i);
    }
  }

  /** With safe priorities it depends on the queues whose locks expire and on their parents alone. */
  lemma ExpiryOfSafeKeepsHeapIff(v: View, now: int, later: int)
    requires Inv(v) && Bounded(v) && HeapOrdered(v, now) && now <= later
    ensures HeapOrdered(v, later) <==>
      forall i :: 0 < i < |v.heap| && Expires(v, v.heap[i], now, later) ==>
        Priorities(v, later)[Parent(i)] <= v.fifo[v.heap[i]][0].priority
  {
    ExpiryKeepsHeapIff(v, now, later);
    forall i | 0 < i < |v.heap|
      ensures Exposed(v, now, later, i) <==> Expires(v, v.heap[i], now, later)
      ensures Expires(v, v.heap[i], now, later) ==>
        (Edge(Priorities(v, later), i) <==> Priorities(v, later)[Parent(i)] <= v.fifo[v.heap[i]][0].priority)
    {
      assert v.heap[Parent(i)] in v.fifo && v.fifo[v.heap[Parent(i)]][0].priority <= MAX_SAFE_INTEGER;
    }
  }

  /** A queue that is new is placed at the end and repaired up; a queue that exists does not move. */
  lemma EnqueueKeepsHeap(v: View, now: int, d: Discriminator, e: Entry)
    requires Inv(v) && HeapOrdered(v, now)
    ensures HeapOrdered(Enqueued(v, now, d, e), now)
  {
    EnqueueKeepsInv(v, d, e);
    var w := AfterEnqueue(v, d, e);
    if d in v.heap {
      OneChanged(v, w, now, d);
      assert Priorities(w, now) == Priorities(v, now);
    } else {
      var p := Priorities(v, now);
      AppendedMayRise(p, NoneFree(p), Priority(w, d, now));
      NewQueuePriorities(v, now, d, e);
      assert NoneFree(p) + [false] == NoneFree(Priorities(w, now));
      RepairedUpRestoresAll(w, now, |v.heap|);
    }
  }

  lemma NewQueuePriorities(v: View, now: int, d: Discriminator, e: Entry)
    requires Inv(v) && d !in v.heap
    ensures Inv(AfterEnqueue(v, d, e))
    ensures Priorities(AfterEnqueue(v, d, e), now) ==
            Priorities(v, now) + [Priority(AfterEnqueue(v, d, e), d, now)]
  {
    EnqueueKeepsInv(v, d, e);
  }

  /** Removing an item keeps heap order as long as its queue keeps an item. */
  lemma RemoveKeepsHeap(v: View, now: int, d: Discriminator, k: nat)
    requires Inv(v) && HeapOrdered(v, now) && d in v.heap && k < |Fifo(v, d)| && 1 < |Fifo(v, d)|
    requires !RemoveFalls(v, now, d, k)
    ensures Removed(v, now, d, k).Some? && HeapOrdered(Removed(v, now, d, k).value, now)
  {
    RemoveFallsIff(v, now, d, k);
    RemoveKeepsInv(v, d, k);
    var w := AfterRemove(v, d, k);
    if k > 0 {
      OneChanged(v, w, now, d);
      assert Priorities(w, now) == Priorities(v, now);
    } else {
      ChangedPriority(v, w, now, d);
      var u := RepairedDown(w, now, IndexOf(v.heap, d)).value;
      if HeapOrdered(u, now) { RepairedUpIdle(u, now, IndexOf(u.heap, d)); }
    }
  }

  // ---------- Acknowledging, and removing a queue: exactly when heap order survives ----------

  /**
   The state w is v without the queue d: the last queue, if it is another one, has moved to d's slot.
   */
  ghost predicate QueueTakenOut(v: View, w: View, d: Discriminator)
    requires d in v.heap
  {
    && w.heap == Unseated(v.heap, IndexOf(v.heap, d))
    && OnlyQueueDiffers(v, w, d)
  }

  lemma TakenOutPriorities(v: View, w: View, now: int, d: Discriminator)
    requires Inv(v) && Inv(w) && d in v.heap && QueueTakenOut(v, w, d)
    ensures Priorities(w, now) == Unseated(Priorities(v, now), IndexOf(v.heap, d))
  {
    var p, i := Priorities(v, now), IndexOf(v.heap, d);
    assert d !in w.heap by { UnseatedElements(v.heap, i); }
    assert forall e :: e in v.heap ==> Fifo(v, e) != [];
    hide Inv;
    forall k | 0 <= k < |w.heap| ensures Priorities(w, now)[k] == Unseated(p, i)[k] {
      var from := if k == i then |p| - 1 else k;
      assert w.heap[k] == v.heap[from];
      SamePriority(v, w, now, d, v.heap[from]);
    }
  }

  /** The queue that fills d's slot is no smaller than the slot's parent. */
  ghost predicate RefillFits(v: View, now: int, d: Discriminator)
    requires Inv(v) && d in v.heap
  {
    var p, i := Priorities(v, now), IndexOf(v.heap, d);
    i == |p| - 1 || Fits(v, now, d, p[|p| - 1])
  }

  lemma TakenOut(v: View, w: View, now: int, d: Discriminator)
    requires Inv(v) && Inv(w) && d in v.heap && QueueTakenOut(v, w, d) && HeapOrdered(v, now)
    requires !RefillFalls(v, now, d)
    ensures RefilledDown(w, now, IndexOf(v.heap, d)).Some?
    ensures var i := IndexOf(v.heap, d); var u := RefilledDown(w, now, i).value;
      && MendedIff(u, now, i, RefillFits(v, now, d))
      && (!HeapOrdered(u, now) ==> u == w)
  {
    var p, i := Priorities(v, now), IndexOf(v.heap, d);
    TakenOutPriorities(v, w, now, d);
    RefillGuards(v, now, d);
    if i < |w.heap| {
      RefilledMended(v, w, now, d);
    } else {
      UnseatedLast(p);
    }
    hide *;
  }

  lemma RefilledMended(v: View, w: View, now: int, d: Discriminator)
    requires Inv(v) && Inv(w) && d in v.heap && |w.heap| == |v.heap| - 1 && HeapOrdered(v, now)
    requires IndexOf(v.heap, d) < |w.heap| && !RefillFalls(v, now, d)
    requires Priorities(w, now) == Unseated(Priorities(v, now), IndexOf(v.heap, d))
    ensures var i := IndexOf(v.heap, d); RepairedDown(w, now, i).Some?
    ensures var i := IndexOf(v.heap, d); var u := RepairedDown(w, now, i).value;
      && MendedIff(u, now, i, RefillFits(v, now, d))
      && (!HeapOrdered(u, now) ==> u == w)
  {
    RefillGuards(v, now, d);
    OrderedPriorities(v, now);
    hide *;
    RefillMended(Priorities(v, now), w, now, IndexOf(v.heap, d));
  }

  lemma OrderedPriorities(v: View, now: int)
    requires Inv(v)
    ensures HeapOrdered(v, now) <==> Ordered(Priorities(v, now))
  {}

  lemma RefillGuards(v: View, now: int, d: Discriminator)
    requires Inv(v) && d in v.heap
    ensures var p, i := Priorities(v, now), IndexOf(v.heap, d);
      && (RefillFits(v, now, d) <==> i == |p| - 1 || i == 0 || p[Parent(i)] <= p[|p| - 1])
      && (RefillFalls(v, now, d) <==> i < |p| - 1 && FallsOff(Unseated(p, i), i))
  {}

  /** Repairing down the slot that the last element has filled. */
  lemma RefillMended(p: seq<int>, w: View, now: int, i: nat)
    requires Inv(w) && i < |w.heap| && |p| == |w.heap| + 1 && Ordered(p)
    requires Priorities(w, now) == Unseated(p, i) && !FallsOff(Unseated(p, i), i)
    ensures RepairedDown(w, now, i).Some?
    ensures var u := RepairedDown(w, now, i).value;
      && MendedIff(u, now, i, i == 0 || p[Parent(i)] <= p[|p| - 1])
      && (!HeapOrdered(u, now) ==> u == w)
  {
    UnseatedMaySink(p, i);
    RepairedDownRestores(w, now, i);
    if 0 < i && p[Parent(i)] > p[|p| - 1] {
      UnseatedMayRise(p, i);
      RepairedUpRestoresAll(w, now, i);
    }
  }

  /**
   The guard under which acknowledging keeps heap order: the parent of the acknowledged queue must be
   no larger than what its slot holds next, the second item if there is one, the last queue otherwise.
   */
  ghost predicate AcknowledgeFits(v: View, now: int, d: Discriminator)
    requires Inv(v) && d in v.heap
  {
    if 1 < |v.fifo[d]| then Fits(v, now, d, v.fifo[d][1].priority) else RefillFits(v, now, d)
  }

  /**
   From a heap, acknowledging leaves at most one edge wrong, the one into the slot of the acknowledged
   queue. It leaves a heap if and only if `AcknowledgeFits`; if not, repairing that slot upwards, which
   the code does not do, would restore heap order.
   */
  lemma AcknowledgeHeap(v: View, now: int, d: Discriminator)
    requires Inv(v) && d in v.heap && HeapOrdered(v, now) && !AcknowledgeFalls(v, now, d)
    ensures Acknowledged(v, now, d).Some?
    ensures var w := Acknowledged(v, now, d).value;
      && Inv(w) && MendedIff(w, now, IndexOf(v.heap, d), AcknowledgeFits(v, now, d))
      && (!AcknowledgeFits(v, now, d) ==> w == AfterAcknowledge(v, d))
  {
    AcknowledgeFallsIff(v, now, d);
    AcknowledgeKeepsInv(v, d);
    AcknowledgeDiffers(v, d);
    if 1 < |v.fifo[d]| {
      ChangedPriority(v, AfterAcknowledge(v, d), now, d);
    } else {
      TakenOut(v, AfterAcknowledge(v, d), now, d);
    }
  }

  lemma AcknowledgeDiffers(v: View, d: Discriminator)
    requires Inv(v) && d in v.heap
    ensures OnlyQueueDiffers(v, AfterAcknowledge(v, d), d)
    ensures 1 < |v.fifo[d]| ==>
      && AfterAcknowledge(v, d).heap == v.heap
      && d !in AfterAcknowledge(v, d).locks
      && Fifo(AfterAcknowledge(v, d), d) == v.fifo[d][1..]
    ensures |v.fifo[d]| == 1 ==> QueueTakenOut(v, AfterAcknowledge(v, d), d)
  {}

  /** The same for removing the only item of a queue, which removes the queue. */
  lemma RemoveOnlyHeap(v: View, now: int, d: Discriminator)
    requires Inv(v) && d in v.heap && HeapOrdered(v, now) && |Fifo(v, d)| == 1
    requires !RefillFalls(v, now, d)
    ensures Removed(v, now, d, 0).Some?
    ensures var w := Removed(v, now, d, 0).value;
      Inv(w) && MendedIff(w, now, IndexOf(v.heap, d), RefillFits(v, now, d))
  {
    RemoveKeepsInv(v, d, 0);
    WithoutQueueTakesOut(v, d);
    RemoveFallsIff(v, now, d, 0);
    hide Inv, QueueTakenOut, RefillFits, MendedIff, WithoutQueue, OnlyQueueDiffers, RefilledDown, HeapOrdered;
    TakenOut(v, WithoutQueue(v, d), now, d);
  }

  lemma WithoutQueueTakesOut(v: View, d: Discriminator)
    requires d in v.heap
    ensures QueueTakenOut(v, WithoutQueue(v, d), d)
  {}

  /**
   From a heap, deferring leaves a heap if and only if acknowledging does, whatever the new priority:
   placing the queue again never mends what taking it out has left wrong. At most one edge is wrong, the
   one into the queue that now stands in the slot of the deferred queue.
   */
  lemma DeferHeap(v: View, now: int, d: Discriminator, priority: int)
    requires Inv(v) && d in v.heap && HeapOrdered(v, now) && !AcknowledgeFalls(v, now, d)
    ensures Deferred(v, now, d, priority).Some?
    ensures var w := Deferred(v, now, d, priority).value;
      var refill := if 1 < |v.fifo[d]| then d else v.heap[|v.heap| - 1];
      && Inv(w) && (HeapOrdered(w, now) <==> AcknowledgeFits(v, now, d))
      && HeapOrderedBut(w, now, {refill})
  {
    DeferFallsIff(v, now, d, priority);
    DeferHeapCases(v, now, d, priority);
  }

  lemma DeferHeapCases(v: View, now: int, d: Discriminator, priority: int)
    requires Inv(v) && d in v.heap && HeapOrdered(v, now) && !AcknowledgeFalls(v, now, d)
    ensures Acknowledged(v, now, d).Some? && Inv(Acknowledged(v, now, d).value)
    ensures var w := Enqueued(Acknowledged(v, now, d).value, now, d, Entry(v.fifo[d][0].item, priority));
      var refill := if 1 < |v.fifo[d]| then d else v.heap[|v.heap| - 1];
      && (HeapOrdered(w, now) <==> AcknowledgeFits(v, now, d))
      && HeapOrderedBut(w, now, {refill})
  {
    AcknowledgeHeap(v, now, d);
    AcknowledgedReorders(v, now, d);
    var u, e := Acknowledged(v, now, d).value, Entry(v.fifo[d][0].item, priority);
    if AcknowledgeFits(v, now, d) {
      EnqueueKeepsHeap(u, now, d, e);
      OrderedIsOrderedBut(Enqueued(u, now, d, e), now, {if 1 < |v.fifo[d]| then d else v.heap[|v.heap| - 1]});
    } else if 1 < |v.fifo[d]| {
      DeferManyUnfit(v, now, d, e);
    } else {
      DeferOnlyUnfit(v, now, d, e);
      DeferOnlyStaysUnfit(v, now, d, e);
    }
  }

  lemma OrderedIsOrderedBut(v: View, now: int, skip: set<Discriminator>)
    requires Inv(v) && HeapOrdered(v, now)
    ensures HeapOrderedBut(v, now, skip)
  {}

  lemma MendedIsOrderedBut(v: View, now: int, i: nat)
    requires Inv(v) && i < |v.heap| && MendedIff(v, now, i, false)
    ensures HeapOrderedBut(v, now, {v.heap[i]})
  {
    var free := Free(v.heap, {v.heap[i]});
    forall j | 0 < j < |v.heap| && !free[j] ensures Edge(Priorities(v, now), j) {
      assert j != i;
    }
  }

  lemma DeferManyUnfit(v: View, now: int, d: Discriminator, e: Entry)
    requires Inv(v) && d in v.heap && HeapOrdered(v, now) && !AcknowledgeFalls(v, now, d)
    requires 1 < |v.fifo[d]| && !AcknowledgeFits(v, now, d)
    ensures Acknowledged(v, now, d).Some? && Inv(Acknowledged(v, now, d).value)
    ensures !HeapOrdered(Enqueued(Acknowledged(v, now, d).value, now, d, e), now)
    ensures HeapOrderedBut(Enqueued(Acknowledged(v, now, d).value, now, d, e), now, {d})
  {
    AcknowledgeHeap(v, now, d);
    AcknowledgeDiffers(v, d);
    var u := Acknowledged(v, now, d).value;
    MendedIsOrderedBut(u, now, IndexOf(v.heap, d));
    EnqueueKeepsInv(u, d, e);
    OneChanged(u, AfterEnqueue(u, d, e), now, d);
    assert Priorities(AfterEnqueue(u, d, e), now) == Priorities(u, now);
  }

  lemma DeferOnlyUnfit(v: View, now: int, d: Discriminator, e: Entry)
    requires Inv(v) && d in v.heap && HeapOrdered(v, now) && !AcknowledgeFalls(v, now, d)
    requires 1 == |v.fifo[d]| && !AcknowledgeFits(v, now, d)
    ensures Acknowledged(v, now, d).Some? && Inv(Acknowledged(v, now, d).value)
    ensures HeapOrderedBut(Enqueued(Acknowledged(v, now, d).value, now, d, e), now, {v.heap[|v.heap| - 1]})
  {
    AcknowledgeHeap(v, now, d);
    UnfitRefill(v, now, d);
    var i, u := IndexOf(v.heap, d), AfterAcknowledge(v, d);
    MendedIsOrderedBut(u, now, i);
    EnqueueNewBut(u, now, d, e, i);
  }

  lemma DeferOnlyStaysUnfit(v: View, now: int, d: Discriminator, e: Entry)
    requires Inv(v) && d in v.heap && HeapOrdered(v, now) && !AcknowledgeFalls(v, now, d)
    requires 1 == |v.fifo[d]| && !AcknowledgeFits(v, now, d)
    ensures Acknowledged(v, now, d).Some? && Inv(Acknowledged(v, now, d).value)
    ensures !HeapOrdered(Enqueued(Acknowledged(v, now, d).value, now, d, e), now)
  {
    AcknowledgeHeap(v, now, d);
    RefillStaysUnfit(v, now, d, e);
  }

  lemma RefillStaysUnfit(v: View, now: int, d: Discriminator, e: Entry)
    requires Inv(v) && d in v.heap && Ordered(Priorities(v, now))
    requires 1 == |v.fifo[d]| && !AcknowledgeFits(v, now, d)
    ensures Inv(AfterAcknowledge(v, d))
    ensures !Ordered(Priorities(Enqueued(AfterAcknowledge(v, d), now, d, e), now))
  {
    hide *;
    OnlyItemPriorities(v, now, d);
    UnfitLast(v, now, d);
    var i, u := IndexOf(v.heap, d), AfterAcknowledge(v, d);
    EnqueueNewClimbs(u, now, d, e);
    var x :| Priorities(Enqueued(u, now, d, e), now) == Risen(Priorities(u, now) + [x], |u.heap|);
    AppendDoesNotMend(Priorities(v, now), i, x);
  }

  lemma UnfitLast(v: View, now: int, d: Discriminator)
    requires Inv(v) && d in v.heap
    requires 1 == |v.fifo[d]| && !AcknowledgeFits(v, now, d)
    ensures var p, i := Priorities(v, now), IndexOf(v.heap, d);
      0 < i < |p| - 1 && p[|p| - 1] < p[Parent(i)]
  {}

  lemma EnqueueNewClimbs(v: View, now: int, d: Discriminator, e: Entry)
    requires Inv(v) && d !in v.heap
    ensures exists x: int :: Priorities(Enqueued(v, now, d, e), now) == Risen(Priorities(v, now) + [x], |v.heap|)
  {
    NewQueuePriorities(v, now, d, e);
    RepairedUpIsRisen(AfterEnqueue(v, d, e), now, |v.heap|);
  }

  lemma HeapElements(v: View, d: Discriminator)
    requires Inv(v) && d in v.heap
    ensures d !in Unseated(v.heap, IndexOf(v.heap, d))
  {
    UnseatedElements(v.heap, IndexOf(v.heap, d));
  }

  lemma UnfitRefill(v: View, now: int, d: Discriminator)
    requires Inv(v) && d in v.heap && HeapOrdered(v, now)
    requires 1 == |v.fifo[d]| && !AcknowledgeFits(v, now, d)
    ensures var w, i := AfterAcknowledge(v, d), IndexOf(v.heap, d);
      && Inv(w) && d !in w.heap && i < |w.heap| && w.heap[i] == v.heap[|v.heap| - 1]
      && MaySink(Priorities(w, now), i)
  {
    OnlyItemTaken(v, d);
    OnlyItemPriorities(v, now, d);
    UnfitLast(v, now, d);
    hide *;
    UnseatedMaySink(Priorities(v, now), IndexOf(v.heap, d));
  }

  lemma OnlyItemPriorities(v: View, now: int, d: Discriminator)
    requires Inv(v) && d in v.heap && 1 == |v.fifo[d]|
    ensures Fifo(v, d) != []
    ensures var w, i := AfterAcknowledge(v, d), IndexOf(v.heap, d);
      && Inv(w) && d !in w.heap && Priorities(w, now) == Unseated(Priorities(v, now), i)
  {
    OnlyItemTaken(v, d);
    hide AfterAcknowledge, Priorities, QueueTakenOut, Inv;
    TakenOutPriorities(v, AfterAcknowledge(v, d), now, d);
  }

  /** Acknowledging the only item of a queue takes the queue out of the heap. */
  lemma OnlyItemTaken(v: View, d: Discriminator)
    requires Inv(v) && d in v.heap && 1 == |v.fifo[d]|
    ensures Fifo(v, d) != [] && QueueTakenOut(v, AfterAcknowledge(v, d), d)
    ensures var w := AfterAcknowledge(v, d);
      Inv(w) && d !in w.heap && w.heap == Unseated(v.heap, IndexOf(v.heap, d))
  {
    AcknowledgeKeepsInv(v, d);
    AcknowledgeDiffers(v, d);
    HeapElements(v, d);
  }

  /** Enqueuing a new queue into a heap that is wrong only at slot i leaves it wrong only at that queue. */
  lemma EnqueueNewBut(v: View, now: int, d: Discriminator, e: Entry, i: nat)
    requires Inv(v) && d !in v.heap && i < |v.heap|
    requires HeapOrderedBut(v, now, {v.heap[i]}) && MaySink(Priorities(v, now), i)
    ensures HeapOrderedBut(Enqueued(v, now, d, e), now, {v.heap[i]})
  {
    var p, skip, w := Priorities(v, now), {v.heap[i]}, AfterEnqueue(v, d, e);
    var free := Free(v.heap, skip);
    forall j | 0 < j < |p| && free[Parent(j)] ensures Bridge(p, j) {
      assert Parent(j) == i;
    }
    assert d !in skip && w.heap == v.heap + [d];
    assert Free(w.heap, skip) == free + [false];
    NewQueuePriorities(v, now, d, e);
    hide Inv, AfterEnqueue, Priorities, Priority, Free, Fifo, MaySink, OrderedBut;
    AppendedMayRise(p, free, Priority(w, d, now));
    RepairedUpRestores(w, now, |v.heap|, skip);
  }

  // ---------- Locking refines extracting a minimum ----------

  /**
   In a heap, no queue that is not locked has a smaller priority than the next queue, the one of them
   with the lowest index; except that, if the root is locked, the order among those beyond
   `MAX_SAFE_INTEGER` is left open.
   */
  lemma NextIsLeast(v: View, now: int, d: Discriminator, e: Discriminator)
    requires Inv(v) && HeapOrdered(v, now) && IsNext(v, now, d)
    requires e in v.heap && !Unexpired(v, e, now)
    ensures
      || Fifo(v, d)[0].priority <= Fifo(v, e)[0].priority
      || (Unexpired(v, v.heap[0], now) && MAX_SAFE_INTEGER <= Fifo(v, e)[0].priority < Fifo(v, d)[0].priority)
  {
    RootIsLeast(Priorities(v, now), IndexOf(v.heap, e));
    if 0 < IndexOf(v.heap, d) { assert Unexpired(v, v.heap[0], now); }
  }

  /**
   While every stored priority is at most 2 ^ 53 - 1, the next queue of a heap has the least head priority of
   all unlocked queues, without exception.
   */
  lemma NextIsLeastOfSafe(v: View, now: int, d: Discriminator, e: Discriminator)
    requires forall x, k :: x in v.fifo && 0 <= k < |v.fifo[x]| ==> v.fifo[x][k].priority <= 9007199254740991
    requires Inv(v) && HeapOrdered(v, now) && IsNext(v, now, d)
    requires e in v.heap && !Unexpired(v, e, now)
    ensures Fifo(v, d)[0].priority <= Fifo(v, e)[0].priority
  {
    NextIsLeast(v, now, d, e);
    assert d in v.fifo && v.fifo[d][0].priority <= 9007199254740991;
  }

  /** In every state, heap or not, there is nothing to lock exactly when every queue is locked. */
  lemma NextExistsIff(v: View, now: int)
    requires Inv(v)
    ensures (exists d :: IsNext(v, now, d)) <==> !AllLocked(v, now)
  {
    if !AllLocked(v, now) {
      var d :| d in v.heap && !Unexpired(v, d, now);
      FirstUnlocked(v, now, IndexOf(v.heap, d));
    }
  }

  lemma {:induction false} FirstUnlocked(v: View, now: int, i: nat)
    requires Inv(v) && i < |v.heap| && !Unexpired(v, v.heap[i], now)
    ensures exists d :: IsNext(v, now, d)
  {
    if j :| 0 <= j < i && !Unexpired(v, v.heap[j], now) {
      FirstUnlocked(v, now, j);
    } else {
      assert IsNext(v, now, v.heap[i]);
    }
  }
}
