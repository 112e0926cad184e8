/**
 Heap order over whole runs of exact calls, each at one instant, with time passing in between: every
 state is a heap if and only if every call meets its guard, and then every grant is a least one.
 */
module HeapRuns {
  import opened Wrappers
  import opened HeapOrder
  import opened PriorityQueueSpec
  import opened HeapRepair

  datatype Moment = Moment(view: View, now: int)

  datatype Call =
    | Enqueue(d: Discriminator, entry: Entry)
    | Grant(d: Discriminator, lock: Lock)
    | Renew(d: Discriminator, lock: Lock)
    | Acknowledge(d: Discriminator)
    | Defer(d: Discriminator, priority: int)
    | Remove(d: Discriminator, index: nat)
    | Wait(later: int)

  /** Other calls are refused and change nothing. Whose token it is does not matter here. */
  ghost predicate Accepted(m: Moment, call: Call)
    requires Inv(m.view)
  {
    match call
    case Enqueue(_, _) => true
    case Grant(d, _) => IsNext(m.view, m.now, d)
    case Renew(d, _) => d in m.view.heap
    case Acknowledge(d) => d in m.view.heap
    case Defer(d, _) => d in m.view.heap
    case Remove(d, k) => d in m.view.heap && k < |Fifo(m.view, d)| && (k == 0 ==> !Unexpired(m.view, d, m.now))
    case Wait(later) => m.now <= later
  }

  /** What an accepted call makes of the state, `None` if it throws. */
  ghost function Effect(m: Moment, call: Call): (w: Option<View>)
    requires Inv(m.view) && Accepted(m, call)
    ensures w.Some? ==> Inv(w.value)
  {
    match call
    case Enqueue(d, entry) => Some(Enqueued(m.view, m.now, d, entry))
    case Grant(d, lock) => Locked(m.view, m.now, d, lock)
    case Renew(d, lock) => Locked(m.view, m.now, d, lock)
    case Acknowledge(d) => Acknowledged(m.view, m.now, d)
    case Defer(d, priority) => Deferred(m.view, m.now, d, priority)
    case Remove(d, k) =>
      RemoveKeepsInv(m.view, d, k);
      Removed(m.view, m.now, d, k)
    case Wait(_) => Some(m.view)
  }

  /** A call that is refused or throws changes nothing. */
  ghost function After(m: Moment, call: Call): (m': Moment)
    requires Inv(m.view)
    ensures Inv(m'.view) && m.now <= m'.now
  {
    if !Accepted(m, call) then m
    else
      Moment(
        match Effect(m, call) case None => m.view case Some(w) => w,
        if call.Wait? then call.later else m.now)
  }

  /** The call throws. */
  ghost predicate Throws(m: Moment, call: Call)
    requires Inv(m.view) && Accepted(m, call)
  {
    match call
    case Grant(d, lock) => LockFalls(m.view, m.now, d, lock.until)
    case Renew(d, lock) => LockFalls(m.view, m.now, d, lock.until)
    case Acknowledge(d) => AcknowledgeFalls(m.view, m.now, d)
    case Defer(d, _) => AcknowledgeFalls(m.view, m.now, d)
    case Remove(d, k) => RemoveFalls(m.view, m.now, d, k)
    case _ => false
  }

  /** What keeps heap order, said of the state before the call. */
  ghost predicate Fitting(m: Moment, call: Call)
    requires Inv(m.view) && Accepted(m, call)
  {
    match call
    case Renew(d, lock) => Fits(m.view, m.now, d, Priority(AfterLock(m.view, d, lock), d, m.now))
    case Acknowledge(d) => AcknowledgeFits(m.view, m.now, d)
    case Defer(d, _) => AcknowledgeFits(m.view, m.now, d)
    case Remove(d, _) => 1 < |Fifo(m.view, d)| || RefillFits(m.view, m.now, d)
    case Wait(later) =>
      forall i :: 0 < i < |m.view.heap| && Exposed(m.view, m.now, later, i) ==> Edge(Priorities(m.view, later), i)
    case _ => true
  }

  ghost predicate Guard(m: Moment, call: Call)
    requires Inv(m.view)
  {
    Accepted(m, call) && !Throws(m, call) ==> Fitting(m, call)
  }

  lemma ThrowsIff(m: Moment, call: Call)
    requires Inv(m.view) && Accepted(m, call)
    ensures Effect(m, call).None? <==> Throws(m, call)
  {
    hide Inv, LockFalls, AcknowledgeFalls, RemoveFalls, Locked, Acknowledged, Removed, Deferred;
    match call
    case Grant(d, lock) => LockFallsIff(m.view, m.now, d, lock);
    case Renew(d, lock) => LockFallsIff(m.view, m.now, d, lock);
    case Acknowledge(d) => AcknowledgeFallsIff(m.view, m.now, d);
    case Defer(d, priority) => DeferFallsIff(m.view, m.now, d, priority);
    case Remove(d, k) => RemoveFallsIff(m.view, m.now, d, k);
    case _ =>
  }

  /** From a heap, a call leaves a heap if and only if it meets its guard. */
  lemma GuardIff(m: Moment, call: Call)
    requires Inv(m.view) && HeapOrdered(m.view, m.now)
    ensures var m' := After(m, call); HeapOrdered(m'.view, m'.now) <==> Guard(m, call)
  {
    hide Inv, LockFalls, AcknowledgeFalls, RemoveFalls, RefillFalls, Locked, Acknowledged, Removed, Deferred,
      HeapOrdered, Fits, AcknowledgeFits, RefillFits, Exposed, MendedIff;
    if Accepted(m, call) {
      ThrowsIff(m, call);
      if !Throws(m, call) {
        AcceptedIff(m, call);
      }
    }
  }

  lemma AcceptedIff(m: Moment, call: Call)
    requires Inv(m.view) && HeapOrdered(m.view, m.now) && Accepted(m, call) && !Throws(m, call)
    ensures Effect(m, call).Some?
    ensures HeapOrdered(Effect(m, call).value, if call.Wait? then call.later else m.now) <==> Fitting(m, call)
  {
    ThrowsIff(m, call);
    match call
    case Enqueue(d, entry) => EnqueueKeepsHeap(m.view, m.now, d, entry);
    case Grant(d, lock) => LockNextKeepsHeap(m.view, m.now, d, lock);
    case Renew(d, lock) => RenewHeap(m.view, m.now, d, lock);
    case Acknowledge(d) => AcknowledgeHeap(m.view, m.now, d);
    case Defer(d, priority) => DeferHeap(m.view, m.now, d, priority);
    case Remove(d, k) => RemoveIff(m.view, m.now, d, k);
    case Wait(later) => ExpiryKeepsHeapIff(m.view, m.now, later);
    hide *;
  }

  lemma RemoveIff(v: View, now: int, d: Discriminator, k: nat)
    requires Inv(v) && HeapOrdered(v, now) && d in v.heap && k < |Fifo(v, d)| && !RemoveFalls(v, now, d, k)
    ensures Removed(v, now, d, k).Some? && Inv(Removed(v, now, d, k).value)
    ensures HeapOrdered(Removed(v, now, d, k).value, now) <==> 1 < |Fifo(v, d)| || RefillFits(v, now, d)
  {
    RemoveFallsIff(v, now, d, k);
    if 1 < |Fifo(v, d)| {
      RemoveKeepsHeap(v, now, d, k);
    } else {
      RemoveOnlyHeap(v, now, d);
    }
  }

  // ---------- Runs ----------

  /** The state after the calls, from the empty store at `start`. */
  ghost function Reached(start: int, calls: seq<Call>): (m: Moment)
    ensures Inv(m.view)
  {
    if calls == [] then Moment(View([], map[], map[]), start)
    else After(Reached(start, calls[..|calls| - 1]), calls[|calls| - 1])
  }

  ghost predicate HeapAt(start: int, calls: seq<Call>) {
    HeapOrdered(Reached(start, calls).view, Reached(start, calls).now)
  }

  ghost predicate GuardAt(start: int, calls: seq<Call>, k: nat)
    requires k < |calls|
  {
    Guard(Reached(start, calls[..k]), calls[k])
  }

  lemma OneMore(start: int, calls: seq<Call>, k: nat)
    requires k < |calls| && HeapAt(start, calls[..k])
    ensures HeapAt(start, calls[..k + 1]) <==> GuardAt(start, calls, k)
  {
    assert calls[..k + 1][..k] == calls[..k];
    GuardIff(Reached(start, calls[..k]), calls[k]);
    hide HeapOrdered, After, Guard;
  }

  lemma {:induction false} GuardedIsHeap(start: int, calls: seq<Call>, k: nat)
    requires k <= |calls| && forall i :: 0 <= i < k ==> GuardAt(start, calls, i)
    ensures HeapAt(start, calls[..k])
  {
    if k > 0 {
      GuardedIsHeap(start, calls, k - 1);
      OneMore(start, calls, k - 1);
    }
  }

  /** Every state of a run is a heap if and only if every call meets its guard. */
  lemma HeapRunIff(start: int, calls: seq<Call>)
    ensures (forall k :: 0 <= k <= |calls| ==> HeapAt(start, calls[..k])) <==>
            (forall k :: 0 <= k < |calls| ==> GuardAt(start, calls, k))
  {
    if forall k :: 0 <= k < |calls| ==> GuardAt(start, calls, k) {
      forall k | 0 <= k <= |calls| ensures HeapAt(start, calls[..k]) {
        GuardedIsHeap(start, calls, k);
      }
    } else {
      var k :| 0 <= k < |calls| && !GuardAt(start, calls, k);
      if HeapAt(start, calls[..k]) {
        OneMore(start, calls, k);
        assert !HeapAt(start, calls[..k + 1]);
      }
    }
  }

  /**
   In a run whose calls meet their guards, no unlocked queue has a smaller head priority than one that is
   granted, but for the order beyond the safe integers under a locked root.
   */
  lemma GrantsAreLeast(start: int, calls: seq<Call>, k: nat, e: Discriminator)
    requires k < |calls| && forall i :: 0 <= i < k ==> GuardAt(start, calls, i)
    requires calls[k].Grant? && Accepted(Reached(start, calls[..k]), calls[k])
    requires var m := Reached(start, calls[..k]); e in m.view.heap && !Unexpired(m.view, e, m.now)
    ensures var v := Reached(start, calls[..k]).view;
      || Fifo(v, calls[k].d)[0].priority <= Fifo(v, e)[0].priority
      || (Unexpired(v, v.heap[0], Reached(start, calls[..k]).now)
          && MAX_SAFE_INTEGER <= Fifo(v, e)[0].priority < Fifo(v, calls[k].d)[0].priority)
  {
    GuardedIsHeap(start, calls, k);
    var m := Reached(start, calls[..k]);
    NextIsLeast(m.view, m.now, calls[k].d, e);
  }

  // ---------- Runs with safe priorities ----------

  /** The call writes no priority beyond 2 ^ 53 - 1. */
  predicate Safe(call: Call) {
    && (call.Enqueue? ==> call.entry.priority <= 9007199254740991)
    && (call.Defer? ==> call.priority <= 9007199254740991)
  }

  ghost predicate SafeView(v: View) {
    forall d, k :: d in v.fifo && 0 <= k < |v.fifo[d]| ==> v.fifo[d][k].priority <= 9007199254740991
  }

  lemma SafeReordered(v: View, w: View)
    requires SafeView(v) && Reordered(v, w)
    ensures SafeView(w)
  {}

  lemma SafeChanges(v: View, d: Discriminator)
    requires Inv(v) && SafeView(v) && d in v.heap
    ensures SafeView(AfterAcknowledge(v, d))
    ensures forall lock: Lock :: SafeView(AfterLock(v, d, lock))
    ensures forall k: nat :: k < |Fifo(v, d)| ==> SafeView(AfterRemove(v, d, k))
  {}

  lemma SafeEnqueue(v: View, d: Discriminator, e: Entry)
    requires SafeView(v) && e.priority <= 9007199254740991
    ensures SafeView(AfterEnqueue(v, d, e))
  {}

  /** What an accepted call changes but for the order of the heap. */
  ghost function Changed(m: Moment, call: Call): View
    requires Inv(m.view) && Accepted(m, call)
  {
    match call
    case Enqueue(d, entry) => AfterEnqueue(m.view, d, entry)
    case Grant(d, lock) => AfterLock(m.view, d, lock)
    case Renew(d, lock) => AfterLock(m.view, d, lock)
    case Acknowledge(d) => AfterAcknowledge(m.view, d)
    case Defer(d, priority) => AfterDefer(m.view, d, priority)
    case Remove(d, k) => AfterRemove(m.view, d, k)
    case Wait(_) => m.view
  }

  lemma EffectReorders(m: Moment, call: Call)
    requires Inv(m.view) && Accepted(m, call)
    ensures Effect(m, call).Some? ==> Reordered(Changed(m, call), Effect(m, call).value)
  {
    var v := m.view;
    match call
    case Acknowledge(d) => if Effect(m, call).Some? { AcknowledgedReorders(v, m.now, d); }
    case Defer(d, priority) => if Effect(m, call).Some? { DeferReorders(v, m.now, d, priority); }
    case Remove(d, k) => if Effect(m, call).Some? { RemoveReorders(v, m.now, d, k); }
    case _ =>
  }

  lemma DeferReorders(v: View, now: int, d: Discriminator, priority: int)
    requires Inv(v) && d in v.heap && Deferred(v, now, d, priority).Some?
    ensures Reordered(AfterDefer(v, d, priority), Deferred(v, now, d, priority).value)
  {
    var e := Entry(v.fifo[d][0].item, priority);
    AcknowledgedReorders(v, now, d);
    AcknowledgeKeepsInv(v, d);
    var u := Acknowledged(v, now, d).value;
    assert Deferred(v, now, d, priority).value == Enqueued(u, now, d, e);
    assert AfterDefer(v, d, priority) == AfterEnqueue(AfterAcknowledge(v, d), d, e);
    hide Reordered, AfterEnqueue, AfterAcknowledge, AfterDefer, Deferred, Acknowledged;
    ReorderedEnqueue(AfterAcknowledge(v, d), u, d, e);
    ReorderedTransitive(AfterEnqueue(AfterAcknowledge(v, d), d, e), AfterEnqueue(u, d, e), Enqueued(u, now, d, e));
  }

  lemma RemoveReorders(v: View, now: int, d: Discriminator, k: nat)
    requires Inv(v) && d in v.heap && k < |Fifo(v, d)| && Removed(v, now, d, k).Some?
    ensures Reordered(AfterRemove(v, d, k), Removed(v, now, d, k).value)
  {
    RemoveKeepsInv(v, d, k);
    ReorderedReflexive(AfterRemove(v, d, k));
    if 1 < |v.fifo[d]| && k == 0 {
      var w := RepairedDown(AfterRemove(v, d, 0), now, IndexOf(v.heap, d)).value;
      ReorderedTransitive(AfterRemove(v, d, 0), w, RepairedUp(w, now, IndexOf(w.heap, d)));
    }
  }

  lemma SafeEffect(m: Moment, call: Call)
    requires Inv(m.view) && SafeView(m.view) && Safe(call) && Accepted(m, call)
    ensures Effect(m, call).Some? ==> SafeView(Effect(m, call).value)
  {
    SafeChanged(m, call);
    EffectReorders(m, call);
    if Effect(m, call).Some? {
      hide SafeView, Changed, Effect, Reordered;
      SafeReordered(Changed(m, call), Effect(m, call).value);
    }
  }

  lemma SafeChanged(m: Moment, call: Call)
    requires Inv(m.view) && SafeView(m.view) && Safe(call) && Accepted(m, call)
    ensures SafeView(Changed(m, call))
  {
    match call
    case Enqueue(d, entry) => SafeEnqueue(m.view, d, entry);
    case Wait(_) =>
    case Defer(d, priority) =>
      SafeChanges(m.view, d);
      SafeEnqueue(AfterAcknowledge(m.view, d), d, Entry(m.view.fifo[d][0].item, priority));
    case _ => SafeChanges(m.view, call.d);
    hide *;
  }

  lemma {:induction false} SafeReached(start: int, calls: seq<Call>)
    requires forall i :: 0 <= i < |calls| ==> Safe(calls[i])
    ensures SafeView(Reached(start, calls).view)
  {
    if calls != [] {
      var n := |calls| - 1;
      SafeReached(start, calls[..n]);
      var m := Reached(start, calls[..n]);
      if Accepted(m, calls[n]) {
        SafeEffect(m, calls[n]);
      }
      hide SafeView, Effect, Accepted;
    }
  }

  /**
   With priorities up to 2 ^ 53 - 1, and in a run whose calls meet their guards, every grant is of a queue
   with the least head priority among the unlocked ones.
   */
  lemma SafeGrantsAreLeast(start: int, calls: seq<Call>, k: nat, e: Discriminator)
    requires forall i :: 0 <= i < |calls| ==> Safe(calls[i])
    requires k < |calls| && forall i :: 0 <= i < k ==> GuardAt(start, calls, i)
    requires calls[k].Grant? && Accepted(Reached(start, calls[..k]), calls[k])
    requires var m := Reached(start, calls[..k]); e in m.view.heap && !Unexpired(m.view, e, m.now)
    ensures var v := Reached(start, calls[..k]).view;
      Fifo(v, calls[k].d)[0].priority <= Fifo(v, e)[0].priority
  {
    GuardedIsHeap(start, calls, k);
    SafeReached(start, calls[..k]);
    var m := Reached(start, calls[..k]);
    NextIsLeastOfSafe(m.view, m.now, calls[k].d, e);
  }

  /** With such priorities no call throws, whether or not the calls meet their guards. */
  lemma SafeNeverThrows(start: int, calls: seq<Call>, k: nat)
    requires forall i :: 0 <= i < |calls| ==> Safe(calls[i])
    requires k < |calls| && Accepted(Reached(start, calls[..k]), calls[k])
    ensures !Throws(Reached(start, calls[..k]), calls[k])
  {
    SafeReached(start, calls[..k]);
    var m := Reached(start, calls[..k]);
    BoundedMeans(m.view);
    hide SafeView, Inv, Bounded, LockFalls, AcknowledgeFalls, RemoveFalls;
    match calls[k]
    case Grant(d, lock) => BoundedFalls(m, d, lock.until, 0);
    case Renew(d, lock) => BoundedFalls(m, d, lock.until, 0);
    case Acknowledge(d) => BoundedFalls(m, d, 0, 0);
    case Defer(d, _) => BoundedFalls(m, d, 0, 0);
    case Remove(d, n) => BoundedFalls(m, d, 0, n);
    case _ =>
  }

  lemma BoundedFalls(m: Moment, d: Discriminator, until: int, n: nat)
    requires Inv(m.view) && Bounded(m.view) && d in m.view.heap
    ensures !LockFalls(m.view, m.now, d, until) && !AcknowledgeFalls(m.view, m.now, d)
    ensures n < |Fifo(m.view, d)| ==> !RemoveFalls(m.view, m.now, d, n)
  {
    assert 0 < |Fifo(m.view, d)|;
    BoundedNeverFalls(m.view, m.now, d, until, if n < |Fifo(m.view, d)| then n else 0);
  }
}
