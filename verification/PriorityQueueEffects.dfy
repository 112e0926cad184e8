/**
 What each operation does to the queue it is called for, said outright: its items, its lock and whether
 it is in the heap afterwards. The other queues keep all three, and only their order in the heap may change.
 */
module PriorityQueueEffects {
  import opened PriorityQueueSpec

  /** The queue of d has the same items and the same lock, and is in the heap if it was. */
  ghost predicate SameQueue(v: View, w: View, d: Discriminator) {
    && Fifo(w, d) == Fifo(v, d) && (d in w.heap <==> d in v.heap)
    && (d in w.locks <==> d in v.locks) && (d in v.locks ==> w.locks[d] == v.locks[d])
  }

  ghost predicate OthersSame(v: View, w: View, d: Discriminator) {
    forall x :: x != d ==> SameQueue(v, w, x)
  }

  lemma EnqueueEffect(v: View, d: Discriminator, e: Entry, w: View)
    requires Inv(v) && Reordered(AfterEnqueue(v, d, e), w)
    ensures Fifo(w, d) == Fifo(v, d) + [e] && d in w.heap
    ensures d in w.locks <==> d in v.locks
    ensures d in v.locks ==> w.locks[d] == v.locks[d]
    ensures OthersSame(v, w, d)
  {
    EnqueueElements(v.heap, d);
  }

  lemma EnqueueElements(heap: seq<Discriminator>, d: Discriminator)
    ensures forall x :: x in heap + [d] <==> x in heap || x == d
  {}

  lemma LockEffect(v: View, d: Discriminator, lock: Lock, w: View)
    requires d in v.heap && Reordered(AfterLock(v, d, lock), w)
    ensures Fifo(w, d) == Fifo(v, d) && d in w.heap && d in w.locks && w.locks[d] == lock
    ensures OthersSame(v, w, d)
  {}

  lemma AcknowledgeEffect(v: View, d: Discriminator, w: View)
    requires Inv(v) && d in v.heap && Reordered(AfterAcknowledge(v, d), w)
    ensures Fifo(v, d) != [] && Fifo(w, d) == Fifo(v, d)[1..] && d !in w.locks
    ensures d in w.heap <==> 1 < |Fifo(v, d)|
    ensures OthersSame(v, w, d)
  {
    UnseatedElements(v.heap, IndexOf(v.heap, d));
  }

  lemma DeferEffect(v: View, d: Discriminator, priority: int, w: View)
    requires Inv(v) && d in v.heap && Reordered(AfterDefer(v, d, priority), w)
    ensures Fifo(v, d) != [] && Fifo(w, d) == Fifo(v, d)[1..] + [Entry(Fifo(v, d)[0].item, priority)]
    ensures d in w.heap && d !in w.locks
    ensures OthersSame(v, w, d)
  {
    HasHead(v, d);
    var u, e := AfterAcknowledge(v, d), Entry(Fifo(v, d)[0].item, priority);
    assert AfterDefer(v, d, priority) == AfterEnqueue(u, d, e);
    hide Reordered, AfterAcknowledge, AfterEnqueue, AfterDefer, Inv, SameQueue, Fifo;
    AcknowledgeKeepsInv(v, d);
    ReorderedReflexive(u);
    AcknowledgeEffect(v, d, u);
    EnqueueEffect(u, d, e, w);
    SameTransitive(v, u, w, d);
  }

  lemma HasHead(v: View, d: Discriminator)
    requires Inv(v) && d in v.heap
    ensures Fifo(v, d) != [] && d in v.fifo
  {}

  lemma SameTransitive(u: View, v: View, w: View, d: Discriminator)
    requires OthersSame(u, v, d) && OthersSame(v, w, d)
    ensures OthersSame(u, w, d)
  {
    forall x | x != d ensures SameQueue(u, w, x) {
      assert SameQueue(u, v, x) && SameQueue(v, w, x);
    }
  }

  lemma RemoveEffect(v: View, d: Discriminator, k: nat, w: View)
    requires Inv(v) && d in v.heap && k < |Fifo(v, d)| && Reordered(AfterRemove(v, d, k), w)
    ensures |Fifo(v, d)| == 1 ==> Fifo(w, d) == Fifo(v, d) && d !in w.heap && d !in w.locks
    ensures 1 < |Fifo(v, d)| ==> Fifo(w, d) == Fifo(v, d)[..k] + Fifo(v, d)[k + 1..] && d in w.heap
    ensures 1 < |Fifo(v, d)| ==> (d in w.locks <==> d in v.locks) && (d in v.locks ==> w.locks[d] == v.locks[d])
    ensures OthersSame(v, w, d)
  {
    UnseatedElements(v.heap, IndexOf(v.heap, d));
  }
}
