/**
 Which elements a climbing element can touch, and why appending one does not mend the heap that removing
 an element has left wrong.
 */
module HeapClimb {
  import opened HeapOrder

  /** The sequence after repairing element k upwards. */
  function Risen(p: seq<int>, k: nat): (q: seq<int>)
    requires k < |p|
    ensures |q| == |p|
    decreases k
  {
    if k == 0 || p[Parent(k)] <= p[k] then p else Risen(Swap(p, k, Parent(k)), Parent(k))
  }

  /** Slot s is slot k or one of the slots above it. */
  predicate Above(s: nat, k: nat)
    decreases k
  {
    s == k || (s < k && Above(s, Parent(k)))
  }

  /** A climb touches only slots above its start. */
  lemma {:induction false} Untouched(p: seq<int>, k: nat, s: nat)
    requires k < |p| && s < |p| && !Above(s, k)
    ensures Risen(p, k)[s] == p[s]
    decreases k
  {
    if k > 0 && p[Parent(k)] > p[k] {
      assert s != Parent(k);
      if s > k { NotAbove(s, Parent(k)); }
      Untouched(Swap(p, k, Parent(k)), Parent(k), s);
    }
  }

  lemma NotAbove(s: nat, k: nat)
    requires s > k
    ensures !Above(s, k)
  {}

  /** In a heap, an element is no larger than those below it. */
  lemma {:induction false} AboveIsLess(p: seq<int>, s: nat, k: nat)
    requires k < |p| && Ordered(p) && Above(s, k)
    ensures s <= k && p[s] <= p[k]
    decreases k
  {
    if s < k {
      AboveIsLess(p, s, Parent(k));
      assert Edge(p, k);
    }
  }

  /**
   Removing element i from a heap leaves the edge into slot i wrong when the last element, which fills
   the slot, is smaller than the parent. The freed last slot is then below neither end of that edge, so
   no element appended there climbs past it.
   */
  lemma AppendDoesNotMend(p: seq<int>, i: nat, x: int)
    requires 0 < i < |p| - 1 && Ordered(p) && p[|p| - 1] < p[Parent(i)]
    ensures !Ordered(Risen(Unseated(p, i) + [x], |p| - 1))
  {
    var q, n := Unseated(p, i) + [x], |p| - 1;
    assert Edge(p, i);
    forall s | s == i || s == Parent(i) ensures Risen(q, n)[s] == q[s] {
      if Above(s, n) { AboveIsLess(p, s, n); }
      Untouched(q, n, s);
    }
    assert !Edge(Risen(q, n), i);
  }
}
