/**
 When repairing down leaves the heap: exactly on which priorities an element sinks to a slot that has a
 left child only and is then swapped with the right child that does not exist.
 */
module HeapDescent {
  import opened HeapOrder

  /**
   On the way down from slot i to slot k, each slot holds an element that is smaller than element i and
   is preferred to the other child of its parent, the left one where both are equal.
   */
  predicate WayDown(p: seq<int>, i: nat, k: nat)
    requires i < |p| && 2 * k + 1 < |p|
    decreases k
  {
    || i == k
    || (i < k && p[k] < p[i] && (if k % 2 == 1 then p[k] <= p[k + 1] else p[k] < p[k - 1])
        && WayDown(p, i, Parent(k)))
  }

  /**
   The last slot is an only child; its element and element i are beyond the safe integers, and the way
   down from slot i leads to its parent.
   */
  predicate FallsOff(p: seq<int>, i: nat)
    requires i < |p|
  {
    && |p| % 2 == 0 && MAX_SAFE_INTEGER < p[i] && MAX_SAFE_INTEGER < p[|p| - 1]
    && WayDown(p, i, Parent(|p| - 1))
  }

  lemma {:induction false} WayDownBounds(p: seq<int>, i: nat, k: nat)
    requires i < |p| && 2 * k + 1 < |p| && WayDown(p, i, k)
    ensures i <= k
    decreases k
  {
    if i != k { WayDownBounds(p, i, Parent(k)); }
  }

  /** It takes two elements beyond the safe integers to fall off. */
  lemma FallsOffNeedsTwo(p: seq<int>, i: nat)
    requires i < |p| && FallsOff(p, i)
    ensures i < |p| - 1 && MAX_SAFE_INTEGER < p[i] && MAX_SAFE_INTEGER < p[|p| - 1]
  {
    WayDownBounds(p, i, Parent(|p| - 1));
  }

  /** The way down begins with the child that the code chooses, and goes on from there after the swap. */
  lemma {:induction false} WayDownBegins(p: seq<int>, i: nat, k: nat) returns (c: nat)
    requires i < k && 2 * k + 1 < |p| && WayDown(p, i, k) && MAX_SAFE_INTEGER < p[i]
    ensures SinkChoice(p, i) == Into(c) && i < c <= k && Parent(c) == i
    ensures WayDown(Swap(p, i, c), c, k)
    decreases k
  {
    if Parent(k) == i {
      c := k;
    } else {
      WayDownBounds(p, i, Parent(k));
      c := WayDownBegins(p, i, Parent(k));
    }
  }

  /** And a way down from the chosen child after the swap is one from slot i before it. */
  lemma {:induction false} WayDownExtends(p: seq<int>, i: nat, c: nat, k: nat)
    requires i < |p| && SinkChoice(p, i) == Into(c) && 2 * k + 1 < |p|
    requires WayDown(Swap(p, i, c), c, k)
    ensures WayDown(p, i, k)
    decreases k
  {
    WayDownBounds(Swap(p, i, c), c, k);
    if c < k {
      WayDownBounds(Swap(p, i, c), c, Parent(k));
      WayDownExtends(p, i, c, Parent(k));
    }
  }

  /** The fault is there already at the parent of the last slot, or is handed on to the chosen child. */
  lemma FallsOffDown(p: seq<int>, i: nat)
    requires i < |p| && FallsOff(p, i)
    ensures match SinkChoice(p, i)
      case Stay => false
      case Into(c) => FallsOff(Swap(p, i, c), c)
      case MissingRight => true
  {
    var k := Parent(|p| - 1);
    if i != k {
      WayDownBounds(p, i, k);
      var c := WayDownBegins(p, i, k);
    }
  }

  lemma FallsOffUp(p: seq<int>, i: nat, c: nat)
    requires i < |p| && SinkChoice(p, i) == Into(c) && FallsOff(Swap(p, i, c), c)
    ensures FallsOff(p, i)
  {
    var q, k := Swap(p, i, c), Parent(|p| - 1);
    WayDownBounds(q, c, k);
    WayDownExtends(p, i, c, k);
  }

  /** One step of the descent neither makes nor mends the fault. */
  lemma FallsOffStep(p: seq<int>, i: nat)
    requires i < |p|
    ensures match SinkChoice(p, i)
      case Stay => !FallsOff(p, i)
      case Into(c) => FallsOff(p, i) <==> FallsOff(Swap(p, i, c), c)
      case MissingRight => FallsOff(p, i)
  {
    if FallsOff(p, i) { FallsOffDown(p, i); }
    match SinkChoice(p, i)
    case Into(c) => if FallsOff(Swap(p, i, c), c) { FallsOffUp(p, i, c); }
    case _ =>
  }
}
