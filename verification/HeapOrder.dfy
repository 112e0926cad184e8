/**
 Heap order on a sequence of priorities, and the two repair steps that move one element up or down.
 */
module HeapOrder {
  const MAX_SAFE_INTEGER: int := 0x1F_FFFF_FFFF_FFFF

  function Parent(i: nat): nat
    requires 0 < i
  {
    (i - 1) / 2
  }

  function Swap<T>(p: seq<T>, i: nat, j: nat): (r: seq<T>)
    requires i < |p| && j < |p|
  {
    p[i := p[j]][j := p[i]]
  }

  predicate Edge(p: seq<int>, j: nat)
    requires 0 < j < |p|
  {
    p[Parent(j)] <= p[j]
  }

  predicate Ordered(p: seq<int>) {
    forall j :: 0 < j < |p| ==> Edge(p, j)
  }

  /** Element j is no smaller than its grandparent, if it has one. */
  predicate Bridge(p: seq<int>, j: nat)
    requires 0 < j < |p|
  {
    0 < Parent(j) ==> p[Parent(Parent(j))] <= p[j]
  }

  /** Heap order on every edge, except the edges that lead into a free element. */
  predicate OrderedBut(p: seq<int>, free: seq<bool>)
    requires |p| == |free|
  {
    forall j :: 0 < j < |p| && !free[j] ==> Edge(p, j)
  }

  /**
   Element i may be smaller than its parent, a free element may be smaller than its own, and nothing
   else is wrong: the elements below i, and those below a free element that i may still meet on its
   way up, are no smaller than their grandparent.
   */
  predicate MayRise(p: seq<int>, free: seq<bool>, i: nat)
    requires |p| == |free| && i < |p|
  {
    && (forall j :: 0 < j < |p| && !free[j] && j != i ==> Edge(p, j))
    && (forall j :: 0 < j < |p| && !free[j] && j != i && (Parent(j) == i || (Parent(j) < i && free[Parent(j)]))
          ==> Bridge(p, j))
  }

  lemma RiseEnds(p: seq<int>, free: seq<bool>, i: nat)
    requires |p| == |free| && i < |p| && MayRise(p, free, i)
    requires i == 0 || p[Parent(i)] <= p[i]
    ensures OrderedBut(p, free)
  {}

  lemma RiseStep(p: seq<int>, free: seq<bool>, i: nat)
    requires |p| == |free| && 0 < i < |p| && MayRise(p, free, i) && !free[i]
    requires p[Parent(i)] > p[i]
    ensures MayRise(Swap(p, i, Parent(i)), Swap(free, i, Parent(i)), Parent(i))
  {
    var k := Parent(i);
    var q, g := Swap(p, i, k), Swap(free, i, k);
    forall j | 0 < j < |p| && !g[j] && j != k ensures Edge(q, j) {
      if j == i {
      } else if Parent(j) == k {
        assert Edge(p, j);
      } else if Parent(j) == i {
        assert Bridge(p, j);
      } else {
        assert Edge(p, j);
      }
    }
    forall j | 0 < j < |q| && !g[j] && j != k && (Parent(j) == k || (Parent(j) < k && g[Parent(j)]))
      ensures Bridge(q, j)
    {
      if Parent(j) == k && 0 < k {
        if j == i {
          assert Edge(p, k);
        } else if free[k] {
          assert Bridge(p, j);
        } else {
          assert Edge(p, k) && Edge(p, j);
        }
      } else if 0 < Parent(j) {
        assert Bridge(p, j);
      }
    }
  }

  /**
   Element i may be larger than its children and smaller than its parent; nothing else is wrong, and
   the children of i are no smaller than their grandparent.
   */
  predicate MaySink(p: seq<int>, i: nat)
    requires i < |p|
  {
    && (forall j :: 0 < j < |p| && j != i && Parent(j) != i ==> Edge(p, j))
    && (forall j :: 0 < j < |p| && Parent(j) == i ==> Bridge(p, j))
  }

  lemma SinkStep(p: seq<int>, i: nat, c: nat)
    requires i < |p| && MaySink(p, i)
    requires 0 < c < |p| && Parent(c) == i && p[c] < p[i]
    requires forall j :: 0 < j < |p| && Parent(j) == i ==> p[c] <= p[j]
    ensures MaySink(Swap(p, i, c), c)
    ensures Edge(Swap(p, i, c), c) && (i == 0 || Edge(p, i))
  {
    var q := Swap(p, i, c);
    assert Bridge(p, c);
    forall j | 0 < j < |p| && j != c && Parent(j) != c ensures Edge(q, j) {
      if j != i && Parent(j) != i { assert Edge(p, j); }
    }
    forall j | 0 < j < |p| && Parent(j) == c ensures Bridge(q, j) {
      assert Edge(p, j);
    }
  }

  /** Which child the code swaps element i with; `MissingRight` is a right child that does not exist. */
  datatype Sink = Stay | Into(child: nat) | MissingRight

  function SinkChoice(p: seq<int>, i: nat): (c: Sink)
    requires i < |p|
    ensures c.Into? ==> 0 < c.child < |p| && Parent(c.child) == i && p[c.child] < p[i]
    ensures c.Into? ==> forall j :: 0 < j < |p| && Parent(j) == i ==> p[c.child] <= p[j]
    ensures c.Stay? ==> forall j :: 0 < j < |p| && Parent(j) == i ==> Edge(p, j)
    ensures c.MissingRight? <==>
      2 * i + 2 == |p| && p[i] > MAX_SAFE_INTEGER && p[2 * i + 1] > MAX_SAFE_INTEGER
  {
    var left, right := 2 * i + 1, 2 * i + 2;
    if left >= |p| then Stay
    else
      var rightPriority := if right < |p| then p[right] else MAX_SAFE_INTEGER;
      if p[i] <= p[left] && p[i] <= rightPriority then Stay
      else if p[left] <= rightPriority then Into(left)
      else if right < |p| then Into(right)
      else MissingRight
  }

  // ---------- Changing a heap in one place ----------

  /** The sequence without element i: the last element moves there, unless element i is the last one. */
  function Unseated<T>(p: seq<T>, i: nat): (r: seq<T>)
    requires i < |p|
    ensures |r| == |p| - 1
    ensures forall k :: 0 <= k < |r| ==> r[k] == if k == i then p[|p| - 1] else p[k]
  {
    var count := |p| - 1;
    if i >= count then p[..count] else p[..count][i := p[count]]
  }

  function NoneFree(p: seq<int>): (free: seq<bool>)
    ensures |free| == |p| && forall i :: 0 <= i < |p| ==> !free[i]
  {
    seq(|p|, _ => false)
  }

  lemma ChangedMaySink(p: seq<int>, i: nat, x: int)
    requires i < |p| && Ordered(p)
    ensures MaySink(p[i := x], i)
  {
    var q := p[i := x];
    forall j | 0 < j < |p| && j != i && Parent(j) != i ensures Edge(q, j) {
      assert Edge(p, j);
    }
    forall j | 0 < j < |p| && Parent(j) == i ensures Bridge(q, j) {
      if 0 < i { assert Edge(p, j) && Edge(p, i); }
    }
  }

  lemma UnseatedMaySink(p: seq<int>, i: nat)
    requires i < |p| - 1 && Ordered(p)
    ensures MaySink(Unseated(p, i), i)
  {
    ChangedMaySink(p, i, p[|p| - 1]);
    var q := p[i := p[|p| - 1]];
    var r := Unseated(p, i);
    assert r == q[..|r|];
    forall j | 0 < j < |r| && j != i && Parent(j) != i ensures Edge(r, j) {
      assert Edge(q, j);
    }
    forall j | 0 < j < |r| && Parent(j) == i ensures Bridge(r, j) {
      assert Bridge(q, j);
    }
  }

  lemma UnseatedMayRise(p: seq<int>, i: nat)
    requires 0 < i < |p| - 1 && Ordered(p) && p[|p| - 1] <= p[Parent(i)]
    ensures MayRise(Unseated(p, i), NoneFree(Unseated(p, i)), i)
  {
    LoweredMayRise(p, i, p[|p| - 1]);
    var q, r := p[i := p[|p| - 1]], Unseated(p, i);
    assert r == q[..|r|];
    forall j | 0 < j < |r| && j != i ensures Edge(r, j) {
      assert Edge(q, j);
    }
    forall j | 0 < j < |r| && Parent(j) == i ensures Bridge(r, j) {
      assert Bridge(q, j);
    }
  }

  lemma UnseatedLast(p: seq<int>)
    requires 0 < |p| && Ordered(p)
    ensures Ordered(Unseated(p, |p| - 1))
  {
    var r := Unseated(p, |p| - 1);
    forall j | 0 < j < |r| ensures Edge(r, j) {
      assert Edge(p, j);
    }
  }

  /** An element that has become smaller than its parent can be repaired upwards. */
  lemma LoweredMayRise(p: seq<int>, i: nat, x: int)
    requires 0 < i < |p| && Ordered(p) && x <= p[Parent(i)]
    ensures MayRise(p[i := x], NoneFree(p), i)
  {
    var q := p[i := x];
    assert Edge(p, i);
    forall j | 0 < j < |p| && j != i ensures Edge(q, j) {
      assert Edge(p, j);
    }
    forall j | 0 < j < |p| && Parent(j) == i ensures Bridge(q, j) {
      assert Edge(p, j);
    }
  }

  /** An element appended to a sequence that is a heap, but for some free elements, can be repaired upwards. */
  lemma AppendedMayRise(p: seq<int>, free: seq<bool>, x: int)
    requires |free| == |p| && OrderedBut(p, free)
    requires forall j :: 0 < j < |p| && !free[j] && free[Parent(j)] ==> Bridge(p, j)
    ensures MayRise(p + [x], free + [false], |p|)
  {
    var q, g := p + [x], free + [false];
    forall j | 0 < j < |q| && !g[j] && j != |p| ensures Edge(q, j) {
      assert Edge(p, j);
    }
    forall j | 0 < j < |q| && !g[j] && j != |p| && (Parent(j) == |p| || (Parent(j) < |p| && g[Parent(j)]))
      ensures Bridge(q, j)
    {
      assert Bridge(p, j);
    }
  }

  /** The root is no larger than any other element. */
  lemma {:induction false} RootIsLeast(p: seq<int>, j: nat)
    requires j < |p| && Ordered(p)
    ensures p[0] <= p[j]
    decreases j
  {
    if 0 < j {
      assert Edge(p, j);
      RootIsLeast(p, Parent(j));
    }
  }
}
