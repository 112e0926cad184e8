/** The two tables of the priority queue store, and how they represent the abstract state. */
module PriorityQueueTables {
  import opened Wrappers
  import opened PriorityQueueSpec
  import opened TableQueries

  datatype QueueRow = QueueRow(indexInPriorityQueue: int, lock: Option<Lock>)

  type QueueTable = map<Discriminator, QueueRow>
  type ItemTable = map<(Discriminator, int), Entry>   // keyed by discriminator and indexInQueue

  // ---------- Representation ----------

  function LockOf(v: View, d: Discriminator): Option<Lock> {
    if d in v.locks then Some(v.locks[d]) else None
  }

  ghost predicate RepQueues(queues: QueueTable, v: View) {
    && (forall d :: d in queues <==> d in v.heap)
    && (forall d :: d in queues ==>
          && 0 <= queues[d].indexInPriorityQueue < |v.heap|
          && v.heap[queues[d].indexInPriorityQueue] == d
          && queues[d].lock == LockOf(v, d))
  }

  ghost predicate RepItemAt(items: ItemTable, v: View, d: Discriminator, k: int) {
    && ((d, k) in items <==> 0 <= k < |Fifo(v, d)|)
    && ((d, k) in items ==> items[(d, k)] == Fifo(v, d)[k])
  }

  /** The rows of d have the indices 0 .. n - 1 and hold its items in order; there are no other rows. */
  ghost predicate RepItems(items: ItemTable, v: View) {
    && (forall d, k :: RepItemAt(items, v, d, k))
    && (forall d :: d in v.fifo ==> v.fifo[d] != [])
  }

  /** Row by row, what the tables say about the state. */
  lemma RowsMean(queues: QueueTable, items: ItemTable, v: View, d: Discriminator)
    requires RepQueues(queues, v) && RepItems(items, v)
    ensures d in queues <==> d in v.heap
    ensures d in queues ==>
      var i := queues[d].indexInPriorityQueue; 0 <= i < |v.heap| && v.heap[i] == d
    ensures d in queues ==> queues[d].lock == if d in v.locks then Some(v.locks[d]) else None
    ensures forall k :: (d, k) in items <==> 0 <= k < |Fifo(v, d)|
    ensures forall k :: 0 <= k < |Fifo(v, d)| ==> items[(d, k)] == Fifo(v, d)[k]
  {
    forall k ensures (d, k) in items <==> 0 <= k < |Fifo(v, d)| { assert RepItemAt(items, v, d, k); }
    forall k | 0 <= k < |Fifo(v, d)| ensures items[(d, k)] == Fifo(v, d)[k] { assert RepItemAt(items, v, d, k); }
  }

  predicate Occupied(queues: QueueTable, i: int) {
    exists d :: d in queues && queues[d].indexInPriorityQueue == i
  }

  /** `indexInPriorityQueue` is a bijection between the queues and 0 .. n - 1. */
  lemma IndexIsBijection(queues: QueueTable, v: View)
    requires RepQueues(queues, v) && Distinct(v.heap)
    ensures |queues| == |v.heap|
    ensures forall d :: d in queues ==> 0 <= queues[d].indexInPriorityQueue < |queues|
    ensures forall i :: 0 <= i < |queues| ==> Occupied(queues, i)
    ensures forall d, e :: d in queues && e in queues && d != e ==>
      queues[d].indexInPriorityQueue != queues[e].indexInPriorityQueue
  {
    DistinctSize(v.heap);
    assert queues.Keys == set d | d in v.heap;
    forall i | 0 <= i < |queues| ensures Occupied(queues, i) {
      assert v.heap[i] in queues;
    }
  }

  lemma {:induction false} DistinctSize(s: seq<Discriminator>)
    requires Distinct(s)
    ensures |set d | d in s| == |s|
  {
    if s != [] {
      var rest, last := s[..|s| - 1], s[|s| - 1];
      DistinctSize(rest);
      assert s == rest + [last];
      assert (set d | d in s) == (set d | d in rest) + {last};
    }
  }

  lemma IndexIsIndexOf(queues: QueueTable, v: View, d: Discriminator)
    requires RepQueues(queues, v) && Distinct(v.heap) && d in queues
    ensures queues[d].indexInPriorityQueue == IndexOf(v.heap, d)
  {}

  // ---------- Changes to the queue table ----------

  lemma SwapRepresents(queues: QueueTable, v: View, d: Discriminator, e: Discriminator)
    requires RepQueues(queues, v) && Distinct(v.heap) && d in queues && e in queues && d != e
    ensures RepQueues(
      queues[d := queues[d].(indexInPriorityQueue := queues[e].indexInPriorityQueue)]
            [e := queues[e].(indexInPriorityQueue := queues[d].indexInPriorityQueue)],
      Swapped(v, queues[d].indexInPriorityQueue, queues[e].indexInPriorityQueue))
  {
    var i, j := queues[d].indexInPriorityQueue, queues[e].indexInPriorityQueue;
    var w := Swapped(v, i, j);
    assert w.heap[i] == e && w.heap[j] == d;
    SwappedElements(v.heap, i, j);
    forall x | x in queues && x != d && x != e
      ensures w.heap[queues[x].indexInPriorityQueue] == x
    {
      assert v.heap[queues[x].indexInPriorityQueue] == x;
    }
  }

  lemma SwappedElements(heap: seq<Discriminator>, i: nat, j: nat)
    requires i < |heap| && j < |heap|
    ensures forall x :: x in heap[i := heap[j]][j := heap[i]] <==> x in heap
  {
    var swapped := heap[i := heap[j]][j := heap[i]];
    forall x | x in heap ensures x in swapped {
      var k := IndexOf(heap, x);
      assert swapped[if k == i then j else if k == j then i else k] == x;
    }
  }

  /** The code swaps in three updates, with -1 as the index of the first queue in between. */
  lemma SwapInThreeUpdates(queues: QueueTable, d: Discriminator, e: Discriminator, i: int, j: int)
    requires d in queues && e in queues && d != e
    ensures queues[d := queues[d].(indexInPriorityQueue := -1)]
                  [e := queues[e].(indexInPriorityQueue := i)]
                  [d := queues[d].(indexInPriorityQueue := j)] ==
            queues[d := queues[d].(indexInPriorityQueue := j)]
                  [e := queues[e].(indexInPriorityQueue := i)]
  {}

  lemma AppendRepresents(queues: QueueTable, v: View, d: Discriminator, e: Entry)
    requires RepQueues(queues, v) && d !in queues && d !in v.locks
    ensures RepQueues(queues[d := QueueRow(|v.heap|, None)], AfterEnqueue(v, d, e))
  {
    var w := AfterEnqueue(v, d, e);
    assert w.heap[|v.heap|] == d;
    forall x | x in v.heap ensures x in w.heap {
      assert w.heap[IndexOf(v.heap, x)] == x;
    }
  }

  /** Removes the row of d and moves the row with the greatest index, if it is another one, to its index. */
  lemma TakeOutRepresents(queues: QueueTable, v: View, d: Discriminator)
    requires RepQueues(queues, v) && Distinct(v.heap) && d in queues
    ensures var i, last := IndexOf(v.heap, d), v.heap[|v.heap| - 1];
      RepQueues(
        if last == d then queues - {d} else (queues - {d})[last := queues[last].(indexInPriorityQueue := i)],
        WithoutQueue(v, d))
  {
    if v.heap[|v.heap| - 1] == d {
      TakeOutLast(queues, v, d);
    } else {
      TakeOutOther(queues, v, d);
    }
  }

  lemma TakeOutLast(queues: QueueTable, v: View, d: Discriminator)
    requires RepQueues(queues, v) && Distinct(v.heap) && d in queues && v.heap[|v.heap| - 1] == d
    ensures RepQueues(queues - {d}, WithoutQueue(v, d))
  {
    UnseatedElements(v.heap, IndexOf(v.heap, d));
  }

  lemma TakeOutOther(queues: QueueTable, v: View, d: Discriminator)
    requires RepQueues(queues, v) && Distinct(v.heap) && d in queues && v.heap[|v.heap| - 1] != d
    ensures var i, last := IndexOf(v.heap, d), v.heap[|v.heap| - 1];
      last in queues
      && RepQueues((queues - {d})[last := queues[last].(indexInPriorityQueue := i)], WithoutQueue(v, d))
  {
    var i, last := IndexOf(v.heap, d), v.heap[|v.heap| - 1];
    UnseatedElements(v.heap, i);
    var r, w := (queues - {d})[last := queues[last].(indexInPriorityQueue := i)], WithoutQueue(v, d);
    forall e | e in r
      ensures 0 <= r[e].indexInPriorityQueue < |w.heap| && w.heap[r[e].indexInPriorityQueue] == e
      ensures r[e].lock == LockOf(w, e)
    {
      assert e in queues && e != d;
    }
  }

  /** The row that moves is the one with the greatest index, which is the number of rows that remain. */
  lemma TakeOutFindsLast(queues: QueueTable, v: View, d: Discriminator)
    requires RepQueues(queues, v) && Distinct(v.heap) && d in queues
    ensures var i, count := queues[d].indexInPriorityQueue, |queues - {d}|;
      && i == IndexOf(v.heap, d) && count == |v.heap| - 1
      && (i >= count ==> RepQueues(queues - {d}, WithoutQueue(v, d)))
      && (i < count ==> exists e :: e in queues - {d} && queues[e].indexInPriorityQueue == count)
      && (i < count ==> forall e :: e in queues - {d} && queues[e].indexInPriorityQueue == count ==>
            && RepQueues((queues - {d})[e := queues[e].(indexInPriorityQueue := i)], WithoutQueue(v, d))
            && e in WithoutQueue(v, d).heap && IndexOf(WithoutQueue(v, d).heap, e) == i)
  {
    hide RepQueues, WithoutQueue;
    LastRow(queues, v, d);
    TakeOutRepresents(queues, v, d);
    if IndexOf(v.heap, d) < |v.heap| - 1 {
      RefilledSlot(v, d);
    }
  }

  lemma LastRow(queues: QueueTable, v: View, d: Discriminator)
    requires RepQueues(queues, v) && Distinct(v.heap) && d in queues
    ensures |queues - {d}| == |v.heap| - 1 && queues[d].indexInPriorityQueue == IndexOf(v.heap, d)
    ensures var last, count := v.heap[|v.heap| - 1], |v.heap| - 1;
      && (last == d <==> IndexOf(v.heap, d) == count)
      && last in queues && queues[last].indexInPriorityQueue == count
      && (forall e :: e in queues && queues[e].indexInPriorityQueue == count ==> e == last)
  {
    IndexIsBijection(queues, v);
    assert (queues - {d}).Keys == queues.Keys - {d};
  }

  lemma RefilledSlot(v: View, d: Discriminator)
    requires Distinct(v.heap) && d in v.heap && IndexOf(v.heap, d) < |v.heap| - 1
    ensures var w, last := WithoutQueue(v, d), v.heap[|v.heap| - 1];
      last in w.heap && IndexOf(w.heap, last) == IndexOf(v.heap, d)
  {
    UnseatedElements(v.heap, IndexOf(v.heap, d));
    assert WithoutQueue(v, d).heap[IndexOf(v.heap, d)] == v.heap[|v.heap| - 1];
  }

  function PositionsOf(queues: QueueTable): set<int> {
    set d | d in queues :: queues[d].indexInPriorityQueue
  }

  lemma PositionsAreRange(queues: QueueTable, v: View)
    requires RepQueues(queues, v) && Distinct(v.heap)
    ensures PositionsOf(queues) == Range(0, |v.heap|)
  {
    forall i ensures i in PositionsOf(queues) <==> i in Range(0, |v.heap|) {
      if 0 <= i < |v.heap| {
        assert v.heap[i] in queues && queues[v.heap[i]].indexInPriorityQueue == i;
      }
    }
  }

  // ---------- The query for the next queue to lock ----------

  /** WHERE "lockUntil" IS NULL OR "lockUntil" <= now */
  function Unlocked(queues: QueueTable, now: int): set<Discriminator> {
    set d | d in queues && (queues[d].lock.None? || queues[d].lock.value.until <= now)
  }

  lemma UnlockedIsEligible(queues: QueueTable, v: View, now: int)
    requires RepQueues(queues, v)
    ensures forall d :: d in Unlocked(queues, now) <==> d in v.heap && !Unexpired(v, d, now)
  {}

  /** ORDER BY "indexInPriorityQueue" ASC LIMIT 1 */
  method FindNext(queues: QueueTable, now: int, ghost v: View) returns (r: Option<Discriminator>)
    requires RepQueues(queues, v) && Distinct(v.heap)
    ensures r.None? ==> AllLocked(v, now)
    ensures r.Some? ==> IsNext(v, now, r.value) && r.value in queues
  {
    UnlockedIsEligible(queues, v, now);
    var candidates := Unlocked(queues, now);
    var positions := set d | d in candidates :: queues[d].indexInPriorityQueue;
    assert forall d :: d in candidates ==> queues[d].indexInPriorityQueue in positions;
    if positions == {} {
      return None;
    }
    var index := Least(positions);
    var d :| d in candidates && queues[d].indexInPriorityQueue == index;
    forall j | 0 <= j < index ensures Unexpired(v, v.heap[j], now) {
      assert queues[v.heap[j]].indexInPriorityQueue == j;
    }
    return Some(d);
  }

  // ---------- Changes to the item table ----------

  function IndicesOf(items: ItemTable, d: Discriminator): set<int> {
    set key | key in items && key.0 == d :: key.1
  }

  lemma IndicesAreRange(items: ItemTable, v: View, d: Discriminator)
    requires RepItems(items, v)
    ensures IndicesOf(items, d) == Range(0, |Fifo(v, d)|)
  {
    forall k ensures k in IndicesOf(items, d) <==> k in Range(0, |Fifo(v, d)|) {
      assert RepItemAt(items, v, d, k);
      if k in Range(0, |Fifo(v, d)|) { assert (d, k) in items; }
    }
  }

  /** The rows of d in the order of `indexInQueue`. */
  function RowsOf(items: ItemTable, d: Discriminator): seq<Entry> {
    var indices := InOrder(IndicesOf(items, d));
    seq(|indices|, k requires 0 <= k < |indices| =>
      if (d, indices[k]) in items then items[(d, indices[k])] else Entry("", 0))
  }

  lemma RowsAreFifo(items: ItemTable, v: View, d: Discriminator)
    requires RepItems(items, v)
    ensures RowsOf(items, d) == Fifo(v, d)
  {
    IndicesAreRange(items, v, d);
    InOrderOfRange(0, |Fifo(v, d)|);
    forall k | 0 <= k < |Fifo(v, d)| ensures RowsOf(items, d)[k] == Fifo(v, d)[k] {
      assert RepItemAt(items, v, d, k);
    }
  }

  lemma InsertRepresents(items: ItemTable, v: View, d: Discriminator, e: Entry)
    requires RepItems(items, v)
    ensures NextIndex(IndicesOf(items, d)) == |Fifo(v, d)|
    ensures RepItems(items[(d, |Fifo(v, d)|) := e], AfterEnqueue(v, d, e))
  {
    IndicesAreRange(items, v, d);
    NextIndexOfRange(|Fifo(v, d)|);
    var r, w := items[(d, |Fifo(v, d)|) := e], AfterEnqueue(v, d, e);
    forall x, k ensures RepItemAt(r, w, x, k) {
      assert RepItemAt(items, v, x, k);
      assert Fifo(w, x) == if x == d then Fifo(v, x) + [e] else Fifo(v, x);
    }
  }

  /** The rows of d that a decrement applies to: those with an index greater than `above`, or all. */
  predicate Applies(key: (Discriminator, int), d: Discriminator, above: Option<int>) {
    key.0 == d && (above.Some? ==> key.1 > above.value)
  }

  function Lowered(key: (Discriminator, int), d: Discriminator, above: Option<int>): (Discriminator, int) {
    if Applies(key, d, above) then (key.0, key.1 - 1) else key
  }

  function Raised(key: (Discriminator, int), d: Discriminator, above: Option<int>): (Discriminator, int) {
    if Applies((key.0, key.1 + 1), d, above) then (key.0, key.1 + 1) else key
  }

  ghost predicate IsDecremented(items: ItemTable, r: ItemTable, d: Discriminator, above: Option<int>) {
    forall key :: (key in r <==> Raised(key, d, above) in items)
               && (key in r ==> r[key] == items[Raised(key, d, above)])
  }

  /** UPDATE ... SET "indexInQueue" = "indexInQueue" - 1 */
  method Decrement(items: ItemTable, d: Discriminator, above: Option<int>) returns (r: ItemTable)
    requires above.Some? ==> (d, above.value) !in items
    ensures IsDecremented(items, r, d, above)
  {
    assert forall key :: key in items ==> Raised(Lowered(key, d, above), d, above) == key;
    assert forall key :: Raised(key, d, above) in items ==> Lowered(Raised(key, d, above), d, above) == key;
    r := map key | key in (set x | x in items :: Lowered(x, d, above)) :: items[Raised(key, d, above)];
  }

  lemma DropHeadRepresents(items: ItemTable, r: ItemTable, v: View, d: Discriminator)
    requires RepItems(items, v) && Fifo(v, d) != [] && IsDecremented(items - {(d, 0)}, r, d, None)
    ensures RepItems(r, WithoutHead(v, d))
  {
    var w := WithoutHead(v, d);
    assert RepItemAt(items, v, d, 0);
    forall e, k ensures RepItemAt(r, w, e, k) {
      var from := if e == d then (e, k + 1) else (e, k);
      assert Raised((e, k), d, None) == from;
      assert RepItemAt(items, v, from.0, from.1);
      assert Fifo(w, e) == if e == d then Fifo(v, e)[1..] else Fifo(v, e);
    }
  }

  lemma RemoveAtRepresents(items: ItemTable, r: ItemTable, v: View, d: Discriminator, k: nat)
    requires RepItems(items, v) && k < |Fifo(v, d)| && 1 < |Fifo(v, d)|
    requires IsDecremented(items - {(d, k)}, r, d, Some(k))
    ensures var fifo := v.fifo[d][..k] + v.fifo[d][k + 1..];
      RepItems(r, v.(fifo := v.fifo[d := fifo]))
  {
    var fifo := v.fifo[d][..k] + v.fifo[d][k + 1..];
    var w := v.(fifo := v.fifo[d := fifo]);
    forall e, j ensures RepItemAt(r, w, e, j) {
      if e == d {
        RemoveAtOwn(items, r, v, d, k, j);
      } else {
        assert Raised((e, j), d, Some(k)) == (e, j);
        assert RepItemAt(items, v, e, j);
      }
    }
  }

  lemma RemoveAtOwn(items: ItemTable, r: ItemTable, v: View, d: Discriminator, k: nat, j: int)
    requires RepItems(items, v) && k < |Fifo(v, d)| && 1 < |Fifo(v, d)|
    requires IsDecremented(items - {(d, k)}, r, d, Some(k))
    ensures RepItemAt(r, v.(fifo := v.fifo[d := v.fifo[d][..k] + v.fifo[d][k + 1..]]), d, j)
  {
    RowAfterRemoval(items, r, v, d, k, j);
    ShortenedAt(Fifo(v, d), k, j);
    hide RepItems, IsDecremented;
  }

  /** The row with index j was the one with index j, or j + 1 from the deleted row on. */
  lemma RowAfterRemoval(items: ItemTable, r: ItemTable, v: View, d: Discriminator, k: nat, j: int)
    requires RepItems(items, v) && k < |Fifo(v, d)|
    requires IsDecremented(items - {(d, k)}, r, d, Some(k))
    ensures var from := if j >= k then j + 1 else j;
      && ((d, j) in r <==> 0 <= from < |Fifo(v, d)|)
      && ((d, j) in r ==> r[(d, j)] == Fifo(v, d)[from])
  {
    var from := if j >= k then j + 1 else j;
    assert Raised((d, j), d, Some(k)) == (d, from);
    assert RepItemAt(items, v, d, from);
  }

  lemma ShortenedAt(fifo: seq<Entry>, k: nat, j: int)
    requires k < |fifo|
    ensures var rest, from := fifo[..k] + fifo[k + 1..], if j >= k then j + 1 else j;
      && (0 <= j < |rest| <==> 0 <= from < |fifo|)
      && (0 <= j < |rest| ==> rest[j] == fifo[from])
  {}
}
