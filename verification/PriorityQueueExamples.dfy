/** Inputs on which the store does not do what one might expect; the general lemmas say exactly when. */
module PriorityQueueExamples {
  import opened Wrappers
  import opened HeapOrder
  import opened HeapDescent
  import opened HeapRepair
  import opened PriorityQueueSpec
  import opened PriorityQueueProtocol
  import opened PriorityQueueRuns

  const EMPTY := View([], map[], map[])

  lemma SameView(v: View, w: View)
    requires v.heap == w.heap && v.locks == w.locks && v.fifo == w.fifo
    ensures v == w
  {}

  /** Two items of a and then one of b, all enqueued at one time. */
  lemma ThreeEnqueued(now: int, a: Discriminator, b: Discriminator, x: Entry, y: Entry, z: Entry)
    requires a != b && x.priority <= z.priority
    ensures Enqueued(Enqueued(Enqueued(EMPTY, now, a, x), now, a, y), now, b, z) ==
            View([a, b], map[], map[a := [x, y], b := [z]])
  {
    hide Inv;
    TwoEnqueued(now, a, x, y);
    var v2 := View([a], map[], map[a := [x, y]]);
    var w := View([a, b], map[], map[a := [x, y], b := [z]]);
    assert Fifo(v2, b) + [z] == [z];
    SameView(AfterEnqueue(v2, b, z), w);
    EnqueueKeepsInv(v2, b, z);
    assert Priorities(w, now)[0] == x.priority && Priorities(w, now)[1] == z.priority;
  }

  lemma FirstEnqueued(now: int, a: Discriminator, x: Entry)
    ensures Enqueued(EMPTY, now, a, x) == View([a], map[], map[a := [x]])
  {
    assert Fifo(EMPTY, a) + [x] == [x];
    SameView(Enqueued(EMPTY, now, a, x), View([a], map[], map[a := [x]]));
  }

  lemma TwoEnqueued(now: int, a: Discriminator, x: Entry, y: Entry)
    ensures Inv(EMPTY) && Inv(Enqueued(EMPTY, now, a, x))
    ensures Enqueued(Enqueued(EMPTY, now, a, x), now, a, y) == View([a], map[], map[a := [x, y]])
  {
    FirstEnqueued(now, a, x);
    var v1 := View([a], map[], map[a := [x]]);
    assert v1.heap[0] == a && Fifo(v1, a) + [y] == [x, y];
    SameView(AfterEnqueue(v1, a, y), View([a], map[], map[a := [x, y]]));
  }

  /** Locking a, the root, lets b rise to the root. */
  lemma RootLocked(now: int, a: Discriminator, b: Discriminator, x: Entry, y: Entry, z: Entry, lock: Lock)
    requires a != b && x.priority <= z.priority < MAX_SAFE_INTEGER && now < lock.until
    ensures var v := View([a, b], map[], map[a := [x, y], b := [z]]);
      && Inv(v) && HeapOrdered(v, now) && IsNext(v, now, a)
      && Locked(v, now, a, lock) == Some(View([b, a], map[a := lock], map[a := [x, y], b := [z]]))
  {
    var v := View([a, b], map[], map[a := [x, y], b := [z]]);
    assert v.heap[0] == a && v.heap[1] == b;
    assert Priorities(v, now)[0] == x.priority && Priorities(v, now)[1] == z.priority;
    assert Edge(Priorities(v, now), 1);
    LockedRootSinks(now, a, b, v.fifo, lock);
  }

  lemma LockedRootSinks(
      now: int, a: Discriminator, b: Discriminator, fifo: map<Discriminator, seq<Entry>>, lock: Lock)
    requires a != b && fifo.Keys == {a, b} && fifo[a] != [] && fifo[b] != []
    requires fifo[b][0].priority < MAX_SAFE_INTEGER && now < lock.until
    ensures var w := View([a, b], map[a := lock], fifo);
      Inv(w) && |w.heap| == 2 && RepairedDown(w, now, 0) == Some(View([b, a], map[a := lock], fifo))
  {
    var w := View([a, b], map[a := lock], fifo);
    assert w.heap[0] == a && w.heap[1] == b;
    assert Priorities(w, now)[0] == MAX_SAFE_INTEGER && Priorities(w, now)[1] == fifo[b][0].priority;
    assert SinkChoice(Priorities(w, now), 0) == Into(1);
    SwapKeeps(w, 0, 1);
    SameView(Swapped(w, 0, 1), View([b, a], map[a := lock], fifo));
  }

  /**
   Acknowledging then leaves a below b although its next item has the smaller priority, so that b is
   the next queue to be locked.
   */
  lemma AcknowledgeBreaksHeap(now: int, a: Discriminator, b: Discriminator, x: Entry, y: Entry, z: Entry, lock: Lock)
    requires a != b && y.priority < z.priority <= MAX_SAFE_INTEGER && now < lock.until
    ensures var v := View([b, a], map[a := lock], map[a := [x, y], b := [z]]);
      var w := View([b, a], map[], map[a := [y], b := [z]]);
      && Inv(v) && HeapOrdered(v, now) && Acknowledged(v, now, a) == Some(w)
      && Inv(w) && !HeapOrdered(w, now)
      && IsNext(w, now, b) && Fifo(w, a)[0].priority < Fifo(w, b)[0].priority
  {
    var v := View([b, a], map[a := lock], map[a := [x, y], b := [z]]);
    var w := View([b, a], map[], map[a := [y], b := [z]]);
    AcknowledgedView(now, a, b, x, y, z, lock);
    assert v.heap[0] == b && v.heap[1] == a;
    assert Priorities(v, now)[0] == z.priority && Priorities(v, now)[1] == MAX_SAFE_INTEGER;
    assert Edge(Priorities(v, now), 1);
    assert w.heap[0] == b && w.heap[1] == a;
    assert Priorities(w, now)[0] == z.priority && Priorities(w, now)[1] == y.priority;
    assert !Edge(Priorities(w, now), 1);
  }

  lemma AcknowledgedView(now: int, a: Discriminator, b: Discriminator, x: Entry, y: Entry, z: Entry, lock: Lock)
    requires a != b
    ensures var v := View([b, a], map[a := lock], map[a := [x, y], b := [z]]);
      Inv(v) && Acknowledged(v, now, a) == Some(View([b, a], map[], map[a := [y], b := [z]]))
  {
    var v := View([b, a], map[a := lock], map[a := [x, y], b := [z]]);
    assert v.heap[0] == b && v.heap[1] == a;
    SameView(AfterAcknowledge(v, a), View([b, a], map[], map[a := [y], b := [z]]));
  }

  // ---------- A call that fails ----------

  /**
   Beyond the safe integers the holder of a lock can neither acknowledge nor defer the item it was
   granted, at any time, and nobody can remove it: each attempt looks for a right child of a.
   */
  lemma HolderCannotAcknowledge(
      now: int, later: int, a: Discriminator, b: Discriminator, x: Entry, y: Entry, z: Entry, lock: Lock,
      priority: int)
    requires a != b && x.priority <= z.priority && now < lock.until
    requires MAX_SAFE_INTEGER < y.priority && MAX_SAFE_INTEGER < z.priority
    ensures var u := View([a, b], map[], map[a := [x, y], b := [z]]);
      var v := View([a, b], map[a := lock], map[a := [x, y], b := [z]]);
      && Inv(u) && IsNext(u, now, a) && Locked(u, now, a, lock) == Some(v)
      && Inv(v) && HeapOrdered(v, now)
      && Acknowledged(v, later, a).None? && Deferred(v, later, a, priority).None?
      && (lock.until <= later ==> Removed(v, later, a, 0).None?)
  {
    var u := View([a, b], map[], map[a := [x, y], b := [z]]);
    var v := View([a, b], map[a := lock], map[a := [x, y], b := [z]]);
    HolderFallsOff(now, a, b, x, y, z, lock);
    HolderFallsOff(later, a, b, x, y, z, lock);
    assert u.heap[0] == a && u.heap[1] == b;
    LockStays(u, now, a, lock);
    hide AcknowledgeFalls, RemoveFalls, Deferred, Acknowledged, Removed, Locked, Inv;
    DeferFallsIff(v, later, a, priority);
    AcknowledgeFallsIff(v, later, a);
    RemoveFallsIff(v, later, a, 0);
  }

  lemma HolderFallsOff(
      later: int, a: Discriminator, b: Discriminator, x: Entry, y: Entry, z: Entry, lock: Lock)
    requires a != b && MAX_SAFE_INTEGER < y.priority && MAX_SAFE_INTEGER < z.priority
    ensures var v := View([a, b], map[a := lock], map[a := [x, y], b := [z]]);
      && Inv(v) && AcknowledgeFalls(v, later, a)
      && (lock.until <= later ==> RemoveFalls(v, later, a, 0))
      && (later < lock.until ==> HeapOrdered(v, later))
  {
    var v := View([a, b], map[a := lock], map[a := [x, y], b := [z]]);
    assert v.heap[0] == a && v.heap[1] == b;
  }

  /** A queue that is no smaller than its parent when it is enqueued stays at the end. */
  lemma EnqueueStays(v: View, now: int, d: Discriminator, e: Entry)
    requires Inv(v) && d !in v.heap && d !in v.fifo
    requires v.heap != [] ==> Priorities(v, now)[Parent(|v.heap|)] <= e.priority
    ensures Enqueued(v, now, d, e) == View(v.heap + [d], v.locks, v.fifo[d := [e]])
  {
    assert Fifo(v, d) + [e] == [e];
    NewQueuePriorities(v, now, d, e);
  }

  /** A queue that is no larger than its children when it is locked stays where it is. */
  lemma LockStays(v: View, now: int, d: Discriminator, lock: Lock)
    requires Inv(v) && d in v.heap && now < lock.until
    requires forall j :: 0 < j < |v.heap| && Parent(j) == IndexOf(v.heap, d) ==>
      MAX_SAFE_INTEGER <= Priorities(v, now)[j]
    ensures Locked(v, now, d, lock) == Some(v.(locks := v.locks[d := lock]))
  {
    var i, w := IndexOf(v.heap, d), AfterLock(v, d, lock);
    OneChanged(v, w, now, d);
    assert SinkChoice(Priorities(w, now), i) == Stay;
  }

  // ---------- Time, renewal and the next queue ----------

  /** When the lock of a expires, b stays the root and is next, although the item of a comes first. */
  lemma ExpiryBreaksHeap(now: int, a: Discriminator, b: Discriminator, x: Entry, z: Entry, lock: Lock)
    requires a != b && x.priority < z.priority <= MAX_SAFE_INTEGER && now < lock.until
    ensures var v := View([b, a], map[a := lock], map[a := [x], b := [z]]);
      && Inv(v) && HeapOrdered(v, now) && !HeapOrdered(v, lock.until)
      && IsNext(v, lock.until, b) && !Unexpired(v, a, lock.until)
      && Fifo(v, a)[0].priority < Fifo(v, b)[0].priority
  {
    var v := View([b, a], map[a := lock], map[a := [x], b := [z]]);
    assert v.heap[0] == b && v.heap[1] == a;
    assert Priorities(v, now)[0] == z.priority && Priorities(v, now)[1] == MAX_SAFE_INTEGER;
    assert Edge(Priorities(v, now), 1);
    assert Priorities(v, lock.until)[0] == z.priority && Priorities(v, lock.until)[1] == x.priority;
    assert !Edge(Priorities(v, lock.until), 1);
  }

  /** Two queues are enqueued and locked; when the first lock expires, the second queue is in the wrong place. */
  lemma ExpiryReached(now: int, a: Discriminator, b: Discriminator, x: Entry, z: Entry, lock: Lock)
    requires a != b && x.priority <= z.priority < MAX_SAFE_INTEGER && now < lock.until
    ensures var v := View([a, b], map[], map[a := [x], b := [z]]);
      && Inv(EMPTY) && Enqueued(Enqueued(EMPTY, now, a, x), now, b, z) == v
      && IsNext(v, now, a)
      && Locked(v, now, a, lock) == Some(View([b, a], map[a := lock], map[a := [x], b := [z]]))
  {
    TwoQueues(now, a, b, x, z);
    var v := View([a, b], map[], map[a := [x], b := [z]]);
    assert v.heap[0] == a;
    LockedRootSinks(now, a, b, v.fifo, lock);
  }

  lemma TwoQueues(now: int, a: Discriminator, b: Discriminator, x: Entry, z: Entry)
    requires a != b && x.priority <= z.priority
    ensures var v := View([a, b], map[], map[a := [x], b := [z]]);
      && Inv(EMPTY) && Enqueued(Enqueued(EMPTY, now, a, x), now, b, z) == v && Inv(v)
  {
    FirstEnqueued(now, a, x);
    SecondEnqueued(now, a, b, x, z);
  }

  lemma SecondEnqueued(now: int, a: Discriminator, b: Discriminator, x: Entry, z: Entry)
    requires a != b && x.priority <= z.priority
    ensures var u, v := View([a], map[], map[a := [x]]), View([a, b], map[], map[a := [x], b := [z]]);
      Inv(u) && Enqueued(u, now, b, z) == v && Inv(v)
  {
    var u := View([a], map[], map[a := [x]]);
    assert Priorities(u, now)[0] == x.priority;
    EnqueueStays(u, now, b, z);
    SameView(View([a, b], map[], map[a := [x], b := [z]]), View([a] + [b], map[], map[a := [x]][b := [z]]));
  }

  /** Renewing an expired lock lowers a priority beyond the safe integers, below that of the parent. */
  lemma RenewBreaksHeap(
      now: int, a: Discriminator, b: Discriminator, x: Entry, z: Entry, expired: Lock, other: Lock, lock: Lock)
    requires a != b && MAX_SAFE_INTEGER < z.priority <= x.priority
    requires expired.until <= now < lock.until && other.until <= now
    ensures var v := View([b, a], map[b := other, a := expired], map[b := [z], a := [x]]);
      && Inv(v) && HeapOrdered(v, now) && Locked(v, now, a, lock).Some?
      && !HeapOrdered(Locked(v, now, a, lock).value, now)
  {
    var v := View([b, a], map[b := other, a := expired], map[b := [z], a := [x]]);
    assert v.heap[0] == b && v.heap[1] == a;
    assert Priorities(v, now)[0] == z.priority && Priorities(v, now)[1] == x.priority;
    assert Edge(Priorities(v, now), 1);
    LockFallsIff(v, now, a, lock);
    RenewHeap(v, now, a, lock);
  }

  /** That state is reached by four calls, after which the time has passed when both locks expire. */
  lemma RenewReached(
      now: int, a: Discriminator, b: Discriminator, x: Entry, z: Entry, expired: Lock, other: Lock)
    requires a != b && MAX_SAFE_INTEGER < z.priority <= x.priority && now < expired.until && now < other.until
    ensures var v := View([b, a], map[], map[b := [z], a := [x]]);
      var w := View([b, a], map[b := other], map[b := [z], a := [x]]);
      && Inv(EMPTY) && Enqueued(Enqueued(EMPTY, now, b, z), now, a, x) == v && Inv(v) && Inv(w)
      && IsNext(v, now, b) && Locked(v, now, b, other) == Some(w)
      && IsNext(w, now, a)
      && Locked(w, now, a, expired) == Some(View([b, a], map[b := other, a := expired], map[b := [z], a := [x]]))
  {
    TwoQueues(now, b, a, z, x);
    LockedBelow(now, a, b, x, z, map[], b, other);
    LockedBelow(now, a, b, x, z, map[b := other], a, expired);
    assert map[b := other][a := expired] == map[b := other, a := expired];
  }

  /** Of two queues beyond the safe integers, the one that is next stays where it is when it is locked. */
  lemma LockedBelow(
      now: int, a: Discriminator, b: Discriminator, x: Entry, z: Entry, locks: map<Discriminator, Lock>,
      d: Discriminator, lock: Lock)
    requires a != b && MAX_SAFE_INTEGER < z.priority && MAX_SAFE_INTEGER < x.priority && now < lock.until
    requires (d == b && locks == map[]) || (d == a && locks.Keys == {b} && now < locks[b].until)
    ensures var v := View([b, a], locks, map[b := [z], a := [x]]);
      && Inv(v) && IsNext(v, now, d)
      && Locked(v, now, d, lock) == Some(View([b, a], locks[d := lock], map[b := [z], a := [x]]))
  {
    var v := View([b, a], locks, map[b := [z], a := [x]]);
    assert v.heap[0] == b && v.heap[1] == a;
    LockStays(v, now, d, lock);
  }

  /** Below a locked root, two queues beyond the safe integers stand in any order. */
  lemma NextIsNotLeast(
      now: int, a: Discriminator, b: Discriminator, c: Discriminator, x: Entry, y: Entry, z: Entry, lock: Lock)
    requires a != b && b != c && c != a && MAX_SAFE_INTEGER < z.priority < y.priority && now < lock.until
    ensures var v := View([a, b, c], map[a := lock], map[a := [x], b := [y], c := [z]]);
      && Inv(v) && HeapOrdered(v, now) && IsNext(v, now, b) && !Unexpired(v, c, now)
      && Fifo(v, c)[0].priority < Fifo(v, b)[0].priority
  {
    var v := View([a, b, c], map[a := lock], map[a := [x], b := [y], c := [z]]);
    assert v.heap[0] == a && v.heap[1] == b && v.heap[2] == c;
    var p := Priorities(v, now);
    assert p[0] == MAX_SAFE_INTEGER && p[1] == y.priority && p[2] == z.priority;
  }

  /** The least such priorities. */
  lemma NextIsNotLeastAt(now: int, a: Discriminator, b: Discriminator, c: Discriminator, x: Entry, lock: Lock)
    requires a != b && b != c && c != a && now < lock.until
    ensures var y, z := Entry("y", 9007199254740993), Entry("z", 9007199254740992);
      var v := View([a, b, c], map[a := lock], map[a := [x], b := [y], c := [z]]);
      && Inv(v) && HeapOrdered(v, now) && IsNext(v, now, b) && !Unexpired(v, c, now)
      && Fifo(v, c)[0].priority < Fifo(v, b)[0].priority
  {
    NextIsNotLeast(now, a, b, c, x, Entry("y", 9007199254740993), Entry("z", 9007199254740992), lock);
  }

  /** That state is reached by four calls. */
  lemma NextReached(
      now: int, a: Discriminator, b: Discriminator, c: Discriminator, x: Entry, y: Entry, z: Entry, lock: Lock)
    requires a != b && b != c && c != a && MAX_SAFE_INTEGER < z.priority < y.priority && now < lock.until
    ensures var u, v := View([a], map[], map[a := [x]]), View([a], map[a := lock], map[a := [x]]);
      && Inv(EMPTY) && Enqueued(EMPTY, now, a, x) == u && Inv(u)
      && IsNext(u, now, a) && Locked(u, now, a, lock) == Some(v) && Inv(v)
      && Enqueued(Enqueued(v, now, b, y), now, c, z) ==
         View([a, b, c], map[a := lock], map[a := [x], b := [y], c := [z]])
  {
    FirstEnqueued(now, a, x);
    var u := View([a], map[], map[a := [x]]);
    assert u.heap[0] == a;
    LockStays(u, now, a, lock);
    LockedRootStays(now, a, b, c, x, y, z, lock);
  }

  lemma LockedRootStays(
      now: int, a: Discriminator, b: Discriminator, c: Discriminator, x: Entry, y: Entry, z: Entry, lock: Lock)
    requires a != b && b != c && c != a && now < lock.until
    requires MAX_SAFE_INTEGER < y.priority && MAX_SAFE_INTEGER < z.priority
    ensures var v := View([a], map[a := lock], map[a := [x]]);
      && Inv(v)
      && Enqueued(Enqueued(v, now, b, y), now, c, z) ==
         View([a, b, c], map[a := lock], map[a := [x], b := [y], c := [z]])
  {
    var v := View([a], map[a := lock], map[a := [x]]);
    assert v.heap[0] == a && Priorities(v, now)[0] == MAX_SAFE_INTEGER;
    EnqueueStays(v, now, b, y);
    var w := View([a, b], map[a := lock], map[a := [x], b := [y]]);
    SameView(View([a] + [b], map[a := lock], map[a := [x]][b := [y]]), w);
    assert w.heap[0] == a && w.heap[1] == b && Priorities(w, now)[0] == MAX_SAFE_INTEGER;
    EnqueueStays(w, now, c, z);
    SameView(View([a, b] + [c], w.locks, w.fifo[c := [z]]),
             View([a, b, c], map[a := lock], map[a := [x], b := [y], c := [z]]));
  }

  // ---------- A queue whose slot is refilled from another branch ----------

  /** Queues that differ by the length of their names. */
  function Name(k: nat): (d: Discriminator)
    ensures |d| == k
  {
    seq(k, _ => 'x')
  }

  function Rank(d: Discriminator): int {
    match |d|
    case 0 => 1
    case 1 => 10
    case 2 => 2
    case 4 => 12
    case 5 => 3
    case _ => 11
  }

  function Lone(d: Discriminator): Entry {
    Entry(d, Rank(d))
  }

  /** Every queue holds one item of its rank, and queue 3 is locked. */
  function Ranked(heap: seq<Discriminator>, lock: Lock): View {
    View(heap, map[Name(3) := lock], map x | x in heap :: [Lone(x)])
  }

  function Six(): (heap: seq<Discriminator>)
    ensures |heap| == 6 && forall i :: 0 <= i < 6 ==> |heap[i]| == i
  {
    [Name(0), Name(1), Name(2), Name(3), Name(4), Name(5)]
  }

  function RankedPriority(d: Discriminator, lock: Lock, now: int): int {
    if d == Name(3) && now < lock.until then MAX_SAFE_INTEGER else Rank(d)
  }

  lemma RankedPriorities(heap: seq<Discriminator>, lock: Lock, now: int)
    requires Distinct(heap) && Name(3) in heap
    ensures Inv(Ranked(heap, lock))
    ensures forall i :: 0 <= i < |heap| ==>
      Priorities(Ranked(heap, lock), now)[i] == RankedPriority(heap[i], lock, now)
  {}

  lemma SixIsHeap(lock: Lock, now: int)
    ensures Distinct(Six()) && Name(3) in Six() && Inv(Ranked(Six(), lock))
    ensures HeapOrdered(Ranked(Six(), lock), now) && IndexOf(Six(), Name(3)) == 3
    ensures Priorities(Ranked(Six(), lock), now)[1] == 10 && Priorities(Ranked(Six(), lock), now)[5] == 3
  {
    assert Six()[3] == Name(3);
    RankedPriorities(Six(), lock, now);
    var p := Priorities(Ranked(Six(), lock), now);
    hide Ranked, Inv, Six, Name, Priorities;
    assert p[0] == 1 && p[1] == 10 && p[2] == 2 && p[3] >= 11 && p[4] == 12 && p[5] == 3;
    forall j | 0 < j < 6 ensures Edge(p, j) {}
  }

  /**
   Acknowledging, deferring or removing the only item of queue 3 moves the last queue below queue 1,
   which has a greater priority, and it stays there.
   */
  lemma RefillBreaksHeap(lock: Lock, now: int, priority: int)
    ensures var v, d := Ranked(Six(), lock), Name(3);
      && Inv(v) && HeapOrdered(v, now) && d in v.heap && |Fifo(v, d)| == 1
      && Acknowledged(v, now, d).Some? && Inv(Acknowledged(v, now, d).value)
      && !HeapOrdered(Acknowledged(v, now, d).value, now)
      && Deferred(v, now, d, priority).Some? && Inv(Deferred(v, now, d, priority).value)
      && !HeapOrdered(Deferred(v, now, d, priority).value, now)
      && Removed(v, now, d, 0).Some? && Inv(Removed(v, now, d, 0).value)
      && !HeapOrdered(Removed(v, now, d, 0).value, now)
  {
    var v, d := Ranked(Six(), lock), Name(3);
    SixIsHeap(lock, now);
    assert !RefillFits(v, now, d);
    AcknowledgeKeepsInv(v, d);
    RemoveKeepsInv(v, d, 0);
    AcknowledgeDiffers(v, d);
    assert !RefillFalls(v, now, d) && !AcknowledgeFalls(v, now, d);
    hide RefillFalls, AcknowledgeFalls, Ranked, Inv, AfterAcknowledge, AfterRemove, RefillFits, Six, Name;
    AcknowledgeHeap(v, now, d);
    DeferHeap(v, now, d, priority);
    RemoveOnlyHeap(v, now, d);
  }

  lemma FirstLocked(d: Discriminator, lock: Lock, now: int)
    requires d == Name(3) && now < lock.until
    ensures var v := Enqueued(EMPTY, now, d, Lone(d));
      && Inv(EMPTY) && IsNext(v, now, d) && Locked(v, now, d, lock) == Some(Ranked([d], lock))
  {
    FirstEnqueued(now, d, Lone(d));
    LockedStays(d, lock, now);
  }

  lemma LockedStays(d: Discriminator, lock: Lock, now: int)
    requires d == Name(3)
    ensures var v := View([d], map[], map[d := [Lone(d)]]);
      && Inv(v) && IsNext(v, now, d) && Locked(v, now, d, lock) == Some(Ranked([d], lock))
  {
    var v := View([d], map[], map[d := [Lone(d)]]);
    assert v.heap[0] == d;
    SameView(AfterLock(v, d, lock), Ranked([d], lock));
    assert SinkChoice(Priorities(AfterLock(v, d, lock), now), 0) == Stay;
  }

  lemma RankedAppended(heap: seq<Discriminator>, x: Discriminator, lock: Lock)
    requires x !in heap
    ensures AfterEnqueue(Ranked(heap, lock), x, Lone(x)) == Ranked(heap + [x], lock)
  {
    var v := Ranked(heap, lock);
    assert Fifo(v, x) + [Lone(x)] == [Lone(x)];
    SameView(AfterEnqueue(v, x, Lone(x)), Ranked(heap + [x], lock));
  }

  lemma RankedSwapped(heap: seq<Discriminator>, lock: Lock, i: nat, j: nat)
    requires i < |heap| && j < |heap|
    ensures Swapped(Ranked(heap, lock), i, j) == Ranked(Swap(heap, i, j), lock)
  {
    var h := Swap(heap, i, j);
    forall x ensures x in h <==> x in heap {
      if x in heap {
        var k :| 0 <= k < |heap| && heap[k] == x;
        assert h[if k == i then j else if k == j then i else k] == x;
      }
    }
    SameView(Swapped(Ranked(heap, lock), i, j), Ranked(h, lock));
  }

  /** A new queue that is no smaller than its grandparent rises by at most one slot. */
  lemma EnqueueRanked(heap: seq<Discriminator>, x: Discriminator, lock: Lock, now: int)
    requires Distinct(heap) && Name(3) in heap && x !in heap
    requires var p := Parent(|heap|);
      0 < p ==> RankedPriority(heap[Parent(p)], lock, now) <= RankedPriority(x, lock, now)
    ensures Inv(Ranked(heap, lock))
    ensures var n := |heap|; var p := RankedPriority(heap[Parent(n)], lock, now);
      Enqueued(Ranked(heap, lock), now, x, Lone(x)) ==
      Ranked(if p <= RankedPriority(x, lock, now) then heap + [x] else Swap(heap + [x], n, Parent(n)), lock)
  {
    hide *;
    EnqueuedIsRisen(heap, x, lock, now);
    ParentIsBelow(|heap|);
    if 0 < Parent(|heap|) { ParentIsBelow(Parent(|heap|)); }
    RisesByOne(heap + [x], lock, now);
  }

  lemma ParentIsBelow(i: nat)
    requires 0 < i
    ensures Parent(i) < i
  {}

  lemma EnqueuedIsRisen(heap: seq<Discriminator>, x: Discriminator, lock: Lock, now: int)
    requires Distinct(heap) && Name(3) in heap && x !in heap
    ensures Inv(Ranked(heap, lock)) && Inv(Ranked(heap + [x], lock)) && Name(3) in heap + [x]
    ensures Enqueued(Ranked(heap, lock), now, x, Lone(x)) == RepairedUp(Ranked(heap + [x], lock), now, |heap|)
  {
    RankedAppended(heap, x, lock);
    RankedPriorities(heap, lock, now);
    hide Inv, AfterEnqueue, Reordered;
    EnqueueKeepsInv(Ranked(heap, lock), x, Lone(x));
  }

  /** The last queue rises by at most one slot, if it is no smaller than its grandparent. */
  lemma RisesByOne(heap: seq<Discriminator>, lock: Lock, now: int)
    requires Inv(Ranked(heap, lock)) && 1 < |heap| && Name(3) in heap
    requires var n := |heap| - 1; 0 < Parent(n) ==>
      RankedPriority(heap[Parent(Parent(n))], lock, now) <= RankedPriority(heap[n], lock, now)
    ensures var n := |heap| - 1;
      RepairedUp(Ranked(heap, lock), now, n) == Ranked(
        if RankedPriority(heap[Parent(n)], lock, now) <= RankedPriority(heap[n], lock, now) then heap
        else Swap(heap, n, Parent(n)), lock)
  {
    var w, n := Ranked(heap, lock), |heap| - 1;
    RankedPriorities(heap, lock, now);
    RankedSwapped(heap, lock, n, Parent(n));
    hide Inv, Ranked, Priorities, RankedPriority, Reordered;
    SwappedPriorities(w, now, n, Parent(n));
    if Priorities(w, now)[Parent(n)] > Priorities(w, now)[n] {
      var u := Swapped(w, n, Parent(n));
      assert RepairedUp(u, now, Parent(n)) == u;
    }
  }

  function Names(numbers: seq<nat>): (heap: seq<Discriminator>)
    ensures |heap| == |numbers| && forall i :: 0 <= i < |heap| ==> heap[i] == Name(numbers[i])
  {
    seq(|numbers|, i requires 0 <= i < |numbers| => Name(numbers[i]))
  }

  /** The priority of queue k while queue 3 is locked. */
  function RankAt(k: nat): int {
    if k == 3 then MAX_SAFE_INTEGER else Rank(Name(k))
  }

  /** `EnqueueRanked` by the numbers of the queues. */
  lemma EnqueueNamed(numbers: seq<nat>, x: nat, numbers': seq<nat>, lock: Lock, now: int)
    requires now < lock.until && 3 in numbers && x !in numbers
    requires forall i, j :: 0 <= i < j < |numbers| ==> numbers[i] != numbers[j]
    requires var p := Parent(|numbers|); 0 < p ==> RankAt(numbers[Parent(p)]) <= RankAt(x)
    requires var n := |numbers|;
      numbers' == if RankAt(numbers[Parent(n)]) <= RankAt(x) then numbers + [x]
                  else Swap(numbers + [x], n, Parent(n))
    ensures var v := Ranked(Names(numbers), lock);
      Inv(v) && Enqueued(v, now, Name(x), Lone(Name(x))) == Ranked(Names(numbers'), lock)
  {
    var heap, n := Names(numbers), |numbers|;
    var i :| 0 <= i < n && numbers[i] == 3;
    assert heap[i] == Name(3);
    assert forall k :: RankedPriority(Name(k), lock, now) == RankAt(k);
    assert Names(numbers') ==
      if RankAt(numbers[Parent(n)]) <= RankAt(x) then heap + [Name(x)]
      else Swap(heap + [Name(x)], n, Parent(n));
    hide Ranked, RankedPriority, Inv, Name, Names, Lone, Enqueued;
    EnqueueRanked(heap, Name(x), lock, now);
  }

  /** The numbers along the heap after k more calls, and the number of the queue that is enqueued next. */
  function Stage(k: nat): seq<nat> {
    match k
    case 0 => [3]
    case 1 => [0, 3]
    case 2 => [0, 3, 2]
    case 3 => [0, 1, 2, 3]
    case 4 => [0, 1, 2, 3, 4]
    case _ => [0, 1, 2, 3, 4, 5]
  }

  function NextOf(k: nat): nat {
    match k
    case 0 => 0
    case 1 => 2
    case 2 => 1
    case 3 => 4
    case _ => 5
  }

  lemma StageFacts(k: nat)
    requires k < 5
    ensures |Stage(k)| == k + 1 && 3 in Stage(k) && NextOf(k) !in Stage(k)
    ensures forall i, j :: 0 <= i < j <= k ==> Stage(k)[i] != Stage(k)[j]
    ensures var p := Parent(k + 1); 0 < p ==> RankAt(Stage(k)[Parent(p)]) <= RankAt(NextOf(k))
    ensures Stage(k + 1) ==
      if RankAt(Stage(k)[Parent(k + 1)]) <= RankAt(NextOf(k)) then Stage(k) + [NextOf(k)]
      else Swap(Stage(k) + [NextOf(k)], k + 1, Parent(k + 1))
  {
    assert Stage(k)[if k == 0 then 0 else if k < 3 then 1 else 3] == 3;
  }

  lemma StageGrows(k: nat, lock: Lock, now: int)
    requires k < 5 && now < lock.until
    ensures var v, d := Ranked(Names(Stage(k)), lock), Name(NextOf(k));
      Inv(v) && Enqueued(v, now, d, Lone(d)) == Ranked(Names(Stage(k + 1)), lock)
  {
    StageFacts(k);
    hide *;
    EnqueueNamed(Stage(k), NextOf(k), Stage(k + 1), lock, now);
  }

  lemma StageEnds()
    ensures Names(Stage(0)) == [Name(3)] && Names(Stage(5)) == Six()
    ensures NextOf(0) == 0 && NextOf(1) == 2 && NextOf(2) == 1 && NextOf(3) == 4 && NextOf(4) == 5
  {}

  /** That heap is reached from the empty store: queue 3 is enqueued and locked, then the others are enqueued. */
  lemma SixReached(lock: Lock, now: int)
    requires now < lock.until
    ensures var v := Enqueued(EMPTY, now, Name(3), Lone(Name(3)));
      && Inv(EMPTY) && IsNext(v, now, Name(3)) && Locked(v, now, Name(3), lock) == Some(Ranked([Name(3)], lock))
    ensures Inv(Ranked([Name(3)], lock))
    ensures var v0 := Enqueued(Ranked([Name(3)], lock), now, Name(0), Lone(Name(0)));
      var v2 := Enqueued(v0, now, Name(2), Lone(Name(2)));
      var v1 := Enqueued(v2, now, Name(1), Lone(Name(1)));
      var v4 := Enqueued(v1, now, Name(4), Lone(Name(4)));
      Enqueued(v4, now, Name(5), Lone(Name(5))) == Ranked(Six(), lock)
  {
    hide *;
    FirstLocked(Name(3), lock, now);
    StageEnds();
    StageGrows(0, lock, now);
    StageGrows(1, lock, now);
    StageGrows(2, lock, now);
    StageGrows(3, lock, now);
    StageGrows(4, lock, now);
  }

  // ---------- Runs with one queue ----------

  function Sole(a: Discriminator, locks: map<Discriminator, Lock>, fifo: seq<Entry>): View {
    View([a], locks, map[a := fifo])
  }

  lemma SoleEffects(a: Discriminator, locks: map<Discriminator, Lock>, fifo: seq<Entry>, now: int)
    ensures var v := Sole(a, locks, fifo);
      && Reordered(v, v) && a in v.heap && Fifo(v, a) == fifo
      && (!Unexpired(v, a, now) ==> IsNext(v, now, a))
  {
    assert Sole(a, locks, fifo).heap[0] == a;
  }

  lemma EnqueueSteps(a: Discriminator, x: Entry, y: Entry, expiration: nat)
    ensures Step(State(EMPTY, 0, {}, expiration), Enqueue(a, x), State(Sole(a, map[], [x]), 0, {}, expiration))
    ensures Step(State(Sole(a, map[], [x]), 0, {}, expiration), Enqueue(a, y),
                 State(Sole(a, map[], [x, y]), 0, {}, expiration))
  {
    SoleEffects(a, map[], [x], 0);
    assert Fifo(EMPTY, a) + [x] == [x];
    SameView(AfterEnqueue(EMPTY, a, x), Sole(a, map[], [x]));
    assert [x] + [y] == [x, y];
    SameView(AfterEnqueue(Sole(a, map[], [x]), a, y), Sole(a, map[], [x, y]));
  }

  lemma GrantStep(a: Discriminator, t: Token, x: Entry, y: Entry, expiration: nat)
    ensures Step(State(Sole(a, map[], [x, y]), 0, {}, expiration), Grant(a, x, t, 0, expiration),
                 State(Sole(a, map[a := Lock(expiration, t)], [x, y]), 0, {t}, expiration))
  {
    SoleEffects(a, map[], [x, y], 0);
  }

  lemma RemoveStep(a: Discriminator, t: Token, x: Entry, y: Entry, expiration: nat)
    ensures var lock := map[a := Lock(expiration, t)];
      Step(State(Sole(a, lock, [x, y]), 0, {t}, expiration), Remove(a, 0, x, expiration),
           State(Sole(a, lock, [y]), expiration, {t}, expiration))
  {
    var lock := map[a := Lock(expiration, t)];
    SoleEffects(a, lock, [x, y], expiration);
    assert [x, y][..0] + [x, y][0 + 1..] == [y];
    SameView(AfterRemove(Sole(a, lock, [x, y]), a, 0), Sole(a, lock, [y]));
  }

  lemma RenewStep(a: Discriminator, t: Token, y: Entry, expiration: nat)
    ensures Step(State(Sole(a, map[a := Lock(expiration, t)], [y]), expiration, {t}, expiration),
                 Renew(a, t, 2 * expiration),
                 State(Sole(a, map[a := Lock(2 * expiration, t)], [y]), expiration, {t}, expiration))
  {
    SoleEffects(a, map[a := Lock(expiration, t)], [y], expiration);
  }

  lemma AcknowledgeStep(a: Discriminator, t: Token, y: Entry, expiration: nat, until: int)
    ensures Step(State(Sole(a, map[a := Lock(until, t)], [y]), expiration, {t}, expiration), Acknowledge(a, t, y),
                 State(EMPTY, expiration, {t}, expiration))
  {
    var v := Sole(a, map[a := Lock(until, t)], [y]);
    SoleEffects(a, v.locks, [y], expiration);
    assert v.heap[0] == a;
    SameView(AfterAcknowledge(v, a), EMPTY);
  }

  /** Removing the only item of a keeps the item, which the next enqueue finds. */
  lemma RemoveOnlySteps(a: Discriminator, x: Entry, y: Entry, expiration: nat)
    ensures var orphaned := State(View([], map[], map[a := [x]]), 0, {}, expiration);
      && Step(State(Sole(a, map[], [x]), 0, {}, expiration), Remove(a, 0, x, 0), orphaned)
      && Step(orphaned, Enqueue(a, y), State(Sole(a, map[], [x, y]), 0, {}, expiration))
  {
    var v, w := Sole(a, map[], [x]), View([], map[], map[a := [x]]);
    SoleEffects(a, map[], [x], 0);
    SoleEffects(a, map[], [x, y], 0);
    SameView(AfterRemove(v, a, 0), w);
    assert [x] + [y] == [x, y];
    SameView(AfterEnqueue(w, a, y), Sole(a, map[], [x, y]));
  }

  /**
   A lock on queue a expires, `remove` takes the head that was granted, and the holder, whose token is
   still in the row, acknowledges the next item, which nobody was ever granted.
   */
  ghost function ExpiredHolder(a: Discriminator, t: Token, x: Entry, y: Entry, expiration: nat): Run {
    var lock := map[a := Lock(expiration, t)];
    Run(
      [ State(EMPTY, 0, {}, expiration),
        State(Sole(a, map[], [x]), 0, {}, expiration),
        State(Sole(a, map[], [x, y]), 0, {}, expiration),
        State(Sole(a, lock, [x, y]), 0, {t}, expiration),
        State(Sole(a, lock, [y]), expiration, {t}, expiration),
        State(EMPTY, expiration, {t}, expiration) ],
      [ Enqueue(a, x), Enqueue(a, y), Grant(a, x, t, 0, expiration), Remove(a, 0, x, expiration),
        Acknowledge(a, t, y) ])
  }

  lemma ExpiredHolderTakesAnother(a: Discriminator, t: Token, x: Entry, y: Entry, expiration: nat)
    ensures var r := ExpiredHolder(a, t, x, y, expiration);
      IsRun(r) && GrantAt(r, 2, a, t) && Takes(r.events[4], a, t)
      && r.events[2].entry == x && r.events[4].entry == y
  {
    var r := ExpiredHolder(a, t, x, y, expiration);
    hide Step;
    EnqueueSteps(a, x, y, expiration);
    GrantStep(a, t, x, y, expiration);
    RemoveStep(a, t, x, y, expiration);
    AcknowledgeStep(a, t, y, expiration, expiration);
    forall k | 0 <= k < |r.events| ensures StepAt(r, k) {}
  }

  /**
   The same, although the lock is unexpired when the holder acknowledges: it has been renewed, which the
   store grants for an expired lock as well.
   */
  ghost function RenewedHolder(a: Discriminator, t: Token, x: Entry, y: Entry, expiration: nat): Run {
    var lock, renewed := map[a := Lock(expiration, t)], map[a := Lock(2 * expiration, t)];
    Run(
      [ State(EMPTY, 0, {}, expiration),
        State(Sole(a, map[], [x]), 0, {}, expiration),
        State(Sole(a, map[], [x, y]), 0, {}, expiration),
        State(Sole(a, lock, [x, y]), 0, {t}, expiration),
        State(Sole(a, lock, [y]), expiration, {t}, expiration),
        State(Sole(a, renewed, [y]), expiration, {t}, expiration),
        State(EMPTY, expiration, {t}, expiration) ],
      [ Enqueue(a, x), Enqueue(a, y), Grant(a, x, t, 0, expiration), Remove(a, 0, x, expiration),
        Renew(a, t, 2 * expiration), Acknowledge(a, t, y) ])
  }

  lemma RenewedHolderTakesAnother(a: Discriminator, t: Token, x: Entry, y: Entry, expiration: nat)
    ensures var r := RenewedHolder(a, t, x, y, expiration);
      IsRun(r) && GrantAt(r, 2, a, t) && Takes(r.events[5], a, t)
      && r.events[2].entry == x && r.events[5].entry == y
      && (0 < expiration ==> Unexpired(r.states[5].view, a, r.states[5].clock))
  {
    var r := RenewedHolder(a, t, x, y, expiration);
    hide Step;
    EnqueueSteps(a, x, y, expiration);
    GrantStep(a, t, x, y, expiration);
    RemoveStep(a, t, x, y, expiration);
    RenewStep(a, t, y, expiration);
    AcknowledgeStep(a, t, y, expiration, 2 * expiration);
    forall k | 0 <= k < |r.events| ensures StepAt(r, k) {}
  }

  /** An item is removed, and handed out all the same after the next enqueue. */
  ghost function RemovedItem(a: Discriminator, t: Token, x: Entry, y: Entry, expiration: nat): Run {
    Run(
      [ State(EMPTY, 0, {}, expiration),
        State(Sole(a, map[], [x]), 0, {}, expiration),
        State(View([], map[], map[a := [x]]), 0, {}, expiration),
        State(Sole(a, map[], [x, y]), 0, {}, expiration),
        State(Sole(a, map[a := Lock(expiration, t)], [x, y]), 0, {t}, expiration) ],
      [ Enqueue(a, x), Remove(a, 0, x, 0), Enqueue(a, y), Grant(a, x, t, 0, expiration) ])
  }

  lemma RemovedItemIsGranted(a: Discriminator, t: Token, x: Entry, y: Entry, expiration: nat)
    ensures IsRun(RemovedItem(a, t, x, y, expiration))
  {
    var r := RemovedItem(a, t, x, y, expiration);
    hide Step;
    EnqueueSteps(a, x, y, expiration);
    RemoveOnlySteps(a, x, y, expiration);
    GrantStep(a, t, x, y, expiration);
    forall k | 0 <= k < |r.events| ensures StepAt(r, k) {}
  }
}
