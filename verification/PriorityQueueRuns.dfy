/** Safety of the priority queue store over every run, with a clock that only moves forward. */
module PriorityQueueRuns {
  import opened Wrappers
  import opened PriorityQueueSpec
  import opened PriorityQueueProtocol
  import opened PriorityQueueEffects

  /** `events[k]` takes `states[k]` to `states[k + 1]`. */
  datatype Run = Run(states: seq<State>, events: seq<Event>)

  ghost predicate StepAt(r: Run, k: nat)
    requires |r.states| == |r.events| + 1 && k < |r.events|
  {
    Step(r.states[k], r.events[k], r.states[k + 1])
  }

  ghost predicate IsRun(r: Run) {
    && |r.states| == |r.events| + 1
    && r.states[0].view == View([], map[], map[]) && r.states[0].issued == {}
    && forall k :: 0 <= k < |r.events| ==> StepAt(r, k)
  }

  /** Every reachable state has the structure, whatever the clock and the priorities did. */
  lemma {:induction false} ReachableInv(r: Run, k: nat)
    requires IsRun(r) && k < |r.states|
    ensures StateInv(r.states[k])
  {
    if k > 0 {
      ReachableInv(r, k - 1);
      assert StepAt(r, k - 1);
      StepKeepsInv(r.states[k - 1], r.events[k - 1], r.states[k]);
    }
  }

  lemma {:induction false} ClockMonotone(r: Run, i: nat, k: nat)
    requires IsRun(r) && i <= k < |r.states|
    ensures r.states[i].clock <= r.states[k].clock && r.states[i].issued <= r.states[k].issued
    decreases k
  {
    if i < k {
      ClockMonotone(r, i, k - 1);
      assert StepAt(r, k - 1);
    }
  }

  // ---------- What one step does to one queue ----------

  /** The items of d after an event, as a function of the items before it. */
  function FifoAfter(fifo: seq<Entry>, e: Event, d: Discriminator): seq<Entry> {
    match e
    case Enqueue(x, entry) => if x == d then fifo + [entry] else fifo
    case Acknowledge(x, _, _) => if x == d && fifo != [] then fifo[1..] else fifo
    case Defer(x, _, entry, priority) =>
      if x == d && fifo != [] then fifo[1..] + [Entry(entry.item, priority)] else fifo
    case Remove(x, k, _, _) =>
      if x == d && 1 < |fifo| && k < |fifo| then fifo[..k] + fifo[k + 1..] else fifo
    case _ => fifo
  }

  /**
   Enqueue appends, acknowledge drops the head, defer moves the head to the end, remove deletes one
   item unless it is the only one, and nothing else touches the items of any queue.
   */
  lemma StepOnFifo(s: State, e: Event, s': State, d: Discriminator)
    requires Inv(s.view) && Step(s, e, s')
    ensures Fifo(s'.view, d) == FifoAfter(Fifo(s.view, d), e, d)
  {
    var v, w := s.view, s'.view;
    hide Inv, Reordered, AfterEnqueue, AfterLock, AfterAcknowledge, AfterDefer, AfterRemove, IsNext, Fifo;
    match e
    case Enqueue(x, entry) => EnqueueEffect(v, x, entry, w); assert x != d ==> SameQueue(v, w, d);
    case Grant(x, _, token, _, until) =>
      LockEffect(v, x, Lock(until, token), w); assert x != d ==> SameQueue(v, w, d);
    case Renew(x, token, until) => LockEffect(v, x, Lock(until, token), w); assert x != d ==> SameQueue(v, w, d);
    case Acknowledge(x, _, _) => AcknowledgeEffect(v, x, w); assert x != d ==> SameQueue(v, w, d);
    case Defer(x, _, _, priority) => DeferEffect(v, x, priority, w); assert x != d ==> SameQueue(v, w, d);
    case Remove(x, n, _, _) => RemoveEffect(v, x, n, w); assert x != d ==> SameQueue(v, w, d);
    case _ =>
  }

  /** Whether d is locked after an event and by what lock, as a function of its lock before it. */
  ghost function LockAfter(s: State, e: Event, d: Discriminator): Option<Lock> {
    var before := if d in s.view.locks then Some(s.view.locks[d]) else None;
    match e
    case Grant(x, _, token, _, until) => if x == d then Some(Lock(until, token)) else before
    case Renew(x, token, until) => if x == d then Some(Lock(until, token)) else before
    case Acknowledge(x, _, _) => if x == d then None else before
    case Defer(x, _, _, _) => if x == d then None else before
    case Remove(x, _, _, _) => if x == d && |Fifo(s.view, d)| == 1 then None else before
    case _ => before
  }

  lemma StepOnLock(s: State, e: Event, s': State, d: Discriminator)
    requires Inv(s.view) && Step(s, e, s')
    ensures (if d in s'.view.locks then Some(s'.view.locks[d]) else None) == LockAfter(s, e, d)
  {}

  // ---------- Exclusion ----------

  ghost predicate GrantAt(r: Run, i: nat, d: Discriminator, token: Token) {
    i < |r.events| && r.events[i].Grant? && r.events[i].d == d && r.events[i].token == token
  }

  /** The expiry of the lock granted by event i, renewals before event k included. */
  ghost function LatestUntil(r: Run, i: nat, k: nat): int
    requires i < k <= |r.events| && r.events[i].Grant?
  {
    if k == i + 1 then r.events[i].until
    else
      var e := r.events[k - 1];
      if e.Renew? && e.d == r.events[i].d && e.token == r.events[i].token then e.until
      else LatestUntil(r, i, k - 1)
  }

  /** The event takes the head item of d on the strength of `token`. */
  predicate Takes(e: Event, d: Discriminator, token: Token) {
    (e.Acknowledge? || e.Defer?) && e.d == d && e.token == token
  }

  predicate Uses(e: Event, d: Discriminator, token: Token) {
    Takes(e, d, token) || (e.Renew? && e.d == d && e.token == token)
  }

  ghost predicate Released(r: Run, i: nat, k: nat)
    requires i < k <= |r.events| && r.events[i].Grant?
  {
    exists m :: i < m < k && Takes(r.events[m], r.events[i].d, r.events[i].token)
  }

  /** `token` has been issued and does not lock d: it has been used up or superseded. */
  predicate Dead(s: State, d: Discriminator, token: Token) {
    token in s.issued && (d in s.view.locks ==> s.view.locks[d].token != token)
  }

  lemma DeadStep(s: State, e: Event, s': State, d: Discriminator, token: Token)
    requires Inv(s.view) && Step(s, e, s') && Dead(s, d, token)
    ensures Dead(s', d, token) && !Uses(e, d, token)
  {
    StepOnLock(s, e, s', d);
  }

  /** Once dead, a token is refused for ever. */
  lemma {:induction false} DeadForEver(r: Run, i: nat, k: nat, d: Discriminator, token: Token)
    requires IsRun(r) && i <= k < |r.states| && Dead(r.states[i], d, token)
    ensures Dead(r.states[k], d, token)
    ensures k < |r.events| ==> !Uses(r.events[k], d, token)
    decreases k
  {
    if i < k {
      DeadForEver(r, i, k - 1, d, token);
      ReachableInv(r, k - 1);
      assert StepAt(r, k - 1);
      DeadStep(r.states[k - 1], r.events[k - 1], r.states[k], d, token);
    }
    if k < |r.events| {
      ReachableInv(r, k);
      assert StepAt(r, k);
      DeadStep(r.states[k], r.events[k], r.states[k + 1], d, token);
    }
  }

  /** A token that a later grant has superseded can never be used again. */
  lemma SupersededIsRefused(r: Run, i: nat, j: nat, k: nat, d: Discriminator, t: Token, u: Token)
    requires IsRun(r) && GrantAt(r, i, d, t) && GrantAt(r, j, d, u) && i < j < k < |r.events|
    ensures !Uses(r.events[k], d, t)
  {
    assert StepAt(r, i) && StepAt(r, j);
    ClockMonotone(r, i + 1, j);
    ReachableInv(r, j);
    StepOnLock(r.states[j], r.events[j], r.states[j + 1], d);
    DeadForEver(r, j + 1, k, d, t);
  }

  /** No token acknowledges or defers twice. */
  lemma TokenTakesOnce(r: Run, i: nat, k: nat, d: Discriminator, token: Token)
    requires IsRun(r) && i < k < |r.events| && Takes(r.events[i], d, token)
    ensures !Uses(r.events[k], d, token)
  {
    ReachableInv(r, i);
    assert StepAt(r, i);
    StepOnLock(r.states[i], r.events[i], r.states[i + 1], d);
    DeadForEver(r, i + 1, k, d, token);
  }

  /** The lock of event i as it stands before event k. */
  ghost function LockAsOf(r: Run, i: nat, k: nat): Lock
    requires i < k <= |r.events| && r.events[i].Grant?
  {
    Lock(LatestUntil(r, i, k), r.events[i].token)
  }

  predicate LockedBy(s: State, d: Discriminator, lock: Lock) {
    d in s.view.locks && s.view.locks[d] == lock && lock.token in s.issued
  }

  /** From its grant on, a lock holds with its latest expiry until it is released or that has passed. */
  lemma {:induction false} LockPhases(r: Run, i: nat, k: nat)
    requires IsRun(r) && i < k <= |r.events| && r.events[i].Grant?
    ensures var d, lock := r.events[i].d, LockAsOf(r, i, k);
      || Released(r, i, k)
      || LockedBy(r.states[k], d, lock)
      || (Dead(r.states[k], d, lock.token) && lock.until <= r.states[k].clock)
    decreases k
  {
    var d, token := r.events[i].d, r.events[i].token;
    var s, e, s' := r.states[k - 1], r.events[k - 1], r.states[k];
    assert StepAt(r, k - 1);
    ReachableInv(r, k - 1);
    StepOnLock(s, e, s', d);
    if i + 1 < k {
      LockPhases(r, i, k - 1);
      if Released(r, i, k - 1) {
        var m :| i < m < k - 1 && Takes(r.events[m], d, token);
        assert Released(r, i, k);
      } else if Takes(e, d, token) {
        assert Released(r, i, k);
      } else if Dead(s, d, token) {
        DeadStep(s, e, s', d, token);
      }
    }
  }

  /**
   Between two grants of the same queue, either the first token has acknowledged or deferred, or the
   clock has reached the latest expiry of the first lock.
   */
  lemma GrantsAreExclusive(r: Run, i: nat, j: nat)
    requires IsRun(r) && i < j < |r.events| && r.events[i].Grant? && r.events[j].Grant?
    requires r.events[i].d == r.events[j].d
    ensures Released(r, i, j) || LatestUntil(r, i, j) <= r.events[j].readAt
  {
    LockPhases(r, i, j);
    assert StepAt(r, j);
  }

  // ---------- The error of a refused token ----------

  /** The event unlocks d: its head is taken, or its queue is removed with its only item. */
  ghost predicate UnlocksAt(r: Run, m: nat, d: Discriminator)
    requires m < |r.events| < |r.states|
  {
    var e := r.events[m];
    || ((e.Acknowledge? || e.Defer?) && e.d == d)
    || (e.Remove? && e.d == d && |Fifo(r.states[m].view, d)| == 1)
  }

  /** A lock, expired or not, stays in its row until the queue is unlocked. */
  lemma {:induction false} StaysLocked(r: Run, j: nat, k: nat, d: Discriminator, u: Token)
    requires IsRun(r) && GrantAt(r, j, d, u) && j < k < |r.states|
    requires forall m :: j < m < k ==> !UnlocksAt(r, m, d)
    ensures d in r.states[k].view.locks
    decreases k
  {
    assert StepAt(r, k - 1);
    ReachableInv(r, k - 1);
    StepOnLock(r.states[k - 1], r.events[k - 1], r.states[k], d);
    if j + 1 < k {
      StaysLocked(r, j, k - 1, d, u);
      assert !UnlocksAt(r, k - 1, d);
    }
  }

  /** A superseded token is answered with a mismatch, as long as the later grant has not been undone. */
  lemma SupersededIsMismatch(
      r: Run, i: nat, j: nat, k: nat, d: Discriminator, t: Token, u: Token, error: Error)
    requires IsRun(r) && GrantAt(r, i, d, t) && GrantAt(r, j, d, u) && i < j < k < |r.events|
    requires forall m :: j < m < k ==> !UnlocksAt(r, m, d)
    requires r.events[k] == Deny(d, t, error)
    ensures error == TokenMismatch
  {
    StaysLocked(r, j, k, d, u);
    ReachableInv(r, k);
    assert StepAt(r, k);
  }

  /** The event grants d or removes its queue. */
  ghost predicate GrantsOrEmpties(r: Run, m: nat, d: Discriminator)
    requires m < |r.events| < |r.states|
  {
    var e := r.events[m];
    (e.Grant? && e.d == d) || (e.Remove? && e.d == d && |Fifo(r.states[m].view, d)| == 1)
  }

  lemma StaysUnlockedStep(s: State, e: Event, s': State, d: Discriminator)
    requires Inv(s.view) && Step(s, e, s') && d in s.view.heap && d !in s.view.locks
    requires !(e.Grant? && e.d == d) && !(e.Remove? && e.d == d && |Fifo(s.view, d)| == 1)
    ensures d in s'.view.heap && d !in s'.view.locks
  {
    var v, w := s.view, s'.view;
    hide Inv, Reordered, AfterEnqueue, AfterLock, AfterAcknowledge, AfterDefer, AfterRemove, IsNext, Fifo;
    match e
    case Enqueue(x, entry) => EnqueueEffect(v, x, entry, w); assert x != d ==> SameQueue(v, w, d);
    case Grant(x, _, token, _, until) => LockEffect(v, x, Lock(until, token), w); assert SameQueue(v, w, d);
    case Renew(x, token, until) => LockEffect(v, x, Lock(until, token), w); assert SameQueue(v, w, d);
    case Acknowledge(x, _, _) => AcknowledgeEffect(v, x, w); assert SameQueue(v, w, d);
    case Defer(x, _, _, priority) => DeferEffect(v, x, priority, w); assert SameQueue(v, w, d);
    case Remove(x, n, _, _) => RemoveEffect(v, x, n, w); assert x != d ==> SameQueue(v, w, d);
    case _ =>
  }

  /** An acknowledged queue that keeps an item is in the heap without a lock until it is granted again. */
  lemma {:induction false} StaysUnlocked(r: Run, i: nat, k: nat, d: Discriminator)
    requires IsRun(r) && i < k < |r.states| && r.events[i].Acknowledge? && r.events[i].d == d
    requires 1 < |Fifo(r.states[i].view, d)|
    requires forall m :: i < m < k ==> !GrantsOrEmpties(r, m, d)
    ensures d in r.states[k].view.heap && d !in r.states[k].view.locks
    decreases k
  {
    assert StepAt(r, k - 1);
    ReachableInv(r, k - 1);
    hide Step, Inv, TokensIssued, Fifo;
    if i + 1 == k {
      AcknowledgeLeaves(r.states[i], r.events[i], r.states[k]);
    } else {
      StaysUnlocked(r, i, k - 1, d);
      assert !GrantsOrEmpties(r, k - 1, d);
      StaysUnlockedStep(r.states[k - 1], r.events[k - 1], r.states[k], d);
    }
  }

  lemma AcknowledgeLeaves(s: State, e: Event, s': State)
    requires Inv(s.view) && Step(s, e, s') && e.Acknowledge? && 1 < |Fifo(s.view, e.d)|
    ensures e.d in s'.view.heap && e.d !in s'.view.locks
  {
    AcknowledgeEffect(s.view, e.d, s'.view);
  }

  /** Until then any token, the one that has acknowledged included, is told that nothing is locked. */
  lemma AcknowledgedIsNotLocked(r: Run, i: nat, k: nat, d: Discriminator, t: Token, error: Error)
    requires IsRun(r) && i < k < |r.events| && r.events[i].Acknowledge? && r.events[i].d == d
    requires 1 < |Fifo(r.states[i].view, d)|
    requires forall m :: i < m < k ==> !GrantsOrEmpties(r, m, d)
    requires r.events[k] == Deny(d, t, error)
    ensures error == ItemNotLocked
  {
    StaysUnlocked(r, i, k, d);
    assert StepAt(r, k);
  }

  // ---------- The granted item ----------

  ghost predicate HeadRemoved(r: Run, i: nat, k: nat)
    requires i < k <= |r.events| && r.events[i].Grant?
  {
    exists m :: i < m < k && RemovesHead(r.events[m], r.events[i].d)
  }

  predicate RemovesHead(e: Event, d: Discriminator) {
    e.Remove? && e.d == d && e.index == 0
  }

  /** A head is never removed while the lock under which it was granted is unexpired. */
  lemma HeadRemovedAfterExpiry(r: Run, i: nat, k: nat)
    requires IsRun(r) && i < k < |r.events| && r.events[i].Grant? && RemovesHead(r.events[k], r.events[i].d)
    ensures Released(r, i, k) || LatestUntil(r, i, k) <= r.events[k].readAt
  {
    LockPhases(r, i, k);
    assert StepAt(r, k);
  }

  lemma {:induction false} HeadKept(r: Run, i: nat, k: nat)
    requires IsRun(r) && i < k <= |r.events| && r.events[i].Grant?
    ensures var d := r.events[i].d; var fifo := Fifo(r.states[k].view, d);
      || Dead(r.states[k], d, r.events[i].token)
      || HeadRemoved(r, i, k)
      || (fifo != [] && fifo[0] == r.events[i].entry && r.events[i].token in r.states[k].issued
          && LockedByToken(r.states[k], d, r.events[i].token))
    decreases k
  {
    var d, token := r.events[i].d, r.events[i].token;
    var s, e, s' := r.states[k - 1], r.events[k - 1], r.states[k];
    assert StepAt(r, k - 1);
    ReachableInv(r, k - 1);
    StepOnLock(s, e, s', d);
    StepOnFifo(s, e, s', d);
    if i + 1 < k {
      HeadKept(r, i, k - 1);
      if HeadRemoved(r, i, k - 1) {
        var m :| i < m < k - 1 && RemovesHead(r.events[m], d);
        assert HeadRemoved(r, i, k);
      } else if Dead(s, d, token) {
        DeadStep(s, e, s', d, token);
      } else if RemovesHead(e, d) {
        assert HeadRemoved(r, i, k);
      } else {
        HeadStep(s, e, s', d, token);
      }
    }
  }

  predicate LockedByToken(s: State, d: Discriminator, token: Token) {
    d in s.view.locks && s.view.locks[d].token == token
  }

  lemma HeadStep(s: State, e: Event, s': State, d: Discriminator, token: Token)
    requires Inv(s.view) && Step(s, e, s') && Fifo(s.view, d) != [] && token in s.issued
    requires LockedByToken(s, d, token) && !RemovesHead(e, d)
    ensures Dead(s', d, token) || (
      && LockedByToken(s', d, token)
      && Fifo(s'.view, d) != [] && Fifo(s'.view, d)[0] == Fifo(s.view, d)[0])
  {
    StepOnLock(s, e, s', d);
    StepOnFifo(s, e, s', d);
  }

  /** The granted entry stands nowhere else in its queue and is not enqueued again before event k. */
  ghost predicate Unrepeated(r: Run, i: nat, k: nat)
    requires i < k <= |r.events| < |r.states| && r.events[i].Grant?
  {
    var d, entry := r.events[i].d, r.events[i].entry;
    && Fifo(r.states[i].view, d) != [] && entry !in Fifo(r.states[i].view, d)[1..]
    && forall m :: i < m < k ==> r.events[m] != Enqueue(d, entry)
  }

  lemma LoneHeadStep(s: State, e: Event, s': State, d: Discriminator, token: Token, entry: Entry)
    requires Inv(s.view) && Step(s, e, s') && token in s.issued && LockedByToken(s, d, token)
    requires Fifo(s.view, d) != [] && entry !in Fifo(s.view, d)[1..] && e != Enqueue(d, entry)
    ensures Dead(s', d, token) || (
      && LockedByToken(s', d, token) && Fifo(s'.view, d) != [] && entry !in Fifo(s'.view, d)[1..]
      && (RemovesHead(e, d) ==> Fifo(s'.view, d)[0] != entry))
  {
    var fifo := Fifo(s.view, d);
    StepOnLock(s, e, s', d);
    StepOnFifo(s, e, s', d);
    if e.Remove? && e.d == d && 0 < e.index < |fifo| {
      assert (fifo[..e.index] + fifo[e.index + 1..])[1..] == fifo[1..e.index] + fifo[e.index + 1..];
    }
  }

  /** After its head has been removed, an entry that was not repeated is no longer in the queue. */
  lemma {:induction false} RemovedHeadIsGone(r: Run, i: nat, k: nat)
    requires IsRun(r) && i < k <= |r.events| && r.events[i].Grant? && Unrepeated(r, i, k)
    ensures var d := r.events[i].d; var fifo := Fifo(r.states[k].view, d);
      || Dead(r.states[k], d, r.events[i].token)
      || (LockedByToken(r.states[k], d, r.events[i].token) && r.events[i].token in r.states[k].issued
          && fifo != [] && r.events[i].entry !in fifo[1..]
          && (HeadRemoved(r, i, k) ==> fifo[0] != r.events[i].entry))
    decreases k
  {
    var d, token, entry := r.events[i].d, r.events[i].token, r.events[i].entry;
    var s, e, s' := r.states[k - 1], r.events[k - 1], r.states[k];
    assert StepAt(r, k - 1);
    ReachableInv(r, k - 1);
    if i + 1 == k {
      StepOnLock(s, e, s', d);
      StepOnFifo(s, e, s', d);
    } else {
      RemovedHeadIsGone(r, i, k - 1);
      if Dead(s, d, token) {
        DeadStep(s, e, s', d, token);
      } else {
        LoneHeadStep(s, e, s', d, token, entry);
      }
    }
  }

  /**
   Acknowledging or deferring with a token takes the very item that was granted with it, unless the
   head of the queue has been removed in the meantime; then it takes another one.
   */
  lemma TakesWhatWasGranted(r: Run, i: nat, k: nat)
    requires IsRun(r) && i < k < |r.events| && r.events[i].Grant?
    requires Takes(r.events[k], r.events[i].d, r.events[i].token)
    ensures !HeadRemoved(r, i, k) ==> r.events[k].entry == r.events[i].entry
    ensures Unrepeated(r, i, k) ==> (r.events[k].entry == r.events[i].entry <==> !HeadRemoved(r, i, k))
  {
    HeadKept(r, i, k);
    ReachableInv(r, k);
    assert StepAt(r, k);
    if Unrepeated(r, i, k) { RemovedHeadIsGone(r, i, k); }
  }

  /** The lock of event i has been renewed, whenever that was needed, before it expired. */
  ghost predicate NeverLapsed(r: Run, i: nat, k: nat)
    requires i < k <= |r.events| < |r.states| && r.events[i].Grant?
  {
    forall m :: i < m < k ==> r.states[m + 1].clock < LatestUntil(r, i, m)
  }

  /** A holder whose lock has never lapsed takes what it was granted. */
  lemma UnlapsedTakesWhatWasGranted(r: Run, i: nat, k: nat)
    requires IsRun(r) && i < k < |r.events| && r.events[i].Grant? && NeverLapsed(r, i, k)
    requires Takes(r.events[k], r.events[i].d, r.events[i].token)
    ensures r.events[k].entry == r.events[i].entry
  {
    if HeadRemoved(r, i, k) {
      var d, token := r.events[i].d, r.events[i].token;
      var m :| i < m < k && RemovesHead(r.events[m], d);
      HeadRemovedAfterExpiry(r, i, m);
      assert StepAt(r, m);
      var n :| i < n < m && Takes(r.events[n], d, token);
      TokenTakesOnce(r, n, k, d, token);
      assert false;
    }
    TakesWhatWasGranted(r, i, k);
  }

  /**
   Once a lock has lapsed, whatever the state, two calls suffice to make its holder take another item:
   the head is removed, and the holder, with or without renewing its lock first, acknowledges.
   */
  lemma LapsedMayTakeAnother(s: State, d: Discriminator, token: Token)
    requires StateInv(s) && HoldsToken(s.view, d, token) && !Unexpired(s.view, d, s.clock)
    requires 1 < |Fifo(s.view, d)|
    ensures exists s1, s2, s3 ::
      && Step(s, Remove(d, 0, Fifo(s.view, d)[0], s.clock), s1)
      && Step(s1, Renew(d, token, s.clock + s.expirationTime), s2)
      && Step(s2, Acknowledge(d, token, Fifo(s.view, d)[1]), s3)
    ensures exists s1, s2 ::
      && Step(s, Remove(d, 0, Fifo(s.view, d)[0], s.clock), s1)
      && Step(s1, Acknowledge(d, token, Fifo(s.view, d)[1]), s2)
  {
    hide Step, Inv, AfterRemove, AfterLock;
    RemoveHeadSteps(s, d, token);
    var s1 := s.(view := AfterRemove(s.view, d, 0));
    RenewSteps(s1, d, token);
    var s2 := s1.(view := AfterLock(s1.view, d, Lock(s1.clock + s1.expirationTime, token)));
    AcknowledgeSteps(s1, d, token);
    AcknowledgeSteps(s2, d, token);
  }

  lemma RemoveHeadSteps(s: State, d: Discriminator, token: Token)
    requires Inv(s.view) && HoldsToken(s.view, d, token) && !Unexpired(s.view, d, s.clock)
    requires 1 < |Fifo(s.view, d)|
    ensures var s' := s.(view := AfterRemove(s.view, d, 0));
      && Step(s, Remove(d, 0, Fifo(s.view, d)[0], s.clock), s')
      && Inv(s'.view) && HoldsToken(s'.view, d, token) && Fifo(s'.view, d) == Fifo(s.view, d)[1..]
  {
    var fifo := Fifo(s.view, d);
    RemoveKeepsInv(s.view, d, 0);
    assert fifo[..0] + fifo[0 + 1..] == fifo[1..];
  }

  lemma RenewSteps(s: State, d: Discriminator, token: Token)
    requires Inv(s.view) && HoldsToken(s.view, d, token)
    ensures var until := s.clock + s.expirationTime;
      var s' := s.(view := AfterLock(s.view, d, Lock(until, token)));
      && Step(s, Renew(d, token, until), s')
      && Inv(s'.view) && HoldsToken(s'.view, d, token) && Fifo(s'.view, d) == Fifo(s.view, d)
  {}

  lemma AcknowledgeSteps(s: State, d: Discriminator, token: Token)
    requires Inv(s.view) && HoldsToken(s.view, d, token)
    ensures exists s' :: Step(s, Acknowledge(d, token, Fifo(s.view, d)[0]), s')
  {
    var s' := s.(view := AfterAcknowledge(s.view, d));
    AcknowledgeKeepsInv(s.view, d);
    assert Step(s, Acknowledge(d, token, Fifo(s.view, d)[0]), s');
  }

  // ---------- Conservation ----------

  function Texts(fifo: seq<Entry>): seq<Item> {
    seq(|fifo|, i requires 0 <= i < |fifo| => fifo[i].item)
  }

  /** The items of d that an event adds. */
  function Added(e: Event, d: Discriminator): multiset<Item> {
    if e.Enqueue? && e.d == d then multiset{e.entry.item} else multiset{}
  }

  /** The items of d that an event takes away, given the items of d before it. */
  function Gone(e: Event, d: Discriminator, fifo: seq<Entry>): multiset<Item> {
    if (e.Acknowledge? && e.d == d) || (e.Remove? && e.d == d && 1 < |fifo|) then multiset{e.entry.item}
    else multiset{}
  }

  ghost function AllAdded(r: Run, k: nat, d: Discriminator): multiset<Item>
    requires k <= |r.events|
  {
    if k == 0 then multiset{} else AllAdded(r, k - 1, d) + Added(r.events[k - 1], d)
  }

  ghost function AllGone(r: Run, k: nat, d: Discriminator): multiset<Item>
    requires k <= |r.events| < |r.states|
  {
    if k == 0 then multiset{}
    else AllGone(r, k - 1, d) + Gone(r.events[k - 1], d, Fifo(r.states[k - 1].view, d))
  }

  lemma TextsOfConcat(a: seq<Entry>, b: seq<Entry>)
    ensures Texts(a + b) == Texts(a) + Texts(b)
  {}

  lemma FifoAfterConserves(fifo: seq<Entry>, e: Event, d: Discriminator)
    requires (e.Acknowledge? || e.Defer?) && e.d == d ==> fifo != [] && fifo[0] == e.entry
    requires e.Remove? && e.d == d ==> e.index < |fifo| && fifo[e.index] == e.entry
    ensures multiset(Texts(FifoAfter(fifo, e, d))) + Gone(e, d, fifo) == multiset(Texts(fifo)) + Added(e, d)
  {
    hide Texts;
    match e
    case Enqueue(x, entry) =>
      Appended(fifo, entry);
    case Acknowledge(x, _, entry) =>
      if x == d { HeadAndTail(fifo); }
    case Defer(x, _, entry, priority) =>
      if x == d {
        HeadAndTail(fifo);
        Appended(fifo[1..], Entry(entry.item, priority));
      }
    case Remove(x, k, entry, _) =>
      if x == d && 1 < |fifo| { OneRemoved(fifo, k); }
    case _ =>
  }

  lemma Appended(fifo: seq<Entry>, e: Entry)
    ensures multiset(Texts(fifo + [e])) == multiset(Texts(fifo)) + multiset{e.item}
  {
    TextsOfConcat(fifo, [e]);
    assert Texts([e]) == [e.item];
  }

  lemma HeadAndTail(fifo: seq<Entry>)
    requires fifo != []
    ensures multiset(Texts(fifo)) == multiset{fifo[0].item} + multiset(Texts(fifo[1..]))
  {
    assert Texts(fifo) == [fifo[0].item] + Texts(fifo[1..]);
  }

  lemma OneRemoved(fifo: seq<Entry>, k: nat)
    requires k < |fifo|
    ensures multiset(Texts(fifo)) == multiset{fifo[k].item} + multiset(Texts(fifo[..k] + fifo[k + 1..]))
  {
    TextsOfConcat(fifo[..k], fifo[k + 1..]);
    assert Texts(fifo) == Texts(fifo[..k]) + [fifo[k].item] + Texts(fifo[k + 1..]);
  }

  lemma StepConserves(s: State, e: Event, s': State, d: Discriminator)
    requires Inv(s.view) && Step(s, e, s')
    ensures multiset(Texts(Fifo(s'.view, d))) + Gone(e, d, Fifo(s.view, d)) ==
            multiset(Texts(Fifo(s.view, d))) + Added(e, d)
  {
    StepOnFifo(s, e, s', d);
    hide FifoAfter, Texts, Gone, Added, Inv, Reordered;
    FifoAfterConserves(Fifo(s.view, d), e, d);
  }

  lemma Balance(
      held: multiset<Item>, gone: multiset<Item>, added: multiset<Item>,
      held': multiset<Item>, taken: multiset<Item>, put: multiset<Item>)
    requires held + gone == added && held' + taken == held + put
    ensures held' + (gone + taken) == added + put
  {
    assert held' + (gone + taken) == (held' + taken) + gone;
    assert (held + put) + gone == (held + gone) + put;
  }

  /**
   In every run and for every discriminator, the items held are those enqueued minus those acknowledged
   and those removed, where removing the only item of a queue takes nothing away.
   */
  lemma {:induction false} ItemsConserved(r: Run, k: nat, d: Discriminator)
    requires IsRun(r) && k <= |r.events|
    ensures multiset(Texts(Fifo(r.states[k].view, d))) + AllGone(r, k, d) == AllAdded(r, k, d)
  {
    assert Texts(Fifo(r.states[0].view, d)) == [];
    hide Step, Change, StateInv, Texts, Gone, Added;
    if k > 0 {
      ItemsConserved(r, k - 1, d);
      ReachableInv(r, k - 1);
      assert StepAt(r, k - 1);
      var s, e, s' := r.states[k - 1], r.events[k - 1], r.states[k];
      StepConserves(s, e, s', d);
      Balance(multiset(Texts(Fifo(s.view, d))), AllGone(r, k - 1, d), AllAdded(r, k - 1, d),
              multiset(Texts(Fifo(s'.view, d))), Gone(e, d, Fifo(s.view, d)), Added(e, d));
    }
  }

  /** A removed item is gone if and only if its queue held another one. */
  lemma RemovedIsGoneIff(s: State, e: Event, s': State)
    requires Inv(s.view) && Step(s, e, s') && e.Remove?
    ensures 1 < |Fifo(s.view, e.d)| <==> |Fifo(s'.view, e.d)| == |Fifo(s.view, e.d)| - 1
    ensures |Fifo(s.view, e.d)| == 1 <==> e.d !in s'.view.heap && Fifo(s'.view, e.d) == [e.entry]
  {
    StepOnFifo(s, e, s', e.d);
    if |Fifo(s.view, e.d)| == 1 {
      RemoveKeepsInv(s.view, e.d, e.index);
      UnseatedElements(s.view.heap, IndexOf(s.view.heap, e.d));
    }
  }

  /** The only item of a queue, once removed, is handed out again after the next enqueue. */
  lemma RemovedOnlyItemReturns(
      s: State, remove: Event, s1: State, enqueue: Event, s2: State, grant: Event, s3: State)
    requires Inv(s.view) && Step(s, remove, s1) && Step(s1, enqueue, s2) && Step(s2, grant, s3)
    requires remove.Remove? && |Fifo(s.view, remove.d)| == 1
    requires enqueue.Enqueue? && enqueue.d == remove.d && grant.Grant? && grant.d == remove.d
    ensures grant.entry == remove.entry
  {
    RemoveKeepsInv(s.view, remove.d, remove.index);
    StepOnFifo(s, remove, s1, remove.d);
    StepOnFifo(s1, enqueue, s2, remove.d);
  }
}
