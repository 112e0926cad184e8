/**
 The priority queue store as a state machine: one step per call, with a clock that may advance
 between any two readings and a database that may arrange the heap in any order.
 */
module PriorityQueueProtocol {
  import opened PriorityQueueSpec

  /** `issued` holds every token ever granted; `expirationTime` never changes. */
  datatype State = State(view: View, clock: int, issued: set<Token>, expirationTime: nat)

  /** What a call did. `readAt` is the instant at which it compared locks with the clock. */
  datatype Event =
    | Enqueue(d: Discriminator, entry: Entry)
    | Grant(d: Discriminator, entry: Entry, token: Token, readAt: int, until: int)
    | Nothing(readAt: int)
    | Renew(d: Discriminator, token: Token, until: int)
    | Acknowledge(d: Discriminator, token: Token, entry: Entry)
    | Defer(d: Discriminator, token: Token, entry: Entry, priority: int)
    | Remove(d: Discriminator, index: nat, entry: Entry, readAt: int)
    | Deny(d: Discriminator, token: Token, error: Error)   // to one who does not hold the token
    | Refuse(error: Error)

  predicate HoldsToken(v: View, d: Discriminator, token: Token) {
    d in v.heap && d in v.locks && v.locks[d].token == token
  }

  predicate IsEntry(v: View, d: Discriminator, k: nat, entry: Entry) {
    d in v.heap && k < |Fifo(v, d)| && Fifo(v, d)[k] == entry
  }

  ghost predicate Change(s: State, e: Event, s': State) {
    match e
    case Enqueue(d, entry) =>
      Reordered(AfterEnqueue(s.view, d, entry), s'.view)
    case Grant(d, entry, token, readAt, until) =>
      && s.clock <= readAt <= until - s.expirationTime <= s'.clock
      && IsNext(s.view, readAt, d) && IsEntry(s.view, d, 0, entry) && token !in s.issued
      && Reordered(AfterLock(s.view, d, Lock(until, token)), s'.view)
    case Nothing(readAt) =>
      && s.clock <= readAt <= s'.clock
      && AllLocked(s.view, readAt)
      && s'.view == s.view
    case Renew(d, token, until) =>
      && s.clock <= until - s.expirationTime <= s'.clock
      && HoldsToken(s.view, d, token)
      && Reordered(AfterLock(s.view, d, Lock(until, token)), s'.view)
    case Acknowledge(d, token, entry) =>
      && HoldsToken(s.view, d, token) && IsEntry(s.view, d, 0, entry)
      && Reordered(AfterAcknowledge(s.view, d), s'.view)
    case Defer(d, token, entry, priority) =>
      && HoldsToken(s.view, d, token) && IsEntry(s.view, d, 0, entry)
      && Reordered(AfterDefer(s.view, d, priority), s'.view)
    case Remove(d, k, entry, readAt) =>
      && IsEntry(s.view, d, k, entry)
      && (k == 0 ==> s.clock <= readAt <= s'.clock && !Unexpired(s.view, d, readAt))
      && Reordered(AfterRemove(s.view, d, k), s'.view)
    case Deny(d, token, error) =>
      && s'.view == s.view && !HoldsToken(s.view, d, token)
      && (error == if d !in s.view.heap then ItemNotFound
                   else if d !in s.view.locks then ItemNotLocked else TokenMismatch)
    case Refuse(_) =>
      s'.view == s.view
  }

  ghost predicate Step(s: State, e: Event, s': State) {
    && s.clock <= s'.clock
    && s'.expirationTime == s.expirationTime
    && s'.issued == (if e.Grant? then s.issued + {e.token} else s.issued)
    && Change(s, e, s')
  }

  ghost predicate TokensIssued(v: View, issued: set<Token>) {
    forall d :: d in v.locks ==> v.locks[d].token in issued
  }

  ghost predicate StateInv(s: State) {
    Inv(s.view) && TokensIssued(s.view, s.issued)
  }

  lemma StepKeepsInv(s: State, e: Event, s': State)
    requires StateInv(s) && Step(s, e, s')
    ensures StateInv(s')
  {
    match e
    case Enqueue(d, entry) => EnqueueKeepsInv(s.view, d, entry);
    case Acknowledge(d, _, _) => AcknowledgeKeepsInv(s.view, d);
    case Defer(d, _, _, priority) => DeferKeepsInv(s.view, d, priority);
    case Remove(d, k, _, _) => RemoveKeepsInv(s.view, d, k);
    case _ =>
  }
}
