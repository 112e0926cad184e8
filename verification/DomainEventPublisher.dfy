/** Handing events to the event handlers: one by one, each event to every handler it is relevant for. */
module DomainEventPublisher {
  import opened Wrappers
  import opened DomainEvents
  import opened DomainEventStore
  import opened AggregateInstance

  /** For which events a handler is called. The handlers are kept in the order of their registration. */
  type EventHandler = DomainEvent -> bool

  /** One call of a handler. */
  datatype Delivery = Delivery(handler: nat, event: DomainEventWithState)

  function ToHandlers(handlers: seq<EventHandler>, e: DomainEventWithState): seq<Delivery> {
    if handlers == [] then []
    else
      var n := |handlers| - 1;
      ToHandlers(handlers[..n], e) + if handlers[n](e.event) then [Delivery(n, e)] else []
  }

  function Deliveries(handlers: seq<EventHandler>, events: seq<DomainEventWithState>): seq<Delivery> {
    if events == [] then []
    else Deliveries(handlers, events[..|events| - 1]) + ToHandlers(handlers, events[|events| - 1])
  }

  lemma {:induction false} ToHandlersIff(
      handlers: seq<EventHandler>, e: DomainEventWithState, call: Delivery)
    ensures call in ToHandlers(handlers, e) <==>
      call.event == e && call.handler < |handlers| && handlers[call.handler](e.event)
  {
    if handlers != [] { ToHandlersIff(handlers[..|handlers| - 1], e, call); }
  }

  /** Exactly the handlers that an event of the batch is relevant for are called with it. */
  lemma {:induction false} DeliveredIff(
      handlers: seq<EventHandler>, events: seq<DomainEventWithState>, call: Delivery)
    ensures call in Deliveries(handlers, events) <==>
      call.event in events && call.handler < |handlers| && handlers[call.handler](call.event.event)
  {
    if events != [] {
      var n := |events| - 1;
      DeliveredIff(handlers, events[..n], call);
      ToHandlersIff(handlers, events[n], call);
      assert events == events[..n] + [events[n]];
    }
  }

  /** Call a comes before call b: an earlier revision, or the same one and an earlier handler. */
  predicate Before(a: Delivery, b: Delivery) {
    || a.event.event.revision < b.event.event.revision
    || (a.event.event.revision == b.event.event.revision && a.handler < b.handler)
  }

  predicate Increasing(events: seq<DomainEventWithState>) {
    forall i, j :: 0 <= i < j < |events| ==> events[i].event.revision < events[j].event.revision
  }

  lemma {:induction false} ToHandlersInOrder(handlers: seq<EventHandler>, e: DomainEventWithState, i: nat, j: nat)
    requires i < j < |ToHandlers(handlers, e)|
    ensures Before(ToHandlers(handlers, e)[i], ToHandlers(handlers, e)[j])
  {
    var calls, init := ToHandlers(handlers, e), ToHandlers(handlers[..|handlers| - 1], e);
    ToHandlersIff(handlers, e, calls[i]);
    ToHandlersIff(handlers, e, calls[j]);
    if j < |init| {
      ToHandlersInOrder(handlers[..|handlers| - 1], e, i, j);
    } else {
      ToHandlersIff(handlers[..|handlers| - 1], e, calls[i]);
    }
  }

  /**
   The calls are made in the order of the revisions and, for one event, of the handlers. In particular no
   handler is called twice with one event.
   */
  lemma {:induction false} DeliveriesInOrder(
      handlers: seq<EventHandler>, events: seq<DomainEventWithState>, i: nat, j: nat)
    requires Increasing(events) && i < j < |Deliveries(handlers, events)|
    ensures Before(Deliveries(handlers, events)[i], Deliveries(handlers, events)[j])
  {
    var n := |events| - 1;
    var calls, init := Deliveries(handlers, events), Deliveries(handlers, events[..n]);
    if j < |init| {
      DeliveriesInOrder(handlers, events[..n], i, j);
    } else if i < |init| {
      DeliveredIff(handlers, events[..n], calls[i]);
      ToHandlersIff(handlers, events[n], calls[j]);
      assert calls[j] in ToHandlers(handlers, events[n]);
    } else {
      ToHandlersInOrder(handlers, events[n], i - |init|, j - |init|);
    }
  }

  lemma {:induction false} ToHandlersPrefix(handlers: seq<EventHandler>, e: DomainEventWithState, h: nat)
    requires h <= |handlers|
    ensures ToHandlers(handlers[..h], e) <= ToHandlers(handlers, e)
  {
    if h < |handlers| {
      var n := |handlers| - 1;
      ToHandlersPrefix(handlers[..n], e, h);
      assert handlers[..n][..h] == handlers[..h];
    } else {
      assert handlers[..h] == handlers;
    }
  }

  lemma DeliveriesNext(handlers: seq<EventHandler>, events: seq<DomainEventWithState>, i: nat)
    requires i < |events|
    ensures Deliveries(handlers, events[..i + 1]) ==
            Deliveries(handlers, events[..i]) + ToHandlers(handlers, events[i])
  {
    assert events[..i + 1][..i] == events[..i];
  }

  lemma PrefixAfter<T>(a: seq<T>, b: seq<T>, c: seq<T>, all: seq<T>)
    requires b + c <= all
    ensures a <= a + b + c <= a + all
  {
    assert a + b + c == a + (b + c);
  }

  lemma {:induction false} DeliveriesShorter(
      handlers: seq<EventHandler>, events: seq<DomainEventWithState>, i: nat)
    requires i <= |events|
    ensures Deliveries(handlers, events[..i]) <= Deliveries(handlers, events)
    decreases |events| - i
  {
    if i < |events| {
      DeliveriesNext(handlers, events, i);
      DeliveriesShorter(handlers, events, i + 1);
    } else {
      assert events[..i] == events;
    }
  }

  /** The calls made so far are a prefix of all calls. */
  lemma DeliveriesPrefix(handlers: seq<EventHandler>, events: seq<DomainEventWithState>, i: nat, h: nat)
    requires i < |events| && h <= |handlers|
    ensures Deliveries(handlers, events[..i]) + ToHandlers(handlers[..h], events[i]) <= Deliveries(handlers, events)
  {
    hide *;
    DeliveriesNext(handlers, events, i);
    DeliveriesShorter(handlers, events, i + 1);
    ToHandlersPrefix(handlers, events[i], h);
  }

  /** Whether a handler throws, given all calls made before; this may be any function. */
  type Outburst = (seq<Delivery>, Delivery) -> bool

  class DomainEventPublisher {
    const handlers: seq<EventHandler>
    const throws: Outburst
    var delivered: seq<Delivery>

    constructor (handlers: seq<EventHandler>, throws: Outburst)
      ensures this.handlers == handlers && this.throws == throws && delivered == []
    {
      this.handlers, this.throws, delivered := handlers, throws, [];
    }

    /** None of the calls from the given one on has thrown. */
    predicate Quiet(calls: seq<Delivery>, from: nat) {
      forall i :: from <= i < |calls| ==> !throws(calls[..i], calls[i])
    }

    lemma QuietThen(before: seq<Delivery>, after: seq<Delivery>, from: nat, ok: bool)
      requires Quiet(before, from) && before <= after && from <= |before|
      requires forall i :: |before| <= i < |after| ==> (throws(after[..i], after[i]) <==> !ok && i == |after| - 1)
      requires !ok ==> |before| < |after|
      ensures forall i :: from <= i < |after| ==> (throws(after[..i], after[i]) <==> !ok && i == |after| - 1)
      ensures ok ==> Quiet(after, from)
    {
      forall i | from <= i < |before| ensures !throws(after[..i], after[i]) {
        assert after[..i] == before[..i] && after[i] == before[i];
      }
    }

    lemma QuietMeans(calls: seq<Delivery>, from: nat)
      ensures Quiet(calls, from) <==> forall i :: from <= i < |calls| ==> !throws(calls[..i], calls[i])
    {}

    /** Calls the handlers for one event, up to the first that throws. */
    method Deliver(e: DomainEventWithState) returns (ok: bool, ghost until: nat)
      modifies this`delivered
      ensures until <= |handlers| && delivered == old(delivered) + ToHandlers(handlers[..until], e)
      ensures ok ==> until == |handlers|
      ensures !ok ==> |old(delivered)| < |delivered|
      ensures forall i :: |old(delivered)| <= i < |delivered| ==>
        (throws(delivered[..i], delivered[i]) <==> !ok && i == |delivered| - 1)
    {
      for h := 0 to |handlers|
        invariant delivered == old(delivered) + ToHandlers(handlers[..h], e)
        invariant forall i :: |old(delivered)| <= i < |delivered| ==> !throws(delivered[..i], delivered[i])
      {
        assert handlers[..h + 1][..h] == handlers[..h];
        if handlers[h](e.event) {
          ghost var before := delivered;
          delivered := delivered + [Delivery(h, e)];
          assert forall i :: 0 <= i <= |before| ==> delivered[..i] == before[..i];
          assert before[..|before|] == before;
          if throws(delivered[..|delivered| - 1], Delivery(h, e)) {
            return false, h + 1;
          }
        }
      }
      assert handlers[..|handlers|] == handlers;
      return true, |handlers|;
    }

    /**
     Calls the handlers in order and stops at the first call that throws: the last call made has thrown if
     the publication fails, and no other one.
     */
    method PublishDomainEvents(domainEvents: seq<DomainEventWithState>) returns (r: Outcome<(), Error>)
      modifies this`delivered
      ensures r == Ok(()) || r == Err(EventHandlerFailed)
      ensures r.Ok? ==> delivered == old(delivered) + Deliveries(handlers, domainEvents)
      ensures r.Err? ==> domainEvents != [] && |old(delivered)| < |delivered|
      ensures old(delivered) <= delivered <= old(delivered) + Deliveries(handlers, domainEvents)
      ensures forall i :: |old(delivered)| <= i < |delivered| ==>
        (throws(delivered[..i], delivered[i]) <==> r.Err? && i == |delivered| - 1)
    {
      assert domainEvents[..0] == [] && Deliveries(handlers, []) == [];
      QuietMeans(delivered, |delivered|);
      hide Deliveries, ToHandlers, Quiet;
      for i := 0 to |domainEvents|
        invariant delivered == old(delivered) + Deliveries(handlers, domainEvents[..i])
        invariant Quiet(delivered, |old(delivered)|)
      {
        DeliveriesNext(handlers, domainEvents, i);
        ghost var before := delivered;
        var ok, until := Deliver(domainEvents[i]);
        QuietThen(before, delivered, |old(delivered)|, ok);
        if !ok {
          DeliveriesPrefix(handlers, domainEvents, i, until);
          PrefixAfter(old(delivered), Deliveries(handlers, domainEvents[..i]),
                      ToHandlers(handlers[..until], domainEvents[i]), Deliveries(handlers, domainEvents));
          return Err(EventHandlerFailed);
        }
        assert handlers[..until] == handlers;
      }
      assert domainEvents[..|domainEvents|] == domainEvents;
      QuietMeans(delivered, |old(delivered)|);
      return Ok(());
    }
  }
}
