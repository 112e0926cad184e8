/** Handling one command: load the aggregate, run the handler, store the events, publish them. */
module SimpleCommandBus {
  import opened Wrappers
  import opened DomainEvents
  import opened CommandProtocol
  import opened DomainEventStore
  import opened AggregateInstance
  import opened DomainEventPublisher

  datatype Command = Command(id: CommandId, identity: Identity, name: string, data: Data)

  /** A command handler returns the events to store, or throws. */
  type CommandHandler = (State, Command) -> Outcome<seq<Data>, Error>

  function Datas(events: seq<DomainEventWithState>): (r: seq<Data>)
    ensures |r| == |events| && forall i :: 0 <= i < |r| ==> r[i] == events[i].event.data
  {
    seq(|events|, i requires 0 <= i < |events| => events[i].event.data)
  }

  class SimpleCommandBus {
    const domain: Domain
    const registered: set<string>
    const handlers: map<string, CommandHandler>
    const store: DomainEventStore
    const strategy: SnapshotStrategy
    const publisher: DomainEventPublisher

    constructor (domain: Domain, registered: set<string>, handlers: map<string, CommandHandler>,
                 store: DomainEventStore, strategy: SnapshotStrategy, publisher: DomainEventPublisher)
      ensures this.domain == domain && this.registered == registered && this.handlers == handlers
      ensures this.store == store && this.strategy == strategy && this.publisher == publisher
    {
      this.domain, this.registered, this.handlers := domain, registered, handlers;
      this.store, this.strategy, this.publisher := store, strategy, publisher;
    }

    /**
     What is handed to the publisher is exactly what this command has stored, in the order of the
     revisions, and only after it is stored: nothing if the command fails, loses the race or has been
     handled before. The handler has seen at least the events stored before the call.
     */
    method Handle(command: Command)
      returns (r: Outcome<AggregateId, Error>, ghost batch: seq<DomainEventWithState>)
      requires store.Valid(domain) && command.identity == domain.identityOf(command.identity.id)
      modifies publisher`delivered, store
      ensures store.Valid(domain) && Extends(old(store.rows), store.rows)
      ensures OthersActed(domain, old(store.rows), old(store.snapshots), store.rows, store.snapshots)
      // What the publisher is handed, and what it does with it
      ensures old(publisher.delivered) <= publisher.delivered
              <= old(publisher.delivered) + Deliveries(publisher.handlers, batch)
      ensures r.Ok? ==>
        publisher.delivered == old(publisher.delivered) + Deliveries(publisher.handlers, batch)
      ensures forall i :: |old(publisher.delivered)| <= i < |publisher.delivered| ==>
        (publisher.throws(publisher.delivered[..i], publisher.delivered[i]) <==>
          r.Err? && i == |publisher.delivered| - 1)
      ensures r.Err? && batch != [] ==>
        r.error == EventHandlerFailed && |old(publisher.delivered)| < |publisher.delivered|
      // What is stored
      ensures batch != [] ==> exists n ::
        && Length(old(store.rows), command.identity.id) <= n
        && Prefix(store.rows, command.identity.id, n) && command.name in handlers
        && handlers[command.name](Fold(domain, store.rows, command.identity.id, n), command) == Ok(Datas(batch))
        && forall i :: 0 <= i < |batch| ==>
             var e := batch[i].event;
             && e == DomainEvent(command.identity, e.data, command.id, n + i + 1)
             && (e.identity.id, e.revision) in store.rows && store.rows[(e.identity.id, e.revision)] == e
      // When nothing is stored
      ensures (exists key :: key in old(store.rows) && old(store.rows)[key].causationId == command.id) ==> batch == []
      ensures r.Ok? ==> r.value == command.identity.id
      ensures r.Ok? && batch == [] ==> exists n ::
        && Length(old(store.rows), command.identity.id) <= n
        && Prefix(store.rows, command.identity.id, n) && command.name in handlers
        && var answer := handlers[command.name](Fold(domain, store.rows, command.identity.id, n), command);
           answer.Ok? && (answer.value == [] ||
             exists key :: key in store.rows && store.rows[key].causationId == command.id)
      ensures command.name !in handlers ==> r == Err(CommandHandlerNotFound)
      ensures command.name in handlers && command.identity.name !in registered ==> r == Err(AggregateNotFound)
      ensures r.Err? && batch == [] && command.name in handlers && command.identity.name in registered ==>
        || (r.error == ParameterInvalid && (command.identity.id, 2147483647) in store.rows)
        || (r.error == RevisionAlreadyExists
            && Length(old(store.rows), command.identity.id) < Length(store.rows, command.identity.id))
        || exists n ::
             && Length(old(store.rows), command.identity.id) <= n
             && Prefix(store.rows, command.identity.id, n)
             && var answer := handlers[command.name](Fold(domain, store.rows, command.identity.id, n), command);
                answer == Err(r.error) || (answer.Ok? && r.error == OutOfRange && n + |answer.value| > 2147483647)
    {
      hide InstanceOk, RowsSound, SnapshotsSound, WellFormed, Extends, Length, OthersActed, Deliveries, Fold, Prefix;
      batch := [];
      ghost var rows0, snapshots0 := store.rows, store.snapshots;
      NothingDelivered(publisher.handlers);
      if command.name !in handlers {
        ActedReflexive(domain, store.rows, store.snapshots);
        ActedExtends(domain, rows0, snapshots0, store.rows, store.snapshots);
        return Err(CommandHandlerNotFound), batch;
      }
      var aggregate, _ := Create(domain, registered, command.identity, store, strategy);
      if aggregate.Err? {
        return Err(aggregate.error), batch;
      }
      ghost var loaded := aggregate.value.View(Ready);
      LoadedIsFold(store.rows, loaded);
      var handled := handlers[command.name](aggregate.value.state, command);
      if handled.Err? {
        return Err(handled.error), batch;
      }
      ghost var rows1, snapshots1 := store.rows, store.snapshots;
      var done;
      done, batch := ApplyAndPublish(aggregate.value, command, handled.value);
      ActedTransitive(domain, rows0, snapshots0, rows1, snapshots1, store.rows, store.snapshots);
      ActedExtends(domain, rows0, snapshots0, store.rows, store.snapshots);
      ActedExtends(domain, rows1, snapshots1, store.rows, store.snapshots);
      ExtendsMeans(rows0, rows1);
      FoldStable(domain, rows1, store.rows, loaded.id, loaded.revision);
      if done.Err? {
        if done.error == RevisionAlreadyExists && batch == [] {
          LengthIs(domain, store.rows, loaded.id, loaded.revision);
        }
        return Err(done.error), batch;
      }
      return Ok(command.identity.id), batch;
    }

    /** Stores the events of the handler's answer and then publishes them. */
    method ApplyAndPublish(aggregate: AggregateInstance, command: Command, datas: seq<Data>)
      returns (r: Outcome<(), Error>, ghost batch: seq<DomainEventWithState>)
      requires aggregate.Valid() && aggregate.unstored == []
      requires aggregate.domain == domain && aggregate.store == store && aggregate.identity == command.identity
      modifies aggregate`state, aggregate`revision, aggregate`unstored, publisher`delivered, store
      ensures store.Valid(domain)
      ensures OthersActed(domain, old(store.rows), old(store.snapshots), store.rows, store.snapshots)
      ensures old(publisher.delivered) <= publisher.delivered
              <= old(publisher.delivered) + Deliveries(publisher.handlers, batch)
      ensures r.Ok? ==>
        publisher.delivered == old(publisher.delivered) + Deliveries(publisher.handlers, batch)
      ensures forall i :: |old(publisher.delivered)| <= i < |publisher.delivered| ==>
        (publisher.throws(publisher.delivered[..i], publisher.delivered[i]) <==>
          r.Err? && i == |publisher.delivered| - 1)
      ensures r.Err? && batch != [] ==>
        r.error == EventHandlerFailed && |old(publisher.delivered)| < |publisher.delivered|
      ensures batch != [] ==> Datas(batch) == datas
      ensures forall i :: 0 <= i < |batch| ==>
        var e := batch[i].event;
        && e == DomainEvent(command.identity, e.data, command.id, old(aggregate.revision) + i + 1)
        && (e.identity.id, e.revision) in store.rows && store.rows[(e.identity.id, e.revision)] == e
      ensures (exists key :: key in old(store.rows) && old(store.rows)[key].causationId == command.id) ==>
        r.Ok? && batch == []
      ensures r.Ok? && batch == [] ==>
        datas == [] || exists key :: key in store.rows && store.rows[key].causationId == command.id
      ensures r.Err? && batch == [] ==>
        || (r.error == RevisionAlreadyExists && (command.identity.id, old(aggregate.revision) + 1) in store.rows)
        || (r.error == OutOfRange && old(aggregate.revision) + |datas| > 2147483647)
    {
      hide InstanceOk, RowsSound, SnapshotsSound, WellFormed, Contains, FollowsOn, Extends, HasCausation, Length,
        RecordedFrom, OthersActed, Deliveries, Built;
      batch := [];
      NothingDelivered(publisher.handlers);
      ghost var loaded := aggregate.View(Ready);
      var applied := aggregate.ApplyCommandEvents(command.id, datas);
      if applied.Err? {
        if applied.error == OutOfRange {
          BuiltBeyond(domain, loaded, command.id, datas, aggregate.unstored);
        }
        return Err(applied.error), batch;
      }
      batch := applied.value;
      if batch != [] {
        assert Datas(batch) == datas;
      }
      r := publisher.PublishDomainEvents(applied.value);
    }

    lemma LoadedIsFold(rows: EventTable, x: Instance)
      requires InstanceOk(domain, rows, x)
      ensures 0 <= x.revision && Prefix(rows, x.id, x.revision) && x.state == Fold(domain, rows, x.id, x.revision)
    {}
  }

  lemma NothingDelivered(handlers: seq<EventHandler>)
    ensures Deliveries(handlers, []) == []
  {}

  lemma ExtendsMeans(rows: EventTable, rows': EventTable)
    requires Extends(rows, rows')
    ensures forall key :: key in rows ==> key in rows' && rows'[key] == rows[key]
  {}

  /** If an event built from a command is out of range, so many events have been built. */
  lemma BuiltBeyond(d: Domain, x: Instance, command: CommandId, datas: seq<Data>, unstored: seq<DomainEventWithState>)
    requires x.unstored == [] && WithoutState(unstored) == Built(d, x, command, datas)
    requires exists i :: 0 <= i < |unstored| && unstored[i].event.revision > 2147483647
    ensures x.revision + |datas| > 2147483647
  {
    var i :| 0 <= i < |unstored| && unstored[i].event.revision > 2147483647;
    assert WithoutState(unstored)[i].revision == x.revision + i + 1;
  }
}
