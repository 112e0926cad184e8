/**
 An aggregate instance: its state is restored from a snapshot and later events, commands add events to
 it. Between two database calls other instances may act; calls on one instance do not overlap.
 */
module AggregateInstance {
  import opened Wrappers
  import opened DomainEvents
  import opened CommandProtocol
  import opened DomainEventStore

  /** An event with the state the instance had when it was built, and the state the event leads to. */
  datatype DomainEventWithState = DomainEventWithState(event: DomainEvent, previous: State, next: State)

  function WithoutState(events: seq<DomainEventWithState>): (r: seq<DomainEvent>)
    ensures |r| == |events| && forall i :: 0 <= i < |r| ==> r[i] == events[i].event
  {
    seq(|events|, i requires 0 <= i < |events| => events[i].event)
  }

  /** Every event of the batch carries the same previous state, the one before the whole batch. */
  predicate RecordedFrom(d: Domain, state: State, events: seq<DomainEventWithState>) {
    forall i :: 0 <= i < |events| ==>
      events[i].previous == state && events[i].next == d.apply(state, events[i].event)
  }

  /** What loading has seen: the snapshot it read, how long the replay took, and the table before it saves. */
  datatype Seen = Seen(read: Option<Snapshot>, duration: int, left: SnapshotTable)

  type SnapshotStrategy = (Option<Snapshot>, int, int) -> bool

  class AggregateInstance {
    const domain: Domain
    const identity: Identity
    const store: DomainEventStore
    var state: State
    var revision: int
    var unstored: seq<DomainEventWithState>

    ghost function View(phase: Phase): Instance
      reads this
    {
      Instance(identity.id, state, revision, WithoutState(unstored), phase)
    }

    /** The instance with the two tables, as a world of the command protocol. */
    ghost function Around(phase: Phase): World
      reads this, store
    {
      Alone(store.rows, store.snapshots, View(phase))
    }

    ghost predicate Consistent(phase: Phase)
      reads this, store
    {
      && identity == domain.identityOf(identity.id) && store.Valid(domain)
      && InstanceOk(domain, store.rows, View(phase))
    }

    ghost predicate Valid()
      reads this, store
    {
      Consistent(Ready)
    }

    constructor (domain: Domain, identity: Identity, store: DomainEventStore)
      ensures this.domain == domain && this.identity == identity && this.store == store
      ensures state == domain.initialState(identity.id) && revision == 0 && unstored == []
    {
      this.domain, this.identity, this.store := domain, identity, store;
      state, revision, unstored := domain.initialState(identity.id), 0, [];
    }

    method ApplySnapshot(id: AggregateId, snapshot: Snapshot) returns (r: Outcome<(), Error>)
      modifies this`state, this`revision
      ensures id != identity.id ==> r == Err(IdentifierMismatch) && state == old(state) && revision == old(revision)
      ensures id == identity.id ==> r == Ok(()) && state == snapshot.state && revision == snapshot.revision
    {
      if identity.id != id {
        return Err(IdentifierMismatch);
      }
      state, revision := snapshot.state, snapshot.revision;
      return Ok(());
    }

    method ApplyDomainEvent(e: DomainEvent) returns (r: Outcome<State, Error>)
      ensures r == if e.identity == identity then Ok(domain.apply(state, e)) else Err(IdentifierMismatch)
    {
      if e.identity.context != identity.context {
        return Err(IdentifierMismatch);
      }
      if e.identity.name != identity.name {
        return Err(IdentifierMismatch);
      }
      if e.identity.id != identity.id {
        return Err(IdentifierMismatch);
      }
      return Ok(domain.apply(state, e));
    }

    /** Applies events one by one; an event of another aggregate stops it. */
    method ApplyEvents(events: seq<DomainEvent>) returns (r: Outcome<(), Error>)
      modifies this`state, this`revision
      ensures (forall i :: 0 <= i < |events| ==> events[i].identity == identity) ==> r.Ok?
      ensures r.Ok? ==> View(Ready) == WithEvents(domain, old(View(Ready)), events)
    {
      for i := 0 to |events|
        invariant state == ApplyAll(domain, old(state), events[..i])
        invariant revision == if i == 0 then old(revision) else events[i - 1].revision
      {
        assert events[..i + 1][..i] == events[..i];
        var next := ApplyDomainEvent(events[i]);
        if next.Err? {
          return Err(next.error);
        }
        state, revision := next.value, events[i].revision;
      }
      assert events[..|events|] == events;
      return Ok(());
    }

    method PublishDomainEvent(command: CommandId, data: Data) returns (next: State)
      modifies this`unstored
      ensures var e := DomainEvent(identity, data, command, revision + |old(unstored)| + 1);
        unstored == old(unstored) + [DomainEventWithState(e, state, domain.apply(state, e))]
        && next == domain.apply(state, e)
    {
      var e := DomainEvent(identity, data, command, revision + |unstored| + 1);
      var previousState := state;
      var nextState := ApplyDomainEvent(e);
      unstored := unstored + [DomainEventWithState(e, previousState, nextState.value)];
      return nextState.value;
    }

    method PublishAll(command: CommandId, datas: seq<Data>)
      modifies this`unstored
      ensures identity == domain.identityOf(identity.id) ==>
        WithoutState(unstored) == WithoutState(old(unstored)) + Built(domain, old(View(Ready)), command, datas)
      ensures |unstored| == |old(unstored)| + |datas| && old(unstored) <= unstored
      ensures RecordedFrom(domain, state, unstored[|old(unstored)|..])
    {
      for i := 0 to |datas|
        invariant |unstored| == |old(unstored)| + i && old(unstored) <= unstored
        invariant forall j :: 0 <= j < i ==>
          unstored[|old(unstored)| + j].event ==
          DomainEvent(identity, datas[j], command, revision + (|old(unstored)| + j) + 1)
        invariant RecordedFrom(domain, state, unstored[|old(unstored)|..])
      {
        var _ := PublishDomainEvent(command, datas[i]);
      }
    }

    method StoreCurrentAggregateState() returns (r: Outcome<(), Error>)
      modifies store`rows
      ensures unstored == [] ==> r == Ok(()) && store.rows == old(store.rows)
      ensures r.Ok? <==> Insertable(old(store.rows), WithoutState(unstored)) && InRange(WithoutState(unstored))
      ensures r.Ok? ==> store.rows == Inserted(old(store.rows), WithoutState(unstored))
      ensures r.Err? ==> store.rows == old(store.rows)
      ensures r.Err? ==> Prevents(r.error, store.rows, WithoutState(unstored))
    {
      if |unstored| == 0 {
        return Ok(());
      }
      r := store.StoreDomainEvents(WithoutState(unstored));
    }

    /**
     Other instances act while this one awaits. All it knows of them is that every step of every instance
     is such a change (`CommandProtocol.StepActs`).
     */
    method Await(ghost phase: Phase)
      requires Consistent(phase)
      modifies store
      ensures Consistent(phase)
      ensures OthersActed(domain, old(store.rows), old(store.snapshots), store.rows, store.snapshots)
    {
      ActedReflexive(domain, store.rows, store.snapshots);
    }

    /** The first part of `create`: the newest snapshot, if there is one. */
    method RestoreSnapshot() returns (snapshot: Option<Snapshot>)
      requires Consistent(Starting)
      modifies this`state, this`revision
      ensures Step(domain, old(Around(Starting)), Restore(SELF), Around(Restored)) && Consistent(Restored)
      ensures snapshot == NewestSnapshot(store.snapshots, identity.id)
      ensures revision == if snapshot.Some? then snapshot.value.revision else 0
    {
      hide RowsSound, SnapshotsSound, WellFormed, NewestSnapshot, Fold, Prefix;
      assert revision == 0;
      hide InstanceOk;
      ghost var starting := View(Starting);
      snapshot := store.GetSnapshot(identity.id);
      if snapshot.Some? {
        var _ := ApplySnapshot(identity.id, snapshot.value);
      }
      RestoreStep(domain, store.rows, store.snapshots, starting);
    }

    /** The second part of `create`: the events after the snapshot, and how many there were. */
    method ReplayEvents() returns (r: Outcome<int, Error>)
      requires Consistent(Restored)
      modifies this`state, this`revision
      ensures r.Err? <==> old(revision) == MAX_REVISION
      ensures r.Err? ==> r.error == ParameterInvalid && (identity.id, MAX_REVISION) in store.rows
      ensures r.Ok? ==> Step(domain, old(Around(Restored)), Replay(SELF), Around(Replayed(r.value)))
      ensures r.Ok? ==> Consistent(Replayed(r.value)) && revision == Length(store.rows, identity.id)
      ensures r.Ok? ==> 0 <= r.value == revision - old(revision)
    {
      hide InstanceOk, RowsSound, SnapshotsSound, WellFormed, ReplayFrom, WithEvents, Length, Step;
      ghost var restored := View(Restored);
      RestoredFacts(domain, store.rows, restored);
      var replay := store.GetReplayForAggregate(identity.id, revision + 1, MAX_REVISION);
      if replay.Err? {
        return Err(replay.error);
      }
      ReplayStep(domain, store.rows, store.snapshots, restored);
      ReplayIdentity(domain, store.rows, restored);
      WithEventsPhase(domain, restored, Ready, replay.value);
      var revision0 := revision;
      var _ := ApplyEvents(replay.value);
      return Ok(revision - revision0);
    }

    /** The last part of `create`: a new snapshot, if events were replayed and the strategy asks for one. */
    method SaveSnapshotIf(saved: bool, ghost replayed: int)
      requires Consistent(Replayed(replayed)) && (saved ==> 0 < replayed)
      modifies store`snapshots
      ensures Step(domain, old(Around(Replayed(replayed))), if saved then SaveSnapshot(SELF) else SkipSnapshot(SELF),
                   Around(Ready))
      ensures Valid() && (saved ==> (identity.id, revision) in store.snapshots)
      ensures store.snapshots ==
        if saved && (identity.id, revision) !in old(store.snapshots)
        then old(store.snapshots)[(identity.id, revision) := state] else old(store.snapshots)
      ensures Extends(old(store.snapshots), store.snapshots)
      ensures OthersActed(domain, store.rows, old(store.snapshots), store.rows, store.snapshots)
    {
      hide InstanceOk, RowsSound, SnapshotsSound, WellFormed, Step;
      ghost var before := Around(Replayed(replayed));
      SnapshotStep(domain, before.rows, before.snapshots, View(Replayed(replayed)), saved);
      if saved {
        store.StoreSnapshot(identity.id, Snapshot(revision, state));
      }
      AloneActs(domain, before, if saved then SaveSnapshot(SELF) else SkipSnapshot(SELF), Around(Ready));
    }

    /** The snapshot, and the time until its revision is used for a replay. */
    method LoadSnapshot() returns (snapshot: Option<Snapshot>)
      requires Consistent(Starting)
      modifies this`state, this`revision, store
      ensures Consistent(Restored)
      ensures OthersActed(domain, old(store.rows), old(store.snapshots), store.rows, store.snapshots)
      ensures revision == if snapshot.Some? then snapshot.value.revision else 0
      ensures 0 < revision ==> (identity.id, revision) in store.snapshots
      ensures ReadBetween(identity.id, old(store.snapshots), snapshot, store.snapshots)
    {
      hide InstanceOk, RowsSound, SnapshotsSound, WellFormed, NewestSnapshot, OthersActed, Step;
      ghost var rows0, snapshots0 := store.rows, store.snapshots;
      Await(Starting);
      ghost var rows1, snapshots1 := store.rows, store.snapshots;
      snapshot := RestoreSnapshot();
      RestoredFrom(store.snapshots, identity.id, snapshot, revision);
      Await(Restored);
      ActedExtends(domain, rows0, snapshots0, rows1, snapshots1);
      ActedTransitive(domain, rows0, snapshots0, rows1, snapshots1, store.rows, store.snapshots);
      ActedExtends(domain, rows1, snapshots1, store.rows, store.snapshots);
      NewestIsRead(identity.id, snapshots0, snapshots1, snapshot, store.snapshots);
    }

    /** All of `create` that uses the database. */
    method Load(strategy: SnapshotStrategy) returns (r: Outcome<(), Error>, ghost seen: Seen)
      requires Consistent(Starting)
      modifies this`state, this`revision, store
      ensures store.Valid(domain) && Extends(old(store.rows), store.rows)
      ensures OthersActed(domain, old(store.rows), old(store.snapshots), store.rows, store.snapshots)
      ensures OthersActed(domain, old(store.rows), old(store.snapshots), store.rows, seen.left)
      ensures ReadBetween(identity.id, old(store.snapshots), seen.read, store.snapshots)
      ensures r.Err? <==> seen.read.Some? && seen.read.value.revision == 2147483647
      ensures r.Err? ==> store.snapshots == seen.left
      ensures r.Ok? ==>
        var replayed := revision - if seen.read.Some? then seen.read.value.revision else 0;
        && 0 <= replayed
        && store.snapshots ==
           if 0 < replayed && strategy(seen.read, seen.duration, replayed)
              && (identity.id, revision) !in seen.left
           then seen.left[(identity.id, revision) := state] else seen.left
      ensures r.Err? ==> r.error == ParameterInvalid && (identity.id, MAX_REVISION) in store.rows
      ensures r.Ok? ==>
        Valid() && Length(old(store.rows), identity.id) <= revision <= Length(store.rows, identity.id)
      ensures r.Ok? && (forall s, t, n :: strategy(s, t, n)) && 0 < revision ==>
        (identity.id, revision) in store.snapshots
    {
      hide InstanceOk, RowsSound, SnapshotsSound, WellFormed, Length, OthersActed, Step, ReadBetween;
      ghost var rows0, snapshots0 := store.rows, store.snapshots;
      var snapshot := LoadSnapshot();
      seen := Seen(snapshot, 0, store.snapshots);
      ghost var rows1, snapshots1 := store.rows, store.snapshots;
      ActedExtends(domain, rows0, snapshots0, rows1, snapshots1);
      LengthGrows(domain, rows0, rows1, identity.id);
      var replayed := ReplayEvents();
      if replayed.Err? {
        return Err(replayed.error), seen;
      }
      Await(Replayed(replayed.value));
      ghost var rows2, snapshots2 := store.rows, store.snapshots;
      ActedTransitive(domain, rows0, snapshots0, rows1, snapshots1, rows2, snapshots2);
      ActedExtends(domain, rows1, snapshots1, rows2, snapshots2);
      ReplayedFacts(domain, store.rows, View(Replayed(replayed.value)));
      var duration: int := *;
      seen := Seen(snapshot, duration, store.snapshots);
      SaveSnapshotIf(replayed.value > 0 && strategy(snapshot, duration, replayed.value), replayed.value);
      ActedTransitive(domain, rows0, snapshots0, rows2, snapshots2, store.rows, store.snapshots);
      ActedExtends(domain, rows0, snapshots0, store.rows, store.snapshots);
      ActedTransitive(domain, rows1, snapshots1, rows2, snapshots2, store.rows, store.snapshots);
      ActedExtends(domain, rows1, snapshots1, store.rows, store.snapshots);
      ReadStays(identity.id, snapshots0, snapshot, snapshots1, store.snapshots);
      return Ok(()), seen;
    }

    /** Looks for an event that the command has caused before, and builds its events if there is none. */
    method BuildUnlessFound(command: CommandId, datas: seq<Data>) returns (found: bool)
      requires Valid()
      modifies this`unstored
      ensures found <==> exists key :: key in store.rows && store.rows[key].causationId == command
      ensures found <==> HasCausation(store.rows, command)
      ensures found ==> unstored == old(unstored)
      ensures found ==>
        Step(domain, old(Around(Ready)), Duplicate(SELF, command), Around(Publishing(command, [])))
      ensures !found ==>
        && Step(domain, old(Around(Ready)), Check(SELF, command, datas), Around(Checked(command)))
        && WithoutState(unstored) == WithoutState(old(unstored)) + Built(domain, old(View(Ready)), command, datas)
        && |unstored| == |old(unstored)| + |datas| && old(unstored) <= unstored
        && RecordedFrom(domain, state, unstored[|old(unstored)|..])
      ensures Consistent(if found then Publishing(command, []) else Checked(command))
    {
      hide InstanceOk, RowsSound, SnapshotsSound, HasCausation, Built, WellFormed, RecordedFrom, Step;
      ghost var ready := View(Ready);
      ghost var before := Around(Ready);
      CheckStep(domain, store.rows, store.snapshots, ready, command, datas);
      CausationMeans(store.rows, command);
      found := store.HasDomainEventsWithCausationId(command);
      if found {
        AloneActs(domain, before, Duplicate(SELF, command), Around(Publishing(command, [])));
        return;
      }
      PublishAll(command, datas);
      AloneActs(domain, before, Check(SELF, command, datas), Around(Checked(command)));
    }

    /** Stores what the check has built, and applies it once it is stored. */
    method StoreAndApply(command: CommandId) returns (r: Outcome<seq<DomainEventWithState>, Error>)
      requires Consistent(Checked(command))
      modifies this`state, this`revision, this`unstored, store`rows
      ensures r.Ok? ==>
        && r.value == old(unstored) && unstored == []
        && Step(domain, old(Around(Checked(command))), Store(SELF, command, WithoutState(r.value)),
                Around(Publishing(command, WithoutState(r.value))))
        && Consistent(Publishing(command, WithoutState(r.value)))
        && Insertable(old(store.rows), WithoutState(r.value)) && InRange(WithoutState(r.value))
        && store.rows == Inserted(old(store.rows), WithoutState(r.value))
        && View(Ready) ==
           WithEvents(domain, old(View(Ready)), WithoutState(r.value)).(unstored := [], phase := Ready)
        && (r.value == [] ==> state == old(state) && revision == old(revision))
      ensures OthersActed(domain, old(store.rows), store.snapshots, store.rows, store.snapshots)
      ensures r.Err? ==>
        && state == old(state) && revision == old(revision) && unstored == old(unstored)
        && store.rows == old(store.rows)
        && Prevents(r.error, old(store.rows), WithoutState(unstored))
        && Step(domain, old(Around(Checked(command))), Reject(SELF, command), Around(Ready)) && Valid()
    {
      hide InstanceOk, RowsSound, SnapshotsSound, WellFormed, Insertable, InRange, Inserted, WithEvents, Step;
      ghost var checked := View(Checked(command));
      ghost var before := Around(Checked(command));
      StoreStep(domain, before.rows, before.snapshots, checked, command);
      ConsecutiveIdentity(domain, before.rows, checked);
      var stored := StoreCurrentAggregateState();
      if stored.Err? {
        assert Around(Ready) == Alone(before.rows, before.snapshots, checked.(phase := Ready));
        AloneActs(domain, before, Reject(SELF, command), Around(Ready));
        return Err(stored.error);
      }
      var domainEvents := ApplyUnstored();
      ghost var batch := WithoutState(domainEvents);
      WithEventsPhase(domain, checked, Ready, batch);
      AloneActs(domain, before, Store(SELF, command, batch), Around(Publishing(command, batch)));
      return Ok(domainEvents);
    }

    /** Looks for the command, then builds its events; other instances act before and after. */
    method CheckAndBuild(command: CommandId, datas: seq<Data>) returns (found: bool)
      requires Valid()
      modifies this`unstored, store
      ensures OthersActed(domain, old(store.rows), old(store.snapshots), store.rows, store.snapshots)
      ensures Extends(old(store.rows), store.rows)
      ensures HasCausation(old(store.rows), command) ==> found
      ensures found ==> HasCausation(store.rows, command)
      ensures found ==> Valid() && unstored == old(unstored)
      ensures Consistent(if found then Publishing(command, []) else Checked(command))
      ensures !found ==>
        WithoutState(unstored) == WithoutState(old(unstored)) + Built(domain, old(View(Ready)), command, datas)
      ensures !found ==> |unstored| == |old(unstored)| + |datas| && old(unstored) <= unstored
      ensures !found ==> RecordedFrom(domain, state, unstored[|old(unstored)|..])
      ensures old(unstored) != [] && !found ==> Stuck(store.rows, View(Checked(command)))
    {
      hide InstanceOk, RowsSound, SnapshotsSound, HasCausation, Built, WellFormed, Stuck, RecordedFrom, Extends,
        OthersActed, Step;
      ghost var rows0, snapshots0 := store.rows, store.snapshots;
      Await(Ready);
      ActedExtends(domain, rows0, snapshots0, store.rows, store.snapshots);
      CausationStays(rows0, store.rows, command);
      found := BuildUnlessFound(command, datas);
      if found {
        PublishedIsOk(domain, store.rows, View(Publishing(command, [])));
        return;
      }
      ghost var rows, snapshots := store.rows, store.snapshots;
      Await(Checked(command));
      ActedExtends(domain, rows, snapshots, store.rows, store.snapshots);
      ActedTransitive(domain, rows0, snapshots0, rows, snapshots, store.rows, store.snapshots);
      ActedExtends(domain, rows0, snapshots0, store.rows, store.snapshots);
      if old(unstored) != [] {
        StuckStays(domain, rows0, old(View(Ready)), store.rows, View(Checked(command)));
      }
    }

    method ApplyCommandEvents(command: CommandId, datas: seq<Data>)
      returns (r: Outcome<seq<DomainEventWithState>, Error>)
      requires Valid()
      modifies this`state, this`revision, this`unstored, store
      ensures OthersActed(domain, old(store.rows), old(store.snapshots), store.rows, store.snapshots)
      ensures Valid() && Extends(old(store.rows), store.rows)
      ensures r.Ok? ==> Consistent(Publishing(command, WithoutState(r.value)))
      ensures HasCausation(old(store.rows), command) ==> r == Ok([])
      ensures (exists key :: key in old(store.rows) && old(store.rows)[key].causationId == command) ==> r == Ok([])
      ensures r.Ok? && r.value == [] ==>
        || (exists key :: key in store.rows && store.rows[key].causationId == command)
        || (datas == [] && old(unstored) == [])
      ensures r.Ok? && r.value != [] ==>
        && |r.value| == |datas|
        && forall i :: 0 <= i < |datas| ==>
             var e := r.value[i].event;
             && e == DomainEvent(identity, datas[i], command, old(revision) + i + 1)
             && r.value[i].previous == old(state) && r.value[i].next == domain.apply(old(state), e)
             && (identity.id, e.revision) in store.rows && store.rows[(identity.id, e.revision)] == e
      ensures r.Ok? ==> exists states: seq<State> ::
        && |states| == |r.value| + 1 && states[0] == old(state) && states[|r.value|] == state
        && forall i :: 0 <= i < |r.value| ==> states[i + 1] == domain.apply(states[i], r.value[i].event)
      ensures r == Err(OutOfRange) ==> exists i :: 0 <= i < |unstored| && unstored[i].event.revision > 2147483647
      ensures r.Err? ==>
        || (r.error == RevisionAlreadyExists && (identity.id, revision + 1) in store.rows)
        || (r.error == OutOfRange && !InRange(WithoutState(unstored)))
      ensures r.Err? ==> unstored != [] && state == old(state) && revision == old(revision)
      ensures r.Err? ==>
        WithoutState(unstored) == WithoutState(old(unstored)) + Built(domain, old(View(Ready)), command, datas)
      ensures r.Ok? && r.value == [] ==>
        state == old(state) && revision == old(revision) && unstored == old(unstored)
      ensures r.Ok? && r.value == [] ==>
        HasCausation(store.rows, command) || (datas == [] && old(unstored) == [])
      ensures r.Ok? && r.value != [] ==>
        && old(unstored) == [] && unstored == []
        && WithoutState(r.value) == Built(domain, old(View(Ready)), command, datas)
        && revision == old(revision) + |datas|
        && Contains(store.rows, WithoutState(r.value))
        && FollowsOn(identity.id, old(revision) + 1, WithoutState(r.value))
        && RecordedFrom(domain, old(state), r.value)
    {
      hide InstanceOk, RowsSound, SnapshotsSound, WellFormed, Insertable, InRange, Inserted, Built, Stuck,
        RecordedFrom, Contains, FollowsOn, WithEvents, Extends, HasCausation, OthersActed, Step;
      ghost var rows0, snapshots0, ready := store.rows, store.snapshots, View(Ready);
      CausationMeans(rows0, command);
      var found := CheckAndBuild(command, datas);
      CausationMeans(store.rows, command);
      if found {
        assert [state][0] == state;
        return Ok([]);
      }
      ghost var checked := View(Checked(command));
      ghost var rows, snapshots := store.rows, store.snapshots;
      r := StoreAndApply(command);
      ActedTransitive(domain, rows0, snapshots0, rows, snapshots, store.rows, store.snapshots);
      ActedExtends(domain, rows0, snapshots0, store.rows, store.snapshots);
      if r.Err? {
        SomethingPrevents(r.error, rows, checked.unstored);
        PreventsMeans(r.error, rows, checked.unstored);
        if r.error == RevisionAlreadyExists {
          ConsecutiveIdentity(domain, rows, checked);
          ClashIsTaken(domain, rows, checked);
        }
        return;
      }
      StoredIsOk(domain, rows, store.snapshots, checked, command);
      ghost var states := EventsAreTrace(domain, checked.(phase := Ready), r.value);
      if r.value != [] {
        AnswerMeans(domain, ready, identity, store.rows, command, datas, r.value);
      }
    }

    /** Takes over the events just stored and applies them to the state. */
    method ApplyUnstored() returns (domainEvents: seq<DomainEventWithState>)
      requires forall i :: 0 <= i < |unstored| ==> unstored[i].event.identity == identity
      modifies this`state, this`revision, this`unstored
      ensures domainEvents == old(unstored) && unstored == []
      ensures View(Ready) ==
        WithEvents(domain, old(View(Ready)), WithoutState(old(unstored))).(unstored := [], phase := Ready)
      ensures old(unstored) == [] ==> state == old(state) && revision == old(revision)
    {
      domainEvents := unstored;
      unstored := [];
      var _ := ApplyEvents(WithoutState(domainEvents));
      assert WithoutState(unstored) == [];
    }
  }

  /**
   Restores an instance from the newest snapshot, if any, and the events after it, and may store a new
   snapshot. It sees every event stored before the call, and its state is the fold of those it sees. It
   fails exactly if the snapshot it reads has the greatest revision there is. It stores a snapshot only if
   the strategy, asked about the snapshot it has read and the number of events after it, says so.
   */
  method Create(domain: Domain, registered: set<string>, identity: Identity, store: DomainEventStore,
                strategy: SnapshotStrategy)
    returns (r: Outcome<AggregateInstance, Error>, ghost seen: Seen)
    requires store.Valid(domain) && identity == domain.identityOf(identity.id)
    modifies store
    ensures store.Valid(domain) && Extends(old(store.rows), store.rows)
    ensures OthersActed(domain, old(store.rows), old(store.snapshots), store.rows, store.snapshots)
    ensures identity.name !in registered ==> r == Err(AggregateNotFound)
    ensures identity.name in registered ==>
      && ReadBetween(identity.id, old(store.snapshots), seen.read, store.snapshots)
      && OthersActed(domain, old(store.rows), old(store.snapshots), store.rows, seen.left)
      && (r.Err? <==> seen.read.Some? && seen.read.value.revision == 2147483647)
    ensures r.Err? ==> store.snapshots == seen.left
    ensures r.Ok? ==>
      var x := r.value;
      var replayed := x.revision - if seen.read.Some? then seen.read.value.revision else 0;
      && 0 <= replayed
      && store.snapshots ==
         if 0 < replayed && strategy(seen.read, seen.duration, replayed) && (identity.id, x.revision) !in seen.left
         then seen.left[(identity.id, x.revision) := x.state] else seen.left
    ensures r.Ok? ==> exists states: seq<State> ::
      && |states| == r.value.revision + 1
      && states[0] == domain.initialState(identity.id) && states[r.value.revision] == r.value.state
      && forall n :: 1 <= n <= r.value.revision ==>
           (identity.id, n) in store.rows && states[n] == domain.apply(states[n - 1], store.rows[(identity.id, n)])
    ensures r.Err? && identity.name in registered ==>
      r.error == ParameterInvalid && (identity.id, MAX_REVISION) in store.rows
    ensures r.Ok? ==>
      && fresh(r.value) && r.value.Valid() && r.value.unstored == []
      && r.value.domain == domain && r.value.identity == identity && r.value.store == store
      && Length(old(store.rows), identity.id) <= r.value.revision <= Length(store.rows, identity.id)
    ensures r.Ok? && (forall s, t, n :: strategy(s, t, n)) && 0 < r.value.revision ==>
      (identity.id, r.value.revision) in store.snapshots
  {
    hide InstanceOk, RowsSound, SnapshotsSound, WellFormed, Length, OthersActed, Extends;
    if identity.name !in registered {
      ActedReflexive(domain, store.rows, store.snapshots);
      ActedExtends(domain, store.rows, store.snapshots, store.rows, store.snapshots);
      return Err(AggregateNotFound), Seen(None, 0, store.snapshots);
    }
    var instance := new AggregateInstance(domain, identity, store);
    StartsConsistent(instance);
    var loaded;
    loaded, seen := instance.Load(strategy);
    if loaded.Err? {
      return Err(loaded.error), seen;
    }
    ghost var x := instance.View(Ready);
    StateIsFold(domain, store.rows, x);
    ghost var states := FoldIsTrace(domain, store.rows, x.id, x.revision);
    return Ok(instance), seen;
  }

  lemma StateIsFold(d: Domain, rows: EventTable, x: Instance)
    requires InstanceOk(d, rows, x)
    ensures 0 <= x.revision && Prefix(rows, x.id, x.revision) && x.state == Fold(d, rows, x.id, x.revision)
  {}

  lemma StartsConsistent(x: AggregateInstance)
    requires x.identity == x.domain.identityOf(x.identity.id) && x.store.Valid(x.domain)
    requires x.state == x.domain.initialState(x.identity.id) && x.revision == 0 && x.unstored == []
    ensures x.Consistent(Starting)
  {
    BeginOk(x.domain, x.store.rows, x.identity.id);
    assert WithoutState(x.unstored) == [];
  }

  /** The snapshot is the newest one of a table between the two. */
  ghost predicate ReadBetween(
      id: AggregateId, before: SnapshotTable, read: Option<Snapshot>, after: SnapshotTable)
  {
    match read
    case None => forall n :: (id, n) !in before
    case Some(s) => (id, s.revision) in after && forall n :: (id, n) in before ==> n <= s.revision
  }

  lemma ReadStays(
      id: AggregateId, before: SnapshotTable, read: Option<Snapshot>, after: SnapshotTable, after': SnapshotTable)
    requires ReadBetween(id, before, read, after) && Extends(after, after')
    ensures ReadBetween(id, before, read, after')
    ensures read.Some? ==> (id, read.value.revision) in after'
  {}

  lemma NewestIsRead(
      id: AggregateId, before: SnapshotTable, now: SnapshotTable, read: Option<Snapshot>, after: SnapshotTable)
    requires Extends(before, now) && Extends(now, after) && read == NewestSnapshot(now, id)
    ensures ReadBetween(id, before, read, after)
  {
    forall n | (id, n) in before ensures n in RevisionsOf(now, id) {}
  }

  // ---------- What the calls of an instance are in the protocol ----------

  lemma InPlace(x: Instance, y: Instance)
    ensures map[SELF := x][SELF := y] == map[SELF := y]
  {}

  lemma RestoreStep(d: Domain, rows: EventTable, snapshots: SnapshotTable, x: Instance)
    requires SnapshotsSound(d, rows, snapshots) && InstanceOk(d, rows, x) && x.phase == Starting
    ensures var y := WithSnapshot(x, NewestSnapshot(snapshots, x.id));
      InstanceOk(d, rows, y) && Step(d, Alone(rows, snapshots, x), Restore(SELF), Alone(rows, snapshots, y))
  {
    var w := Alone(rows, snapshots, x);
    RestoreKeepsOwn(d, w, x);
    InPlace(x, WithSnapshot(x, NewestSnapshot(snapshots, x.id)));
  }

  lemma ReplayStep(d: Domain, rows: EventTable, snapshots: SnapshotTable, x: Instance)
    requires RowsSound(d, rows) && InstanceOk(d, rows, x) && x.phase == Restored
    ensures var events := ReplayFrom(rows, x.id, x.revision + 1, MAX_REVISION);
      var y := WithEvents(d, x, events).(phase := Replayed(|events|));
      && InstanceOk(d, rows, y) && y.revision == Length(rows, x.id)
      && Step(d, Alone(rows, snapshots, x), Replay(SELF), Alone(rows, snapshots, y))
  {
    var events := ReplayFrom(rows, x.id, x.revision + 1, MAX_REVISION);
    ReplayKeepsOwn(d, rows, x);
    InPlace(x, WithEvents(d, x, events).(phase := Replayed(|events|)));
    hide InstanceOk, RowsSound, ReplayFrom, WithEvents, Length;
  }

  lemma SnapshotStep(d: Domain, rows: EventTable, snapshots: SnapshotTable, x: Instance, saved: bool)
    requires x.phase.Replayed? && (saved ==> 0 < x.phase.replayed)
    ensures var key := (x.id, x.revision);
      var snapshots' := if !saved || key in snapshots then snapshots else snapshots[key := x.state];
      Step(d, Alone(rows, snapshots, x), if saved then SaveSnapshot(SELF) else SkipSnapshot(SELF),
           Alone(rows, snapshots', x.(phase := Ready)))
  {
    InPlace(x, x.(phase := Ready));
  }

  lemma CheckStep(
      d: Domain, rows: EventTable, snapshots: SnapshotTable, x: Instance, command: CommandId, datas: seq<Data>)
    requires x.phase == Ready
    ensures var w := Alone(rows, snapshots, x);
      if HasCausation(rows, command) then
        Step(d, w, Duplicate(SELF, command), Alone(rows, snapshots, x.(phase := Publishing(command, []))))
      else
        Step(d, w, Check(SELF, command, datas), Alone(rows, snapshots,
          x.(unstored := x.unstored + Built(d, x, command, datas), phase := Checked(command))))
  {
    InPlace(x, x.(phase := Publishing(command, [])));
    InPlace(x, x.(unstored := x.unstored + Built(d, x, command, datas), phase := Checked(command)));
    hide HasCausation, Built;
  }

  lemma StoreStep(d: Domain, rows: EventTable, snapshots: SnapshotTable, x: Instance, command: CommandId)
    requires x.phase == Checked(command)
    ensures var w := Alone(rows, snapshots, x);
      if Insertable(rows, x.unstored) && InRange(x.unstored) then
        Step(d, w, Store(SELF, command, x.unstored), Alone(Inserted(rows, x.unstored), snapshots,
          WithEvents(d, x, x.unstored).(unstored := [], phase := Publishing(command, x.unstored))))
      else
        Step(d, w, Reject(SELF, command), Alone(rows, snapshots, x.(phase := Ready)))
  {
    InPlace(x, WithEvents(d, x, x.unstored).(unstored := [], phase := Publishing(command, x.unstored)));
    InPlace(x, x.(phase := Ready));
    hide Insertable, InRange, Inserted, WithEvents;
  }

  /** The state after a list of events is the last of the states they lead through. */
  lemma EventsAreTrace(d: Domain, x: Instance, events: seq<DomainEventWithState>) returns (states: seq<State>)
    ensures |states| == |events| + 1 && states[0] == x.state
    ensures states[|events|] == WithEvents(d, x, WithoutState(events)).state
    ensures forall i :: 0 <= i < |events| ==> states[i + 1] == d.apply(states[i], events[i].event)
  {
    states := ApplyAllIsTrace(d, x.state, WithoutState(events));
  }

  /** The events of an answer, one by one. */
  lemma AnswerMeans(
      d: Domain, x: Instance, identity: Identity, rows: EventTable, command: CommandId, datas: seq<Data>,
      events: seq<DomainEventWithState>)
    requires x.unstored == [] && WithoutState(events) == Built(d, x, command, datas)
    requires identity == d.identityOf(x.id) && identity.id == x.id
    requires Contains(rows, WithoutState(events)) && RecordedFrom(d, x.state, events)
    ensures |events| == |datas|
    ensures forall i :: 0 <= i < |datas| ==>
      var e := events[i].event;
      && e == DomainEvent(identity, datas[i], command, x.revision + i + 1)
      && events[i].previous == x.state && events[i].next == d.apply(x.state, e)
      && (identity.id, e.revision) in rows && rows[(identity.id, e.revision)] == e
  {
    forall i | 0 <= i < |datas|
      ensures var e := events[i].event;
        && e == DomainEvent(identity, datas[i], command, x.revision + i + 1)
        && (identity.id, e.revision) in rows && rows[(identity.id, e.revision)] == e
    {
      assert WithoutState(events)[i] == events[i].event;
      assert KeyOf(WithoutState(events)[i]) in rows;
    }
  }

  lemma SomethingPrevents(error: Error, rows: EventTable, batch: seq<DomainEvent>)
    requires Prevents(error, rows, batch)
    ensures batch != [] && (error == RevisionAlreadyExists || error == OutOfRange)
    ensures error == RevisionAlreadyExists ==> !Insertable(rows, batch)
    ensures error == OutOfRange ==> !InRange(batch)
  {}

  lemma ActedExtends(
      d: Domain, rows: EventTable, snapshots: SnapshotTable, rows': EventTable, snapshots': SnapshotTable)
    requires OthersActed(d, rows, snapshots, rows', snapshots')
    ensures Extends(rows, rows') && Extends(snapshots, snapshots')
  {}

  lemma WithEventsPhase(d: Domain, x: Instance, phase: Phase, events: seq<DomainEvent>)
    ensures WithEvents(d, x.(phase := phase), events) == WithEvents(d, x, events).(phase := phase)
  {}

  lemma CausationMeans(rows: EventTable, c: CommandId)
    ensures HasCausation(rows, c) <==> exists key :: key in rows && rows[key].causationId == c
  {
    if key :| key in rows && rows[key].causationId == c { assert Caused(rows[key], c); }
  }

  lemma CausationStays(rows: EventTable, rows': EventTable, c: CommandId)
    requires Extends(rows, rows')
    ensures HasCausation(rows, c) ==> HasCausation(rows', c)
  {
    if key :| key in rows && Caused(rows[key], c) {
      assert key in rows' && Caused(rows'[key], c);
    }
  }

  lemma RestoredFrom(snapshots: SnapshotTable, id: AggregateId, s: Option<Snapshot>, revision: int)
    requires s == NewestSnapshot(snapshots, id) && revision == if s.Some? then s.value.revision else 0
    ensures 0 < revision ==> (id, revision) in snapshots
  {}

  lemma LengthGrows(d: Domain, rows: EventTable, rows': EventTable, id: AggregateId)
    requires RowsSound(d, rows) && RowsSound(d, rows') && Extends(rows, rows')
    ensures 0 <= Length(rows, id) <= Length(rows', id)
  {
    SoundRevisions(d, rows, id);
    FoldStable(d, rows, rows', id, Length(rows, id));
    LengthIs(d, rows', id, Length(rows, id));
  }

  /** A replay can be refused only if the revision of the snapshot is the greatest there is. */
  lemma RestoredFacts(d: Domain, rows: EventTable, x: Instance)
    requires RowsSound(d, rows) && InstanceOk(d, rows, x)
    ensures 0 <= x.revision <= MAX_REVISION
    ensures x.revision + 1 > MAX_REVISION ==> (x.id, MAX_REVISION) in rows
  {
    if 0 < x.revision { assert NoGapBelow(rows, x.id, x.revision); }
  }

  lemma ReplayIdentity(d: Domain, rows: EventTable, x: Instance)
    requires RowsSound(d, rows) && InstanceOk(d, rows, x)
    ensures var events := ReplayFrom(rows, x.id, x.revision + 1, MAX_REVISION);
      && (forall i :: 0 <= i < |events| ==> events[i].identity == d.identityOf(x.id))
      && WithEvents(d, x, events).revision == x.revision + |events|
  {
    var events := ReplayFrom(rows, x.id, x.revision + 1, MAX_REVISION);
    ReplayIs(d, rows, x.id, x.revision);
    forall i | 0 <= i < |events| ensures events[i].identity == d.identityOf(x.id) {
      assert KeyOf(events[i]) in rows && KeyOf(events[i]) == (x.id, x.revision + 1 + i);
    }
    if events != [] { assert KeyOf(events[|events| - 1]) == (x.id, x.revision + |events|); }
  }

  lemma ReplayedFacts(d: Domain, rows: EventTable, x: Instance)
    requires RowsSound(d, rows) && InstanceOk(d, rows, x) && x.phase.Replayed?
    ensures InstanceOk(d, rows, x.(phase := Ready)) && StateOk(d, rows, x)
    ensures x.phase.replayed <= x.revision <= Length(rows, x.id)
  {
    LengthIs(d, rows, x.id, x.revision);
  }

  lemma StuckStays(d: Domain, rows: EventTable, x: Instance, rows': EventTable, y: Instance)
    requires Extends(rows, rows') && InstanceOk(d, rows, x) && x.phase == Ready && x.unstored != []
    requires y.id == x.id && y.revision == x.revision && x.unstored <= y.unstored
    ensures Stuck(rows', y)
  {
    StuckGrows(rows, x, rows', y);
  }

  lemma StoredIsOk(d: Domain, rows: EventTable, snapshots: SnapshotTable, x: Instance, command: CommandId)
    requires WellFormed(d) && RowsSound(d, rows) && SnapshotsSound(d, rows, snapshots) && InstanceOk(d, rows, x)
    requires x.phase == Checked(command) && Insertable(rows, x.unstored) && InRange(x.unstored)
    ensures var rows' := Inserted(rows, x.unstored);
      && RowsSound(d, rows') && SnapshotsSound(d, rows', snapshots)
      && InstanceOk(d, rows', WithEvents(d, x.(phase := Ready), x.unstored).(unstored := [], phase := Ready))
      && (x.unstored != [] ==> !Stuck(rows, x)) && Extends(rows, rows')
      && Contains(rows', x.unstored) && FollowsOn(x.id, x.revision + 1, x.unstored)
      && WithEvents(d, x.(phase := Ready), x.unstored).revision == x.revision + |x.unstored|
    ensures forall i :: 0 <= i < |x.unstored| ==> x.unstored[i].identity == d.identityOf(x.id)
  {
    var rows' := Inserted(rows, x.unstored);
    var y := WithEvents(d, x, x.unstored).(unstored := [], phase := Publishing(command, x.unstored));
    ConsecutiveIdentity(d, rows, x);
    hide InstanceOk, RowsSound, SnapshotsSound, WellFormed, Insertable, InRange, Inserted, Extends, Length,
      GrownBy, RevisionsOf, Stuck, Contains, FollowsOn, Consecutive;
    if x.unstored == [] {
      StoreNothing(d, rows, x, command);
      FollowsOnNothing(x.id, x.revision + 1);
    } else {
      StoreKeepsOwn(d, rows, x, command);
      StoreGrows(d, rows, x, command);
      StuckCannotStoreContra(d, rows, x);
      SnapshotsStable(d, rows, rows', snapshots);
      LastInRange(d, x);
    }
    PublishedIsOk(d, rows', y);
  }

  lemma FollowsOnNothing(id: AggregateId, first: int)
    ensures FollowsOn(id, first, [])
  {}

  lemma ConsecutiveIdentity(d: Domain, rows: EventTable, x: Instance)
    requires InstanceOk(d, rows, x)
    ensures 0 <= x.revision && Consecutive(d, x.id, x.revision + 1, x.unstored)
    ensures forall i :: 0 <= i < |x.unstored| ==> x.unstored[i].identity == d.identityOf(x.id)
  {}

  lemma PublishedIsOk(d: Domain, rows: EventTable, x: Instance)
    requires InstanceOk(d, rows, x) && x.phase.Publishing?
    ensures InstanceOk(d, rows, x.(phase := Ready))
  {
    hide Fold, Consecutive, Contains;
  }
}
