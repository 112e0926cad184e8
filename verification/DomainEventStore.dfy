/** The domain event store over its two tables. Each method is one database call. */
module DomainEventStore {
  import opened Wrappers
  import opened TableQueries
  import opened DomainEvents

  datatype Error =
    | ParameterInvalid
    | RevisionAlreadyExists
    | OutOfRange                // the revision column cannot hold the value
    | IdentifierMismatch
    | AggregateNotFound
    | CommandHandlerNotFound
    | CommandFailed
    | EventHandlerFailed

  class DomainEventStore {
    var rows: EventTable
    var snapshots: SnapshotTable

    ghost predicate Valid(d: Domain)
      reads this
    {
      WellFormed(d) && RowsSound(d, rows) && SnapshotsSound(d, rows, snapshots)
    }

    constructor ()
      ensures rows == map[] && snapshots == map[]
    {
      rows, snapshots := map[], map[];
    }

    method HasDomainEventsWithCausationId(causationId: CommandId) returns (found: bool)
      ensures found <==> exists key :: key in rows && rows[key].causationId == causationId
    {
      var matching := set key | key in rows && rows[key].causationId == causationId;
      assert matching == {} <==> forall key :: key in rows ==> key !in matching;
      found := matching != {};
    }

    method GetReplayForAggregate(id: AggregateId, fromRevision: int, toRevision: int)
      returns (r: Outcome<seq<DomainEvent>, Error>)
      ensures r == if 1 <= fromRevision <= toRevision then Ok(ReplayFrom(rows, id, fromRevision, toRevision))
                   else Err(ParameterInvalid)
      ensures r.Ok? ==> exists revisions: seq<int> ::
        && |revisions| == |r.value|
        && (forall i, j :: 0 <= i < j < |revisions| ==> revisions[i] < revisions[j])
        && (forall n :: n in revisions <==> (id, n) in rows && fromRevision <= n <= toRevision)
        && forall i :: 0 <= i < |revisions| ==> (id, revisions[i]) in rows && r.value[i] == rows[(id, revisions[i])]
    {
      if fromRevision < 1 {
        return Err(ParameterInvalid);
      }
      if toRevision < 1 {
        return Err(ParameterInvalid);
      }
      if fromRevision > toRevision {
        return Err(ParameterInvalid);
      }
      ReplayMeans(rows, id, fromRevision, toRevision);
      return Ok(ReplayFrom(rows, id, fromRevision, toRevision));
    }

    /** One statement inserts the whole batch: a duplicate key takes back the rows already inserted. */
    method StoreDomainEvents(events: seq<DomainEvent>) returns (r: Outcome<(), Error>)
      modifies this`rows
      ensures events == [] ==> r == Err(ParameterInvalid)
      ensures events != [] ==> (r.Ok? <==> Insertable(old(rows), events) && InRange(events))
      ensures r.Ok? ==> rows == Inserted(old(rows), events)
      ensures r.Err? ==> rows == old(rows)
      ensures r.Err? && events != [] ==> Prevents(r.error, old(rows), events)
      ensures r.Ok? <==>
        && events != []
        && (forall i :: 0 <= i < |events| ==> (events[i].identity.id, events[i].revision) !in old(rows))
        && (forall i, j :: 0 <= i < j < |events| ==>
              events[i].identity.id != events[j].identity.id || events[i].revision != events[j].revision)
        && forall i :: 0 <= i < |events| ==> events[i].revision <= 2147483647
      ensures r.Ok? ==>
        && (forall key :: key in old(rows) ==> key in rows && rows[key] == old(rows)[key])
        && (forall i :: 0 <= i < |events| ==>
              var key := (events[i].identity.id, events[i].revision); key in rows && rows[key] == events[i])
        && (forall key :: key in rows ==> key in old(rows) || rows[key] in events)
      ensures r.Err? && events != [] ==> r.error == OutOfRange || r.error == RevisionAlreadyExists
      ensures r == Err(OutOfRange) ==> exists i :: 0 <= i < |events| && events[i].revision > 2147483647
      ensures r == Err(RevisionAlreadyExists) ==>
        || (exists i :: 0 <= i < |events| && (events[i].identity.id, events[i].revision) in old(rows))
        || exists i, j :: 0 <= i < j < |events| &&
             (events[i].identity.id, events[i].revision) == (events[j].identity.id, events[j].revision)
    {
      hide Insertable, InRange, Inserted, Prevents;
      if events == [] {
        return Err(ParameterInvalid);
      }
      InsertableMeans(rows, events);
      ghost var rows0 := rows;
      r := InsertAll(events);
      if r.Ok? {
        InsertedMeans(rows0, events);
      } else {
        PreventsMeans(r.error, rows0, events);
      }
    }

    /** The statement itself, row by row. */
    method InsertAll(events: seq<DomainEvent>) returns (r: Outcome<(), Error>)
      modifies this`rows
      ensures r.Ok? <==> Insertable(old(rows), events) && InRange(events)
      ensures r.Ok? ==> rows == Inserted(old(rows), events)
      ensures r.Err? ==> rows == old(rows) && Prevents(r.error, old(rows), events)
    {
      var rows0 := rows;
      var i := 0;
      while i < |events|
        invariant 0 <= i <= |events|
        invariant rows == Inserted(rows0, events[..i]) && Insertable(rows0, events[..i]) && InRange(events[..i])
      {
        var e := events[i];
        assert events[..i + 1][..i] == events[..i] && events[..i + 1][i] == e;
        InsertedRows(rows0, events[..i]);
        if e.revision > MAX_REVISION {
          rows := rows0;
          return Err(OutOfRange);
        }
        if KeyOf(e) in rows {
          rows := rows0;
          DuplicateRefused(rows0, events, i);
          return Err(RevisionAlreadyExists);
        }
        ExtendInsertable(rows0, events, i);
        rows := rows[KeyOf(e) := e];
        i := i + 1;
      }
      assert events[..i] == events;
      return Ok(());
    }

    method GetSnapshot(id: AggregateId) returns (snapshot: Option<Snapshot>)
      ensures snapshot == NewestSnapshot(snapshots, id)
      ensures snapshot.None? <==> forall r :: (id, r) !in snapshots
      ensures snapshot.Some? ==>
        && (id, snapshot.value.revision) in snapshots
        && snapshots[(id, snapshot.value.revision)] == snapshot.value.state
        && forall r :: (id, r) in snapshots ==> r <= snapshot.value.revision
    {
      var revisions := RevisionsOf(snapshots, id);
      if revisions == {} {
        return None;
      }
      var revision := Greatest(revisions);
      return Some(Snapshot(revision, snapshots[(id, revision)]));
    }

    /** A snapshot that exists already stays as it is. */
    method StoreSnapshot(id: AggregateId, snapshot: Snapshot)
      modifies this`snapshots
      ensures var key := (id, snapshot.revision);
        snapshots == if key in old(snapshots) then old(snapshots) else old(snapshots)[key := snapshot.state]
    {
      if (id, snapshot.revision) !in snapshots {
        snapshots := snapshots[(id, snapshot.revision) := snapshot.state];
      }
    }
  }

  /** The reason for which a batch is not stored. */
  predicate Prevents(error: Error, rows: EventTable, events: seq<DomainEvent>) {
    || (error == RevisionAlreadyExists && !Insertable(rows, events))
    || (error == OutOfRange && !InRange(events))
  }

  /** A batch can be inserted if no key exists or repeats and every revision fits the column. */
  lemma InsertableMeans(rows: EventTable, events: seq<DomainEvent>)
    ensures Insertable(rows, events) && InRange(events) <==>
      && (forall i :: 0 <= i < |events| ==> (events[i].identity.id, events[i].revision) !in rows)
      && (forall i, j :: 0 <= i < j < |events| ==>
            events[i].identity.id != events[j].identity.id || events[i].revision != events[j].revision)
      && forall i :: 0 <= i < |events| ==> events[i].revision <= 2147483647
  {
    assert forall i :: 0 <= i < |events| ==> KeyOf(events[i]) == (events[i].identity.id, events[i].revision);
  }

  lemma InsertedMeans(rows: EventTable, events: seq<DomainEvent>)
    requires Insertable(rows, events)
    ensures var rows' := Inserted(rows, events);
      && (forall key :: key in rows ==> key in rows' && rows'[key] == rows[key])
      && (forall i :: 0 <= i < |events| ==>
            var key := (events[i].identity.id, events[i].revision); key in rows' && rows'[key] == events[i])
      && (forall key :: key in rows' ==> key in rows || rows'[key] in events)
  {
    InsertedRows(rows, events);
    assert forall i :: 0 <= i < |events| ==> KeyOf(events[i]) == (events[i].identity.id, events[i].revision);
  }

  lemma PreventsMeans(error: Error, rows: EventTable, events: seq<DomainEvent>)
    requires Prevents(error, rows, events)
    ensures error == OutOfRange || error == RevisionAlreadyExists
    ensures error == OutOfRange ==> exists i :: 0 <= i < |events| && events[i].revision > 2147483647
    ensures error == RevisionAlreadyExists ==>
      || (exists i :: 0 <= i < |events| && (events[i].identity.id, events[i].revision) in rows)
      || exists i, j :: 0 <= i < j < |events| &&
           (events[i].identity.id, events[i].revision) == (events[j].identity.id, events[j].revision)
  {}

  lemma DuplicateRefused(rows: EventTable, events: seq<DomainEvent>, i: nat)
    requires i < |events| && Insertable(rows, events[..i]) && KeyOf(events[i]) in Inserted(rows, events[..i])
    ensures !Insertable(rows, events)
  {
    InsertedRows(rows, events[..i]);
    if KeyOf(events[i]) !in rows {
      var j :| 0 <= j < i && KeyOf(events[..i][j]) == KeyOf(events[i]);
      assert KeyOf(events[j]) == KeyOf(events[i]);
    }
  }

  lemma ExtendInsertable(rows: EventTable, events: seq<DomainEvent>, i: nat)
    requires i < |events| && Insertable(rows, events[..i]) && KeyOf(events[i]) !in Inserted(rows, events[..i])
    ensures Insertable(rows, events[..i + 1])
  {
    InsertedRows(rows, events[..i]);
    var batch := events[..i + 1];
    assert forall j :: 0 <= j < i ==> batch[j] == events[..i][j];
    forall j | 0 <= j < i ensures KeyOf(batch[j]) != KeyOf(batch[i]) {
      assert KeyOf(events[..i][j]) in Inserted(rows, events[..i]);
    }
  }
}
