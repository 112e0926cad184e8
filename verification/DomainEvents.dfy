/**
 Domain events, the tables that hold them, and the state that an aggregate has after its first n
 events. Handlers are an arbitrary function; states and event data are the text of a value.
 */
module DomainEvents {
  import opened Wrappers
  import opened TableQueries

  type AggregateId = string
  type CommandId = string
  type State = string
  type Data = string

  datatype Identity = Identity(context: string, name: string, id: AggregateId)

  datatype DomainEvent = DomainEvent(identity: Identity, data: Data, causationId: CommandId, revision: int)

  datatype Snapshot = Snapshot(revision: int, state: State)

  /** Both tables are keyed by aggregate id and revision. */
  type EventTable = map<(AggregateId, int), DomainEvent>
  type SnapshotTable = map<(AggregateId, int), State>

  /**
   The application: which context and aggregate name go with an id, the initial state, and the event
   handlers, which leave the state as it is where none is registered.
   */
  datatype Domain = Domain(
    identityOf: AggregateId -> Identity,
    initialState: AggregateId -> State,
    apply: (State, DomainEvent) -> State)

  ghost predicate WellFormed(d: Domain) {
    forall id :: d.identityOf(id).id == id
  }

  // ---------- Reading the tables ----------

  function RevisionsOf<T>(rows: map<(AggregateId, int), T>, id: AggregateId): (s: set<int>)
    ensures forall r :: r in s <==> (id, r) in rows
  {
    set key | key in rows && key.0 == id :: key.1
  }

  function RevisionsBetween(rows: EventTable, id: AggregateId, from: int, to: int): set<int> {
    set r | r in RevisionsOf(rows, id) && from <= r <= to
  }

  /** The events of an aggregate with revisions in an interval, in the order of their revisions. */
  function ReplayFrom(rows: EventTable, id: AggregateId, from: int, to: int): seq<DomainEvent> {
    var revisions := InOrder(RevisionsBetween(rows, id, from, to));
    InOrderMembers(RevisionsBetween(rows, id, from, to));
    seq(|revisions|, i requires 0 <= i < |revisions| => rows[(id, revisions[i])])
  }

  function NewestSnapshot(snapshots: SnapshotTable, id: AggregateId): Option<Snapshot> {
    var revisions := RevisionsOf(snapshots, id);
    if revisions == {} then None
    else Some(Snapshot(Greatest(revisions), snapshots[(id, Greatest(revisions))]))
  }

  /** The replay of an interval, said on the table itself: its events, each once, by increasing revision. */
  lemma ReplayMeans(rows: EventTable, id: AggregateId, from: int, to: int)
    ensures var events := ReplayFrom(rows, id, from, to);
      exists revisions: seq<int> ::
        && |revisions| == |events|
        && (forall i, j :: 0 <= i < j < |revisions| ==> revisions[i] < revisions[j])
        && (forall n :: n in revisions <==> (id, n) in rows && from <= n <= to)
        && forall i :: 0 <= i < |revisions| ==> (id, revisions[i]) in rows && events[i] == rows[(id, revisions[i])]
  {
    var s := RevisionsBetween(rows, id, from, to);
    InOrderIsSorted(s);
    var revisions := InOrder(s);
    assert forall i :: 0 <= i < |revisions| ==> revisions[i] in revisions;
    assert |revisions| == |ReplayFrom(rows, id, from, to)|;
  }

  predicate Caused(e: DomainEvent, c: CommandId) {
    e.causationId == c
  }

  predicate HasCausation(rows: EventTable, c: CommandId) {
    exists key :: key in rows && Caused(rows[key], c)
  }

  // ---------- Inserting a batch ----------

  function KeyOf(e: DomainEvent): (AggregateId, int) {
    (e.identity.id, e.revision)
  }

  /** No event of the batch has the key of a stored event or of another event of the batch. */
  predicate Insertable(rows: EventTable, batch: seq<DomainEvent>) {
    && (forall i :: 0 <= i < |batch| ==> KeyOf(batch[i]) !in rows)
    && (forall i, j :: 0 <= i < j < |batch| ==> KeyOf(batch[i]) != KeyOf(batch[j]))
  }

  function Inserted(rows: EventTable, batch: seq<DomainEvent>): EventTable {
    if batch == [] then rows
    else
      var last := batch[|batch| - 1];
      Inserted(rows, batch[..|batch| - 1])[KeyOf(last) := last]
  }

  lemma {:induction false} InsertedRows(rows: EventTable, batch: seq<DomainEvent>)
    requires Insertable(rows, batch)
    ensures forall key :: key in Inserted(rows, batch) <==>
      key in rows || exists i :: 0 <= i < |batch| && KeyOf(batch[i]) == key
    ensures forall key :: key in rows ==> Inserted(rows, batch)[key] == rows[key]
    ensures forall i :: 0 <= i < |batch| ==> Inserted(rows, batch)[KeyOf(batch[i])] == batch[i]
  {
    if batch != [] {
      var init, last := batch[..|batch| - 1], batch[|batch| - 1];
      assert forall i :: 0 <= i < |init| ==> init[i] == batch[i];
      InsertedRows(rows, init);
      forall key ensures key in Inserted(rows, batch) <==>
        key in rows || exists i :: 0 <= i < |batch| && KeyOf(batch[i]) == key
      {
        KeysOfBatch(batch, key);
      }
    }
  }

  lemma KeysOfBatch(batch: seq<DomainEvent>, key: (AggregateId, int))
    requires batch != []
    ensures var init := batch[..|batch| - 1];
      (exists i :: 0 <= i < |batch| && KeyOf(batch[i]) == key) <==>
      (exists i :: 0 <= i < |init| && KeyOf(init[i]) == key) || KeyOf(batch[|batch| - 1]) == key
  {
    var init := batch[..|batch| - 1];
    if i :| 0 <= i < |batch| && KeyOf(batch[i]) == key {
      if i < |init| { assert KeyOf(init[i]) == key; }
    }
    if i :| 0 <= i < |init| && KeyOf(init[i]) == key {
      assert KeyOf(batch[i]) == key;
    }
  }

  // ---------- The state after the first n events ----------

  predicate Prefix(rows: EventTable, id: AggregateId, n: int) {
    forall r :: 1 <= r <= n ==> (id, r) in rows
  }

  function Fold(d: Domain, rows: EventTable, id: AggregateId, n: int): State
    requires Prefix(rows, id, n)
    decreases n
  {
    if n <= 0 then d.initialState(id)
    else d.apply(Fold(d, rows, id, n - 1), rows[(id, n)])
  }

  function ApplyAll(d: Domain, state: State, events: seq<DomainEvent>): State {
    if events == [] then state
    else d.apply(ApplyAll(d, state, events[..|events| - 1]), events[|events| - 1])
  }

  /** Every event of the batch is in the table, under its own key. */
  predicate Contains(rows: EventTable, batch: seq<DomainEvent>) {
    forall i :: 0 <= i < |batch| ==> KeyOf(batch[i]) in rows && rows[KeyOf(batch[i])] == batch[i]
  }

  /** The events belong to one aggregate and have the revisions first, first + 1, and so on. */
  predicate FollowsOn(id: AggregateId, first: int, events: seq<DomainEvent>) {
    forall i :: 0 <= i < |events| ==> KeyOf(events[i]) == (id, first + i)
  }

  /** Every row of `rows` is a row of `rows'`. */
  predicate Extends<T(==)>(rows: map<(AggregateId, int), T>, rows': map<(AggregateId, int), T>) {
    forall key :: key in rows ==> key in rows' && rows'[key] == rows[key]
  }

  /** The fold is the last of the states that the events lead through from the initial state. */
  lemma {:induction false} FoldIsTrace(d: Domain, rows: EventTable, id: AggregateId, n: nat)
    returns (states: seq<State>)
    requires Prefix(rows, id, n)
    ensures |states| == n + 1 && states[0] == d.initialState(id) && states[n] == Fold(d, rows, id, n)
    ensures forall i :: 1 <= i <= n ==> states[i] == d.apply(states[i - 1], rows[(id, i)])
  {
    if n == 0 {
      states := [d.initialState(id)];
    } else {
      states := FoldIsTrace(d, rows, id, n - 1);
      states := states + [Fold(d, rows, id, n)];
    }
  }

  /** Applying events is passing through the states they lead to. */
  lemma {:induction false} ApplyAllIsTrace(d: Domain, state: State, events: seq<DomainEvent>)
    returns (states: seq<State>)
    ensures |states| == |events| + 1 && states[0] == state && states[|events|] == ApplyAll(d, state, events)
    ensures forall i :: 0 <= i < |events| ==> states[i + 1] == d.apply(states[i], events[i])
  {
    if events == [] {
      states := [state];
    } else {
      states := ApplyAllIsTrace(d, state, events[..|events| - 1]);
      states := states + [ApplyAll(d, state, events)];
    }
  }

  lemma {:induction false} FoldStable(d: Domain, rows: EventTable, rows': EventTable, id: AggregateId, n: int)
    requires Prefix(rows, id, n) && Extends(rows, rows')
    ensures Prefix(rows', id, n) && Fold(d, rows', id, n) == Fold(d, rows, id, n)
    decreases n
  {
    if n > 0 { FoldStable(d, rows, rows', id, n - 1); }
  }

  /** Applying the events after revision n to the state at n gives the state after them. */
  lemma {:induction false} ApplyAllIsFold(
      d: Domain, rows: EventTable, id: AggregateId, n: nat, events: seq<DomainEvent>)
    requires Prefix(rows, id, n + |events|) && Contains(rows, events) && FollowsOn(id, n + 1, events)
    ensures ApplyAll(d, Fold(d, rows, id, n), events) == Fold(d, rows, id, n + |events|)
    decreases |events|
  {
    if events != [] {
      var init := events[..|events| - 1];
      assert forall i :: 0 <= i < |init| ==> init[i] == events[i];
      ApplyAllIsFold(d, rows, id, n, init);
      assert KeyOf(events[|events| - 1]) == (id, n + |events|);
    }
  }

  // ---------- What holds of the tables in every reachable state ----------

  const MAX_REVISION: int := 0x7FFF_FFFF    // the largest value of the revision column

  predicate InRange(batch: seq<DomainEvent>) {
    forall i :: 0 <= i < |batch| ==> batch[i].revision <= MAX_REVISION
  }

  predicate NoGapBelow(rows: EventTable, id: AggregateId, r: int) {
    (id, r) in rows ==> 1 <= r <= MAX_REVISION && (1 < r ==> (id, r - 1) in rows)
  }

  /** The revisions of every aggregate are 1 .. n, and each row belongs to the aggregate of its key. */
  ghost predicate RowsSound(d: Domain, rows: EventTable) {
    && (forall id, r :: NoGapBelow(rows, id, r))
    && (forall key :: key in rows ==> KeyOf(rows[key]) == key && rows[key].identity == d.identityOf(key.0))
  }

  /** Every snapshot is the fold of the events up to its revision. */
  ghost predicate SnapshotsSound(d: Domain, rows: EventTable, snapshots: SnapshotTable) {
    forall id, r :: (id, r) in snapshots ==>
      1 <= r && Prefix(rows, id, r) && snapshots[(id, r)] == Fold(d, rows, id, r)
  }

  /** The number of events of an aggregate. */
  function Length(rows: EventTable, id: AggregateId): int {
    |RevisionsOf(rows, id)|
  }

  /** The revisions of a reachable table are signed 32-bit integers. */
  lemma SoundInRange(d: Domain, rows: EventTable)
    requires RowsSound(d, rows)
    ensures forall key :: key in rows ==> 1 <= key.1 <= 2147483647
  {
    forall key | key in rows ensures 1 <= key.1 <= 2147483647 {
      assert NoGapBelow(rows, key.0, key.1);
    }
  }

  lemma {:induction false} SoundPrefix(d: Domain, rows: EventTable, id: AggregateId, n: int)
    requires RowsSound(d, rows) && (1 <= n ==> (id, n) in rows)
    ensures Prefix(rows, id, n)
    decreases n
  {
    if 1 < n {
      assert NoGapBelow(rows, id, n);
      SoundPrefix(d, rows, id, n - 1);
    }
  }

  /** The revisions are exactly 1 .. n. */
  lemma SoundRevisions(d: Domain, rows: EventTable, id: AggregateId)
    requires RowsSound(d, rows)
    ensures RevisionsOf(rows, id) == Range(1, Length(rows, id) + 1)
    ensures Prefix(rows, id, Length(rows, id)) && (id, Length(rows, id) + 1) !in rows
    ensures Length(rows, id) <= MAX_REVISION
  {
    var s := RevisionsOf(rows, id);
    if s == {} {
      assert s == Range(1, 1);
    } else {
      var n := Greatest(s);
      SoundPrefix(d, rows, id, n);
      forall r ensures r in s <==> r in Range(1, n + 1) {
        assert NoGapBelow(rows, id, r);
      }
      assert NoGapBelow(rows, id, n);
      assert s == Range(1, n + 1);
      RangeSize(1, n + 1);
    }
  }

  /** A prefix of n events and no event n + 1 means that there are exactly n events. */
  lemma LengthIs(d: Domain, rows: EventTable, id: AggregateId, n: nat)
    requires RowsSound(d, rows) && Prefix(rows, id, n)
    ensures n <= Length(rows, id)
    ensures (id, n + 1) !in rows <==> n == Length(rows, id)
  {
    SoundRevisions(d, rows, id);
    assert n in Range(1, Length(rows, id) + 1) || n == 0;
    if n < Length(rows, id) { assert (id, n + 1) in rows; }
  }

  /** A replay from revision n + 1 yields the events n + 1 .. length, in this order. */
  lemma ReplayIs(d: Domain, rows: EventTable, id: AggregateId, n: nat)
    requires RowsSound(d, rows) && Prefix(rows, id, n)
    ensures n <= Length(rows, id)
    ensures var events := ReplayFrom(rows, id, n + 1, MAX_REVISION);
      && |events| == Length(rows, id) - n
      && Contains(rows, events) && FollowsOn(id, n + 1, events)
  {
    SoundRevisions(d, rows, id);
    LengthIs(d, rows, id, n);
    ReplayOfRange(rows, id, n + 1, Length(rows, id) + 1, MAX_REVISION);
  }

  lemma ReplayOfRange(rows: EventTable, id: AggregateId, from: int, high: int, to: int)
    requires 1 <= from <= high <= to + 1 && RevisionsOf(rows, id) == Range(1, high)
    ensures var events := ReplayFrom(rows, id, from, to);
      && |events| == high - from
      && forall i :: 0 <= i < |events| ==> (id, from + i) in rows && events[i] == rows[(id, from + i)]
  {
    assert RevisionsBetween(rows, id, from, to) == Range(from, high);
    InOrderOfRange(from, high);
    assert forall r :: r in Range(from, high) ==> r in RevisionsOf(rows, id);
  }

  // ---------- Appending a batch keeps the tables sound ----------

  /** Events of one aggregate with the revisions first, first + 1, and so on. */
  ghost predicate Consecutive(d: Domain, id: AggregateId, first: int, batch: seq<DomainEvent>) {
    forall i :: 0 <= i < |batch| ==> batch[i].revision == first + i && batch[i].identity == d.identityOf(id)
  }

  /** The table has grown by exactly the batch. */
  ghost predicate GrownBy(rows: EventTable, rows': EventTable, batch: seq<DomainEvent>) {
    && Extends(rows, rows') && Contains(rows', batch)
    && forall key :: key in rows' && key !in rows ==> exists i :: 0 <= i < |batch| && KeyOf(batch[i]) == key
  }

  lemma InsertedGrows(rows: EventTable, batch: seq<DomainEvent>)
    requires Insertable(rows, batch)
    ensures GrownBy(rows, Inserted(rows, batch), batch)
  {
    InsertedRows(rows, batch);
  }

  /**
   A batch that starts right after an event of the aggregate, or at 1, can be stored only if it starts
   right after the last one; then the revisions stay without gaps.
   */
  lemma AppendedRows(d: Domain, rows: EventTable, id: AggregateId, n: nat, batch: seq<DomainEvent>)
    requires WellFormed(d) && RowsSound(d, rows) && Prefix(rows, id, n)
    requires batch != [] && Consecutive(d, id, n + 1, batch) && Insertable(rows, batch)
    requires n + |batch| <= MAX_REVISION
    ensures n == Length(rows, id)
    ensures var rows' := Inserted(rows, batch);
      && GrownBy(rows, rows', batch) && RowsSound(d, rows')
      && Prefix(rows', id, n + |batch|) && Length(rows', id) == n + |batch|
      && (forall x :: x != id ==> RevisionsOf(rows', x) == RevisionsOf(rows, x))
  {
    assert KeyOf(batch[0]) == (id, n + 1);
    LengthIs(d, rows, id, n);
    SoundRevisions(d, rows, id);
    InsertedGrows(rows, batch);
    var rows' := Inserted(rows, batch);
    hide Insertable, Inserted, Length;
    AppendedKeys(d, rows, rows', id, n, batch);
    AppendedSound(d, rows, rows', id, n, batch);
    AppendedLength(d, rows, rows', id, n, batch);
  }

  lemma AppendedKeys(
      d: Domain, rows: EventTable, rows': EventTable, id: AggregateId, n: nat, batch: seq<DomainEvent>)
    requires WellFormed(d) && GrownBy(rows, rows', batch) && Consecutive(d, id, n + 1, batch)
    ensures forall key :: key in rows' && key !in rows ==> key.0 == id && n < key.1 <= n + |batch|
    ensures forall r :: n < r <= n + |batch| ==> (id, r) in rows' && rows'[(id, r)] == batch[r - n - 1]
  {
    forall key | key in rows' && key !in rows ensures key.0 == id && n < key.1 <= n + |batch| {
      var i :| 0 <= i < |batch| && KeyOf(batch[i]) == key;
    }
    forall r | n < r <= n + |batch| ensures (id, r) in rows' && rows'[(id, r)] == batch[r - n - 1] {
      assert KeyOf(batch[r - n - 1]) == (id, r);
    }
  }

  lemma AppendedSound(
      d: Domain, rows: EventTable, rows': EventTable, id: AggregateId, n: nat, batch: seq<DomainEvent>)
    requires WellFormed(d) && RowsSound(d, rows) && Prefix(rows, id, n) && Extends(rows, rows')
    requires Consecutive(d, id, n + 1, batch) && n + |batch| <= MAX_REVISION
    requires forall r :: n < r <= n + |batch| ==> (id, r) in rows' && rows'[(id, r)] == batch[r - n - 1]
    requires forall key :: key in rows' && key !in rows ==> key.0 == id && n < key.1 <= n + |batch|
    ensures RowsSound(d, rows') && Prefix(rows', id, n + |batch|)
  {
    forall x, r ensures NoGapBelow(rows', x, r) {
      assert NoGapBelow(rows, x, r);
    }
    forall key | key in rows' ensures KeyOf(rows'[key]) == key && rows'[key].identity == d.identityOf(key.0) {
      if key !in rows { assert rows'[(id, key.1)] == batch[key.1 - n - 1]; }
    }
  }

  lemma AppendedLength(
      d: Domain, rows: EventTable, rows': EventTable, id: AggregateId, n: nat, batch: seq<DomainEvent>)
    requires RowsSound(d, rows') && Extends(rows, rows') && Prefix(rows', id, n + |batch|)
    requires (id, n + |batch| + 1) !in rows
    requires forall key :: key in rows' && key !in rows ==> key.0 == id && n < key.1 <= n + |batch|
    ensures Length(rows', id) == n + |batch|
    ensures forall x :: x != id ==> RevisionsOf(rows', x) == RevisionsOf(rows, x)
  {
    LengthIs(d, rows', id, n + |batch|);
    forall x | x != id ensures RevisionsOf(rows', x) == RevisionsOf(rows, x) {
      forall r ensures r in RevisionsOf(rows', x) <==> r in RevisionsOf(rows, x) {
        assert (x, r) in rows' <==> (x, r) in rows;
      }
    }
  }

  lemma SnapshotsStable(d: Domain, rows: EventTable, rows': EventTable, snapshots: SnapshotTable)
    requires SnapshotsSound(d, rows, snapshots) && Extends(rows, rows')
    ensures SnapshotsSound(d, rows', snapshots)
  {
    forall id, r | (id, r) in snapshots
      ensures 1 <= r && Prefix(rows', id, r) && snapshots[(id, r)] == Fold(d, rows', id, r)
    {
      FoldStable(d, rows, rows', id, r);
    }
  }
}
