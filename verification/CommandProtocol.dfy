/**
 Commands as a state machine: any number of aggregate instances over one pair of tables, each one
 advancing from one database call to the next, in every interleaving. The calls on one instance do
 not overlap. The snapshot strategy may decide anything.
 */
module CommandProtocol {
  import opened Wrappers
  import opened TableQueries
  import opened DomainEvents

  type InstanceId = nat

  /** Where an instance stands between two of its database calls. */
  datatype Phase =
    | Starting
    | Restored                                      // snapshot applied, if there was one
    | Replayed(replayed: int)                       // later events applied
    | Ready
    | Checked(command: CommandId)                   // events built, not stored yet
    | Publishing(command: CommandId, batch: seq<DomainEvent>)

  datatype Instance = Instance(
    id: AggregateId, state: State, revision: int, unstored: seq<DomainEvent>, phase: Phase)

  datatype World = World(rows: EventTable, snapshots: SnapshotTable, instances: map<InstanceId, Instance>)

  datatype Label =
    | Begin(x: InstanceId, id: AggregateId)
    | Restore(x: InstanceId)
    | Replay(x: InstanceId)
    | SaveSnapshot(x: InstanceId)
    | SkipSnapshot(x: InstanceId)
    | Duplicate(x: InstanceId, command: CommandId)
    | Check(x: InstanceId, command: CommandId, datas: seq<Data>)
    | Store(x: InstanceId, command: CommandId, batch: seq<DomainEvent>)
    | Reject(x: InstanceId, command: CommandId)
    | Publish(x: InstanceId, command: CommandId, batch: seq<DomainEvent>)

  // ---------- What an instance computes between the calls ----------

  function WithSnapshot(x: Instance, s: Option<Snapshot>): Instance {
    match s
    case None => x.(phase := Restored)
    case Some(s) => x.(state := s.state, revision := s.revision, phase := Restored)
  }

  function WithEvents(d: Domain, x: Instance, events: seq<DomainEvent>): Instance {
    x.(state := ApplyAll(d, x.state, events),
       revision := if events == [] then x.revision else events[|events| - 1].revision)
  }

  /** The events a command adds to those not stored yet, numbered on from the revision. */
  function Built(d: Domain, x: Instance, command: CommandId, datas: seq<Data>): seq<DomainEvent> {
    seq(|datas|, i requires 0 <= i < |datas| =>
      DomainEvent(d.identityOf(x.id), datas[i], command, x.revision + (|x.unstored| + i) + 1))
  }

  // ---------- Steps ----------

  ghost predicate Moves(d: Domain, w: World, l: Label, w': World)
    requires l.Begin? || l.x in w.instances
  {
    if l.Begin? then
      && l.x !in w.instances
      && w' == w.(instances := w.instances[l.x := Instance(l.id, d.initialState(l.id), 0, [], Starting)])
    else
      var x := w.instances[l.x];
      match l
      case Begin(_, _) => false
      case Restore(i) =>
        && x.phase == Starting
        && w' == w.(instances := w.instances[i := WithSnapshot(x, NewestSnapshot(w.snapshots, x.id))])
      case Replay(i) =>
        var events := ReplayFrom(w.rows, x.id, x.revision + 1, MAX_REVISION);
        && x.phase == Restored
        && w' == w.(instances := w.instances[i := WithEvents(d, x, events).(phase := Replayed(|events|))])
      case SaveSnapshot(i) =>
        var key := (x.id, x.revision);
        && x.phase.Replayed? && 0 < x.phase.replayed
        && w' == World(
             w.rows,
             if key in w.snapshots then w.snapshots else w.snapshots[key := x.state],
             w.instances[i := x.(phase := Ready)])
      case SkipSnapshot(i) =>
        && x.phase.Replayed?
        && w' == w.(instances := w.instances[i := x.(phase := Ready)])
      case Duplicate(i, command) =>
        && x.phase == Ready && HasCausation(w.rows, command)
        && w' == w.(instances := w.instances[i := x.(phase := Publishing(command, []))])
      case Check(i, command, datas) =>
        && x.phase == Ready && !HasCausation(w.rows, command)
        && w' == w.(instances := w.instances[
             i := x.(unstored := x.unstored + Built(d, x, command, datas), phase := Checked(command))])
      case Store(i, command, batch) =>
        && x.phase == Checked(command) && batch == x.unstored
        && Insertable(w.rows, batch) && InRange(batch)
        && w' == World(
             Inserted(w.rows, batch),
             w.snapshots,
             w.instances[i := WithEvents(d, x, batch).(unstored := [], phase := Publishing(command, batch))])
      case Reject(i, command) =>
        && x.phase == Checked(command)
        && !(Insertable(w.rows, x.unstored) && InRange(x.unstored))
        && w' == w.(instances := w.instances[i := x.(phase := Ready)])
      case Publish(i, command, batch) =>
        && x.phase == Publishing(command, batch)
        && w' == w.(instances := w.instances[i := x.(phase := Ready)])
  }

  ghost predicate Step(d: Domain, w: World, l: Label, w': World) {
    (l.Begin? || l.x in w.instances) && Moves(d, w, l, w')
  }

  // ---------- The invariant ----------

  predicate AllCaused(batch: seq<DomainEvent>, c: CommandId) {
    forall i :: 0 <= i < |batch| ==> Caused(batch[i], c)
  }

  /** No event of the aggregate was caused by the command. */
  predicate NoneCaused(rows: EventTable, id: AggregateId, c: CommandId) {
    forall key :: key in rows && key.0 == id ==> !Caused(rows[key], c)
  }

  /**
   The instance cannot store what it holds, now or later: the revision after the last one it has seen
   is taken, or its events have more revisions than the column can hold.
   */
  predicate Stuck(rows: EventTable, x: Instance) {
    (x.id, x.revision + 1) in rows || !InRange(x.unstored)
  }

  ghost predicate StateOk(d: Domain, rows: EventTable, x: Instance) {
    0 <= x.revision && Prefix(rows, x.id, x.revision) && x.state == Fold(d, rows, x.id, x.revision)
  }

  ghost predicate PhaseOk(d: Domain, rows: EventTable, x: Instance) {
    match x.phase
    case Starting => x.unstored == [] && x.revision == 0
    case Restored => x.unstored == []
    case Replayed(n) => x.unstored == [] && n <= x.revision
    case Ready => x.unstored != [] ==> Stuck(rows, x)
    case Checked(c) => Stuck(rows, x) || (AllCaused(x.unstored, c) && NoneCaused(rows, x.id, c))
    case Publishing(c, batch) =>
      && (x.unstored != [] ==> Stuck(rows, x))
      && Contains(rows, batch) && AllCaused(batch, c)
      && exists first :: Consecutive(d, x.id, first, batch)
  }

  ghost predicate InstanceOk(d: Domain, rows: EventTable, x: Instance) {
    StateOk(d, rows, x) && Consecutive(d, x.id, x.revision + 1, x.unstored) && PhaseOk(d, rows, x)
  }

  ghost predicate Inv(d: Domain, w: World) {
    && RowsSound(d, w.rows) && SnapshotsSound(d, w.rows, w.snapshots)
    && forall i :: i in w.instances ==> InstanceOk(d, w.rows, w.instances[i])
  }

  // ---------- Every step keeps the invariant ----------

  lemma StuckCannotStore(d: Domain, rows: EventTable, x: Instance)
    requires WellFormed(d) && Stuck(rows, x) && x.unstored != []
    requires Consecutive(d, x.id, x.revision + 1, x.unstored)
    ensures !(Insertable(rows, x.unstored) && InRange(x.unstored))
  {
    assert KeyOf(x.unstored[0]) == (x.id, x.revision + 1);
  }

  /** An instance that is refused although its events are in range finds its next revision taken. */
  lemma RefusedIsStuck(d: Domain, rows: EventTable, x: Instance)
    requires WellFormed(d) && RowsSound(d, rows) && Consecutive(d, x.id, x.revision + 1, x.unstored)
    requires 0 <= x.revision && !(Insertable(rows, x.unstored) && InRange(x.unstored))
    ensures Stuck(rows, x) && x.unstored != []
  {
    if InRange(x.unstored) {
      ClashIsTaken(d, rows, x);
    }
  }

  /** If any of its revisions is taken, so is the one after the last revision the instance has seen. */
  lemma ClashIsTaken(d: Domain, rows: EventTable, x: Instance)
    requires WellFormed(d) && RowsSound(d, rows) && Consecutive(d, x.id, x.revision + 1, x.unstored)
    requires 0 <= x.revision && !Insertable(rows, x.unstored)
    ensures (x.id, x.revision + 1) in rows
  {
    forall i, j | 0 <= i < j < |x.unstored| ensures KeyOf(x.unstored[i]) != KeyOf(x.unstored[j]) {}
    var i :| 0 <= i < |x.unstored| && KeyOf(x.unstored[i]) in rows;
    assert KeyOf(x.unstored[i]) == (x.id, x.revision + 1 + i);
    SoundPrefix(d, rows, x.id, x.revision + 1 + i);
  }

  /** A store by one instance leaves the others in order, and those at the same revision stuck. */
  lemma OtherKept(
      d: Domain, rows: EventTable, rows': EventTable, id: AggregateId, n: nat, batch: seq<DomainEvent>,
      x: Instance)
    requires WellFormed(d) && RowsSound(d, rows) && GrownBy(rows, rows', batch) && batch != []
    requires Consecutive(d, id, n + 1, batch) && n == Length(rows, id)
    requires InstanceOk(d, rows, x)
    ensures InstanceOk(d, rows', x)
  {
    hide RowsSound, StateOk, PhaseOk, Consecutive, GrownBy;
    StateKept(d, rows, rows', x);
    PhaseKept(d, rows, rows', id, n, batch, x);
  }

  lemma GrownExtends(rows: EventTable, rows': EventTable, batch: seq<DomainEvent>)
    requires GrownBy(rows, rows', batch)
    ensures Extends(rows, rows') && Contains(rows', batch)
  {}

  lemma StateKept(d: Domain, rows: EventTable, rows': EventTable, x: Instance)
    requires StateOk(d, rows, x) && exists batch :: GrownBy(rows, rows', batch)
    ensures StateOk(d, rows', x)
  {
    FoldStable(d, rows, rows', x.id, x.revision);
  }

  lemma PhaseKept(
      d: Domain, rows: EventTable, rows': EventTable, id: AggregateId, n: nat, batch: seq<DomainEvent>,
      x: Instance)
    requires WellFormed(d) && RowsSound(d, rows) && GrownBy(rows, rows', batch) && batch != []
    requires Consecutive(d, id, n + 1, batch) && n == Length(rows, id)
    requires StateOk(d, rows, x) && PhaseOk(d, rows, x)
    ensures PhaseOk(d, rows', x)
  {
    GrownExtends(rows, rows', batch);
    if x.phase.Checked? && !Stuck(rows, x) {
      CheckedKept(d, rows, rows', id, n, batch, x);
    }
    hide RowsSound, StateOk, InRange, GrownBy, Consecutive, WellFormed, Length, NoneCaused, AllCaused;
  }

  lemma CheckedKept(
      d: Domain, rows: EventTable, rows': EventTable, id: AggregateId, n: nat, batch: seq<DomainEvent>,
      x: Instance)
    requires WellFormed(d) && RowsSound(d, rows) && GrownBy(rows, rows', batch) && batch != []
    requires Consecutive(d, id, n + 1, batch) && n == Length(rows, id)
    requires StateOk(d, rows, x) && PhaseOk(d, rows, x) && x.phase.Checked? && !Stuck(rows, x)
    ensures PhaseOk(d, rows', x)
  {
    hide RowsSound, StateOk, InRange, Consecutive, WellFormed, Length, Caused, GrownBy;
    if x.id == id {
      NextIsTaken(d, rows, rows', n, batch, x);
    } else {
      AppendedKeys(d, rows, rows', id, n, batch);
      GrownExtends(rows, rows', batch);
      forall key | key in rows' && key.0 == x.id ensures !Caused(rows'[key], x.phase.command) {
        assert key in rows;
      }
    }
  }

  /** Another instance at the end of the aggregate finds its next revision taken. */
  lemma NextIsTaken(
      d: Domain, rows: EventTable, rows': EventTable, n: nat, batch: seq<DomainEvent>, x: Instance)
    requires WellFormed(d) && RowsSound(d, rows) && GrownBy(rows, rows', batch) && batch != []
    requires Consecutive(d, x.id, n + 1, batch) && n == Length(rows, x.id)
    requires StateOk(d, rows, x) && (x.id, x.revision + 1) !in rows
    ensures (x.id, x.revision + 1) in rows'
  {
    hide Consecutive, GrownBy, WellFormed, RowsSound, Length;
    LengthIs(d, rows, x.id, x.revision);
    hide StateOk, Prefix;
    AppendedKeys(d, rows, rows', x.id, n, batch);
  }

  lemma StoreKeepsOwn(d: Domain, rows: EventTable, x: Instance, command: CommandId)
    requires WellFormed(d) && RowsSound(d, rows) && InstanceOk(d, rows, x)
    requires x.phase == Checked(command) && x.unstored != []
    requires Insertable(rows, x.unstored) && InRange(x.unstored)
    ensures InstanceOk(d, Inserted(rows, x.unstored),
      WithEvents(d, x, x.unstored).(unstored := [], phase := Publishing(command, x.unstored)))
    ensures AllCaused(x.unstored, command) && NoneCaused(rows, x.id, command)
  {
    hide Insertable, Inserted, RowsSound, InRange, Prefix, Fold, Consecutive, Length, GrownBy, Contains, RevisionsOf,
      WellFormed, Stuck, ApplyAll;
    var batch, rows' := x.unstored, Inserted(rows, x.unstored);
    StuckCannotStoreContra(d, rows, x);
    LastInRange(d, x);
    AppendedRows(d, rows, x.id, x.revision, batch);
    NothingUnstored(d, x.id, x.revision + |batch| + 1);
    StoredState(d, rows, rows', x);
  }

  lemma NothingUnstored(d: Domain, id: AggregateId, first: int)
    ensures Consecutive(d, id, first, [])
  {}

  lemma LastInRange(d: Domain, x: Instance)
    requires Consecutive(d, x.id, x.revision + 1, x.unstored) && InRange(x.unstored) && x.unstored != []
    ensures x.revision + |x.unstored| <= MAX_REVISION
    ensures x.unstored[|x.unstored| - 1].revision == x.revision + |x.unstored|
  {
    assert x.unstored[|x.unstored| - 1].revision == x.revision + |x.unstored|;
  }

  /** After a store the instance is at the end of what it has stored. */
  lemma StoredState(d: Domain, rows: EventTable, rows': EventTable, x: Instance)
    requires WellFormed(d) && StateOk(d, rows, x) && GrownBy(rows, rows', x.unstored) && x.unstored != []
    requires Consecutive(d, x.id, x.revision + 1, x.unstored)
    requires Prefix(rows', x.id, x.revision + |x.unstored|)
    ensures Contains(rows', x.unstored)
    ensures StateOk(d, rows', WithEvents(d, x, x.unstored))
    ensures WithEvents(d, x, x.unstored).revision == x.revision + |x.unstored|
  {
    var batch := x.unstored;
    GrownExtends(rows, rows', batch);
    hide GrownBy, Prefix, Fold, Contains, ApplyAll, Extends;
    FoldStable(d, rows, rows', x.id, x.revision);
    ConsecutiveFollows(d, x.id, x.revision + 1, batch);
    hide WellFormed, FollowsOn;
    ApplyAllIsFold(d, rows', x.id, x.revision, batch);
    assert batch[|batch| - 1].revision == x.revision + |batch|;
  }

  lemma ConsecutiveFollows(d: Domain, id: AggregateId, first: int, batch: seq<DomainEvent>)
    requires WellFormed(d) && Consecutive(d, id, first, batch)
    ensures FollowsOn(id, first, batch)
  {}

  lemma StuckCannotStoreContra(d: Domain, rows: EventTable, x: Instance)
    requires WellFormed(d) && x.unstored != [] && Consecutive(d, x.id, x.revision + 1, x.unstored)
    requires Insertable(rows, x.unstored) && InRange(x.unstored)
    ensures !Stuck(rows, x)
  {
    if Stuck(rows, x) { StuckCannotStore(d, rows, x); }
  }

  lemma CheckKeepsOwn(d: Domain, rows: EventTable, x: Instance, command: CommandId, datas: seq<Data>)
    requires InstanceOk(d, rows, x) && x.phase == Ready && !HasCausation(rows, command)
    ensures InstanceOk(d, rows,
      x.(unstored := x.unstored + Built(d, x, command, datas), phase := Checked(command)))
  {
    var y := x.(unstored := x.unstored + Built(d, x, command, datas), phase := Checked(command));
    if x.unstored != [] && !InRange(x.unstored) {
      var i :| 0 <= i < |x.unstored| && x.unstored[i].revision > MAX_REVISION;
      assert y.unstored[i] == x.unstored[i];
    }
  }

  lemma RestoreKeepsOwn(d: Domain, w: World, x: Instance)
    requires SnapshotsSound(d, w.rows, w.snapshots) && InstanceOk(d, w.rows, x) && x.phase == Starting
    ensures InstanceOk(d, w.rows, WithSnapshot(x, NewestSnapshot(w.snapshots, x.id)))
  {}

  lemma ReplayKeepsOwn(d: Domain, rows: EventTable, x: Instance)
    requires RowsSound(d, rows) && InstanceOk(d, rows, x) && x.phase == Restored
    ensures var events := ReplayFrom(rows, x.id, x.revision + 1, MAX_REVISION);
      var y := WithEvents(d, x, events).(phase := Replayed(|events|));
      InstanceOk(d, rows, y) && y.revision == Length(rows, x.id)
  {
    hide RowsSound, Prefix, Fold, ReplayFrom, ApplyAll, Length;
    var events := ReplayFrom(rows, x.id, x.revision + 1, MAX_REVISION);
    ReplayIs(d, rows, x.id, x.revision);
    SoundRevisions(d, rows, x.id);
    ApplyAllIsFold(d, rows, x.id, x.revision, events);
    if events != [] {
      assert KeyOf(events[|events| - 1]) == (x.id, x.revision + |events|);
    }
  }

  lemma StepKeepsInv(d: Domain, w: World, l: Label, w': World)
    requires WellFormed(d) && Inv(d, w) && Step(d, w, l, w')
    ensures Inv(d, w')
  {
    hide InstanceOk, RowsSound, SnapshotsSound, Insertable, Inserted, InRange, HasCausation, NewestSnapshot,
      WithSnapshot, WithEvents, Built, ReplayFrom, ApplyAll;
    if l.Begin? {
      BeginOk(d, w.rows, l.id);
    } else {
      var x := w.instances[l.x];
      match l
      case Restore(_) => RestoreKeepsOwn(d, w, x);
      case Replay(_) => ReplayKeepsOwn(d, w.rows, x);
      case Check(_, command, datas) => CheckKeepsOwn(d, w.rows, x, command, datas);
      case Store(_, command, batch) => StoreKeepsInv(d, w, l, w');
      case _ => LocalKeepsOwn(d, w, l, x);
    }
  }

  lemma BeginOk(d: Domain, rows: EventTable, id: AggregateId)
    ensures InstanceOk(d, rows, Instance(id, d.initialState(id), 0, [], Starting))
  {}

  lemma LocalKeepsOwn(d: Domain, w: World, l: Label, x: Instance)
    requires WellFormed(d) && RowsSound(d, w.rows) && SnapshotsSound(d, w.rows, w.snapshots)
    requires InstanceOk(d, w.rows, x)
    ensures l.SaveSnapshot? && x.phase.Replayed? && 0 < x.phase.replayed ==>
      && InstanceOk(d, w.rows, x.(phase := Ready))
      && SnapshotsSound(d, w.rows, w.snapshots[(x.id, x.revision) := x.state])
    ensures l.SkipSnapshot? && x.phase.Replayed? ==> InstanceOk(d, w.rows, x.(phase := Ready))
    ensures l.Duplicate? && x.phase == Ready ==> InstanceOk(d, w.rows, x.(phase := Publishing(l.command, [])))
    ensures l.Reject? && x.phase == Checked(l.command) && !(Insertable(w.rows, x.unstored) && InRange(x.unstored)) ==>
      InstanceOk(d, w.rows, x.(phase := Ready))
    ensures l.Publish? && x.phase.Publishing? ==> InstanceOk(d, w.rows, x.(phase := Ready))
  {
    assert Consecutive(d, x.id, 0, []);
    if l.Reject? && !(Insertable(w.rows, x.unstored) && InRange(x.unstored)) {
      RefusedIsStuck(d, w.rows, x);
    }
    hide Insertable, InRange, RowsSound, Fold;
  }

  lemma StoreKeepsInv(d: Domain, w: World, l: Label, w': World)
    requires WellFormed(d) && Inv(d, w) && Step(d, w, l, w') && l.Store?
    ensures Inv(d, w')
  {
    hide InstanceOk, RowsSound, SnapshotsSound, Insertable, Inserted, InRange, WithEvents, GrownBy;
    var x := w.instances[l.x];
    if l.batch == [] {
      StoreNothing(d, w.rows, x, l.command);
    } else {
      StoreKeepsOwn(d, w.rows, x, l.command);
      StoreGrows(d, w.rows, x, l.command);
      GrownExtends(w.rows, w'.rows, l.batch);
      SnapshotsStable(d, w.rows, w'.rows, w.snapshots);
      forall i | i in w.instances && i != l.x ensures InstanceOk(d, w'.rows, w.instances[i]) {
        OtherKept(d, w.rows, w'.rows, x.id, x.revision, l.batch, w.instances[i]);
      }
    }
  }

  lemma StoreNothing(d: Domain, rows: EventTable, x: Instance, command: CommandId)
    requires InstanceOk(d, rows, x) && x.phase == Checked(command) && x.unstored == []
    ensures Inserted(rows, x.unstored) == rows
    ensures Extends(rows, rows) && Contains(rows, x.unstored)
    ensures FollowsOn(x.id, Length(rows, x.id) + 1, x.unstored)
    ensures InstanceOk(d, rows,
      WithEvents(d, x, x.unstored).(unstored := [], phase := Publishing(command, x.unstored)))
  {
    assert Consecutive(d, x.id, 0, []);
  }

  /** A successful store appends the whole batch of the writer to its aggregate, and nothing else. */
  lemma StoreGrows(d: Domain, rows: EventTable, x: Instance, command: CommandId)
    requires WellFormed(d) && RowsSound(d, rows) && InstanceOk(d, rows, x)
    requires x.phase == Checked(command) && x.unstored != []
    requires Insertable(rows, x.unstored) && InRange(x.unstored)
    ensures 0 <= x.revision == Length(rows, x.id) && Consecutive(d, x.id, x.revision + 1, x.unstored)
    ensures var rows' := Inserted(rows, x.unstored);
      && GrownBy(rows, rows', x.unstored) && RowsSound(d, rows')
      && Extends(rows, rows') && Contains(rows', x.unstored) && FollowsOn(x.id, x.revision + 1, x.unstored)
      && Length(rows', x.id) == x.revision + |x.unstored|
      && (forall other :: other != x.id ==> RevisionsOf(rows', other) == RevisionsOf(rows, other))
  {
    hide Insertable, Inserted, RowsSound, InRange, Prefix, Fold, Consecutive, Length, GrownBy, Extends, Contains,
      RevisionsOf, WellFormed, PhaseOk, FollowsOn;
    LastInRange(d, x);
    AppendedRows(d, rows, x.id, x.revision, x.unstored);
    GrownExtends(rows, Inserted(rows, x.unstored), x.unstored);
    ConsecutiveFollows(d, x.id, x.revision + 1, x.unstored);
  }

  // ---------- What an instance may rely on while it awaits ----------

  /** How the tables may have changed while other instances acted. */
  ghost predicate OthersActed(
      d: Domain, rows: EventTable, snapshots: SnapshotTable, rows': EventTable, snapshots': SnapshotTable)
  {
    && RowsSound(d, rows') && SnapshotsSound(d, rows', snapshots')
    && Extends(rows, rows') && Extends(snapshots, snapshots')
    && forall x :: InstanceOk(d, rows, x) ==> InstanceOk(d, rows', x)
  }

  /** Every step of any instance is such a change. */
  lemma StepActs(d: Domain, w: World, l: Label, w': World)
    requires WellFormed(d) && Inv(d, w) && Step(d, w, l, w')
    ensures OthersActed(d, w.rows, w.snapshots, w'.rows, w'.snapshots)
  {
    StepKeepsInv(d, w, l, w');
    if l.Store? {
      StoreActs(d, w, l, w');
    } else {
      LocalActs(d, w, l, w');
    }
    hide InstanceOk, RowsSound, SnapshotsSound, Step, Extends;
  }

  lemma LocalActs(d: Domain, w: World, l: Label, w': World)
    requires Step(d, w, l, w') && !l.Store?
    ensures w'.rows == w.rows && Extends(w.rows, w'.rows) && Extends(w.snapshots, w'.snapshots)
  {}

  lemma StoreActs(d: Domain, w: World, l: Label, w': World)
    requires WellFormed(d) && Inv(d, w) && Step(d, w, l, w') && l.Store?
    ensures w'.snapshots == w.snapshots && Extends(w.snapshots, w'.snapshots) && Extends(w.rows, w'.rows)
    ensures forall y :: InstanceOk(d, w.rows, y) ==> InstanceOk(d, w'.rows, y)
  {
    hide Inv, Step, InstanceOk, RowsSound, Insertable, InRange, Inserted, Length, Contains, FollowsOn, RevisionsOf;
    StoreTakes(d, w, l, w');
    StoreEffect(d, w, l, w');
    var x := w.instances[l.x];
    InvParts(d, w, l.x);
    if l.batch != [] {
      AllKept(d, w.rows, x, l.command);
    } else {
      StoreNothing(d, w.rows, x, l.command);
    }
  }

  lemma InvParts(d: Domain, w: World, i: InstanceId)
    requires Inv(d, w) && i in w.instances
    ensures RowsSound(d, w.rows) && InstanceOk(d, w.rows, w.instances[i])
  {}

  lemma AllKept(d: Domain, rows: EventTable, x: Instance, command: CommandId)
    requires WellFormed(d) && RowsSound(d, rows) && InstanceOk(d, rows, x)
    requires x.phase == Checked(command) && x.unstored != []
    requires Insertable(rows, x.unstored) && InRange(x.unstored)
    ensures forall y :: InstanceOk(d, rows, y) ==> InstanceOk(d, Inserted(rows, x.unstored), y)
  {
    hide InstanceOk, RowsSound, Insertable, InRange, Inserted, Length, GrownBy, RevisionsOf, Consecutive, WellFormed;
    StoreGrows(d, rows, x, command);
    forall y | InstanceOk(d, rows, y) ensures InstanceOk(d, Inserted(rows, x.unstored), y) {
      OtherKept(d, rows, Inserted(rows, x.unstored), x.id, x.revision, x.unstored, y);
    }
  }

  lemma ActedReflexive(d: Domain, rows: EventTable, snapshots: SnapshotTable)
    requires RowsSound(d, rows) && SnapshotsSound(d, rows, snapshots)
    ensures OthersActed(d, rows, snapshots, rows, snapshots)
  {}

  lemma ActedTransitive(
      d: Domain, r1: EventTable, s1: SnapshotTable, r2: EventTable, s2: SnapshotTable,
      r3: EventTable, s3: SnapshotTable)
    requires OthersActed(d, r1, s1, r2, s2) && OthersActed(d, r2, s2, r3, s3)
    ensures OthersActed(d, r1, s1, r3, s3)
  {
    hide InstanceOk, RowsSound, SnapshotsSound;
  }

  // ---------- One instance alone ----------

  const SELF: InstanceId := 0

  function Alone(rows: EventTable, snapshots: SnapshotTable, x: Instance): World {
    World(rows, snapshots, map[SELF := x])
  }

  /** The same step, made by instance i. */
  function By(l: Label, i: InstanceId): Label {
    match l
    case Begin(_, id) => Begin(i, id)
    case Restore(_) => Restore(i)
    case Replay(_) => Replay(i)
    case SaveSnapshot(_) => SaveSnapshot(i)
    case SkipSnapshot(_) => SkipSnapshot(i)
    case Duplicate(_, command) => Duplicate(i, command)
    case Check(_, command, datas) => Check(i, command, datas)
    case Store(_, command, batch) => Store(i, command, batch)
    case Reject(_, command) => Reject(i, command)
    case Publish(_, command, batch) => Publish(i, command, batch)
  }

  /** What an instance may do alone it may do, under any name, among any others. */
  lemma StepAnywhere(
      d: Domain, l: Label, w: World, i: InstanceId, rows': EventTable, snapshots': SnapshotTable, x': Instance)
    requires i in w.instances && !l.Begin? && l.x == SELF
    requires Step(d, Alone(w.rows, w.snapshots, w.instances[i]), l, Alone(rows', snapshots', x'))
    ensures Step(d, w, By(l, i), World(rows', snapshots', w.instances[i := x']))
  {
    var m, m' := map[SELF := w.instances[i]], map[SELF := x'];
    assert m'[SELF] == x';
    hide Inserted, WithEvents, WithSnapshot, NewestSnapshot, Built, ReplayFrom, Insertable, InRange, HasCausation;
  }

  lemma AloneActs(d: Domain, w: World, l: Label, w': World)
    requires WellFormed(d) && RowsSound(d, w.rows) && SnapshotsSound(d, w.rows, w.snapshots)
    requires w.instances.Keys == {SELF} && InstanceOk(d, w.rows, w.instances[SELF])
    requires Step(d, w, l, w') && w'.instances.Keys == {SELF}
    ensures RowsSound(d, w'.rows) && SnapshotsSound(d, w'.rows, w'.snapshots)
    ensures InstanceOk(d, w'.rows, w'.instances[SELF])
    ensures OthersActed(d, w.rows, w.snapshots, w'.rows, w'.snapshots)
  {
    hide InstanceOk, RowsSound, SnapshotsSound, Step;
    StepKeepsInv(d, w, l, w');
    StepActs(d, w, l, w');
  }

  // ---------- Every run ----------

  datatype Run = Run(states: seq<World>, labels: seq<Label>)

  ghost predicate StepAt(d: Domain, r: Run, k: nat)
    requires |r.states| == |r.labels| + 1 && k < |r.labels|
  {
    Step(d, r.states[k], r.labels[k], r.states[k + 1])
  }

  ghost predicate IsRun(d: Domain, r: Run) {
    && WellFormed(d) && |r.states| == |r.labels| + 1
    && r.states[0] == World(map[], map[], map[])
    && forall k :: 0 <= k < |r.labels| ==> StepAt(d, r, k)
  }

  lemma {:induction false} ReachableInv(d: Domain, r: Run, k: nat)
    requires IsRun(d, r) && k < |r.states|
    ensures Inv(d, r.states[k])
  {
    if k > 0 {
      ReachableInv(d, r, k - 1);
      assert StepAt(d, r, k - 1);
      StepKeepsInv(d, r.states[k - 1], r.labels[k - 1], r.states[k]);
    }
  }

  /** The revisions of every aggregate are exactly 1 .. n, whoever raced to write them. */
  lemma RevisionsAreGapFree(d: Domain, r: Run, k: nat, id: AggregateId)
    requires IsRun(d, r) && k < |r.states|
    ensures var rows := r.states[k].rows; RevisionsOf(rows, id) == Range(1, Length(rows, id) + 1)
  {
    ReachableInv(d, r, k);
    SoundRevisions(d, r.states[k].rows, id);
  }

  /** Restoring from the newest snapshot and replaying the rest is folding all events from the start. */
  lemma CreateIsFold(d: Domain, r: Run, k: nat)
    requires IsRun(d, r) && k < |r.labels| && r.labels[k].Replay?
    ensures var w, i := r.states[k + 1], r.labels[k].x;
      && i in w.instances
      && var x := w.instances[i];
      && x.revision == Length(w.rows, x.id)
      && Prefix(w.rows, x.id, x.revision) && x.state == Fold(d, w.rows, x.id, x.revision)
  {
    ReachableInv(d, r, k);
    assert StepAt(d, r, k);
    ReplayKeepsOwn(d, r.states[k].rows, r.states[k].instances[r.labels[k].x]);
  }

  /**
   At any time, and after any commands, the live state of an instance is what a fresh instance computes
   from the events up to the same revision.
   */
  lemma LiveStateIsFold(d: Domain, r: Run, k: nat, i: InstanceId)
    requires IsRun(d, r) && k < |r.states| && i in r.states[k].instances
    ensures var rows, x := r.states[k].rows, r.states[k].instances[i];
      0 <= x.revision <= Length(rows, x.id) && Prefix(rows, x.id, x.revision)
      && x.state == Fold(d, rows, x.id, x.revision)
  {
    ReachableInv(d, r, k);
    assert InstanceOk(d, r.states[k].rows, r.states[k].instances[i]);
    LengthIs(d, r.states[k].rows, r.states[k].instances[i].id, r.states[k].instances[i].revision);
  }

  /** A successful store appends the writer's whole batch to its aggregate and touches no other. */
  lemma StoreAppendsBatch(d: Domain, r: Run, k: nat)
    requires IsRun(d, r) && k < |r.labels| && r.labels[k].Store?
    ensures r.labels[k].x in r.states[k].instances
    ensures var rows, rows' := r.states[k].rows, r.states[k + 1].rows;
      var id, batch := r.states[k].instances[r.labels[k].x].id, r.labels[k].batch;
      && Extends(rows, rows') && Contains(rows', batch)
      && FollowsOn(id, Length(rows, id) + 1, batch)
      && Length(rows', id) == Length(rows, id) + |batch|
      && forall other :: other != id ==> RevisionsOf(rows', other) == RevisionsOf(rows, other)
  {
    ReachableInv(d, r, k);
    assert StepAt(d, r, k);
    StoreEffect(d, r.states[k], r.labels[k], r.states[k + 1]);
  }

  lemma StoreEffect(d: Domain, w: World, l: Label, w': World)
    requires WellFormed(d) && Inv(d, w) && Step(d, w, l, w') && l.Store?
    ensures l.x in w.instances
    ensures var id := w.instances[l.x].id;
      && Extends(w.rows, w'.rows) && Contains(w'.rows, l.batch)
      && FollowsOn(id, Length(w.rows, id) + 1, l.batch)
      && Length(w'.rows, id) == Length(w.rows, id) + |l.batch|
      && forall other :: other != id ==> RevisionsOf(w'.rows, other) == RevisionsOf(w.rows, other)
  {
    hide InstanceOk, RowsSound, Insertable, InRange, Inserted, Inv, Step, Length, Extends, Contains, FollowsOn,
      Consecutive, WithEvents, RevisionsOf, GrownBy;
    StoreTakes(d, w, l, w');
    var x := w.instances[l.x];
    InvParts(d, w, l.x);
    if l.batch == [] {
      StoreNothing(d, w.rows, x, l.command);
    } else {
      StoreGrows(d, w.rows, x, l.command);
    }
  }

  lemma StoreTakes(d: Domain, w: World, l: Label, w': World)
    requires Step(d, w, l, w') && l.Store?
    ensures l.x in w.instances
    ensures var x := w.instances[l.x];
      && x.phase == Checked(l.command) && l.batch == x.unstored
      && Insertable(w.rows, l.batch) && InRange(l.batch)
      && w'.rows == Inserted(w.rows, l.batch) && w'.snapshots == w.snapshots
  {}

  /** Nothing but a store changes the events. */
  lemma OnlyStoreWrites(d: Domain, r: Run, k: nat)
    requires IsRun(d, r) && k < |r.labels| && !r.labels[k].Store?
    ensures r.states[k + 1].rows == r.states[k].rows
  {
    assert StepAt(d, r, k);
  }

  lemma {:induction false} RowsGrow(d: Domain, r: Run, i: nat, k: nat)
    requires IsRun(d, r) && i <= k < |r.states|
    ensures Extends(r.states[i].rows, r.states[k].rows)
    decreases k
  {
    if i < k {
      RowsGrow(d, r, i, k - 1);
      if r.labels[k - 1].Store? {
        StoreAppendsBatch(d, r, k - 1);
      } else {
        OnlyStoreWrites(d, r, k - 1);
      }
    }
  }

  /** The aggregate whose events the label is about. */
  function AggregateAt(r: Run, k: nat): AggregateId
    requires k < |r.labels| < |r.states| && r.labels[k].x in r.states[k].instances
  {
    r.states[k].instances[r.labels[k].x].id
  }

  ghost predicate StoresFor(d: Domain, r: Run, k: nat, id: AggregateId, command: CommandId)
    requires IsRun(d, r)
  {
    && k < |r.labels| && r.labels[k].Store? && r.labels[k].command == command && r.labels[k].batch != []
    && r.labels[k].x in r.states[k].instances && AggregateAt(r, k) == id
  }

  /** The events that are stored for a command are the command's own, and it had none before. */
  lemma StoreIsFirst(d: Domain, r: Run, k: nat, id: AggregateId, command: CommandId)
    requires IsRun(d, r) && StoresFor(d, r, k, id, command)
    ensures AllCaused(r.labels[k].batch, command) && NoneCaused(r.states[k].rows, id, command)
    ensures forall i :: 0 <= i < |r.labels[k].batch| ==> r.labels[k].batch[i].causationId == command
    ensures forall key :: key in r.states[k].rows && key.0 == id ==> r.states[k].rows[key].causationId != command
  {
    ReachableInv(d, r, k);
    assert StepAt(d, r, k);
    StoreKeepsOwn(d, r.states[k].rows, r.states[k].instances[r.labels[k].x], command);
  }

  /**
   For one command and one aggregate at most one batch of events is ever stored, although the check for
   the command and the store are separate steps that other instances may come between.
   */
  lemma OneBatchPerCommand(d: Domain, r: Run, i: nat, k: nat, id: AggregateId, command: CommandId)
    requires IsRun(d, r) && StoresFor(d, r, i, id, command) && StoresFor(d, r, k, id, command)
    ensures i == k
  {
    if i < k {
      NotStoredAgain(d, r, i, k, id, command);
    } else if k < i {
      NotStoredAgain(d, r, k, i, id, command);
    }
  }

  lemma NotStoredAgain(d: Domain, r: Run, i: nat, k: nat, id: AggregateId, command: CommandId)
    requires IsRun(d, r) && StoresFor(d, r, i, id, command) && i < k
    ensures !StoresFor(d, r, k, id, command)
  {
    StoreIsFirst(d, r, i, id, command);
    StoreAppendsBatch(d, r, i);
    var e := r.labels[i].batch[0];
    assert KeyOf(e) in r.states[i + 1].rows && KeyOf(e).0 == id && Caused(e, command);
    if k < |r.labels| {
      RowsGrow(d, r, i + 1, k);
      assert !NoneCaused(r.states[k].rows, id, command);
      if StoresFor(d, r, k, id, command) {
        StoreIsFirst(d, r, k, id, command);
      }
    }
  }

  // ---------- Duplicates ----------

  ghost predicate StoresEventsFor(r: Run, k: nat, command: CommandId) {
    k < |r.labels| && r.labels[k].Store? && r.labels[k].command == command && r.labels[k].batch != []
  }

  /** What is in the table for a command has been stored by an instance that handled this command. */
  lemma {:induction false} RowWasStored(d: Domain, r: Run, k: nat, key: (AggregateId, int))
    requires IsRun(d, r) && k < |r.states| && key in r.states[k].rows
    ensures exists i :: 0 <= i < k && StoresEventsFor(r, i, r.states[k].rows[key].causationId)
  {
    assert StepAt(d, r, k - 1);
    if key in r.states[k - 1].rows {
      RowWasStored(d, r, k - 1, key);
      RowsGrow(d, r, k - 1, k);
    } else {
      NewRowIsOwn(d, r, k - 1, key);
    }
  }

  lemma NewRowIsOwn(d: Domain, r: Run, k: nat, key: (AggregateId, int))
    requires IsRun(d, r) && k < |r.labels| && key !in r.states[k].rows && key in r.states[k + 1].rows
    ensures StoresEventsFor(r, k, r.states[k + 1].rows[key].causationId)
  {
    if !r.labels[k].Store? {
      OnlyStoreWrites(d, r, k);
    }
    ReachableInv(d, r, k);
    assert StepAt(d, r, k);
    var x, batch := r.states[k].instances[r.labels[k].x], r.labels[k].batch;
    StoreTakes(d, r.states[k], r.labels[k], r.states[k + 1]);
    hide InstanceOk, RowsSound, SnapshotsSound, Moves, IsRun;
    InsertedRows(r.states[k].rows, batch);
    var i :| 0 <= i < |batch| && KeyOf(batch[i]) == key;
    InvParts(d, r.states[k], r.labels[k].x);
    StoreKeepsOwn(d, r.states[k].rows, x, r.labels[k].command);
    assert Caused(batch[i], r.labels[k].command);
  }

  /** A command that is found to be a duplicate has stored events before, for this or another aggregate. */
  lemma DuplicateWasStored(d: Domain, r: Run, j: nat, x: InstanceId, command: CommandId)
    requires IsRun(d, r) && j < |r.labels| && r.labels[j] == Duplicate(x, command)
    ensures exists i :: 0 <= i < j && StoresEventsFor(r, i, command)
  {
    assert StepAt(d, r, j);
    var rows := r.states[j].rows;
    var key :| key in rows && rows[key].causationId == command;
    RowWasStored(d, r, j, key);
  }

  /** A command that is found to be new has not. */
  lemma CheckedIsNew(d: Domain, r: Run, i: nat, j: nat, command: CommandId)
    requires IsRun(d, r) && j < |r.labels| && r.labels[j].Check? && r.labels[j].command == command && i < j
    ensures !StoresEventsFor(r, i, command)
  {
    if StoresEventsFor(r, i, command) {
      StoredIsFound(d, r, i, j, command);
      CheckFindsNothing(d, r, j);
    }
  }

  lemma StoredIsFound(d: Domain, r: Run, i: nat, j: nat, command: CommandId)
    requires IsRun(d, r) && i < j < |r.states| && StoresEventsFor(r, i, command)
    ensures exists key :: key in r.states[j].rows && r.states[j].rows[key].causationId == command
  {
    StoreAppendsBatch(d, r, i);
    StoreIsFirst(d, r, i, AggregateAt(r, i), command);
    RowsGrow(d, r, i + 1, j);
    hide Step, IsRun;
    var key := KeyOf(r.labels[i].batch[0]);
    assert key in r.states[j].rows && r.states[j].rows[key].causationId == command;
  }

  lemma CheckFindsNothing(d: Domain, r: Run, j: nat)
    requires IsRun(d, r) && j < |r.labels| && r.labels[j].Check?
    ensures forall key :: key in r.states[j].rows ==> r.states[j].rows[key].causationId != r.labels[j].command
  {
    assert StepAt(d, r, j);
    assert forall key :: key in r.states[j].rows ==> !Caused(r.states[j].rows[key], r.labels[j].command);
  }

  // ---------- A rejected instance ----------

  ghost predicate StuckAt(w: World, i: InstanceId) {
    i in w.instances && w.instances[i].unstored != [] && Stuck(w.rows, w.instances[i])
  }

  lemma StuckStep(d: Domain, w: World, l: Label, w': World, i: InstanceId)
    requires WellFormed(d) && Inv(d, w) && Step(d, w, l, w') && StuckAt(w, i)
    requires Extends(w.rows, w'.rows)
    ensures StuckAt(w', i) && !(l.Store? && l.x == i)
    ensures w.instances[i].unstored <= w'.instances[i].unstored
  {
    hide Inv, Step, InstanceOk, Stuck, InRange, Consecutive, Insertable;
    var x := w.instances[i];
    InvParts(d, w, i);
    if l.Begin? || l.x != i {
      OthersStay(d, w, l, w', i);
      StuckGrows(w.rows, x, w'.rows, x);
    } else {
      NoOwnStore(d, w, l, w');
      OwnStays(d, w, l, w');
      StuckGrows(w.rows, x, w'.rows, w'.instances[i]);
    }
  }

  lemma OthersStay(d: Domain, w: World, l: Label, w': World, i: InstanceId)
    requires Step(d, w, l, w') && i in w.instances && (l.Begin? || l.x != i)
    ensures i in w'.instances && w'.instances[i] == w.instances[i]
  {}

  /** A stuck instance does not store. */
  lemma NoOwnStore(d: Domain, w: World, l: Label, w': World)
    requires WellFormed(d) && Inv(d, w) && Step(d, w, l, w') && StuckAt(w, l.x)
    ensures !l.Store?
  {
    InvParts(d, w, l.x);
    StuckCannotStore(d, w.rows, w.instances[l.x]);
  }

  /** An instance that has unstored events keeps them in every step but a store. */
  lemma OwnStays(d: Domain, w: World, l: Label, w': World)
    requires Inv(d, w) && Step(d, w, l, w') && l.x in w.instances && !l.Store? && !l.Begin?
    requires w.instances[l.x].unstored != []
    ensures l.x in w'.instances
    ensures var x, y := w.instances[l.x], w'.instances[l.x];
      y.id == x.id && y.revision == x.revision && x.unstored <= y.unstored
  {
    InvParts(d, w, l.x);
    hide Inv, RowsSound, StateOk, Consecutive, Stuck, HasCausation, Built, Contains, AllCaused, NoneCaused;
  }

  lemma StuckGrows(rows: EventTable, x: Instance, rows': EventTable, y: Instance)
    requires Extends(rows, rows') && Stuck(rows, x)
    requires y.id == x.id && y.revision == x.revision && x.unstored <= y.unstored
    ensures Stuck(rows', y)
  {
    if !InRange(x.unstored) {
      var i :| 0 <= i < |x.unstored| && x.unstored[i].revision > MAX_REVISION;
      assert y.unstored[i] == x.unstored[i];
    }
  }

  /**
   An instance whose store was rejected keeps its unstored events and never stores anything again, in
   any continuation of the run.
   */
  lemma {:induction false} RejectedForEver(d: Domain, r: Run, j: nat, k: nat, i: InstanceId)
    requires IsRun(d, r) && j < k < |r.states| && r.labels[j].Reject? && r.labels[j].x == i
    ensures i in r.states[j].instances && r.states[j].instances[i].unstored != []
    ensures StuckAt(r.states[k], i)
    ensures r.states[j].instances[i].unstored <= r.states[k].instances[i].unstored
    ensures k < |r.labels| ==> !(r.labels[k].Store? && r.labels[k].x == i)
    decreases k
  {
    if j + 1 == k {
      RejectLeavesStuck(d, r, j, i);
    } else {
      RejectedForEver(d, r, j, k - 1, i);
      StuckStepAt(d, r, k - 1, i);
    }
    if k < |r.labels| {
      StuckStepAt(d, r, k, i);
    }
  }

  lemma RejectLeavesStuck(d: Domain, r: Run, j: nat, i: InstanceId)
    requires IsRun(d, r) && j < |r.labels| && r.labels[j].Reject? && r.labels[j].x == i
    ensures i in r.states[j].instances && r.states[j].instances[i].unstored != []
    ensures StuckAt(r.states[j + 1], i)
    ensures r.states[j + 1].instances[i].unstored == r.states[j].instances[i].unstored
  {
    ReachableInv(d, r, j);
    assert StepAt(d, r, j);
    RefusedIsStuck(d, r.states[j].rows, r.states[j].instances[i]);
  }

  lemma StuckStepAt(d: Domain, r: Run, k: nat, i: InstanceId)
    requires IsRun(d, r) && k < |r.labels| && StuckAt(r.states[k], i)
    ensures StuckAt(r.states[k + 1], i) && !(r.labels[k].Store? && r.labels[k].x == i)
    ensures r.states[k].instances[i].unstored <= r.states[k + 1].instances[i].unstored
  {
    ReachableInv(d, r, k);
    assert StepAt(d, r, k);
    RowsGrow(d, r, k, k + 1);
    hide Inv, Step, Stuck;
    StuckStep(d, r.states[k], r.labels[k], r.states[k + 1], i);
  }

  // ---------- Publishing ----------

  /** Label i is the last one of instance x before k. */
  predicate LastBefore(r: Run, i: nat, k: nat, x: InstanceId)
    requires k <= |r.labels|
  {
    i < k && r.labels[i].x == x && forall m :: i < m < k ==> r.labels[m].x != x
  }

  /** An instance about to publish a batch has just stored it. */
  lemma {:induction false} PublishingIsStored(
      d: Domain, r: Run, k: nat, x: InstanceId, command: CommandId, batch: seq<DomainEvent>)
    requires IsRun(d, r) && k <= |r.labels| && x in r.states[k].instances && batch != []
    requires r.states[k].instances[x].phase == Publishing(command, batch)
    ensures exists i :: 0 <= i < k && r.labels[i] == Store(x, command, batch) && LastBefore(r, i, k, x)
  {
    assert StepAt(d, r, k - 1);
    if r.labels[k - 1].x == x {
      assert r.labels[k - 1] == Store(x, command, batch) && LastBefore(r, k - 1, k, x);
    } else {
      PublishingIsStored(d, r, k - 1, x, command, batch);
      var i :| 0 <= i < k - 1 && r.labels[i] == Store(x, command, batch) && LastBefore(r, i, k - 1, x);
      assert LastBefore(r, i, k, x);
    }
  }

  ghost predicate PublishesAt(r: Run, k: nat, x: InstanceId, batch: seq<DomainEvent>) {
    k < |r.labels| && r.labels[k].Publish? && r.labels[k].x == x && r.labels[k].batch == batch && batch != []
  }

  /** Only what the command has just stored is published, and only after it is in the table. */
  lemma PublishedWasStored(d: Domain, r: Run, k: nat, x: InstanceId, batch: seq<DomainEvent>)
    requires IsRun(d, r) && PublishesAt(r, k, x, batch)
    ensures exists i :: 0 <= i < k && r.labels[i] == Store(x, r.labels[k].command, batch) && LastBefore(r, i, k, x)
    ensures Contains(r.states[k].rows, batch)
    ensures forall a, b :: 0 <= a < b < |batch| ==> batch[a].revision < batch[b].revision
  {
    assert StepAt(d, r, k);
    PublishingIsStored(d, r, k, x, r.labels[k].command, batch);
    ReachableInv(d, r, k);
    assert InstanceOk(d, r.states[k].rows, r.states[k].instances[x]);
    var first :| Consecutive(d, r.states[k].instances[x].id, first, batch);
  }

  lemma StoredOnce(d: Domain, r: Run, i: nat, j: nat, x: InstanceId, y: InstanceId,
                   c: CommandId, e: CommandId, batch: seq<DomainEvent>)
    requires IsRun(d, r) && i < j < |r.labels| && r.labels[i] == Store(x, c, batch) && batch != []
    ensures r.labels[j] != Store(y, e, batch)
  {
    StoreAppendsBatch(d, r, i);
    RowsGrow(d, r, i + 1, j);
    assert KeyOf(batch[0]) in r.states[j].rows;
    assert StepAt(d, r, j);
  }

  /** No batch is published twice. */
  lemma PublishedOnce(
      d: Domain, r: Run, k: nat, m: nat, x: InstanceId, y: InstanceId, batch: seq<DomainEvent>)
    requires IsRun(d, r) && PublishesAt(r, k, x, batch) && PublishesAt(r, m, y, batch)
    ensures k == m
  {
    PublishedWasStored(d, r, k, x, batch);
    PublishedWasStored(d, r, m, y, batch);
    var c, e := r.labels[k].command, r.labels[m].command;
    var i :| 0 <= i < k && r.labels[i] == Store(x, c, batch) && LastBefore(r, i, k, x);
    var j :| 0 <= j < m && r.labels[j] == Store(y, e, batch) && LastBefore(r, j, m, y);
    if i < j {
      StoredOnce(d, r, i, j, x, y, c, e, batch);
    } else if j < i {
      StoredOnce(d, r, j, i, y, x, e, c, batch);
    }
  }

  /** An instance that has lost a race publishes nothing any more. */
  lemma LoserPublishesNothing(d: Domain, r: Run, j: nat, k: nat, x: InstanceId, batch: seq<DomainEvent>)
    requires IsRun(d, r) && j < |r.labels| && r.labels[j].Reject? && r.labels[j].x == x && j < k
    ensures !PublishesAt(r, k, x, batch)
  {
    if PublishesAt(r, k, x, batch) {
      PublishedWasStored(d, r, k, x, batch);
      var i :| 0 <= i < k && r.labels[i] == Store(x, r.labels[k].command, batch) && LastBefore(r, i, k, x);
      RejectedForEver(d, r, j, i, x);
    }
  }

  /** What an instance has stored is what it publishes next. */
  lemma StoredIsPublished(
      d: Domain, r: Run, j: nat, k: nat, x: InstanceId, command: CommandId, batch: seq<DomainEvent>)
    requires IsRun(d, r) && j < k < |r.labels| && r.labels[j] == Store(x, command, batch)
    requires r.labels[k].x == x && LastBefore(r, j, k, x)
    ensures r.labels[k] == Publish(x, command, batch)
  {
    StoredPhase(d, r, j, k, x, command, batch);
    assert StepAt(d, r, k);
  }

  lemma {:induction false} StoredPhase(
      d: Domain, r: Run, j: nat, k: nat, x: InstanceId, command: CommandId, batch: seq<DomainEvent>)
    requires IsRun(d, r) && j < k < |r.states| && r.labels[j] == Store(x, command, batch) && LastBefore(r, j, k, x)
    ensures x in r.states[k].instances && r.states[k].instances[x].phase == Publishing(command, batch)
    decreases k
  {
    assert StepAt(d, r, k - 1);
    if j + 1 < k {
      assert LastBefore(r, j, k - 1, x);
      StoredPhase(d, r, j, k - 1, x, command, batch);
    }
  }

  /** The instance that finds its command a duplicate publishes the empty batch next. */
  lemma {:induction false} DuplicatePublishesNothing(
      d: Domain, r: Run, j: nat, k: nat, x: InstanceId, command: CommandId)
    requires IsRun(d, r) && j < k < |r.labels| && r.labels[j] == Duplicate(x, command)
    requires r.labels[k].x == x && LastBefore(r, j, k, x)
    ensures r.labels[k] == Publish(x, command, [])
  {
    DuplicatePhase(d, r, j, k, x, command);
    assert StepAt(d, r, k);
  }

  lemma {:induction false} DuplicatePhase(d: Domain, r: Run, j: nat, k: nat, x: InstanceId, command: CommandId)
    requires IsRun(d, r) && j < k < |r.labels| && r.labels[j] == Duplicate(x, command) && LastBefore(r, j, k, x)
    ensures x in r.states[k].instances && r.states[k].instances[x].phase == Publishing(command, [])
    decreases k
  {
    assert StepAt(d, r, k - 1);
    if j + 1 < k {
      assert LastBefore(r, j, k - 1, x);
      DuplicatePhase(d, r, j, k - 1, x, command);
    }
  }
}
