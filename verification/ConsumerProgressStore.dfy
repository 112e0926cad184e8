/**
 The consumer progress store: per consumer and aggregate, the last revision that was handled and the
 interval that is being replayed, if any. A consumer id and its hash are identified.
 */
module ConsumerProgressStore {
  import opened Wrappers

  type ConsumerId = string
  type AggregateId = string
  type Key = (ConsumerId, AggregateId)

  datatype Interval = Interval(from: int, to: int)

  /** A row; the two bounds of the replay are nullable columns. */
  datatype Progress = Progress(revision: int, isReplayingFrom: Option<int>, isReplayingTo: Option<int>)

  type ProgressTable = map<Key, Progress>

  /** `UniqueViolation` is the driver's own error, passed on where it is not the one of Postgres. */
  datatype Error = FlowIsAlreadyReplaying | UniqueViolation

  // ---------- The update both driver paths perform ----------

  datatype Criteria = Criteria(key: Key, revisionBelow: Option<int>, notReplaying: bool)

  /** The columns to assign: absent ones stay as they are. */
  datatype Patch = Patch(revision: Option<int>, replaying: Option<(Option<int>, Option<int>)>)

  predicate Matches(c: Criteria, key: Key, row: Progress) {
    && key == c.key
    && (c.revisionBelow.Some? ==> row.revision < c.revisionBelow.value)
    && (c.notReplaying ==> row.isReplayingFrom.None? && row.isReplayingTo.None?)
  }

  function Patched(row: Progress, p: Patch): Progress {
    Progress(
      if p.revision.Some? then p.revision.value else row.revision,
      if p.replaying.Some? then p.replaying.value.0 else row.isReplayingFrom,
      if p.replaying.Some? then p.replaying.value.1 else row.isReplayingTo)
  }

  function Matching(rows: ProgressTable, c: Criteria): set<Key> {
    set k | k in rows && Matches(c, k, rows[k])
  }

  function Updated(rows: ProgressTable, c: Criteria, p: Patch): ProgressTable {
    map k | k in rows :: if Matches(c, k, rows[k]) then Patched(rows[k], p) else rows[k]
  }

  // ---------- What each call does ----------

  /** What a call did; a call that fails changes nothing. */
  datatype Event =
    | SetProgress(key: Key, revision: int)
    | SetIsReplaying(key: Key, isReplaying: Option<Interval>)
    | ResetProgress(consumerId: ConsumerId)
    | Refuse(error: Error)

  predicate Running(row: Progress) {
    row.isReplayingFrom.Some? || row.isReplayingTo.Some?
  }

  predicate MaySetProgress(rows: ProgressTable, key: Key, revision: int) {
    key in rows ==> rows[key].revision < revision
  }

  predicate MaySetIsReplaying(rows: ProgressTable, key: Key, isReplaying: Option<Interval>) {
    key in rows && isReplaying.Some? ==> !Running(rows[key])
  }

  function RowOf(rows: ProgressTable, key: Key): Progress {
    if key in rows then rows[key] else Progress(0, None, None)
  }

  function Bounds(isReplaying: Option<Interval>): (Option<int>, Option<int>) {
    match isReplaying
    case None => (None, None)
    case Some(i) => (Some(i.from), Some(i.to))
  }

  predicate Step(rows: ProgressTable, e: Event, rows': ProgressTable) {
    match e
    case SetProgress(key, revision) =>
      && MaySetProgress(rows, key, revision)
      && rows' == rows[key := RowOf(rows, key).(revision := revision)]
    case SetIsReplaying(key, isReplaying) =>
      && MaySetIsReplaying(rows, key, isReplaying)
      && rows' == rows[key := RowOf(rows, key).(
           isReplayingFrom := Bounds(isReplaying).0, isReplayingTo := Bounds(isReplaying).1)]
    case ResetProgress(consumerId) =>
      rows' == map k | k in rows && k.0 != consumerId :: rows[k]
    case Refuse(_) =>
      rows' == rows
  }

  /** What `getProgress` reports: a replay with a bound of 0 is not reported. */
  function Reported(rows: ProgressTable, key: Key): (int, Option<Interval>) {
    var row := RowOf(rows, key);
    (row.revision,
     if row.isReplayingFrom.Some? && row.isReplayingTo.Some?
        && row.isReplayingFrom.value != 0 && row.isReplayingTo.value != 0
     then Some(Interval(row.isReplayingFrom.value, row.isReplayingTo.value))
     else None)
  }

  // ---------- The store ----------

  class ConsumerProgressStore {
    const returningSql: bool    // whether the driver reports the rows an update affects
    const postgres: bool        // whether a duplicate key is reported the way Postgres does
    var rows: ProgressTable

    constructor (returningSql: bool, postgres: bool)
      ensures rows == map[] && this.returningSql == returningSql && this.postgres == postgres
    {
      this.returningSql, this.postgres := returningSql, postgres;
      rows := map[];
    }

    /** The rows a search finds, in any order. */
    method Find(c: Criteria) returns (items: seq<(Key, Progress)>)
      ensures |items| == |Matching(rows, c)|
      ensures forall i :: 0 <= i < |items| ==> items[i].0 in Matching(rows, c) && items[i].1 == rows[items[i].0]
      ensures forall k :: k in Matching(rows, c) ==> exists i :: 0 <= i < |items| && items[i].0 == k
    {
      items := [];
      var rest := Matching(rows, c);
      while exists k :: k in rest
        invariant rest <= Matching(rows, c) && |items| + |rest| == |Matching(rows, c)|
        invariant forall i :: 0 <= i < |items| ==> items[i].0 in Matching(rows, c) && items[i].1 == rows[items[i].0]
        invariant forall k :: k in Matching(rows, c) ==>
          k in rest || exists i :: 0 <= i < |items| && items[i].0 == k
        decreases |rest|
      {
        var k :| k in rest;
        ghost var was := items;
        items := items + [(k, rows[k])];
        rest := rest - {k};
        assert items[|was|].0 == k;
        assert forall i :: 0 <= i < |was| ==> items[i] == was[i];
      }
    }

    /** Both driver paths give the same table and the same number of affected rows. */
    method Update(c: Criteria, p: Patch) returns (affected: nat)
      modifies this
      ensures rows == Updated(old(rows), c, p) && affected == |Matching(old(rows), c)|
    {
      if returningSql {
        affected := |Matching(rows, c)|;
        rows := Updated(rows, c, p);
        return;
      }
      var items := Find(c);
      if |items| == 0 {
        assert forall k :: k in rows ==> k !in Matching(rows, c);
        assert rows == Updated(rows, c, p);
        return 0;
      }
      var found := items;
      for i := 0 to |items|
        invariant |items| == |found|
        invariant forall j :: 0 <= j < |items| ==> items[j].0 == found[j].0
        invariant forall j :: 0 <= j < |items| ==> items[j].1 == if j < i then Patched(found[j].1, p) else found[j].1
      {
        items := items[i := (items[i].0, Patched(items[i].1, p))];
      }
      for i := 0 to |items|
        invariant rows.Keys == old(rows).Keys
        invariant forall k :: k in rows && k !in Matching(old(rows), c) ==> rows[k] == old(rows)[k]
        invariant forall k :: k in rows ==> rows[k] == old(rows)[k] || rows[k] == Patched(old(rows)[k], p)
        invariant forall j :: 0 <= j < i ==> rows[found[j].0] == Patched(old(rows)[found[j].0], p)
      {
        rows := rows[items[i].0 := items[i].1];
      }
      return |items|;
    }

    method Insert(key: Key, row: Progress) returns (r: Outcome<(), Error>)
      modifies this
      ensures key in old(rows) ==> r == Err(DuplicateKey(postgres)) && rows == old(rows)
      ensures key !in old(rows) ==> r == Ok(()) && rows == old(rows)[key := row]
    {
      if key in rows {
        return Err(DuplicateKey(postgres));
      }
      rows := rows[key := row];
      return Ok(());
    }

    method GetProgress(key: Key) returns (revision: int, isReplaying: Option<Interval>)
      ensures (revision, isReplaying) == Reported(rows, key)
      ensures key !in rows ==> revision == 0 && isReplaying == None
      ensures key in rows ==> revision == rows[key].revision
      ensures isReplaying.Some? <==>
        (key in rows && exists from, to ::
           rows[key] == Progress(revision, Some(from), Some(to)) && from != 0 && to != 0)
      ensures isReplaying.Some? ==>
        rows[key] == Progress(revision, Some(isReplaying.value.from), Some(isReplaying.value.to))
    {
      if key !in rows {
        return 0, None;
      }
      var progress := rows[key];
      isReplaying := None;
      if Truthy(progress.isReplayingFrom) && Truthy(progress.isReplayingTo) {
        isReplaying := Some(Interval(progress.isReplayingFrom.value, progress.isReplayingTo.value));
      }
      revision := progress.revision;
    }

    method SetProgress(key: Key, revision: int) returns (r: Outcome<(), Error>, ghost e: Event)
      modifies this
      ensures Step(old(rows), e, rows)
      ensures r.Ok? ==> e == Event.SetProgress(key, revision)
      ensures r.Err? ==> e == Refuse(r.error)
      ensures r == if key in old(rows) && revision <= old(rows)[key].revision
                   then Err(if postgres then FlowIsAlreadyReplaying else UniqueViolation) else Ok(())
      ensures r.Err? ==> rows == old(rows)
      ensures r.Ok? && key in old(rows) ==>
        rows == old(rows)[key := Progress(revision, old(rows)[key].isReplayingFrom, old(rows)[key].isReplayingTo)]
      ensures r.Ok? && key !in old(rows) ==> rows == old(rows)[key := Progress(revision, None, None)]
    {
      UpdateOne(rows, Criteria(key, Some(revision), false), Patch(Some(revision), None));
      var affected := Update(Criteria(key, Some(revision), false), Patch(Some(revision), None));
      if affected == 1 {
        return Ok(()), Event.SetProgress(key, revision);
      }
      r := Insert(key, Progress(revision, None, None));
      e := if r.Ok? then Event.SetProgress(key, revision) else Refuse(r.error);
    }

    method SetIsReplaying(key: Key, isReplaying: Option<Interval>) returns (r: Outcome<(), Error>, ghost e: Event)
      modifies this
      ensures Step(old(rows), e, rows)
      ensures r.Ok? ==> e == Event.SetIsReplaying(key, isReplaying)
      ensures r.Err? ==> e == Refuse(r.error)
      ensures isReplaying.None? ==> r == Ok(())
      ensures r == if isReplaying.Some? && key in old(rows)
                      && (old(rows)[key].isReplayingFrom.Some? || old(rows)[key].isReplayingTo.Some?)
                   then Err(if postgres then FlowIsAlreadyReplaying else UniqueViolation) else Ok(())
      ensures r.Err? ==> rows == old(rows)
      ensures r.Ok? ==>
        var revision := if key in old(rows) then old(rows)[key].revision else 0;
        match isReplaying
        case None => rows == old(rows)[key := Progress(revision, None, None)]
        case Some(i) => rows == old(rows)[key := Progress(revision, Some(i.from), Some(i.to))]
    {
      var rowCount: nat;
      if isReplaying.None? {
        UpdateOne(rows, Criteria(key, None, false), Patch(None, Some((None, None))));
        rowCount := Update(Criteria(key, None, false), Patch(None, Some((None, None))));
      } else {
        var interval := isReplaying.value;
        UpdateOne(rows, Criteria(key, None, true), Patch(None, Some((Some(interval.from), Some(interval.to)))));
        rowCount := Update(Criteria(key, None, true), Patch(None, Some((Some(interval.from), Some(interval.to)))));
      }
      if rowCount == 1 {
        return Ok(()), Event.SetIsReplaying(key, isReplaying);
      }
      r := Insert(key, Progress(0, Bounds(isReplaying).0, Bounds(isReplaying).1));
      e := if r.Ok? then Event.SetIsReplaying(key, isReplaying) else Refuse(r.error);
    }

    method ResetProgress(consumerId: ConsumerId) returns (ghost e: Event)
      modifies this
      ensures Step(old(rows), e, rows) && e == Event.ResetProgress(consumerId)
      ensures forall key :: key in rows <==> key in old(rows) && key.0 != consumerId
      ensures forall key :: key in rows ==> rows[key] == old(rows)[key]
    {
      rows := map k | k in rows && !(k.0 == consumerId) :: rows[k];
      e := Event.ResetProgress(consumerId);
    }
  }

  function DuplicateKey(postgres: bool): Error {
    if postgres then FlowIsAlreadyReplaying else UniqueViolation
  }

  /** A bound counts as present only if it is neither null nor 0. */
  predicate Truthy(bound: Option<int>) {
    bound.Some? && bound.value != 0
  }

  /** Criteria that name a key match that row or none. */
  lemma UpdateOne(rows: ProgressTable, c: Criteria, p: Patch)
    ensures c.key in rows && Matches(c, c.key, rows[c.key]) ==>
      |Matching(rows, c)| == 1 && Updated(rows, c, p) == rows[c.key := Patched(rows[c.key], p)]
    ensures !(c.key in rows && Matches(c, c.key, rows[c.key])) ==>
      |Matching(rows, c)| == 0 && Updated(rows, c, p) == rows
  {
    if c.key in rows && Matches(c, c.key, rows[c.key]) {
      assert Matching(rows, c) == {c.key};
    } else {
      assert Matching(rows, c) == {};
    }
  }

  // ---------- What is accepted ----------

  /** In every table a replay can be stopped, and then none is reported. */
  lemma ReplayCanBeStopped(rows: ProgressTable, key: Key)
    ensures exists rows' ::
      Step(rows, SetIsReplaying(key, None), rows') && Reported(rows', key) == (Reported(rows, key).0, None)
  {
    var rows' := rows[key := RowOf(rows, key).(isReplayingFrom := None, isReplayingTo := None)];
    assert Step(rows, SetIsReplaying(key, None), rows');
  }

  /** A replay can be started if and only if the row of the key has no bound set. */
  lemma ReplayCanBeStartedIff(rows: ProgressTable, key: Key, i: Interval)
    ensures (exists rows' :: Step(rows, SetIsReplaying(key, Some(i)), rows')) <==>
      (key in rows ==> rows[key].isReplayingFrom == None && rows[key].isReplayingTo == None)
  {
    var rows' := rows[key := RowOf(rows, key).(isReplayingFrom := Some(i.from), isReplayingTo := Some(i.to))];
    if key in rows ==> rows[key].isReplayingFrom == None && rows[key].isReplayingTo == None {
      assert Step(rows, SetIsReplaying(key, Some(i)), rows');
    }
  }

  /** A revision is accepted if and only if it is greater than that of the row, the next one included. */
  lemma RevisionIsAcceptedIff(rows: ProgressTable, key: Key, revision: int)
    ensures (exists rows' :: Step(rows, SetProgress(key, revision), rows')) <==>
      (key in rows ==> rows[key].revision + 1 <= revision)
  {
    if key in rows ==> rows[key].revision < revision {
      assert Step(rows, SetProgress(key, revision), rows[key := RowOf(rows, key).(revision := revision)]);
    }
  }

  // ---------- Progress over every run ----------

  datatype Run = Run(states: seq<ProgressTable>, events: seq<Event>)

  predicate StepAt(r: Run, k: nat)
    requires |r.states| == |r.events| + 1 && k < |r.events|
  {
    Step(r.states[k], r.events[k], r.states[k + 1])
  }

  predicate IsRun(r: Run) {
    && |r.states| == |r.events| + 1 && r.states[0] == map[]
    && forall k :: 0 <= k < |r.events| ==> StepAt(r, k)
  }

  function Revision(rows: ProgressTable, key: Key): int {
    Reported(rows, key).0
  }

  /** Setting the progress raises the reported revision, except to a revision below 1 where none was set. */
  lemma SetProgressRaisesIff(rows: ProgressTable, key: Key, revision: int, rows': ProgressTable)
    requires Step(rows, SetProgress(key, revision), rows')
    ensures Reported(rows', key) == (revision, Reported(rows, key).1)
    ensures Revision(rows, key) < Revision(rows', key) <==> key in rows || 1 <= revision
    ensures forall other :: other != key ==> Reported(rows', other) == Reported(rows, other)
  {}

  /** Setting the replay keeps the revision; what is set is what is reported unless a bound is 0. */
  lemma SetIsReplayingReports(rows: ProgressTable, key: Key, isReplaying: Option<Interval>, rows': ProgressTable)
    requires Step(rows, SetIsReplaying(key, isReplaying), rows')
    ensures Revision(rows', key) == Revision(rows, key)
    ensures Reported(rows', key).1 == isReplaying <==>
      (isReplaying.Some? ==> isReplaying.value.from != 0 && isReplaying.value.to != 0)
    ensures forall other :: other != key ==> Reported(rows', other) == Reported(rows, other)
  {}

  /** Nothing between i and k resets the consumer, or sets its first progress to less than 1. */
  predicate Undisturbed(r: Run, i: nat, k: nat, key: Key)
    requires k <= |r.events|
  {
    forall m :: i <= m < k ==>
      && r.events[m] != ResetProgress(key.0)
      && (r.events[m].SetProgress? && r.events[m].key == key ==> 1 <= r.events[m].revision)
  }

  /** Between resets the reported revision never falls. */
  lemma {:induction false} RevisionMonotone(r: Run, i: nat, k: nat, key: Key)
    requires IsRun(r) && i <= k <= |r.events| && Undisturbed(r, i, k, key)
    ensures Revision(r.states[i], key) <= Revision(r.states[k], key)
    decreases k
  {
    if i < k {
      RevisionMonotone(r, i, k - 1, key);
      assert StepAt(r, k - 1);
      assert r.events[k - 1] != ResetProgress(key.0);
    }
  }

  /** Two progress updates between resets have strictly increasing revisions. */
  lemma ProgressStrict(r: Run, i: nat, k: nat, key: Key)
    requires IsRun(r) && i < k < |r.events| && Undisturbed(r, i, k + 1, key)
    requires r.events[i].SetProgress? && r.events[i].key == key
    requires r.events[k].SetProgress? && r.events[k].key == key
    ensures r.events[i].revision < r.events[k].revision
  {
    assert StepAt(r, i) && StepAt(r, k);
    RevisionMonotone(r, i + 1, k, key);
  }

  /** In a reachable table the bounds of a replay are both null or both set. */
  lemma {:induction false} BoundsTogether(r: Run, k: nat, key: Key)
    requires IsRun(r) && k <= |r.events|
    ensures RowOf(r.states[k], key).isReplayingFrom.Some? <==> RowOf(r.states[k], key).isReplayingTo.Some?
  {
    if k > 0 {
      BoundsTogether(r, k - 1, key);
      assert StepAt(r, k - 1);
    }
  }

  predicate Stops(e: Event, key: Key) {
    e == SetIsReplaying(key, None) || e == ResetProgress(key.0)
  }

  /** A running replay keeps its interval until it is stopped or the consumer is reset. */
  lemma {:induction false} ReplayKept(r: Run, i: nat, k: nat, key: Key)
    requires IsRun(r) && i <= k <= |r.events|
    requires Running(RowOf(r.states[i], key))
    requires forall m :: i <= m < k ==> !Stops(r.events[m], key)
    ensures Running(RowOf(r.states[k], key))
    ensures Reported(r.states[k], key).1 == Reported(r.states[i], key).1
    decreases k
  {
    if i < k {
      ReplayKept(r, i, k - 1, key);
      assert StepAt(r, k - 1);
      assert !Stops(r.events[k - 1], key);
    }
  }
}
