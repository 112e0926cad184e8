/**
 The lock store: named locks that expire. A value and its hash are identified, that is, the hash is
 taken to be injective.
 */
module LockStore {
  import opened Wrappers

  type Value = string

  datatype Error = ExpirationInPast | LockAcquireFailed | LockRenewalFailed

  type LockTable = map<Value, int>    // the expiry of each lock

  // ---------- The state machine ----------

  datatype State = State(locks: LockTable, clock: int)

  /** What a call did; `at` is the instant at which it deleted the expired locks. */
  datatype Event =
    | Acquire(value: Value, expiresAt: int, at: int)
    | Renew(value: Value, expiresAt: int, at: int)
    | Release(value: Value, at: int)
    | Refuse(error: Error)

  function Live(locks: LockTable, now: int): LockTable {
    map v | v in locks && locks[v] >= now :: locks[v]
  }

  predicate LockedAt(locks: LockTable, value: Value, now: int) {
    value in locks && locks[value] >= now
  }

  predicate Change(s: State, e: Event, s': State) {
    match e
    case Acquire(value, expiresAt, at) =>
      s.clock <= at <= s'.clock && s.clock <= expiresAt
      && !LockedAt(s.locks, value, at) && s'.locks == Live(s.locks, at)[value := expiresAt]
    case Renew(value, expiresAt, at) =>
      s.clock <= at <= s'.clock && s.clock <= expiresAt
      && LockedAt(s.locks, value, at) && s'.locks == Live(s.locks, at)[value := expiresAt]
    case Release(value, at) =>
      s.clock <= at <= s'.clock && s'.locks == Live(s.locks, at) - {value}
    case Refuse(_) =>
      s'.locks == s.locks
  }

  predicate Step(s: State, e: Event, s': State) {
    s.clock <= s'.clock && Change(s, e, s')
  }

  // ---------- The store ----------

  class LockStore {
    const returningSql: bool    // whether the driver reports the rows an update affects
    var locks: LockTable
    var clock: int

    ghost function CurrentState(): State
      reads this
    {
      State(locks, clock)
    }

    constructor (returningSql: bool, now: int)
      ensures CurrentState() == State(map[], now) && this.returningSql == returningSql
    {
      this.returningSql := returningSql;
      locks, clock := map[], now;
    }

    /** Reads the clock, which may have advanced by any amount since the last reading. */
    method Now() returns (t: int)
      modifies this`clock
      ensures old(clock) <= clock == t
    {
      t := *;
      if t < clock {
        t := clock;
      }
      clock := t;
    }

    method RemoveExpiredLocks() returns (ghost at: int)
      modifies this
      ensures old(clock) <= clock == at && locks == Live(old(locks), at)
      ensures forall v :: v in locks <==> v in old(locks) && old(locks)[v] >= at
      ensures forall v :: v in locks ==> locks[v] == old(locks)[v]
    {
      var now := Now();
      at := now;
      locks := map v | v in locks && !(locks[v] < now) :: locks[v];
    }

    method AcquireLock(value: Value, expiresAt: int) returns (r: Outcome<(), Error>, ghost e: Event)
      modifies this
      ensures Step(old(CurrentState()), e, CurrentState())
      ensures match r
        case Ok(_) => e.Acquire? && e.value == value && e.expiresAt == expiresAt
        case Err(error) => e == Refuse(error)
      ensures r.Ok? ==> value in locks && locks[value] == expiresAt
      ensures r.Ok? ==> value in old(locks) ==> old(locks)[value] < clock
      ensures r.Ok? ==> forall v :: v != value ==>
        && (v in locks ==> v in old(locks) && locks[v] == old(locks)[v])
        && (v in old(locks) && old(locks)[v] >= clock ==> v in locks)
      ensures r.Err? ==> locks == old(locks) && (r.error == ExpirationInPast || r.error == LockAcquireFailed)
      ensures r == Err(ExpirationInPast) ==> expiresAt < clock
      ensures r == Err(LockAcquireFailed) ==> value in old(locks) && old(clock) <= old(locks)[value]
      ensures clock == old(clock) ==>
        r == if expiresAt < clock then Err(ExpirationInPast)
             else if value in old(locks) && clock <= old(locks)[value] then Err(LockAcquireFailed)
             else Ok(())
    {
      var now := Now();
      if expiresAt < now {
        return Err(ExpirationInPast), Refuse(ExpirationInPast);
      }
      var locks0 := locks;
      ghost var at := RemoveExpiredLocks();
      if value in locks {
        locks := locks0;
        return Err(LockAcquireFailed), Refuse(LockAcquireFailed);
      }
      locks := locks[value := expiresAt];
      return Ok(()), Acquire(value, expiresAt, at);
    }

    method IsLocked(value: Value) returns (locked: bool, ghost at: int)
      modifies this`clock
      ensures old(clock) <= at == clock && (locked <==> value in locks && at <= locks[value])
    {
      at := clock;
      if value !in locks {
        return false, at;
      }
      var now := Now();
      at := now;
      locked := locks[value] >= now;
    }

    /** The two driver paths: an update that reports the rows it affects, or a search and a save. */
    method RenewLock(value: Value, expiresAt: int) returns (r: Outcome<(), Error>, ghost e: Event)
      modifies this
      ensures Step(old(CurrentState()), e, CurrentState())
      ensures match r
        case Ok(_) => e.Renew? && e.value == value && e.expiresAt == expiresAt
        case Err(error) => e == Refuse(error)
      ensures r.Ok? ==> value in locks && locks[value] == expiresAt
      ensures r.Ok? ==> value in old(locks) && old(clock) <= old(locks)[value]
      ensures r.Ok? ==> forall v :: v != value ==>
        && (v in locks ==> v in old(locks) && locks[v] == old(locks)[v])
        && (v in old(locks) && old(locks)[v] >= clock ==> v in locks)
      ensures r.Err? ==> locks == old(locks) && (r.error == ExpirationInPast || r.error == LockRenewalFailed)
      ensures r == Err(ExpirationInPast) ==> expiresAt < clock
      ensures r == Err(LockRenewalFailed) ==> value in old(locks) ==> old(locks)[value] < clock
      ensures clock == old(clock) ==>
        r == if expiresAt < clock then Err(ExpirationInPast)
             else if value in old(locks) && clock <= old(locks)[value] then Ok(())
             else Err(LockRenewalFailed)
    {
      var now := Now();
      if expiresAt < now {
        return Err(ExpirationInPast), Refuse(ExpirationInPast);
      }
      var locks0 := locks;
      ghost var at := RemoveExpiredLocks();
      if returningSql {
        var matching := set v | v in locks && v == value;
        assert value in locks ==> matching == {value};
        locks := map v | v in locks :: if v in matching then expiresAt else locks[v];
        var affected := |matching|;
        if affected == 0 {
          locks := locks0;
          return Err(LockRenewalFailed), Refuse(LockRenewalFailed);
        }
      } else {
        if value !in locks {
          locks := locks0;
          return Err(LockRenewalFailed), Refuse(LockRenewalFailed);
        }
        locks := locks[value := expiresAt];
      }
      assert locks == Live(old(locks), at)[value := expiresAt];
      return Ok(()), Renew(value, expiresAt, at);
    }

    method ReleaseLock(value: Value) returns (ghost e: Event)
      modifies this
      ensures Step(old(CurrentState()), e, CurrentState()) && e.Release? && e.value == value
      ensures value !in locks
      ensures forall v :: v in locks ==> v in old(locks) && locks[v] == old(locks)[v]
      ensures forall v :: v in old(locks) && v != value && old(locks)[v] >= clock ==> v in locks
    {
      ghost var at := RemoveExpiredLocks();
      locks := locks - {value};
      e := Release(value, at);
    }
  }

  // ---------- Safety over every run ----------

  datatype Run = Run(states: seq<State>, events: seq<Event>)

  predicate StepAt(r: Run, k: nat)
    requires |r.states| == |r.events| + 1 && k < |r.events|
  {
    Step(r.states[k], r.events[k], r.states[k + 1])
  }

  predicate IsRun(r: Run) {
    && |r.states| == |r.events| + 1 && r.states[0].locks == map[]
    && forall k :: 0 <= k < |r.events| ==> StepAt(r, k)
  }

  predicate Sets(e: Event, value: Value) {
    (e.Acquire? || e.Renew?) && e.value == value
  }

  predicate Touches(e: Event, value: Value) {
    Sets(e, value) || (e.Release? && e.value == value)
  }

  /** The last event before k that sets or releases the lock. */
  function LastTouch(r: Run, value: Value, k: nat): (m: Option<nat>)
    requires k <= |r.events|
    ensures m.Some? ==> m.value < k && Touches(r.events[m.value], value)
    ensures forall i :: 0 <= i < k && Touches(r.events[i], value) ==> m.Some? && i <= m.value
  {
    if k == 0 then None
    else if Touches(r.events[k - 1], value) then Some(k - 1)
    else LastTouch(r, value, k - 1)
  }

  /** A lock is held, with the expiry set last, until it is released or that expiry has passed. */
  lemma {:induction false} LockHeld(r: Run, value: Value, k: nat)
    requires IsRun(r) && k <= |r.events|
    ensures var m := LastTouch(r, value, k); var s := r.states[k];
      if m.Some? && Sets(r.events[m.value], value) then
        || (value in s.locks && s.locks[value] == r.events[m.value].expiresAt)
        || (value !in s.locks && r.events[m.value].expiresAt < s.clock)
      else value !in s.locks
  {
    if k > 0 {
      LockHeld(r, value, k - 1);
      assert StepAt(r, k - 1);
    }
  }

  /**
   Two acquisitions of the same lock are separated by a release of it, or the clock has passed the
   expiry that was set last, by the first acquisition or by a renewal.
   */
  lemma AcquisitionsAreExclusive(r: Run, i: nat, j: nat, value: Value)
    requires IsRun(r) && i < j < |r.events|
    requires r.events[i].Acquire? && r.events[i].value == value
    requires r.events[j].Acquire? && r.events[j].value == value
    ensures var m := LastTouch(r, value, j);
      && m.Some? && i <= m.value
      && (r.events[m.value].Release? || r.events[m.value].expiresAt < r.events[j].at)
  {
    LockHeld(r, value, j);
    assert StepAt(r, j);
  }

  /** A renewal never revives a lock: the expiry set last had not passed, and there was no release. */
  lemma RenewalExtends(r: Run, j: nat, value: Value)
    requires IsRun(r) && j < |r.events| && r.events[j].Renew? && r.events[j].value == value
    ensures var m := LastTouch(r, value, j);
      m.Some? && Sets(r.events[m.value], value) && r.events[j].at <= r.events[m.value].expiresAt
  {
    LockHeld(r, value, j);
    assert StepAt(r, j);
  }
}
