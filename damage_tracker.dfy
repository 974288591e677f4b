/**
 * The damage-timestamp tracker: for every entity index, the time (in milliseconds)
 * of the last damage it took. It answers the cooldown query "may this entity
 * regenerate yet?" and, at most once a minute, drops records older than ten minutes.
 */
module DamageTracking {

  /** Records older than this are dropped by a sweep (ten minutes). */
  const MAX_RECORD_AGE_MS: int := 600_000
  /** A sweep runs at most once per this many milliseconds (one minute). */
  const CLEANUP_INTERVAL_MS: int := 60_000

  /** Entity index to the time of its last damage. */
  type Records = map<int, int>

  /** The whole state of the tracker: the records and the time of the last sweep. */
  datatype TrackerState = TrackerState(records: Records, lastCleanup: int)

  /** The tracker before any damage: no records, never swept (the clock counter starts at 0). */
  const INITIAL: TrackerState := TrackerState(map[], 0)

  /** A record taken at `t` is expired at `now` when it is strictly older than the maximum age. */
  predicate Expired(t: int, now: int) { now - t > MAX_RECORD_AGE_MS }

  /** `getLastDamageTime`: the stored time, or 0 for an entity with no record. */
  function LastDamageTime(records: Records, entity: int): (t: int)
    ensures entity !in records ==> t == 0
    ensures entity in records ==> t == records[entity]
  {
    if entity in records then records[entity] else 0
  }

  /** `canRegenerate`: no record, or at least `delay` milliseconds since the recorded damage. */
  predicate CanRegenerate(records: Records, entity: int, now: int, delay: int)
  {
    entity !in records || now - records[entity] >= delay
  }

  /** The records that survive a sweep at `now`: exactly the unexpired ones, with their times unchanged. */
  function Sweep(records: Records, now: int): (r: Records)
    ensures forall e :: e in r <==> e in records && !Expired(records[e], now)
    ensures forall e :: e in r ==> r[e] == records[e]
  {
    map e | e in records && !Expired(records[e], now) :: records[e]
  }

  /** `cleanupIfNeeded`: a sweep when a minute has passed since the last one, otherwise nothing. */
  function AfterCleanup(s: TrackerState, now: int): (r: TrackerState)
    ensures now - s.lastCleanup < CLEANUP_INTERVAL_MS ==> r == s
    ensures now - s.lastCleanup >= CLEANUP_INTERVAL_MS ==>
      r.lastCleanup == now && r.records == Sweep(s.records, now)
  {
    if now - s.lastCleanup < CLEANUP_INTERVAL_MS then s
    else TrackerState(Sweep(s.records, now), now)
  }

  /** `onDamageReceived`: the record is written first, then the throttled sweep runs. */
  function AfterDamage(s: TrackerState, entity: int, now: int): (r: TrackerState)
    ensures entity in r.records && r.records[entity] == now
    ensures r.lastCleanup == s.lastCleanup || r.lastCleanup == now
  {
    AfterCleanup(TrackerState(s.records[entity := now], s.lastCleanup), now)
  }

  /**
   * What a damage event does to every other entity: its record is removed exactly when a
   * sweep is due and the record is expired, and is otherwise left as it was; no record
   * is created.
   */
  lemma {:induction false} DamageTouchesOnlyItsEntity(s: TrackerState, entity: int, now: int, other: int)
    requires other != entity
    ensures other in AfterDamage(s, entity, now).records ==>
      other in s.records && AfterDamage(s, entity, now).records[other] == s.records[other]
    ensures other in s.records && other !in AfterDamage(s, entity, now).records ==>
      now - s.lastCleanup >= CLEANUP_INTERVAL_MS && Expired(s.records[other], now)
    ensures other in s.records && now - s.lastCleanup >= CLEANUP_INTERVAL_MS && Expired(s.records[other], now) ==>
      other !in AfterDamage(s, entity, now).records
  {
    var put := s.records[entity := now];
    assert other in put <==> other in s.records;
    assert other in put ==> put[other] == s.records[other];
  }

  /** Right after a damage event at `now`, the entity's cooldown is measured from `now`. */
  lemma CooldownAfterDamage(s: TrackerState, entity: int, now: int, later: int, delay: int)
    ensures CanRegenerate(AfterDamage(s, entity, now).records, entity, later, delay) <==> later - now >= delay
    ensures LastDamageTime(AfterDamage(s, entity, now).records, entity) == now
  {
  }

  /** Once allowed, an entity stays allowed as time goes on. */
  lemma CanRegenerateMonotone(records: Records, entity: int, now: int, later: int, delay: int)
    requires CanRegenerate(records, entity, now, delay)
    requires now <= later
    ensures CanRegenerate(records, entity, later, delay)
  {
  }

  /** Sweeping twice at the same instant is sweeping once. */
  lemma SweepIdempotent(records: Records, now: int)
    ensures Sweep(Sweep(records, now), now) == Sweep(records, now)
  {
  }

  /** A sweep never removes a record exactly `MAX_RECORD_AGE_MS` old (the test is strict). */
  lemma SweepKeepsBoundaryAge(records: Records, entity: int, now: int)
    requires entity in records && now - records[entity] == MAX_RECORD_AGE_MS
    ensures entity in Sweep(records, now)
  {
  }

  /** A non-empty set of entity indices has a member to visit next. */
  lemma NonEmptyHasMember(s: set<int>)
    requires s != {}
    ensures exists e :: e in s
  {
    if forall e :: e !in s {
      assert false;
    }
  }

  /**
   * The tracker. The source keeps this state in static fields; here it is one object
   * that the damage listener and the tick system share.
   */
  class DamageTracker {
    var lastDamageTime: Records
    var lastCleanupTime: int

    function State(): (s: TrackerState)
      reads this
      ensures s.records == lastDamageTime && s.lastCleanup == lastCleanupTime
    {
      TrackerState(lastDamageTime, lastCleanupTime)
    }

    constructor ()
      ensures State() == INITIAL
    {
      lastDamageTime := map[];
      lastCleanupTime := 0;
    }

    /** `onDamageReceived(entityIndex)`, with the clock reading passed in as `now`. */
    method OnDamageReceived(entity: int, now: int)
      modifies this
      ensures State() == AfterDamage(old(State()), entity, now)
      ensures entity in lastDamageTime && lastDamageTime[entity] == now
    {
      lastDamageTime := lastDamageTime[entity := now];
      CleanupIfNeeded(now);
    }

    /** `onDamageReceived(entityIndex, damageAmount)`: the amount plays no part. */
    method OnDamageReceivedWithAmount(entity: int, damageAmount: real, now: int)
      modifies this
      ensures State() == AfterDamage(old(State()), entity, now)
    {
      lastDamageTime := lastDamageTime[entity := now];
      CleanupIfNeeded(now);
    }

    method GetLastDamageTime(entity: int) returns (t: int)
      ensures t == LastDamageTime(lastDamageTime, entity)
    {
      t := if entity in lastDamageTime then lastDamageTime[entity] else 0;
    }

    method CanRegenerateNow(entity: int, now: int, delay: int) returns (r: bool)
      ensures r <==> CanRegenerate(lastDamageTime, entity, now, delay)
      ensures entity !in lastDamageTime ==> r
      ensures entity in lastDamageTime ==> (r <==> now - lastDamageTime[entity] >= delay)
    {
      if entity !in lastDamageTime {
        return true;
      }
      r := now - lastDamageTime[entity] >= delay;
    }

    /** `clearEntity`: removes the one record and nothing else. */
    method ClearEntity(entity: int)
      modifies this
      ensures lastDamageTime == old(lastDamageTime) - {entity}
      ensures lastCleanupTime == old(lastCleanupTime)
      ensures forall e :: e != entity && e in old(lastDamageTime) ==>
        e in lastDamageTime && lastDamageTime[e] == old(lastDamageTime)[e]
    {
      lastDamageTime := lastDamageTime - {entity};
    }

    /** `cleanupIfNeeded`: the throttle test, then an in-place removal of every expired record. */
    method CleanupIfNeeded(now: int)
      modifies this
      ensures State() == AfterCleanup(old(State()), now)
    {
      if now - lastCleanupTime >= CLEANUP_INTERVAL_MS {
        lastCleanupTime := now;
        ghost var start := lastDamageTime;
        var pending := lastDamageTime.Keys;
        while pending != {}
          invariant pending <= start.Keys
          invariant lastCleanupTime == now
          invariant forall e :: e in lastDamageTime <==> e in start && (e in pending || !Expired(start[e], now))
          invariant forall e :: e in lastDamageTime ==> lastDamageTime[e] == start[e]
          decreases pending
        {
          NonEmptyHasMember(pending);
          var k :| k in pending;
          if Expired(lastDamageTime[k], now) {
            lastDamageTime := lastDamageTime - {k};
          }
          pending := pending - {k};
        }
        ghost var kept, swept := lastDamageTime, Sweep(start, now);
        assert forall e :: e in kept <==> e in swept;
        assert forall e :: e in kept ==> kept[e] == swept[e];
        assert kept == swept;
      }
    }

    /** `clearAll`: forget every record (the plugin calls this on shutdown). */
    method ClearAll()
      modifies this
      ensures lastDamageTime == map[] && lastCleanupTime == old(lastCleanupTime)
      ensures forall e, now, delay :: CanRegenerate(lastDamageTime, e, now, delay)
    {
      lastDamageTime := map[];
    }

    method GetActiveCount() returns (n: nat)
      ensures n == |lastDamageTime|
      ensures n == 0 <==> lastDamageTime == map[]
    {
      n := |lastDamageTime|;
    }
  }
}
