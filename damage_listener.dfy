/**
 * The damage-event listener: the host calls it for every resolved damage event, and it
 * forwards real damage (a positive amount) to the tracker.
 */
module DamageListening {
  import opened DamageTracking

  /** The tracker state after one damage event of `amount` on `entity` at `now`. */
  function AfterDamageEvent(s: TrackerState, entity: int, amount: real, now: int): (r: TrackerState)
    ensures amount <= 0.0 ==> r == s
    ensures amount > 0.0 ==> entity in r.records && r.records[entity] == now
  {
    if amount <= 0.0 then s else AfterDamage(s, entity, now)
  }

  /** Only the magnitude's sign matters: any two positive amounts leave the same tracker state. */
  lemma MagnitudeIrrelevant(s: TrackerState, entity: int, a1: real, a2: real, now: int)
    requires a1 > 0.0 && a2 > 0.0
    ensures AfterDamageEvent(s, entity, a1, now) == AfterDamageEvent(s, entity, a2, now)
  {
  }

  /**
   * No other entity gains a record or a new time from an event: its record is kept as it
   * was, or removed by the sweep because it had expired.
   */
  lemma {:induction false} EventTouchesOnlyDamagedEntity(s: TrackerState, entity: int, amount: real, now: int, other: int)
    requires other != entity
    ensures other in AfterDamageEvent(s, entity, amount, now).records ==>
      other in s.records && AfterDamageEvent(s, entity, amount, now).records[other] == s.records[other]
    ensures other in s.records && other !in AfterDamageEvent(s, entity, amount, now).records ==>
      amount > 0.0 && Expired(s.records[other], now)
  {
    if amount > 0.0 {
      DamageTouchesOnlyItsEntity(s, entity, now, other);
    }
  }

  class DamageListenerSystem {
    const tracker: DamageTracker

    constructor (tracker: DamageTracker)
      ensures this.tracker == tracker
    {
      this.tracker := tracker;
    }

    /** `handle`: amounts at or below zero are not real damage and change nothing. */
    method Handle(entity: int, amount: real, now: int)
      modifies tracker
      ensures tracker.State() == AfterDamageEvent(old(tracker.State()), entity, amount, now)
      ensures amount <= 0.0 ==> tracker.lastDamageTime == old(tracker.lastDamageTime)
                                && tracker.lastCleanupTime == old(tracker.lastCleanupTime)
    {
      if amount <= 0.0 {
        return;
      }
      tracker.OnDamageReceivedWithAmount(entity, amount, now);
    }
  }
}
