/**
 * The per-entity regeneration tick. Each call adds the elapsed time to the entity's
 * accumulator; once a full interval has built up, one interval is taken off (the
 * remainder is carried) and one regeneration attempt is made: below the effective cap,
 * out of damage cooldown, heal by the configured amount clamped to the cap.
 */
module RegenerationTicking {
  import opened Wrappers
  import opened Config
  import opened DamageTracking
  import opened JavaText

  /** What the host's health stat shows for one entity: its current and its maximum value. */
  datatype HealthView = HealthView(current: real, max: real)

  /** Entity index to the seconds accumulated toward its next regeneration attempt. */
  type Accumulators = map<int, real>

  /** The new accumulators and the amount passed to the health stat, if any. */
  datatype TickResult = TickResult(accumulators: Accumulators, healed: Option<real>)

  function Min(a: real, b: real): (r: real)
    ensures r <= a && r <= b && (r == a || r == b)
  {
    if a <= b then a else b
  }

  /** `Math.min(healthCap, maxHealth)`: the configured ceiling, never above the entity's maximum. */
  function EffectiveCap(cap: string, maxHealth: real): (c: real)
    ensures c <= maxHealth
    ensures EffectiveHealthCap(cap, maxHealth).Unbounded? ==> c == maxHealth
    ensures EffectiveHealthCap(cap, maxHealth).AtMost? ==> c <= EffectiveHealthCap(cap, maxHealth).hp
    ensures EffectiveHealthCap(cap, maxHealth).AtMost? ==>
      c == EffectiveHealthCap(cap, maxHealth).hp || c == maxHealth
  {
    match EffectiveHealthCap(cap, maxHealth)
    case Unbounded => maxHealth
    case AtMost(v) => Min(v, maxHealth)
  }

  /** The stored accumulator of an entity, 0 when it has none yet. */
  function Stored(acc: Accumulators, entity: int): real
  {
    if entity in acc then acc[entity] else 0.0
  }

  /**
   * The accumulator part of a tick on an enabled configuration: the sum of what was stored
   * and `dt`, less one interval when the sum reached it; `attempt` says it did.
   */
  function Advance(stored: real, dt: real, interval: real): (r: (real, bool))
    ensures r.1 <==> stored + dt >= interval
    ensures r.0 == stored + dt - (if r.1 then interval else 0.0)
    ensures 0.0 <= stored && 0.0 <= dt && dt <= interval && stored < interval ==> 0.0 <= r.0 < interval
  {
    var accumulated := stored + dt;
    if accumulated < interval then (accumulated, false) else (accumulated - interval, true)
  }

  /**
   * One regeneration attempt: nothing for an entity at or above its effective cap or still
   * in damage cooldown; otherwise the configured amount, clamped so that health lands on
   * the cap rather than past it.
   */
  function Attempt(s: Settings, records: Records, entity: int, now: int, h: HealthView): (r: Option<real>)
    ensures r.Some? <==>
      && h.current < EffectiveCap(s.healthCap, h.max)
      && CanRegenerate(records, entity, now, DelayMs(s))
      && s.amountHP > 0.0
    ensures r.Some? ==> r.value == Min(s.amountHP, EffectiveCap(s.healthCap, h.max) - h.current)
    ensures r.Some? ==> 0.0 < r.value <= s.amountHP
    ensures r.Some? ==> h.current + r.value <= EffectiveCap(s.healthCap, h.max) <= h.max
  {
    var effectiveCap := EffectiveCap(s.healthCap, h.max);
    if h.current >= effectiveCap then None
    else if !CanRegenerate(records, entity, now, DelayMs(s)) then None
    else
      var regenAmount := if h.current + s.amountHP > effectiveCap then effectiveCap - h.current else s.amountHP;
      if regenAmount <= 0.0 then None else Some(regenAmount)
  }

  /** The whole tick as a function of the configuration, the stored state and the inputs. */
  function TickStep(s: Settings, acc: Accumulators, records: Records, entity: int, dt: real, now: int,
                    health: Option<HealthView>): (r: TickResult)
    ensures !s.enabled ==> r.accumulators == acc && r.healed == None
    ensures s.enabled ==>
      (entity in r.accumulators && r.accumulators[entity] == Advance(Stored(acc, entity), dt, s.intervalSeconds).0)
    ensures forall k :: k != entity ==>
      (k in r.accumulators <==> k in acc) && (k in acc ==> r.accumulators[k] == acc[k])
    ensures r.healed.Some? ==>
      s.enabled && Advance(Stored(acc, entity), dt, s.intervalSeconds).1 && health.Some? &&
      r.healed == Attempt(s, records, entity, now, health.value)
    ensures s.enabled && Advance(Stored(acc, entity), dt, s.intervalSeconds).1 && health.Some? ==>
      r.healed == Attempt(s, records, entity, now, health.value)
  {
    if !s.enabled then TickResult(acc, None)
    else
      var (next, attempt) := Advance(Stored(acc, entity), dt, s.intervalSeconds);
      var acc' := acc[entity := next];
      if !attempt || health.None? then TickResult(acc', None)
      else TickResult(acc', Attempt(s, records, entity, now, health.value))
  }

  // ------------------------------------------------------------------ properties

  /** While disabled a tick changes nothing, so re-enabling resumes from the old accumulator. */
  lemma DisabledTickResumes(s: Settings, acc: Accumulators, records: Records, entity: int,
                            dt1: real, dt2: real, now: int, health: Option<HealthView>)
    requires !s.enabled
    ensures TickStep(s.(enabled := true), TickStep(s, acc, records, entity, dt1, now, health).accumulators,
                     records, entity, dt2, now, health)
         == TickStep(s.(enabled := true), acc, records, entity, dt2, now, health)
  {
  }

  /** A zero-length tick below the interval keeps the stored value, heals nothing, and repeating it changes nothing. */
  lemma {:induction false} ZeroTickIdempotent(s: Settings, acc: Accumulators, records: Records, entity: int,
                                              now: int, health: Option<HealthView>)
    requires Stored(acc, entity) < s.intervalSeconds
    ensures var r := TickStep(s, acc, records, entity, 0.0, now, health);
      && r.healed == None
      && Stored(r.accumulators, entity) == Stored(acc, entity)
      && TickStep(s, r.accumulators, records, entity, 0.0, now, health) == r
  {
    var r := TickStep(s, acc, records, entity, 0.0, now, health);
    if s.enabled {
      var r2 := TickStep(s, r.accumulators, records, entity, 0.0, now, health);
      var a1, a2 := r.accumulators, r2.accumulators;
      assert forall k :: k in a1 <==> k in a2;
      assert forall k :: k in a1 ==> a1[k] == a2[k];
      assert a1 == a2;
    }
  }

  /** Interval 1 s and two ticks of 0.6 s: no attempt, then one attempt with 0.2 s carried. */
  lemma CarryExample(s: Settings, acc: Accumulators, records: Records, entity: int, now: int, health: Option<HealthView>)
    requires s.enabled && s.intervalSeconds == 1.0 && entity !in acc
    ensures var r1 := TickStep(s, acc, records, entity, 0.6, now, health);
      var r2 := TickStep(s, r1.accumulators, records, entity, 0.6, now, health);
      && r1.healed == None && r1.accumulators[entity] == 0.6
      && r2.accumulators[entity] == 0.2
      && (health.Some? ==> r2.healed == Attempt(s, records, entity, now, health.value))
  {
  }

  /** The interval is consumed whatever the health and the damage records say. */
  lemma IntervalConsumedRegardless(s: Settings, acc: Accumulators, records1: Records, records2: Records, entity: int,
                                   dt: real, now: int, health1: Option<HealthView>, health2: Option<HealthView>)
    ensures TickStep(s, acc, records1, entity, dt, now, health1).accumulators
         == TickStep(s, acc, records2, entity, dt, now, health2).accumulators
  {
  }

  /** The number of regeneration attempts a run of ticks makes, and the accumulator it leaves. */
  function Attempts(stored: real, dts: seq<real>, interval: real): (r: (nat, real))
    ensures r.0 <= |dts|
    decreases |dts|
  {
    if |dts| == 0 then (0, stored)
    else
      var (next, attempt) := Advance(stored, dts[0], interval);
      var rest := Attempts(next, dts[1..], interval);
      ((if attempt then 1 else 0) + rest.0, rest.1)
  }

  function Zeros(n: nat): (z: seq<real>)
    ensures |z| == n && forall i :: 0 <= i < n ==> z[i] == 0.0
  {
    if n == 0 then [] else [0.0] + Zeros(n - 1)
  }

  /** `k` intervals' worth of time, added up one interval at a time. */
  function Intervals(k: nat, interval: real): real
  {
    if k == 0 then 0.0 else Intervals(k - 1, interval) + interval
  }

  /** Adding up `k` intervals is multiplying by `k`. */
  lemma {:induction false} IntervalsIsProduct(k: nat, interval: real)
    ensures Intervals(k, interval) == (k as real) * interval
  {
    if k > 0 {
      IntervalsIsProduct(k - 1, interval);
    }
  }

  /** With `k` whole intervals on top of the remainder, `k` zero-length ticks make `k` attempts. */
  lemma {:induction false} BacklogDrains(rem: real, interval: real, k: nat)
    requires interval > 0.0 && 0.0 <= rem < interval
    ensures Attempts(rem + Intervals(k, interval), Zeros(k), interval) == (k, rem)
  {
    if k > 0 {
      var next := rem + Intervals(k - 1, interval);
      var stored := next + interval;
      assert Intervals(k - 1, interval) >= 0.0 by { IntervalsNonNegative(k - 1, interval); }
      assert Advance(stored, 0.0, interval) == (next, true);
      var zs := Zeros(k);
      assert zs[0] == 0.0 && zs[1..] == Zeros(k - 1);
      BacklogDrains(rem, interval, k - 1);
      var rest := Attempts(next, Zeros(k - 1), interval);
      assert rest == (k - 1, rem);
      assert Attempts(stored, zs, interval) == (1 + rest.0, rest.1);
    }
  }

  lemma {:induction false} IntervalsNonNegative(k: nat, interval: real)
    requires interval > 0.0
    ensures Intervals(k, interval) >= 0.0
  {
    if k > 0 {
      IntervalsNonNegative(k - 1, interval);
    }
  }

  /**
   * Time owed beyond one interval is not lost: with `k` whole intervals and a remainder
   * stored, the next `k` ticks make one attempt each, even when no time passes, and the
   * remainder is what is left.
   */
  lemma BacklogDrainsOnePerTick(rem: real, interval: real, k: nat)
    requires interval > 0.0 && 0.0 <= rem < interval
    ensures Attempts(rem + (k as real) * interval, Zeros(k), interval) == (k, rem)
  {
    BacklogDrains(rem, interval, k);
    IntervalsIsProduct(k, interval);
  }

  /** Health 95 of 100, 10 HP per step and a cap of "100%": the heal is 5, landing exactly on 100. */
  lemma ClampExample(s: Settings, records: Records, entity: int, now: int)
    requires s.amountHP == 10.0 && s.healthCap == "100%"
    requires CanRegenerate(records, entity, now, DelayMs(s))
    ensures Attempt(s, records, entity, now, HealthView(95.0, 100.0)) == Some(5.0)
  {
    assert "100%"[..3] == "100";
    ParseFloatOfDigits("100");
    assert DigitsValue("100") == 100;
  }

  /** Health 50 and a cap of "40": no attempt ever heals. */
  lemma CapBelowCurrentExample(s: Settings, records: Records, entity: int, now: int, maxHealth: real)
    requires s.healthCap == "40"
    ensures Attempt(s, records, entity, now, HealthView(50.0, maxHealth)) == None
  {
    ParseFloatOfDigits("40");
    assert DigitsValue("40") == 40;
  }

  // ------------------------------------------------------------------ the system

  class RegenerationTickSystem {
    const config: RegenConfig
    const tracker: DamageTracker
    var timeAccumulators: Accumulators

    constructor (config: RegenConfig, tracker: DamageTracker)
      ensures this.config == config && this.tracker == tracker
      ensures timeAccumulators == map[]
    {
      this.config := config;
      this.tracker := tracker;
      timeAccumulators := map[];
    }

    /**
     * `tick`. `health` is the entity's health stat, absent when the host cannot resolve it;
     * the result is the amount added to it (`addStatValue`), absent when nothing is added.
     */
    method Tick(dt: real, entity: int, now: int, health: Option<HealthView>) returns (healed: Option<real>)
      modifies this
      ensures var r := TickStep(config.Snapshot(), old(timeAccumulators), tracker.lastDamageTime, entity, dt, now, health);
        timeAccumulators == r.accumulators && healed == r.healed
    {
      var cfg := config.Snapshot();
      if !cfg.enabled {
        return None;
      }
      var accumulated := (if entity in timeAccumulators then timeAccumulators[entity] else 0.0) + dt;
      var intervalSec := cfg.intervalSeconds;
      assert Advance(Stored(timeAccumulators, entity), dt, intervalSec).1 <==> accumulated >= intervalSec;
      if accumulated < intervalSec {
        timeAccumulators := timeAccumulators[entity := accumulated];
        return None;
      }
      assert Advance(Stored(timeAccumulators, entity), dt, intervalSec) == (accumulated - intervalSec, true);
      timeAccumulators := timeAccumulators[entity := accumulated - intervalSec];
      if health.None? {
        return None;
      }
      healed := Regenerate(cfg, entity, now, health.value);
    }

    /** The part of `tick` after the interval check: the cap clamp, the cooldown gate and the heal clamp. */
    method Regenerate(cfg: Settings, entity: int, now: int, h: HealthView) returns (healed: Option<real>)
      ensures healed == Attempt(cfg, tracker.lastDamageTime, entity, now, h)
    {
      var currentHealth, maxHealth := h.current, h.max;
      var healthCap := EffectiveHealthCap(cfg.healthCap, maxHealth);
      var effectiveCap := if healthCap.AtMost? && healthCap.hp < maxHealth then healthCap.hp else maxHealth;
      assert effectiveCap == EffectiveCap(cfg.healthCap, h.max);
      if currentHealth >= effectiveCap {
        return None;
      }
      var allowed := tracker.CanRegenerateNow(entity, now, DelayMs(cfg));
      if !allowed {
        return None;
      }
      var regenAmount := cfg.amountHP;
      var newHealth := currentHealth + regenAmount;
      if newHealth > effectiveCap {
        regenAmount := effectiveCap - currentHealth;
      }
      if regenAmount <= 0.0 {
        return None;
      }
      healed := Some(regenAmount);
    }
  }
}
