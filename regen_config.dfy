/**
 * The plugin's configuration object: the six settings with their defaults, setters that
 * floor values to their minimums, the on/off toggle, and the resolution of the
 * health-cap text ("" for none, "80" absolute, "80%" relative to maximum health).
 */
module Config {
  import opened Wrappers
  import opened JavaText

  /** A complete reading of the configuration, as the tick system takes it once per call. */
  datatype Settings = Settings(
    enabled: bool,
    delaySeconds: real,
    amountHP: real,
    intervalSeconds: real,
    healthCap: string,
    checkForUpdates: bool)

  const MIN_DELAY_SECONDS: real := 0.0
  const MIN_AMOUNT_HP: real := 0.1
  const MIN_INTERVAL_SECONDS: real := 0.1

  /** The values a freshly constructed configuration holds. */
  const DEFAULTS: Settings := Settings(true, 10.0, 1.0, 1.0, "", true)

  function Max(a: real, b: real): (r: real)
    ensures r >= a && r >= b && (r == a || r == b)
  {
    if a >= b then a else b
  }

  /** The ceiling a health cap resolves to; `Unbounded` stands for the `Float.MAX_VALUE` sentinel. */
  datatype Ceiling = Unbounded | AtMost(hp: real)

  /** `hasHealthCap`: a cap is configured exactly when its text is non-empty. */
  predicate HasHealthCap(cap: string) { cap != [] }

  /** `isHealthCapPercentage`: the text ends with '%'. */
  predicate IsHealthCapPercentage(cap: string) { |cap| > 0 && cap[|cap| - 1] == '%' }

  /** `percent` percent of `maxHealth`. */
  function PercentOf(percent: real, maxHealth: real): real
  {
    (percent / 100.0) * maxHealth
  }

  /**
   * `getEffectiveHealthCap`: no cap or unparsable text gives no ceiling; "p%" gives
   * p percent of `maxHealth`; any other numeral gives its own value.
   */
  function EffectiveHealthCap(cap: string, maxHealth: real): (r: Ceiling)
    ensures r.AtMost? ==> HasHealthCap(cap)
  {
    if !HasHealthCap(cap) then Unbounded
    else if IsHealthCapPercentage(cap) then
      match ParseFloat(cap[..|cap| - 1])
      case None => Unbounded
      case Some(percent) => AtMost(PercentOf(percent, maxHealth))
    else
      match ParseFloat(cap)
      case None => Unbounded
      case Some(value) => AtMost(value)
  }

  /** Without a configured cap there is no ceiling, whatever the maximum health. */
  lemma NoCapIsUnbounded(cap: string, maxHealth: real)
    requires !HasHealthCap(cap)
    ensures cap == []
    ensures EffectiveHealthCap(cap, maxHealth) == Unbounded
  {
  }

  /** A cap "p%" resolves to p percent of the maximum health. */
  lemma PercentageCapResolves(cap: string, p: real, maxHealth: real)
    requires IsHealthCapPercentage(cap) && ParseFloat(cap[..|cap| - 1]) == Some(p)
    ensures EffectiveHealthCap(cap, maxHealth) == AtMost(PercentOf(p, maxHealth))
  {
    var r := ParseFloat(cap[..|cap| - 1]);
    assert r == Some(p);
    assert HasHealthCap(cap);
  }

  /** A cap without '%' resolves to its own value, whatever the maximum health. */
  lemma AbsoluteCapResolves(cap: string, v: real, maxHealth: real)
    requires !IsHealthCapPercentage(cap) && ParseFloat(cap) == Some(v)
    ensures EffectiveHealthCap(cap, maxHealth) == AtMost(v)
  {
    var r := ParseFloat(cap);
    assert r == Some(v);
    assert HasHealthCap(cap);
  }

  /** An absolute cap does not depend on the entity's maximum health. */
  lemma AbsoluteCapIgnoresMaxHealth(cap: string, max1: real, max2: real)
    requires !IsHealthCapPercentage(cap)
    ensures EffectiveHealthCap(cap, max1) == EffectiveHealthCap(cap, max2)
  {
  }

  /** Text that does not parse never caps anything. */
  lemma UnparsableCapIsUnbounded(cap: string, maxHealth: real)
    requires IsHealthCapPercentage(cap) ==> ParseFloat(cap[..|cap| - 1]).None?
    requires !IsHealthCapPercentage(cap) ==> ParseFloat(cap).None?
    ensures EffectiveHealthCap(cap, maxHealth) == Unbounded
  {
  }

  /** `getDelayMs`: the delay in whole milliseconds, truncated toward zero. */
  function DelayMs(s: Settings): (ms: int)
    ensures 0.0 <= s.delaySeconds * 1000.0 <= LONG_MAX as real ==>
      0 <= ms && ms as real <= s.delaySeconds * 1000.0 < ms as real + 1.0
  {
    ToLong(s.delaySeconds * 1000.0)
  }

  /** `getIntervalMs`: the interval in whole milliseconds, truncated toward zero. */
  function IntervalMs(s: Settings): (ms: int)
    ensures 0.0 <= s.intervalSeconds * 1000.0 <= LONG_MAX as real ==>
      0 <= ms && ms as real <= s.intervalSeconds * 1000.0 < ms as real + 1.0
  {
    ToLong(s.intervalSeconds * 1000.0)
  }

  /** Every setting's floor and the normal form of the stored cap text. */
  predicate WithinMinimums(s: Settings)
  {
    && s.delaySeconds >= MIN_DELAY_SECONDS
    && s.amountHP >= MIN_AMOUNT_HP
    && s.intervalSeconds >= MIN_INTERVAL_SECONDS
    && Trim(s.healthCap) == s.healthCap
  }

  lemma DefaultsWithinMinimums()
    ensures WithinMinimums(DEFAULTS)
    ensures !HasHealthCap(DEFAULTS.healthCap)
    ensures DelayMs(DEFAULTS) == 10000
  {
  }

  class RegenConfig {
    var enabled: bool
    var delaySeconds: real
    var amountHP: real
    var intervalSeconds: real
    var healthCap: string
    var checkForUpdates: bool

    /** The current values of all six settings. */
    function Snapshot(): (s: Settings)
      reads this
      ensures s.enabled == enabled && s.delaySeconds == delaySeconds && s.amountHP == amountHP
      ensures s.intervalSeconds == intervalSeconds && s.healthCap == healthCap
      ensures s.checkForUpdates == checkForUpdates
    {
      Settings(enabled, delaySeconds, amountHP, intervalSeconds, healthCap, checkForUpdates)
    }

    /** The configuration is built with the documented defaults. */
    constructor ()
      ensures Snapshot() == DEFAULTS
      ensures WithinMinimums(Snapshot())
    {
      enabled := true;
      delaySeconds := 10.0;
      amountHP := 1.0;
      intervalSeconds := 1.0;
      healthCap := "";
      checkForUpdates := true;
    }

    method SetEnabled(value: bool)
      modifies this
      ensures Snapshot() == old(Snapshot()).(enabled := value)
    {
      enabled := value;
    }

    /** The delay is floored at zero seconds. */
    method SetDelaySeconds(value: real)
      modifies this
      ensures Snapshot() == old(Snapshot()).(delaySeconds := Max(MIN_DELAY_SECONDS, value))
      ensures delaySeconds >= MIN_DELAY_SECONDS
      ensures value >= MIN_DELAY_SECONDS ==> delaySeconds == value
      ensures WithinMinimums(old(Snapshot())) ==> WithinMinimums(Snapshot())
    {
      delaySeconds := Max(0.0, value);
    }

    /** The amount healed per regeneration is floored at 0.1 HP. */
    method SetAmountHP(value: real)
      modifies this
      ensures Snapshot() == old(Snapshot()).(amountHP := Max(MIN_AMOUNT_HP, value))
      ensures amountHP >= MIN_AMOUNT_HP
      ensures value >= MIN_AMOUNT_HP ==> amountHP == value
      ensures WithinMinimums(old(Snapshot())) ==> WithinMinimums(Snapshot())
    {
      amountHP := Max(0.1, value);
    }

    /** The regeneration interval is floored at 0.1 seconds. */
    method SetIntervalSeconds(value: real)
      modifies this
      ensures Snapshot() == old(Snapshot()).(intervalSeconds := Max(MIN_INTERVAL_SECONDS, value))
      ensures intervalSeconds >= MIN_INTERVAL_SECONDS
      ensures value >= MIN_INTERVAL_SECONDS ==> intervalSeconds == value
      ensures WithinMinimums(old(Snapshot())) ==> WithinMinimums(Snapshot())
    {
      intervalSeconds := Max(0.1, value);
    }

    /** The cap text is stored trimmed; a null argument stores the empty text, meaning no cap. */
    method SetHealthCap(value: Option<string>)
      modifies this
      ensures Snapshot() == old(Snapshot()).(healthCap := if value.Some? then Trim(value.value) else "")
      ensures HasHealthCap(healthCap) <==> value.Some? && Trim(value.value) != []
      ensures WithinMinimums(old(Snapshot())) ==> WithinMinimums(Snapshot())
    {
      var stored := if value.Some? then Trim(value.value) else "";
      if value.Some? {
        TrimIdempotent(value.value);
      }
      assert Trim(stored) == stored;
      healthCap := stored;
    }

    method SetCheckForUpdates(value: bool)
      modifies this
      ensures Snapshot() == old(Snapshot()).(checkForUpdates := value)
    {
      checkForUpdates := value;
    }

    /** Flips `enabled` and leaves every other setting as it was. */
    method Toggle()
      modifies this
      ensures Snapshot() == old(Snapshot()).(enabled := !old(enabled))
      ensures WithinMinimums(old(Snapshot())) ==> WithinMinimums(Snapshot())
    {
      enabled := !enabled;
    }
  }

  /** Toggling twice restores the configuration. */
  method ToggleTwiceRestores(c: RegenConfig)
    modifies c
    ensures c.Snapshot() == old(c.Snapshot())
  {
    c.Toggle();
    c.Toggle();
  }
}
