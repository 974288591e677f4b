/**
 * The operator commands (`/nr toggle`, `delay`, `amount`, `interval`, `healthcap`). Each
 * one changes the shared configuration through its setters; `healthcap` first decides
 * whether its text disables the cap, is rejected, or is stored.
 */
module Commands {
  import opened Wrappers
  import opened JavaText
  import opened Config

  datatype CapRejection =
    | NotPositive    // "Health cap must be a positive value"
    | InvalidFormat  // "Invalid format. Use a number ... or percentage ..."

  /** What `healthcap <cap>` does with its text. */
  datatype CapDecision = DisableCap | RejectCap(reason: CapRejection) | AcceptCap

  /** The text checked for a number: the argument without one trailing '%'. */
  function NumericPart(cap: string): (t: string)
    ensures IsHealthCapPercentage(cap) ==> cap == t + ['%']
    ensures !IsHealthCapPercentage(cap) ==> t == cap
  {
    if IsHealthCapPercentage(cap) then cap[..|cap| - 1] else cap
  }

  /** The words that turn the cap off: "none" or "off" in any letter case, or exactly "0". */
  predicate IsDisableWord(cap: string)
  {
    EqualsIgnoreCase(cap, "none") || EqualsIgnoreCase(cap, "off") || cap == "0"
  }

  /** The classification at the head of `HealthCapCommand.executeSync`. */
  function ClassifyHealthCap(cap: string): (d: CapDecision)
    ensures d == DisableCap <==> IsDisableWord(cap)
    ensures d == AcceptCap ==> ParseFloat(NumericPart(cap)).Some? && ParseFloat(NumericPart(cap)).value > 0.0
  {
    if IsDisableWord(cap) then DisableCap
    else
      match ParseFloat(NumericPart(cap))
      case None => RejectCap(InvalidFormat)
      case Some(value) => if value <= 0.0 then RejectCap(NotPositive) else AcceptCap
  }

  /** An accepted "t%" is stored as its trim and resolves to t percent of the maximum health. */
  lemma {:induction false} AcceptedPercentCapResolves(cap: string, v: real, maxHealth: real)
    requires IsHealthCapPercentage(cap)
    requires ParseFloat(NumericPart(cap)) == Some(v)
    ensures EffectiveHealthCap(Trim(cap), maxHealth) == AtMost(PercentOf(v, maxHealth))
  {
    var t := NumericPart(cap);
    assert cap == t + ['%'];
    StoredPercentCap(t, v);
    var stored := Trim(cap);
    assert stored == Trim(t + ['%']);
    PercentageCapResolves(stored, v, maxHealth);
  }

  /** An accepted numeral without '%' is stored as its trim and resolves to its own value. */
  lemma {:induction false} AcceptedAbsoluteCapResolves(cap: string, v: real, maxHealth: real)
    requires !IsHealthCapPercentage(cap)
    requires ParseFloat(NumericPart(cap)) == Some(v)
    ensures EffectiveHealthCap(Trim(cap), maxHealth) == AtMost(v)
  {
    assert NumericPart(cap) == cap;
    StoredAbsoluteCap(cap, v);
    AbsoluteCapResolves(Trim(cap), v, maxHealth);
  }

  /**
   * A cap the command accepts is stored as a configured cap and, whenever the entity's
   * maximum health is positive, resolves to a positive ceiling.
   */
  lemma {:induction false} AcceptedCapResolvesPositive(cap: string, maxHealth: real)
    requires ClassifyHealthCap(cap) == AcceptCap
    requires maxHealth > 0.0
    ensures HasHealthCap(Trim(cap))
    ensures EffectiveHealthCap(Trim(cap), maxHealth).AtMost?
    ensures EffectiveHealthCap(Trim(cap), maxHealth).hp > 0.0
  {
    var v := ParseFloat(NumericPart(cap)).value;
    if IsHealthCapPercentage(cap) {
      AcceptedPercentCapResolves(cap, v, maxHealth);
      PositiveShare(EffectiveHealthCap(Trim(cap), maxHealth), v, maxHealth);
    } else {
      AcceptedAbsoluteCapResolves(cap, v, maxHealth);
    }
  }

  /** A positive percentage of a positive maximum is a positive ceiling. */
  lemma PositiveShare(c: Ceiling, percent: real, maxHealth: real)
    requires c == AtMost(PercentOf(percent, maxHealth))
    requires percent > 0.0 && maxHealth > 0.0
    ensures c.AtMost? && c.hp > 0.0
  {
    assert percent / 100.0 > 0.0;
  }

  /** Text "t%" whose number part parses is stored as the left-trimmed "t%", and its number part still parses. */
  lemma StoredPercentCap(t: string, v: real)
    requires ParseFloat(t) == Some(v)
    ensures Trim(t + ['%']) == TrimLeft(t) + ['%']
    ensures IsHealthCapPercentage(Trim(t + ['%']))
    ensures ParseFloat(Trim(t + ['%'])[..|Trim(t + ['%'])| - 1]) == Some(v)
  {
    TrimLeftAppend(t, '%');
    var stored := Trim(t + ['%']);
    assert stored[..|stored| - 1] == TrimLeft(t);
    TrimOfTrimLeft(t);
  }

  /** A numeral without '%' is stored as its trim, which is still a numeral of the same value. */
  lemma StoredAbsoluteCap(cap: string, v: real)
    requires ParseFloat(cap) == Some(v)
    ensures HasHealthCap(Trim(cap)) && !IsHealthCapPercentage(Trim(cap))
    ensures ParseFloat(Trim(cap)) == Some(v)
  {
    assert !IsNumeralChar('%');
    ParseFloatOfNumeral(cap);
  }

  /** "none" and "off" in any letter case, and exactly "0", switch the cap off. */
  lemma DisableWordExamples()
    ensures ClassifyHealthCap("none") == DisableCap
    ensures ClassifyHealthCap("OFF") == DisableCap
    ensures ClassifyHealthCap("0") == DisableCap
  {
    assert EqualsIgnoreCase("OFF", "off");
  }

  /** A negative number is refused as not positive. */
  lemma NegativeCapRejected()
    ensures ClassifyHealthCap("-5") == RejectCap(NotPositive)
  {
    var cap := "-5";
    assert NumericPart(cap) == "-" + "5";
    assert !IsDisableWord(cap) by { assert !EqualsIgnoreCase(cap, "off"); }
    UnsignedDecimalOfDigits("5");
    assert DigitsValue("5") == 5;
    ParseFloatOfNegative("5", 5.0);
    ClassifyByNumber(cap, -5.0);
  }

  /** "0%" is not a disabling word: its number is zero, so it is refused as not positive. */
  lemma ZeroPercentCapRejected()
    ensures ClassifyHealthCap("0%") == RejectCap(NotPositive)
  {
    var cap := "0%";
    assert NumericPart(cap) == "0";
    assert !IsDisableWord(cap) by { assert !EqualsIgnoreCase(cap, "off"); }
    ParseFloatOfDigits("0");
    assert DigitsValue("0") == 0;
    ClassifyByNumber(cap, 0.0);
  }

  /** "0.0" is not the word "0": it parses to zero and is refused as not positive. */
  lemma ZeroPointCapRejected()
    ensures ClassifyHealthCap("0.0") == RejectCap(NotPositive)
  {
    var cap := "0.0";
    assert NumericPart(cap) == cap;
    assert !IsDisableWord(cap) by { assert ToLowerAscii(cap[0]) != ToLowerAscii("off"[0]); }
    PointZeroParses();
    ClassifyByNumber(cap, 0.0);
  }

  lemma PointZeroParses()
    ensures ParseFloat("0.0") == Some(0.0)
  {
    var zero := "0";
    assert "0.0" == zero + "." + zero;
    ParseFloatOfPoint(zero, zero);
    ZeroDecimal(zero);
  }

  lemma ZeroDecimal(zero: string)
    requires zero == "0"
    ensures AllDigits(zero) && DecimalValue(zero, zero) == 0.0
  {
    assert DigitsValue(zero) == 0;
  }

  /** Text that is not a numeral is refused as badly formatted. */
  lemma WordCapRejected()
    ensures ClassifyHealthCap("abc") == RejectCap(InvalidFormat)
  {
    var cap := "abc";
    assert NumericPart(cap) == cap;
    assert !IsDisableWord(cap) by { assert !EqualsIgnoreCase(cap, "off"); }
    ParseFloatRejects(cap, 0);
    ClassifyUnparsable(cap);
  }

  /** Text that is not a disabling word and whose number does not parse is badly formatted. */
  lemma ClassifyUnparsable(cap: string)
    requires !IsDisableWord(cap) && ParseFloat(NumericPart(cap)).None?
    ensures ClassifyHealthCap(cap) == RejectCap(InvalidFormat)
  {
  }

  /** "80" and "80%" are accepted. */
  lemma AcceptedCapExamples()
    ensures ClassifyHealthCap("80") == AcceptCap
    ensures ClassifyHealthCap("80%") == AcceptCap
  {
    var plain, percent := "80", "80%";
    assert NumericPart(plain) == plain && NumericPart(percent) == plain;
    assert !IsDisableWord(plain) && !IsDisableWord(percent);
    EightyParses();
    ClassifyByNumber(plain, 80.0);
    ClassifyByNumber(percent, 80.0);
  }

  lemma EightyParses()
    ensures ParseFloat("80") == Some(80.0)
  {
    ParseFloatOfDigits("80");
    assert DigitsValue("80") == 80;
  }

  /** Text that is not a disabling word is decided by the sign of its number. */
  lemma ClassifyByNumber(cap: string, v: real)
    requires !IsDisableWord(cap) && ParseFloat(NumericPart(cap)) == Some(v)
    ensures ClassifyHealthCap(cap) == if v <= 0.0 then RejectCap(NotPositive) else AcceptCap
  {
  }

  class NaturalRegenerationCommand {
    const config: RegenConfig

    constructor (config: RegenConfig)
      ensures this.config == config
    {
      this.config := config;
    }

    /** `toggle`: flips `enabled` once. */
    method ExecuteToggle()
      modifies config
      ensures config.Snapshot() == old(config.Snapshot()).(enabled := !old(config.enabled))
    {
      config.Toggle();
    }

    /** `delay <seconds>`: through the floored setter; no argument, no change. */
    method ExecuteDelay(seconds: Option<real>)
      modifies config
      ensures seconds.None? ==> config.Snapshot() == old(config.Snapshot())
      ensures seconds.Some? ==>
        config.Snapshot() == old(config.Snapshot()).(delaySeconds := Max(MIN_DELAY_SECONDS, seconds.value))
      ensures config.delaySeconds >= MIN_DELAY_SECONDS || config.delaySeconds == old(config.delaySeconds)
    {
      if seconds.Some? {
        config.SetDelaySeconds(seconds.value);
      }
    }

    /** `amount <hp>`: through the floored setter; no argument, no change. */
    method ExecuteAmount(hp: Option<real>)
      modifies config
      ensures hp.None? ==> config.Snapshot() == old(config.Snapshot())
      ensures hp.Some? ==>
        config.Snapshot() == old(config.Snapshot()).(amountHP := Max(MIN_AMOUNT_HP, hp.value))
    {
      if hp.Some? {
        config.SetAmountHP(hp.value);
      }
    }

    /** `interval <seconds>`: through the floored setter; no argument, no change. */
    method ExecuteInterval(seconds: Option<real>)
      modifies config
      ensures seconds.None? ==> config.Snapshot() == old(config.Snapshot())
      ensures seconds.Some? ==>
        config.Snapshot() == old(config.Snapshot()).(intervalSeconds := Max(MIN_INTERVAL_SECONDS, seconds.value))
    {
      if seconds.Some? {
        config.SetIntervalSeconds(seconds.value);
      }
    }

    /**
     * `healthcap <cap>`: a disabling word stores "", an accepted cap stores its own text
     * (the '%' included, trimmed by the setter), and rejected text changes nothing.
     */
    method ExecuteHealthCap(cap: Option<string>) returns (decision: Option<CapDecision>)
      modifies config
      ensures decision == if cap.Some? then Some(ClassifyHealthCap(cap.value)) else None
      ensures decision == Some(DisableCap) ==> config.Snapshot() == old(config.Snapshot()).(healthCap := "")
      ensures decision == Some(DisableCap) ==>
        forall maxHealth :: EffectiveHealthCap(config.Snapshot().healthCap, maxHealth) == Unbounded
      ensures decision == Some(AcceptCap) ==> config.Snapshot() == old(config.Snapshot()).(healthCap := Trim(cap.value))
      ensures decision.None? || decision.value.RejectCap? ==> config.Snapshot() == old(config.Snapshot())
    {
      if cap.None? {
        return None;
      }
      var text := cap.value;
      if IsDisableWord(text) {
        TrimOfUntrimmable("");
        config.SetHealthCap(Some(""));
        return Some(DisableCap);
      }
      var testValue := if IsHealthCapPercentage(text) then text[..|text| - 1] else text;
      assert testValue == NumericPart(text);
      match ParseFloat(testValue) {
        case None =>
          ClassifyUnparsable(text);
          decision := Some(RejectCap(InvalidFormat));
        case Some(value) =>
          ClassifyByNumber(text, value);
          if value <= 0.0 {
            return Some(RejectCap(NotPositive));
          }
          config.SetHealthCap(Some(text));
          decision := Some(AcceptCap);
      }
    }
  }
}
