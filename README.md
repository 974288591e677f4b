# NaturalRegeneration — a verified model of the regeneration core

NaturalRegeneration is a Hytale server plugin that slowly heals players who have not taken
damage for a while. This project models its core in Dafny and proves properties of the model:

- **Damage tracker** (`damage_tracker.dfy`, module `DamageTracking`). It is a map from entity
  index to the time of that entity's last damage. It answers "may this entity regenerate
  yet?". At most once a minute it sweeps out records older than ten minutes; the sweep
  removes entries in place while iterating over them.
- **Damage listener** (`damage_listener.dfy`, module `DamageListening`). It forwards every
  damage event with a positive amount to the tracker.
- **Configuration** (`regen_config.dfy`, module `Config`). It holds six settings with their
  defaults and setters that floor values to their minimums. It also resolves the health-cap
  text: `""` means no cap, `"80"` is an absolute cap, `"80%"` is a share of maximum health.
- **Regeneration tick** (`regeneration_tick.dfy`, module `RegenerationTicking`). For each
  entity, a tick adds the elapsed time to an accumulator. Once a full interval has built up,
  the tick takes one interval off, carrying the rest, and makes one heal attempt. The attempt
  does nothing at or above the effective cap or during the damage cooldown. Otherwise it
  heals the configured amount, clamped to the cap.
- **Operator commands** (`commands.dfy`, module `Commands`): `/nr toggle`, `delay`, `amount`,
  `interval` and `healthcap`. The last one classifies its text as a disabling word, a
  rejected value or a cap to store.
- **Update checker** (`version_checker.dfy`, module `Versions`). It splits version strings
  on `.` and `-`, compares them part by part and picks which fetched version (GitHub or
  CurseForge) to report. It also decides whether an update message exists.
- **Java library behaviour** the code relies on (`java_text.dfy`, module `JavaText`):
  `String.trim`, ASCII `equalsIgnoreCase`, `Float.parseFloat` on decimal numerals,
  `Integer.parseInt` with its overflow failure, and the `(long)` cast. `wrappers.dfy` holds
  `Option`, which stands for Java's `null`.

Modelling choices:

- Objects whose fields the source updates in place are classes with `modifies` clauses:
  the tracker, the configuration, the tick system's accumulator map and the version checker.
  Each one is tied to a pure function of its old state (`AfterDamage`, `AfterCleanup`,
  `TickStep`, `SelectNewest`), and the properties are proved about those functions.
- The tracker's static fields become one `DamageTracker` object that the listener and the
  tick system share.
- Java `float` becomes `real`. The `Float.MAX_VALUE` "no cap" value becomes
  `Ceiling.Unbounded`.
- The clock becomes a `now` parameter in milliseconds.
- The host's health stat becomes an `Option<HealthView>`. When the host cannot resolve the
  health stat, the value is `None`.
- The amount passed to `addStatValue` is the tick's result.
- **Owed intervals.** A tick subtracts one interval from the accumulator, however many
  intervals its `dt` spans (`RegenerationTickSystem.java:80`). The surplus stays, and each
  following tick makes one attempt until it is used up, even a tick with no elapsed time.
  `BacklogDrainsOnePerTick` proves this. `Advance` bounds the accumulator to
  `0 <= acc < interval` only when `dt` is at most one interval.

## Model

Source paths are relative to the repository root.

| member | source | states |
|---|---|---|
| DamageTracking.LastDamageTime | src/main/java/org/toskan4134/NaturalRegeneration/DamageTracker.java:51-53 | an entity without a record reads as time 0, otherwise its stored time |
| DamageTracking.CanRegenerate | src/main/java/org/toskan4134/NaturalRegeneration/DamageTracker.java:62-68 | an entity may regenerate when it has no record or at least `delay` ms have passed since it; `CooldownAfterDamage` and `CanRegenerateMonotone` state its behaviour |
| DamageTracking.Sweep | src/main/java/org/toskan4134/NaturalRegeneration/DamageTracker.java:89-95 | exactly the records that are not expired (strictly older than 600 000 ms) survive, with their times unchanged |
| DamageTracking.AfterCleanup | src/main/java/org/toskan4134/NaturalRegeneration/DamageTracker.java:81-87 | within 60 000 ms of the last sweep nothing changes; otherwise the sweep time becomes `now` and the records are exactly `Sweep`'s: the expired ones are gone and the rest keep their times |
| DamageTracking.AfterDamage | src/main/java/org/toskan4134/NaturalRegeneration/DamageTracker.java:31-34 | after a damage event the entity's record is `now` (the put precedes the sweep), and the sweep time is unchanged or `now` |
| DamageTracking.DamageTouchesOnlyItsEntity | src/main/java/org/toskan4134/NaturalRegeneration/DamageTracker.java:31-34 | no other entity gains a record or a new time; another entity loses its record exactly when a sweep is due and that record is expired |
| DamageTracking.CooldownAfterDamage | src/main/java/org/toskan4134/NaturalRegeneration/DamageTracker.java:62-68 | right after damage at `now`, regeneration is allowed at `later` exactly when `later - now >= delay` |
| DamageTracking.CanRegenerateMonotone | src/main/java/org/toskan4134/NaturalRegeneration/DamageTracker.java:62-68 | once an entity may regenerate it stays allowed as time moves forward |
| DamageTracking.SweepIdempotent | src/main/java/org/toskan4134/NaturalRegeneration/DamageTracker.java:89-95 | sweeping twice at one instant equals sweeping once |
| DamageTracking.SweepKeepsBoundaryAge | src/main/java/org/toskan4134/NaturalRegeneration/DamageTracker.java:92 | a record exactly 600 000 ms old survives (the test is strict) |
| DamageTracking.DamageTracker.constructor | src/main/java/org/toskan4134/NaturalRegeneration/DamageTracker.java:18-24 | the tracker starts with no records and sweep time 0 |
| DamageTracking.DamageTracker.OnDamageReceived | src/main/java/org/toskan4134/NaturalRegeneration/DamageTracker.java:31-34 | the new state is `AfterDamage` of the old state; the entity's record is `now` |
| DamageTracking.DamageTracker.OnDamageReceivedWithAmount | src/main/java/org/toskan4134/NaturalRegeneration/DamageTracker.java:41-44 | same new state as the one-argument overload; the amount plays no part |
| DamageTracking.DamageTracker.GetLastDamageTime | src/main/java/org/toskan4134/NaturalRegeneration/DamageTracker.java:51-53 | returns the stored time, or 0 for an entity without a record |
| DamageTracking.DamageTracker.CanRegenerateNow | src/main/java/org/toskan4134/NaturalRegeneration/DamageTracker.java:62-68 | true with no record; otherwise true exactly when at least `delay` ms have passed since the record |
| DamageTracking.DamageTracker.ClearEntity | src/main/java/org/toskan4134/NaturalRegeneration/DamageTracker.java:74-76 | removes that entity's record only; every other record and the sweep time are kept |
| DamageTracking.DamageTracker.CleanupIfNeeded | src/main/java/org/toskan4134/NaturalRegeneration/DamageTracker.java:81-98 | the in-place removal loop leaves exactly `AfterCleanup(old state, now)` |
| DamageTracking.DamageTracker.ClearAll | src/main/java/org/toskan4134/NaturalRegeneration/DamageTracker.java:103-105 | no records remain, so every entity may regenerate; the sweep time is kept |
| DamageTracking.DamageTracker.GetActiveCount | src/main/java/org/toskan4134/NaturalRegeneration/DamageTracker.java:110-112 | the number of records; 0 exactly when there are none |
| DamageListening.AfterDamageEvent | src/main/java/org/toskan4134/NaturalRegeneration/DamageListenerSystem.java:36-45 | an amount at or below 0 leaves the tracker as it was; a positive amount records the entity at `now` |
| DamageListening.MagnitudeIrrelevant | src/main/java/org/toskan4134/NaturalRegeneration/DamageListenerSystem.java:36-45 | any two positive amounts leave the same tracker state |
| DamageListening.EventTouchesOnlyDamagedEntity | src/main/java/org/toskan4134/NaturalRegeneration/DamageListenerSystem.java:36-45 | an event never creates or changes another entity's record; it can only sweep an expired one |
| DamageListening.DamageListenerSystem.Handle | src/main/java/org/toskan4134/NaturalRegeneration/DamageListenerSystem.java:29-47 | the tracker's new state is `AfterDamageEvent` of its old state; non-positive damage changes nothing |
| Config.EffectiveHealthCap | src/main/java/org/toskan4134/NaturalRegeneration/RegenConfig.java:124-143 | only configured cap text can produce a ceiling; the lemmas below state each branch |
| Config.HasHealthCap | src/main/java/org/toskan4134/NaturalRegeneration/RegenConfig.java:106-108 | a cap is configured exactly when its text is non-empty (the setter never stores null); `NoCapIsUnbounded` gives its effect |
| Config.IsHealthCapPercentage | src/main/java/org/toskan4134/NaturalRegeneration/RegenConfig.java:113-115 | the cap text ends with '%'; `PercentageCapResolves` gives its effect |
| Config.NoCapIsUnbounded | src/main/java/org/toskan4134/NaturalRegeneration/RegenConfig.java:125-127 | text with no cap is empty and resolves to no ceiling, whatever the maximum health |
| Config.PercentageCapResolves | src/main/java/org/toskan4134/NaturalRegeneration/RegenConfig.java:130-134 | "p%" whose number parses resolves to `(p / 100) * maxHealth` |
| Config.AbsoluteCapResolves | src/main/java/org/toskan4134/NaturalRegeneration/RegenConfig.java:135-137 | a numeral without '%' resolves to its own value |
| Config.AbsoluteCapIgnoresMaxHealth | src/main/java/org/toskan4134/NaturalRegeneration/RegenConfig.java:135-137 | an absolute cap is the same whatever the maximum health |
| Config.UnparsableCapIsUnbounded | src/main/java/org/toskan4134/NaturalRegeneration/RegenConfig.java:139-142 | text that fails to parse gives no ceiling, instead of an error |
| Config.DelayMs | src/main/java/org/toskan4134/NaturalRegeneration/RegenConfig.java:61-63 | the delay in whole milliseconds, truncated toward zero |
| Config.IntervalMs | src/main/java/org/toskan4134/NaturalRegeneration/RegenConfig.java:73-75 | the interval in whole milliseconds, truncated toward zero |
| Config.DefaultsWithinMinimums | src/main/java/org/toskan4134/NaturalRegeneration/RegenConfig.java:42-47 | the defaults respect every floor, have no cap and give a 10 000 ms delay |
| Config.RegenConfig.constructor | src/main/java/org/toskan4134/NaturalRegeneration/RegenConfig.java:42-50 | a new configuration holds the defaults (enabled, 10 s, 1 HP, 1 s, no cap, update checks on) |
| Config.RegenConfig.SetEnabled | src/main/java/org/toskan4134/NaturalRegeneration/RegenConfig.java:78-80 | sets `enabled` and nothing else |
| Config.RegenConfig.SetDelaySeconds | src/main/java/org/toskan4134/NaturalRegeneration/RegenConfig.java:82-84 | stores `max(0, value)` and nothing else; the floors are preserved |
| Config.RegenConfig.SetAmountHP | src/main/java/org/toskan4134/NaturalRegeneration/RegenConfig.java:86-88 | stores `max(0.1, value)` and nothing else; the floors are preserved |
| Config.RegenConfig.SetIntervalSeconds | src/main/java/org/toskan4134/NaturalRegeneration/RegenConfig.java:90-92 | stores `max(0.1, value)` and nothing else; the floors are preserved |
| Config.RegenConfig.SetHealthCap | src/main/java/org/toskan4134/NaturalRegeneration/RegenConfig.java:99-101 | stores the trimmed text, or "" for null; a cap is configured exactly when the trimmed text is non-empty |
| Config.RegenConfig.SetCheckForUpdates | src/main/java/org/toskan4134/NaturalRegeneration/RegenConfig.java:150-152 | sets `checkForUpdates` and nothing else |
| Config.RegenConfig.Toggle | src/main/java/org/toskan4134/NaturalRegeneration/RegenConfig.java:154-156 | flips `enabled` and nothing else |
| Config.ToggleTwiceRestores | src/main/java/org/toskan4134/NaturalRegeneration/RegenConfig.java:154-156 | two toggles restore the whole configuration |
| JavaText.Trim | src/main/java/org/toskan4134/NaturalRegeneration/RegenConfig.java:100 | the result is empty or starts and ends with a character above U+0020, and is no longer than the input |
| JavaText.TrimIsSlice | src/main/java/org/toskan4134/NaturalRegeneration/RegenConfig.java:100 | the trim is the slice of the input after its leading run of characters at most U+0020, and only such characters follow it |
| JavaText.TrimIdempotent | src/main/java/org/toskan4134/NaturalRegeneration/RegenConfig.java:100 | trimming stored cap text again changes nothing |
| JavaText.ParseFloat | src/main/java/org/toskan4134/NaturalRegeneration/RegenConfig.java:133 | white space around the text is ignored; accepted text is made only of numeral characters |
| JavaText.ParseFloatOfDigits | src/main/java/org/toskan4134/NaturalRegeneration/RegenConfig.java:137 | a run of digits parses to its decimal value |
| JavaText.ParseFloatOfPoint | src/main/java/org/toskan4134/NaturalRegeneration/NaturalRegenerationCommand.java:170 | `whole.frac` parses to `whole + frac / 10^len(frac)` |
| JavaText.ParseFloatOfNegative | src/main/java/org/toskan4134/NaturalRegeneration/NaturalRegenerationCommand.java:170 | a minus sign before an unsigned numeral parses to its negated value |
| JavaText.ParseFloatRejects | src/main/java/org/toskan4134/NaturalRegeneration/NaturalRegenerationCommand.java:179 | visible text holding a character no numeral has is rejected |
| JavaText.ParseInt | src/main/java/org/toskan4134/NaturalRegeneration/VersionChecker.java:255 | a digit run parses exactly when its value is at most 2 147 483 647, and then to that value |
| JavaText.DigitsValueLowerBound | src/main/java/org/toskan4134/NaturalRegeneration/VersionChecker.java:255 | a digit run is worth at least its first digit times its place value |
| JavaText.ToLong | src/main/java/org/toskan4134/NaturalRegeneration/RegenConfig.java:62 | `(long)` truncates toward zero; at or beyond the bounds of `long` the result is exactly `Long.MAX_VALUE` or `Long.MIN_VALUE` |
| RegenerationTicking.EffectiveCap | src/main/java/org/toskan4134/NaturalRegeneration/RegenerationTickSystem.java:106-108 | the ceiling is never above the maximum health; it is the maximum when no cap applies, and otherwise the smaller of the cap and the maximum |
| RegenerationTicking.Advance | src/main/java/org/toskan4134/NaturalRegeneration/RegenerationTickSystem.java:69-80 | an attempt happens exactly when stored + dt reaches the interval; one interval is taken off; below-interval input stays below the interval |
| RegenerationTicking.Attempt | src/main/java/org/toskan4134/NaturalRegeneration/RegenerationTickSystem.java:102-130 | heals exactly when below the effective cap and out of cooldown; the amount is `min(amount, cap - current)`, positive, and never lifts health over the cap or the maximum |
| RegenerationTicking.TickStep | src/main/java/org/toskan4134/NaturalRegeneration/RegenerationTickSystem.java:62-133 | disabled ticks change nothing; enabled ticks update only this entity's accumulator; a heal happens exactly when an attempt is due and the health stat is found, and is then `Attempt` |
| RegenerationTicking.DisabledTickResumes | src/main/java/org/toskan4134/NaturalRegeneration/RegenerationTickSystem.java:65-67 | ticks while disabled leave the accumulator, so re-enabling resumes where it stopped |
| RegenerationTicking.ZeroTickIdempotent | src/main/java/org/toskan4134/NaturalRegeneration/RegenerationTickSystem.java:69-77 | a zero-length tick below the interval keeps the accumulator, heals nothing and can be repeated without effect |
| RegenerationTicking.CarryExample | src/main/java/org/toskan4134/NaturalRegeneration/RegenerationTickSystem.java:69-80 | with a 1 s interval, two 0.6 s ticks give no attempt, then one attempt with 0.2 s carried |
| RegenerationTicking.IntervalConsumedRegardless | src/main/java/org/toskan4134/NaturalRegeneration/RegenerationTickSystem.java:79-80 | the interval is consumed whatever the health and the damage records are, so a blocked attempt waits a full interval |
| RegenerationTicking.Attempts | src/main/java/org/toskan4134/NaturalRegeneration/RegenerationTickSystem.java:69-80 | a run of ticks makes at most one attempt per tick |
| RegenerationTicking.BacklogDrainsOnePerTick | src/main/java/org/toskan4134/NaturalRegeneration/RegenerationTickSystem.java:79-80 | k owed intervals produce one attempt on each of the next k ticks, even with no elapsed time, leaving the remainder |
| RegenerationTicking.ClampExample | src/main/java/org/toskan4134/NaturalRegeneration/RegenerationTickSystem.java:120-125 | health 95/100 with 10 HP steps and cap "100%" heals exactly 5 |
| RegenerationTicking.CapBelowCurrentExample | src/main/java/org/toskan4134/NaturalRegeneration/RegenerationTickSystem.java:110-113 | health 50 with cap "40" is never healed |
| RegenerationTicking.RegenerationTickSystem.constructor | src/main/java/org/toskan4134/NaturalRegeneration/RegenerationTickSystem.java:36-40 | a new system shares the given configuration and tracker and has no accumulators |
| RegenerationTicking.RegenerationTickSystem.Tick | src/main/java/org/toskan4134/NaturalRegeneration/RegenerationTickSystem.java:62-133 | the new accumulators and the heal are exactly `TickStep` of the configuration snapshot, the old accumulators and the tracker's records |
| RegenerationTicking.RegenerationTickSystem.Regenerate | src/main/java/org/toskan4134/NaturalRegeneration/RegenerationTickSystem.java:102-130 | the heal is exactly `Attempt` of the snapshot and the tracker's records |
| Commands.NumericPart | src/main/java/org/toskan4134/NaturalRegeneration/NaturalRegenerationCommand.java:168 | text ending in '%' is checked without that '%'; other text is checked whole |
| Commands.IsDisableWord | src/main/java/org/toskan4134/NaturalRegeneration/NaturalRegenerationCommand.java:162 | "none" or "off" in any letter case, or exactly "0"; `ClassifyHealthCap` disables exactly for these |
| Commands.ClassifyHealthCap | src/main/java/org/toskan4134/NaturalRegeneration/NaturalRegenerationCommand.java:161-182 | disables exactly for "none"/"off" in any case and "0"; accepts only text whose number parses and is positive |
| Commands.AcceptedPercentCapResolves | src/main/java/org/toskan4134/NaturalRegeneration/NaturalRegenerationCommand.java:168-175 | an accepted "p%" is stored so that it resolves to p percent of the maximum health |
| Commands.AcceptedAbsoluteCapResolves | src/main/java/org/toskan4134/NaturalRegeneration/NaturalRegenerationCommand.java:168-175 | an accepted number is stored so that it resolves to its value |
| Commands.AcceptedCapResolvesPositive | src/main/java/org/toskan4134/NaturalRegeneration/NaturalRegenerationCommand.java:170-175 | an accepted cap is stored as a configured cap and resolves to a positive ceiling for any positive maximum |
| Commands.ClassifyByNumber | src/main/java/org/toskan4134/NaturalRegeneration/NaturalRegenerationCommand.java:168-178 | text that is not a disabling word and whose number parses is refused as not positive exactly when that number is at most 0, and accepted otherwise |
| Commands.ClassifyUnparsable | src/main/java/org/toskan4134/NaturalRegeneration/NaturalRegenerationCommand.java:170-181 | text that is not a disabling word and whose number does not parse is refused as badly formatted |
| Commands.StoredPercentCap | src/main/java/org/toskan4134/NaturalRegeneration/NaturalRegenerationCommand.java:175 | the stored trim of "t%" still ends in '%' and its number part still parses to the same value |
| Commands.StoredAbsoluteCap | src/main/java/org/toskan4134/NaturalRegeneration/NaturalRegenerationCommand.java:175 | the stored trim of a numeral is non-empty, has no '%' and parses to the same value |
| Commands.DisableWordExamples | src/main/java/org/toskan4134/NaturalRegeneration/NaturalRegenerationCommand.java:162 | "none", "OFF" and "0" disable the cap |
| Commands.NegativeCapRejected | src/main/java/org/toskan4134/NaturalRegeneration/NaturalRegenerationCommand.java:171-173 | "-5" is refused as not positive |
| Commands.ZeroPercentCapRejected | src/main/java/org/toskan4134/NaturalRegeneration/NaturalRegenerationCommand.java:168-173 | "0%" is not a disabling word and is refused as not positive |
| Commands.ZeroPointCapRejected | src/main/java/org/toskan4134/NaturalRegeneration/NaturalRegenerationCommand.java:170-173 | "0.0" is not the word "0" and is refused as not positive |
| Commands.WordCapRejected | src/main/java/org/toskan4134/NaturalRegeneration/NaturalRegenerationCommand.java:179-180 | "abc" is refused as badly formatted |
| Commands.AcceptedCapExamples | src/main/java/org/toskan4134/NaturalRegeneration/NaturalRegenerationCommand.java:175-178 | "80" and "80%" are accepted |
| Commands.NaturalRegenerationCommand.constructor | src/main/java/org/toskan4134/NaturalRegeneration/NaturalRegenerationCommand.java:26-38 | the commands share the given configuration |
| Commands.NaturalRegenerationCommand.ExecuteToggle | src/main/java/org/toskan4134/NaturalRegeneration/NaturalRegenerationCommand.java:73-78 | flips `enabled` once and changes nothing else |
| Commands.NaturalRegenerationCommand.ExecuteDelay | src/main/java/org/toskan4134/NaturalRegeneration/NaturalRegenerationCommand.java:93-100 | a given value goes through the floored setter; a missing one changes nothing |
| Commands.NaturalRegenerationCommand.ExecuteAmount | src/main/java/org/toskan4134/NaturalRegeneration/NaturalRegenerationCommand.java:115-122 | a given value goes through the floored setter; a missing one changes nothing |
| Commands.NaturalRegenerationCommand.ExecuteInterval | src/main/java/org/toskan4134/NaturalRegeneration/NaturalRegenerationCommand.java:137-144 | a given value goes through the floored setter; a missing one changes nothing |
| Commands.NaturalRegenerationCommand.ExecuteHealthCap | src/main/java/org/toskan4134/NaturalRegeneration/NaturalRegenerationCommand.java:159-184 | the decision is `ClassifyHealthCap`; disabling stores "", after which the cap resolves to no ceiling for every maximum health; accepting stores the trimmed text, rejection and a missing argument change nothing |
| Versions.StripV | src/main/java/org/toskan4134/NaturalRegeneration/VersionChecker.java:220-221 | exactly one leading lower-case 'v' is dropped |
| Versions.SplitRaw | src/main/java/org/toskan4134/NaturalRegeneration/VersionChecker.java:224-225 | at least one piece, and no piece contains '.' or '-' |
| Versions.DropTrailingEmpty | src/main/java/org/toskan4134/NaturalRegeneration/VersionChecker.java:224-225 | a prefix of the pieces that does not end in an empty piece; only empty pieces are removed |
| Versions.Split | src/main/java/org/toskan4134/NaturalRegeneration/VersionChecker.java:224-225 | text without separators is one piece, even when empty; otherwise the pieces less trailing empty ones |
| Versions.SplitRawAppend | src/main/java/org/toskan4134/NaturalRegeneration/VersionChecker.java:224-225 | splitting `a + sep + b` gives the pieces of `a` followed by those of `b` |
| Versions.SplitRawOfSeparatorFree | src/main/java/org/toskan4134/NaturalRegeneration/VersionChecker.java:224-225 | text without separators splits into itself |
| Versions.LeadingDigits | src/main/java/org/toskan4134/NaturalRegeneration/VersionChecker.java:247-254 | the longest prefix of digits: all digits, and followed by a non-digit or the end |
| Versions.VersionPartValue | src/main/java/org/toskan4134/NaturalRegeneration/VersionChecker.java:244-259 | a part's value lies between 0 and 2 147 483 647 |
| Versions.PartValueOfNumber | src/main/java/org/toskan4134/NaturalRegeneration/VersionChecker.java:246-257 | "digits then text" is worth the digits when they fit in an int, and 0 when they overflow |
| Versions.PartValueOfText | src/main/java/org/toskan4134/NaturalRegeneration/VersionChecker.java:255 | a part not starting with a digit is worth 0 |
| Versions.PartValues | src/main/java/org/toskan4134/NaturalRegeneration/VersionChecker.java:229-230 | one value per piece, in order |
| Versions.Part | src/main/java/org/toskan4134/NaturalRegeneration/VersionChecker.java:229-230 | a part past the end reads as 0 |
| Versions.Tokens | src/main/java/org/toskan4134/NaturalRegeneration/VersionChecker.java:219-225 | the part values of the version after the leading 'v' is stripped and the text is split; `LeadingVIgnored` and `TrailingZeroTokens` state its behaviour |
| Versions.NewerWithin | src/main/java/org/toskan4134/NaturalRegeneration/VersionChecker.java:227-237 | the loop from `i` to `n`: the first index where the parts differ decides, and no difference means not newer; `NewerWithinIsLexicographic` gives the independent definition |
| Versions.NewerThan | src/main/java/org/toskan4134/NaturalRegeneration/VersionChecker.java:227-238 | the loop over the longer length; `NewerThanRespectsSameParts` and the order lemmas state its behaviour |
| Versions.IsNewer | src/main/java/org/toskan4134/NaturalRegeneration/VersionChecker.java:214-238 | `isNewerVersion`: false when either version is missing, otherwise `NewerThan` of the two token lists; `IsNewerIrreflexive`, `IsNewerAsymmetric` and `IsNewerTransitive` make it a strict order |
| Versions.NewerWithinIsLexicographic | src/main/java/org/toskan4134/NaturalRegeneration/VersionChecker.java:228-238 | the comparison loop holds exactly when some part is larger and all earlier parts are equal |
| Versions.NothingNewerPastEnd | src/main/java/org/toskan4134/NaturalRegeneration/VersionChecker.java:227-230 | past both lengths nothing is newer |
| Versions.LongerBoundAgrees | src/main/java/org/toskan4134/NaturalRegeneration/VersionChecker.java:227-230 | a loop bound beyond `max(length)` gives the same answer |
| Versions.NewerWithinIrreflexive | src/main/java/org/toskan4134/NaturalRegeneration/VersionChecker.java:228-236 | a part list is not newer than itself |
| Versions.NewerWithinAsymmetric | src/main/java/org/toskan4134/NaturalRegeneration/VersionChecker.java:228-236 | of two part lists at most one is newer |
| Versions.NewerWithinTransitive | src/main/java/org/toskan4134/NaturalRegeneration/VersionChecker.java:228-236 | newer-than on part lists is transitive |
| Versions.NewerWithinRespectsSameParts | src/main/java/org/toskan4134/NaturalRegeneration/VersionChecker.java:229-230 | part lists equal up to zero padding compare the same |
| Versions.NewerThanRespectsSameParts | src/main/java/org/toskan4134/NaturalRegeneration/VersionChecker.java:227-230 | part lists equal up to zero padding compare the same at their own bounds |
| Versions.MissingIsNeverNewer | src/main/java/org/toskan4134/NaturalRegeneration/VersionChecker.java:215-217 | a null version is never newer, and nothing is newer than a null version |
| Versions.IsNewerIrreflexive | src/main/java/org/toskan4134/NaturalRegeneration/VersionChecker.java:227-238 | no version is newer than itself |
| Versions.IsNewerAsymmetric | src/main/java/org/toskan4134/NaturalRegeneration/VersionChecker.java:228-236 | if a is newer than b, b is not newer than a |
| Versions.IsNewerTransitive | src/main/java/org/toskan4134/NaturalRegeneration/VersionChecker.java:228-236 | if a is newer than b and b newer than c, a is newer than c |
| Versions.LeadingVIgnored | src/main/java/org/toskan4134/NaturalRegeneration/VersionChecker.java:220-221 | "v" + a compares like a on either side (when a does not itself start with 'v') |
| Versions.DroppedPartsAreZero | src/main/java/org/toskan4134/NaturalRegeneration/VersionChecker.java:224-230 | the pieces split drops are all worth 0 |
| Versions.SplitHasRawParts | src/main/java/org/toskan4134/NaturalRegeneration/VersionChecker.java:224-230 | `split` and the raw pieces give the same values up to zero padding |
| Versions.SplitOfTrailingZero | src/main/java/org/toskan4134/NaturalRegeneration/VersionChecker.java:224-225 | splitting `u + ".0"` gives the raw pieces of `u` followed by "0" |
| Versions.TrailingZeroTokens | src/main/java/org/toskan4134/NaturalRegeneration/VersionChecker.java:224-230 | the values of `v + ".0"` are those of `v` up to zero padding |
| Versions.TrailingZeroIgnored | src/main/java/org/toskan4134/NaturalRegeneration/VersionChecker.java:227-230 | `v + ".0"` compares like `v` on either side and is neither newer nor older than `v` |
| Versions.MissingPartsExample | src/main/java/org/toskan4134/NaturalRegeneration/VersionChecker.java:227-230 | "1.0" and "1.0.0" are not newer than each other |
| Versions.PartValueExamples | src/main/java/org/toskan4134/NaturalRegeneration/VersionChecker.java:246-255 | "beta" is worth 0, "12rc" is worth 12 |
| Versions.PartValueOfOverflow | src/main/java/org/toskan4134/NaturalRegeneration/VersionChecker.java:255-257 | a number part of at least 3 000 000 000 (ten or more digits, leading digit 3 or more) overflows `int` and is worth 0 |
| Versions.CollectLeadingDigits | src/main/java/org/toskan4134/NaturalRegeneration/VersionChecker.java:247-254 | the character loop collects exactly `LeadingDigits(part)`, stopping at the first non-digit |
| Versions.ParseVersionPart | src/main/java/org/toskan4134/NaturalRegeneration/VersionChecker.java:244-259 | returns exactly `VersionPartValue(part)`: the leading number, or 0 when there is none or it overflows |
| Versions.ComparePartLists | src/main/java/org/toskan4134/NaturalRegeneration/VersionChecker.java:227-238 | the index loop over the longer part list returns exactly `NewerThan` of the two part-value lists |
| Versions.IsNewerVersion | src/main/java/org/toskan4134/NaturalRegeneration/VersionChecker.java:214-239 | returns exactly `IsNewer(remote, local)`: false for a missing version, otherwise the part-wise comparison after stripping 'v' and splitting |
| Versions.SelectNewest | src/main/java/org/toskan4134/NaturalRegeneration/VersionChecker.java:71-87 | a reported GitHub update carries GitHub's version, a CurseForge one CurseForge's |
| Versions.UpdateFoundIffSomeSourceNewer | src/main/java/org/toskan4134/NaturalRegeneration/VersionChecker.java:75-93 | an update is found exactly when one fetched version is newer than the current one |
| Versions.ChosenIsNewerThanCurrent | src/main/java/org/toskan4134/NaturalRegeneration/VersionChecker.java:75-93 | the reported version is newer than the current one |
| Versions.ChosenIsNewest | src/main/java/org/toskan4134/NaturalRegeneration/VersionChecker.java:80-87 | neither fetched version is newer than the reported one |
| Versions.GitHubWinsTies | src/main/java/org/toskan4134/NaturalRegeneration/VersionChecker.java:80-87 | when CurseForge's version is not newer than GitHub's newer one, GitHub's is reported |
| Versions.SameVersionReportedFromGitHub | src/main/java/org/toskan4134/NaturalRegeneration/VersionChecker.java:80-87 | the same newer version on both sites is reported from GitHub |
| Versions.VersionChecker.constructor | src/main/java/org/toskan4134/NaturalRegeneration/VersionChecker.java:29-41 | a new checker keeps the current version, has no fetched or latest version and no update |
| Versions.VersionChecker.CheckForUpdates | src/main/java/org/toskan4134/NaturalRegeneration/VersionChecker.java:60-99 | stores both fetched versions; an update is available exactly when `SelectNewest` finds one, whose version and source are stored; otherwise the old latest version and source stay; an available update is always newer than the current version |
| Versions.VersionChecker.ConsoleMessage | src/main/java/org/toskan4134/NaturalRegeneration/VersionChecker.java:290-319 | no console message exactly when no update is available |
| Versions.VersionChecker.PlayerMessage | src/main/java/org/toskan4134/NaturalRegeneration/VersionChecker.java:324-330 | no chat message exactly when no update is available |
| Versions.CheckThenMessage | src/main/java/org/toskan4134/NaturalRegeneration/VersionChecker.java:290-293 | right after a check, both messages exist exactly when a fetched version is newer than the current one |

## Left out

- HTTP fetching and regular-expression scraping (`fetchUrl`, `fetchGitHubVersion`, `fetchCurseForgeVersion`, `checkForUpdatesAsync`): network I/O, a regex engine and futures. `CheckForUpdates` takes the two fetched versions as inputs.
- Logging, and the wording of chat and console messages. `ConsoleMessage` and `PlayerMessage` build text, but only whether a message exists is proved.
- The `status` subcommand: it only formats text.
- `PlayerJoinListener.java` and `NaturalRegenerationPlugin.java`: host registration and permission plumbing. The plugin's shutdown call to `clearAll` is `DamageTracker.ClearAll`.
- The configuration codec (`CODEC`) and `config.save()`: JSON persistence.
- The ECS plumbing of the tick: queries, `isParallel`, the chunk and stat-map lookups, and the cached health index. Together they become the `Option<HealthView>` input.
- Concurrency: the `ConcurrentHashMap`s and the unlocked sweep throttle. The model is sequential.
- DamageTracking.DamageTracker.OnDamageReceived: the source reads the clock twice, once for the put and once inside `cleanupIfNeeded`. The model uses one `now` for both.
- JavaText.ParseFloat: covers only optionally signed decimal numerals. It leaves out exponents, `NaN`, `Infinity`, hexadecimal forms, `f`/`d` suffixes and float rounding.
- RegenerationTicking.Advance: the accumulator sum is `real`, not `float`. In `float`, 0.6 + 0.6 - 1.0 is about 0.20000005 rather than the 0.2 of `CarryExample`.
- RegenerationTicking.Attempt: the clamp `effectiveCap - currentHealth` and the heal are `real`, so `float` rounding is not modelled.
- Config.EffectiveHealthCap: `real` arithmetic, so no float rounding or overflow on `(percent / 100) * maxHealth`.
- Config.DelayMs: the `float` multiplication by 1000 is exact here; only the cast's truncation and saturation are modelled.
- JavaText.EqualsIgnoreCase: folds ASCII letters only. The command compares only against ASCII words.
- Versions.ParseVersionPart: treats only ASCII '0'-'9' as digits. `Character.isDigit` and `Integer.parseInt` also accept other Unicode decimal digits.
- Timestamps are unbounded integers, so `long` overflow in `currentTimeMs - lastDamage` is not modelled.
