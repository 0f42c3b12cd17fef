/**
 The battery governor: `core/src/governor.rs`. It escalates on readings, on charge ceilings
 that do not hold, and on going blind; nothing but an inspection brings it down.

 The class works as the source does. What it does to its fields is stated by functions on
 `State`, and what the governor promises is proved about those functions.
 */
module BatteryGovernor {
  import opened Wrappers
  import opened Battery
  import opened Arithmetic

  datatype Level = Normal | Derated | Protect | Halt

  function Rank(l: Level): nat {
    match l
    case Normal => 0
    case Derated => 1
    case Protect => 2
    case Halt => 3
  }

  function Worse(a: Level, b: Level): Level {
    if Rank(a) < Rank(b) then b else a
  }

  datatype Reason =
    | ApplyFailed(error: string)
    | Unverifiable(error: string)
    | Reverted(wanted: Percent, got: Percent)
    | Temperature(threshold: int)
    | HealthLow(percent: Percent)
    | Unmeasurable(consecutive: u32, error: string)

  /** What a transition names as its cause: the reading itself, or the count of failures. */
  datatype Evidence = FromReading(reading: Reading) | NoReading(consecutive: u32)

  datatype Transition = Transition(from: Level, to: Level, reason: Reason, evidence: Evidence)

  datatype Thresholds = Thresholds(warn: i32, critical: i32, hardStop: i32, degraded: Percent, retire: Percent)

  datatype ThresholdError = TemperatureNotAscending | HealthNotDescending | HardStopTooHigh

  const MAX_HARD_STOP: i32 := 60
  const BLIND_TOLERANCE: u32 := 3

  function NewThresholds(warn: i32, critical: i32, hardStop: i32, degraded: Percent, retire: Percent): Result<Thresholds, ThresholdError> {
    if !(warn < critical < hardStop) then Err(TemperatureNotAscending)
    else if degraded <= retire then Err(HealthNotDescending)
    else if hardStop > MAX_HARD_STOP then Err(HardStopTooHigh)
    else Ok(Thresholds(warn, critical, hardStop, degraded, retire))
  }

  // ---------------------------------------------------------------- severity of one reading

  /** The five rules a reading is held against, most severe first. */
  datatype Rule = HardStop | Critical | Retire | Degraded | Warn

  const RULES: seq<Rule> := [HardStop, Critical, Retire, Degraded, Warn]

  predicate Fires(rule: Rule, th: Thresholds, r: Reading) {
    match rule
    case HardStop => AtLeastDegrees(r.temp, th.hardStop)
    case Critical => AtLeastDegrees(r.temp, th.critical)
    case Retire => HealthBelow(r, th.retire)
    case Degraded => HealthBelow(r, th.degraded)
    case Warn => AtLeastDegrees(r.temp, th.warn)
  }

  function LevelOf(rule: Rule): Level {
    match rule
    case HardStop => Halt
    case Critical => Protect
    case Retire => Protect
    case Degraded => Derated
    case Warn => Derated
  }

  function ReasonOf(rule: Rule, th: Thresholds): Reason {
    match rule
    case HardStop => Temperature(th.hardStop)
    case Critical => Temperature(th.critical)
    case Retire => HealthLow(th.retire)
    case Degraded => HealthLow(th.degraded)
    case Warn => Temperature(th.warn)
  }

  /** The first of these rules that fires. */
  function FirstFiring(rules: seq<Rule>, th: Thresholds, r: Reading): Option<Rule> {
    if rules == [] then None
    else if Fires(rules[0], th, r) then Some(rules[0])
    else FirstFiring(rules[1..], th, r)
  }

  /** The maximum over the five rules, each taken by itself. */
  function Severity(th: Thresholds, r: Reading): Level {
    Worse(Worse(Worse(Alone(HardStop, th, r), Alone(Critical, th, r)), Worse(Alone(Retire, th, r), Alone(Degraded, th, r))),
          Alone(Warn, th, r))
  }

  function Alone(rule: Rule, th: Thresholds, r: Reading): Level {
    if Fires(rule, th, r) then LevelOf(rule) else Normal
  }

  lemma FirstOfFive(th: Thresholds, r: Reading)
    ensures FirstFiring(RULES, th, r) ==
            if Fires(HardStop, th, r) then Some(HardStop)
            else if Fires(Critical, th, r) then Some(Critical)
            else if Fires(Retire, th, r) then Some(Retire)
            else if Fires(Degraded, th, r) then Some(Degraded)
            else if Fires(Warn, th, r) then Some(Warn)
            else None
  {
    assert RULES[1..] == [Critical, Retire, Degraded, Warn];
    assert [Critical, Retire, Degraded, Warn][1..] == [Retire, Degraded, Warn];
    assert [Retire, Degraded, Warn][1..] == [Degraded, Warn];
    assert [Degraded, Warn][1..] == [Warn];
    assert [Warn][1..] == [];
    assert FirstFiring([Warn], th, r) == if Fires(Warn, th, r) then Some(Warn) else None;
    assert FirstFiring([Degraded, Warn], th, r) ==
           if Fires(Degraded, th, r) then Some(Degraded) else FirstFiring([Warn], th, r);
    assert FirstFiring([Retire, Degraded, Warn], th, r) ==
           if Fires(Retire, th, r) then Some(Retire) else FirstFiring([Degraded, Warn], th, r);
  }

  /** The first rule that fires is as severe as all of them together. */
  lemma FirstIsWorst(th: Thresholds, r: Reading)
    ensures Severity(th, r) == match FirstFiring(RULES, th, r)
                               case None => Normal
                               case Some(rule) => LevelOf(rule)
  {
    FirstOfFive(th, r);
  }

  /** The severity in the source's units: degrees after its division, and health where it was measured. */
  lemma SeverityExactly(th: Thresholds, r: Reading)
    ensures var degrees, health := ToCelsius(r.temp), Health(r);
            && (Severity(th, r) == Halt <==> degrees >= th.hardStop)
            && (Rank(Severity(th, r)) >= 2 <==>
                 degrees >= th.hardStop || degrees >= th.critical || (health.Measured? && health.percent < th.retire))
            && (Severity(th, r) == Normal <==>
                 && degrees < th.hardStop && degrees < th.critical && degrees < th.warn
                 && (health.Measured? ==> health.percent >= th.retire && health.percent >= th.degraded))
  {
    DegreesExactly(r.temp, th.hardStop);
    DegreesExactly(r.temp, th.critical);
    DegreesExactly(r.temp, th.warn);
    HealthExactly(r, th.retire);
    HealthExactly(r, th.degraded);
  }

  /** Which thresholds can be built, and which complaint comes first about the others. */
  lemma ThresholdsExactly(warn: i32, critical: i32, hardStop: i32, degraded: Percent, retire: Percent)
    ensures var r := NewThresholds(warn, critical, hardStop, degraded, retire);
            && (r == Ok(Thresholds(warn, critical, hardStop, degraded, retire)) <==> warn < critical < hardStop <= 60 && retire < degraded)
            && (r == Err(TemperatureNotAscending) <==> warn >= critical || critical >= hardStop)
            && (r == Err(HealthNotDescending) <==> warn < critical < hardStop && retire >= degraded)
            && (r == Err(HardStopTooHigh) <==> warn < critical < hardStop && hardStop > 60 && retire < degraded)
  {
  }

  /** No threshold set that can be built lets a pack at 60.0 degrees or more go without a halt. */
  lemma SixtyAlwaysHalts(warn: i32, critical: i32, hardStop: i32, degraded: Percent, retire: Percent, r: Reading)
    requires r.temp >= 600
    ensures NewThresholds(warn, critical, hardStop, degraded, retire).Ok? ==>
              Severity(NewThresholds(warn, critical, hardStop, degraded, retire).value, r) == Halt
  {
  }

  /**
   With any thresholds that can be built and a healthy cell, the severity is read off four
   bands of whole degrees, and each band above `Normal` is there to be entered.
   */
  lemma TemperatureBands(warn: i32, critical: i32, hardStop: i32, degraded: Percent, retire: Percent, r: Reading)
    requires NewThresholds(warn, critical, hardStop, degraded, retire).Ok?
    requires !HealthBelow(r, degraded)
    ensures warn < critical < hardStop
    ensures Severity(NewThresholds(warn, critical, hardStop, degraded, retire).value, r) ==
            if ToCelsius(r.temp) >= hardStop then Halt
            else if ToCelsius(r.temp) >= critical then Protect
            else if ToCelsius(r.temp) >= warn then Derated
            else Normal
  {
    DegreesExactly(r.temp, hardStop);
    DegreesExactly(r.temp, critical);
    DegreesExactly(r.temp, warn);
    RetireIsBelow(r, retire, degraded);
  }

  lemma RetireIsBelow(r: Reading, retire: Percent, degraded: Percent)
    requires retire <= degraded
    ensures HealthBelow(r, retire) ==> HealthBelow(r, degraded)
  {
    if r.chargeFullDesign > 0 {
      MulMonotone(retire, degraded, r.chargeFullDesign);
    }
  }

  // ---------------------------------------------------------------- what each operation does to the state

  datatype State = State(level: Level, history: seq<Transition>, failures: u32)

  const FRESH := State(Normal, [], 0)

  function Raised(s: State, to: Level, reason: Reason, evidence: Evidence): State {
    if Rank(to) <= Rank(s.level) then s
    else s.(level := to, history := s.history + [Transition(s.level, to, reason, evidence)])
  }

  function AfterReading(th: Thresholds, s: State, r: Reading): State {
    var seen := s.(failures := 0);
    match FirstFiring(RULES, th, r)
    case None => seen
    case Some(rule) => Raised(seen, LevelOf(rule), ReasonOf(rule, th), FromReading(r))
  }

  /** What the charge mechanism answers when it is asked to hold a ceiling, and then to read it back. */
  datatype Mechanism = Mechanism(applied: Option<string>, verified: Result<Percent, string>)

  /** Why a ceiling is not held; `None` when the hardware reports it, or a lower one. */
  function Failure(m: Mechanism, ceiling: Percent): Option<Reason> {
    if m.applied.Some? then Some(ApplyFailed(m.applied.value))
    else match m.verified
      case Err(e) => Some(Unverifiable(e))
      case Ok(got) => if got > ceiling then Some(Reverted(ceiling, got)) else None
  }

  function AfterEnforcing(s: State, m: Mechanism, ceiling: Percent, r: Reading): State {
    match Failure(m, ceiling)
    case None => s
    case Some(reason) => Raised(s, Derated, reason, FromReading(r))
  }

  function AfterBlind(s: State, error: string): State {
    var n: u32 := if s.failures == U32_MAX then U32_MAX else s.failures + 1;
    var counted := s.(failures := n);
    if n < BLIND_TOLERANCE then counted else Raised(counted, Derated, Unmeasurable(n, error), NoReading(n))
  }

  datatype Inspection = LiesFlat | Deformed

  function AfterInspection(s: State, seen: Inspection): State {
    s.(level := if seen.LiesFlat? then Normal else Halt)
  }

  /** The transition an operation returns: the one it recorded, if it recorded one. */
  function Returned(before: State, after: State): Option<Transition> {
    if |after.history| > |before.history| then Some(after.history[|after.history| - 1]) else None
  }

  /** One reading moves the level to the worse of where it was and the severity of the reading. */
  lemma ReadingRaisesToSeverity(th: Thresholds, s: State, r: Reading)
    ensures AfterReading(th, s, r).level == Worse(s.level, Severity(th, r))
    ensures AfterReading(th, s, r).failures == 0
  {
    FirstIsWorst(th, r);
  }

  /** The state one rung up, with the transition that led there. */
  function Climbed(s: State, to: Level, reason: Reason, evidence: Evidence): State {
    State(to, s.history + [Transition(s.level, to, reason, evidence)], s.failures)
  }

  /** The cause a reading of this severity is recorded with. */
  function CauseOf(th: Thresholds, r: Reading): Reason {
    if ToCelsius(r.temp) >= th.hardStop then Temperature(th.hardStop)
    else if ToCelsius(r.temp) >= th.critical then Temperature(th.critical)
    else if Health(r).Measured? && Health(r).percent < th.retire then HealthLow(th.retire)
    else if Health(r).Measured? && Health(r).percent < th.degraded then HealthLow(th.degraded)
    else Temperature(th.warn)
  }

  /** A reading worse than the level takes the level to its severity, and the record names the threshold that was crossed. */
  lemma ReadingExplained(th: Thresholds, s: State, r: Reading)
    ensures var seen := s.(failures := 0);
            AfterReading(th, s, r) ==
            if Rank(Severity(th, r)) <= Rank(s.level) then seen
            else Climbed(seen, Severity(th, r), CauseOf(th, r), FromReading(r))
  {
    FirstIsWorst(th, r);
    FirstOfFive(th, r);
    DegreesExactly(r.temp, th.hardStop);
    DegreesExactly(r.temp, th.critical);
    DegreesExactly(r.temp, th.warn);
    HealthExactly(r, th.retire);
    HealthExactly(r, th.degraded);
  }

  /**
   A ceiling that was set and reads back at or below what was asked changes nothing. Any of the
   three failures derates a governor that is normal, and only one that is normal.
   */
  lemma EnforcedExactly(s: State, m: Mechanism, ceiling: Percent, r: Reading)
    ensures m.applied.None? && m.verified.Ok? && m.verified.value <= ceiling ==> AfterEnforcing(s, m, ceiling, r) == s
    ensures s.level != Normal ==> AfterEnforcing(s, m, ceiling, r) == s
    ensures s.level == Normal && m.applied.Some? ==>
              AfterEnforcing(s, m, ceiling, r) == Climbed(s, Derated, ApplyFailed(m.applied.value), FromReading(r))
    ensures s.level == Normal && m.applied.None? && m.verified.Err? ==>
              AfterEnforcing(s, m, ceiling, r) == Climbed(s, Derated, Unverifiable(m.verified.error), FromReading(r))
    ensures s.level == Normal && m.applied.None? && m.verified.Ok? && m.verified.value > ceiling ==>
              AfterEnforcing(s, m, ceiling, r) == Climbed(s, Derated, Reverted(ceiling, m.verified.value), FromReading(r))
  {
  }

  /** A failed read is counted up to the greatest `u32`; from the third in a row on it derates a governor that is normal. */
  lemma BlindExactly(s: State, error: string)
    ensures var n := if s.failures == 0xFFFF_FFFF then s.failures else s.failures + 1;
            AfterBlind(s, error) ==
            if s.level == Normal && n >= 3 then Climbed(s.(failures := n), Derated, Unmeasurable(n, error), NoReading(n))
            else s.(failures := n)
  {
  }

  // ---------------------------------------------------------------- the governor

  class Governor {
    const thresholds: Thresholds
    var level: Level
    var history: seq<Transition>
    var consecutiveFailures: u32

    ghost function Snapshot(): State
      reads this
    {
      State(level, history, consecutiveFailures)
    }

    constructor (th: Thresholds)
      ensures thresholds == th && Snapshot() == FRESH
    {
      thresholds, level, history, consecutiveFailures := th, Normal, [], 0;
    }

    /** A governor that starts halted, because a halt was recorded. */
    constructor Halted(th: Thresholds)
      ensures thresholds == th && Snapshot() == FRESH.(level := Halt)
    {
      thresholds, level, history, consecutiveFailures := th, Halt, [], 0;
    }

    method Escalate(to: Level, reason: Reason, evidence: Evidence) returns (t: Option<Transition>)
      modifies this
      ensures Snapshot() == Raised(old(Snapshot()), to, reason, evidence)
      ensures t == Returned(old(Snapshot()), Snapshot())
    {
      if Rank(to) <= Rank(level) {
        return None;
      }
      var made := Transition(level, to, reason, evidence);
      level := to;
      history := history + [made];
      t := Some(made);
    }

    method Observe(r: Reading) returns (t: Option<Transition>)
      modifies this
      ensures Snapshot() == AfterReading(thresholds, old(Snapshot()), r)
      ensures t == Returned(old(Snapshot()), Snapshot())
    {
      FirstOfFive(thresholds, r);
      DegreesExactly(r.temp, thresholds.hardStop);
      DegreesExactly(r.temp, thresholds.critical);
      DegreesExactly(r.temp, thresholds.warn);
      HealthExactly(r, thresholds.retire);
      HealthExactly(r, thresholds.degraded);
      consecutiveFailures := 0;
      var temp := ToCelsius(r.temp);
      var evidence := FromReading(r);
      if temp >= thresholds.hardStop {
        t := Escalate(Halt, Temperature(thresholds.hardStop), evidence);
        return;
      }
      if temp >= thresholds.critical {
        t := Escalate(Protect, Temperature(thresholds.critical), evidence);
        return;
      }
      match Health(r) {
        case Measured(soh) =>
          if soh < thresholds.retire {
            t := Escalate(Protect, HealthLow(thresholds.retire), evidence);
            return;
          }
          if soh < thresholds.degraded {
            t := Escalate(Derated, HealthLow(thresholds.degraded), evidence);
            return;
          }
        case Unknown =>
      }
      if temp >= thresholds.warn {
        t := Escalate(Derated, Temperature(thresholds.warn), evidence);
        return;
      }
      t := None;
    }

    method Enforce(m: Mechanism, ceiling: Percent, r: Reading) returns (t: Option<Transition>)
      modifies this
      ensures Snapshot() == AfterEnforcing(old(Snapshot()), m, ceiling, r)
      ensures t == Returned(old(Snapshot()), Snapshot())
    {
      var evidence := FromReading(r);
      if m.applied.Some? {
        t := Escalate(Derated, ApplyFailed(m.applied.value), evidence);
        return;
      }
      if m.verified.Err? {
        t := Escalate(Derated, Unverifiable(m.verified.error), evidence);
        return;
      }
      var got := m.verified.value;
      if got > ceiling {
        t := Escalate(Derated, Reverted(ceiling, got), evidence);
        return;
      }
      t := None;
    }

    method ObserveUnreadable(error: string) returns (t: Option<Transition>)
      modifies this
      ensures Snapshot() == AfterBlind(old(Snapshot()), error)
      ensures t == Returned(old(Snapshot()), Snapshot())
    {
      consecutiveFailures := if consecutiveFailures == U32_MAX then U32_MAX else consecutiveFailures + 1;
      if consecutiveFailures < BLIND_TOLERANCE {
        return None;
      }
      var n := consecutiveFailures;
      t := Escalate(Derated, Unmeasurable(n, error), NoReading(n));
    }

    /** Answers whether the governor may resume. */
    method Inspect(seen: Inspection) returns (resumed: bool)
      modifies this
      ensures Snapshot() == AfterInspection(old(Snapshot()), seen)
      ensures resumed <==> seen.LiesFlat?
    {
      match seen {
        case LiesFlat =>
          level := Normal;
          return true;
        case Deformed =>
          level := Halt;
          return false;
      }
    }
  }
}
