/**
 The supervisor's tick, which drives the governor and the ladder together, and what holds
 over every run of ticks: `core/src/runtime.rs`. The battery reading, the charge mechanism
 and the state of mains are inputs of each tick. The cadence of the loop is not modelled.
 */
module Runtime {
  import opened Wrappers
  import opened Battery
  import opened BatteryGovernor
  import Sh = ShedLadder

  datatype Power = Mains | OnBattery(since: Sh.Duration)

  /** What one pass of the loop meets. */
  datatype Tick =
    | Seen(reading: Reading, mechanism: Option<Mechanism>, power: Power)
    | Blind(error: string, power: Power)

  /** Whether this tick found a charge ceiling that does not hold. */
  predicate Fails(t: Tick, ceiling: Percent) {
    t.Seen? && t.mechanism.Some? && Failure(t.mechanism.value, ceiling).Some?
  }

  /** The ceiling is enforced first; the reading is judged only if that recorded no transition. */
  function AfterTick(th: Thresholds, ceiling: Percent, s: State, t: Tick): State {
    match t
    case Blind(error, _) => AfterBlind(s, error)
    case Seen(r, m, _) =>
      var enforced := if m.Some? then AfterEnforcing(s, m.value, ceiling, r) else s;
      if Returned(s, enforced).Some? then enforced else AfterReading(th, enforced, r)
  }

  function LadderEvent(t: Tick): Sh.Event {
    match t.power
    case Mains => Sh.MainsPresent
    case OnBattery(since) =>
      Sh.MainsLost(since, if t.Seen? then Sh.Measured(t.reading.capacity) else Sh.Unreadable(t.error))
  }

  function StageAfterTick(plan: Sh.ShedPlan, hasCell: bool, s: Sh.Stage, t: Tick): Sh.Stage {
    var e := LadderEvent(t);
    if e.MainsPresent? then Sh.AfterMains(s) else Sh.Deeper(s, Sh.TargetOf(plan, hasCell, e))
  }

  datatype Outcome = Outcome(level: Level, transition: Option<Transition>, shed: seq<Sh.ShedTransition>, readError: Option<string>)

  class Supervisor {
    const governor: Governor
    const ladder: Sh.Ladder
    const ceiling: Percent

    constructor (governor: Governor, ladder: Sh.Ladder, ceiling: Percent)
      ensures this.governor == governor && this.ladder == ladder && this.ceiling == ceiling
    {
      this.governor, this.ladder, this.ceiling := governor, ladder, ceiling;
    }

    method AdvanceShed(power: Power, charge: Sh.Charge) returns (shed: seq<Sh.ShedTransition>)
      modifies ladder
      ensures power.Mains? ==> shed == [] && ladder.stage == Sh.AfterMains(old(ladder.stage))
      ensures power.OnBattery? ==>
                var (target, reason) := Sh.Target(ladder.plan, ladder.hasCell, power.since, charge);
                && shed == Sh.Entered(Sh.Between(old(ladder.stage), target), reason)
                && ladder.stage == Sh.Deeper(old(ladder.stage), target)
      ensures ladder.history == old(ladder.history) + shed
    {
      match power {
        case Mains =>
          var resumed := ladder.Restored();
          shed := [];
        case OnBattery(since) =>
          shed := ladder.OnTick(since, charge);
      }
    }

    /** One pass: read, enforce, judge, shed. */
    method Pass(t: Tick) returns (o: Outcome)
      modifies governor, ladder
      ensures governor.Snapshot() == AfterTick(governor.thresholds, ceiling, old(governor.Snapshot()), t)
      ensures ladder.stage == StageAfterTick(ladder.plan, ladder.hasCell, old(ladder.stage), t)
      ensures ladder.history == old(ladder.history) + o.shed
      ensures t.power.Mains? ==> o.shed == []
      ensures t.power.OnBattery? ==>
                var charge := if t.Seen? then Sh.Measured(t.reading.capacity) else Sh.Unreadable(t.error);
                var (target, reason) := Sh.Target(ladder.plan, ladder.hasCell, t.power.since, charge);
                o.shed == Sh.Entered(Sh.Between(old(ladder.stage), target), reason)
      ensures o.level == governor.level
      ensures o.transition == Returned(old(governor.Snapshot()), governor.Snapshot())
      ensures o.readError == if t.Blind? then Some(t.error) else None
    {
      match t {
        case Seen(reading, mechanism, power) =>
          var transition: Option<Transition> := None;
          if mechanism.Some? {
            transition := governor.Enforce(mechanism.value, ceiling, reading);
          }
          if transition == None {
            transition := governor.Observe(reading);
          }
          var shed := AdvanceShed(power, Sh.Measured(reading.capacity));
          o := Outcome(governor.level, transition, shed, None);
        case Blind(error, power) =>
          var transition := governor.ObserveUnreadable(error);
          var shed := AdvanceShed(power, Sh.Unreadable(error));
          o := Outcome(governor.level, transition, shed, Some(error));
      }
    }
  }

  // ---------------------------------------------------------------- whole runs

  function Run(th: Thresholds, ceiling: Percent, s: State, ts: seq<Tick>): State {
    if ts == [] then s else AfterTick(th, ceiling, Run(th, ceiling, s, ts[..|ts| - 1]), ts[|ts| - 1])
  }

  predicate AtLeast(l: Level, floor: Level) {
    Rank(l) >= Rank(floor)
  }

  /**
   Tick `k` of the run is the one whose reading is not judged: its enforcement is what moves
   the governor off `Normal`.
   */
  predicate Skipped(th: Thresholds, ceiling: Percent, s: State, ts: seq<Tick>, k: nat)
    requires k < |ts|
  {
    Fails(ts[k], ceiling) && Run(th, ceiling, s, ts[..k]).level == Normal
  }

  predicate AllBlind(ts: seq<Tick>) {
    forall i :: 0 <= i < |ts| ==> ts[i].Blind?
  }

  /**
   Tick `k` was at least the third unreadable one in a row, where `pending` failures stood
   when the run began: a resumed governor brings its own.
   */
  predicate ThirdBlind(pending: nat, ts: seq<Tick>, k: nat)
    requires k < |ts|
  {
    || (k >= 2 && ts[k - 2].Blind? && ts[k - 1].Blind? && ts[k].Blind?)
    || (AllBlind(ts[..k + 1]) && pending + k + 1 >= 3)
  }

  /** Tick `k` alone accounts for a level of at least `floor`. */
  predicate Accounts(th: Thresholds, ceiling: Percent, s: State, ts: seq<Tick>, k: nat, floor: Level)
    requires k < |ts|
  {
    || (ts[k].Seen? && !Skipped(th, ceiling, s, ts, k) && AtLeast(Severity(th, ts[k].reading), floor))
    || ((Fails(ts[k], ceiling) || ThirdBlind(s.failures, ts, k)) && AtLeast(Derated, floor))
  }

  lemma TickLevel(th: Thresholds, ceiling: Percent, s: State, t: Tick)
    ensures var after := AfterTick(th, ceiling, s, t);
            && (t.Seen? && Fails(t, ceiling) && s.level == Normal ==> after.level == Derated && after.failures == s.failures)
            && (t.Seen? && !(Fails(t, ceiling) && s.level == Normal) ==>
                 after.level == Worse(s.level, Severity(th, t.reading)) && after.failures == 0)
            && (t.Blind? ==> after.level == if s.failures >= 2 then Worse(s.level, Derated) else s.level)
            && (t.Blind? && s.failures < U32_MAX ==> after.failures == s.failures + 1)
            && (t.Blind? && s.failures == U32_MAX ==> after.failures == U32_MAX)
  {
    if t.Seen? {
      var enforced := if t.mechanism.Some? then AfterEnforcing(s, t.mechanism.value, ceiling, t.reading) else s;
      ReadingRaisesToSeverity(th, enforced, t.reading);
    }
  }

  /** How many failures stand: those of the last ticks, and the pending ones while no tick has read. */
  function TrailingBlind(pending: nat, ts: seq<Tick>): nat {
    if ts == [] then pending
    else if ts[|ts| - 1].Seen? then 0
    else 1 + TrailingBlind(pending, ts[..|ts| - 1])
  }

  /** While the level is `Normal` the failure count is the run of failures at the end. */
  lemma {:induction false} CountsBlindness(th: Thresholds, ceiling: Percent, s: State, ts: seq<Tick>)
    ensures Run(th, ceiling, s, ts).level == Normal ==>
              var n := TrailingBlind(s.failures, ts);
              Run(th, ceiling, s, ts).failures == if n > U32_MAX then U32_MAX else n
    ensures |ts| > 0 && Run(th, ceiling, s, ts).level == Normal ==> Run(th, ceiling, s, ts[..|ts| - 1]).level == Normal
  {
    if ts != [] {
      CountsBlindness(th, ceiling, s, ts[..|ts| - 1]);
      TickLevel(th, ceiling, Run(th, ceiling, s, ts[..|ts| - 1]), ts[|ts| - 1]);
    }
  }

  lemma {:induction false} TrailingOfBlind(pending: nat, ts: seq<Tick>)
    requires AllBlind(ts)
    ensures TrailingBlind(pending, ts) == pending + |ts|
  {
    if ts != [] {
      TrailingOfBlind(pending, ts[..|ts| - 1]);
    }
  }

  /** One tick more, and how it splits: the last read that succeeded cuts the count. */
  lemma {:induction false} TrailingAtLeast(pending: nat, ts: seq<Tick>, n: nat)
    requires n > 0
    ensures TrailingBlind(pending, ts) >= n <==>
            (|ts| >= n && AllBlind(ts[|ts| - n..])) || (AllBlind(ts) && pending + |ts| >= n)
    decreases n
  {
    if AllBlind(ts) {
      TrailingOfBlind(pending, ts);
    } else if ts[|ts| - 1].Blind? {
      var init := ts[..|ts| - 1];
      assert !AllBlind(init);
      if n > 1 {
        TrailingAtLeast(pending, init, n - 1);
        if |ts| >= n {
          LastOnes(ts, n);
        }
      }
    } else if |ts| >= n {
      assert ts[|ts| - n..][n - 1] == ts[|ts| - 1];
    }
  }

  lemma LastOnes(ts: seq<Tick>, n: nat)
    requires 1 < n <= |ts|
    ensures ts[|ts| - n..] == ts[..|ts| - 1][|ts| - n..] + [ts[|ts| - 1]]
  {
  }

  lemma ThirdBlindIsTrailing(pending: nat, ts: seq<Tick>)
    requires ts != []
    ensures ThirdBlind(pending, ts, |ts| - 1) <==> TrailingBlind(pending, ts) >= 3
  {
    TrailingAtLeast(pending, ts, 3);
    assert ts[..|ts| - 1 + 1] == ts;
    if |ts| >= 3 {
      var last := ts[|ts| - 3..];
      assert last[0] == ts[|ts| - 3] && last[1] == ts[|ts| - 2] && last[2] == ts[|ts| - 1];
    }
  }

  lemma AccountsPrefix(th: Thresholds, ceiling: Percent, s: State, ts: seq<Tick>, k: nat, floor: Level)
    requires k < |ts| - 1
    ensures Accounts(th, ceiling, s, ts, k, floor) == Accounts(th, ceiling, s, ts[..|ts| - 1], k, floor)
  {
    assert ts[..|ts| - 1][..k] == ts[..k];
    assert ts[..|ts| - 1][..k + 1] == ts[..k + 1];
  }

  /** The last tick moves the level exactly when it accounts for more than the run before it did. */
  lemma LastTick(th: Thresholds, ceiling: Percent, s: State, ts: seq<Tick>, floor: Level)
    requires ts != [] && floor != Normal
    ensures AtLeast(Run(th, ceiling, s, ts).level, floor) <==>
            AtLeast(Run(th, ceiling, s, ts[..|ts| - 1]).level, floor) || Accounts(th, ceiling, s, ts, |ts| - 1, floor)
  {
    var n := |ts| - 1;
    var before := Run(th, ceiling, s, ts[..n]);
    TickLevel(th, ceiling, before, ts[n]);
    CountsBlindness(th, ceiling, s, ts[..n]);
    ThirdBlindIsTrailing(s.failures, ts);
  }

  /**
   Over every run of ticks the level is the maximum of where it started, the severities of
   the readings that were judged, `Derated` if any enforcement failed, and `Derated` if any
   three reads in a row failed, those before the run included.
   */
  lemma {:induction false} LevelOverRun(th: Thresholds, ceiling: Percent, s: State, ts: seq<Tick>, floor: Level)
    requires floor != Normal
    ensures AtLeast(Run(th, ceiling, s, ts).level, floor) <==>
            AtLeast(s.level, floor) || exists k :: 0 <= k < |ts| && Accounts(th, ceiling, s, ts, k, floor)
  {
    if ts != [] {
      var init := ts[..|ts| - 1];
      LevelOverRun(th, ceiling, s, init, floor);
      LastTick(th, ceiling, s, ts, floor);
      forall k | 0 <= k < |init|
        ensures Accounts(th, ceiling, s, ts, k, floor) == Accounts(th, ceiling, s, init, k, floor)
      {
        AccountsPrefix(th, ceiling, s, ts, k, floor);
      }
    }
  }

  /** The level never falls while the governor runs. */
  lemma {:induction false} NeverFalls(th: Thresholds, ceiling: Percent, s: State, ts: seq<Tick>, k: nat)
    requires k <= |ts|
    ensures AtLeast(Run(th, ceiling, s, ts).level, Run(th, ceiling, s, ts[..k]).level)
  {
    if k < |ts| {
      NeverFalls(th, ceiling, s, ts[..|ts| - 1], k);
      assert ts[..|ts| - 1][..k] == ts[..k];
      TickLevel(th, ceiling, Run(th, ceiling, s, ts[..|ts| - 1]), ts[|ts| - 1]);
    } else {
      assert ts[..k] == ts;
    }
  }

  /** At most one reading in a run is not judged. */
  lemma AtMostOneSkipped(th: Thresholds, ceiling: Percent, s: State, ts: seq<Tick>, j: nat, k: nat)
    requires j < |ts| && k < |ts|
    requires Skipped(th, ceiling, s, ts, j) && Skipped(th, ceiling, s, ts, k)
    ensures j == k
  {
    if j < k {
      SkippedOnce(th, ceiling, s, ts, j, k);
    } else if k < j {
      SkippedOnce(th, ceiling, s, ts, k, j);
    }
  }

  lemma SkippedOnce(th: Thresholds, ceiling: Percent, s: State, ts: seq<Tick>, j: nat, k: nat)
    requires j < k < |ts| && Skipped(th, ceiling, s, ts, j)
    ensures !Skipped(th, ceiling, s, ts, k)
  {
    TickLevel(th, ceiling, Run(th, ceiling, s, ts[..j]), ts[j]);
    assert ts[..k][..j + 1][..j] == ts[..j];
    NeverFalls(th, ceiling, s, ts[..k], j + 1);
  }

  predicate Hot(th: Thresholds, t: Tick) {
    t.Seen? && Severity(th, t.reading) == Halt
  }

  /**
   A reading at the hard stop halts on its own tick unless that tick's enforcement is what
   takes the governor off `Normal`; then it does not, and a second one right after it does.
   */
  lemma HotTicks(th: Thresholds, ceiling: Percent, s: State, t: Tick)
    requires Hot(th, t)
    ensures AfterTick(th, ceiling, s, t).level == Halt <==> !(Fails(t, ceiling) && s.level == Normal)
    ensures forall next :: Hot(th, next) ==> AfterTick(th, ceiling, AfterTick(th, ceiling, s, t), next).level == Halt
  {
    TickLevel(th, ceiling, s, t);
    forall next | Hot(th, next)
      ensures AfterTick(th, ceiling, AfterTick(th, ceiling, s, t), next).level == Halt
    {
      TickLevel(th, ceiling, AfterTick(th, ceiling, s, t), next);
    }
  }

  /** No ceiling is asked for on this tick, or it was set and reads back at or below what was asked. */
  predicate CeilingHolds(t: Tick, ceiling: Percent)
    requires t.Seen?
  {
    t.mechanism.Some? ==>
      var m := t.mechanism.value;
      m.applied.None? && m.verified.Ok? && m.verified.value <= ceiling
  }

  lemma FailsExactly(t: Tick, ceiling: Percent)
    ensures Fails(t, ceiling) <==> t.Seen? && !CeilingHolds(t, ceiling)
  {
  }

  /** A temperature at the hard stop, in whole degrees. */
  predicate AtHardStop(th: Thresholds, t: Tick) {
    t.Seen? && ToCelsius(t.reading.temp) >= th.hardStop
  }

  /**
   One reading at the hard stop is enough on a tick whose ceiling holds, and two in a row are
   enough on any: whatever came before and whatever comes after, the governor stays halted.
   */
  lemma {:induction false} HotHalts(th: Thresholds, ceiling: Percent, s: State, ts: seq<Tick>, k: nat)
    requires k < |ts| && AtHardStop(th, ts[k])
    requires CeilingHolds(ts[k], ceiling) || (k > 0 && AtHardStop(th, ts[k - 1]))
    ensures Run(th, ceiling, s, ts).level == Halt
  {
    var n := |ts| - 1;
    if k < n {
      HotHalts(th, ceiling, s, ts[..n], k);
      TickLevel(th, ceiling, Run(th, ceiling, s, ts[..n]), ts[n]);
    } else {
      SeverityExactly(th, ts[n].reading);
      FailsExactly(ts[n], ceiling);
      TickLevel(th, ceiling, Run(th, ceiling, s, ts[..n]), ts[n]);
      if !CeilingHolds(ts[n], ceiling) {
        var before := Run(th, ceiling, s, ts[..n][..n - 1]);
        SeverityExactly(th, ts[n - 1].reading);
        TickLevel(th, ceiling, before, ts[n - 1]);
      }
    }
  }

  /**
   A person's word: a phone that lies flat is normal again and keeps everything else, a deformed
   one is halted and no run of ticks brings it back.
   */
  lemma InspectionDecides(th: Thresholds, ceiling: Percent, s: State, ts: seq<Tick>)
    ensures AfterInspection(s, LiesFlat) == State(Normal, s.history, s.failures)
    ensures AfterInspection(s, Deformed) == State(Halt, s.history, s.failures)
    ensures Run(th, ceiling, AfterInspection(s, Deformed), ts).level == Halt
  {
    NeverFalls(th, ceiling, AfterInspection(s, Deformed), ts, 0);
  }

  // ---------------------------------------------------------------- history, between inspections

  /** Transitions that lead from one level to another, each a strict rise from where the last one ended. */
  predicate Climb(from: Level, ts: seq<Transition>, to: Level) {
    if ts == [] then from == to
    else
      var last := ts[|ts| - 1];
      last.to == to && Rank(last.from) < Rank(to) && Climb(from, ts[..|ts| - 1], last.from)
  }

  lemma {:induction false} ClimbIsShort(from: Level, ts: seq<Transition>, to: Level)
    requires Climb(from, ts, to)
    ensures |ts| <= Rank(to) - Rank(from)
  {
    if ts != [] {
      ClimbIsShort(from, ts[..|ts| - 1], ts[|ts| - 1].from);
    }
  }

  lemma TickRecords(th: Thresholds, ceiling: Percent, s: State, t: Tick) returns (made: seq<Transition>)
    ensures AfterTick(th, ceiling, s, t).history == s.history + made
    ensures var after := AfterTick(th, ceiling, s, t).level;
            || (made == [] && after == s.level)
            || (|made| == 1 && made[0].from == s.level && made[0].to == after && Rank(s.level) < Rank(after))
  {
    made := AfterTick(th, ceiling, s, t).history[|s.history|..];
  }

  /**
   What a run adds to the history climbs strictly from the level it started at to the level
   it ended at, so it is at most three transitions long.
   */
  lemma {:induction false} RunRecords(th: Thresholds, ceiling: Percent, s: State, ts: seq<Tick>) returns (made: seq<Transition>)
    ensures Run(th, ceiling, s, ts).history == s.history + made
    ensures Climb(s.level, made, Run(th, ceiling, s, ts).level)
    ensures |made| <= 3
  {
    made := [];
    if ts != [] {
      var before := Run(th, ceiling, s, ts[..|ts| - 1]);
      var earlier := RunRecords(th, ceiling, s, ts[..|ts| - 1]);
      var last := TickRecords(th, ceiling, before, ts[|ts| - 1]);
      made := earlier + last;
      if last != [] {
        assert made[..|made| - 1] == earlier;
      } else {
        assert made == earlier;
      }
    }
    ClimbIsShort(s.level, made, Run(th, ceiling, s, ts).level);
  }

  const MILD: Reading := Reading(80, 3_800_000, 0, 250, 10, 3_000_000, 3_000_000)

  /**
   An inspection brings back the level only. The count of failed reads survives it, so a
   governor inspected after two of them derates on the next one, where a fresh one waits.
   */
  lemma InspectionKeepsBlindness(th: Thresholds, ceiling: Percent)
    ensures var blind := [Blind("", Mains)];
            var inspected := AfterInspection(Run(th, ceiling, FRESH, blind + blind), LiesFlat);
            && inspected.level == Normal && inspected != FRESH
            && Run(th, ceiling, inspected, blind).level == Derated && Run(th, ceiling, FRESH, blind).level == Normal
  {
    var blind := [Blind("", Mains)];
    assert (blind + blind)[..1] == blind && blind[..0] == [];
    assert Run(th, ceiling, FRESH, blind).failures == 1;
    assert Run(th, ceiling, FRESH, blind + blind).failures == 2;
  }

  /** The skipped reading, in a concrete run: 70 degrees and a ceiling nobody can set only derate. */
  lemma HotReadingSkipped()
    ensures var th := Thresholds(45, 52, 60, 80, 60);
            var t := Seen(MILD.(temp := 700), Some(Mechanism(Some("denied"), Ok(0))), Mains);
            Severity(th, t.reading) == Halt && AfterTick(th, 80, FRESH, t).level == Derated
  {
  }

  // ---------------------------------------------------------------- the ladder over the same ticks

  function LadderEvents(ts: seq<Tick>): seq<Sh.Event> {
    seq(|ts|, i requires 0 <= i < |ts| => LadderEvent(ts[i]))
  }

  function StageAfterTicks(plan: Sh.ShedPlan, hasCell: bool, s: Sh.Stage, ts: seq<Tick>): Sh.Stage {
    if ts == [] then s
    else StageAfterTick(plan, hasCell, StageAfterTicks(plan, hasCell, s, ts[..|ts| - 1]), ts[|ts| - 1])
  }

  lemma {:induction false} StagesAgree(plan: Sh.ShedPlan, hasCell: bool, s: Sh.Stage, ts: seq<Tick>)
    ensures StageAfterTicks(plan, hasCell, s, ts) == Sh.StageAfter(plan, hasCell, s, LadderEvents(ts))
  {
    if ts != [] {
      StagesAgree(plan, hasCell, s, ts[..|ts| - 1]);
      assert LadderEvents(ts)[..|ts| - 1] == LadderEvents(ts[..|ts| - 1]);
    }
  }

  /**
   Over every run of ticks the ladder ends shutting down exactly when some tick on battery
   could not read the cell, read it at the reserve, or was of a node without a cell. One such
   tick is enough, although the governor waits for three.
   */
  lemma TicksShutDownExactly(plan: Sh.ShedPlan, hasCell: bool, ts: seq<Tick>)
    ensures StageAfterTicks(plan, hasCell, Sh.Serving, ts) == Sh.ShuttingDown <==>
            exists k :: 0 <= k < |ts| && ts[k].power.OnBattery?
                        && (!hasCell || ts[k].Blind? || ts[k].reading.capacity <= plan.reserve)
  {
    StagesAgree(plan, hasCell, Sh.Serving, ts);
    var es := LadderEvents(ts);
    Sh.ShutdownExactly(plan, hasCell, Sh.Serving, es);
    assert forall k :: 0 <= k < |ts| ==> es[k] == LadderEvent(ts[k]);
    forall k | 0 <= k < |ts|
      ensures Sh.Exhausted(plan, hasCell, es[k]) <==>
              ts[k].power.OnBattery? && (!hasCell || ts[k].Blind? || ts[k].reading.capacity <= plan.reserve)
    {
    }
  }
}
