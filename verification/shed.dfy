/**
 The ladder walked when mains is lost: `core/src/shed.rs`. Time takes the node down to
 `Quiesced`; only the charge, or the lack of a cell, takes it further.
 */
module ShedLadder {
  import opened Wrappers
  import opened Battery
  import opened Sequences

  type Duration = nat

  datatype Stage = Serving | Announced | Shed | Quiesced | ShuttingDown

  function Depth(s: Stage): nat {
    match s
    case Serving => 0
    case Announced => 1
    case Shed => 2
    case Quiesced => 3
    case ShuttingDown => 4
  }

  function Deeper(a: Stage, b: Stage): Stage {
    if Depth(a) < Depth(b) then b else a
  }

  datatype Charge = Measured(percent: Percent) | Unreadable(why: string)

  datatype ShedReason =
    | Elapsed(elapsed: Duration)
    | ReserveReached(floor: Percent, measured: Percent)
    | Unmeasurable(why: string)
    | NoUps

  datatype ShedTransition = ShedTransition(stage: Stage, reason: ShedReason)

  datatype ShedPlan = ShedPlan(shedAfter: Duration, quiesceAfter: Duration, reserve: Percent)

  datatype PlanError = RungsNotAscending | ReserveTooLow

  const MIN_RESERVE: Percent := 10

  function NewPlan(shedAfter: Duration, quiesceAfter: Duration, reserve: Percent): Result<ShedPlan, PlanError> {
    if quiesceAfter <= shedAfter then Err(RungsNotAscending)
    else if reserve < MIN_RESERVE then Err(ReserveTooLow)
    else Ok(ShedPlan(shedAfter, quiesceAfter, reserve))
  }

  /** Which plans can be built, and which complaint comes first about the others. */
  lemma PlanExactly(shedAfter: Duration, quiesceAfter: Duration, reserve: Percent)
    ensures var r := NewPlan(shedAfter, quiesceAfter, reserve);
            && (r == Ok(ShedPlan(shedAfter, quiesceAfter, reserve)) <==> shedAfter < quiesceAfter && reserve >= 10)
            && (r == Err(RungsNotAscending) <==> quiesceAfter <= shedAfter)
            && (r == Err(ReserveTooLow) <==> shedAfter < quiesceAfter && reserve < 10)
  {
  }

  function StageForElapsed(plan: ShedPlan, elapsed: Duration): Stage {
    if elapsed >= plan.quiesceAfter then Quiesced
    else if elapsed >= plan.shedAfter then Shed
    else Announced
  }

  const RUNGS: seq<Stage> := [Announced, Shed, Quiesced, ShuttingDown]

  /** The rungs strictly below `from` on the way down to `to`, in order. */
  function Between(from: Stage, to: Stage): seq<Stage> {
    if Depth(from) < Depth(to) then RUNGS[Depth(from)..Depth(to)] else []
  }

  function Entered(stages: seq<Stage>, reason: ShedReason): seq<ShedTransition> {
    seq(|stages|, i requires 0 <= i < |stages| => ShedTransition(stages[i], reason))
  }

  lemma BetweenNext(from: Stage, s: Stage, rung: Stage, reason: ShedReason)
    requires Depth(from) <= Depth(s) && Depth(rung) == Depth(s) + 1
    ensures Between(from, rung) == Between(from, s) + [rung]
    ensures Entered(Between(from, rung), reason) == Entered(Between(from, s), reason) + [ShedTransition(rung, reason)]
  {
    RungAt(rung);
    SliceGrows(RUNGS, Depth(from), Depth(s));
    if Depth(from) == Depth(s) {
      assert RUNGS[Depth(from)..Depth(s)] == [];
    }
    EnteredMore(Between(from, s), rung, reason);
  }

  lemma RungAt(rung: Stage)
    requires rung != Serving
    ensures RUNGS[Depth(rung) - 1] == rung
  {
  }

  lemma EnteredMore(stages: seq<Stage>, rung: Stage, reason: ShedReason)
    ensures Entered(stages + [rung], reason) == Entered(stages, reason) + [ShedTransition(rung, reason)]
  {
  }

  /** The rung one observation during an outage calls for, and why. */
  function Target(plan: ShedPlan, hasCell: bool, elapsed: Duration, charge: Charge): (Stage, ShedReason) {
    if !hasCell then (ShuttingDown, NoUps)
    else match charge
      case Unreadable(why) => (ShuttingDown, Unmeasurable(why))
      case Measured(p) =>
        if p <= plan.reserve then (ShuttingDown, ReserveReached(plan.reserve, p))
        else (StageForElapsed(plan, elapsed), Elapsed(elapsed))
  }

  /** A reason tells why a rung was called for, and each cause has its own. */
  lemma ReasonTells(plan: ShedPlan, hasCell: bool, elapsed: Duration, charge: Charge)
    ensures var reason := Target(plan, hasCell, elapsed, charge).1;
            && (reason == NoUps <==> !hasCell)
            && (reason.Unmeasurable? <==> hasCell && charge.Unreadable?)
            && (reason.Unmeasurable? ==> reason.why == charge.why)
            && (reason.ReserveReached? <==> hasCell && charge.Measured? && charge.percent <= plan.reserve)
            && (reason.ReserveReached? ==> reason.floor == plan.reserve && reason.measured == charge.percent)
            && (reason.Elapsed? <==> hasCell && charge.Measured? && charge.percent > plan.reserve)
            && (reason.Elapsed? ==> reason.elapsed == elapsed)
  {
  }

  function AfterMains(s: Stage): Stage {
    if s == Announced then Serving else s
  }

  class Ladder {
    const plan: ShedPlan
    const hasCell: bool
    var stage: Stage
    var history: seq<ShedTransition>

    constructor (plan: ShedPlan, hasCell: bool)
      ensures this.plan == plan && this.hasCell == hasCell && stage == Serving && history == []
    {
      this.plan, this.hasCell, stage, history := plan, hasCell, Serving, [];
    }

    /** Enters every rung between the current one and `target`, and never goes back up. */
    method WalkTo(target: Stage, reason: ShedReason) returns (entered: seq<ShedTransition>)
      modifies this
      ensures entered == Entered(Between(old(stage), target), reason)
      ensures stage == Deeper(old(stage), target)
      ensures history == old(history) + entered
    {
      entered := [];
      for k := 0 to |RUNGS|
        invariant Depth(old(stage)) <= Depth(stage)
        invariant Depth(stage) == if Depth(old(stage)) >= Depth(target) then Depth(old(stage))
                                  else if k <= Depth(old(stage)) then Depth(old(stage))
                                  else if k <= Depth(target) then k else Depth(target)
        invariant entered == Entered(Between(old(stage), stage), reason)
        invariant history == old(history) + entered
      {
        var rung := RUNGS[k];
        if Depth(stage) < Depth(rung) <= Depth(target) {
          BetweenNext(old(stage), stage, rung, reason);
          var t := ShedTransition(rung, reason);
          stage := rung;
          history := history + [t];
          entered := entered + [t];
        }
      }
    }

    /** One observation during an outage: every rung newly entered, in order. */
    method OnTick(elapsed: Duration, charge: Charge) returns (entered: seq<ShedTransition>)
      modifies this
      ensures var (target, reason) := Target(plan, hasCell, elapsed, charge);
              && entered == Entered(Between(old(stage), target), reason)
              && stage == Deeper(old(stage), target)
              && history == old(history) + entered
    {
      if !hasCell {
        entered := WalkTo(ShuttingDown, NoUps);
        return;
      }
      var target, reason := StageForElapsed(plan, elapsed), Elapsed(elapsed);
      match charge {
        case Unreadable(why) => target, reason := ShuttingDown, Unmeasurable(why);
        case Measured(p) =>
          if p <= plan.reserve {
            target, reason := ShuttingDown, ReserveReached(plan.reserve, p);
          }
      }
      entered := WalkTo(target, reason);
    }

    /** Mains came back: answers whether the node resumed serving by itself. */
    method Restored() returns (resumed: bool)
      modifies this
      ensures stage == AfterMains(old(stage)) && history == old(history)
      ensures resumed <==> old(stage) == Announced
    {
      if stage == Announced {
        stage := Serving;
        return true;
      }
      return false;
    }
  }

  // ---------------------------------------------------------------- whole runs of the ladder

  datatype Event = MainsPresent | MainsLost(elapsed: Duration, charge: Charge)

  function TargetOf(plan: ShedPlan, hasCell: bool, e: Event): Stage
    requires e.MainsLost?
  {
    Target(plan, hasCell, e.elapsed, e.charge).0
  }

  function StageAfter(plan: ShedPlan, hasCell: bool, from: Stage, es: seq<Event>): Stage {
    if es == [] then from
    else
      var s := StageAfter(plan, hasCell, from, es[..|es| - 1]);
      match es[|es| - 1]
      case MainsPresent => AfterMains(s)
      case MainsLost(_, _) => Deeper(s, TargetOf(plan, hasCell, es[|es| - 1]))
  }

  /** The rungs returned over the run, one call after the other. */
  function RungsOver(plan: ShedPlan, hasCell: bool, from: Stage, es: seq<Event>): seq<Stage> {
    if es == [] then []
    else
      var init, e := es[..|es| - 1], es[|es| - 1];
      RungsOver(plan, hasCell, from, init) +
      if e.MainsPresent? then [] else Between(StageAfter(plan, hasCell, from, init), TargetOf(plan, hasCell, e))
  }

  function Announcements(n: nat): seq<Stage> {
    if n == 0 then [] else Announcements(n - 1) + [Announced]
  }

  /** The obligations that come at most once: stop services, quiesce, shut down. */
  const ONCE: seq<Stage> := [Shed, Quiesced, ShuttingDown]

  /** `n` announcements, then the one-time rungs as far as the node has gone. */
  function Shape(n: nat, s: Stage): seq<Stage> {
    Announcements(n) + ONCE[..if Depth(s) <= 1 then 0 else Depth(s) - 1]
  }

  lemma ShapeStep(n: nat, s: Stage, target: Stage)
    requires s == Serving || n > 0
    ensures Shape(n, s) + Between(s, target) ==
            Shape(if s == Serving && target != Serving then n + 1 else n, Deeper(s, target))
  {
    if Depth(s) >= Depth(target) {
      NothingJoins(Shape(n, s), Between(s, target));
    } else if s == Serving {
      FirstStep(n, target);
    } else {
      LaterStep(n, s, target);
    }
  }

  lemma FirstStep(n: nat, target: Stage)
    requires target != Serving
    ensures Shape(n, Serving) + Between(Serving, target) == Shape(n + 1, target)
  {
    var rest := ONCE[..Depth(target) - 1];
    FirstRungs(Depth(target));
    NothingJoins(Announcements(n), ONCE[..0]);
    Regrouped(Announcements(n), [Announced], rest);
  }

  lemma LaterStep(n: nat, s: Stage, target: Stage)
    requires 1 <= Depth(s) < Depth(target)
    ensures Shape(n, s) + Between(s, target) == Shape(n, target)
  {
    var i, j := Depth(s) - 1, Depth(target) - 1;
    LaterRungs(i + 1, j + 1);
    PrefixJoins(ONCE, i, j);
    Regrouped(Announcements(n), ONCE[..i], ONCE[i..j]);
  }

  lemma FirstRungs(j: nat)
    requires 1 <= j <= 4
    ensures RUNGS[0..j] == [Announced] + ONCE[..j - 1]
  {
  }

  lemma LaterRungs(i: nat, j: nat)
    requires 1 <= i <= j <= 4
    ensures RUNGS[i..j] == ONCE[i - 1..j - 1]
  {
  }

  /** An observation during an outage that calls for a rung past the announcement. */
  predicate CallsPast(plan: ShedPlan, hasCell: bool, e: Event) {
    e.MainsLost? && TargetOf(plan, hasCell, e) != Announced
  }

  predicate SomePast(plan: ShedPlan, hasCell: bool, es: seq<Event>) {
    exists k :: 0 <= k < |es| && CallsPast(plan, hasCell, es[k])
  }

  lemma PastMore(plan: ShedPlan, hasCell: bool, es: seq<Event>)
    requires es != []
    ensures SomePast(plan, hasCell, es) <==> SomePast(plan, hasCell, es[..|es| - 1]) || CallsPast(plan, hasCell, es[|es| - 1])
  {
    assert forall k :: 0 <= k < |es| - 1 ==> es[..|es| - 1][k] == es[k];
  }

  lemma TargetIsRung(plan: ShedPlan, hasCell: bool, e: Event)
    requires e.MainsLost?
    ensures TargetOf(plan, hasCell, e) != Serving
  {
  }

  /**
   Where any run of events leaves a node that was serving. It is past the announcement exactly when
   some observation called for that, and then it is on the deepest rung any of them called for;
   otherwise it serves while mains are present and has announced while they are not.
   */
  lemma {:induction false} StageExactly(plan: ShedPlan, hasCell: bool, es: seq<Event>)
    ensures var s := StageAfter(plan, hasCell, Serving, es);
            && (Depth(s) >= Depth(Shed) <==> SomePast(plan, hasCell, es))
            && (!SomePast(plan, hasCell, es) ==> s == if es == [] || es[|es| - 1].MainsPresent? then Serving else Announced)
            && (forall k :: 0 <= k < |es| && es[k].MainsLost? && SomePast(plan, hasCell, es) ==>
                  Depth(TargetOf(plan, hasCell, es[k])) <= Depth(s))
            && (SomePast(plan, hasCell, es) ==> exists k :: 0 <= k < |es| && es[k].MainsLost? && TargetOf(plan, hasCell, es[k]) == s)
  {
    if es != [] {
      var init, e := es[..|es| - 1], es[|es| - 1];
      StageExactly(plan, hasCell, init);
      PastMore(plan, hasCell, es);
      assert forall k :: 0 <= k < |init| ==> init[k] == es[k];
      if e.MainsLost? {
        TargetIsRung(plan, hasCell, e);
      }
      StageStep(plan, hasCell, init, e);
    }
  }

  lemma StageStep(plan: ShedPlan, hasCell: bool, init: seq<Event>, e: Event)
    ensures StageAfter(plan, hasCell, Serving, init + [e]) ==
            var s := StageAfter(plan, hasCell, Serving, init);
            if e.MainsPresent? then if s == Announced then Serving else s
            else Deeper(s, TargetOf(plan, hasCell, e))
  {
    assert (init + [e])[..|init|] == init;
  }

  /** An outage begins for a node that is serving: mains were present before, and nothing was torn down yet. */
  predicate Begins(plan: ShedPlan, hasCell: bool, es: seq<Event>, k: nat)
    requires k < |es|
  {
    es[k].MainsLost? && (k == 0 || es[k - 1].MainsPresent?) && !SomePast(plan, hasCell, es[..k])
  }

  /** How many outages began so. */
  function Outages(plan: ShedPlan, hasCell: bool, es: seq<Event>): nat {
    if es == [] then 0
    else Outages(plan, hasCell, es[..|es| - 1]) + if Begins(plan, hasCell, es, |es| - 1) then 1 else 0
  }

  /**
   Over any run the rungs returned are one announcement for each outage that began while the node
   was serving, then a prefix of shed, quiesced, shutting down, each at most once: no rung is
   skipped and none of these comes back.
   */
  lemma {:induction false} LadderShape(plan: ShedPlan, hasCell: bool, es: seq<Event>)
    ensures RungsOver(plan, hasCell, Serving, es) ==
            Shape(Outages(plan, hasCell, es), StageAfter(plan, hasCell, Serving, es))
    ensures StageAfter(plan, hasCell, Serving, es) == Serving || Outages(plan, hasCell, es) > 0
  {
    if es != [] {
      var init, e := es[..|es| - 1], es[|es| - 1];
      LadderShape(plan, hasCell, init);
      StageExactly(plan, hasCell, init);
      var s := StageAfter(plan, hasCell, Serving, init);
      if e.MainsLost? {
        TargetIsRung(plan, hasCell, e);
        ShapeStep(Outages(plan, hasCell, init), s, TargetOf(plan, hasCell, e));
      } else {
        assert RungsOver(plan, hasCell, Serving, init) + [] == RungsOver(plan, hasCell, Serving, init);
      }
    }
  }

  predicate OneOutage(es: seq<Event>) {
    forall i :: 0 <= i < |es| ==> es[i].MainsLost?
  }

  function DeepestTarget(plan: ShedPlan, hasCell: bool, es: seq<Event>): Stage
    requires OneOutage(es)
  {
    if es == [] then Serving
    else Deeper(DeepestTarget(plan, hasCell, es[..|es| - 1]), TargetOf(plan, hasCell, es[|es| - 1]))
  }

  lemma BetweenJoin(a: Stage, b: Stage, c: Stage)
    ensures Between(a, b) + Between(Deeper(a, b), c) == Between(a, Deeper(b, c))
  {
    if Depth(a) < Depth(b) < Depth(c) {
      SlicesJoin(RUNGS, Depth(a), Depth(b), Depth(c));
    } else {
      NothingJoins(Between(a, b), Between(Deeper(a, b), c));
    }
  }

  /**
   Within one outage the rungs depend only on the deepest rung called for: ticks that came
   late, early, twice or not at all change nothing.
   */
  lemma {:induction false} OutageDependsOnDeepest(plan: ShedPlan, hasCell: bool, from: Stage, es: seq<Event>)
    requires OneOutage(es)
    ensures RungsOver(plan, hasCell, from, es) == Between(from, DeepestTarget(plan, hasCell, es))
    ensures StageAfter(plan, hasCell, from, es) == Deeper(from, DeepestTarget(plan, hasCell, es))
  {
    if es != [] {
      var init, e := es[..|es| - 1], es[|es| - 1];
      OutageDependsOnDeepest(plan, hasCell, from, init);
      BetweenJoin(from, DeepestTarget(plan, hasCell, init), TargetOf(plan, hasCell, e));
    }
  }

  /** An observation that ends the node: no cell, a charge nobody could read, or the reserve reached. */
  predicate Exhausted(plan: ShedPlan, hasCell: bool, e: Event) {
    e.MainsLost? && (!hasCell || e.charge.Unreadable? || e.charge.percent <= plan.reserve)
  }

  /** The node shuts down exactly when some observation was of an exhausted cell; time alone never does it. */
  lemma {:induction false} ShutdownExactly(plan: ShedPlan, hasCell: bool, from: Stage, es: seq<Event>)
    requires from != ShuttingDown
    ensures StageAfter(plan, hasCell, from, es) == ShuttingDown <==>
            exists i :: 0 <= i < |es| && Exhausted(plan, hasCell, es[i])
  {
    if es != [] {
      var init, e := es[..|es| - 1], es[|es| - 1];
      ShutdownExactly(plan, hasCell, from, init);
      assert forall i :: 0 <= i < |init| ==> init[i] == es[i];
      if Exhausted(plan, hasCell, e) {
        assert Exhausted(plan, hasCell, es[|es| - 1]);
      }
    }
  }

  predicate LastsFor(es: seq<Event>, elapsed: Duration)
    requires OneOutage(es)
  {
    exists i :: 0 <= i < |es| && es[i].elapsed >= elapsed
  }

  /**
   With any plan that can be built, an outage over which the cell holds takes the node exactly
   as far down as its longest observation says: announced at once, then shed, then quiesced.
   */
  lemma {:induction false} StageByTime(shedAfter: Duration, quiesceAfter: Duration, reserve: Percent, es: seq<Event>)
    requires NewPlan(shedAfter, quiesceAfter, reserve).Ok? && OneOutage(es)
    requires forall i :: 0 <= i < |es| ==> !Exhausted(NewPlan(shedAfter, quiesceAfter, reserve).value, true, es[i])
    ensures StageAfter(NewPlan(shedAfter, quiesceAfter, reserve).value, true, Serving, es) ==
            if es == [] then Serving
            else if LastsFor(es, quiesceAfter) then Quiesced
            else if LastsFor(es, shedAfter) then Shed
            else Announced
  {
    if es != [] {
      var init, e := es[..|es| - 1], es[|es| - 1];
      StageByTime(shedAfter, quiesceAfter, reserve, init);
      LastsLonger(es, shedAfter);
      LastsLonger(es, quiesceAfter);
      assert !Exhausted(NewPlan(shedAfter, quiesceAfter, reserve).value, true, e);
    }
  }

  lemma LastsLonger(es: seq<Event>, elapsed: Duration)
    requires es != [] && OneOutage(es)
    ensures LastsFor(es, elapsed) <==> LastsFor(es[..|es| - 1], elapsed) || es[|es| - 1].elapsed >= elapsed
  {
    var init := es[..|es| - 1];
    assert forall i :: 0 <= i < |init| ==> init[i] == es[i];
    if LastsFor(init, elapsed) {
      var i :| 0 <= i < |init| && init[i].elapsed >= elapsed;
      assert es[i].elapsed >= elapsed;
    }
  }

  /** Past the announcement mains coming back changes nothing, in any later run. */
  lemma {:induction false} NeverBackUp(plan: ShedPlan, hasCell: bool, from: Stage, es: seq<Event>)
    requires Depth(from) >= Depth(Shed)
    ensures Depth(StageAfter(plan, hasCell, from, es)) >= Depth(from)
  {
    if es != [] {
      NeverBackUp(plan, hasCell, from, es[..|es| - 1]);
    }
  }
}
