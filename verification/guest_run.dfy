/**
 What a guest may report after any interleaving of observed boots, statements of the host
 and restarts of the guest, told from the events alone.
 */
module GuestRun {
  import opened Wrappers
  import opened Guest
  import GuestRecord

  /** A restart writes the record and reads it back. */
  datatype Event = Observed(epoch: Epoch) | Said(statement: Attestation) | Restarted

  function Step(r: Record, e: Event): Record {
    match e
    case Observed(epoch) => AfterObserving(r, epoch)
    case Said(a) => AfterEstablishing(r, a)
    case Restarted => GuestRecord.Reloaded(r)
  }

  function After(es: seq<Event>): Record {
    if es == [] then Record(None, []) else Step(After(es[..|es| - 1]), es[|es| - 1])
  }

  function BootIn(e: Event): Option<Epoch> {
    match e
    case Observed(epoch) => Some(epoch)
    case Said(a) => Some(a.epoch)
    case Restarted => None
  }

  /** The greatest boot any event has named so far. */
  function GreatestBoot(es: seq<Event>): Option<Epoch> {
    if es == [] then None
    else
      var before := GreatestBoot(es[..|es| - 1]);
      match BootIn(es[|es| - 1])
      case None => before
      case Some(n) => if before.Some? && n < before.value then before else Some(n)
  }

  function ClaimOn(cs: seq<Claim>, m: Mediated): Option<Claim> {
    if cs == [] then None
    else if Control(cs[|cs| - 1]) == m then Some(cs[|cs| - 1])
    else ClaimOn(cs[..|cs| - 1], m)
  }

  /** A statement counts when it came from no earlier boot than every event before it. */
  predicate Accepted(before: seq<Event>, a: Attestation) {
    GreatestBoot(before).None? || a.epoch >= GreatestBoot(before).value
  }

  /** The last accepted word of the host about a control, and the boot it came from. */
  function LastWord(es: seq<Event>, m: Mediated): Option<Fact> {
    if es == [] then None
    else
      var before, e := es[..|es| - 1], es[|es| - 1];
      if e.Said? && Accepted(before, e.statement) && ClaimOn(e.statement.claims, m).Some? then
        Some(Fact(ClaimOn(e.statement.claims, m).value, e.statement.epoch))
      else LastWord(before, m)
  }

  // ---------------------------------------------------------------- lookups in the facts

  lemma {:induction false} FindAppend(a: seq<Fact>, b: seq<Fact>, m: Mediated)
    ensures FindFact(a + b, m) == if FindFact(a, m).Some? then FindFact(a, m) else FindFact(b, m)
  {
    if a == [] {
      assert a + b == b;
    } else {
      assert (a + b)[1..] == a[1..] + b;
      FindAppend(a[1..], b, m);
    }
  }

  lemma {:induction false} FindWithout(facts: seq<Fact>, dropped: Mediated, m: Mediated)
    ensures FindFact(Without(facts, dropped), m) == if m == dropped then None else FindFact(facts, m)
  {
    if facts != [] {
      FindWithout(facts[1..], dropped, m);
      var first := if Control(facts[0].claim) != dropped then [facts[0]] else [];
      FindAppend(first, Without(facts[1..], dropped), m);
      assert [facts[0]][1..] == [];
    }
  }

  lemma {:induction false} FindReplaced(facts: seq<Fact>, cs: seq<Claim>, epoch: Epoch, m: Mediated)
    ensures FindFact(Replaced(facts, cs, epoch), m) ==
            if ClaimOn(cs, m).Some? then Some(Fact(ClaimOn(cs, m).value, epoch)) else FindFact(facts, m)
  {
    if cs != [] {
      var c := cs[|cs| - 1];
      var before := Replaced(facts, cs[..|cs| - 1], epoch);
      FindReplaced(facts, cs[..|cs| - 1], epoch, m);
      FindWithout(before, Control(c), m);
      FindAppend(Without(before, Control(c)), [Fact(c, epoch)], m);
      assert [Fact(c, epoch)][1..] == [];
    }
  }

  // ---------------------------------------------------------------- every run

  predicate Reachable(r: Record) {
    GuestRecord.WellFormed(r) && (r.observed.None? ==> r.facts == [])
  }

  lemma StepKeeps(r: Record, e: Event)
    requires Reachable(r)
    ensures Reachable(Step(r, e))
    ensures e.Restarted? ==> Step(r, e) == r
  {
    match e {
      case Observed(epoch) => GuestRecord.ObservingKeeps(r, epoch);
      case Said(a) => GuestRecord.EstablishingKeeps(r, a);
      case Restarted => GuestRecord.ReloadKeeps(r);
    }
  }

  /** Every reachable ledger can be written down and read back, so a restart changes nothing. */
  lemma {:induction false} RestartKeeps(es: seq<Event>)
    ensures Reachable(After(es))
    ensures GuestRecord.Reloaded(After(es)) == After(es)
  {
    if es != [] {
      RestartKeeps(es[..|es| - 1]);
      StepKeeps(After(es[..|es| - 1]), es[|es| - 1]);
    }
    GuestRecord.ReloadKeeps(After(es));
  }

  /** The boot a guest believes in is the greatest boot any event named. */
  lemma {:induction false} ObservedIsGreatest(es: seq<Event>)
    ensures After(es).observed == GreatestBoot(es)
  {
    if es != [] {
      ObservedIsGreatest(es[..|es| - 1]);
      RestartKeeps(es[..|es| - 1]);
    }
  }

  lemma {:induction false} FactsAreLastWords(es: seq<Event>, m: Mediated)
    ensures FindFact(After(es).facts, m) == LastWord(es, m)
  {
    if es != [] {
      var before, e := es[..|es| - 1], es[|es| - 1];
      FactsAreLastWords(before, m);
      ObservedIsGreatest(before);
      RestartKeeps(before);
      if e.Said? {
        FindReplaced(After(before).facts, e.statement.claims, e.statement.epoch, m);
      }
    }
  }

  /**
   After any run of events a control is attested exactly when the last accepted statement
   about it came from the greatest boot seen, void when it came from an earlier one, and
   unknown when there is none.
   */
  lemma StandingOverRun(es: seq<Event>, m: Mediated)
    ensures StandingOf(After(es), m) == (
              LastWordIsPast(es, m);
              match LastWord(es, m)
              case None => Standing.Unknown
              case Some(f) =>
                if Some(f.epoch) == GreatestBoot(es) then Attested(f.claim, f.epoch)
                else Void(f.claim, f.epoch, GreatestBoot(es).value))
  {
    FactsAreLastWords(es, m);
    ObservedIsGreatest(es);
    LastWordIsPast(es, m);
  }

  lemma {:induction false} LastWordIsPast(es: seq<Event>, m: Mediated)
    ensures LastWord(es, m).Some? ==> GreatestBoot(es).Some? && LastWord(es, m).value.epoch <= GreatestBoot(es).value
  {
    if es != [] {
      LastWordIsPast(es[..|es| - 1], m);
    }
  }

  /** A refused statement changes nothing, and no event ever takes the boot back. */
  lemma RefusedChangesNothing(es: seq<Event>, e: Event)
    ensures e.Said? && !Accepted(es, e.statement) ==> After(es + [e]) == After(es)
    ensures After(es).observed.Some? ==>
              After(es + [e]).observed.Some? && After(es).observed.value <= After(es + [e]).observed.value
  {
    assert (es + [e])[..|es|] == es;
    ObservedIsGreatest(es);
    RestartKeeps(es);
  }
}
