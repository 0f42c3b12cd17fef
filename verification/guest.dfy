/**
 What a guest under the Android hypervisor may claim about its host: `core/src/guest.rs`.
 Every fact carries the boot of the host it was learned in, and a reboot voids it.
 */
module Guest {
  import opened Wrappers
  import opened Text
  import opened Battery

  /** A boot of the host, counted by the host; zero is not one. */
  type Epoch = n: int | 1 <= n <= 0xFFFF_FFFF_FFFF_FFFF witness 1

  datatype Mediated = Ceiling | Doze | Reachability

  datatype Claim = Holding(percent: Percent) | HoldingNothing | DozeExempt | DozeApplies | Published | Withheld

  function Control(c: Claim): Mediated {
    match c
    case Holding(_) => Ceiling
    case HoldingNothing => Ceiling
    case DozeExempt => Doze
    case DozeApplies => Doze
    case Published => Reachability
    case Withheld => Reachability
  }

  datatype Fault = Malformed | Contradictory | Replayed

  // ---------------------------------------------------------------- the wire form of a claim

  function WireWords(c: Claim): seq<string> {
    match c
    case Holding(p) => ["holding", Dec(p)]
    case HoldingNothing => ["holding", "nothing"]
    case DozeExempt => ["doze-exempt"]
    case DozeApplies => ["doze-applies"]
    case Published => ["ingress-published"]
    case Withheld => ["ingress-withheld"]
  }

  function Wire(c: Claim): string {
    match c
    case Holding(p) => "holding " + Dec(p)
    case HoldingNothing => "holding nothing"
    case DozeExempt => "doze-exempt"
    case DozeApplies => "doze-applies"
    case Published => "ingress-published"
    case Withheld => "ingress-withheld"
  }

  /** A percentage: an eight-bit number, then at most one hundred. */
  function PercentOf(text: string): Option<Percent> {
    match ParseUnsigned(text, 255)
    case Some(n) => if n > 100 then None else Some(n)
    case None => None
  }

  function FromWire(text: string): Option<Claim> {
    if text == "holding nothing" then Some(HoldingNothing)
    else if text == "doze-exempt" then Some(DozeExempt)
    else if text == "doze-applies" then Some(DozeApplies)
    else if text == "ingress-published" then Some(Published)
    else if text == "ingress-withheld" then Some(Withheld)
    else if "holding " <= text then
      match PercentOf(text[|"holding "|..])
      case Some(p) => Some(Holding(p))
      case None => None
    else None
  }

  lemma NotAWord(text: string)
    requires |text| > 8 && text[0] == 'h' && text[8] != 'n'
    ensures text != "holding nothing" && text != "doze-exempt" && text != "doze-applies"
    ensures text != "ingress-published" && text != "ingress-withheld"
  {
    assert "holding nothing"[8] == 'n';
    assert "doze-exempt"[0] == 'd' && "doze-applies"[0] == 'd';
    assert "ingress-published"[0] == 'i' && "ingress-withheld"[0] == 'i';
  }

  lemma NumberIsNoWord(digits: string)
    requires ParseUnsigned(digits, 255).Some?
    ensures digits != "" && digits[0] != 'n'
  {
    assert digits[0] != '+' ==> IsDigit(digits[0]);
  }

  lemma SpelledReads(text: string, digits: string)
    requires text == "holding " + digits && ParseUnsigned(digits, 255).Some?
    ensures FromWire(text) == match PercentOf(digits)
                              case Some(p) => Some(Holding(p))
                              case None => None
  {
    NumberIsNoWord(digits);
    assert text[0] == 'h' && text[8] == digits[0];
    NotAWord(text);
    assert text[8..] == digits;
  }

  lemma HoldingReads(text: string, p: Percent)
    requires text == "holding " + Dec(p)
    ensures FromWire(text) == Some(Holding(p))
  {
    ParseDec(p, 255);
    SpelledReads(text, Dec(p));
  }

  lemma WireReads(c: Claim)
    ensures FromWire(Wire(c)) == Some(c)
  {
    if c.Holding? {
      HoldingReads(Wire(c), c.percent);
    }
  }

  /**
   The texts that are a claim: its wire form, and for a ceiling any spelling of the number that
   Rust's parser takes, a leading `+` and leading zeros included.
   */
  lemma FromWireExactly(text: string, c: Claim)
    ensures FromWire(text) == Some(c) <==>
            text == Wire(c)
            || (c.Holding? && exists digits :: text == "holding " + digits && ParseUnsigned(digits, 255) == Some(c.percent))
  {
    WireReads(c);
    if c.Holding? {
      forall digits | text == "holding " + digits && ParseUnsigned(digits, 255) == Some(c.percent)
        ensures FromWire(text) == Some(c)
      {
        SpelledReads(text, digits);
      }
      if FromWire(text) == Some(c) {
        HoldingIsSpelled(text, c.percent);
      }
    }
  }

  lemma HoldingIsSpelled(text: string, p: Percent)
    requires FromWire(text) == Some(Holding(p))
    ensures exists digits :: text == "holding " + digits && ParseUnsigned(digits, 255) == Some(p)
  {
    assert "holding " <= text;
    assert text == "holding " + text[8..];
    assert ParseUnsigned(text[8..], 255) == Some(p);
  }

  lemma JoinTwo(a: string, b: string)
    ensures Join([a, b], " ") == a + " " + b
  {
    assert [a, b][1..] == [b];
  }

  lemma WireWordsAreWords(c: Claim)
    ensures AllWords(WireWords(c)) && WireWords(c) != []
  {
  }

  lemma WireIsWords(c: Claim)
    ensures Join(WireWords(c), " ") == Wire(c)
  {
    if c.Holding? {
      JoinTwo("holding", Dec(c.percent));
      assert "holding" + " " == "holding ";
    } else if c.HoldingNothing? {
      JoinTwo("holding", "nothing");
      assert "holding" + " " + "nothing" == "holding nothing";
    }
  }

  // ---------------------------------------------------------------- statements of the host

  predicate DistinctControls(cs: seq<Claim>) {
    forall i, j :: 0 <= i < j < |cs| ==> Control(cs[i]) != Control(cs[j])
  }

  predicate Mentions(cs: seq<Claim>, m: Mediated) {
    exists i :: 0 <= i < |cs| && Control(cs[i]) == m
  }

  /** What the host said in one statement; no two of its claims are about one control. */
  datatype AttestationRaw = Attestation(epoch: Epoch, claims: seq<Claim>)

  type Attestation = a: AttestationRaw | DistinctControls(a.claims) witness AttestationRaw.Attestation(1, [])

  /** Adds a claim, refusing a second one about the same control. */
  method PushClaim(claims: seq<Claim>, claim: Claim) returns (r: Result<seq<Claim>, Fault>)
    ensures r == if Mentions(claims, Control(claim)) then Err(Contradictory) else Ok(claims + [claim])
  {
    for k := 0 to |claims|
      invariant !Mentions(claims[..k], Control(claim))
    {
      if Control(claims[k]) == Control(claim) {
        return Err(Contradictory);
      }
    }
    assert claims[..|claims|] == claims;
    return Ok(claims + [claim]);
  }

  lemma PushKeepsDistinct(cs: seq<Claim>, c: Claim)
    requires DistinctControls(cs)
    ensures DistinctControls(cs + [c]) <==> !Mentions(cs, Control(c))
  {
    if Mentions(cs, Control(c)) {
      var i :| 0 <= i < |cs| && Control(cs[i]) == Control(c);
      assert Control((cs + [c])[i]) == Control((cs + [c])[|cs|]);
    }
  }

  method NewAttestation(epoch: Epoch, claims: seq<Claim>) returns (r: Result<Attestation, Fault>)
    ensures r.Ok? <==> DistinctControls(claims)
    ensures r == if DistinctControls(claims) then Ok(AttestationRaw.Attestation(epoch, claims)) else Err(Contradictory)
  {
    var held: seq<Claim> := [];
    for k := 0 to |claims|
      invariant held == claims[..k] && DistinctControls(held)
    {
      PushKeepsDistinct(held, claims[k]);
      assert claims[..k + 1] == held + [claims[k]];
      var pushed := PushClaim(held, claims[k]);
      if pushed.Err? {
        DistinctPrefix(claims, k + 1);
        return Err(pushed.error);
      }
      held := pushed.value;
    }
    assert held == claims;
    return Ok(AttestationRaw.Attestation(epoch, held));
  }

  lemma DistinctPrefix(cs: seq<Claim>, k: nat)
    requires k <= |cs|
    ensures DistinctControls(cs) ==> DistinctControls(cs[..k])
  {
  }

  // ---------------------------------------------------------------- the ledger

  datatype Fact = Fact(claim: Claim, epoch: Epoch)

  datatype Record = Record(observed: Option<Epoch>, facts: seq<Fact>)

  datatype Observation = FirstSight | SameBoot | Rebooted | ReplayedBoot

  datatype Standing =
    | Attested(claim: Claim, epoch: Epoch)
    | Void(claim: Claim, establishedIn: Epoch, hostNow: Epoch)
    | Unknown

  function Without(facts: seq<Fact>, m: Mediated): seq<Fact> {
    if facts == [] then []
    else (if Control(facts[0].claim) != m then [facts[0]] else []) + Without(facts[1..], m)
  }

  lemma WithoutStep(facts: seq<Fact>, m: Mediated, kept: seq<Fact>)
    requires facts != []
    ensures kept + Without(facts, m) ==
            (if Control(facts[0].claim) != m then kept + [facts[0]] else kept) + Without(facts[1..], m)
  {
    var rest := Without(facts[1..], m);
    assert kept + ([facts[0]] + rest) == kept + [facts[0]] + rest;
    assert [] + rest == rest;
  }

  /** The facts after these claims of one statement, each replacing what was held about its control. */
  function Replaced(facts: seq<Fact>, claims: seq<Claim>, epoch: Epoch): seq<Fact> {
    if claims == [] then facts
    else
      var c := claims[|claims| - 1];
      Without(Replaced(facts, claims[..|claims| - 1], epoch), Control(c)) + [Fact(c, epoch)]
  }

  predicate IsReplay(r: Record, epoch: Epoch) {
    r.observed.Some? && epoch < r.observed.value
  }

  function AfterObserving(r: Record, epoch: Epoch): Record {
    if IsReplay(r, epoch) then r else r.(observed := Some(epoch))
  }

  function AfterEstablishing(r: Record, a: Attestation): Record {
    if IsReplay(r, a.epoch) then r else Record(Some(a.epoch), Replaced(r.facts, a.claims, a.epoch))
  }

  function FindFact(facts: seq<Fact>, m: Mediated): Option<Fact> {
    if facts == [] then None
    else if Control(facts[0].claim) == m then Some(facts[0])
    else FindFact(facts[1..], m)
  }

  function StandingOf(r: Record, m: Mediated): Standing {
    match FindFact(r.facts, m)
    case None => Standing.Unknown
    case Some(f) =>
      if r.observed.Some? && f.epoch < r.observed.value then Void(f.claim, f.epoch, r.observed.value)
      else Attested(f.claim, f.epoch)
  }

  class Ledger {
    var observed: Option<Epoch>
    var facts: seq<Fact>

    ghost function Held(): Record
      reads this
    {
      Record(observed, facts)
    }

    constructor ()
      ensures Held() == Record(None, [])
    {
      observed, facts := None, [];
    }

    method Observe(epoch: Epoch) returns (o: Observation)
      modifies this
      ensures Held() == AfterObserving(old(Held()), epoch)
      ensures o.ReplayedBoot? <==> IsReplay(old(Held()), epoch)
      ensures o.FirstSight? <==> old(observed).None?
      ensures o.SameBoot? <==> old(observed) == Some(epoch)
    {
      match observed {
        case None =>
          observed := Some(epoch);
          return FirstSight;
        case Some(known) =>
          if epoch < known {
            return ReplayedBoot;
          }
          if epoch == known {
            return SameBoot;
          }
          observed := Some(epoch);
          return Rebooted;
      }
    }

    method Retain(m: Mediated)
      modifies this
      ensures Held() == old(Held()).(facts := Without(old(facts), m))
    {
      var kept: seq<Fact> := [];
      for k := 0 to |facts|
        invariant Held() == old(Held())
        invariant kept + Without(facts[k..], m) == Without(facts, m)
      {
        WithoutStep(facts[k..], m, kept);
        assert facts[k..][1..] == facts[k + 1..];
        if Control(facts[k].claim) != m {
          kept := kept + [facts[k]];
        }
      }
      assert facts[|facts|..] == [];
      facts := kept;
    }

    /** Records what the host has just said; a statement from an earlier boot is refused. */
    method Establish(a: Attestation) returns (r: Result<(), Fault>)
      modifies this
      ensures Held() == AfterEstablishing(old(Held()), a)
      ensures r == if IsReplay(old(Held()), a.epoch) then Err(Fault.Replayed) else Ok(())
    {
      if observed.Some? && a.epoch < observed.value {
        return Err(Fault.Replayed);
      }
      if observed != Some(a.epoch) {
        observed := Some(a.epoch);
      }
      for k := 0 to |a.claims|
        invariant observed == Some(a.epoch)
        invariant facts == Replaced(old(facts), a.claims[..k], a.epoch)
      {
        assert a.claims[..k + 1][..k] == a.claims[..k];
        Retain(Control(a.claims[k]));
        facts := facts + [Fact(a.claims[k], a.epoch)];
      }
      assert a.claims[..|a.claims|] == a.claims;
      return Ok(());
    }

    method Stands(m: Mediated) returns (s: Standing)
      ensures s == StandingOf(Held(), m)
    {
      for k := 0 to |facts|
        invariant FindFact(facts[k..], m) == FindFact(facts, m)
      {
        assert facts[k..][1..] == facts[k + 1..];
        var f := facts[k];
        if Control(f.claim) == m {
          if observed.Some? && f.epoch < observed.value {
            return Void(f.claim, f.epoch, observed.value);
          }
          return Attested(f.claim, f.epoch);
        }
      }
      assert facts[|facts|..] == [];
      return Standing.Unknown;
    }
  }
}
