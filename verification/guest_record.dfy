/** The guest's record on disk: printing a ledger and reading it back, `core/src/guest.rs`. */
module GuestRecord {
  import opened Wrappers
  import opened Text
  import opened Guest

  const HEADER := "vayucell guest ledger 1"

  predicate DistinctFacts(facts: seq<Fact>) {
    forall i, j :: 0 <= i < j < |facts| ==> Control(facts[i].claim) != Control(facts[j].claim)
  }

  predicate Holds(facts: seq<Fact>, m: Mediated) {
    exists i :: 0 <= i < |facts| && Control(facts[i].claim) == m
  }

  predicate NoneAhead(r: Record) {
    r.observed.Some? ==> forall i :: 0 <= i < |r.facts| ==> r.facts[i].epoch <= r.observed.value
  }

  /** One fact a control, and none from a boot that was never observed. */
  predicate WellFormed(r: Record) {
    DistinctFacts(r.facts) && NoneAhead(r)
  }

  // ---------------------------------------------------------------- printing

  function ObservedWords(r: Record): seq<string> {
    ["observed", if r.observed.Some? then Dec(r.observed.value) else "unknown"]
  }

  function FactWords(f: Fact): seq<string> {
    ["fact", Dec(f.epoch)] + WireWords(f.claim)
  }

  function FactLine(f: Fact): string {
    "fact " + Dec(f.epoch) + " " + Wire(f.claim)
  }

  function FactLines(facts: seq<Fact>): seq<string> {
    seq(|facts|, i requires 0 <= i < |facts| => FactLine(facts[i]))
  }

  function ObservedLine(r: Record): string {
    "observed " + if r.observed.Some? then Dec(r.observed.value) else "unknown"
  }

  function RenderRecord(r: Record): string {
    Unlines([HEADER, ObservedLine(r)] + FactLines(r.facts))
  }

  /** The record as the source writes it: header, the boot, then each fact on its own line. */
  method Render(r: Record) returns (out: string)
    ensures out == RenderRecord(r)
  {
    out := HEADER + "\n";
    out := out + ObservedLine(r) + "\n";
    HeaderFirst(r);
    for k := 0 to |r.facts|
      invariant out + Unlines(FactLines(r.facts[k..])) == RenderRecord(r)
    {
      FactLinesCons(r.facts[k..]);
      assert r.facts[k..][1..] == r.facts[k + 1..];
      var l := FactLine(r.facts[k]);
      Reassociate(out, l, Unlines(FactLines(r.facts[k + 1..])));
      out := out + l + "\n";
    }
    assert r.facts[|r.facts|..] == [];
  }

  lemma Reassociate(a: string, l: string, rest: string)
    ensures a + (l + "\n" + rest) == a + l + "\n" + rest
  {
  }

  lemma HeaderFirst(r: Record)
    ensures HEADER + "\n" + ObservedLine(r) + "\n" + Unlines(FactLines(r.facts[0..])) == RenderRecord(r)
  {
    assert r.facts[0..] == r.facts;
    var rest := FactLines(r.facts);
    var all := [HEADER, ObservedLine(r)] + rest;
    assert all[1..] == [ObservedLine(r)] + rest;
    assert all[1..][1..] == rest;
    assert Unlines(all[1..]) == ObservedLine(r) + "\n" + Unlines(rest);
    Reassociate(HEADER + "\n", ObservedLine(r), Unlines(rest));
  }

  // ---------------------------------------------------------------- reading

  /** A boot counter: an unsigned number that is not zero. */
  function EpochOf(text: string): Option<Epoch> {
    match ParseUnsigned(text, U64_MAX)
    case Some(n) => if n == 0 then None else Some(n)
    case None => None
  }

  /** The record read so far, and whether it has named the host's boot. */
  datatype Reading = Reading(record: Record, observedSeen: bool)

  function WordAt(words: seq<string>, k: nat): string {
    if k < |words| then words[k] else ""
  }

  function ReadObserved(words: seq<string>, st: Reading): Result<Reading, Fault> {
    if st.observedSeen then Err(Contradictory)
    else
      var value := WordAt(words, 1);
      if value != "unknown" && EpochOf(value).None? then Err(Malformed)
      else if |words| > 2 then Err(Malformed)
      else
        var observed := if value == "unknown" then st.record.observed else EpochOf(value);
        Ok(Reading(st.record.(observed := observed), true))
  }

  function ReadFact(words: seq<string>, st: Reading): Result<Reading, Fault> {
    var epoch := EpochOf(WordAt(words, 1));
    if epoch.None? then Err(Malformed)
    else if |words| < 2 then Err(Malformed)
    else match FromWire(Join(words[2..], " "))
      case None => Err(Malformed)
      case Some(claim) =>
        if Holds(st.record.facts, Control(claim)) then Err(Contradictory)
        else Ok(st.(record := st.record.(facts := st.record.facts + [Fact(claim, epoch.value)])))
  }

  function ReadLine(line: string, st: Reading): Result<Reading, Fault> {
    var words := Words(line);
    if words == [] then Ok(st)
    else if words[0] == "observed" then ReadObserved(words, st)
    else if words[0] == "fact" then ReadFact(words, st)
    else Err(Malformed)
  }

  function ReadLines(lines: seq<string>, st: Reading): Result<Reading, Fault> {
    if lines == [] then Ok(st)
    else match ReadLine(lines[0], st)
      case Err(e) => Err(e)
      case Ok(next) => ReadLines(lines[1..], next)
  }

  const NOTHING_READ := Reading(Record(None, []), false)

  function Checked(st: Reading): Result<Record, Fault> {
    if NoneAhead(st.record) then Ok(st.record) else Err(Malformed)
  }

  function ParseText(text: string): Result<Record, Fault> {
    var lines := Lines(text);
    if Trim(if lines == [] then "" else lines[0]) != HEADER then Err(Malformed)
    else match ReadLines(lines[1..], NOTHING_READ)
      case Err(e) => Err(e)
      case Ok(st) => Checked(st)
  }

  method ParseObservedLine(words: seq<string>, st: Reading) returns (r: Result<Reading, Fault>)
    requires words != []
    ensures r == ReadObserved(words, st)
  {
    if st.observedSeen {
      return Err(Contradictory);
    }
    var next := st.(observedSeen := true);
    var value := WordAt(words, 1);
    if value != "unknown" {
      var epoch := EpochOf(value);
      if epoch.None? {
        return Err(Malformed);
      }
      next := next.(record := next.record.(observed := epoch));
    }
    if |words| > 2 {
      return Err(Malformed);
    }
    return Ok(next);
  }

  method ParseFactLine(words: seq<string>, st: Reading) returns (r: Result<Reading, Fault>)
    requires words != []
    ensures r == ReadFact(words, st)
  {
    var epoch := EpochOf(WordAt(words, 1));
    if epoch.None? {
      return Err(Malformed);
    }
    // The slice is in range: a lone word has no boot counter after it and was refused above.
    assert |words| >= 2;
    var claim := FromWire(Join(words[2..], " "));
    if claim.None? {
      return Err(Malformed);
    }
    for k := 0 to |st.record.facts|
      invariant !Holds(st.record.facts[..k], Control(claim.value))
    {
      if Control(st.record.facts[k].claim) == Control(claim.value) {
        return Err(Contradictory);
      }
    }
    assert st.record.facts[..|st.record.facts|] == st.record.facts;
    return Ok(st.(record := st.record.(facts := st.record.facts + [Fact(claim.value, epoch.value)])));
  }

  method ParseLine(text: string, st: Reading) returns (r: Result<Reading, Fault>)
    ensures r == ReadLine(text, st)
  {
    var line := Trim(text);
    WordsTrim(text);
    NoWords(text);
    if line == "" {
      return Ok(st);
    }
    var words := Words(line);
    match words[0] {
      case "observed" => r := ParseObservedLine(words, st);
      case "fact" => r := ParseFactLine(words, st);
      case _ => r := Err(Malformed);
    }
  }

  /** A fact from a boot the guest never observed is not a record worth believing. */
  method CheckBoots(st: Reading) returns (r: Result<Record, Fault>)
    ensures r == Checked(st)
  {
    if st.record.observed.Some? {
      for k := 0 to |st.record.facts|
        invariant forall i :: 0 <= i < k ==> st.record.facts[i].epoch <= st.record.observed.value
      {
        if st.record.facts[k].epoch > st.record.observed.value {
          return Err(Malformed);
        }
      }
    }
    return Ok(st.record);
  }

  method Parse(text: string) returns (r: Result<Record, Fault>)
    ensures r == ParseText(text)
  {
    var lines := Lines(text);
    var header := if lines == [] then "" else lines[0];
    if Trim(header) != HEADER {
      return Err(Malformed);
    }
    TrimOfTrimmed("");
    var st := NOTHING_READ;
    for k := 1 to |lines|
      invariant ReadLines(lines[1..], NOTHING_READ) == ReadLines(lines[k..], st)
    {
      assert lines[k..][1..] == lines[k + 1..];
      var read := ParseLine(lines[k], st);
      if read.Err? {
        return Err(read.error);
      }
      st := read.value;
    }
    assert lines[|lines|..] == [];
    r := CheckBoots(st);
  }

  // ---------------------------------------------------------------- the round trip

  lemma EpochReads(e: Epoch)
    ensures EpochOf(Dec(e)) == Some(e)
  {
    ParseDec(e, U64_MAX);
  }

  /** Rust's parser takes a sign and leading zeros, so a boot has more spellings than the one that is written. */
  lemma SpellingsOfABoot()
    ensures EpochOf("8") == EpochOf("+8") == EpochOf("008") == Some(8)
    ensures EpochOf("0") == EpochOf("+") == EpochOf("-8") == None
  {
    assert DecVal("") == 0;
    assert "8"[..0] == "" && "+8"[1..] == "8" && "008"[..2] == "00" && "00"[..1] == "0" && "0"[..0] == "";
    assert DecVal("8") == 8 && DecVal("0") == 0;
    assert DecVal("00") == 0;
    assert "+"[1..] == "";
    assert !IsDigit("-8"[0]);
  }

  lemma FactLineIsWords(f: Fact)
    ensures FactLine(f) == Join(FactWords(f), " ") && AllWords(FactWords(f))
  {
    WireWordsAreWords(f.claim);
    WireIsWords(f.claim);
    DecIsWord(f.epoch);
    var ws := FactWords(f);
    assert ws[1..] == [Dec(f.epoch)] + WireWords(f.claim);
    assert ws[1..][1..] == WireWords(f.claim);
    assert Join(ws[1..], " ") == Dec(f.epoch) + " " + Wire(f.claim);
    assert "fact" + " " + (Dec(f.epoch) + " " + Wire(f.claim)) == FactLine(f);
  }

  lemma ObservedLineIsWords(r: Record)
    ensures ObservedLine(r) == Join(ObservedWords(r), " ") && AllWords(ObservedWords(r))
  {
    var value := if r.observed.Some? then Dec(r.observed.value) else "unknown";
    JoinTwo("observed", value);
    assert "observed" + " " + value == ObservedLine(r);
  }

  /** A printed fact reads back as that fact, unless its control is taken. */
  lemma FactReads(f: Fact, st: Reading)
    requires !Holds(st.record.facts, Control(f.claim))
    ensures ReadLine(FactLine(f), st) == Ok(st.(record := st.record.(facts := st.record.facts + [f])))
  {
    FactLineIsWords(f);
    WordsJoin(FactWords(f));
    EpochReads(f.epoch);
    assert FactWords(f)[2..] == WireWords(f.claim);
    WireIsWords(f.claim);
    WireReads(f.claim);
  }

  lemma ObservedReads(r: Record)
    ensures ReadLine(ObservedLine(r), NOTHING_READ) == Ok(Reading(Record(r.observed, []), true))
  {
    ObservedLineIsWords(r);
    WordsJoin(ObservedWords(r));
    if r.observed.Some? {
      EpochReads(r.observed.value);
      assert IsDigit(Dec(r.observed.value)[0]);
    }
  }

  lemma NotYetHeld(held: seq<Fact>, facts: seq<Fact>)
    requires facts != [] && DistinctFacts(held + facts)
    ensures !Holds(held, Control(facts[0].claim))
  {
    assert (held + facts)[|held|] == facts[0];
    assert forall i :: 0 <= i < |held| ==> (held + facts)[i] == held[i];
  }

  lemma FactLinesCons(facts: seq<Fact>)
    requires facts != []
    ensures FactLines(facts) == [FactLine(facts[0])] + FactLines(facts[1..])
  {
  }

  lemma {:induction false} FactsRead(facts: seq<Fact>, st: Reading)
    requires DistinctFacts(st.record.facts + facts)
    ensures ReadLines(FactLines(facts), st) == Ok(st.(record := st.record.(facts := st.record.facts + facts)))
  {
    var held := st.record.facts;
    if facts == [] {
      assert held + facts == held;
    } else {
      NotYetHeld(held, facts);
      FactReads(facts[0], st);
      var next := st.(record := st.record.(facts := held + [facts[0]]));
      assert held + [facts[0]] + facts[1..] == held + facts;
      FactsRead(facts[1..], next);
      FactLinesCons(facts);
    }
  }

  lemma RecordLines(r: Record)
    ensures Lines(RenderRecord(r)) == [HEADER, ObservedLine(r)] + FactLines(r.facts)
  {
    var ls := [HEADER, ObservedLine(r)] + FactLines(r.facts);
    ObservedLineText(r);
    forall i | 0 <= i < |r.facts|
      ensures LineText(FactLines(r.facts)[i])
    {
      FactLineText(r.facts[i]);
    }
    TextsAfter(HEADER, ObservedLine(r), FactLines(r.facts));
    LinesUnlines(ls);
  }

  lemma ObservedLineText(r: Record)
    ensures LineText(ObservedLine(r))
  {
    ObservedLineIsWords(r);
    JoinIsLine(ObservedWords(r));
  }

  lemma FactLineText(f: Fact)
    ensures LineText(FactLine(f))
  {
    FactLineIsWords(f);
    JoinIsLine(FactWords(f));
  }

  lemma TextsAfter(a: string, b: string, rest: seq<string>)
    requires LineText(a) && LineText(b) && forall i :: 0 <= i < |rest| ==> LineText(rest[i])
    ensures var ls := [a, b] + rest; forall i :: 0 <= i < |ls| ==> LineText(ls[i])
  {
  }

  lemma BodyReads(r: Record)
    requires WellFormed(r)
    ensures ReadLines([ObservedLine(r)] + FactLines(r.facts), NOTHING_READ) == Ok(Reading(r, true))
  {
    var ls := [ObservedLine(r)] + FactLines(r.facts);
    assert ls[1..] == FactLines(r.facts);
    ObservedReads(r);
    assert [] + r.facts == r.facts;
    FactsRead(r.facts, Reading(Record(r.observed, []), true));
  }

  lemma WellFormedReads(r: Record)
    requires WellFormed(r)
    ensures ParseText(RenderRecord(r)) == Ok(r)
  {
    RecordLines(r);
    TrimOfTrimmed(HEADER);
    BodyReads(r);
    assert Lines(RenderRecord(r))[1..] == [ObservedLine(r)] + FactLines(r.facts);
  }

  lemma LineKeepsDistinct(line: string, st: Reading)
    requires DistinctFacts(st.record.facts)
    ensures ReadLine(line, st).Ok? ==> DistinctFacts(ReadLine(line, st).value.record.facts)
  {
  }

  lemma {:induction false} LinesKeepDistinct(lines: seq<string>, st: Reading)
    requires DistinctFacts(st.record.facts)
    ensures ReadLines(lines, st).Ok? ==> DistinctFacts(ReadLines(lines, st).value.record.facts)
  {
    if lines != [] {
      LineKeepsDistinct(lines[0], st);
      if ReadLine(lines[0], st).Ok? {
        LinesKeepDistinct(lines[1..], ReadLine(lines[0], st).value);
      }
    }
  }

  /** Whatever text is accepted, the record it gives is well formed. */
  lemma AcceptedIsWellFormed(text: string)
    ensures ParseText(text).Ok? ==> WellFormed(ParseText(text).value)
  {
    LinesKeepDistinct(Lines(text)[if Lines(text) == [] then 0 else 1..], NOTHING_READ);
  }

  /**
   A ledger survives being written and read back exactly when it holds one fact a control and
   none newer than its boot, which every accepted text and every reachable ledger does.
   */
  lemma RoundTrip(r: Record)
    ensures ParseText(RenderRecord(r)) == Ok(r) <==> WellFormed(r)
  {
    if WellFormed(r) {
      WellFormedReads(r);
    }
    AcceptedIsWellFormed(RenderRecord(r));
  }

  /** What a guest holds after its record was written down and read back. */
  function Reloaded(r: Record): Record {
    var back := ParseText(RenderRecord(r));
    if back.Ok? then back.value else Record(None, [])
  }

  lemma ReloadKeeps(r: Record)
    requires WellFormed(r)
    ensures Reloaded(r) == r
  {
    RoundTrip(r);
  }

  // ---------------------------------------------------------------- what the operations keep

  lemma {:induction false} WithoutIs(facts: seq<Fact>, m: Mediated)
    requires DistinctFacts(facts)
    ensures DistinctFacts(Without(facts, m)) && !Holds(Without(facts, m), m)
    ensures forall f :: f in Without(facts, m) ==> f in facts
  {
    if facts != [] {
      var rest := Without(facts[1..], m);
      WithoutIs(facts[1..], m);
      forall i | 0 <= i < |rest|
        ensures Control(rest[i].claim) != Control(facts[0].claim)
      {
        assert rest[i] in facts[1..];
        var j :| 0 <= j < |facts[1..]| && facts[1..][j] == rest[i];
        assert facts[j + 1] == rest[i];
      }
    }
  }

  lemma {:induction false} WithoutHolds(facts: seq<Fact>, m: Mediated, f: Fact)
    ensures f in Without(facts, m) <==> f in facts && Control(f.claim) != m
  {
    if facts != [] {
      WithoutHolds(facts[1..], m, f);
      assert facts == [facts[0]] + facts[1..];
    }
  }

  /** What a statement leaves: its own facts, and those it does not mention. */
  lemma {:induction false} ReplacedHolds(facts: seq<Fact>, cs: seq<Claim>, epoch: Epoch, f: Fact)
    ensures f in Replaced(facts, cs, epoch) ==> f.epoch == epoch || (f in facts && !Mentions(cs, Control(f.claim)))
    ensures f in facts && !Mentions(cs, Control(f.claim)) ==> f in Replaced(facts, cs, epoch)
  {
    if cs != [] {
      var n := |cs| - 1;
      ReplacedHolds(facts, cs[..n], epoch, f);
      WithoutHolds(Replaced(facts, cs[..n], epoch), Control(cs[n]), f);
      assert cs == cs[..n] + [cs[n]];
      assert Mentions(cs, Control(f.claim)) <==> Mentions(cs[..n], Control(f.claim)) || Control(cs[n]) == Control(f.claim) by {
        MentionsMore(cs[..n], cs[n], Control(f.claim));
      }
    }
  }

  lemma MentionsMore(cs: seq<Claim>, c: Claim, m: Mediated)
    ensures Mentions(cs + [c], m) <==> Mentions(cs, m) || Control(c) == m
  {
    var all := cs + [c];
    assert all[|cs|] == c;
    assert forall i :: 0 <= i < |cs| ==> all[i] == cs[i];
  }

  lemma {:induction false} ReplacedIs(facts: seq<Fact>, cs: seq<Claim>, epoch: Epoch)
    requires DistinctFacts(facts)
    ensures DistinctFacts(Replaced(facts, cs, epoch))
    ensures forall f :: f in Replaced(facts, cs, epoch) ==> f in facts || f.epoch == epoch
  {
    if cs != [] {
      ReplacedIs(facts, cs[..|cs| - 1], epoch);
      WithoutIs(Replaced(facts, cs[..|cs| - 1], epoch), Control(cs[|cs| - 1]));
    }
  }

  /** Observing a boot keeps a record readable exactly when no fact is from a later boot than the one believed then. */
  lemma ObservingKeeps(r: Record, epoch: Epoch)
    requires WellFormed(r)
    ensures WellFormed(AfterObserving(r, epoch)) <==>
            r.observed.Some? || forall i :: 0 <= i < |r.facts| ==> r.facts[i].epoch <= epoch
  {
  }

  /**
   A statement keeps a record readable exactly when it is refused, or no fact that it leaves
   standing is from a later boot than its own.
   */
  lemma EstablishingKeeps(r: Record, a: Attestation)
    requires WellFormed(r)
    ensures WellFormed(AfterEstablishing(r, a)) <==>
            IsReplay(r, a.epoch)
            || forall f :: f in r.facts && !Mentions(a.claims, Control(f.claim)) ==> f.epoch <= a.epoch
    ensures r.observed.Some? ==> WellFormed(AfterEstablishing(r, a))
  {
    if !IsReplay(r, a.epoch) {
      ReplacedIs(r.facts, a.claims, a.epoch);
      var after := Replaced(r.facts, a.claims, a.epoch);
      forall f | f in after
        ensures f.epoch == a.epoch || (f in r.facts && !Mentions(a.claims, Control(f.claim)))
      {
        ReplacedHolds(r.facts, a.claims, a.epoch, f);
      }
      forall f | f in r.facts && !Mentions(a.claims, Control(f.claim))
        ensures f in after
      {
        ReplacedHolds(r.facts, a.claims, a.epoch, f);
      }
      NoneAheadIn(after, a.epoch);
    }
  }

  lemma NoneAheadIn(facts: seq<Fact>, epoch: Epoch)
    ensures NoneAhead(Record(Some(epoch), facts)) <==> forall f :: f in facts ==> f.epoch <= epoch
  {
    if NoneAhead(Record(Some(epoch), facts)) {
      forall f | f in facts
        ensures f.epoch <= epoch
      {
        var i :| 0 <= i < |facts| && facts[i] == f;
      }
    }
  }

  /**
   The parser accepts facts beside an unknown boot. Once a boot is observed such a record can
   still be read back exactly when no fact is from a later boot than that one.
   */
  lemma UnknownBootMayBreak(r: Record, epoch: Epoch)
    requires WellFormed(r) && r.observed.None?
    ensures ParseText(RenderRecord(r)) == Ok(r)
    ensures ParseText(RenderRecord(AfterObserving(r, epoch))) == Ok(AfterObserving(r, epoch)) <==>
            forall i :: 0 <= i < |r.facts| ==> r.facts[i].epoch <= epoch
  {
    RoundTrip(r);
    ObservingKeeps(r, epoch);
    RoundTrip(AfterObserving(r, epoch));
  }

  lemma UnknownBootBreaks()
    ensures var r := Record(None, [Fact(DozeExempt, 9)]); WellFormed(r) && !WellFormed(AfterObserving(r, 3))
  {
    var r := Record(None, [Fact(DozeExempt, 9)]);
    assert AfterObserving(r, 3).facts[0].epoch == 9;
  }
}
