/**
 The guest's record as a text format, told by the words of its lines and without reference to the
 reader, and the proof that the reader of `GuestRecord` takes exactly these texts for what they say.
 */
module GuestRecordGrammar {
  import opened Wrappers
  import opened Text
  import Battery
  import opened Guest
  import opened GuestRecord

  /** What one line says. */
  datatype Saying = Nothing | NamesBoot(boot: Option<Epoch>) | GivesFact(fact: Fact)

  /** The word is a spelling of this boot: an optional plus sign, any zeros, and its digits. */
  predicate SpellsBoot(word: string, n: Epoch) {
    ParseUnsigned(word, 0xFFFF_FFFF_FFFF_FFFF) == Some(n)
  }

  predicate SpellsClaim(ws: seq<string>, c: Claim) {
    match c
    case Holding(p) => |ws| == 2 && ws[0] == "holding" && ParseUnsigned(ws[1], 255) == Some(p)
    case HoldingNothing => ws == ["holding", "nothing"]
    case DozeExempt => ws == ["doze-exempt"]
    case DozeApplies => ws == ["doze-applies"]
    case Published => ws == ["ingress-published"]
    case Withheld => ws == ["ingress-withheld"]
  }

  predicate Says(ws: seq<string>, s: Saying) {
    match s
    case Nothing => ws == []
    case NamesBoot(boot) =>
      && |ws| == 2 && ws[0] == "observed"
      && if boot.Some? then SpellsBoot(ws[1], boot.value) else ws[1] == "unknown"
    case GivesFact(f) => |ws| >= 2 && ws[0] == "fact" && SpellsBoot(ws[1], f.epoch) && SpellsClaim(ws[2..], f.claim)
  }

  predicate AllSay(lines: seq<string>, ss: seq<Saying>) {
    |lines| == |ss| && forall i :: 0 <= i < |ss| ==> Says(Words(lines[i]), ss[i])
  }

  function Boots(ss: seq<Saying>): seq<Option<Epoch>> {
    if ss == [] then [] else (if ss[0].NamesBoot? then [ss[0].boot] else []) + Boots(ss[1..])
  }

  function Facts(ss: seq<Saying>): seq<Fact> {
    if ss == [] then [] else (if ss[0].GivesFact? then [ss[0].fact] else []) + Facts(ss[1..])
  }

  /** The lines name a boot at most once and no control twice, no fact is ahead of the boot, and this is what they say. */
  predicate Tells(ss: seq<Saying>, r: Record) {
    && |Boots(ss)| <= 1 && r.observed == (if Boots(ss) == [] then None else Boots(ss)[0])
    && r.facts == Facts(ss) && DistinctFacts(r.facts)
    && forall i :: 0 <= i < |r.facts| && r.observed.Some? ==> r.facts[i].epoch <= r.observed.value
  }

  predicate IsRecordText(text: string, r: Record, ss: seq<Saying>) {
    var lines := Lines(text);
    lines != [] && Trim(lines[0]) == "vayucell guest ledger 1" && AllSay(lines[1..], ss) && Tells(ss, r)
  }

  // ---------------------------------------------------------------- one line

  /** What a saying does to what was read so far. */
  function Take(s: Saying, st: Reading): Result<Reading, Fault> {
    match s
    case Nothing => Ok(st)
    case NamesBoot(boot) => if st.observedSeen then Err(Contradictory) else Ok(Reading(Record(boot, st.record.facts), true))
    case GivesFact(f) =>
      if Holds(st.record.facts, Control(f.claim)) then Err(Contradictory)
      else Ok(st.(record := st.record.(facts := st.record.facts + [f])))
  }

  /** A boot that was not named yet is not known. */
  predicate Fresh(st: Reading) {
    !st.observedSeen ==> st.record.observed.None?
  }

  lemma ClaimReads(ws: seq<string>, c: Claim)
    requires SpellsClaim(ws, c)
    ensures FromWire(Join(ws, " ")) == Some(c)
  {
    if c.Holding? {
      assert ws == [ws[0], ws[1]];
      JoinTwo(ws[0], ws[1]);
      assert "holding" + " " + ws[1] == "holding " + ws[1];
      FromWireExactly(Join(ws, " "), c);
    } else {
      assert ws == WireWords(c);
      WireIsWords(c);
      WireReads(c);
    }
  }

  lemma DigitsAreWord(digits: string, max: nat)
    requires ParseUnsigned(digits, max).Some?
    ensures IsWord(digits)
  {
    var d := if digits[0] == '+' then digits[1..] else digits;
    forall i | 0 <= i < |digits|
      ensures !IsSpace(digits[i])
    {
      assert i > 0 && |d| < |digits| ==> digits[i] == d[i - 1];
    }
  }

  /** Words are known by their text. */
  lemma SameWords(ws: seq<string>, vs: seq<string>)
    requires AllWords(ws) && AllWords(vs) && Join(ws, " ") == Join(vs, " ")
    ensures ws == vs
  {
    WordsJoin(ws);
    WordsJoin(vs);
  }

  lemma HoldingSound(ws: seq<string>, digits: string, p: Battery.Percent)
    requires AllWords(ws) && Join(ws, " ") == "holding " + digits && ParseUnsigned(digits, 255) == Some(p)
    ensures SpellsClaim(ws, Holding(p))
  {
    DigitsAreWord(digits, 255);
    JoinTwo("holding", digits);
    assert "holding" + " " + digits == "holding " + digits;
    SameWords(ws, ["holding", digits]);
  }

  lemma WireSound(ws: seq<string>, c: Claim)
    requires AllWords(ws) && Join(ws, " ") == Wire(c)
    ensures ws == WireWords(c)
  {
    WireIsWords(c);
    WireWordsAreWords(c);
    SameWords(ws, WireWords(c));
  }

  lemma ClaimSound(ws: seq<string>, c: Claim)
    requires AllWords(ws) && FromWire(Join(ws, " ")) == Some(c)
    ensures SpellsClaim(ws, c)
  {
    if c.Holding? {
      HoldingIsSpelled(Join(ws, " "), c.percent);
      var digits :| Join(ws, " ") == "holding " + digits && ParseUnsigned(digits, 255) == Some(c.percent);
      HoldingSound(ws, digits, c.percent);
    } else {
      FromWireExactly(Join(ws, " "), c);
      WireSound(ws, c);
    }
  }

  /** A line is read as what its words say. */
  lemma LineReads(line: string, s: Saying, st: Reading)
    requires Says(Words(line), s) && Fresh(st)
    ensures ReadLine(line, st) == Take(s, st)
  {
    var ws := Words(line);
    match s {
      case Nothing =>
      case NamesBoot(boot) =>
        if boot.Some? {
          assert !IsDigit("unknown"[0]);
        }
      case GivesFact(f) => ClaimReads(ws[2..], f.claim);
    }
  }

  lemma LineSound(line: string, st: Reading) returns (s: Saying)
    requires ReadLine(line, st).Ok?
    ensures Says(Words(line), s)
  {
    var ws := Words(line);
    if ws == [] {
      s := Nothing;
    } else if ws[0] == "observed" {
      s := NamesBoot(if ws[1] == "unknown" then None else EpochOf(ws[1]));
    } else {
      var claim := FromWire(Join(ws[2..], " ")).value;
      ClaimSound(ws[2..], claim);
      s := GivesFact(Fact(claim, EpochOf(ws[1]).value));
    }
  }

  /** A line repeats something when it says a boot once more, even badly, or gives a second fact about a control. */
  ghost predicate Repeats(ws: seq<string>, st: Reading) {
    || (ws != [] && ws[0] == "observed" && st.observedSeen)
    || exists f: Fact :: Says(ws, GivesFact(f)) && Holds(st.record.facts, Control(f.claim))
  }

  /** Why a line is refused: contradictory when it repeats something, malformed when its words say nothing. */
  lemma LineFaults(line: string, st: Reading)
    requires Fresh(st)
    ensures ReadLine(line, st) == Err(Contradictory) <==> Repeats(Words(line), st)
    ensures ReadLine(line, st) == Err(Malformed) <==>
            !Repeats(Words(line), st) && forall s: Saying :: !Says(Words(line), s)
  {
    var ws := Words(line);
    forall s: Saying | Says(ws, s)
      ensures ReadLine(line, st) == Take(s, st)
    {
      LineReads(line, s, st);
    }
    if ReadLine(line, st).Ok? {
      var s := LineSound(line, st);
    }
    if ReadLine(line, st) == Err(Contradictory) && ws[0] == "fact" {
      var claim := FromWire(Join(ws[2..], " ")).value;
      ClaimSound(ws[2..], claim);
      assert Says(ws, GivesFact(Fact(claim, EpochOf(ws[1]).value)));
    }
  }

  // ---------------------------------------------------------------- all lines

  function TakeAll(ss: seq<Saying>, st: Reading): Result<Reading, Fault> {
    if ss == [] then Ok(st)
    else match Take(ss[0], st)
      case Err(e) => Err(e)
      case Ok(next) => TakeAll(ss[1..], next)
  }

  lemma {:induction false} LinesRead(lines: seq<string>, ss: seq<Saying>, st: Reading)
    requires AllSay(lines, ss) && Fresh(st)
    ensures ReadLines(lines, st) == TakeAll(ss, st)
  {
    if ss != [] {
      LineReads(lines[0], ss[0], st);
      if Take(ss[0], st).Ok? {
        LinesRead(lines[1..], ss[1..], Take(ss[0], st).value);
      }
    }
  }

  lemma {:induction false} LinesSound(lines: seq<string>, st: Reading) returns (ss: seq<Saying>)
    requires ReadLines(lines, st).Ok?
    ensures AllSay(lines, ss)
  {
    ss := [];
    if lines != [] {
      var s := LineSound(lines[0], st);
      var rest := LinesSound(lines[1..], ReadLine(lines[0], st).value);
      ss := [s] + rest;
    }
  }

  /** What may still come after this much was read. */
  predicate Consistent(ss: seq<Saying>, st: Reading) {
    |Boots(ss)| + (if st.observedSeen then 1 else 0) <= 1 && DistinctFacts(st.record.facts + Facts(ss))
  }

  function Grown(ss: seq<Saying>, st: Reading): Reading {
    Reading(Record(if Boots(ss) == [] then st.record.observed else Boots(ss)[0], st.record.facts + Facts(ss)),
            st.observedSeen || Boots(ss) != [])
  }

  lemma NothingStep(ss: seq<Saying>, st: Reading)
    requires ss != [] && ss[0].Nothing?
    ensures Consistent(ss, st) == Consistent(ss[1..], st) && Grown(ss, st) == Grown(ss[1..], st)
  {
    assert Boots(ss) == Boots(ss[1..]) && Facts(ss) == Facts(ss[1..]);
  }

  lemma BootStep(ss: seq<Saying>, st: Reading)
    requires ss != [] && ss[0].NamesBoot?
    ensures st.observedSeen ==> !Consistent(ss, st)
    ensures !st.observedSeen ==>
              var next := Reading(Record(ss[0].boot, st.record.facts), true);
              Consistent(ss, st) == Consistent(ss[1..], next) && (Consistent(ss, st) ==> Grown(ss, st) == Grown(ss[1..], next))
  {
    assert Facts(ss) == Facts(ss[1..]);
    assert Boots(ss) == [ss[0].boot] + Boots(ss[1..]);
  }

  lemma FactStep(ss: seq<Saying>, st: Reading)
    requires ss != [] && ss[0].GivesFact? && DistinctFacts(st.record.facts)
    ensures var next := st.(record := st.record.(facts := st.record.facts + [ss[0].fact]));
            && (Holds(st.record.facts, Control(ss[0].fact.claim)) ==> !Consistent(ss, st))
            && (!Holds(st.record.facts, Control(ss[0].fact.claim)) ==> DistinctFacts(next.record.facts))
            && Consistent(ss, st) == Consistent(ss[1..], next) && Grown(ss, st) == Grown(ss[1..], next)
  {
    var held, f := st.record.facts, ss[0].fact;
    assert Boots(ss) == Boots(ss[1..]);
    assert held + ([f] + Facts(ss[1..])) == held + [f] + Facts(ss[1..]);
    FactTwice(held, f, Facts(ss[1..]));
  }

  lemma FactTwice(held: seq<Fact>, f: Fact, rest: seq<Fact>)
    ensures Holds(held, Control(f.claim)) ==> !DistinctFacts(held + [f] + rest)
  {
    if Holds(held, Control(f.claim)) {
      var i :| 0 <= i < |held| && Control(held[i].claim) == Control(f.claim);
      var all := held + [f] + rest;
      assert all[i] == held[i] && all[|held|] == f;
    }
  }

  /** Sayings are taken exactly while no second boot and no second fact about a control comes. */
  lemma {:induction false} TakenExactly(ss: seq<Saying>, st: Reading)
    requires DistinctFacts(st.record.facts)
    ensures TakeAll(ss, st).Ok? <==> Consistent(ss, st)
    ensures TakeAll(ss, st).Ok? ==> TakeAll(ss, st).value == Grown(ss, st)
  {
    if ss == [] {
      assert st.record.facts + Facts(ss) == st.record.facts;
    } else {
      match ss[0] {
        case Nothing => NothingStep(ss, st);
        case NamesBoot(_) => BootStep(ss, st);
        case GivesFact(_) => FactStep(ss, st);
      }
      var taken := Take(ss[0], st);
      if taken.Ok? {
        TakenExactly(ss[1..], taken.value);
      }
    }
  }

  // ---------------------------------------------------------------- the whole text

  lemma BodyExactly(ss: seq<Saying>, r: Record)
    ensures Tells(ss, r) <==> TakeAll(ss, NOTHING_READ).Ok? && Checked(TakeAll(ss, NOTHING_READ).value) == Ok(r)
  {
    TakenExactly(ss, NOTHING_READ);
    assert [] + Facts(ss) == Facts(ss);
  }

  lemma SaysRecord(text: string, r: Record) returns (ss: seq<Saying>)
    requires ParseText(text) == Ok(r)
    ensures IsRecordText(text, r, ss)
  {
    var lines := Lines(text);
    if lines == [] {
      TrimOfTrimmed("");
    }
    ss := LinesSound(lines[1..], NOTHING_READ);
    LinesRead(lines[1..], ss, NOTHING_READ);
    BodyExactly(ss, r);
  }

  /**
   The records that are read back are exactly the texts whose first line is the header and whose
   other lines are blank, name the boot, at most once, or give a fact, no control twice and none ahead
   of the boot, in any order, spacing and spelling of the numbers; and the record is what they say.
   */
  lemma RecordExactly(text: string, r: Record)
    ensures ParseText(text) == Ok(r) <==> exists ss :: IsRecordText(text, r, ss)
  {
    if ParseText(text) == Ok(r) {
      var ss := SaysRecord(text, r);
    }
    forall ss | IsRecordText(text, r, ss)
      ensures ParseText(text) == Ok(r)
    {
      LinesRead(Lines(text)[1..], ss, NOTHING_READ);
      BodyExactly(ss, r);
    }
  }

  predicate Headed(text: string) {
    Lines(text) != [] && Trim(Lines(text)[0]) == "vayucell guest ledger 1"
  }

  /** Line `k` is the first one that is refused, and why. */
  ghost predicate FirstFault(lines: seq<string>, k: nat, e: Fault) {
    && k < |lines|
    && exists ss :: AllSay(lines[..k], ss) && Consistent(ss, NOTHING_READ) && ReadLine(lines[k], Grown(ss, NOTHING_READ)) == Err(e)
  }

  /** Every line is taken, and some fact is from a later boot than the one that was named. */
  ghost predicate Ahead(lines: seq<string>) {
    exists ss, r: Record :: AllSay(lines, ss) && Consistent(ss, NOTHING_READ) && r == Grown(ss, NOTHING_READ).record
                            && exists i :: 0 <= i < |r.facts| && r.observed.Some? && r.facts[i].epoch > r.observed.value
  }

  lemma {:induction false} ReadPrefix(lines: seq<string>, k: nat, st: Reading)
    requires k <= |lines|
    ensures ReadLines(lines, st) == match ReadLines(lines[..k], st)
                                    case Err(e) => Err(e)
                                    case Ok(mid) => ReadLines(lines[k..], mid)
  {
    if k == 0 {
      assert lines[..0] == [] && lines[0..] == lines;
    } else {
      assert lines[..k][0] == lines[0] && lines[..k][1..] == lines[1..][..k - 1] && lines[1..][k - 1..] == lines[k..];
      if ReadLine(lines[0], st).Ok? {
        ReadPrefix(lines[1..], k - 1, ReadLine(lines[0], st).value);
      }
    }
  }

  lemma PrefixTaken(lines: seq<string>, ss: seq<Saying>)
    requires AllSay(lines, ss)
    ensures ReadLines(lines, NOTHING_READ).Ok? <==> Consistent(ss, NOTHING_READ)
    ensures Consistent(ss, NOTHING_READ) ==> ReadLines(lines, NOTHING_READ) == Ok(Grown(ss, NOTHING_READ))
  {
    LinesRead(lines, ss, NOTHING_READ);
    TakenExactly(ss, NOTHING_READ);
  }

  lemma FaultStops(lines: seq<string>, k: nat, e: Fault)
    requires FirstFault(lines, k, e)
    ensures ReadLines(lines, NOTHING_READ) == Err(e)
  {
    var ss :| AllSay(lines[..k], ss) && Consistent(ss, NOTHING_READ) && ReadLine(lines[k], Grown(ss, NOTHING_READ)) == Err(e);
    PrefixTaken(lines[..k], ss);
    ReadPrefix(lines, k, NOTHING_READ);
  }

  lemma {:induction false} FaultIn(lines: seq<string>) returns (k: nat)
    requires ReadLines(lines, NOTHING_READ).Err?
    ensures FirstFault(lines, k, ReadLines(lines, NOTHING_READ).error)
    decreases |lines|
  {
    var n := |lines| - 1;
    ReadPrefix(lines, n, NOTHING_READ);
    if ReadLines(lines[..n], NOTHING_READ).Err? {
      k := FaultIn(lines[..n]);
      assert lines[..n][..k] == lines[..k];
    } else {
      k := n;
      var ss := LinesSound(lines[..n], NOTHING_READ);
      PrefixTaken(lines[..n], ss);
      assert lines[n..][0] == lines[n] && lines[n..][1..] == [];
    }
  }

  /** Why a text is refused: its header, the first line that is refused, or a fact ahead of the boot. */
  lemma RecordFaults(text: string, e: Fault)
    ensures ParseText(text) == Err(e) <==>
            if !Headed(text) then e == Malformed
            else (exists k: nat :: FirstFault(Lines(text)[1..], k, e)) || (Ahead(Lines(text)[1..]) && e == Malformed)
  {
    var lines := Lines(text);
    if lines == [] {
      TrimOfTrimmed("");
    } else {
      var body := lines[1..];
      forall k: nat, f | FirstFault(body, k, f)
        ensures ReadLines(body, NOTHING_READ) == Err(f)
      {
        FaultStops(body, k, f);
      }
      if Ahead(body) {
        AheadIsMalformed(body);
      }
      if ReadLines(body, NOTHING_READ).Err? {
        var k := FaultIn(body);
      } else {
        var ss := LinesSound(body, NOTHING_READ);
        PrefixTaken(body, ss);
        if !NoneAhead(ReadLines(body, NOTHING_READ).value.record) {
          assert Ahead(body);
        }
      }
    }
  }

  lemma AheadIsMalformed(lines: seq<string>)
    requires Ahead(lines)
    ensures ReadLines(lines, NOTHING_READ).Ok? && Checked(ReadLines(lines, NOTHING_READ).value) == Err(Malformed)
  {
    var ss, r: Record :| AllSay(lines, ss) && Consistent(ss, NOTHING_READ) && r == Grown(ss, NOTHING_READ).record
                         && exists i :: 0 <= i < |r.facts| && r.observed.Some? && r.facts[i].epoch > r.observed.value;
    PrefixTaken(lines, ss);
  }

  /** A record as it is printed. */
  lemma PrintedRecord()
    ensures RenderRecord(Record(Some(9), [Fact(DozeExempt, 3), Fact(Holding(7), 9)])) ==
            "vayucell guest ledger 1" + "\n" + ("observed 9" + "\n" + ("fact 3 doze-exempt" + "\n" + ("fact 9 holding 7" + "\n")))
  {
    var r := Record(Some(9), [Fact(DozeExempt, 3), Fact(Holding(7), 9)]);
    assert Dec(9) == "9" && Dec(3) == "3" && Dec(7) == "7";
    assert FactLine(r.facts[0]) == "fact 3 doze-exempt" && FactLine(r.facts[1]) == "fact 9 holding 7";
    assert ObservedLine(r) == "observed 9";
    var ls := ["vayucell guest ledger 1", "observed 9", "fact 3 doze-exempt", "fact 9 holding 7"];
    assert [HEADER, ObservedLine(r)] + FactLines(r.facts) == ls;
    assert ls[1..] == ["observed 9", "fact 3 doze-exempt", "fact 9 holding 7"];
    assert ls[1..][1..] == ["fact 3 doze-exempt", "fact 9 holding 7"];
    assert ls[1..][1..][1..] == ["fact 9 holding 7"] && ["fact 9 holding 7"][1..] == [];
    assert Unlines(["fact 9 holding 7"]) == "fact 9 holding 7" + "\n";
    assert Unlines(ls[1..][1..]) == "fact 3 doze-exempt" + "\n" + Unlines(["fact 9 holding 7"]);
    assert Unlines(ls[1..]) == "observed 9" + "\n" + Unlines(ls[1..][1..]);
  }
}
