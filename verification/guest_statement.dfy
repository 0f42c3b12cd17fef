/** Reading what the host says, `epoch=8;ceiling=60;doze=exempt`: `core/src/guest.rs`. */
module GuestStatement {
  import opened Wrappers
  import opened Sequences
  import opened Text
  import opened Guest
  import GuestRecord

  /** What a statement has said so far. */
  datatype Said = Said(epoch: Option<Epoch>, claims: seq<Claim>)

  const SILENT := Said(None, [])

  function ClaimOf(key: string, value: string): Option<Claim> {
    if key == "ceiling" then
      if value == "none" then Some(HoldingNothing)
      else match PercentOf(value)
        case Some(p) => Some(Holding(p))
        case None => None
    else if key == "doze" then
      if value == "exempt" then Some(DozeExempt) else if value == "applies" then Some(DozeApplies) else None
    else if key == "ingress" then
      if value == "published" then Some(Published) else if value == "withheld" then Some(Withheld) else None
    else None
  }

  function Pushed(st: Said, c: Claim): Result<Said, Fault> {
    if Mentions(st.claims, Control(c)) then Err(Contradictory) else Ok(st.(claims := st.claims + [c]))
  }

  function ReadPair(key: string, value: string, st: Said): Result<Said, Fault> {
    if key == "epoch" then
      if st.epoch.Some? then Err(Contradictory)
      else if GuestRecord.EpochOf(value).None? then Err(Malformed)
      else Ok(st.(epoch := GuestRecord.EpochOf(value)))
    else match ClaimOf(key, value)
      case None => Err(Malformed)
      case Some(c) => Pushed(st, c)
  }

  function ReadPart(text: string, st: Said): Result<Said, Fault> {
    var part := Trim(text);
    var n := Find(part, '=');
    if part == "" then Ok(st)
    else if n == |part| then Err(Malformed)
    else ReadPair(Trim(part[..n]), Trim(part[n + 1..]), st)
  }

  function ReadParts(parts: seq<string>, st: Said): Result<Said, Fault> {
    if parts == [] then Ok(st)
    else match ReadPart(parts[0], st)
      case Err(e) => Err(e)
      case Ok(next) => ReadParts(parts[1..], next)
  }

  lemma PartKeepsDistinct(text: string, st: Said)
    requires DistinctControls(st.claims)
    ensures ReadPart(text, st).Ok? ==> DistinctControls(ReadPart(text, st).value.claims)
  {
    var part := Trim(text);
    var n := Find(part, '=');
    if n < |part| {
      var c := ClaimOf(Trim(part[..n]), Trim(part[n + 1..]));
      if c.Some? {
        PushKeepsDistinct(st.claims, c.value);
      }
    }
  }

  method ParsePart(text: string, st: Said) returns (r: Result<Said, Fault>)
    ensures r == ReadPart(text, st)
  {
    var part := Trim(text);
    if part == "" {
      return Ok(st);
    }
    var n := Find(part, '=');
    if n == |part| {
      return Err(Malformed);
    }
    var key, value := Trim(part[..n]), Trim(part[n + 1..]);
    if key == "epoch" {
      if st.epoch.Some? {
        return Err(Contradictory);
      }
      var epoch := GuestRecord.EpochOf(value);
      return if epoch.None? then Err(Malformed) else Ok(st.(epoch := epoch));
    }
    var claim := ClaimOf(key, value);
    if claim.None? {
      return Err(Malformed);
    }
    var pushed := PushClaim(st.claims, claim.value);
    return if pushed.Err? then Err(pushed.error) else Ok(st.(claims := pushed.value));
  }

  /** Reads one statement, or says why it cannot be believed. */
  method Parse(text: string) returns (r: Result<Attestation, Fault>)
    ensures r.Ok? <==> ReadParts(Split(text, ';'), SILENT).Ok? && ReadParts(Split(text, ';'), SILENT).value.epoch.Some?
    ensures r.Ok? ==> Said(Some(r.value.epoch), r.value.claims) == ReadParts(Split(text, ';'), SILENT).value
    ensures r.Ok? ==> Believed(text, r.value)
    ensures r.Err? ==> r.error == match ReadParts(Split(text, ';'), SILENT)
                                  case Err(e) => e
                                  case Ok(_) => Malformed
  {
    var st := SILENT;
    var parts := Split(text, ';');
    for k := 0 to |parts|
      invariant DistinctControls(st.claims)
      invariant ReadParts(parts, SILENT) == ReadParts(parts[k..], st)
    {
      assert parts[k..][1..] == parts[k + 1..];
      PartKeepsDistinct(parts[k], st);
      var read := ParsePart(parts[k], st);
      if read.Err? {
        return Err(read.error);
      }
      st := read.value;
    }
    assert parts[|parts|..] == [];
    if st.epoch.None? {
      return Err(Malformed);
    }
    return Ok(AttestationRaw.Attestation(st.epoch.value, st.claims));
  }

  // ---------------------------------------------------------------- every way of saying it

  datatype Word = EpochIs(epoch: Epoch) | ClaimIs(claim: Claim)

  function KeyOf(w: Word): string {
    match w
    case EpochIs(_) => "epoch"
    case ClaimIs(c) => match Control(c)
      case Ceiling => "ceiling"
      case Doze => "doze"
      case Reachability => "ingress"
  }

  /** The values that say a word: its own name, or any spelling of its number. */
  predicate Spells(value: string, w: Word) {
    match w
    case EpochIs(n) => ParseUnsigned(value, U64_MAX) == Some(n)
    case ClaimIs(c) => match c
      case Holding(p) => ParseUnsigned(value, 255) == Some(p)
      case HoldingNothing => value == "none"
      case DozeExempt => value == "exempt"
      case DozeApplies => value == "applies"
      case Published => value == "published"
      case Withheld => value == "withheld"
  }

  /** One part of a statement: white space only, or a key and a value with any white space around each. */
  datatype Piece = Silent(w0: string) | Saying(w0: string, w1: string, w2: string, w3: string, value: string, word: Word) {
    predicate WellFormed() {
      AllSpace(w0) && (Saying? ==> AllSpace(w1) && AllSpace(w2) && AllSpace(w3) && Spells(value, word))
    }

    function Text(): string {
      if Silent? then w0 else w0 + ((KeyOf(word) + w1) + ("=" + (w2 + value))) + w3
    }

    function Said(): seq<Word> {
      if Silent? then [] else [word]
    }
  }

  function Texts(ps: seq<Piece>): seq<string> {
    seq(|ps|, i requires 0 <= i < |ps| => ps[i].Text())
  }

  predicate PiecesOk(ps: seq<Piece>) {
    forall i :: 0 <= i < |ps| ==> ps[i].WellFormed()
  }

  function WordsOf(ps: seq<Piece>): seq<Word> {
    if ps == [] then [] else ps[0].Said() + WordsOf(ps[1..])
  }

  function Epochs(ws: seq<Word>): seq<Epoch> {
    if ws == [] then [] else (if ws[0].EpochIs? then [ws[0].epoch] else []) + Epochs(ws[1..])
  }

  function Claims(ws: seq<Word>): seq<Claim> {
    if ws == [] then [] else (if ws[0].ClaimIs? then [ws[0].claim] else []) + Claims(ws[1..])
  }

  // ---------------------------------------------------------------- one part

  lemma KeyIsClean(w: Word)
    ensures IsWord(KeyOf(w)) && '=' !in KeyOf(w) && ';' !in KeyOf(w)
  {
  }

  lemma NumberIsClean(value: string, max: nat)
    requires ParseUnsigned(value, max).Some?
    ensures IsWord(value) && ';' !in value
  {
    var d := if value != "" && value[0] == '+' then value[1..] else value;
    assert AllDigits(d);
    forall i | 0 <= i < |value|
      ensures value[i] == '+' || IsDigit(value[i])
    {
      assert i > 0 && |d| < |value| ==> value[i] == d[i - 1];
    }
  }

  lemma ValueIsClean(value: string, w: Word)
    requires Spells(value, w)
    ensures IsWord(value) && ';' !in value
  {
    if w.EpochIs? {
      NumberIsClean(value, U64_MAX);
    } else if w.claim.Holding? {
      NumberIsClean(value, 255);
    }
  }

  lemma SpaceIsClean(s: string)
    requires AllSpace(s)
    ensures '=' !in s && ';' !in s
  {
  }

  lemma NoSemicolon(p: Piece)
    requires p.WellFormed()
    ensures ';' !in p.Text()
  {
    SpaceIsClean(p.w0);
    if p.Saying? {
      KeyIsClean(p.word);
      ValueIsClean(p.value, p.word);
      SpaceIsClean(p.w1);
      SpaceIsClean(p.w2);
      SpaceIsClean(p.w3);
    }
  }

  lemma PairSplits(left: string, right: string)
    requires '=' !in left
    ensures var part := left + ("=" + right);
            Find(part, '=') == |left| && part[..|left|] == left && part[|left| + 1..] == right
  {
    FindOf(left, '=', "=" + right);
  }

  lemma PaddedWord(a: string, w: string, z: string)
    requires AllSpace(a) && AllSpace(z) && IsWord(w)
    ensures a == "" ==> Trim(w + z) == w
    ensures z == "" ==> Trim(a + w) == w
  {
    TrimPadded(a, w, z);
    assert a == "" ==> a + w + z == w + z;
    assert z == "" ==> a + w + z == a + w;
  }

  lemma PartTrims(p: Piece)
    requires p.WellFormed() && p.Saying?
    ensures Trim(p.Text()) == (KeyOf(p.word) + p.w1) + ("=" + (p.w2 + p.value))
  {
    var key, value := KeyOf(p.word), p.value;
    KeyIsClean(p.word);
    ValueIsClean(value, p.word);
    var part := (key + p.w1) + ("=" + (p.w2 + value));
    assert part[0] == key[0] && part[|part| - 1] == value[|value| - 1];
    TrimPadded(p.w0, part, p.w3);
  }

  lemma PartSplits(p: Piece)
    requires p.WellFormed() && p.Saying?
    ensures var part := Trim(p.Text());
            var n := Find(part, '=');
            n < |part| && Trim(part[..n]) == KeyOf(p.word) && Trim(part[n + 1..]) == p.value
  {
    PartTrims(p);
    KeyIsClean(p.word);
    ValueIsClean(p.value, p.word);
    SpaceIsClean(p.w1);
    PairSplits(KeyOf(p.word) + p.w1, p.w2 + p.value);
    PaddedWord("", KeyOf(p.word), p.w1);
    PaddedWord(p.w2, p.value, "");
  }

  function ReadWord(w: Word, st: Said): Result<Said, Fault> {
    match w
    case EpochIs(n) => if st.epoch.Some? then Err(Contradictory) else Ok(st.(epoch := Some(n)))
    case ClaimIs(c) => Pushed(st, c)
  }

  /** A key and a value are read as a word exactly when they are its key and one of its spellings. */
  lemma ClaimExactly(key: string, value: string, c: Claim)
    ensures key != "epoch" && ClaimOf(key, value) == Some(c) <==> key == KeyOf(ClaimIs(c)) && Spells(value, ClaimIs(c))
  {
    if c.Holding? && ParseUnsigned(value, 255) == Some(c.percent) {
      NumberIsNoWord(value);
      assert value[0] != "none"[0];
    }
  }

  lemma PairReads(value: string, w: Word, st: Said)
    requires Spells(value, w)
    ensures ReadPair(KeyOf(w), value, st) == ReadWord(w, st)
  {
    if w.ClaimIs? {
      ClaimExactly(KeyOf(w), value, w.claim);
    }
  }

  lemma PairSound(key: string, value: string, st: Said) returns (w: Word)
    requires ReadPair(key, value, st).Ok?
    ensures key == KeyOf(w) && Spells(value, w)
  {
    if key == "epoch" {
      w := EpochIs(GuestRecord.EpochOf(value).value);
    } else {
      w := ClaimIs(ClaimOf(key, value).value);
      ClaimExactly(key, value, w.claim);
    }
  }

  function ReadSaid(ws: seq<Word>, st: Said): Result<Said, Fault> {
    if ws == [] then Ok(st)
    else match ReadWord(ws[0], st)
      case Err(e) => Err(e)
      case Ok(next) => ReadSaid(ws[1..], next)
  }

  lemma PieceReads(p: Piece, st: Said)
    requires p.WellFormed()
    ensures ReadPart(p.Text(), st) == if p.Silent? then Ok(st) else ReadWord(p.word, st)
  {
    if p.Silent? {
      TrimPadded(p.w0, "", "");
      assert p.w0 + "" + "" == p.w0;
    } else {
      PartSplits(p);
      PairReads(p.value, p.word, st);
    }
  }

  lemma SayingSound(a: string, left: string, right: string, z: string, st: Said) returns (p: Piece)
    requires AllSpace(a) && AllSpace(z) && ReadPair(Trim(left), Trim(right), st).Ok?
    ensures p.WellFormed() && p.Saying? && p.Text() == a + (left + ("=" + right)) + z
  {
    var k0, k1 := TrimSplits(left);
    var v0, v1 := TrimSplits(right);
    var w := PairSound(Trim(left), Trim(right), st);
    SpacesJoin(a, k0);
    SpacesJoin(v1, z);
    p := Saying(a + k0, k1, v0, v1 + z, Trim(right), w);
    Regroup(a, k0, Trim(left), k1, v0, Trim(right), v1, z);
  }

  lemma SpacesJoin(a: string, b: string)
    requires AllSpace(a) && AllSpace(b)
    ensures AllSpace(a + b)
  {
  }

  lemma PairIn(text: string, st: Said) returns (left: string, right: string)
    requires ReadPart(text, st).Ok? && Trim(text) != ""
    ensures Trim(text) == left + ("=" + right) && ReadPair(Trim(left), Trim(right), st).Ok?
  {
    var part := Trim(text);
    var n := Find(part, '=');
    left, right := part[..n], part[n + 1..];
    CutAt(part, n);
  }

  /** Every part that is accepted is such a piece. */
  lemma PartSound(text: string, st: Said) returns (p: Piece)
    requires ReadPart(text, st).Ok?
    ensures p.WellFormed() && p.Text() == text
  {
    var a, z := TrimSplits(text);
    var part := Trim(text);
    if part == "" {
      SpacesJoin(a, z);
      assert text == a + z;
      p := Silent(text);
    } else {
      var left, right := PairIn(text, st);
      p := SayingSound(a, left, right, z, st);
    }
  }

  /** What a part may be read as: nothing when it is blank, else the one word it spells. */
  lemma PartExactly(text: string, st: Said, next: Said)
    ensures ReadPart(text, st) == Ok(next) <==>
            exists p: Piece :: p.WellFormed() && p.Text() == text
                               && Ok(next) == if p.Silent? then Ok(st) else ReadWord(p.word, st)
  {
    if ReadPart(text, st) == Ok(next) {
      var p := PartSound(text, st);
      PieceReads(p, st);
    }
    forall p: Piece | p.WellFormed() && p.Text() == text && Ok(next) == if p.Silent? then Ok(st) else ReadWord(p.word, st)
      ensures ReadPart(text, st) == Ok(next)
    {
      PieceReads(p, st);
    }
  }

  /** The part is about the boot: the word `epoch`, an equals sign, anything. */
  ghost predicate NamesEpoch(text: string) {
    exists w0, w1, rest :: AllSpace(w0) && AllSpace(w1) && text == w0 + (("epoch" + w1) + ("=" + rest))
  }

  /** A part repeats something when it is about the boot once more, even badly, or claims something about a control again. */
  ghost predicate Repeats(text: string, st: Said) {
    || (st.epoch.Some? && NamesEpoch(text))
    || exists p: Piece :: p.WellFormed() && p.Text() == text && p.Saying? && p.word.ClaimIs? && Mentions(st.claims, Control(p.word.claim))
  }

  lemma TrimmedPair(w0: string, left: string, rest: string) returns (right: string)
    requires AllSpace(w0) && left != "" && !IsSpace(left[0])
    ensures Trim(w0 + (left + ("=" + rest))) == left + ("=" + right)
  {
    var r0, r1 := TrimSplits(rest);
    right := if Trim(rest) == "" then "" else r0 + Trim(rest);
    var z := if Trim(rest) == "" then r0 + r1 else r1;
    var part := left + ("=" + right);
    assert rest == right + z;
    assert part[|part| - 1] == if right == "" then '=' else Trim(rest)[|Trim(rest)| - 1];
    SpacesJoin(r0, r1);
    assert w0 + (left + ("=" + rest)) == w0 + part + z;
    TrimPadded(w0, part, z);
  }

  lemma EpochPart(text: string, st: Said)
    requires NamesEpoch(text) && st.epoch.Some?
    ensures ReadPart(text, st) == Err(Contradictory)
  {
    var w0, w1, rest :| AllSpace(w0) && AllSpace(w1) && text == w0 + (("epoch" + w1) + ("=" + rest));
    var right := TrimmedPair(w0, "epoch" + w1, rest);
    SpaceIsClean(w1);
    PairSplits("epoch" + w1, right);
    PaddedWord("", "epoch", w1);
  }

  lemma PieceNames(p: Piece)
    requires p.WellFormed() && p.Saying? && p.word.EpochIs?
    ensures NamesEpoch(p.Text())
  {
    assert p.Text() == p.w0 + (("epoch" + p.w1) + ("=" + (p.w2 + p.value + p.w3)));
  }

  lemma EpochRegroup(a: string, k0: string, k1: string, right: string, z: string)
    ensures a + (k0 + "epoch" + k1 + ("=" + right)) + z == (a + k0) + (("epoch" + k1) + ("=" + (right + z)))
  {
  }

  lemma EpochPair(text: string, left: string, right: string)
    requires Trim(text) == left + ("=" + right) && Trim(left) == "epoch"
    ensures NamesEpoch(text)
  {
    var a, z := TrimSplits(text);
    var k0, k1 := TrimSplits(left);
    SpacesJoin(a, k0);
    EpochRegroup(a, k0, k1, right, z);
  }

  /** A part that is accepted when nothing was said yet is refused later only for what it repeats. */
  lemma PieceRepeats(text: string, st: Said, p: Piece)
    requires p.WellFormed() && p.Text() == text
    ensures ReadPart(text, st).Err? <==> (p.Saying? && ReadWord(p.word, st).Err?)
    ensures ReadPart(text, st).Err? ==> ReadPart(text, st) == Err(Contradictory) && Repeats(text, st)
  {
    PieceReads(p, st);
    if p.Saying? && p.word.EpochIs? {
      PieceNames(p);
    }
  }

  lemma ContradictionRepeats(text: string, st: Said)
    requires ReadPart(text, st) == Err(Contradictory)
    ensures Repeats(text, st)
  {
    var part, n := Trim(text), Find(Trim(text), '=');
    CutAt(part, n);
    if Trim(part[..n]) == "epoch" {
      EpochPair(text, part[..n], part[n + 1..]);
    } else {
      assert ReadPart(text, SILENT).Ok?;
      var p := PartSound(text, SILENT);
      PieceRepeats(text, st, p);
    }
  }

  lemma RepeatsContradicts(text: string, st: Said)
    requires Repeats(text, st)
    ensures ReadPart(text, st) == Err(Contradictory)
  {
    if st.epoch.Some? && NamesEpoch(text) {
      EpochPart(text, st);
    } else {
      var p: Piece :| p.WellFormed() && p.Text() == text && p.Saying? && p.word.ClaimIs? && Mentions(st.claims, Control(p.word.claim));
      PieceReads(p, st);
    }
  }

  /** Why a part is refused: contradictory when it repeats something, malformed when it is no such piece. */
  lemma PartFaults(text: string, st: Said)
    ensures ReadPart(text, st) == Err(Contradictory) <==> Repeats(text, st)
    ensures ReadPart(text, st) == Err(Malformed) <==>
            !Repeats(text, st) && forall p: Piece :: p.WellFormed() ==> p.Text() != text
  {
    if Repeats(text, st) {
      RepeatsContradicts(text, st);
    }
    if ReadPart(text, st) == Err(Contradictory) {
      ContradictionRepeats(text, st);
    }
    forall p: Piece | p.WellFormed() && p.Text() == text
      ensures ReadPart(text, st) != Err(Malformed)
    {
      PieceRepeats(text, st, p);
    }
    if ReadPart(text, st).Ok? {
      var p := PartSound(text, st);
    }
  }

  lemma Regroup(a: string, k0: string, key: string, k1: string, v0: string, value: string, v1: string, z: string)
    ensures a + ((k0 + key + k1) + ("=" + (v0 + value + v1))) + z == (a + k0) + ((key + k1) + ("=" + (v0 + value))) + (v1 + z)
  {
  }

  // ---------------------------------------------------------------- whole statements

  lemma {:induction false} PiecesRead(ps: seq<Piece>, st: Said)
    requires PiecesOk(ps)
    ensures ReadParts(Texts(ps), st) == ReadSaid(WordsOf(ps), st)
  {
    if ps != [] {
      PieceReads(ps[0], st);
      assert Texts(ps)[1..] == Texts(ps[1..]);
      var read := ReadPart(ps[0].Text(), st);
      if read.Ok? {
        PiecesRead(ps[1..], read.value);
      }
      if ps[0].Silent? {
        assert WordsOf(ps) == WordsOf(ps[1..]);
      } else {
        assert WordsOf(ps)[1..] == WordsOf(ps[1..]);
      }
    }
  }

  lemma {:induction false} PartsSound(parts: seq<string>, st: Said) returns (ps: seq<Piece>)
    requires ReadParts(parts, st).Ok?
    ensures PiecesOk(ps) && Texts(ps) == parts
  {
    if parts == [] {
      ps := [];
    } else {
      var p := PartSound(parts[0], st);
      var rest := PartsSound(parts[1..], ReadPart(parts[0], st).value);
      ps := [p] + rest;
      TextsCons(p, rest);
      assert parts == [parts[0]] + parts[1..];
    }
  }

  lemma TextsCons(p: Piece, ps: seq<Piece>)
    ensures Texts([p] + ps) == [p.Text()] + Texts(ps)
  {
  }

  /** What a statement may have said: at most one boot, and no control twice. */
  predicate Consistent(st: Said, ws: seq<Word>) {
    |Epochs(ws)| + (if st.epoch.Some? then 1 else 0) <= 1 && DistinctControls(st.claims + Claims(ws))
  }

  function Grown(st: Said, ws: seq<Word>): Said {
    Said(if Epochs(ws) == [] then st.epoch else Some(Epochs(ws)[0]), st.claims + Claims(ws))
  }

  lemma EpochStep(st: Said, ws: seq<Word>)
    requires ws != [] && ws[0].EpochIs?
    ensures st.epoch.Some? ==> !Consistent(st, ws)
    ensures st.epoch.None? ==>
              var next := st.(epoch := Some(ws[0].epoch));
              (Consistent(st, ws) <==> Consistent(next, ws[1..])) && (Consistent(st, ws) ==> Grown(st, ws) == Grown(next, ws[1..]))
  {
    assert Claims(ws) == Claims(ws[1..]);
    assert Epochs(ws) == [ws[0].epoch] + Epochs(ws[1..]);
  }

  lemma ClaimStep(st: Said, ws: seq<Word>)
    requires ws != [] && ws[0].ClaimIs? && DistinctControls(st.claims)
    ensures var next := st.(claims := st.claims + [ws[0].claim]);
            && (Mentions(st.claims, Control(ws[0].claim)) ==> !Consistent(st, ws))
            && (!Mentions(st.claims, Control(ws[0].claim)) ==> DistinctControls(next.claims))
            && (Consistent(st, ws) <==> Consistent(next, ws[1..])) && Grown(st, ws) == Grown(next, ws[1..])
  {
    var c := ws[0].claim;
    assert Epochs(ws) == Epochs(ws[1..]);
    assert st.claims + ([c] + Claims(ws[1..])) == st.claims + [c] + Claims(ws[1..]);
    PushKeepsDistinct(st.claims, c);
    DistinctPart(st.claims + [c], Claims(ws[1..]));
  }

  lemma DistinctPart(a: seq<Claim>, b: seq<Claim>)
    ensures DistinctControls(a + b) ==> DistinctControls(a)
  {
    assert (a + b)[..|a|] == a;
  }

  /** Words are accepted exactly while no second epoch and no second word on a control comes. */
  lemma {:induction false} SaidExactly(ws: seq<Word>, st: Said)
    requires DistinctControls(st.claims)
    ensures ReadSaid(ws, st).Ok? <==> Consistent(st, ws)
    ensures ReadSaid(ws, st).Ok? ==> ReadSaid(ws, st).value == Grown(st, ws)
  {
    if ws == [] {
      assert st.claims + Claims(ws) == st.claims;
    } else {
      if ws[0].EpochIs? {
        EpochStep(st, ws);
      } else {
        ClaimStep(st, ws);
      }
      var read := ReadWord(ws[0], st);
      if read.Ok? {
        SaidExactly(ws[1..], read.value);
      }
    }
  }

  /** The statement is believed, and says this. */
  predicate Believed(text: string, a: Attestation) {
    ReadParts(Split(text, ';'), SILENT) == Ok(Said(Some(a.epoch), a.claims))
  }

  /** The text is made of these parts, and they name this boot once and make these claims. */
  predicate IsSaidBy(text: string, a: Attestation, ps: seq<Piece>) {
    && ps != [] && PiecesOk(ps) && text == Join(Texts(ps), ";")
    && Epochs(WordsOf(ps)) == [a.epoch] && Claims(WordsOf(ps)) == a.claims
  }

  /**
   The statements that are believed are exactly the texts of parts, in any order, spacing and
   spelling, that name one boot and no control twice, and they say exactly those claims.
   */
  lemma StatementExactly(text: string, a: Attestation)
    ensures Believed(text, a) <==> exists ps :: IsSaidBy(text, a, ps)
  {
    if Believed(text, a) {
      var ps := PartsSound(Split(text, ';'), SILENT);
      JoinSplit(text, ';');
      PiecesRead(ps, SILENT);
      SaidExactly(WordsOf(ps), SILENT);
      assert [] + Claims(WordsOf(ps)) == Claims(WordsOf(ps));
      assert IsSaidBy(text, a, ps);
    }
    forall ps | IsSaidBy(text, a, ps)
      ensures Believed(text, a)
    {
      PiecesBelieved(text, a, ps);
    }
  }

  lemma PiecesBelieved(text: string, a: Attestation, ps: seq<Piece>)
    requires IsSaidBy(text, a, ps)
    ensures Believed(text, a)
  {
    forall i | 0 <= i < |ps|
      ensures ';' !in Texts(ps)[i]
    {
      NoSemicolon(ps[i]);
    }
    SplitJoin(Texts(ps), ';');
    PiecesRead(ps, SILENT);
    SaidExactly(WordsOf(ps), SILENT);
    assert [] + Claims(WordsOf(ps)) == Claims(WordsOf(ps));
  }
}
