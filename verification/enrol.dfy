/**
 Enrolling and revoking devices in the credential store's file: `cli/src/enrol.rs`.
 The secret of an enrolment is an input; file modes and I/O errors are not modelled.
 */
module Enrol {
  import opened Wrappers
  import opened Text
  import opened Auth

  datatype EnrolError = BadName(name: DeviceError) | BadStore(store: StoreError) | AlreadyEnrolled | NoFile

  /** The store's file; no file is the empty store. */
  function Load(file: Option<string>): Result<seq<Credential>, StoreError> {
    match file
    case None => Ok([])
    case Some(text) => Store(text)
  }

  function Contents(file: Option<string>): string {
    if file.Some? then file.value else ""
  }

  function Appended(text: string, name: string, secret: string): string {
    text + (name + " " + secret + "\n")
  }

  /** Whether this line is the entry of the device: its first word is the name, and it is no comment. */
  predicate IsLineOf(line: string, name: string) {
    Words(line) != [] && Words(line)[0] == name && name[0] != '#'
  }

  function Others(lines: seq<string>, name: string): seq<string> {
    if lines == [] then []
    else (if IsLineOf(lines[0], name) then [] else [lines[0]]) + Others(lines[1..], name)
  }

  class StoreFile {
    var file: Option<string>

    constructor ()
      ensures file == None
    {
      file := None;
    }

    method Enrol(name: string, secret: string) returns (r: Result<(), EnrolError>)
      modifies this
      ensures NewDeviceName(name).Err? ==> r == Err(BadName(NewDeviceName(name).error))
      ensures NewDeviceName(name).Ok? && Load(old(file)).Err? ==> r == Err(BadStore(Load(old(file)).error))
      ensures NewDeviceName(name).Ok? && Load(old(file)).Ok? ==>
                r == if Enrolled(Load(old(file)).value, name) then Err(AlreadyEnrolled) else Ok(())
      ensures file == if r.Ok? then Some(Appended(Contents(old(file)), name, secret)) else old(file)
      ensures file == FileStep(old(file), Enrols(name, secret))
    {
      var device := NewDeviceName(name);
      if device.Err? {
        return Err(BadName(device.error));
      }
      var existing: Result<seq<Credential>, StoreError> := Ok([]);
      if file.Some? {
        existing := ParseStore(file.value);
      }
      if existing.Err? {
        return Err(BadStore(existing.error));
      }
      var held := existing.value;
      for k := 0 to |held|
        invariant file == old(file)
        invariant !Enrolled(held[..k], name)
      {
        if held[k].device == device.value {
          return Err(AlreadyEnrolled);
        }
      }
      assert held[..|held|] == held;
      file := Some(Appended(if file.Some? then file.value else "", device.value, secret));
      return Ok(());
    }

    /** Answers whether the device was there; the rest of the file is kept line for line. */
    method Revoke(name: string) returns (r: Result<bool, EnrolError>)
      modifies this
      ensures NewDeviceName(name).Err? ==> r == Err(BadName(NewDeviceName(name).error))
      ensures NewDeviceName(name).Ok? && Load(old(file)).Err? ==> r == Err(BadStore(Load(old(file)).error))
      ensures NewDeviceName(name).Ok? && Load(old(file)).Ok? ==>
                r == if old(file).None? then Err(NoFile) else Ok(Others(Lines(Contents(old(file))), name) != Lines(Contents(old(file))))
      ensures file == if r == Ok(true) then Some(Unlines(Others(Lines(Contents(old(file))), name))) else old(file)
      ensures file == FileStep(old(file), Revokes(name))
    {
      var device := NewDeviceName(name);
      if device.Err? {
        return Err(BadName(device.error));
      }
      if file.None? {
        return Err(NoFile);
      }
      var loaded := ParseStore(file.value);
      if loaded.Err? {
        return Err(BadStore(loaded.error));
      }
      var kept := "";
      var removed := false;
      var lines := Lines(file.value);
      ghost var left: seq<string> := [];
      for k := 0 to |lines|
        invariant file == old(file)
        invariant kept == Unlines(left)
        invariant left + Others(lines[k..], name) == Others(lines, name)
        invariant |left| <= k && (removed <==> |left| < k)
      {
        ghost var rest := Others(lines[k + 1..], name);
        assert lines[k..][1..] == lines[k + 1..];
        assert left + ([lines[k]] + rest) == left + [lines[k]] + rest;
        assert [] + rest == rest;
        var drop := MatchesLine(lines[k], device.value);
        if drop {
          removed := true;
          continue;
        }
        KeepLine(left, lines[k]);
        left := left + [lines[k]];
        kept := kept + lines[k] + "\n";
      }
      assert lines[|lines|..] == [] && left + [] == left;
      OthersShorter(lines, name);
      if !removed {
        return Ok(false);
      }
      file := Some(kept);
      return Ok(true);
    }
  }

  /** The test of the source: the first word is the name, and the line does not start with `#`. */
  method MatchesLine(line: string, name: string) returns (matches: bool)
    ensures matches <==> IsLineOf(line, name)
  {
    var words := Words(line);
    if words == [] || words[0] != name {
      return false;
    }
    FirstOfTrim(line);
    return TrimStart(line)[0] != '#';
  }

  lemma KeepLine(kept: seq<string>, line: string)
    ensures Unlines(kept + [line]) == Unlines(kept) + line + "\n"
  {
    UnlinesAppend(kept, [line]);
    assert [line][1..] == [];
  }

  lemma {:induction false} OthersShorter(lines: seq<string>, name: string)
    ensures |Others(lines, name)| <= |lines|
    ensures Others(lines, name) == lines <==> |Others(lines, name)| == |lines|
  {
    if lines != [] {
      OthersShorter(lines[1..], name);
      assert lines == [lines[0]] + lines[1..];
    }
  }

  // ---------------------------------------------------------------- what an enrolment does to the text

  lemma NameIsWord(name: string)
    ensures NewDeviceName(name).Ok? ==> IsWord(name)
  {
  }

  lemma SecretIsWord(secret: string)
    requires IsSecret(secret)
    ensures IsWord(secret) && '\n' !in secret && secret[|secret| - 1] != '\r'
    ensures NewSecret(secret) == Ok(secret)
  {
  }

  /** The line an enrolment completes, when an unfinished line was already there. */
  function NewLine(tail: string, name: string, secret: string): string {
    tail + name + " " + secret
  }

  lemma NewLineWords(tail: string, name: string, secret: string)
    requires NewDeviceName(name).Ok? && IsSecret(secret)
    ensures Words(NewLine(tail, name, secret)) == Words(tail + name) + [secret]
    ensures AllSpace(tail) ==> Words(tail + name) == [name]
  {
    NameIsWord(name);
    SecretIsWord(secret);
    WordsApart(tail + name, secret);
    assert secret + "" == secret && name + "" == name;
    WordsCons(secret, "");
    WordsCons(name, "");
    if AllSpace(tail) {
      WordsSkip(tail, name);
    }
  }

  lemma NewLineSays(tail: string, name: string, secret: string)
    requires NewDeviceName(name).Ok? && IsSecret(secret) && !Says(tail).Bad?
    ensures AllSpace(tail) ==>
              Says(NewLine(tail, name, secret)) == if name[0] == '#' then Skipped else Entry(Credential(name, secret))
    ensures !AllSpace(tail) && Says(tail).Skipped? ==> Says(NewLine(tail, name, secret)).Skipped?
    ensures Says(tail).Entry? ==> Says(NewLine(tail, name, secret)).Bad?
  {
    NewLineWords(tail, name, secret);
    SecretIsWord(secret);
    NoWords(tail);
    WordsGrow(tail, name);
  }

  lemma LinesAfterEnrol(body: string, tail: string, name: string, secret: string)
    requires Complete(body) && '\n' !in tail
    requires NewDeviceName(name).Ok? && IsSecret(secret)
    ensures Lines(body + tail) == Lines(body) + if tail == "" then [] else [tail]
    ensures Lines(Appended(body + tail, name, secret)) == Lines(body) + [NewLine(tail, name, secret)]
  {
    LinesWithTail(body, tail);
    AppendedIs(body, tail, name, secret);
    NewLineIsLine(tail, name, secret);
    LinesAppend(body, NewLine(tail, name, secret) + "\n");
  }

  lemma LinesWithTail(body: string, tail: string)
    requires Complete(body) && '\n' !in tail
    ensures Lines(body + tail) == Lines(body) + if tail == "" then [] else [tail]
  {
    LinesAppend(body, tail);
    FindOf(tail, '\n', "");
    assert tail + "" == tail;
  }

  lemma AppendedIs(body: string, tail: string, name: string, secret: string)
    ensures Appended(body + tail, name, secret) == body + (NewLine(tail, name, secret) + "\n")
  {
    assert body + tail + (name + " " + secret + "\n") == body + (tail + (name + " " + secret + "\n"));
    assert tail + (name + " " + secret + "\n") == tail + name + " " + secret + "\n";
  }

  lemma NewLineIsLine(tail: string, name: string, secret: string)
    requires '\n' !in tail && NewDeviceName(name).Ok? && IsSecret(secret)
    ensures Lines(NewLine(tail, name, secret) + "\n") == [NewLine(tail, name, secret)]
  {
    NameIsWord(name);
    SecretIsWord(secret);
    var line := NewLine(tail, name, secret);
    assert line[|line| - 1] == secret[|secret| - 1];
    LinesCons(line, "");
    assert line + "\n" + "" == line + "\n" && [line] + Lines("") == [line];
  }

  lemma TailSays(body: string, tail: string)
    requires Complete(body) && '\n' !in tail && Store(body + tail).Ok?
    requires Lines(body + tail) == Lines(body) + if tail == "" then [] else [tail]
    ensures NoBad(Lines(body)) && !Says(tail).Bad?
    ensures Store(body + tail).value == Entries(Lines(body)) + if Says(tail).Entry? then [Says(tail).credential] else []
  {
    StoreExactly(body + tail);
    EntriesAppend(Lines(body), if tail == "" then [] else [tail]);
    EntriesOne(tail);
  }

  /**
   An enrolment on a readable store adds exactly its device exactly when the name does not
   start with `#` and the file ends in a line feed, or in nothing but white space after one.
   After an unfinished comment, or with such a name, nothing is added; after an unfinished
   entry the store can no longer be read.
   */
  lemma EnrolExactly(text: string, name: string, secret: string)
    requires Store(text).Ok? && NewDeviceName(name).Ok? && IsSecret(secret) && !Enrolled(Store(text).value, name)
    ensures Store(Appended(text, name, secret)) == Ok(Store(text).value + [Credential(name, secret)]) <==>
            name[0] != '#' && AllSpace(Tail(text))
    ensures Says(Tail(text)).Skipped? && (name[0] == '#' || !AllSpace(Tail(text))) ==>
              Store(Appended(text, name, secret)) == Store(text)
    ensures Says(Tail(text)).Entry? ==> Store(Appended(text, name, secret)).Err?
    ensures !Says(Tail(text)).Bad?
  {
    var body := TailSplits(text);
    EnrolAfter(body, Tail(text), name, secret);
    LinesAfterEnrol(body, Tail(text), name, secret);
    TailSays(body, Tail(text));
  }

  lemma EnrolAfter(body: string, tail: string, name: string, secret: string)
    requires Complete(body) && '\n' !in tail && Store(body + tail).Ok?
    requires NewDeviceName(name).Ok? && IsSecret(secret) && !Enrolled(Store(body + tail).value, name)
    ensures Store(Appended(body + tail, name, secret)) == Ok(Store(body + tail).value + [Credential(name, secret)]) <==>
            name[0] != '#' && AllSpace(tail)
    ensures Says(tail).Skipped? && (name[0] == '#' || !AllSpace(tail)) ==>
              Store(Appended(body + tail, name, secret)) == Store(body + tail)
    ensures Says(tail).Entry? ==> Store(Appended(body + tail, name, secret)).Err?
  {
    LinesAfterEnrol(body, tail, name, secret);
    TailSays(body, tail);
    NewLineSays(tail, name, secret);
    NoWords(tail);
    StoreExactly(body + tail);
    var cs, c := Store(body + tail).value, Credential(name, secret);
    OneMoreLine(body, NewLine(tail, name, secret), Appended(body + tail, name, secret));
    if Says(tail).Skipped? {
      assert Entries(Lines(body)) + [] == Entries(Lines(body));
      DistinctOneMore(cs, c);
      assert |cs + [c]| != |cs|;
    }
  }

  lemma OneMoreLine(body: string, line: string, text: string)
    requires NoBad(Lines(body)) && Lines(text) == Lines(body) + [line]
    ensures Says(line).Bad? ==> Store(text).Err?
    ensures Says(line).Skipped? && DistinctNames(Entries(Lines(body))) ==> Store(text) == Ok(Entries(Lines(body)))
    ensures Says(line).Entry? && DistinctNames(Entries(Lines(body)) + [Says(line).credential]) ==>
              Store(text) == Ok(Entries(Lines(body)) + [Says(line).credential])
  {
    EntriesAppend(Lines(body), [line]);
    EntriesOne(line);
    StoreExactly(text);
    assert Entries(Lines(body)) + [] == Entries(Lines(body));
  }

  /** The line an enrolment appends. */
  function EntryLine(name: string, secret: string): string {
    name + " " + secret + "\n"
  }

  /** What stands of that line when the append is cut short: part of the name, or the name and part of the secret. */
  lemma TornLineSays(name: string, secret: string, k: nat)
    requires NewDeviceName(name).Ok? && IsSecret(secret) && name[0] != '#'
    requires 0 < k <= |name| + 1 + SECRET_CHARS
    ensures var torn := EntryLine(name, secret)[..k];
            && '\n' !in torn
            && (k < |name| + 1 + SECRET_CHARS ==> Says(torn).Bad?)
            && (k == |name| + 1 + SECRET_CHARS ==> Says(torn) == Entry(Credential(name, secret)))
  {
    NameIsWord(name);
    SecretIsWord(secret);
    var torn := EntryLine(name, secret)[..k];
    if k <= |name| {
      assert torn == name[..k];
      OneWordSays(torn);
    } else if k == |name| + 1 {
      assert torn == name + " ";
      WordsTail(name, " ");
      OneWordSays(name);
    } else {
      var part := secret[..k - |name| - 1];
      assert torn == name + " " + part;
      TwoWordsSay(name, part);
      assert part == secret || |part| < SECRET_CHARS;
    }
  }

  lemma OneWordSays(w: string)
    requires IsWord(w) && w[0] != '#'
    ensures Words(w) == [w] && Says(w).Bad?
  {
    assert w + "" == w;
    WordsCons(w, "");
  }

  lemma TwoWordsSay(name: string, part: string)
    requires NewDeviceName(name).Ok? && IsWord(part) && name[0] != '#'
    ensures Says(name + " " + part) == match NewSecret(part)
                                       case Err(e) => Bad(StoreProblem.Secret(e))
                                       case Ok(s) => Entry(Credential(name, s))
  {
    NameIsWord(name);
    WordsApart(name, part);
    assert name + "" == name && part + "" == part;
    WordsCons(name, "");
    WordsCons(part, "");
  }

  /**
   An append that is cut short leaves a readable store exactly when nothing of the line was
   written, or at least the whole secret: in between, every device is locked out.
   */
  lemma TornEnrolmentExactly(text: string, name: string, secret: string, k: nat)
    requires Complete(text) && Store(text).Ok? && !Enrolled(Store(text).value, name)
    requires NewDeviceName(name).Ok? && IsSecret(secret) && name[0] != '#' && k <= |EntryLine(name, secret)|
    ensures Store(text + EntryLine(name, secret)[..k]).Ok? <==> k == 0 || k >= |name| + 1 + SECRET_CHARS
    ensures k >= |name| + 1 + SECRET_CHARS ==>
              Store(text + EntryLine(name, secret)[..k]) == Ok(Store(text).value + [Credential(name, secret)])
    ensures text + EntryLine(name, secret) == Appended(text, name, secret)
  {
    var torn := EntryLine(name, secret)[..k];
    if k == 0 {
      assert text + torn == text;
    } else if k <= |name| + 1 + SECRET_CHARS {
      TornLineSays(name, secret, k);
      LinesWithTail(text, torn);
      StoreExactly(text);
      DistinctOneMore(Store(text).value, Credential(name, secret));
      OneMoreLine(text, torn, text + torn);
    } else {
      assert torn == EntryLine(name, secret);
      assert text + "" == text;
      EnrolAfter(text, "", name, secret);
      assert text + torn == Appended(text, name, secret);
    }
  }

  // ---------------------------------------------------------------- what a revocation does to the text

  /** The entries of every other device. */
  function Rest(cs: seq<Credential>, name: string): seq<Credential> {
    if cs == [] then []
    else (if cs[0].device == name then [] else [cs[0]]) + Rest(cs[1..], name)
  }

  lemma SaysStripCr(line: string)
    ensures Says(StripCr(line)) == Says(line)
  {
    WordsStripCr(line);
  }

  lemma LineOfDevice(line: string, name: string)
    requires !Says(line).Bad?
    ensures IsLineOf(line, name) <==> Says(line).Entry? && Says(line).credential.device == name
  {
  }

  lemma {:induction false} EntriesOfOthers(lines: seq<string>, name: string)
    requires NoBad(lines)
    ensures NoBad(StripAll(Others(lines, name)))
    ensures Entries(StripAll(Others(lines, name))) == Rest(Entries(lines), name)
    ensures Others(lines, name) != lines <==> Enrolled(Entries(lines), name)
  {
    if lines != [] {
      NoBadCons(lines);
      EntriesOfOthers(lines[1..], name);
      LineOfDevice(lines[0], name);
      SaysStripCr(lines[0]);
      var rest := Others(lines[1..], name);
      OthersCons(lines, name);
      EntriesCons(lines);
      if !IsLineOf(lines[0], name) {
        StripCons(lines[0], rest);
        NoBadCons([StripCr(lines[0])] + StripAll(rest));
        EntriesCons([StripCr(lines[0])] + StripAll(rest));
        RestCons(Says(lines[0]), Entries(lines[1..]), name);
      } else {
        RestCons(Says(lines[0]), Entries(lines[1..]), name);
        OthersShorter(lines, name);
        OthersShorter(lines[1..], name);
      }
      EnrolledCons(lines, name);
    }
  }

  lemma OthersCons(lines: seq<string>, name: string)
    requires lines != []
    ensures IsLineOf(lines[0], name) ==> Others(lines, name) == Others(lines[1..], name)
    ensures !IsLineOf(lines[0], name) ==> Others(lines, name) == [lines[0]] + Others(lines[1..], name)
    ensures !IsLineOf(lines[0], name) ==> (Others(lines, name) == lines <==> Others(lines[1..], name) == lines[1..])
  {
    assert [] + Others(lines[1..], name) == Others(lines[1..], name);
    assert lines == [lines[0]] + lines[1..];
    assert ([lines[0]] + Others(lines[1..], name))[1..] == Others(lines[1..], name);
  }

  lemma StripCons(l: string, ls: seq<string>)
    ensures StripAll([l] + ls) == [StripCr(l)] + StripAll(ls)
    ensures ([StripCr(l)] + StripAll(ls))[1..] == StripAll(ls)
  {
  }

  lemma EntriesCons(lines: seq<string>)
    requires lines != []
    ensures Entries(lines) == if Says(lines[0]).Entry? then [Says(lines[0]).credential] + Entries(lines[1..]) else Entries(lines[1..])
  {
    assert [] + Entries(lines[1..]) == Entries(lines[1..]);
  }

  lemma RestCons(said: Line, cs: seq<Credential>, name: string)
    ensures said.Entry? ==> Rest([said.credential] + cs, name) ==
                            if said.credential.device == name then Rest(cs, name) else [said.credential] + Rest(cs, name)
  {
    if said.Entry? {
      assert ([said.credential] + cs)[1..] == cs;
      assert [] + Rest(cs, name) == Rest(cs, name);
    }
  }

  lemma EnrolledCons(lines: seq<string>, name: string)
    requires lines != []
    ensures Enrolled(Entries(lines), name) <==>
            (Says(lines[0]).Entry? && Says(lines[0]).credential.device == name) || Enrolled(Entries(lines[1..]), name)
  {
    EntriesCons(lines);
    var rest := Entries(lines[1..]);
    if Says(lines[0]).Entry? {
      var c := Says(lines[0]).credential;
      assert ([c] + rest)[0] == c;
      assert forall i :: 0 <= i < |rest| ==> ([c] + rest)[i + 1] == rest[i];
    }
  }

  lemma {:induction false} OthersHaveNoFeed(lines: seq<string>, name: string)
    requires forall i :: 0 <= i < |lines| ==> '\n' !in lines[i]
    ensures forall i :: 0 <= i < |Others(lines, name)| ==> '\n' !in Others(lines, name)[i]
  {
    if lines != [] {
      assert '\n' !in lines[0];
      forall i | 0 <= i < |lines[1..]|
        ensures '\n' !in lines[1..][i]
      {
        assert lines[1..][i] == lines[i + 1];
      }
      OthersHaveNoFeed(lines[1..], name);
    }
  }

  lemma {:induction false} RestIs(cs: seq<Credential>, name: string)
    ensures !Enrolled(Rest(cs, name), name)
    ensures forall c :: c in Rest(cs, name) <==> c in cs && c.device != name
    ensures DistinctNames(cs) ==> DistinctNames(Rest(cs, name))
  {
    if cs != [] {
      RestIs(cs[1..], name);
      assert cs == [cs[0]] + cs[1..];
      if DistinctNames(cs) {
        HeadIsApart(cs);
        DistinctCons(cs[0], Rest(cs[1..], name));
      }
    }
  }

  /** In distinct entries nothing after the first one has its name. */
  lemma HeadIsApart(cs: seq<Credential>)
    requires cs != [] && DistinctNames(cs)
    ensures DistinctNames(cs[1..])
    ensures forall c :: c in cs[1..] ==> c.device != cs[0].device
  {
    forall c | c in cs[1..]
      ensures c.device != cs[0].device
    {
      var j :| 0 <= j < |cs[1..]| && cs[1..][j] == c;
      assert cs[j + 1] == c;
    }
  }

  lemma DistinctCons(c: Credential, cs: seq<Credential>)
    requires DistinctNames(cs) && forall d :: d in cs ==> d.device != c.device
    ensures DistinctNames([c] + cs)
  {
  }

  /**
   On any readable store a revocation finds the device exactly when it is enrolled, and the
   new text holds every other line in order, up to a carriage return at its end, and reads as
   the store without that device.
   */
  lemma RevokeExactly(text: string, name: string)
    requires Store(text).Ok?
    ensures Others(Lines(text), name) != Lines(text) <==> Enrolled(Store(text).value, name)
    ensures Lines(Unlines(Others(Lines(text), name))) == StripAll(Others(Lines(text), name))
    ensures Store(Unlines(Others(Lines(text), name))) == Ok(Rest(Store(text).value, name))
  {
    StoreExactly(text);
    EntriesOfOthers(Lines(text), name);
    LinesHaveNoFeed(text);
    OthersHaveNoFeed(Lines(text), name);
    LinesOfUnlines(Others(Lines(text), name));
    StoreExactly(Unlines(Others(Lines(text), name)));
    RestIs(Store(text).value, name);
  }

  // ---------------------------------------------------------------- any run of enrolments and revocations

  datatype Op = Enrols(name: string, secret: string) | Revokes(name: string)

  function FileStep(file: Option<string>, op: Op): Option<string> {
    match op
    case Enrols(name, secret) =>
      if NewDeviceName(name).Ok? && Load(file).Ok? && !Enrolled(Load(file).value, name)
      then Some(Appended(Contents(file), name, secret)) else file
    case Revokes(name) =>
      if NewDeviceName(name).Ok? && file.Some? && Load(file).Ok? && Others(Lines(file.value), name) != Lines(file.value)
      then Some(Unlines(Others(Lines(file.value), name))) else file
  }

  function FileAfter(ops: seq<Op>): Option<string> {
    if ops == [] then None else FileStep(FileAfter(ops[..|ops| - 1]), ops[|ops| - 1])
  }

  /** What the same operations do to a plain map from names to secrets. */
  function MapAfter(ops: seq<Op>): map<string, string> {
    if ops == [] then map[]
    else
      var m := MapAfter(ops[..|ops| - 1]);
      match ops[|ops| - 1]
      case Enrols(name, secret) => if NewDeviceName(name).Ok? && name !in m then m[name := secret] else m
      case Revokes(name) => m - {name}
  }

  predicate Sound(op: Op) {
    op.Enrols? ==> IsSecret(op.secret) && (op.name != "" ==> op.name[0] != '#')
  }

  predicate AllSound(ops: seq<Op>) {
    forall i :: 0 <= i < |ops| ==> Sound(ops[i])
  }

  /** The file holds exactly the map: whole lines, distinct names, the same pairs. */
  ghost predicate Holds(file: Option<string>, m: map<string, string>) {
    && Complete(Contents(file)) && Load(file).Ok? && DistinctNames(Load(file).value)
    && (forall c :: c in Load(file).value <==> c.device in m && m[c.device] == c.secret)
  }

  lemma EnrolledIsKey(file: Option<string>, m: map<string, string>, name: string)
    requires Holds(file, m)
    ensures Enrolled(Load(file).value, name) <==> name in m
  {
    var cs := Load(file).value;
    if name in m {
      assert Credential(name, m[name]) in cs;
    }
    if Enrolled(cs, name) {
      var i :| 0 <= i < |cs| && cs[i].device == name;
      assert cs[i] in cs;
    }
  }

  lemma EnrolHolds(file: Option<string>, m: map<string, string>, name: string, secret: string)
    requires Holds(file, m) && Sound(Enrols(name, secret)) && NewDeviceName(name).Ok? && name !in m
    ensures Holds(Some(Appended(Contents(file), name, secret)), m[name := secret])
  {
    EnrolledIsKey(file, m, name);
    EmptyStore();
    var text := Contents(file);
    assert text + "" == text;
    EnrolAfter(text, "", name, secret);
    DistinctOneMore(Load(file).value, Credential(name, secret));
  }

  lemma EmptyStore()
    ensures Store("") == Ok([])
  {
    StoreExactly("");
  }

  lemma RevokeHolds(file: Option<string>, m: map<string, string>, name: string)
    requires Holds(file, m)
    ensures Holds(FileStep(file, Revokes(name)), m - {name})
  {
    EnrolledIsKey(file, m, name);
    if name !in m {
      assert m - {name} == m;
    }
    if file.Some? {
      RevokeExactly(file.value, name);
      RestIs(Store(file.value).value, name);
      UnlinesComplete(Others(Lines(file.value), name));
    }
    if NewDeviceName(name).Err? && name in m {
      KeysAreNames(file, m, name);
    }
  }

  lemma KeysAreNames(file: Option<string>, m: map<string, string>, name: string)
    requires Holds(file, m) && name in m
    ensures file.Some? && NewDeviceName(name).Ok?
  {
    assert Credential(name, m[name]) in Load(file).value;
    StoreExactly(file.value);
    EntriesAreNames(Lines(file.value), Credential(name, m[name]));
  }

  lemma {:induction false} EntriesAreNames(lines: seq<string>, c: Credential)
    requires c in Entries(lines)
    ensures NewDeviceName(c.device).Ok?
  {
    EntriesCons(lines);
    if !(Says(lines[0]).Entry? && Says(lines[0]).credential == c) {
      EntriesAreNames(lines[1..], c);
    }
  }

  /**
   Any run of enrolments and revocations from no file, with minted secrets and names that do
   not start with `#`, keeps a file that reads as exactly the map the same run builds.
   */
  lemma {:induction false} RunIsMap(ops: seq<Op>)
    requires AllSound(ops)
    ensures Holds(FileAfter(ops), MapAfter(ops))
  {
    if ops != [] {
      var before, op := ops[..|ops| - 1], ops[|ops| - 1];
      RunIsMap(before);
      assert Sound(op);
      var file, m := FileAfter(before), MapAfter(before);
      match op {
        case Enrols(name, secret) =>
          EnrolledIsKey(file, m, name);
          if NewDeviceName(name).Ok? && name !in m {
            EnrolHolds(file, m, name, secret);
          }
        case Revokes(name) => RevokeHolds(file, m, name);
      }
    }
  }

  /** No secret is minted twice. */
  predicate MintedOnce(ops: seq<Op>) {
    forall i, j :: 0 <= i < j < |ops| && ops[i].Enrols? && ops[j].Enrols? ==> ops[i].secret != ops[j].secret
  }

  predicate Minted(ops: seq<Op>, secret: string) {
    exists i :: 0 <= i < |ops| && ops[i].Enrols? && ops[i].secret == secret
  }

  lemma {:induction false} SecretsDiffer(ops: seq<Op>)
    requires MintedOnce(ops)
    ensures forall d :: d in MapAfter(ops) ==> Minted(ops, MapAfter(ops)[d])
    ensures forall d, e :: d in MapAfter(ops) && e in MapAfter(ops) && d != e ==> MapAfter(ops)[d] != MapAfter(ops)[e]
  {
    if ops != [] {
      var before := ops[..|ops| - 1];
      SecretsDiffer(before);
      forall d | d in MapAfter(before)
        ensures Minted(ops, MapAfter(before)[d])
        ensures ops[|ops| - 1].Enrols? ==> MapAfter(before)[d] != ops[|ops| - 1].secret
      {
        var i :| 0 <= i < |before| && before[i].Enrols? && before[i].secret == MapAfter(before)[d];
        assert ops[i] == before[i];
      }
    }
  }

  lemma {:induction false} LastWithIs(cs: seq<Credential>, secret: string)
    ensures LastWith(cs, secret).Some? ==> Credential(LastWith(cs, secret).value, secret) in cs
    ensures LastWith(cs, secret).None? ==> forall c :: c in cs ==> c.secret != secret
  {
    if cs != [] {
      LastWithIs(cs[..|cs| - 1], secret);
      assert cs == cs[..|cs| - 1] + [cs[|cs| - 1]];
    }
  }

  /** After such a run an offered secret is answered with a device exactly when the map gives that device that secret. */
  lemma VerifyIsMap(ops: seq<Op>, offered: string, device: string)
    requires AllSound(ops) && MintedOnce(ops)
    ensures Load(FileAfter(ops)).Ok?
    ensures LastWith(Load(FileAfter(ops)).value, offered) == Some(device) <==>
            device in MapAfter(ops) && MapAfter(ops)[device] == offered
  {
    RunIsMap(ops);
    SecretsDiffer(ops);
    var cs, m := Load(FileAfter(ops)).value, MapAfter(ops);
    LastWithIs(cs, offered);
    if device in m && m[device] == offered {
      assert Credential(device, offered) in cs;
    }
  }
}
