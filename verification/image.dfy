/** What a verified image is said to be, as text: `core/src/image.rs`. */
module ImageManifest {
  import opened Wrappers
  import opened Text

  datatype Key = Name | Version | Kernel | Compatible | MaxChargeMv

  datatype Manifest = Manifest(name: string, version: string, kernel: string, compatible: string, maxChargeMv: u32)

  datatype ImageError = NotAManifest | UnknownKey(word: string) | DuplicateKey(key: Key) | MissingKey(key: Key)
                      | Blank(key: Key) | NotANumber(key: Key) | ExtraWords(key: Key) | NoCeiling

  const HEADER := "vayucell image manifest 1"

  function KeyText(k: Key): string {
    match k
    case Name => "name"
    case Version => "version"
    case Kernel => "kernel"
    case Compatible => "compatible"
    case MaxChargeMv => "max-charge-mv"
  }

  function KeyOf(word: string): (r: Option<Key>)
    ensures r.Some? ==> KeyText(r.value) == word
    ensures forall k :: KeyText(k) == word ==> r == Some(k)
  {
    if word == "name" then Some(Name)
    else if word == "version" then Some(Version)
    else if word == "kernel" then Some(Kernel)
    else if word == "compatible" then Some(Compatible)
    else if word == "max-charge-mv" then Some(MaxChargeMv)
    else None
  }

  // ---------------------------------------------------------------- building

  /** A required text, trimmed, refused when nothing is left. */
  function Field(value: string, key: Key): Result<string, ImageError> {
    if Trim(value) == "" then Err(Blank(key)) else Ok(Trim(value))
  }

  /** A missing ceiling is named before any blank text, and the texts in the order they are written. */
  function New(name: string, version: string, kernel: string, compatible: string, mv: u32): Result<Manifest, ImageError> {
    if mv == 0 then Err(NoCeiling)
    else if Field(name, Name).Err? then Err(Blank(Name))
    else if Field(version, Version).Err? then Err(Blank(Version))
    else if Field(kernel, Kernel).Err? then Err(Blank(Kernel))
    else if Field(compatible, Compatible).Err? then Err(Blank(Compatible))
    else Ok(Manifest(Trim(name), Trim(version), Trim(kernel), Trim(compatible), mv))
  }

  /** What every constructed manifest is: no blank text, nothing to trim, and a ceiling. */
  predicate Constructed(m: Manifest) {
    && m.maxChargeMv > 0
    && m.name != "" && m.version != "" && m.kernel != "" && m.compatible != ""
    && Trimmed(m.name) && Trimmed(m.version) && Trimmed(m.kernel) && Trimmed(m.compatible)
  }

  /** The text is this one with white space around it, and this one is not blank. */
  ghost predicate Padded(value: string, text: string) {
    text != "" && Trimmed(text) && exists a, z :: AllSpace(a) && AllSpace(z) && value == a + text + z
  }

  lemma FieldExactly(value: string, key: Key, text: string)
    ensures Field(value, key) == Ok(text) <==> Padded(value, text)
    ensures Field(value, key) == Err(Blank(key)) <==> AllSpace(value)
  {
    NoWords(value);
    var a, z := TrimSplits(value);
    forall b, y | AllSpace(b) && AllSpace(y) && value == b + text + y && Trimmed(text)
      ensures Trim(value) == text
    {
      TrimPadded(b, text, y);
    }
  }

  /** What is built of five values: the texts without the white space around them, none blank, and a ceiling. */
  lemma NewExactly(name: string, version: string, kernel: string, compatible: string, mv: u32, m: Manifest)
    ensures New(name, version, kernel, compatible, mv) == Ok(m) <==>
            && m.maxChargeMv == mv && mv > 0
            && Padded(name, m.name) && Padded(version, m.version) && Padded(kernel, m.kernel) && Padded(compatible, m.compatible)
  {
    FieldExactly(name, Name, m.name);
    FieldExactly(version, Version, m.version);
    FieldExactly(kernel, Kernel, m.kernel);
    FieldExactly(compatible, Compatible, m.compatible);
  }

  /** Which complaint comes first: no ceiling, then the first blank text. */
  lemma NewErrors(name: string, version: string, kernel: string, compatible: string, mv: u32)
    ensures var r := New(name, version, kernel, compatible, mv);
            && (r == Err(NoCeiling) <==> mv == 0)
            && (r == Err(Blank(Name)) <==> mv > 0 && AllSpace(name))
            && (r == Err(Blank(Version)) <==> mv > 0 && !AllSpace(name) && AllSpace(version))
            && (r == Err(Blank(Kernel)) <==> mv > 0 && !AllSpace(name) && !AllSpace(version) && AllSpace(kernel))
            && (r == Err(Blank(Compatible)) <==>
                 mv > 0 && !AllSpace(name) && !AllSpace(version) && !AllSpace(kernel) && AllSpace(compatible))
  {
    NoWords(name);
    NoWords(version);
    NoWords(kernel);
    NoWords(compatible);
  }

  lemma NewIsConstructed(name: string, version: string, kernel: string, compatible: string, mv: u32)
    ensures var r := New(name, version, kernel, compatible, mv); r.Ok? ==> Constructed(r.value)
  {
    var a0, z0 := TrimSplits(name);
    var a1, z1 := TrimSplits(version);
    var a2, z2 := TrimSplits(kernel);
    var a3, z3 := TrimSplits(compatible);
  }

  /** Every such value is constructible, from itself. */
  lemma ConstructedIsNew(m: Manifest)
    requires Constructed(m)
    ensures New(m.name, m.version, m.kernel, m.compatible, m.maxChargeMv) == Ok(m)
  {
    TrimOfTrimmed(m.name);
    TrimOfTrimmed(m.version);
    TrimOfTrimmed(m.kernel);
    TrimOfTrimmed(m.compatible);
  }

  // ---------------------------------------------------------------- reading

  type Said = map<Key, string>

  function CeilingOf(word: string): Option<nat> {
    ParseUnsigned(word, U32_MAX)
  }

  /** What one line comes to, from its words alone. */
  datatype Entry = Empty | Gives(key: Key, value: string) | Refused(error: ImageError)

  function EntryOf(words: seq<string>): Entry {
    if words == [] then Empty
    else match KeyOf(words[0])
      case None => Refused(UnknownKey(words[0]))
      case Some(k) =>
        if |words| == 1 then Refused(Blank(k))
        else if |words| > 2 then Refused(ExtraWords(k))
        else Gives(k, words[1])
  }

  /** A key is given a value by exactly two words, the key's own and the value. */
  lemma EntryExactly(words: seq<string>)
    ensures EntryOf(words) == Empty <==> words == []
    ensures forall k, v :: EntryOf(words) == Gives(k, v) <==> words == [KeyText(k), v]
  {
    forall k, v
      ensures EntryOf(words) == Gives(k, v) <==> words == [KeyText(k), v]
    {
      if EntryOf(words) == Gives(k, v) {
        assert words == [words[0], words[1]];
      }
      if words == [KeyText(k), v] {
        assert KeyOf(KeyText(k)) == Some(k);
      }
    }
  }

  /** Why words give no key a value: an unknown first word, nothing after it, or too much. */
  lemma RefusalExactly(words: seq<string>, e: ImageError)
    ensures EntryOf(words) == Refused(e) <==>
            || (words != [] && (forall k :: KeyText(k) != words[0]) && e == UnknownKey(words[0]))
            || exists k :: words != [] && words[0] == KeyText(k) && ((|words| == 1 && e == Blank(k)) || (|words| > 2 && e == ExtraWords(k)))
  {
    if words != [] && KeyOf(words[0]).Some? {
      assert words[0] == KeyText(KeyOf(words[0]).value);
    }
  }

  function Entries(lines: seq<string>): (es: seq<Entry>)
    ensures |es| == |lines|
  {
    if lines == [] then [] else Entries(lines[..|lines| - 1]) + [EntryOf(Words(lines[|lines| - 1]))]
  }

  lemma {:induction false} EntryAt(lines: seq<string>, i: nat)
    requires i < |lines|
    ensures Entries(lines)[i] == EntryOf(Words(lines[i]))
  {
    if i < |lines| - 1 {
      EntryAt(lines[..|lines| - 1], i);
    }
  }

  function ReadEntry(e: Entry, said: Said): Result<Said, ImageError> {
    match e
    case Empty => Ok(said)
    case Refused(error) => Err(error)
    case Gives(k, v) =>
      if k in said then Err(DuplicateKey(k))
      else if k == MaxChargeMv && CeilingOf(v).None? then Err(NotANumber(k))
      else Ok(said[k := v])
  }

  function ReadEntries(es: seq<Entry>): Result<Said, ImageError> {
    if es == [] then Ok(map[])
    else match ReadEntries(es[..|es| - 1])
      case Err(e) => Err(e)
      case Ok(said) => ReadEntry(es[|es| - 1], said)
  }

  function Finish(said: Said): Result<Manifest, ImageError> {
    if Name !in said then Err(MissingKey(Name))
    else if Version !in said then Err(MissingKey(Version))
    else if Kernel !in said then Err(MissingKey(Kernel))
    else if Compatible !in said then Err(MissingKey(Compatible))
    else if MaxChargeMv !in said then Err(MissingKey(MaxChargeMv))
    else match CeilingOf(said[MaxChargeMv])
      case None => Err(NotANumber(MaxChargeMv))
      case Some(mv) => New(said[Name], said[Version], said[Kernel], said[Compatible], mv)
  }

  function ParseText(text: string): Result<Manifest, ImageError> {
    var lines := Lines(text);
    if lines == [] || Trim(lines[0]) != HEADER then Err(NotAManifest)
    else match ReadEntries(Entries(lines[1..]))
      case Err(e) => Err(e)
      case Ok(said) => Finish(said)
  }

  function Slot(said: Said, k: Key): Option<string> {
    if k in said then Some(said[k]) else None
  }

  method SetOnce(slot: Option<string>, value: string, key: Key) returns (r: Result<Option<string>, ImageError>)
    ensures r == if slot.Some? then Err(DuplicateKey(key)) else Ok(Some(value))
  {
    if slot.Some? {
      return Err(DuplicateKey(key));
    }
    return Ok(Some(value));
  }

  method SetMillivolts(slot: Option<nat>, value: string, key: Key) returns (r: Result<Option<nat>, ImageError>)
    ensures r == if slot.Some? then Err(DuplicateKey(key))
                 else if CeilingOf(value).None? then Err(NotANumber(key))
                 else Ok(CeilingOf(value))
  {
    if slot.Some? {
      return Err(DuplicateKey(key));
    }
    var millivolts := CeilingOf(value);
    return if millivolts.None? then Err(NotANumber(key)) else Ok(millivolts);
  }

  /** The slots of the source, one for every key. */
  datatype Slots = Slots(name: Option<string>, version: Option<string>, kernel: Option<string>, compatible: Option<string>,
                         maxChargeMv: Option<nat>)

  predicate Fills(slots: Slots, said: Said) {
    && slots.name == Slot(said, Name) && slots.version == Slot(said, Version)
    && slots.kernel == Slot(said, Kernel) && slots.compatible == Slot(said, Compatible)
    && (MaxChargeMv in said ==> CeilingOf(said[MaxChargeMv]).Some?)
    && slots.maxChargeMv == if MaxChargeMv in said then CeilingOf(said[MaxChargeMv]) else None
  }

  method Put(slots: Slots, key: Key, value: string) returns (r: Result<Slots, ImageError>)
    ensures forall said :: Fills(slots, said) ==>
      && (key in said ==> r == Err(DuplicateKey(key)))
      && (key !in said && key == MaxChargeMv && CeilingOf(value).None? ==> r == Err(NotANumber(key)))
      && (key !in said && (key == MaxChargeMv ==> CeilingOf(value).Some?) ==> r.Ok? && Fills(r.value, said[key := value]))
  {
    match key {
      case Name => {
        var s := SetOnce(slots.name, value, key);
        return if s.Err? then Err(s.error) else Ok(slots.(name := s.value));
      }
      case Version => {
        var s := SetOnce(slots.version, value, key);
        return if s.Err? then Err(s.error) else Ok(slots.(version := s.value));
      }
      case Kernel => {
        var s := SetOnce(slots.kernel, value, key);
        return if s.Err? then Err(s.error) else Ok(slots.(kernel := s.value));
      }
      case Compatible => {
        var s := SetOnce(slots.compatible, value, key);
        return if s.Err? then Err(s.error) else Ok(slots.(compatible := s.value));
      }
      case MaxChargeMv => {
        var s := SetMillivolts(slots.maxChargeMv, value, key);
        return if s.Err? then Err(s.error) else Ok(slots.(maxChargeMv := s.value));
      }
    }
  }

  method TakeLine(raw: string, slots: Slots, ghost said: Said) returns (r: Result<Slots, ImageError>)
    requires Fills(slots, said)
    ensures match ReadEntry(EntryOf(Words(raw)), said)
            case Err(e) => r == Err(e)
            case Ok(next) => r.Ok? && Fills(r.value, next)
  {
    WordsTrim(raw);
    NoWords(raw);
    var line := Trim(raw);
    if line == "" {
      return Ok(slots);
    }
    var words := Words(line);
    var key := KeyOf(words[0]);
    if key.None? {
      return Err(UnknownKey(words[0]));
    }
    if |words| < 2 {
      return Err(Blank(key.value));
    }
    if |words| > 2 {
      return Err(ExtraWords(key.value));
    }
    r := Put(slots, key.value, words[1]);
  }

  lemma {:induction false} ErrorStays(es: seq<Entry>, k: nat)
    requires k <= |es| && ReadEntries(es[..k]).Err?
    ensures ReadEntries(es) == ReadEntries(es[..k])
    decreases |es|
  {
    if k < |es| {
      var n := |es| - 1;
      assert es[..n][..k] == es[..k];
      ErrorStays(es[..n], k);
    } else {
      assert es[..k] == es;
    }
  }

  lemma ReadNext(es: seq<Entry>, k: nat, said: Said)
    requires k < |es| && ReadEntries(es[..k]) == Ok(said)
    ensures ReadEntries(es[..k + 1]) == ReadEntry(es[k], said)
    ensures ReadEntry(es[k], said).Err? ==> ReadEntries(es) == ReadEntry(es[k], said)
  {
    assert es[..k + 1][..k] == es[..k];
    if ReadEntry(es[k], said).Err? {
      ErrorStays(es, k + 1);
    }
  }

  method TakeLines(lines: seq<string>) returns (r: Result<Slots, ImageError>)
    ensures match ReadEntries(Entries(lines))
            case Err(e) => r == Err(e)
            case Ok(said) => r.Ok? && Fills(r.value, said)
  {
    var slots := Slots(None, None, None, None, None);
    ghost var said: Said := map[];
    ghost var es := Entries(lines);
    for k := 0 to |lines|
      invariant ReadEntries(es[..k]) == Ok(said) && Fills(slots, said)
    {
      ReadNext(es, k, said);
      EntryAt(lines, k);
      var taken := TakeLine(lines[k], slots, said);
      if taken.Err? {
        return Err(taken.error);
      }
      slots := taken.value;
      said := ReadEntry(es[k], said).value;
    }
    assert es[..|lines|] == es;
    return Ok(slots);
  }

  method Parse(text: string) returns (r: Result<Manifest, ImageError>)
    ensures r == ParseText(text)
  {
    var lines := Lines(text);
    var header := Trim(if lines == [] then "" else lines[0]);
    if header != HEADER {
      return Err(NotAManifest);
    }
    var taken := TakeLines(lines[1..]);
    if taken.Err? {
      return Err(taken.error);
    }
    var slots := taken.value;
    if slots.name.None? {
      return Err(MissingKey(Name));
    }
    if slots.version.None? {
      return Err(MissingKey(Version));
    }
    if slots.kernel.None? {
      return Err(MissingKey(Kernel));
    }
    if slots.compatible.None? {
      return Err(MissingKey(Compatible));
    }
    if slots.maxChargeMv.None? {
      return Err(MissingKey(MaxChargeMv));
    }
    return New(slots.name.value, slots.version.value, slots.kernel.value, slots.compatible.value, slots.maxChargeMv.value);
  }

  // ---------------------------------------------------------------- writing

  function ValueOf(m: Manifest, k: Key): string {
    match k
    case Name => m.name
    case Version => m.version
    case Kernel => m.kernel
    case Compatible => m.compatible
    case MaxChargeMv => Dec(m.maxChargeMv)
  }

  function LineOf(m: Manifest, k: Key): string {
    KeyText(k) + " " + ValueOf(m, k)
  }

  function Body(m: Manifest): seq<string> {
    [LineOf(m, Name), LineOf(m, Version), LineOf(m, Kernel), LineOf(m, Compatible), LineOf(m, MaxChargeMv)]
  }

  function Render(m: Manifest): string {
    Unlines([HEADER] + Body(m))
  }

  lemma FiveLines(a: string, b: string, c: string, d: string, e: string, f: string)
    ensures Unlines([a, b, c, d, e, f]) == a + "\n" + (b + "\n" + (c + "\n" + (d + "\n" + (e + "\n" + (f + "\n")))))
  {
    assert [a, b, c, d, e, f][1..] == [b, c, d, e, f] && [b, c, d, e, f][1..] == [c, d, e, f];
    assert [c, d, e, f][1..] == [d, e, f] && [d, e, f][1..] == [e, f] && [e, f][1..] == [f] && [f][1..] == [];
    assert f + "\n" + "" == f + "\n";
    assert Unlines([e, f]) == e + "\n" + Unlines([f]);
    assert Unlines([d, e, f]) == d + "\n" + Unlines([e, f]);
    assert Unlines([c, d, e, f]) == c + "\n" + Unlines([d, e, f]);
  }

  /** The text of a manifest, character for character. */
  lemma RenderIs(m: Manifest)
    ensures Render(m) ==
            "vayucell image manifest 1" + "\n" + ("name " + m.name + "\n" + ("version " + m.version + "\n" + ("kernel " + m.kernel + "\n"
            + ("compatible " + m.compatible + "\n" + ("max-charge-mv " + Dec(m.maxChargeMv) + "\n")))))
  {
    var name, version, kernel := LineOf(m, Name), LineOf(m, Version), LineOf(m, Kernel);
    var compatible, mv := LineOf(m, Compatible), LineOf(m, MaxChargeMv);
    FiveLines(HEADER, name, version, kernel, compatible, mv);
    assert [HEADER] + Body(m) == [HEADER, name, version, kernel, compatible, mv];
    assert "name" + " " == "name " && "version" + " " == "version " && "kernel" + " " == "kernel ";
    assert "compatible" + " " == "compatible " && "max-charge-mv" + " " == "max-charge-mv ";
  }

  // ---------------------------------------------------------------- which texts are manifests

  predicate OnceEach(es: seq<Entry>) {
    forall i, j :: 0 <= i < j < |es| && es[i].Gives? && es[j].Gives? ==> es[i].key != es[j].key
  }

  predicate Given(es: seq<Entry>, k: Key) {
    exists i :: 0 <= i < |es| && es[i].Gives? && es[i].key == k
  }

  predicate Agrees(e: Entry, said: Said) {
    e.Empty? || (e.Gives? && e.key in said && said[e.key] == e.value)
  }

  /** What was read is exactly what the lines say, and every line but the blank ones says one thing. */
  predicate SaysExactly(es: seq<Entry>, said: Said) {
    && (forall i :: 0 <= i < |es| ==> Agrees(es[i], said))
    && (forall k :: k in said ==> Given(es, k))
    && OnceEach(es)
    && (MaxChargeMv in said ==> CeilingOf(said[MaxChargeMv]).Some?)
  }

  lemma GivenMore(es: seq<Entry>, e: Entry, k: Key)
    ensures Given(es + [e], k) <==> Given(es, k) || (e.Gives? && e.key == k)
  {
    var all := es + [e];
    assert all[|es|] == e;
    if Given(es, k) {
      var i :| 0 <= i < |es| && es[i].Gives? && es[i].key == k;
      assert all[i] == es[i];
    }
  }

  lemma OnceMore(es: seq<Entry>, e: Entry)
    ensures OnceEach(es + [e]) <==> OnceEach(es) && (e.Gives? ==> !Given(es, e.key))
  {
    var all := es + [e];
    assert all[|es|] == e;
    if OnceEach(all) {
      forall i, j | 0 <= i < j < |es| && es[i].Gives? && es[j].Gives?
        ensures es[i].key != es[j].key
      {
        assert all[i] == es[i] && all[j] == es[j];
      }
      forall i | 0 <= i < |es| && e.Gives? && es[i].Gives?
        ensures es[i].key != e.key
      {
        assert all[i] == es[i];
      }
    }
  }

  lemma AgreesMore(es: seq<Entry>, e: Entry, said: Said)
    ensures (forall i :: 0 <= i < |es + [e]| ==> Agrees((es + [e])[i], said)) <==>
            (forall i :: 0 <= i < |es| ==> Agrees(es[i], said)) && Agrees(e, said)
  {
    var all := es + [e];
    assert all[|es|] == e;
    assert forall i :: 0 <= i < |es| ==> all[i] == es[i];
  }

  /** One more line said exactly one more thing, or nothing. */
  lemma SaysMore(es: seq<Entry>, e: Entry, said: Said)
    ensures SaysExactly(es + [e], said) <==>
            match e
            case Empty => SaysExactly(es, said)
            case Refused(_) => false
            case Gives(k, v) =>
              && k in said && said[k] == v && SaysExactly(es, said - {k})
              && (k == MaxChargeMv ==> CeilingOf(v).Some?)
  {
    OnceMore(es, e);
    AgreesMore(es, e, said);
    forall k
      ensures Given(es + [e], k) <==> Given(es, k) || (e.Gives? && e.key == k)
    {
      GivenMore(es, e, k);
    }
    if e.Gives? {
      var rest := said - {e.key};
      assert OnceEach(es + [e]) ==> forall i :: 0 <= i < |es| && Agrees(es[i], said) ==> Agrees(es[i], rest);
      assert forall i :: 0 <= i < |es| && Agrees(es[i], rest) ==> Agrees(es[i], said);
      assert (forall i :: 0 <= i < |es| ==> Agrees(es[i], rest)) ==> !Given(es, e.key);
    }
  }

  /** The lines are read without complaint exactly when they say each thing once and nothing else. */
  lemma {:induction false} ReadExactly(es: seq<Entry>, said: Said)
    ensures ReadEntries(es) == Ok(said) <==> SaysExactly(es, said)
    decreases |es|, 1
  {
    if es == [] {
      assert said == map[] <==> forall k :: k in said ==> Given(es, k);
    } else {
      var n := |es| - 1;
      var before, e := es[..n], es[n];
      assert es == before + [e];
      SaysMore(before, e, said);
      match e {
        case Empty => ReadExactly(before, said);
        case Refused(_) =>
        case Gives(k, v) => ReadGives(before, k, v, said);
      }
    }
  }

  lemma ReadGives(before: seq<Entry>, k: Key, v: string, said: Said)
    ensures (ReadEntries(before).Ok? && ReadEntry(Gives(k, v), ReadEntries(before).value) == Ok(said)) <==>
            && k in said && said[k] == v && SaysExactly(before, said - {k})
            && (k == MaxChargeMv ==> CeilingOf(v).Some?)
    decreases |before|, 2
  {
    ReadExactly(before, said - {k});
    if ReadEntries(before).Ok? && k !in ReadEntries(before).value {
      assert ReadEntries(before).value[k := v] - {k} == ReadEntries(before).value;
    }
    if k in said && said[k] == v {
      assert (said - {k})[k := v] == said;
    }
  }

  /** Entry `k` is the first one that cannot be taken, and why. */
  ghost predicate FirstFault(es: seq<Entry>, k: nat, error: ImageError) {
    && k < |es| && (exists said :: SaysExactly(es[..k], said))
    && match es[k]
       case Empty => false
       case Refused(e) => error == e
       case Gives(key, v) =>
         if Given(es[..k], key) then error == DuplicateKey(key)
         else key == MaxChargeMv && CeilingOf(v).None? && error == NotANumber(MaxChargeMv)
  }

  lemma FaultAt(es: seq<Entry>, k: nat, error: ImageError)
    requires k < |es| && ReadEntries(es[..k]).Ok?
    ensures FirstFault(es, k, error) <==> ReadEntry(es[k], ReadEntries(es[..k]).value) == Err(error)
  {
    var said := ReadEntries(es[..k]).value;
    ReadExactly(es[..k], said);
    assert es[k].Gives? && es[k].key in said ==> Given(es[..k], es[k].key);
  }

  lemma {:induction false} FaultIn(es: seq<Entry>) returns (k: nat)
    requires ReadEntries(es).Err?
    ensures k < |es| && ReadEntries(es[..k]).Ok? && ReadEntry(es[k], ReadEntries(es[..k]).value) == Err(ReadEntries(es).error)
  {
    var n := |es| - 1;
    if ReadEntries(es[..n]).Err? {
      k := FaultIn(es[..n]);
      assert es[..n][..k] == es[..k];
    } else {
      k := n;
    }
  }

  /** The lines are refused exactly for the first of them that cannot be taken. */
  lemma FaultExactly(es: seq<Entry>, error: ImageError)
    ensures ReadEntries(es) == Err(error) <==> exists k: nat :: FirstFault(es, k, error)
  {
    if ReadEntries(es) == Err(error) {
      var k := FaultIn(es);
      FaultAt(es, k, error);
    }
    forall k: nat | FirstFault(es, k, error)
      ensures ReadEntries(es) == Err(error)
    {
      var said :| SaysExactly(es[..k], said);
      ReadExactly(es[..k], said);
      FaultAt(es, k, error);
      ReadNext(es, k, said);
    }
  }

  /** Of the keys that are not given the first is complained about, and a ceiling of zero after all of them. */
  lemma FinishErrors(said: Said)
    requires SaidWords(said) && (MaxChargeMv in said ==> CeilingOf(said[MaxChargeMv]).Some?)
    ensures Finish(said) == Err(MissingKey(Name)) <==> Name !in said
    ensures Finish(said) == Err(MissingKey(Version)) <==> Name in said && Version !in said
    ensures Finish(said) == Err(MissingKey(Kernel)) <==> Name in said && Version in said && Kernel !in said
    ensures Finish(said) == Err(MissingKey(Compatible)) <==> Name in said && Version in said && Kernel in said && Compatible !in said
    ensures Finish(said) == Err(MissingKey(MaxChargeMv)) <==>
            Name in said && Version in said && Kernel in said && Compatible in said && MaxChargeMv !in said
    ensures Finish(said) == Err(NoCeiling) <==> Complete(said) && CeilingOf(said[MaxChargeMv]) == Some(0)
  {
    if Complete(said) {
      WordTrims(said[Name]);
      WordTrims(said[Version]);
      WordTrims(said[Kernel]);
      WordTrims(said[Compatible]);
    }
  }

  /** The value a line may give a key so that the manifest `m` comes of it. */
  predicate Fits(m: Manifest, k: Key, value: string) {
    if k == MaxChargeMv then ParseUnsigned(value, 0xFFFF_FFFF) == Some(m.maxChargeMv) else value == ValueOf(m, k)
  }

  predicate EachFits(es: seq<Entry>, m: Manifest) {
    forall i :: 0 <= i < |es| ==> es[i].Empty? || (es[i].Gives? && Fits(m, es[i].key, es[i].value))
  }

  predicate AllGiven(es: seq<Entry>) {
    Given(es, Name) && Given(es, Version) && Given(es, Kernel) && Given(es, Compatible) && Given(es, MaxChargeMv)
  }

  /**
   A text describes a manifest: its first line is the header, every other line is blank or
   gives one key a value that fits, every key is given, and none is given twice.
   */
  predicate Describes(text: string, m: Manifest) {
    var lines := Lines(text);
    && lines != [] && Trim(lines[0]) == "vayucell image manifest 1"
    && EachFits(Entries(lines[1..]), m) && AllGiven(Entries(lines[1..])) && OnceEach(Entries(lines[1..]))
    && m.maxChargeMv > 0
  }

  predicate Complete(said: Said) {
    Name in said && Version in said && Kernel in said && Compatible in said && MaxChargeMv in said
  }

  predicate SaidWords(said: Said) {
    forall k :: k in said ==> IsWord(said[k])
  }

  lemma WordTrims(w: string)
    requires IsWord(w)
    ensures Trim(w) == w && w != ""
  {
    TrimOfTrimmed(w);
  }

  /** Words need no trimming: what is finished is what was said. */
  lemma FinishExactly(said: Said, m: Manifest)
    requires SaidWords(said)
    ensures Finish(said) == Ok(m) <==>
            Complete(said) && m.maxChargeMv > 0 && forall k :: k in said ==> Fits(m, k, said[k])
  {
    if Complete(said) {
      WordTrims(said[Name]);
      WordTrims(said[Version]);
      WordTrims(said[Kernel]);
      WordTrims(said[Compatible]);
      if m.maxChargeMv > 0 && forall k :: k in said ==> Fits(m, k, said[k]) {
        assert Fits(m, Name, said[Name]) && Fits(m, Version, said[Version]) && Fits(m, Kernel, said[Kernel]);
        assert Fits(m, Compatible, said[Compatible]) && Fits(m, MaxChargeMv, said[MaxChargeMv]);
      }
    }
  }

  lemma EntryIsWord(lines: seq<string>, i: nat)
    requires i < |lines|
    ensures Entries(lines)[i].Gives? ==> IsWord(Entries(lines)[i].value)
  {
    EntryAt(lines, i);
    var ws := Words(lines[i]);
    assert AllWords(ws);
  }

  lemma SaidAreWords(lines: seq<string>, said: Said)
    requires SaysExactly(Entries(lines), said)
    ensures SaidWords(said)
  {
    var es := Entries(lines);
    forall k | k in said
      ensures IsWord(said[k])
    {
      assert Given(es, k);
      var i :| 0 <= i < |es| && es[i].Gives? && es[i].key == k;
      EntryIsWord(lines, i);
    }
  }

  /** What the lines say fits a manifest exactly when each line does. */
  lemma SaidFits(es: seq<Entry>, said: Said, m: Manifest)
    requires SaysExactly(es, said)
    ensures EachFits(es, m) <==> forall k :: k in said ==> Fits(m, k, said[k])
    ensures AllGiven(es) <==> Complete(said)
  {
    forall k | k in said
      ensures exists i :: 0 <= i < |es| && es[i] == Gives(k, said[k])
    {
      assert Given(es, k);
      var i :| 0 <= i < |es| && es[i].Gives? && es[i].key == k;
      assert es[i] == Gives(k, said[k]);
    }
  }

  /** The values a describing text gives, by key. */
  lemma DescribedSays(es: seq<Entry>, m: Manifest) returns (said: Said)
    requires EachFits(es, m) && AllGiven(es) && OnceEach(es)
    ensures SaysExactly(es, said)
  {
    assert Given(es, MaxChargeMv);
    var n :| 0 <= n < |es| && es[n].Gives? && es[n].key == MaxChargeMv;
    said := map[Name := m.name, Version := m.version, Kernel := m.kernel, Compatible := m.compatible,
                MaxChargeMv := es[n].value];
    forall i | 0 <= i < |es| && es[i].Gives?
      ensures es[i].key in said && said[es[i].key] == es[i].value
    {
      assert Fits(m, es[i].key, es[i].value);
      if es[i].key == MaxChargeMv {
        assert i == n;
      }
    }
  }

  /** The parser accepts exactly the texts that describe a manifest, and returns what they describe. */
  lemma ManifestExactly(text: string, m: Manifest)
    ensures ParseText(text) == Ok(m) <==> Describes(text, m)
  {
    var lines := Lines(text);
    if lines != [] {
      var body := lines[1..];
      BodyExactly(body, m);
    }
  }

  lemma BodyExactly(body: seq<string>, m: Manifest)
    ensures ReadEntries(Entries(body)).Ok? && Finish(ReadEntries(Entries(body)).value) == Ok(m) <==>
            EachFits(Entries(body), m) && AllGiven(Entries(body)) && OnceEach(Entries(body)) && m.maxChargeMv > 0
  {
    var es := Entries(body);
    if ReadEntries(es).Ok? {
      var said := ReadEntries(es).value;
      ReadExactly(es, said);
      SaidAreWords(body, said);
      FinishExactly(said, m);
      SaidFits(es, said, m);
    }
    if EachFits(es, m) && AllGiven(es) && OnceEach(es) {
      var said := DescribedSays(es, m);
      ReadExactly(es, said);
    }
  }

  predicate Headed(text: string) {
    Lines(text) != [] && Trim(Lines(text)[0]) == "vayucell image manifest 1"
  }

  /** The lines behind the header cannot be taken, or leave something out. */
  ghost predicate BodyFault(es: seq<Entry>, error: ImageError) {
    || (exists k: nat :: FirstFault(es, k, error))
    || exists said :: SaysExactly(es, said) && Finish(said) == Err(error)
  }

  lemma BodyFaultExactly(es: seq<Entry>, error: ImageError)
    ensures ReadEntries(es).Err? ==> (BodyFault(es, error) <==> ReadEntries(es) == Err(error))
    ensures ReadEntries(es).Ok? ==> (BodyFault(es, error) <==> Finish(ReadEntries(es).value) == Err(error))
  {
    FaultExactly(es, error);
    forall said | SaysExactly(es, said)
      ensures ReadEntries(es) == Ok(said)
    {
      ReadExactly(es, said);
    }
    if ReadEntries(es).Ok? {
      ReadExactly(es, ReadEntries(es).value);
      assert SaysExactly(es, ReadEntries(es).value);
    }
  }

  /** Why a text is refused: its header, the first line that cannot be taken, or what the lines leave out. */
  lemma TextFaults(text: string, error: ImageError)
    ensures !Headed(text) ==> (ParseText(text) == Err(error) <==> error == NotAManifest)
    ensures Headed(text) ==> (ParseText(text) == Err(error) <==> BodyFault(Entries(Lines(text)[1..]), error))
  {
    if Headed(text) {
      BodyFaultExactly(Entries(Lines(text)[1..]), error);
    }
  }

  // ---------------------------------------------------------------- round trips

  predicate AllWordsIn(m: Manifest) {
    IsWord(m.name) && IsWord(m.version) && IsWord(m.kernel) && IsWord(m.compatible)
  }

  lemma KeyIsWord(k: Key)
    ensures IsWord(KeyText(k))
  {
  }

  lemma LineOfWord(m: Manifest, k: Key)
    requires IsWord(ValueOf(m, k))
    ensures Words(LineOf(m, k)) == [KeyText(k), ValueOf(m, k)] && LineText(LineOf(m, k))
  {
    KeyIsWord(k);
    var ws := [KeyText(k), ValueOf(m, k)];
    assert ws[1..] == [ValueOf(m, k)];
    assert Join(ws, " ") == LineOf(m, k);
    WordsJoin(ws);
    JoinIsLine(ws);
  }

  lemma LineReads(m: Manifest, k: Key)
    requires AllWordsIn(m)
    ensures EntryOf(Words(LineOf(m, k))) == Gives(k, ValueOf(m, k)) && LineText(LineOf(m, k))
  {
    DecIsWord(m.maxChargeMv);
    LineOfWord(m, k);
    EntryExactly(Words(LineOf(m, k)));
  }

  lemma HeaderIsLine()
    ensures LineText(HEADER) && Trim(HEADER) == HEADER
  {
    TrimOfTrimmed(HEADER);
  }

  lemma LinesOfHeaded(header: string, body: seq<string>)
    requires LineText(header) && forall i :: 0 <= i < |body| ==> LineText(body[i])
    ensures Lines(Unlines([header] + body)) == [header] + body
  {
    LinesUnlines([header] + body);
  }

  lemma LineAt(m: Manifest, body: seq<string>, i: nat, k: Key)
    requires AllWordsIn(m) && i < |body| && body[i] == LineOf(m, k)
    ensures Entries(body)[i] == Gives(k, ValueOf(m, k)) && LineText(body[i])
  {
    EntryAt(body, i);
    LineReads(m, k);
  }

  const ORDER := [Name, Version, Kernel, Compatible, MaxChargeMv]

  lemma BodyAt(m: Manifest, i: nat)
    requires AllWordsIn(m) && i < |ORDER|
    ensures Entries(Body(m))[i] == Gives(ORDER[i], ValueOf(m, ORDER[i])) && LineText(Body(m)[i])
  {
    LineAt(m, Body(m), i, ORDER[i]);
  }

  lemma BodyEntries(m: Manifest)
    requires AllWordsIn(m)
    ensures |Entries(Body(m))| == |ORDER|
    ensures forall i :: 0 <= i < |ORDER| ==> Entries(Body(m))[i] == Gives(ORDER[i], ValueOf(m, ORDER[i]))
  {
    forall i | 0 <= i < |ORDER|
      ensures Entries(Body(m))[i] == Gives(ORDER[i], ValueOf(m, ORDER[i]))
    {
      BodyAt(m, i);
    }
  }

  lemma BodyLines(m: Manifest)
    requires AllWordsIn(m)
    ensures Lines(Render(m)) == [HEADER] + Body(m)
  {
    forall i | 0 <= i < |Body(m)|
      ensures LineText(Body(m)[i])
    {
      BodyAt(m, i);
    }
    HeaderIsLine();
    LinesOfHeaded(HEADER, Body(m));
  }

  lemma FiveGiven(m: Manifest, es: seq<Entry>)
    requires |es| == |ORDER| && forall i :: 0 <= i < |ORDER| ==> es[i] == Gives(ORDER[i], ValueOf(m, ORDER[i]))
    ensures EachFits(es, m) && AllGiven(es) && OnceEach(es)
  {
    ParseDec(m.maxChargeMv, U32_MAX);
    assert es[0].key == Name && es[1].key == Version && es[2].key == Kernel;
    assert es[3].key == Compatible && es[4].key == MaxChargeMv;
  }

  lemma DescribedByLines(text: string, body: seq<string>, m: Manifest)
    requires Lines(text) == [HEADER] + body
    requires EachFits(Entries(body), m) && AllGiven(Entries(body)) && OnceEach(Entries(body)) && m.maxChargeMv > 0
    ensures Describes(text, m)
  {
    HeaderIsLine();
    assert ([HEADER] + body)[1..] == body;
  }

  lemma WordsReadBack(m: Manifest)
    requires AllWordsIn(m) && m.maxChargeMv > 0
    ensures ParseText(Render(m)) == Ok(m)
  {
    BodyLines(m);
    BodyEntries(m);
    FiveGiven(m, Entries(Body(m)));
    DescribedByLines(Render(m), Body(m), m);
    ManifestExactly(Render(m), m);
  }

  /** Every manifest that was read is made of words, and has a ceiling. */
  lemma AcceptedIsWords(text: string)
    requires ParseText(text).Ok?
    ensures var m := ParseText(text).value; Constructed(m) && AllWordsIn(m)
  {
    var m := ParseText(text).value;
    var body := Lines(text)[1..];
    var said := ReadEntries(Entries(body)).value;
    ReadExactly(Entries(body), said);
    SaidAreWords(body, said);
    FinishExactly(said, m);
    assert Fits(m, Name, said[Name]) && Fits(m, Version, said[Version]) && Fits(m, Kernel, said[Kernel]);
    assert Fits(m, Compatible, said[Compatible]);
  }

  /** Whatever text was accepted, what was read is written so that it reads the same again. */
  lemma AcceptedRoundTrips(text: string)
    requires ParseText(text).Ok?
    ensures ParseText(Render(ParseText(text).value)) == ParseText(text)
  {
    AcceptedIsWords(text);
    WordsReadBack(ParseText(text).value);
  }

  // ---------------------------------------------------------------- counting words

  function SumWords(lines: seq<string>): nat {
    if lines == [] then 0 else SumWords(lines[..|lines| - 1]) + |Words(lines[|lines| - 1])|
  }

  lemma {:induction false} SumCons(l: string, rest: seq<string>)
    ensures SumWords([l] + rest) == |Words(l)| + SumWords(rest)
  {
    var all := [l] + rest;
    if rest == [] {
      assert all[..0] == [];
    } else {
      assert all[..|all| - 1] == [l] + rest[..|rest| - 1];
      SumCons(l, rest[..|rest| - 1]);
    }
  }

  lemma FeedSplits(l: string, rest: string)
    ensures |Words(l + "\n" + rest)| == |Words(l)| + |Words(rest)|
  {
    WordsAround(l, '\n', rest);
  }

  /** No word of a text is lost or cut by taking it line by line. */
  lemma {:induction false} LinesWords(text: string)
    ensures SumWords(Lines(text)) == |Words(text)|
    decreases |text|
  {
    var n := Find(text, '\n');
    if text != "" {
      if n == |text| {
        assert Lines(text)[..0] == [];
      } else {
        var l, rest := text[..n], text[n + 1..];
        assert text == l + "\n" + rest;
        FeedSplits(l, rest);
        WordsStripCr(l);
        LinesWords(rest);
        SumCons(StripCr(l), Lines(rest));
      }
    }
  }

  lemma {:induction false} UnlinesWords(lines: seq<string>)
    ensures |Words(Unlines(lines))| == SumWords(lines)
  {
    if lines != [] {
      FeedSplits(lines[0], Unlines(lines[1..]));
      UnlinesWords(lines[1..]);
      assert lines == [lines[0]] + lines[1..];
      SumCons(lines[0], lines[1..]);
    }
  }

  lemma {:induction false} SaidCounts(lines: seq<string>, said: Said)
    requires ReadEntries(Entries(lines)) == Ok(said)
    ensures SumWords(lines) == 2 * |said|
  {
    if lines != [] {
      var n := |lines| - 1;
      var es := Entries(lines);
      assert es[..n] == Entries(lines[..n]);
      var st := ReadEntries(es[..n]).value;
      SaidCounts(lines[..n], st);
      EntryAt(lines, n);
      EntryCounts(Words(lines[n]), st);
    }
  }

  lemma EntryCounts(words: seq<string>, st: Said)
    ensures ReadEntry(EntryOf(words), st).Ok? ==> 2 * |ReadEntry(EntryOf(words), st).value| == 2 * |st| + |words|
  {
  }

  lemma FiveKeys(said: Said)
    requires Complete(said)
    ensures |said| == 5
  {
    var five := {Name, Version, Kernel, Compatible, MaxChargeMv};
    forall k: Key
      ensures k in said.Keys <==> k in five
    {
      match k {
        case Name =>
        case Version =>
        case Kernel =>
        case Compatible =>
        case MaxChargeMv =>
      }
    }
    assert said.Keys == five;
  }

  /** A text that is accepted has two words for each of the five keys besides its header. */
  lemma AcceptedCounts(text: string)
    requires ParseText(text).Ok?
    ensures |Words(text)| == |Words(HEADER)| + 10
  {
    var lines := Lines(text);
    var said := ReadEntries(Entries(lines[1..])).value;
    LinesWords(text);
    assert lines == [lines[0]] + lines[1..];
    SumCons(lines[0], lines[1..]);
    WordsTrim(lines[0]);
    SaidCounts(lines[1..], said);
    FiveKeys(said);
  }

  lemma OneWord(w: string)
    requires IsWord(w)
    ensures Words(w) == [w]
  {
    assert w + "" == w;
    WordsCons(w, "");
  }

  lemma LineCounts(m: Manifest, k: Key)
    ensures |Words(LineOf(m, k))| == 1 + |Words(ValueOf(m, k))|
  {
    WordsApart(KeyText(k), ValueOf(m, k));
    KeyIsWord(k);
    OneWord(KeyText(k));
  }

  lemma FiveCounts(l0: string, l1: string, l2: string, l3: string, l4: string)
    ensures SumWords([l0, l1, l2, l3, l4]) == |Words(l0)| + |Words(l1)| + |Words(l2)| + |Words(l3)| + |Words(l4)|
  {
    assert [l0, l1, l2, l3, l4] == [l0] + ([l1] + ([l2] + ([l3] + ([l4] + []))));
    SumCons(l0, [l1] + ([l2] + ([l3] + ([l4] + []))));
    SumCons(l1, [l2] + ([l3] + ([l4] + [])));
    SumCons(l2, [l3] + ([l4] + []));
    SumCons(l3, [l4] + []);
    SumCons(l4, []);
  }

  lemma RenderCounts(m: Manifest)
    ensures |Words(Render(m))| == |Words(HEADER)| + 6 + |Words(m.name)| + |Words(m.version)| + |Words(m.kernel)|
                                  + |Words(m.compatible)|
  {
    UnlinesWords([HEADER] + Body(m));
    SumCons(HEADER, Body(m));
    FiveCounts(LineOf(m, Name), LineOf(m, Version), LineOf(m, Kernel), LineOf(m, Compatible), LineOf(m, MaxChargeMv));
    LineCounts(m, Name);
    LineCounts(m, Version);
    LineCounts(m, Kernel);
    LineCounts(m, Compatible);
    LineCounts(m, MaxChargeMv);
    DecIsWord(m.maxChargeMv);
    OneWord(Dec(m.maxChargeMv));
  }

  lemma SpaceEnds(s: string)
    ensures AllSpace(s) && s != "" ==> IsSpace(s[|s| - 1])
  {
  }

  /** A trimmed text has one word exactly when it is that word, and never none. */
  lemma WordCount(v: string)
    requires v != "" && Trimmed(v)
    ensures |Words(v)| >= 1
    ensures |Words(v)| == 1 <==> IsWord(v)
  {
    var n := WordLen(v);
    var rest := v[n..];
    assert v == v[..n] + rest;
    assert |Words(v)| == 1 + |Words(rest)|;
    NoWords(rest);
    if IsWord(v) {
      OneWord(v);
    }
    SpaceEnds(rest);
    assert rest != "" ==> rest[|rest| - 1] == v[|v| - 1];
    assert rest == "" ==> v[..n] == v;
  }

  /**
   A manifest that could be built is read back from its own text exactly when none of its four
   texts has white space inside; the others are refused, and never read as another manifest.
   */
  lemma RoundTripExactly(m: Manifest)
    requires Constructed(m)
    ensures ParseText(Render(m)).Ok? <==> AllWordsIn(m)
    ensures ParseText(Render(m)).Ok? ==> ParseText(Render(m)) == Ok(m)
  {
    if ParseText(Render(m)).Ok? {
      AcceptedCounts(Render(m));
      RenderCounts(m);
      WordCount(m.name);
      WordCount(m.version);
      WordCount(m.kernel);
      WordCount(m.compatible);
    }
    if AllWordsIn(m) {
      WordsReadBack(m);
    }
  }

  /** A name of two words can be built, written, and then not read. */
  lemma InnerSpaceIsRefused()
    ensures var m := Manifest("my image", "1", "6.9", "vayu,board", 3800); Constructed(m) && ParseText(Render(m)).Err?
  {
    var m := Manifest("my image", "1", "6.9", "vayu,board", 3800);
    assert IsSpace(m.name[2]);
    RoundTripExactly(m);
  }
}
