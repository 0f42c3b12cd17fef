/** Device names, secrets, the credential store's text, and checking an offered secret: `core/src/auth.rs`. */
module Auth {
  import opened Wrappers
  import opened Text
  import opened Bytes

  const SECRET_CHARS: nat := 43
  const MAX_NAME_BYTES: nat := 64

  datatype SecretError = WrongLength(count: nat) | IllegalCharacter

  datatype DeviceError = Empty | TooLong(bytes: nat) | Control | Whitespace

  predicate IsBase64Url(c: char) {
    'A' <= c <= 'Z' || 'a' <= c <= 'z' || '0' <= c <= '9' || c == '-' || c == '_'
  }

  predicate IsSecret(s: string) {
    |s| == SECRET_CHARS && forall i :: 0 <= i < |s| ==> IsBase64Url(s[i])
  }

  function NewSecret(raw: string): Result<string, SecretError> {
    if |raw| != SECRET_CHARS then Err(WrongLength(|raw|))
    else if !(forall i :: 0 <= i < |raw| ==> IsBase64Url(raw[i])) then Err(IllegalCharacter)
    else Ok(raw)
  }

  function NewDeviceName(raw: string): Result<string, DeviceError> {
    if raw == "" then Err(Empty)
    else if ByteLen(raw) > MAX_NAME_BYTES then Err(TooLong(ByteLen(raw)))
    else if exists i :: 0 <= i < |raw| && IsControl(raw[i]) then Err(Control)
    else if exists i :: 0 <= i < |raw| && IsSpace(raw[i]) then Err(Whitespace)
    else Ok(raw)
  }

  /** The names that can be enrolled are single words of at most 64 bytes without control characters. */
  lemma NameExactly(raw: string, name: string)
    ensures NewDeviceName(raw) == Ok(name) <==>
            && name == raw && Words(raw) == [raw] && |Utf8(raw)| <= 64
            && forall i :: 0 <= i < |raw| ==> !IsControl(raw[i])
  {
    ByteLenIs(raw);
    if IsWord(raw) {
      assert raw + "" == raw;
      WordsCons(raw, "");
    }
    if Words(raw) == [raw] {
      assert IsWord(Words(raw)[0]);
    }
  }

  /** Which complaint comes first about every other text. */
  lemma NameErrors(raw: string, bytes: nat)
    ensures NewDeviceName(raw) == Err(Empty) <==> raw == ""
    ensures NewDeviceName(raw) == Err(TooLong(bytes)) <==> bytes == |Utf8(raw)| && bytes > 64
    ensures NewDeviceName(raw) == Err(Control) <==> |Utf8(raw)| <= 64 && exists i :: 0 <= i < |raw| && IsControl(raw[i])
    ensures NewDeviceName(raw) == Err(Whitespace) <==>
            && |Utf8(raw)| <= 64 && (forall i :: 0 <= i < |raw| ==> !IsControl(raw[i]))
            && exists i :: 0 <= i < |raw| && IsSpace(raw[i])
  {
    ByteLenIs(raw);
  }

  /** A secret is accepted exactly when it is 43 characters of the base64url alphabet, and kept as it is; its length is checked first. */
  lemma SecretExactly(raw: string, secret: string, count: nat)
    ensures NewSecret(raw) == Ok(secret) <==> secret == raw && |raw| == 43 && forall i :: 0 <= i < |raw| ==> IsBase64Url(raw[i])
    ensures NewSecret(raw) == Err(WrongLength(count)) <==> count == |raw| && count != 43
    ensures NewSecret(raw) == Err(IllegalCharacter) <==> |raw| == 43 && exists i :: 0 <= i < |raw| && !IsBase64Url(raw[i])
  {
  }

  datatype Credential = Credential(device: string, secret: string)

  datatype Refusal = NoneOffered | NotRecognised | StoreEmpty

  datatype Verdict = Authenticated(device: string) | Refused(refusal: Refusal)

  datatype StoreProblem = NotTwoFields | Device(d: DeviceError) | Secret(s: SecretError) | Duplicate(firstSeen: nat)

  datatype StoreError = StoreError(line: nat, why: StoreProblem)

  // ---------------------------------------------------------------- one line of the store

  datatype Line = Skipped | Entry(credential: Credential) | Bad(why: StoreProblem)

  /** What a line says by itself. */
  function Says(line: string): Line {
    var words := Words(line);
    if words == [] || words[0][0] == '#' then Skipped
    else if |words| != 2 then Bad(NotTwoFields)
    else match NewDeviceName(words[0])
      case Err(e) => Bad(Device(e))
      case Ok(name) =>
        match NewSecret(words[1])
        case Err(e) => Bad(Secret(e))
        case Ok(secret) => Entry(Credential(name, secret))
  }

  /** What a line says, told from its words. */
  lemma SaysExactly(line: string, c: Credential)
    ensures Says(line) == Entry(c) <==>
            && Words(line) == [c.device, c.secret] && c.device[0] != '#'
            && NewDeviceName(c.device).Ok? && NewSecret(c.secret).Ok?
    ensures Says(line).Skipped? <==> AllSpace(line) || (Words(line) != [] && Words(line)[0][0] == '#')
    ensures Says(line) == Bad(NotTwoFields) <==>
            Words(line) != [] && Words(line)[0][0] != '#' && |Words(line)| != 2
  {
    NoWords(line);
    if |Words(line)| == 2 {
      assert Words(line) == [Words(line)[0], Words(line)[1]];
    }
  }

  /** Reads one line the way the source does: trimmed, then split. */
  method ReadLine(text: string) returns (said: Line)
    ensures said == Says(text)
  {
    WordsTrim(text);
    NoWords(text);
    var line := Trim(text);
    if line == "" {
      return Skipped;
    }
    FirstOfTrim(text);
    if line[0] == '#' {
      return Skipped;
    }
    var fields := Words(line);
    if |fields| < 2 {
      return Bad(NotTwoFields);
    }
    if |fields| > 2 {
      return Bad(NotTwoFields);
    }
    var device := NewDeviceName(fields[0]);
    if device.Err? {
      return Bad(Device(device.error));
    }
    var secret := NewSecret(fields[1]);
    if secret.Err? {
      return Bad(Secret(secret.error));
    }
    return Entry(Credential(device.value, secret.value));
  }

  // ---------------------------------------------------------------- the whole store

  /** An entry and the line it stands on, counted from one. */
  datatype Row = Row(line: nat, credential: Credential)

  function FirstSeen(rows: seq<Row>, device: string): Option<nat> {
    if rows == [] then None
    else if rows[0].credential.device == device then Some(rows[0].line)
    else FirstSeen(rows[1..], device)
  }

  function ReadFrom(lines: seq<string>, at: nat, rows: seq<Row>): Result<seq<Row>, StoreError> {
    if lines == [] then Ok(rows)
    else match Says(lines[0])
      case Skipped => ReadFrom(lines[1..], at + 1, rows)
      case Bad(why) => Err(StoreError(at, why))
      case Entry(c) =>
        match FirstSeen(rows, c.device)
        case Some(first) => Err(StoreError(at, Duplicate(first)))
        case None => ReadFrom(lines[1..], at + 1, rows + [Row(at, c)])
  }

  function Rows(text: string): Result<seq<Row>, StoreError> {
    ReadFrom(Lines(text), 1, [])
  }

  function Credentials(rows: seq<Row>): seq<Credential> {
    seq(|rows|, i requires 0 <= i < |rows| => rows[i].credential)
  }

  /** The credentials a store's text holds, or the first line that is wrong. */
  function Store(text: string): Result<seq<Credential>, StoreError> {
    match Rows(text)
    case Err(e) => Err(e)
    case Ok(rows) => Ok(Credentials(rows))
  }

  method ParseStore(text: string) returns (r: Result<seq<Credential>, StoreError>)
    ensures r == Store(text)
  {
    var entries: seq<Credential> := [];
    var seen: seq<Row> := [];
    var lines := Lines(text);
    for index := 0 to |lines|
      invariant entries == Credentials(seen)
      invariant ReadFrom(lines, 1, []) == ReadFrom(lines[index..], index + 1, seen)
    {
      assert lines[index..][1..] == lines[index + 1..];
      var said := ReadLine(lines[index]);
      match said {
        case Skipped =>
        case Bad(why) => return Err(StoreError(index + 1, why));
        case Entry(c) =>
          var first := FirstSeen(seen, c.device);
          if first.Some? {
            return Err(StoreError(index + 1, Duplicate(first.value)));
          }
          seen := seen + [Row(index + 1, c)];
          entries := entries + [c];
      }
    }
    assert lines[|lines|..] == [];
    return Ok(entries);
  }

  // ---------------------------------------------------------------- which texts are stores

  /** The entries of these lines, in order. */
  function Entries(lines: seq<string>): seq<Credential> {
    if lines == [] then []
    else (if Says(lines[0]).Entry? then [Says(lines[0]).credential] else []) + Entries(lines[1..])
  }

  predicate NoBad(lines: seq<string>) {
    forall i :: 0 <= i < |lines| ==> !Says(lines[i]).Bad?
  }

  predicate DistinctNames(cs: seq<Credential>) {
    forall i, j :: 0 <= i < j < |cs| ==> cs[i].device != cs[j].device
  }

  predicate Enrolled(cs: seq<Credential>, device: string) {
    exists i :: 0 <= i < |cs| && cs[i].device == device
  }

  lemma {:induction false} FirstSeenIs(rows: seq<Row>, device: string)
    ensures FirstSeen(rows, device).Some? <==> Enrolled(Credentials(rows), device)
  {
    if rows != [] {
      FirstSeenIs(rows[1..], device);
      var cs := Credentials(rows);
      assert cs[0] == rows[0].credential;
      assert forall i :: 0 <= i < |rows[1..]| ==> Credentials(rows[1..])[i] == cs[i + 1];
      if Enrolled(cs, device) && cs[0].device != device {
        var i :| 0 <= i < |cs| && cs[i].device == device;
        assert Credentials(rows[1..])[i - 1].device == device;
      }
    }
  }

  lemma DistinctOneMore(cs: seq<Credential>, c: Credential)
    requires DistinctNames(cs)
    ensures DistinctNames(cs + [c]) <==> !Enrolled(cs, c.device)
  {
    if Enrolled(cs, c.device) {
      var i :| 0 <= i < |cs| && cs[i].device == c.device;
      assert (cs + [c])[i].device == (cs + [c])[|cs|].device;
    }
  }

  lemma DistinctPart(a: seq<Credential>, b: seq<Credential>)
    ensures DistinctNames(a + b) ==> DistinctNames(a)
  {
    assert (a + b)[..|a|] == a;
  }

  lemma NoBadCons(lines: seq<string>)
    requires lines != []
    ensures NoBad(lines) <==> !Says(lines[0]).Bad? && NoBad(lines[1..])
  {
    assert lines == [lines[0]] + lines[1..];
  }

  lemma {:induction false} EntriesAppend(a: seq<string>, b: seq<string>)
    ensures Entries(a + b) == Entries(a) + Entries(b)
    ensures NoBad(a + b) <==> NoBad(a) && NoBad(b)
  {
    if a == [] {
      assert a + b == b;
    } else {
      assert (a + b)[1..] == a[1..] + b;
      EntriesAppend(a[1..], b);
      NoBadCons(a + b);
      NoBadCons(a);
      var first := if Says(a[0]).Entry? then [Says(a[0]).credential] else [];
      assert first + (Entries(a[1..]) + Entries(b)) == first + Entries(a[1..]) + Entries(b);
    }
  }

  lemma EntriesOne(line: string)
    ensures Entries([line]) == if Says(line).Entry? then [Says(line).credential] else []
    ensures NoBad([line]) <==> !Says(line).Bad?
  {
    assert [line][1..] == [];
  }

  lemma {:induction false} ReadFromExactly(lines: seq<string>, at: nat, rows: seq<Row>)
    requires DistinctNames(Credentials(rows))
    ensures ReadFrom(lines, at, rows).Ok? <==> NoBad(lines) && DistinctNames(Credentials(rows) + Entries(lines))
    ensures ReadFrom(lines, at, rows).Ok? ==> Credentials(ReadFrom(lines, at, rows).value) == Credentials(rows) + Entries(lines)
  {
    var cs := Credentials(rows);
    if lines == [] {
      assert cs + Entries(lines) == cs;
    } else {
      NoBadCons(lines);
      var rest := Entries(lines[1..]);
      match Says(lines[0]) {
        case Bad(_) =>
        case Skipped =>
          assert [] + rest == rest;
          ReadFromExactly(lines[1..], at + 1, rows);
        case Entry(c) =>
          assert cs + ([c] + rest) == cs + [c] + rest;
          FirstSeenIs(rows, c.device);
          DistinctOneMore(cs, c);
          DistinctPart(cs + [c], rest);
          if FirstSeen(rows, c.device).None? {
            assert Credentials(rows + [Row(at, c)]) == cs + [c];
            ReadFromExactly(lines[1..], at + 1, rows + [Row(at, c)]);
          }
      }
    }
  }

  /** A text is a store exactly when no line of it is bad and no name comes twice; it holds its entries, in order. */
  lemma StoreExactly(text: string)
    ensures Store(text).Ok? <==> NoBad(Lines(text)) && DistinctNames(Entries(Lines(text)))
    ensures Store(text).Ok? ==> Store(text).value == Entries(Lines(text))
  {
    ReadFromExactly(Lines(text), 1, []);
    assert Credentials([]) + Entries(Lines(text)) == Entries(Lines(text));
  }

  // ---------------------------------------------------------------- what is wrong with the others

  /** The entries of these lines with the lines they stand on. */
  function RowsOf(lines: seq<string>): seq<Row> {
    if lines == [] then []
    else
      RowsOf(lines[..|lines| - 1]) +
      if Says(lines[|lines| - 1]).Entry? then [Row(|lines|, Says(lines[|lines| - 1]).credential)] else []
  }

  predicate IsEntryOf(line: string, device: string) {
    Says(line).Entry? && Says(line).credential.device == device
  }

  /** Line `n`, counted from one, is the first entry of the device. */
  predicate FirstEntry(lines: seq<string>, device: string, n: nat) {
    1 <= n <= |lines| && IsEntryOf(lines[n - 1], device) && forall i :: 0 <= i < n - 1 ==> !IsEntryOf(lines[i], device)
  }

  lemma {:induction false} FirstSeenAppend(rows: seq<Row>, row: Row, device: string)
    ensures FirstSeen(rows + [row], device) ==
            if FirstSeen(rows, device).Some? then FirstSeen(rows, device)
            else if row.credential.device == device then Some(row.line) else None
  {
    if rows != [] {
      assert (rows + [row])[1..] == rows[1..] + [row];
      FirstSeenAppend(rows[1..], row, device);
    }
  }

  predicate NoEntry(lines: seq<string>, device: string) {
    forall i :: 0 <= i < |lines| ==> !IsEntryOf(lines[i], device)
  }

  lemma FirstEntryMore(lines: seq<string>, line: string, device: string, n: nat)
    ensures FirstEntry(lines, device, n) ==> FirstEntry(lines + [line], device, n)
    ensures NoEntry(lines, device) && IsEntryOf(line, device) ==> FirstEntry(lines + [line], device, |lines| + 1)
    ensures NoEntry(lines, device) && !IsEntryOf(line, device) ==> NoEntry(lines + [line], device)
  {
  }

  lemma RowsMore(lines: seq<string>, line: string, device: string)
    ensures FirstSeen(RowsOf(lines + [line]), device) ==
            if FirstSeen(RowsOf(lines), device).Some? then FirstSeen(RowsOf(lines), device)
            else if IsEntryOf(line, device) then Some(|lines| + 1) else None
  {
    assert (lines + [line])[..|lines|] == lines;
    if Says(line).Entry? {
      FirstSeenAppend(RowsOf(lines), Row(|lines| + 1, Says(line).credential), device);
    } else {
      assert RowsOf(lines) + [] == RowsOf(lines);
    }
  }

  lemma {:induction false} FirstSeenExactly(lines: seq<string>, device: string)
    ensures FirstSeen(RowsOf(lines), device).Some? ==> FirstEntry(lines, device, FirstSeen(RowsOf(lines), device).value)
    ensures FirstSeen(RowsOf(lines), device).None? ==> NoEntry(lines, device)
  {
    if lines != [] {
      var init, line := lines[..|lines| - 1], lines[|lines| - 1];
      assert lines == init + [line];
      FirstSeenExactly(init, device);
      RowsMore(init, line, device);
      var seen := FirstSeen(RowsOf(init), device);
      FirstEntryMore(init, line, device, if seen.Some? then seen.value else 0);
    }
  }

  /** The first line that is wrong is line `n`, counted from one, for this reason: by itself, or as a second entry of a device. */
  predicate FirstProblem(lines: seq<string>, n: nat, why: StoreProblem) {
    && 1 <= n <= |lines|
    && NoBad(lines[..n - 1]) && DistinctNames(Entries(lines[..n - 1]))
    && match Says(lines[n - 1])
       case Skipped => false
       case Bad(reason) => why == reason
       case Entry(c) => why.Duplicate? && FirstEntry(lines[..n - 1], c.device, why.firstSeen)
  }

  lemma NotBefore(lines: seq<string>, k: nat, n: nat, why: StoreProblem)
    requires k < |lines| && NoBad(lines[..k + 1]) && DistinctNames(Entries(lines[..k + 1]))
    ensures FirstProblem(lines, n, why) ==> n != k + 1
  {
    if Says(lines[k]).Entry? && why.Duplicate? && FirstEntry(lines[..k], Says(lines[k]).credential.device, why.firstSeen) {
      assert lines[..k + 1] == lines[..k] + [lines[k]];
      EntriesWith(lines[..k], why.firstSeen - 1);
      EntriesMore(lines[..k], lines[k]);
      DistinctPart(Entries(lines[..k]), [Says(lines[k]).credential]);
      DistinctOneMore(Entries(lines[..k]), Says(lines[k]).credential);
    }
    assert lines[..k + 1][k] == lines[k];
  }

  lemma EntriesMore(lines: seq<string>, line: string)
    ensures Entries(lines + [line]) == Entries(lines) + if Says(line).Entry? then [Says(line).credential] else []
  {
    EntriesAppend(lines, [line]);
    EntriesOne(line);
  }

  lemma {:induction false} EntriesWith(lines: seq<string>, i: nat)
    requires i < |lines| && Says(lines[i]).Entry?
    ensures Enrolled(Entries(lines), Says(lines[i]).credential.device)
  {
    var rest := Entries(lines[1..]);
    if i == 0 {
      assert Entries(lines)[0] == Says(lines[0]).credential;
    } else {
      EntriesWith(lines[1..], i - 1);
      var j :| 0 <= j < |rest| && rest[j].device == Says(lines[i]).credential.device;
      var first := if Says(lines[0]).Entry? then [Says(lines[0]).credential] else [];
      assert Entries(lines)[|first| + j] == rest[j];
    }
  }

  /** From line `k` on, after lines that were all right. */
  lemma {:induction false} ReadFromError(lines: seq<string>, k: nat, n: nat, why: StoreProblem)
    requires k <= |lines| && NoBad(lines[..k]) && DistinctNames(Entries(lines[..k]))
    ensures ReadFrom(lines[k..], k + 1, RowsOf(lines[..k])) == Err(StoreError(n, why)) <==> n > k && FirstProblem(lines, n, why)
    decreases |lines| - k
  {
    if k < |lines| {
      var rows := RowsOf(lines[..k]);
      assert lines[k..][0] == lines[k] && lines[k..][1..] == lines[k + 1..];
      assert lines[..k + 1] == lines[..k] + [lines[k]] && lines[..k + 1][..k] == lines[..k];
      EntriesMore(lines[..k], lines[k]);
      match Says(lines[k]) {
        case Bad(_) => StopsAtBad(lines, k, n, why);
        case Skipped =>
          NextIsFine(lines, k);
          assert rows + [] == rows;
          ReadFromError(lines, k + 1, n, why);
          NotBefore(lines, k, n, why);
        case Entry(c) =>
          FirstSeenExactly(lines[..k], c.device);
          if FirstSeen(rows, c.device).Some? {
            StopsAtTwice(lines, k, n, why);
          } else {
            EntryIsFine(lines, k);
            ReadFromError(lines, k + 1, n, why);
            NotBefore(lines, k, n, why);
          }
      }
    }
  }

  lemma StopsAtBad(lines: seq<string>, k: nat, n: nat, why: StoreProblem)
    requires k < |lines| && NoBad(lines[..k]) && DistinctNames(Entries(lines[..k])) && Says(lines[k]).Bad?
    ensures n > k && FirstProblem(lines, n, why) <==> n == k + 1 && why == Says(lines[k]).why
  {
    if n > k + 1 && n <= |lines| {
      assert lines[..n - 1][k] == lines[k];
    }
  }

  lemma StopsAtTwice(lines: seq<string>, k: nat, n: nat, why: StoreProblem)
    requires k < |lines| && NoBad(lines[..k]) && DistinctNames(Entries(lines[..k])) && Says(lines[k]).Entry?
    requires FirstSeen(RowsOf(lines[..k]), Says(lines[k]).credential.device).Some?
    ensures n > k && FirstProblem(lines, n, why) <==>
            n == k + 1 && why == Duplicate(FirstSeen(RowsOf(lines[..k]), Says(lines[k]).credential.device).value)
  {
    var c := Says(lines[k]).credential;
    var first := FirstSeen(RowsOf(lines[..k]), c.device).value;
    FirstSeenExactly(lines[..k], c.device);
    if n == k + 1 && why.Duplicate? && FirstEntry(lines[..k], c.device, why.firstSeen) {
      assert why.firstSeen == first;
    }
    if n > k + 1 && n <= |lines| && DistinctNames(Entries(lines[..n - 1])) {
      assert lines[..n - 1][..k + 1] == lines[..k + 1] == lines[..k] + [lines[k]];
      EntriesWith(lines[..k], first - 1);
      EntriesMore(lines[..k], lines[k]);
      EntriesOfPrefix(lines[..n - 1], k + 1);
      DistinctOneMore(Entries(lines[..k]), c);
    }
  }

  lemma {:induction false} EntriesOfPrefix(lines: seq<string>, k: nat)
    requires k <= |lines|
    ensures DistinctNames(Entries(lines)) ==> DistinctNames(Entries(lines[..k]))
    decreases |lines|
  {
    if k < |lines| {
      var n := |lines| - 1;
      EntriesOfPrefix(lines[..n], k);
      assert lines[..n][..k] == lines[..k] && lines == lines[..n] + [lines[n]];
      EntriesMore(lines[..n], lines[n]);
      DistinctPart(Entries(lines[..n]), if Says(lines[n]).Entry? then [Says(lines[n]).credential] else []);
    } else {
      assert lines[..k] == lines;
    }
  }

  lemma NextIsFine(lines: seq<string>, k: nat)
    requires k < |lines| && NoBad(lines[..k]) && DistinctNames(Entries(lines[..k])) && Says(lines[k]).Skipped?
    ensures NoBad(lines[..k + 1]) && DistinctNames(Entries(lines[..k + 1]))
  {
    assert lines[..k + 1] == lines[..k] + [lines[k]];
    EntriesMore(lines[..k], lines[k]);
    assert Entries(lines[..k]) + [] == Entries(lines[..k]);
  }

  lemma EntryIsFine(lines: seq<string>, k: nat)
    requires k < |lines| && NoBad(lines[..k]) && DistinctNames(Entries(lines[..k])) && Says(lines[k]).Entry?
    requires FirstSeen(RowsOf(lines[..k]), Says(lines[k]).credential.device).None?
    ensures NoBad(lines[..k + 1]) && DistinctNames(Entries(lines[..k + 1]))
  {
    assert lines[..k + 1] == lines[..k] + [lines[k]];
    var c := Says(lines[k]).credential;
    EntriesMore(lines[..k], lines[k]);
    FirstSeenExactly(lines[..k], c.device);
    DistinctOneMore(Entries(lines[..k]), c);
    if Enrolled(Entries(lines[..k]), c.device) {
      var i := LineWith(lines[..k], c.device);
    }
  }

  lemma {:induction false} LineWith(lines: seq<string>, device: string) returns (i: nat)
    requires Enrolled(Entries(lines), device)
    ensures i < |lines| && IsEntryOf(lines[i], device)
  {
    if IsEntryOf(lines[0], device) {
      i := 0;
    } else {
      var es, rest := Entries(lines), Entries(lines[1..]);
      var first := if Says(lines[0]).Entry? then [Says(lines[0]).credential] else [];
      var j :| 0 <= j < |es| && es[j].device == device;
      assert es == first + rest;
      assert rest[j - |first|].device == device;
      i := LineWith(lines[1..], device);
      i := i + 1;
    }
  }

  /** A text is refused for the first line of it that is wrong, with its number and the reason. */
  lemma StoreErrorExactly(text: string, n: nat, why: StoreProblem)
    ensures Store(text) == Err(StoreError(n, why)) <==> FirstProblem(Lines(text), n, why)
  {
    var lines := Lines(text);
    assert lines[..0] == [] && lines[0..] == lines;
    ReadFromError(lines, 0, n, why);
  }

  // ---------------------------------------------------------------- checking a secret

  /** The device of the last entry that carries this secret. */
  function LastWith(cs: seq<Credential>, secret: string): Option<string> {
    if cs == [] then None
    else if cs[|cs| - 1].secret == secret then Some(cs[|cs| - 1].device)
    else LastWith(cs[..|cs| - 1], secret)
  }

  /** Compares the offered secret with every entry before it answers. */
  method Verify(cs: seq<Credential>, offered: Option<string>) returns (v: Verdict)
    ensures v == if offered.None? then Refused(NoneOffered)
                 else if cs == [] then Refused(StoreEmpty)
                 else match LastWith(cs, offered.value)
                   case Some(device) => Authenticated(device)
                   case None => Refused(NotRecognised)
  {
    if offered.None? {
      return Refused(NoneOffered);
    }
    if cs == [] {
      return Refused(StoreEmpty);
    }
    var bytes := Utf8(offered.value);
    var matched: Option<string> := None;
    for k := 0 to |cs|
      invariant matched == LastWith(cs[..k], offered.value)
    {
      assert cs[..k + 1][..k] == cs[..k];
      Utf8Injective(cs[k].secret, offered.value);
      var same := ConstantTimeEq(Utf8(cs[k].secret), bytes);
      if same {
        matched := Some(cs[k].device);
      }
    }
    assert cs[..|cs|] == cs;
    return if matched.Some? then Authenticated(matched.value) else Refused(NotRecognised);
  }
}
