/**
 Receipts left by the replication companion: `core/src/replica.rs`.

 The parser works on the bytes of the text. A byte is written here as the character with
 that code, so the ASCII words of the format are written as themselves.
 */
module Replica {
  import opened Wrappers
  import opened Text

  const REPLICATION := "replication"
  const RESTORE_DRILL := "restore-drill"

  datatype Receipt =
    | Replication(completedUnix: u64, files: u64, bytes: u64, coveredMtime: u64)
    | RestoreDrill(completedUnix: u64, files: u64, bytes: u64)
  {
    function Kind(): string {
      if Replication? then REPLICATION else RESTORE_DRILL
    }

    /** The printed form, in front of the text that follows it. */
    function RenderThen(rest: string): string {
      var end := "}" + rest;
      "{" + Quoted("kind", ":" + Quoted(Kind(), "," + CountThen(CompletedUnix, completedUnix, "," +
      CountThen(Files, files, "," + CountThen(Bytes, bytes,
      if Replication? then "," + CountThen(CoveredMtime, coveredMtime, end) else end)))))
    }
  }

  function Quoted(w: string, rest: string): string {
    "\"" + (w + ("\"" + rest))
  }

  datatype Counter = CompletedUnix | Files | Bytes | CoveredMtime

  function CounterText(k: Counter): string {
    match k
    case CompletedUnix => "completed_unix"
    case Files => "files"
    case Bytes => "bytes"
    case CoveredMtime => "covered_mtime"
  }

  function CountThen(k: Counter, n: u64, rest: string): string {
    Quoted(CounterText(k), ":" + (Dec(n) + rest))
  }

  // ---------------------------------------------------------------- what the parser computes

  predicate IsBlank(c: char) {
    c == ' ' || c == '\t' || c == '\n' || c == '\r'
  }

  function SkipBlank(s: string): (r: string)
    ensures |r| <= |s|
  {
    if s != "" && IsBlank(s[0]) then SkipBlank(s[1..]) else s
  }

  /** A byte that may stand inside a quoted word. */
  predicate IsPlain(c: char) {
    ' ' <= c < '\U{80}' && c != '"' && c != '\\'
  }

  /** The rest of a quoted word, its opening quote already read. */
  function WordBody(s: string): (r: Option<(string, string)>)
    ensures r.Some? ==> |r.value.1| < |s|
  {
    if s == "" then None
    else if s[0] == '"' then Some(("", s[1..]))
    else if !IsPlain(s[0]) then None
    else Prepend([s[0]], WordBody(s[1..]))
  }

  function Word(s: string): (r: Option<(string, string)>)
    ensures r.Some? ==> |r.value.1| < |s|
  {
    if s != "" && s[0] == '"' then WordBody(s[1..]) else None
  }

  function DigitLen(s: string): (n: nat)
    ensures n <= |s| && AllDigits(s[..n])
    ensures n < |s| ==> !IsDigit(s[n])
  {
    if s == "" || !IsDigit(s[0]) then 0
    else
      var n := DigitLen(s[1..]) + 1;
      assert s[..n] == [s[0]] + s[1..][..n - 1];
      n
  }

  /** A number: the whole digit run, without a leading zero, of value at most 2^64-1. */
  function Number(s: string): (r: Option<(u64, string)>)
    ensures r.Some? ==> |r.value.1| < |s|
  {
    var d := s[..DigitLen(s)];
    if Canonical(d) && DecVal(d) <= U64_MAX then Some((DecVal(d), s[DigitLen(s)..])) else None
  }

  function CounterOf(w: string): Option<Counter> {
    if w == "completed_unix" then Some(CompletedUnix)
    else if w == "files" then Some(Files)
    else if w == "bytes" then Some(Bytes)
    else if w == "covered_mtime" then Some(CoveredMtime)
    else None
  }

  /** One field of a receipt object. */
  datatype Entry = KindIs(word: string) | Count(counter: Counter, n: u64)

  /** The name of a field and its colon, with the white space around them. */
  function FieldName(s: string): (r: Option<(string, string)>)
    ensures r.Some? ==> |r.value.1| < |s|
  {
    match Word(SkipBlank(s))
    case None => None
    case Some((key, s1)) =>
      var s2 := SkipBlank(s1);
      if s2 == "" || s2[0] != ':' then None else Some((key, SkipBlank(s2[1..])))
  }

  /** The value of the field of that name. */
  function FieldValue(key: string, s: string): (r: Option<(Entry, string)>)
    ensures r.Some? ==> |r.value.1| < |s|
  {
    if key == "kind" then
      match Word(s)
      case None => None
      case Some((w, rest)) => Some((KindIs(w), rest))
    else match CounterOf(key)
      case None => None
      case Some(k) =>
        match Number(s)
        case None => None
        case Some((n, rest)) => Some((Count(k, n), rest))
  }

  /** One field, the white space around it, and what follows. */
  function OneEntry(s: string): (r: Option<(Entry, string)>)
    ensures r.Some? ==> |r.value.1| < |s|
  {
    match FieldName(s)
    case None => None
    case Some((key, s1)) =>
      match FieldValue(key, s1)
      case None => None
      case Some((e, s2)) => Some((e, SkipBlank(s2)))
  }

  /** The fields of an object up to and including its closing brace. */
  function Entries(s: string): (r: Option<(seq<Entry>, string)>)
    ensures r.Some? ==> |r.value.1| < |s|
    decreases |s|
  {
    match OneEntry(s)
    case None => None
    case Some((e, s1)) =>
      if s1 != "" && s1[0] == '}' then Some(([e], s1[1..]))
      else if s1 != "" && s1[0] == ',' then Prepend([e], Entries(s1[1..]))
      else None
  }

  function Prepend<T>(a: seq<T>, r: Option<(seq<T>, string)>): Option<(seq<T>, string)> {
    match r
    case None => None
    case Some((b, rest)) => Some((a + b, rest))
  }

  predicate SameField(a: Entry, b: Entry) {
    (a.KindIs? && b.KindIs?) || (a.Count? && b.Count? && a.counter == b.counter)
  }

  /** No field appears twice. */
  predicate Distinct(es: seq<Entry>) {
    forall i, j :: 0 <= i < j < |es| ==> !SameField(es[i], es[j])
  }

  function FindKind(es: seq<Entry>): Option<string> {
    if es == [] then None else if es[0].KindIs? then Some(es[0].word) else FindKind(es[1..])
  }

  function FindCount(es: seq<Entry>, k: Counter): Option<u64> {
    if es == [] then None
    else if es[0].Count? && es[0].counter == k then Some(es[0].n)
    else FindCount(es[1..], k)
  }

  /** The values an object has given so far. */
  datatype Slots = Slots(
    kind: Option<string>, completed: Option<u64>, files: Option<u64>, bytes: Option<u64>, covered: Option<u64>)
  {
    /** The receipt these values add up to, if nothing its kind requires is missing. */
    function Receipt(): Option<Receipt> {
      if completed.None? || files.None? || bytes.None? || kind.None? then None
      else if kind.value == REPLICATION then
        match covered
        case Some(m) => Some(Replication(completed.value, files.value, bytes.value, m))
        case None => None
      else if kind.value == RESTORE_DRILL then
        Some(RestoreDrill(completed.value, files.value, bytes.value))
      else None
    }
  }

  /** Whether the slot of this field is still empty. */
  predicate Free(s: Slots, e: Entry) {
    match e
    case KindIs(_) => s.kind.None?
    case Count(CompletedUnix, _) => s.completed.None?
    case Count(Files, _) => s.files.None?
    case Count(Bytes, _) => s.bytes.None?
    case Count(CoveredMtime, _) => s.covered.None?
  }

  function Fill(s: Slots, e: Entry): Slots {
    match e
    case KindIs(w) => s.(kind := Some(w))
    case Count(CompletedUnix, n) => s.(completed := Some(n))
    case Count(Files, n) => s.(files := Some(n))
    case Count(Bytes, n) => s.(bytes := Some(n))
    case Count(CoveredMtime, n) => s.(covered := Some(n))
  }

  function SlotsOf(es: seq<Entry>): Slots {
    Slots(FindKind(es), FindCount(es, CompletedUnix), FindCount(es, Files), FindCount(es, Bytes),
          FindCount(es, CoveredMtime))
  }

  /** The receipt that the fields of one object add up to, if they do. */
  function Assemble(es: seq<Entry>): Option<Receipt> {
    if Distinct(es) then SlotsOf(es).Receipt() else None
  }

  function OneReceipt(s: string): (r: Option<(Receipt, string)>)
    ensures r.Some? ==> |r.value.1| < |s|
  {
    if s == "" || s[0] != '{' then None
    else match Entries(s[1..])
      case None => None
      case Some((es, rest)) =>
        match Assemble(es)
        case None => None
        case Some(receipt) => Some((receipt, rest))
  }

  /** Receipts separated by commas, up to and including the closing bracket. */
  function Receipts(s: string): (r: Option<(seq<Receipt>, string)>)
    decreases |s|
  {
    match OneReceipt(SkipBlank(s))
    case None => None
    case Some((receipt, s1)) =>
      var s2 := SkipBlank(s1);
      if s2 != "" && s2[0] == ']' then Some(([receipt], s2[1..]))
      else if s2 != "" && s2[0] == ',' then Prepend([receipt], Receipts(s2[1..]))
      else None
  }

  /** The receipts a whole evidence file holds; `None` for every refusal. */
  function Evidence(s: string): Option<seq<Receipt>> {
    var s0 := SkipBlank(s);
    if s0 == "" || s0[0] != '[' then None
    else
      var s1 := SkipBlank(s0[1..]);
      if s1 != "" && s1[0] == ']' then if SkipBlank(s1[1..]) == "" then Some([]) else None
      else match Receipts(s1)
        case None => None
        case Some((rs, rest)) => if SkipBlank(rest) == "" then Some(rs) else None
  }

  // ---------------------------------------------------------------- the byte cursor

  lemma CursorStep(b: string, start: nat, i: nat)
    requires start <= i < |b|
    ensures b[start..i + 1] == b[start..i] + [b[i]]
    ensures b[i..][0] == b[i] && b[i..][1..] == b[i + 1..]
  {
  }

  /** The value of a run of digits, by multiplying and adding with checks: nothing when it does not fit. */
  method Folded(digits: string) returns (r: Option<u64>)
    requires AllDigits(digits)
    ensures r == if DecVal(digits) <= U64_MAX then Some(DecVal(digits)) else None
  {
    var acc: u64 := 0;
    for k := 0 to |digits|
      invariant acc == DecVal(digits[..k])
    {
      assert digits[..k + 1][..k] == digits[..k];
      DecValGrows(digits, k + 1);
      if acc * 10 + (digits[k] - '0') as int > U64_MAX {
        return None;
      }
      acc := acc * 10 + (digits[k] - '0') as int;
    }
    assert digits[..|digits|] == digits;
    r := Some(acc);
  }

  class Parser {
    const b: string
    var i: nat

    ghost predicate Valid()
      reads this
    {
      i <= |b|
    }

    /** The bytes not read yet. */
    ghost function Rest(): string
      requires Valid()
      reads this
    {
      b[i..]
    }

    constructor (text: string)
      ensures Valid() && Rest() == text
    {
      b := text;
      i := 0;
    }

    method Ws()
      requires Valid()
      modifies this
      ensures Valid() && Rest() == SkipBlank(old(Rest()))
    {
      while i < |b| && IsBlank(b[i])
        invariant Valid()
        invariant SkipBlank(Rest()) == SkipBlank(old(Rest()))
      {
        assert b[i..][1..] == b[i + 1..];
        i := i + 1;
      }
    }

    method Take(c: char) returns (taken: bool)
      requires Valid()
      modifies this
      ensures Valid()
      ensures taken == (old(Rest()) != "" && old(Rest())[0] == c)
      ensures i == old(i) + if taken then 1 else 0
      ensures Rest() == if taken then old(Rest())[1..] else old(Rest())
    {
      taken := i < |b| && b[i] == c;
      if taken {
        i := i + 1;
      }
    }

    method NextByte() returns (c: Option<char>)
      requires Valid()
      modifies this
      ensures Valid()
      ensures c == if old(i) == |b| then None else Some(b[old(i)])
      ensures i == old(i) + if c.Some? then 1 else 0
      ensures Rest() == if old(Rest()) == "" then "" else old(Rest())[1..]
    {
      if i < |b| {
        c := Some(b[i]);
        i := i + 1;
      } else {
        c := None;
      }
    }

    method ReadWord() returns (r: Option<string>)
      requires Valid()
      modifies this
      ensures Valid()
      ensures r.Some? <==> Word(old(Rest())).Some?
      ensures r.Some? ==> Word(old(Rest())) == Some((r.value, Rest()))
    {
      var quoted := Take('"');
      if !quoted {
        return None;
      }
      var start := i;
      ghost var body := Rest();
      PrependNothing(WordBody(body));
      assert b[start..start] == "";
      while true
        invariant start <= i <= |b| && body == b[start..]
        invariant WordBody(body) == Prepend(b[start..i], WordBody(b[i..]))
        decreases |b| - i
      {
        ghost var at := i;
        var c := NextByte();
        if c == None {
          return None;
        }
        CursorStep(b, start, at);
        WordStep(b[start..at], b[at..]);
        if c.value == '"' {
          return Some(b[start..i - 1]);
        }
        if !IsPlain(c.value) {
          return None;
        }
      }
    }

    method ReadNumber() returns (r: Option<u64>)
      requires Valid()
      modifies this
      ensures Valid()
      ensures r.Some? <==> Number(old(Rest())).Some?
      ensures r.Some? ==> Number(old(Rest())) == Some((r.value, Rest()))
    {
      var start := i;
      ghost var s := Rest();
      while i < |b| && IsDigit(b[i])
        invariant start <= i <= |b| && AllDigits(b[start..i])
      {
        CursorStep(b, start, i);
        i := i + 1;
      }
      assert s == b[start..i] + b[i..];
      var digits := b[start..i];
      DigitRun(s, digits, b[i..]);
      if digits == "" || (|digits| > 1 && digits[0] == '0') {
        return None;
      }
      r := Folded(digits);
    }

    method ReadFieldName() returns (r: Option<string>)
      requires Valid()
      modifies this
      ensures Valid()
      ensures r.Some? <==> FieldName(old(Rest())).Some?
      ensures r.Some? ==> FieldName(old(Rest())) == Some((r.value, Rest()))
    {
      Ws();
      r := ReadWord();
      if r == None {
        return;
      }
      Ws();
      var colon := Take(':');
      if !colon {
        return None;
      }
      Ws();
    }

    /** Reads the value of a field, whose slot must still be empty. */
    method ReadFieldValue(key: string, slots: Slots) returns (r: Option<Entry>)
      requires Valid()
      modifies this
      ensures Valid()
      ensures r.Some? ==> FieldValue(key, old(Rest())) == Some((r.value, Rest())) && Free(slots, r.value)
      ensures r.None? ==> FieldValue(key, old(Rest())).None? || !Free(slots, FieldValue(key, old(Rest())).value.0)
    {
      if key == "kind" {
        if slots.kind.Some? {
          return None;
        }
        var word := ReadWord();
        return if word.Some? then Some(KindIs(word.value)) else None;
      }
      var k := CounterOf(key);
      if k == None || !Free(slots, Count(k.value, 0)) {
        return None;
      }
      var n := ReadNumber();
      return if n.Some? then Some(Count(k.value, n.value)) else None;
    }

    /** A field with its value and the blanks around them. */
    method ReadField(slots: Slots) returns (r: Option<Entry>)
      requires Valid()
      modifies this
      ensures Valid()
      ensures r.Some? ==> OneEntry(old(Rest())) == Some((r.value, Rest())) && Free(slots, r.value)
      ensures r.None? ==> OneEntry(old(Rest())).None? || !Free(slots, OneEntry(old(Rest())).value.0)
    {
      var key := ReadFieldName();
      if key == None {
        return None;
      }
      r := ReadFieldValue(key.value, slots);
      if r.Some? {
        Ws();
      }
    }

    /** One receipt object: fields in any order, each at most once, all that its kind requires. */
    method ReadReceipt() returns (r: Option<Receipt>)
      requires Valid()
      modifies this
      ensures Valid()
      ensures r.Some? <==> OneReceipt(old(Rest())).Some?
      ensures r.Some? ==> OneReceipt(old(Rest())) == Some((r.value, Rest()))
    {
      r := None;
      var open := Take('{');
      if !open {
        return;
      }
      var slots := Slots(None, None, None, None, None);
      ghost var fields := Rest();
      ghost var es: seq<Entry> := [];
      PrependNothing(Entries(fields));
      while true
        invariant Valid()
        invariant Distinct(es) && slots == SlotsOf(es)
        invariant Entries(fields) == Prepend(es, Entries(Rest()))
        decreases |b| - i
      {
        ghost var here := Rest();
        var field := ReadField(slots);
        if field == None {
          RefusedField(fields, es, here);
          return;
        }
        AddField(es, field.value);
        slots, es := Fill(slots, field.value), es + [field.value];
        var closed := Take('}');
        if closed {
          break;
        }
        var comma := Take(',');
        if !comma {
          return;
        }
        PrependTwice(es[..|es| - 1], field.value, Entries(Rest()));
      }
      r := slots.Receipt();
    }
  }

  /** The whole evidence file. */
  method Parse(text: string) returns (r: Option<seq<Receipt>>)
    ensures r == Evidence(text)
  {
    var p := new Parser(text);
    p.Ws();
    var open := p.Take('[');
    if !open {
      return None;
    }
    p.Ws();
    var out: seq<Receipt> := [];
    var empty := p.Take(']');
    if empty {
      p.Ws();
      return if p.i == |p.b| then Some(out) else None;
    }
    ghost var list := p.Rest();
    PrependNothing(Receipts(list));
    while true
      invariant p.Valid()
      invariant Receipts(list) == Prepend(out, Receipts(p.Rest()))
      decreases |p.b| - p.i
    {
      p.Ws();
      var receipt := p.ReadReceipt();
      if receipt == None {
        return None;
      }
      p.Ws();
      ghost var before := out;
      out := out + [receipt.value];
      var closed := p.Take(']');
      if closed {
        break;
      }
      var comma := p.Take(',');
      if !comma {
        return None;
      }
      PrependTwice(before, receipt.value, Receipts(p.Rest()));
    }
    p.Ws();
    return if p.i == |p.b| then Some(out) else None;
  }

  // ---------------------------------------------------------------- steps of the cursor proofs

  lemma PrependNothing<T>(r: Option<(seq<T>, string)>)
    ensures Prepend([], r) == r
  {
    if r.Some? {
      assert [] + r.value.0 == r.value.0;
    }
  }

  lemma PrependTwice<T>(a: seq<T>, x: T, r: Option<(seq<T>, string)>)
    ensures Prepend(a, Prepend([x], r)) == Prepend(a + [x], r)
  {
    if r.Some? {
      assert a + ([x] + r.value.0) == a + [x] + r.value.0;
    }
  }

  /** One more character of a quoted word, `w` read before it. */
  lemma WordStep(w: string, s: string)
    requires s != ""
    ensures s[0] == '"' ==> Prepend(w, WordBody(s)) == Some((w, s[1..]))
    ensures s[0] != '"' && !IsPlain(s[0]) ==> Prepend(w, WordBody(s)) == None
    ensures s[0] != '"' && IsPlain(s[0]) ==> Prepend(w, WordBody(s)) == Prepend(w + [s[0]], WordBody(s[1..]))
  {
    assert w + "" == w;
    PrependTwice(w, s[0], WordBody(s[1..]));
  }

  lemma {:induction false} DigitRun(s: string, d: string, rest: string)
    requires s == d + rest && AllDigits(d)
    requires rest == "" || !IsDigit(rest[0])
    ensures DigitLen(s) == |d| && s[..|d|] == d && s[|d|..] == rest
  {
    if d != "" {
      DigitRun(s[1..], d[1..], rest);
    }
  }

  /** Appending digits never makes a number smaller. */
  lemma {:induction false} DecValGrows(s: string, k: nat)
    requires AllDigits(s) && k <= |s|
    ensures DecVal(s[..k]) <= DecVal(s)
  {
    if k < |s| {
      DecValGrows(s[..|s| - 1], k);
      assert s[..|s| - 1][..k] == s[..k];
    } else {
      assert s[..k] == s;
    }
  }

  lemma {:induction false} FindKindIs(es: seq<Entry>)
    ensures FindKind(es).None? <==> forall i :: 0 <= i < |es| ==> !es[i].KindIs?
    ensures FindKind(es).Some? ==> KindIs(FindKind(es).value) in es
  {
    if es != [] && !es[0].KindIs? {
      FindKindIs(es[1..]);
      assert es == [es[0]] + es[1..];
    }
  }

  lemma {:induction false} FindCountIs(es: seq<Entry>, k: Counter)
    ensures FindCount(es, k).None? <==> forall i :: 0 <= i < |es| ==> !(es[i].Count? && es[i].counter == k)
    ensures FindCount(es, k).Some? ==> Count(k, FindCount(es, k).value) in es
  {
    if es != [] && !(es[0].Count? && es[0].counter == k) {
      FindCountIs(es[1..], k);
      assert es == [es[0]] + es[1..];
    }
  }

  lemma {:induction false} FindKindAppend(es: seq<Entry>, e: Entry)
    ensures FindKind(es + [e]) == if FindKind(es).Some? then FindKind(es) else if e.KindIs? then Some(e.word) else None
  {
    if es != [] {
      assert (es + [e])[1..] == es[1..] + [e];
      FindKindAppend(es[1..], e);
    }
  }

  lemma {:induction false} FindCountAppend(es: seq<Entry>, e: Entry, k: Counter)
    ensures FindCount(es + [e], k) ==
            if FindCount(es, k).Some? then FindCount(es, k)
            else if e.Count? && e.counter == k then Some(e.n) else None
  {
    if es != [] {
      assert (es + [e])[1..] == es[1..] + [e];
      FindCountAppend(es[1..], e, k);
    }
  }

  /** A field is free to come exactly when it has not come yet, and it fills only its own slot. */
  lemma AddField(es: seq<Entry>, e: Entry)
    requires Distinct(es)
    ensures Distinct(es + [e]) <==> Free(SlotsOf(es), e)
    ensures Free(SlotsOf(es), e) ==> SlotsOf(es + [e]) == Fill(SlotsOf(es), e)
  {
    FindKindIs(es);
    FindKindAppend(es, e);
    FindCountAppend(es, e, CompletedUnix);
    FindCountAppend(es, e, Files);
    FindCountAppend(es, e, Bytes);
    FindCountAppend(es, e, CoveredMtime);
    if e.Count? {
      FindCountIs(es, e.counter);
    }
    if !Free(SlotsOf(es), e) {
      var x :| x in es && SameField(x, e);
      var i :| 0 <= i < |es| && es[i] == x;
      assert SameField((es + [e])[i], (es + [e])[|es|]);
    }
  }

  /** Once a field has been refused the object is refused, whatever follows. */
  lemma RefusedField(fields: string, es: seq<Entry>, here: string)
    requires Distinct(es)
    requires Entries(fields) == Prepend(es, Entries(here))
    requires OneEntry(here).None? || !Free(SlotsOf(es), OneEntry(here).value.0)
    ensures Entries(fields).Some? ==> Assemble(Entries(fields).value.0).None?
  {
    if Entries(fields).Some? {
      var (e, s1) := OneEntry(here).value;
      var all := Entries(fields).value.0;
      AddField(es, e);
      assert es + [e] <= all;
      var i, j :| 0 <= i < j < |es + [e]| && SameField((es + [e])[i], (es + [e])[j]);
      assert SameField(all[i], all[j]);
    }
  }
}
