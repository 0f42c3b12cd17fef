/**
 The receipt format as a grammar, written without reference to the parser, and the proof
 that the parser of `Replica` accepts exactly its texts and gives exactly their meaning.
 */
module ReceiptGrammar {
  import opened Wrappers
  import opened Text
  import opened Replica

  /** White space between tokens, section 2 of RFC 8259: tab, line feed, carriage return and space, by their codes. */
  predicate IsGap(c: char) {
    var n := c as int;
    n == 0x09 || n == 0x0A || n == 0x0D || n == 0x20
  }

  predicate Gap(s: string) {
    forall i :: 0 <= i < |s| ==> IsGap(s[i])
  }

  /** What may stand in quotes: seven bits, no control character below the space, no quote and no backslash. */
  predicate IsLetter(c: char) {
    var n := c as int;
    0x20 <= n <= 0x7F && n != 0x22 && n != 0x5C
  }

  predicate Letters(s: string) {
    forall i :: 0 <= i < |s| ==> IsLetter(s[i])
  }

  // A piece of the format is printed in front of the text that follows it.

  function NameOf(e: Entry): string {
    if e.KindIs? then "kind" else CounterText(e.counter)
  }

  function ValueThen(e: Entry, rest: string): string {
    if e.KindIs? then Quoted(e.word, rest) else Dec(e.n) + rest
  }

  /** One field with the white space around its four tokens. */
  datatype SpacedEntry = SpacedEntry(w0: string, w1: string, w2: string, w3: string, entry: Entry) {
    predicate WellFormed() {
      Gap(w0) && Gap(w1) && Gap(w2) && Gap(w3) && (entry.KindIs? ==> Letters(entry.word))
    }

    function Then(rest: string): string {
      w0 + Quoted(NameOf(entry), w1 + (":" + (w2 + ValueThen(entry, w3 + rest))))
    }
  }

  predicate AllFields(xs: seq<SpacedEntry>) {
    forall i :: 0 <= i < |xs| ==> xs[i].WellFormed()
  }

  /** The fields of an object, separated by commas. */
  function FieldsThen(xs: seq<SpacedEntry>, rest: string): string
    requires xs != []
  {
    if |xs| == 1 then xs[0].Then(rest) else xs[0].Then("," + FieldsThen(xs[1..], rest))
  }

  function Bare(xs: seq<SpacedEntry>): seq<Entry> {
    seq(|xs|, i requires 0 <= i < |xs| => xs[i].entry)
  }

  /**
   The receipt that fields stand for. Their order plays no part. A drill may also carry a
   `covered_mtime`, which is dropped.
   */
  ghost predicate Mean(es: seq<Entry>, r: Receipt) {
    && Distinct(es)
    && Count(CompletedUnix, r.completedUnix) in es && Count(Files, r.files) in es && Count(Bytes, r.bytes) in es
    && KindIs(r.Kind()) in es
    && (r.Replication? ==> Count(CoveredMtime, r.coveredMtime) in es)
  }

  datatype Object = Object(w0: string, fields: seq<SpacedEntry>, w1: string) {
    predicate WellFormed() {
      Gap(w0) && Gap(w1) && fields != [] && AllFields(fields)
    }

    function Then(rest: string): string
      requires WellFormed()
    {
      w0 + ("{" + FieldsThen(fields, "}" + (w1 + rest)))
    }
  }

  predicate AllObjects(os: seq<Object>) {
    forall i :: 0 <= i < |os| ==> os[i].WellFormed()
  }

  function ObjectsThen(os: seq<Object>, rest: string): string
    requires os != [] && AllObjects(os)
  {
    if |os| == 1 then os[0].Then(rest) else os[0].Then("," + ObjectsThen(os[1..], rest))
  }

  ghost predicate ObjectsMean(os: seq<Object>, rs: seq<Receipt>) {
    |os| == |rs| && forall i :: 0 <= i < |rs| ==> Mean(Bare(os[i].fields), rs[i])
  }

  /** A whole evidence file: a list of no receipts, or of some. */
  datatype Document =
    | NoObjects(w0: string, w1: string, w2: string)
    | Objects(w0: string, objects: seq<Object>, w2: string)
  {
    predicate WellFormed() {
      Gap(w0) && Gap(w2) && if NoObjects? then Gap(w1) else objects != [] && AllObjects(objects)
    }

    function Text(): string
      requires WellFormed()
    {
      w0 + ("[" + if NoObjects? then w1 + ("]" + w2) else ObjectsThen(objects, "]" + w2))
    }

    ghost predicate Means(rs: seq<Receipt>) {
      if NoObjects? then rs == [] else ObjectsMean(objects, rs)
    }
  }

  // ---------------------------------------------------------------- tokens

  lemma {:induction false} SkipBlankOf(w: string, s: string)
    requires Gap(w)
    requires s == "" || !IsBlank(s[0])
    ensures SkipBlank(w + s) == s
  {
    if w == "" {
      assert w + s == s;
    } else {
      assert (w + s)[1..] == w[1..] + s;
      SkipBlankOf(w[1..], s);
    }
  }

  lemma {:induction false} SkipBlankSplits(s: string) returns (w: string)
    ensures Gap(w) && s == w + SkipBlank(s)
    ensures SkipBlank(s) == "" || !IsBlank(SkipBlank(s)[0])
  {
    if s != "" && IsBlank(s[0]) {
      var v := SkipBlankSplits(s[1..]);
      w := [s[0]] + v;
      calc {
        s;
        [s[0]] + s[1..];
        [s[0]] + (v + SkipBlank(s));
        w + SkipBlank(s);
      }
    } else {
      w := "";
    }
  }

  lemma {:induction false} WordBodyOf(w: string, s: string)
    requires Letters(w)
    ensures WordBody(w + ("\"" + s)) == Some((w, s))
  {
    var t := w + ("\"" + s);
    if w == "" {
      assert t == "\"" + s;
    } else {
      assert t[1..] == w[1..] + ("\"" + s);
      WordBodyOf(w[1..], s);
      assert [w[0]] + w[1..] == w;
    }
  }

  lemma WordOf(w: string, s: string)
    requires Letters(w)
    ensures Word(Quoted(w, s)) == Some((w, s))
  {
    assert Quoted(w, s)[1..] == w + ("\"" + s);
    WordBodyOf(w, s);
  }

  lemma {:induction false} WordBodySound(s: string)
    requires WordBody(s).Some?
    ensures var (w, rest) := WordBody(s).value; Letters(w) && s == w + ("\"" + rest)
  {
    if s[0] == '"' {
      assert s == "" + ("\"" + s[1..]);
    } else {
      WordBodySound(s[1..]);
      var (w, rest) := WordBody(s[1..]).value;
      calc {
        s;
        [s[0]] + s[1..];
        [s[0]] + (w + ("\"" + rest));
        ([s[0]] + w) + ("\"" + rest);
      }
    }
  }

  lemma WordSound(s: string)
    requires Word(s).Some?
    ensures var (w, rest) := Word(s).value; Letters(w) && s == Quoted(w, rest)
  {
    WordBodySound(s[1..]);
    assert s == "\"" + s[1..];
  }

  lemma NumberOf(n: u64, s: string)
    requires s == "" || !IsDigit(s[0])
    ensures Number(Dec(n) + s) == Some((n, s))
  {
    DecValDec(n);
    DigitRun(Dec(n) + s, Dec(n), s);
  }

  /** A number is read only where the text starts with the decimal form of it. */
  lemma NumberSound(s: string)
    requires Number(s).Some?
    ensures var (n, rest) := Number(s).value; s == Dec(n) + rest && (rest == "" || !IsDigit(rest[0]))
  {
    DecDecVal(s[..DigitLen(s)]);
  }

  /**
   The numbers read are exactly those up to 2^64 - 1 in their one decimal form, taken to the last
   digit: no leading zero, no sign, nothing empty, and nothing that overflows.
   */
  lemma NumberExactly(s: string, n: nat, rest: string)
    ensures Number(s) == Some((n, rest)) <==>
            n <= U64_MAX && s == Dec(n) + rest && (rest == "" || !IsDigit(rest[0]))
  {
    if n <= U64_MAX && s == Dec(n) + rest && (rest == "" || !IsDigit(rest[0])) {
      NumberOf(n, rest);
    }
    if Number(s) == Some((n, rest)) {
      NumberSound(s);
    }
  }

  // ---------------------------------------------------------------- one field

  predicate EndsField(s: string) {
    s != "" && (s[0] == ',' || s[0] == '}')
  }

  lemma ValueOf(e: Entry, s: string)
    requires e.KindIs? ==> Letters(e.word)
    requires s == "" || !IsDigit(s[0])
    ensures FieldValue(NameOf(e), ValueThen(e, s)) == Some((e, s))
  {
    if e.KindIs? {
      WordOf(e.word, s);
    } else {
      NumberOf(e.n, s);
    }
  }

  lemma ValueSound(key: string, s: string)
    requires FieldValue(key, s).Some?
    ensures var (e, rest) := FieldValue(key, s).value;
            key == NameOf(e) && s == ValueThen(e, rest) && (e.KindIs? ==> Letters(e.word))
  {
    if key == "kind" {
      WordSound(s);
    } else {
      NumberSound(s);
    }
  }

  lemma NameIsPlain(e: Entry)
    ensures Letters(NameOf(e))
  {
  }

  lemma ValueStarts(e: Entry, s: string)
    ensures ValueThen(e, s) != "" && !IsBlank(ValueThen(e, s)[0])
  {
  }

  lemma NameComplete(x: SpacedEntry, s: string)
    requires x.WellFormed()
    ensures FieldName(x.Then(s)) == Some((NameOf(x.entry), ValueThen(x.entry, x.w3 + s)))
  {
    var value := ValueThen(x.entry, x.w3 + s);
    var colon := ":" + (x.w2 + value);
    NameIsPlain(x.entry);
    ValueStarts(x.entry, x.w3 + s);
    SkipBlankOf(x.w0, Quoted(NameOf(x.entry), x.w1 + colon));
    WordOf(NameOf(x.entry), x.w1 + colon);
    SkipBlankOf(x.w1, colon);
    assert colon[1..] == x.w2 + value;
    SkipBlankOf(x.w2, value);
  }

  lemma FieldComplete(x: SpacedEntry, s: string)
    requires x.WellFormed() && EndsField(s)
    ensures OneEntry(x.Then(s)) == Some((x.entry, s))
  {
    NameComplete(x, s);
    assert x.w3 == "" ==> x.w3 + s == s;
    ValueOf(x.entry, x.w3 + s);
    SkipBlankOf(x.w3, s);
  }

  lemma NameSound(s: string) returns (w0: string, w1: string, w2: string)
    requires FieldName(s).Some?
    ensures Gap(w0) && Gap(w1) && Gap(w2)
    ensures var (key, rest) := FieldName(s).value; s == w0 + Quoted(key, w1 + (":" + (w2 + rest)))
  {
    w0 := SkipBlankSplits(s);
    WordSound(SkipBlank(s));
    var (key, s1) := Word(SkipBlank(s)).value;
    w1 := SkipBlankSplits(s1);
    var s2 := SkipBlank(s1);
    assert s2 == ":" + s2[1..];
    w2 := SkipBlankSplits(s2[1..]);
  }

  lemma FieldSound(s: string) returns (x: SpacedEntry)
    requires OneEntry(s).Some?
    ensures x.WellFormed() && x.entry == OneEntry(s).value.0 && s == x.Then(OneEntry(s).value.1)
  {
    var w0, w1, w2 := NameSound(s);
    var (key, s1) := FieldName(s).value;
    ValueSound(key, s1);
    var (e, s2) := FieldValue(key, s1).value;
    var w3 := SkipBlankSplits(s2);
    x := SpacedEntry(w0, w1, w2, w3, e);
  }

  // ---------------------------------------------------------------- one object

  lemma LastField(x: SpacedEntry, s: string)
    requires x.WellFormed()
    ensures Entries(x.Then("}" + s)) == Some(([x.entry], s))
  {
    FieldComplete(x, "}" + s);
    assert ("}" + s)[1..] == s;
  }

  lemma NextField(x: SpacedEntry, s: string)
    requires x.WellFormed()
    ensures Entries(x.Then("," + s)) == Prepend([x.entry], Entries(s))
  {
    FieldComplete(x, "," + s);
    assert ("," + s)[1..] == s;
  }

  lemma BareCons(xs: seq<SpacedEntry>)
    requires xs != []
    ensures Bare(xs) == [xs[0].entry] + Bare(xs[1..])
  {
  }

  lemma {:induction false} FieldsComplete(xs: seq<SpacedEntry>, s: string)
    requires xs != [] && AllFields(xs)
    ensures Entries(FieldsThen(xs, "}" + s)) == Some((Bare(xs), s))
  {
    if |xs| == 1 {
      LastField(xs[0], s);
      BareCons(xs);
      assert [xs[0].entry] + Bare(xs[1..]) == [xs[0].entry];
    } else {
      var rest := FieldsThen(xs[1..], "}" + s);
      calc {
        Entries(FieldsThen(xs, "}" + s));
        Entries(xs[0].Then("," + rest));
        { NextField(xs[0], rest); }
        Prepend([xs[0].entry], Entries(rest));
        { FieldsComplete(xs[1..], s); }
        Some(([xs[0].entry] + Bare(xs[1..]), s));
        { BareCons(xs); }
        Some((Bare(xs), s));
      }
    }
  }

  lemma FieldsCons(x: SpacedEntry, ys: seq<SpacedEntry>, s: string)
    requires ys != [] && AllFields(ys) && x.WellFormed()
    ensures AllFields([x] + ys)
    ensures Bare([x] + ys) == [x.entry] + Bare(ys)
    ensures FieldsThen([x] + ys, s) == x.Then("," + FieldsThen(ys, s))
  {
    assert ([x] + ys)[1..] == ys;
    BareCons([x] + ys);
  }

  lemma {:induction false} FieldsSound(s: string) returns (xs: seq<SpacedEntry>)
    requires Entries(s).Some?
    ensures xs != [] && AllFields(xs)
    ensures var (es, rest) := Entries(s).value; Bare(xs) == es && s == FieldsThen(xs, "}" + rest)
    decreases |s|
  {
    var x := FieldSound(s);
    var (e, s1) := OneEntry(s).value;
    assert s1 == [s1[0]] + s1[1..];
    if s1[0] == '}' {
      xs := [x];
    } else {
      var ys := FieldsSound(s1[1..]);
      xs := [x] + ys;
      FieldsCons(x, ys, "}" + Entries(s1[1..]).value.1);
    }
  }

  /** Looking a field up in distinct fields finds exactly the one that is there. */
  lemma FindExact(es: seq<Entry>, k: Counter, n: u64)
    requires Distinct(es)
    ensures FindCount(es, k) == Some(n) <==> Count(k, n) in es
  {
    FindCountIs(es, k);
    if Count(k, n) in es && FindCount(es, k).Some? {
      var m := FindCount(es, k).value;
      assert SameField(Count(k, n), Count(k, m));
    }
  }

  lemma FindKindExact(es: seq<Entry>, w: string)
    requires Distinct(es)
    ensures FindKind(es) == Some(w) <==> KindIs(w) in es
  {
    FindKindIs(es);
    if KindIs(w) in es && FindKind(es).Some? {
      assert SameField(KindIs(w), KindIs(FindKind(es).value));
    }
  }

  /** Fields add up to a receipt exactly when they mean that receipt. */
  lemma AssembleExact(es: seq<Entry>, r: Receipt)
    ensures Assemble(es) == Some(r) <==> Mean(es, r)
  {
    if Distinct(es) {
      FindExact(es, CompletedUnix, r.completedUnix);
      FindExact(es, Files, r.files);
      FindExact(es, Bytes, r.bytes);
      FindKindExact(es, r.Kind());
      if r.Replication? {
        FindExact(es, CoveredMtime, r.coveredMtime);
      }
    }
  }

  lemma ObjectComplete(o: Object, r: Receipt, s: string)
    requires o.WellFormed() && Mean(Bare(o.fields), r)
    ensures OneReceipt(SkipBlank(o.Then(s))) == Some((r, o.w1 + s))
  {
    var body := FieldsThen(o.fields, "}" + (o.w1 + s));
    SkipBlankOf(o.w0, "{" + body);
    assert ("{" + body)[1..] == body;
    FieldsComplete(o.fields, o.w1 + s);
    AssembleExact(Bare(o.fields), r);
  }

  lemma ReceiptBody(s: string) returns (body: string)
    requires OneReceipt(s).Some?
    ensures s == "{" + body && Entries(body).Some?
    ensures var (r, rest) := OneReceipt(s).value;
            Assemble(Entries(body).value.0) == Some(r) && Entries(body).value.1 == rest
  {
    body := s[1..];
  }

  lemma ObjectSound(s: string) returns (o: Object)
    requires OneReceipt(SkipBlank(s)).Some?
    ensures o.WellFormed()
    ensures var (r, rest) := OneReceipt(SkipBlank(s)).value;
            Mean(Bare(o.fields), r) && s == o.Then(SkipBlank(rest))
  {
    var w0 := SkipBlankSplits(s);
    var s0 := SkipBlank(s);
    var body := ReceiptBody(s0);
    var xs := FieldsSound(body);
    var (r, rest) := OneReceipt(s0).value;
    var w1 := SkipBlankSplits(rest);
    o := Object(w0, xs, w1);
    AssembleExact(Bare(xs), r);
  }

  // ---------------------------------------------------------------- the whole file

  lemma LastObject(o: Object, r: Receipt, s: string)
    requires o.WellFormed() && Mean(Bare(o.fields), r)
    ensures Receipts(o.Then("]" + s)) == Some(([r], s))
  {
    ObjectComplete(o, r, "]" + s);
    SkipBlankOf(o.w1, "]" + s);
    assert ("]" + s)[1..] == s;
  }

  lemma NextObject(o: Object, r: Receipt, s: string)
    requires o.WellFormed() && Mean(Bare(o.fields), r)
    ensures Receipts(o.Then("," + s)) == Prepend([r], Receipts(s))
  {
    ObjectComplete(o, r, "," + s);
    SkipBlankOf(o.w1, "," + s);
    assert ("," + s)[1..] == s;
  }

  lemma {:induction false} ReceiptsComplete(os: seq<Object>, rs: seq<Receipt>, s: string)
    requires os != [] && AllObjects(os) && ObjectsMean(os, rs)
    ensures Receipts(ObjectsThen(os, "]" + s)) == Some((rs, s))
  {
    if |os| == 1 {
      LastObject(os[0], rs[0], s);
      assert rs == [rs[0]];
    } else {
      var rest := ObjectsThen(os[1..], "]" + s);
      calc {
        Receipts(ObjectsThen(os, "]" + s));
        Receipts(os[0].Then("," + rest));
        { NextObject(os[0], rs[0], rest); }
        Prepend([rs[0]], Receipts(rest));
        { ReceiptsComplete(os[1..], rs[1..], s); }
        Some(([rs[0]] + rs[1..], s));
        { assert rs == [rs[0]] + rs[1..]; }
        Some((rs, s));
      }
    }
  }

  lemma ObjectsCons(o: Object, os: seq<Object>, s: string)
    requires os != [] && AllObjects(os) && o.WellFormed()
    ensures AllObjects([o] + os)
    ensures ObjectsThen([o] + os, s) == o.Then("," + ObjectsThen(os, s))
  {
    assert ([o] + os)[1..] == os;
  }

  lemma {:induction false} ReceiptsSound(s: string) returns (os: seq<Object>)
    requires Receipts(s).Some?
    ensures os != [] && AllObjects(os)
    ensures var (rs, rest) := Receipts(s).value; ObjectsMean(os, rs) && s == ObjectsThen(os, "]" + rest)
    decreases |s|
  {
    var o, r, next := FirstObject(s);
    if Receipts(s) == Some(([r], next)) && s == o.Then("]" + next) {
      os := [o];
    } else {
      var more := ReceiptsSound(next);
      os := [o] + more;
      var (rs, rest) := Receipts(next).value;
      ObjectsCons(o, more, "]" + rest);
      MeanCons(o, r, more, rs);
      assert Receipts(s) == Some(([r] + rs, rest));
    }
  }

  lemma MeanCons(o: Object, r: Receipt, os: seq<Object>, rs: seq<Receipt>)
    requires Mean(Bare(o.fields), r) && ObjectsMean(os, rs)
    ensures ObjectsMean([o] + os, [r] + rs)
  {
  }

  /** The first receipt of an accepted list, and what stands behind the bracket or the comma after it. */
  lemma FirstObject(s: string) returns (o: Object, r: Receipt, next: string)
    requires Receipts(s).Some?
    ensures o.WellFormed() && Mean(Bare(o.fields), r) && |next| < |s|
    ensures || (Receipts(s) == Some(([r], next)) && s == o.Then("]" + next))
            || (Receipts(s) == Prepend([r], Receipts(next)) && Receipts(next).Some? && s == o.Then("," + next))
  {
    var first, s2 := ReceiptsStep(s);
    o := ObjectSound(s);
    r, next := first, s2[1..];
    assert s2 == [s2[0]] + next;
  }

  lemma ReceiptsStep(s: string) returns (r: Receipt, s2: string)
    requires Receipts(s).Some?
    ensures OneReceipt(SkipBlank(s)).Some? && r == OneReceipt(SkipBlank(s)).value.0
    ensures s2 == SkipBlank(OneReceipt(SkipBlank(s)).value.1) && s2 != "" && |s2| <= |s|
    ensures || (s2[0] == ']' && Receipts(s) == Some(([r], s2[1..])))
            || (s2[0] == ',' && Receipts(s2[1..]).Some? && Receipts(s) == Prepend([r], Receipts(s2[1..])))
  {
    r := OneReceipt(SkipBlank(s)).value.0;
    s2 := SkipBlank(OneReceipt(SkipBlank(s)).value.1);
  }

  /** Receipts may be preceded by white space, which the parser has already skipped. */
  lemma ReceiptsSkip(s: string)
    ensures Receipts(SkipBlank(s)) == Receipts(s)
  {
    var w := SkipBlankSplits(s);
    SkipBlankOf("", SkipBlank(s));
    assert "" + SkipBlank(s) == SkipBlank(s);
  }

  /** A list of receipts does not close before its first one. */
  lemma ObjectsStart(os: seq<Object>, s: string)
    requires os != [] && AllObjects(os)
    ensures var t := SkipBlank(ObjectsThen(os, s)); t != "" && t[0] == '{'
  {
    var after := if |os| == 1 then s else "," + ObjectsThen(os[1..], s);
    SkipBlankOf(os[0].w0, "{" + FieldsThen(os[0].fields, "}" + (os[0].w1 + after)));
  }

  /** Every text of the grammar is accepted, with exactly the receipts it means. */
  lemma DocumentComplete(d: Document, rs: seq<Receipt>)
    requires d.WellFormed() && d.Means(rs)
    ensures Evidence(d.Text()) == Some(rs)
  {
    var body := if d.NoObjects? then d.w1 + ("]" + d.w2) else ObjectsThen(d.objects, "]" + d.w2);
    SkipBlankOf(d.w0, "[" + body);
    assert ("[" + body)[1..] == body;
    assert d.w2 + "" == d.w2;
    SkipBlankOf(d.w2, "");
    if d.NoObjects? {
      SkipBlankOf(d.w1, "]" + d.w2);
      assert ("]" + d.w2)[1..] == d.w2;
    } else {
      ObjectsStart(d.objects, "]" + d.w2);
      ReceiptsSkip(body);
      ReceiptsComplete(d.objects, rs, d.w2);
    }
  }

  /** Every text the parser accepts is a text of the grammar that means what was returned. */
  lemma DocumentSound(s: string) returns (d: Document)
    requires Evidence(s).Some?
    ensures d.WellFormed() && d.Text() == s && d.Means(Evidence(s).value)
  {
    var w0 := SkipBlankSplits(s);
    var s0 := SkipBlank(s);
    var body := s0[1..];
    assert s0 == "[" + body;
    var s1 := SkipBlank(body);
    if s1 != "" && s1[0] == ']' {
      d := EmptySound(w0, body);
    } else {
      ReceiptsSkip(body);
      d := ListSound(w0, body);
    }
  }

  lemma EmptySound(w0: string, body: string) returns (d: Document)
    requires Gap(w0) && SkipBlank(body) != "" && SkipBlank(body)[0] == ']' && SkipBlank(SkipBlank(body)[1..]) == ""
    ensures d.WellFormed() && d.Text() == w0 + ("[" + body) && d.Means([])
  {
    var s1 := SkipBlank(body);
    var w1 := SkipBlankSplits(body);
    assert s1 == "]" + s1[1..];
    var w2 := BlankToTheEnd(s1[1..]);
    d := NoObjects(w0, w1, w2);
  }

  lemma ListSound(w0: string, body: string) returns (d: Document)
    requires Gap(w0) && Receipts(body).Some? && SkipBlank(Receipts(body).value.1) == ""
    ensures d.WellFormed() && d.Text() == w0 + ("[" + body) && d.Means(Receipts(body).value.0)
  {
    var os := ReceiptsSound(body);
    var w2 := BlankToTheEnd(Receipts(body).value.1);
    d := Objects(w0, os, w2);
  }

  lemma BlankToTheEnd(s: string) returns (w: string)
    requires SkipBlank(s) == ""
    ensures Gap(w) && s == w
  {
    w := SkipBlankSplits(s);
    assert w + "" == w;
  }

  /** The parser decides the grammar: it returns `rs` exactly for the texts that mean `rs`. */
  lemma ParserIsGrammar(s: string, rs: seq<Receipt>)
    ensures Evidence(s) == Some(rs) <==> exists d: Document :: d.WellFormed() && d.Text() == s && d.Means(rs)
  {
    if Evidence(s) == Some(rs) {
      var d := DocumentSound(s);
    }
    forall d: Document | d.WellFormed() && d.Text() == s && d.Means(rs)
      ensures Evidence(s) == Some(rs)
    {
      DocumentComplete(d, rs);
    }
  }
}
