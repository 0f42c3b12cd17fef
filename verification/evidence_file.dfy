/**
 The evidence file over its life: what repeated upserts leave in it, and what the cell may
 conclude from it at a given moment. `core/src/replica.rs`, after its parser.
 */
module EvidenceFile {
  import opened Wrappers
  import opened Text
  import opened Durability
  import opened Replica
  import opened ReceiptGrammar

  /** Receipts separated by commas, then the closing bracket. */
  function ListThen(rs: seq<Receipt>, rest: string): string {
    if rs == [] then rest
    else if |rs| == 1 then rs[0].RenderThen(rest)
    else rs[0].RenderThen("," + ListThen(rs[1..], rest))
  }

  /** The text written for a list of receipts. */
  function RenderList(rs: seq<Receipt>): string {
    "[" + ListThen(rs, "]")
  }

  function OfOtherKinds(kind: string, rs: seq<Receipt>): seq<Receipt> {
    if rs == [] then []
    else (if rs[0].Kind() != kind then [rs[0]] else []) + OfOtherKinds(kind, rs[1..])
  }

  /** Folds one receipt into the text of an evidence file; `None` when that text cannot be read. */
  function Upsert(existing: Option<string>, claim: Receipt): Option<string> {
    var held := match existing
                case None => Some([])
                case Some(text) => Evidence(text);
    match held
    case None => None
    case Some(rs) => Some(RenderList(OfOtherKinds(claim.Kind(), rs) + [claim]))
  }

  /** The receipt of a kind with the greatest completion time, the last of these if several. */
  function Latest(kind: string, rs: seq<Receipt>): Option<Receipt> {
    if rs == [] then None
    else
      var before := Latest(kind, rs[..|rs| - 1]);
      var r := rs[|rs| - 1];
      if r.Kind() != kind then before
      else if before.Some? && before.value.completedUnix > r.completedUnix then before
      else Some(r)
  }

  function JudgeLag(completed: u64, covered: u64, now: u64, sinceStart: Duration): RecoveryPoint {
    if completed > now || covered > now then Unreachable
    else if now - completed > MEASUREMENT_STANDS_FOR_SECS then Unreachable
    else Behind((now - covered) * SECOND, sinceStart)
  }

  function PostureParts(evidence: Option<string>, today: Option<u64>, sinceStart: Duration): (RecoveryPoint, BackupState) {
    match evidence
    case None => (NoReplica, NotConfigured)
    case Some(text) =>
      match Evidence(text)
      case None => (Unreachable, RestoreFailed)
      case Some(rs) => (Recovery(rs, today, sinceStart), Backup(rs))
  }

  function Recovery(rs: seq<Receipt>, today: Option<u64>, sinceStart: Duration): RecoveryPoint {
    match today
    case None => if rs == [] then NoReplica else Unreachable
    case Some(now) =>
      match Latest(REPLICATION, rs)
      case Some(Replication(completed, _, _, covered)) => JudgeLag(completed, covered, now, sinceStart)
      case _ => NoReplica
  }

  function Backup(rs: seq<Receipt>): BackupState {
    match Latest(RESTORE_DRILL, rs)
    case Some(RestoreDrill(at, _, _)) => Restored(at)
    case _ => if Latest(REPLICATION, rs).Some? then NeverRestored else NotConfigured
  }

  // ---------------------------------------------------------------- printing and reading back

  /** The fields of a receipt as it is printed, with no white space. */
  function PrintedFields(r: Receipt): seq<SpacedEntry> {
    var k, c, f, b := Tight(KindIs(r.Kind())), Tight(Count(CompletedUnix, r.completedUnix)), Tight(Count(Files, r.files)), Tight(Count(Bytes, r.bytes));
    if r.Replication? then [k, c, f, b, Tight(Count(CoveredMtime, r.coveredMtime))] else [k, c, f, b]
  }

  function Tight(e: Entry): SpacedEntry {
    SpacedEntry("", "", "", "", e)
  }

  lemma TightCount(k: Counter, n: u64, s: string)
    ensures Tight(Count(k, n)).Then(s) == CountThen(k, n, s)
  {
    var v := Dec(n) + s;
    assert "" + s == s && "" + v == v && "" + (":" + v) == ":" + v;
    var q := Quoted(CounterText(k), ":" + v);
    assert "" + q == q;
  }

  lemma TightKind(w: string, s: string)
    ensures Tight(KindIs(w)).Then(s) == Quoted("kind", ":" + Quoted(w, s))
  {
    var v := Quoted(w, s);
    assert "" + s == s && "" + v == v && "" + (":" + v) == ":" + v;
    var q := Quoted("kind", ":" + v);
    assert "" + q == q;
  }

  lemma FourFields(a: SpacedEntry, b: SpacedEntry, c: SpacedEntry, d: SpacedEntry, s: string)
    ensures FieldsThen([a, b, c, d], s) == a.Then("," + b.Then("," + c.Then("," + d.Then(s))))
  {
    assert [a, b, c, d][1..] == [b, c, d] && [b, c, d][1..] == [c, d] && [c, d][1..] == [d];
    assert FieldsThen([c, d], s) == c.Then("," + d.Then(s));
  }

  lemma FiveFields(a: SpacedEntry, b: SpacedEntry, c: SpacedEntry, d: SpacedEntry, e: SpacedEntry, s: string)
    ensures FieldsThen([a, b, c, d, e], s) == a.Then("," + b.Then("," + c.Then("," + d.Then("," + e.Then(s)))))
  {
    assert [a, b, c, d, e][1..] == [b, c, d, e];
    FourFields(b, c, d, e, s);
  }

  /** A printed receipt is an object of the grammar: fixed field order, no white space. */
  lemma PrintedIsObject(r: Receipt, s: string)
    ensures Printed(r).WellFormed() && Mean(Bare(Printed(r).fields), r)
    ensures Printed(r).Then(s) == r.RenderThen(s)
  {
    PrintedMeans(r);
    PrintedFieldsThen(r, "}" + s);
    assert "" + s == s;
    var t := "{" + FieldsThen(PrintedFields(r), "}" + s);
    assert "" + t == t;
  }

  lemma PrintedFieldsThen(r: Receipt, end: string)
    ensures FieldsThen(PrintedFields(r), end) ==
            Quoted("kind", ":" + Quoted(r.Kind(), "," + CountThen(CompletedUnix, r.completedUnix, "," +
            CountThen(Files, r.files, "," + CountThen(Bytes, r.bytes,
            if r.Replication? then "," + CountThen(CoveredMtime, r.coveredMtime, end) else end)))))
  {
    var k, c, f, b := KindIs(r.Kind()), Count(CompletedUnix, r.completedUnix), Count(Files, r.files), Count(Bytes, r.bytes);
    var after := end;
    if r.Replication? {
      var m := Count(CoveredMtime, r.coveredMtime);
      TightCount(CoveredMtime, r.coveredMtime, end);
      FiveFields(Tight(k), Tight(c), Tight(f), Tight(b), Tight(m), end);
      after := "," + Tight(m).Then(end);
    } else {
      FourFields(Tight(k), Tight(c), Tight(f), Tight(b), end);
    }
    TightCount(Bytes, r.bytes, after);
    TightCount(Files, r.files, "," + Tight(b).Then(after));
    TightCount(CompletedUnix, r.completedUnix, "," + Tight(f).Then("," + Tight(b).Then(after)));
    TightKind(r.Kind(), "," + Tight(c).Then("," + Tight(f).Then("," + Tight(b).Then(after))));
  }

  function Printed(r: Receipt): Object {
    Object("", PrintedFields(r), "")
  }

  function EntriesOf(r: Receipt): seq<Entry> {
    var k, c, f, b := KindIs(r.Kind()), Count(CompletedUnix, r.completedUnix), Count(Files, r.files), Count(Bytes, r.bytes);
    if r.Replication? then [k, c, f, b, Count(CoveredMtime, r.coveredMtime)] else [k, c, f, b]
  }

  lemma EntriesMean(r: Receipt)
    ensures Mean(EntriesOf(r), r)
  {
    var es := EntriesOf(r);
    assert es[0] in es && es[1] in es && es[2] in es && es[3] in es;
    if r.Replication? {
      assert es[4] in es;
    }
  }

  lemma PrintedField(r: Receipt, i: nat)
    requires i < |PrintedFields(r)|
    ensures |PrintedFields(r)| == |EntriesOf(r)|
    ensures PrintedFields(r)[i] == Tight(EntriesOf(r)[i]) && PrintedFields(r)[i].WellFormed()
  {
  }

  lemma PrintedMeans(r: Receipt)
    ensures Printed(r).WellFormed() && Mean(Bare(Printed(r).fields), r)
  {
    var xs, es := PrintedFields(r), EntriesOf(r);
    forall i | 0 <= i < |xs|
      ensures xs[i] == Tight(es[i]) && xs[i].WellFormed()
    {
      PrintedField(r, i);
    }
    assert Bare(xs) == es;
    EntriesMean(r);
  }

  lemma CountIs(k: Counter, n: u64, before: string, rest: string)
    requires before == "," + Quoted(CounterText(k), ":")
    ensures "," + CountThen(k, n, rest) == before + (Dec(n) + rest)
  {
    var tail := Dec(n) + rest;
    assert Quoted(CounterText(k), ":" + tail) == Quoted(CounterText(k), ":") + tail;
  }

  lemma HeadIs(kind: string, n: u64, open: string, name: string, rest: string)
    requires open == "{" + Quoted("kind", ":\"") && name == "\"," + Quoted(CounterText(CompletedUnix), ":")
    ensures "{" + Quoted("kind", ":" + Quoted(kind, "," + CountThen(CompletedUnix, n, rest))) == open + (kind + (name + (Dec(n) + rest)))
  {
    var tail := Dec(n) + rest;
    CountIs(CompletedUnix, n, "," + Quoted(CounterText(CompletedUnix), ":"), rest);
    assert Quoted(kind, "," + CountThen(CompletedUnix, n, rest)) == "\"" + (kind + (name + tail));
    assert Quoted("kind", ":" + ("\"" + (kind + (name + tail)))) == Quoted("kind", ":\"") + (kind + (name + tail));
  }

  /** The words between the values of a printed receipt. */
  lemma Names()
    ensures "{\"kind\":\"" == "{" + Quoted("kind", ":\"")
    ensures "\",\"completed_unix\":" == "\"," + Quoted(CounterText(CompletedUnix), ":")
    ensures ",\"files\":" == "," + Quoted(CounterText(Files), ":")
    ensures ",\"bytes\":" == "," + Quoted(CounterText(Bytes), ":")
    ensures ",\"covered_mtime\":" == "," + Quoted(CounterText(CoveredMtime), ":")
  {
  }

  /** The printed form, character for character. */
  lemma RenderIs(r: Receipt, rest: string)
    ensures r.RenderThen(rest) ==
            "{\"kind\":\"" + ((if r.Replication? then "replication" else "restore-drill")
            + ("\",\"completed_unix\":" + (Dec(r.completedUnix) + (",\"files\":" + (Dec(r.files) + (",\"bytes\":" + (Dec(r.bytes)
            + (if r.Replication? then ",\"covered_mtime\":" + (Dec(r.coveredMtime) + ("}" + rest)) else "}" + rest))))))))
  {
    Names();
    var last := "}" + rest;
    if r.Replication? {
      CountIs(CoveredMtime, r.coveredMtime, ",\"covered_mtime\":", last);
      last := "," + CountThen(CoveredMtime, r.coveredMtime, last);
    }
    var third := "," + CountThen(Bytes, r.bytes, last);
    CountIs(Bytes, r.bytes, ",\"bytes\":", last);
    CountIs(Files, r.files, ",\"files\":", third);
    HeadIs(r.Kind(), r.completedUnix, "{\"kind\":\"", "\",\"completed_unix\":", "," + CountThen(Files, r.files, third));
  }

  function AllPrinted(rs: seq<Receipt>): seq<Object> {
    seq(|rs|, i requires 0 <= i < |rs| => Printed(rs[i]))
  }

  lemma AllPrintedMean(rs: seq<Receipt>)
    ensures AllObjects(AllPrinted(rs)) && ObjectsMean(AllPrinted(rs), rs)
  {
    forall i | 0 <= i < |rs|
      ensures Printed(rs[i]).WellFormed() && Mean(Bare(Printed(rs[i]).fields), rs[i])
    {
      PrintedMeans(rs[i]);
    }
  }

  lemma AllPrintedCons(rs: seq<Receipt>)
    requires rs != []
    ensures AllPrinted(rs) == [Printed(rs[0])] + AllPrinted(rs[1..])
  {
  }

  lemma {:induction false} PrintedList(rs: seq<Receipt>, s: string)
    requires rs != [] && AllObjects(AllPrinted(rs))
    ensures ObjectsThen(AllPrinted(rs), s) == ListThen(rs, s)
  {
    var os := AllPrinted(rs);
    AllPrintedCons(rs);
    if |rs| == 1 {
      PrintedIsObject(rs[0], s);
    } else {
      var tail := ListThen(rs[1..], s);
      AllPrintedMean(rs[1..]);
      assert os[1..] == AllPrinted(rs[1..]);
      PrintedList(rs[1..], s);
      PrintedIsObject(rs[0], "," + tail);
    }
  }

  /** What is written for any list of receipts reads back as exactly that list. */
  lemma ListRoundTrip(rs: seq<Receipt>)
    ensures Evidence(RenderList(rs)) == Some(rs)
  {
    var d := if rs == [] then NoObjects("", "", "") else Objects("", AllPrinted(rs), "");
    assert "]" + "" == "]" && "" + "]" == "]";
    if rs != [] {
      AllPrintedMean(rs);
      PrintedList(rs, "]");
    }
    assert "" + RenderList(rs) == RenderList(rs);
    DocumentComplete(d, rs);
  }

  // ---------------------------------------------------------------- any number of upserts

  /** What the file holds after an upsert; a refused upsert leaves it as it was. */
  function Write(file: Option<string>, claim: Receipt): Option<string> {
    var text := Upsert(file, claim);
    if text.Some? then text else file
  }

  /** The file after these claims, starting from no file. */
  function FileAfter(claims: seq<Receipt>): Option<string> {
    if claims == [] then None else Write(FileAfter(claims[..|claims| - 1]), claims[|claims| - 1])
  }

  /** The last claim of a kind that was made. */
  function LastOf(kind: string, claims: seq<Receipt>): Option<Receipt> {
    if claims == [] then None
    else if claims[|claims| - 1].Kind() == kind then Some(claims[|claims| - 1])
    else LastOf(kind, claims[..|claims| - 1])
  }

  /** The receipts of one kind, in order. */
  function OfKind(kind: string, rs: seq<Receipt>): seq<Receipt> {
    if rs == [] then []
    else OfKind(kind, rs[..|rs| - 1]) + if rs[|rs| - 1].Kind() == kind then [rs[|rs| - 1]] else []
  }

  lemma {:induction false} OfKindConcat(kind: string, a: seq<Receipt>, b: seq<Receipt>)
    ensures OfKind(kind, a + b) == OfKind(kind, a) + OfKind(kind, b)
  {
    if b == [] {
      assert a + b == a;
    } else {
      assert (a + b)[..|a + b| - 1] == a + b[..|b| - 1];
      OfKindConcat(kind, a, b[..|b| - 1]);
    }
  }

  lemma {:induction false} OthersKept(kind: string, dropped: string, rs: seq<Receipt>)
    ensures OfKind(kind, OfOtherKinds(dropped, rs)) == if kind == dropped then [] else OfKind(kind, rs)
  {
    if rs != [] {
      assert rs == [rs[0]] + rs[1..];
      OfKindConcat(kind, [rs[0]], rs[1..]);
      OthersKept(kind, dropped, rs[1..]);
      OfKindConcat(kind, if rs[0].Kind() != dropped then [rs[0]] else [], OfOtherKinds(dropped, rs[1..]));
      assert [rs[0]][..0] == [];
    }
  }

  /** Of this kind, `rs` holds the last claim made and no other. */
  ghost predicate HoldsLastOf(kind: string, rs: seq<Receipt>, claims: seq<Receipt>) {
    OfKind(kind, rs) == if LastOf(kind, claims).Some? then [LastOf(kind, claims).value] else []
  }

  ghost predicate HoldsLast(rs: seq<Receipt>, claims: seq<Receipt>) {
    forall kind :: HoldsLastOf(kind, rs, claims)
  }

  lemma PutKeepsLastOf(kind: string, rs: seq<Receipt>, claims: seq<Receipt>, claim: Receipt)
    requires HoldsLastOf(kind, rs, claims)
    ensures HoldsLastOf(kind, OfOtherKinds(claim.Kind(), rs) + [claim], claims + [claim])
  {
    assert (claims + [claim])[..|claims|] == claims;
    OfKindConcat(kind, OfOtherKinds(claim.Kind(), rs), [claim]);
    OthersKept(kind, claim.Kind(), rs);
    assert [claim][..0] == [];
  }

  lemma PutKeepsLast(rs: seq<Receipt>, claims: seq<Receipt>, claim: Receipt)
    requires HoldsLast(rs, claims)
    ensures HoldsLast(OfOtherKinds(claim.Kind(), rs) + [claim], claims + [claim])
  {
    forall kind
      ensures HoldsLastOf(kind, OfOtherKinds(claim.Kind(), rs) + [claim], claims + [claim])
    {
      PutKeepsLastOf(kind, rs, claims, claim);
    }
  }

  /** The receipts in the file after these claims, as a list. */
  function HeldAfter(claims: seq<Receipt>): seq<Receipt> {
    if claims == [] then []
    else
      var claim := claims[|claims| - 1];
      OfOtherKinds(claim.Kind(), HeldAfter(claims[..|claims| - 1])) + [claim]
  }

  lemma WriteHeld(file: Option<string>, rs: seq<Receipt>, claim: Receipt)
    requires file == if rs == [] then None else Some(RenderList(rs))
    ensures Write(file, claim) == Some(RenderList(OfOtherKinds(claim.Kind(), rs) + [claim]))
  {
    ListRoundTrip(rs);
  }

  /** After any claims the file is the text of the receipts held, and it reads back as them. */
  lemma {:induction false} FileIsHeld(claims: seq<Receipt>)
    ensures FileAfter(claims) == if claims == [] then None else Some(RenderList(HeldAfter(claims)))
    ensures Evidence(RenderList(HeldAfter(claims))) == Some(HeldAfter(claims))
  {
    ListRoundTrip(HeldAfter(claims));
    if claims != [] {
      var init := claims[..|claims| - 1];
      FileIsHeld(init);
      WriteHeld(FileAfter(init), HeldAfter(init), claims[|claims| - 1]);
    }
  }

  /** The file holds, for each kind, the last claim of that kind and nothing else. */
  lemma {:induction false} HeldIsLast(claims: seq<Receipt>)
    ensures HoldsLast(HeldAfter(claims), claims)
  {
    if claims == [] {
      forall kind
        ensures HoldsLastOf(kind, HeldAfter(claims), claims)
      {
      }
    } else {
      var init, claim := claims[..|claims| - 1], claims[|claims| - 1];
      HeldIsLast(init);
      PutKeepsLast(HeldAfter(init), init, claim);
      assert init + [claim] == claims;
    }
  }

  function OtherKind(r: Receipt): string {
    if r.Replication? then "restore-drill" else "replication"
  }

  /** The receipts in the file: the last claim, behind the last one of the other kind if there was one. */
  lemma {:induction false} HeldExactly(claims: seq<Receipt>)
    requires claims != []
    ensures var last := claims[|claims| - 1];
            var other := LastOf(OtherKind(last), claims);
            HeldAfter(claims) == (if other.Some? then [other.value] else []) + [last]
  {
    var n := |claims| - 1;
    var last := claims[n];
    if n > 0 {
      var before := claims[..n][n - 1];
      HeldExactly(claims[..n]);
      LastIsOfKind(OtherKind(before), claims[..n]);
      PairWithout(LastOf(OtherKind(before), claims[..n]), before, last.Kind());
    }
  }

  lemma PairWithout(other: Option<Receipt>, r: Receipt, kind: string)
    requires other.Some? ==> other.value.Kind() != r.Kind()
    requires kind == REPLICATION || kind == RESTORE_DRILL
    ensures OfOtherKinds(kind, (if other.Some? then [other.value] else []) + [r]) ==
            if r.Kind() != kind then [r] else if other.Some? then [other.value] else []
  {
    OthersConcat(kind, if other.Some? then [other.value] else [], [r]);
    assert [r][1..] == [] && (other.Some? ==> [other.value][1..] == []);
  }

  lemma {:induction false} OthersConcat(kind: string, a: seq<Receipt>, b: seq<Receipt>)
    ensures OfOtherKinds(kind, a + b) == OfOtherKinds(kind, a) + OfOtherKinds(kind, b)
  {
    if a == [] {
      assert a + b == b;
    } else {
      var first := if a[0].Kind() != kind then [a[0]] else [];
      assert (a + b)[1..] == a[1..] + b;
      calc {
        OfOtherKinds(kind, a + b);
        first + OfOtherKinds(kind, a[1..] + b);
        { OthersConcat(kind, a[1..], b); }
        first + (OfOtherKinds(kind, a[1..]) + OfOtherKinds(kind, b));
        first + OfOtherKinds(kind, a[1..]) + OfOtherKinds(kind, b);
      }
    }
  }

  lemma {:induction false} OthersTwice(kind: string, rs: seq<Receipt>)
    ensures OfOtherKinds(kind, OfOtherKinds(kind, rs)) == OfOtherKinds(kind, rs)
  {
    if rs != [] {
      OthersTwice(kind, rs[1..]);
      OthersConcat(kind, if rs[0].Kind() != kind then [rs[0]] else [], OfOtherKinds(kind, rs[1..]));
      assert [rs[0]][1..] == [];
    }
  }

  lemma PutTwice(rs: seq<Receipt>, claim: Receipt)
    ensures var put := OfOtherKinds(claim.Kind(), rs) + [claim];
            OfOtherKinds(claim.Kind(), put) + [claim] == put
  {
    var kept := OfOtherKinds(claim.Kind(), rs);
    OthersConcat(claim.Kind(), kept, [claim]);
    OthersTwice(claim.Kind(), rs);
    assert [claim][1..] == [] && kept + [] == kept;
  }

  /** Making the same claim again changes nothing, and only an unreadable file refuses one. */
  lemma UpsertTwice(file: Option<string>, claim: Receipt)
    ensures Upsert(file, claim).None? <==> file.Some? && Evidence(file.value).None?
    ensures Upsert(file, claim).None? ==> Write(file, claim) == file
    ensures Upsert(file, claim).Some? ==> Upsert(Upsert(file, claim), claim) == Upsert(file, claim)
  {
    var held := if file.None? then Some([]) else Evidence(file.value);
    if held.Some? {
      var put := OfOtherKinds(claim.Kind(), held.value) + [claim];
      ListRoundTrip(put);
      PutTwice(held.value, claim);
      assert Upsert(Some(RenderList(put)), claim) == Some(RenderList(OfOtherKinds(claim.Kind(), put) + [claim]));
    }
  }

  // ---------------------------------------------------------------- what may be concluded

  /** Receipt `k` is of the kind, none of that kind is later, and none after it is as late. */
  ghost predicate IsLatest(kind: string, rs: seq<Receipt>, k: nat) {
    && k < |rs| && rs[k].Kind() == kind
    && (forall i :: 0 <= i < k && rs[i].Kind() == kind ==> rs[i].completedUnix <= rs[k].completedUnix)
    && (forall i :: k < i < |rs| && rs[i].Kind() == kind ==> rs[i].completedUnix < rs[k].completedUnix)
  }

  lemma LatestExtends(kind: string, rs: seq<Receipt>, r: Receipt, j: nat)
    requires IsLatest(kind, rs, j)
    ensures r.Kind() != kind || r.completedUnix < rs[j].completedUnix ==> IsLatest(kind, rs + [r], j)
    ensures r.Kind() == kind && rs[j].completedUnix <= r.completedUnix ==> IsLatest(kind, rs + [r], |rs|)
  {
  }

  /** The latest receipt of a kind is there exactly when any of the kind is. */
  lemma {:induction false} LatestIs(kind: string, rs: seq<Receipt>) returns (k: nat)
    ensures Latest(kind, rs).None? <==> forall i :: 0 <= i < |rs| ==> rs[i].Kind() != kind
    ensures Latest(kind, rs).Some? ==> IsLatest(kind, rs, k) && Latest(kind, rs) == Some(rs[k])
  {
    k := 0;
    if rs != [] {
      var init, r := rs[..|rs| - 1], rs[|rs| - 1];
      assert rs == init + [r];
      k := LatestIs(kind, init);
      if Latest(kind, init).Some? {
        LatestExtends(kind, init, r, k);
        k := if r.Kind() == kind && init[k].completedUnix <= r.completedUnix then |init| else k;
      } else {
        k := |init|;
      }
    }
  }

  /** The latest receipt of a kind is decided among the receipts of that kind alone. */
  lemma {:induction false} LatestOfKind(kind: string, rs: seq<Receipt>)
    ensures Latest(kind, rs) == Latest(kind, OfKind(kind, rs))
  {
    if rs != [] {
      var n := |rs| - 1;
      LatestOfKind(kind, rs[..n]);
      var own := OfKind(kind, rs[..n]);
      assert own + [] == own;
      assert (own + [rs[n]])[..|own|] == own;
    }
  }

  /** A replication receipt that leaves nothing to tell the operator at this second. */
  predicate Fresh(r: Option<Receipt>, now: u64, target: Duration) {
    && r.Some? && r.value.Replication?
    && r.value.completedUnix <= now <= r.value.completedUnix + 300
    && r.value.coveredMtime <= now && (now - r.value.coveredMtime) * 1_000_000_000 < target
  }

  /**
   With a clock, the file raises no recovery concern exactly when it reads, its latest
   replication receipt is fresh, and the process looks within 300 seconds of judging it.
   */
  lemma RecoveryExactly(text: string, now: u64, target: Duration, judged: Duration, looked: Duration)
    ensures !PostureParts(Some(text), Some(now), judged).0.NeedsAttention(target, looked) <==>
            && Evidence(text).Some? && Fresh(Latest(REPLICATION, Evidence(text).value), now, target)
            && judged <= looked < judged + 300_000_000_000
  {
    if Evidence(text).Some? {
      var k := LatestIs(REPLICATION, Evidence(text).value);
    }
  }

  /** In whole seconds the target is a window on the clock: covered <= now < covered + target. */
  lemma WholeSeconds(r: Receipt, now: u64, seconds: nat)
    requires r.Replication?
    ensures Fresh(Some(r), now, seconds * 1_000_000_000) <==>
            r.completedUnix <= now <= r.completedUnix + 300 && r.coveredMtime <= now < r.coveredMtime + seconds
  {
    if r.coveredMtime <= now {
      assert (now - r.coveredMtime) * 1_000_000_000 < seconds * 1_000_000_000 <==> now - r.coveredMtime < seconds;
    }
  }

  /** Once a datable receipt has gone stale it is a concern at every later second. */
  lemma StaleForever(r: Receipt, now: u64, later: u64, target: Duration)
    requires r.Replication? && r.completedUnix <= now && r.coveredMtime <= now <= later
    requires !Fresh(Some(r), now, target)
    ensures !Fresh(Some(r), later, target)
  {
    assert (now - r.coveredMtime) * 1_000_000_000 <= (later - r.coveredMtime) * 1_000_000_000;
  }

  /** Without a clock, without a file or with an unreadable one, nothing is ever reassuring. */
  lemma NeverReassuring(evidence: Option<string>, today: Option<u64>, target: Duration, judged: Duration, looked: Duration)
    requires today.None? || evidence.None? || Evidence(evidence.value).None?
    ensures var (recovery, backup) := PostureParts(evidence, today, judged);
            recovery.NeedsAttention(target, looked) && !backup.IsProven(today)
  {
  }

  predicate NoneOf(kind: string, rs: seq<Receipt>) {
    forall i :: 0 <= i < |rs| ==> rs[i].Kind() != kind
  }

  /** A figure from a receipt that is not from the future and not older than five minutes; else nothing is known. */
  function Judged(r: Receipt, now: u64, at: Duration): RecoveryPoint
    requires r.Replication?
  {
    if r.completedUnix <= now <= r.completedUnix + 300 && r.coveredMtime <= now
    then Behind((now - r.coveredMtime) * 1_000_000_000, at) else Unreachable
  }

  lemma SomeKind(rs: seq<Receipt>)
    ensures rs == [] <==> NoneOf("replication", rs) && NoneOf("restore-drill", rs)
  {
    if rs != [] {
      assert rs[0].Kind() == "replication" || rs[0].Kind() == "restore-drill";
    }
  }

  lemma BackupTells(rs: seq<Receipt>)
    ensures Backup(rs) == NotConfigured <==> rs == []
    ensures Backup(rs) == NeverRestored <==> rs != [] && NoneOf("restore-drill", rs)
    ensures Backup(rs) != RestoreFailed
  {
    SomeKind(rs);
    var i := LatestIs(REPLICATION, rs);
    var j := LatestIs(RESTORE_DRILL, rs);
  }

  lemma RecoveryTells(rs: seq<Receipt>, today: Option<u64>, judged: Duration)
    ensures Recovery(rs, today, judged) == NoReplica <==> if today.None? then rs == [] else NoneOf("replication", rs)
    ensures today.None? && rs != [] ==> Recovery(rs, today, judged) == Unreachable
    ensures today.Some? && !NoneOf("replication", rs) ==>
              Latest("replication", rs).Some? && Latest("replication", rs).value.Replication? &&
              Recovery(rs, today, judged) == Judged(Latest("replication", rs).value, today.value, judged)
  {
    var i := LatestIs(REPLICATION, rs);
  }

  /** A file that cannot be read is told from one that is not there, and neither says more than that. */
  lemma PostureTells(evidence: Option<string>, today: Option<u64>, judged: Duration)
    ensures PostureParts(evidence, today, judged).1 == RestoreFailed <==> evidence.Some? && Evidence(evidence.value).None?
    ensures evidence.None? ==> PostureParts(evidence, today, judged) == (NoReplica, NotConfigured)
    ensures evidence.Some? && Evidence(evidence.value).None? ==> PostureParts(evidence, today, judged).0 == Unreachable
    ensures evidence.Some? && Evidence(evidence.value).Some? ==>
              var rs := Evidence(evidence.value).value;
              PostureParts(evidence, today, judged) == (Recovery(rs, today, judged), Backup(rs))
  {
    if evidence.Some? && Evidence(evidence.value).Some? {
      BackupTells(Evidence(evidence.value).value);
    }
  }

  /** The drill half is proven exactly for thirty days from the latest drill's stamp. */
  lemma DrillExactly(text: string, today: Option<u64>, judged: Duration)
    ensures PostureParts(Some(text), today, judged).1.IsProven(today) <==>
            && today.Some? && Evidence(text).Some?
            && var drill := Latest(RESTORE_DRILL, Evidence(text).value);
               drill.Some? && drill.value.completedUnix <= today.value <= drill.value.completedUnix + 2_592_000
  {
    if Evidence(text).Some? {
      var k := LatestIs(RESTORE_DRILL, Evidence(text).value);
    }
  }

  /** Over any run of claims only the last claim of each kind matters to what is concluded. */
  lemma RunConclusions(claims: seq<Receipt>, today: Option<u64>, judged: Duration, looked: Duration, target: Duration)
    ensures var (recovery, backup) := PostureParts(FileAfter(claims), today, judged);
            && (!recovery.NeedsAttention(target, looked) <==>
                 && today.Some? && Fresh(LastOf(REPLICATION, claims), today.value, target)
                 && judged <= looked < judged + 300_000_000_000)
            && backup == match LastOf(RESTORE_DRILL, claims)
                         case Some(d) => Restored(d.completedUnix)
                         case None => if LastOf(REPLICATION, claims).Some? then NeverRestored else NotConfigured
  {
    if claims != [] {
      var rs := HeldAfter(claims);
      FileIsHeld(claims);
      HeldIsLast(claims);
      LatestIsLast(REPLICATION, rs, claims);
      LatestIsLast(RESTORE_DRILL, rs, claims);
      if today.Some? {
        RecoveryExactly(RenderList(rs), today.value, target, judged, looked);
      }
    }
  }

  lemma LatestIsLast(kind: string, rs: seq<Receipt>, claims: seq<Receipt>)
    requires HoldsLast(rs, claims)
    ensures Latest(kind, rs) == LastOf(kind, claims)
    ensures LastOf(kind, claims).Some? ==> LastOf(kind, claims).value.Kind() == kind
  {
    LatestOfKind(kind, rs);
    LastIsOfKind(kind, claims);
    assert HoldsLastOf(kind, rs, claims);
    if LastOf(kind, claims).Some? {
      var c := LastOf(kind, claims).value;
      assert Latest(kind, [c][..0]).None?;
      assert Latest(kind, [c]) == Some(c);
    }
  }

  lemma {:induction false} LastIsOfKind(kind: string, claims: seq<Receipt>)
    ensures LastOf(kind, claims).Some? ==> LastOf(kind, claims).value.Kind() == kind
  {
    if claims != [] {
      LastIsOfKind(kind, claims[..|claims| - 1]);
    }
  }

  /**
   Two places where the code and its comments part. A receipt aged exactly 300 seconds is
   still turned into a figure, but a figure aged exactly 300 seconds is no longer live; and
   a lag equal to the target needs attention.
   */
  lemma Boundaries()
    ensures JudgeLag(0, 300, 300, 0) == Behind(0, 0)
    ensures !Behind(0, 0).IsLive(300_000_000_000) && Behind(0, 0).IsLive(299_999_999_999)
    ensures Behind(60_000_000_000, 0).NeedsAttention(60_000_000_000, 0)
    ensures !Behind(59_999_999_999, 0).NeedsAttention(60_000_000_000, 0)
  {
  }
}
