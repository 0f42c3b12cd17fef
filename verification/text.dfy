/**
 The parts of Rust's `str` that the file formats rely on: `trim`, `split_whitespace`,
 `lines`, `split`, decimal printing and `parse::<uN>`. A Dafny `char` is a Unicode
 scalar value, as a Rust `char` is.
 */
module Text {
  import opened Sequences
  import opened Wrappers

  /** `char::is_whitespace`: the Unicode property White_Space. */
  predicate IsSpace(c: char) {
    || '\t' <= c <= '\r' || c == ' ' || c == '\U{85}' || c == '\U{A0}' || c == '\U{1680}'
    || '\U{2000}' <= c <= '\U{200A}' || c == '\U{2028}' || c == '\U{2029}' || c == '\U{202F}'
    || c == '\U{205F}' || c == '\U{3000}'
  }

  /** `char::is_control`: the Unicode category Cc. */
  predicate IsControl(c: char) {
    c <= '\U{1F}' || '\U{7F}' <= c <= '\U{9F}'
  }

  /** The code points of White_Space and of Cc, in decimal. */
  lemma ClassesAre(c: char)
    ensures var n := c as int;
            IsSpace(c) <==>
            || 9 <= n <= 13 || n == 32 || n == 133 || n == 160 || n == 5760 || 8192 <= n <= 8202
            || n == 8232 || n == 8233 || n == 8239 || n == 8287 || n == 12288
    ensures IsControl(c) <==> (c as int) < 32 || 127 <= c as int < 160
  {
  }

  predicate AllSpace(s: string) {
    forall i :: 0 <= i < |s| ==> IsSpace(s[i])
  }

  predicate NoSpace(s: string) {
    forall i :: 0 <= i < |s| ==> !IsSpace(s[i])
  }

  /** A non-empty run of characters none of which is white space. */
  predicate IsWord(s: string) {
    s != "" && NoSpace(s)
  }

  predicate AllWords(ws: seq<string>) {
    forall i :: 0 <= i < |ws| ==> IsWord(ws[i])
  }

  // ---------------------------------------------------------------- trim

  function TrimStart(s: string): (r: string)
    ensures |r| <= |s|
  {
    if s != "" && IsSpace(s[0]) then TrimStart(s[1..]) else s
  }

  function TrimEnd(s: string): (r: string)
    ensures r <= s
  {
    if s != "" && IsSpace(s[|s| - 1]) then TrimEnd(s[..|s| - 1]) else s
  }

  function Trim(s: string): string {
    TrimEnd(TrimStart(s))
  }

  /** No white space at either end. */
  predicate Trimmed(s: string) {
    s != "" ==> !IsSpace(s[0]) && !IsSpace(s[|s| - 1])
  }

  lemma {:induction false} TrimStartSplits(s: string)
    ensures exists a :: AllSpace(a) && s == a + TrimStart(s)
    ensures TrimStart(s) != "" ==> !IsSpace(TrimStart(s)[0])
  {
    if s != "" && IsSpace(s[0]) {
      TrimStartSplits(s[1..]);
      var a :| AllSpace(a) && s[1..] == a + TrimStart(s[1..]);
      assert s == [s[0]] + s[1..];
      assert AllSpace([s[0]] + a) && s == ([s[0]] + a) + TrimStart(s);
    } else {
      assert AllSpace("") && s == "" + TrimStart(s);
    }
  }

  lemma {:induction false} TrimEndSplits(s: string)
    ensures exists z :: AllSpace(z) && s == TrimEnd(s) + z
    ensures TrimEnd(s) != "" ==> !IsSpace(TrimEnd(s)[|TrimEnd(s)| - 1])
  {
    if s != "" && IsSpace(s[|s| - 1]) {
      var t := s[..|s| - 1];
      TrimEndSplits(t);
      var z :| AllSpace(z) && t == TrimEnd(t) + z;
      assert s == t + [s[|s| - 1]];
      assert AllSpace(z + [s[|s| - 1]]) && s == TrimEnd(s) + (z + [s[|s| - 1]]);
    } else {
      assert AllSpace("") && s == TrimEnd(s) + "";
    }
  }

  /** `trim` removes exactly the white space at both ends, and leaves none there. */
  lemma TrimSplits(s: string) returns (a: string, z: string)
    ensures AllSpace(a) && AllSpace(z) && s == a + Trim(s) + z
    ensures Trimmed(Trim(s))
  {
    TrimStartSplits(s);
    a :| AllSpace(a) && s == a + TrimStart(s);
    TrimEndSplits(TrimStart(s));
    z :| AllSpace(z) && TrimStart(s) == Trim(s) + z;
  }

  lemma {:induction false} TrimStartSkips(a: string, s: string)
    requires AllSpace(a)
    ensures TrimStart(a + s) == TrimStart(s)
  {
    if a == "" {
      assert a + s == s;
    } else {
      assert (a + s)[1..] == a[1..] + s;
      TrimStartSkips(a[1..], s);
    }
  }

  lemma {:induction false} TrimEndSkips(s: string, z: string)
    requires AllSpace(z)
    ensures TrimEnd(s + z) == TrimEnd(s)
  {
    if z == "" {
      assert s + z == s;
    } else {
      assert (s + z)[..|s + z| - 1] == s + z[..|z| - 1];
      TrimEndSkips(s, z[..|z| - 1]);
    }
  }

  /** Padding a trimmed text with white space and trimming it gives the text back. */
  lemma TrimPadded(a: string, s: string, z: string)
    requires AllSpace(a) && AllSpace(z) && Trimmed(s)
    ensures Trim(a + s + z) == s
  {
    assert a + s + z == a + (s + z);
    TrimStartSkips(a, s + z);
    if s == "" {
      assert s + z == z;
      assert z + "" == z;
      TrimStartSkips(z, "");
    } else {
      TrimEndSkips(s, z);
    }
  }

  // ---------------------------------------------------------------- split_whitespace

  /** The length of the longest prefix without white space. */
  function WordLen(s: string): (n: nat)
    ensures n <= |s|
    ensures NoSpace(s[..n])
    ensures n < |s| ==> IsSpace(s[n])
  {
    if s == "" || IsSpace(s[0]) then 0
    else
      var n := WordLen(s[1..]) + 1;
      assert s[..n] == [s[0]] + s[1..][..n - 1];
      n
  }

  /** `split_whitespace`: the maximal runs without white space, in order. */
  function Words(s: string): (ws: seq<string>)
    ensures AllWords(ws)
    decreases |s|
  {
    if s == "" then []
    else if IsSpace(s[0]) then Words(s[1..])
    else [s[..WordLen(s)]] + Words(s[WordLen(s)..])
  }

  lemma {:induction false} WordsSkip(a: string, s: string)
    requires AllSpace(a)
    ensures Words(a + s) == Words(s)
  {
    if a == "" {
      assert a + s == s;
    } else {
      assert (a + s)[1..] == a[1..] + s;
      WordsSkip(a[1..], s);
    }
  }

  lemma {:induction false} WordLenOf(w: string, s: string)
    requires NoSpace(w)
    requires s == "" || IsSpace(s[0])
    ensures WordLen(w + s) == |w|
  {
    if w == "" {
      assert w + s == s;
    } else {
      assert (w + s)[1..] == w[1..] + s;
      WordLenOf(w[1..], s);
    }
  }

  /** A word, then white space or nothing, is the first word of the text. */
  lemma WordsCons(w: string, s: string)
    requires IsWord(w)
    requires s == "" || IsSpace(s[0])
    ensures Words(w + s) == [w] + Words(s)
  {
    WordLenOf(w, s);
    assert (w + s)[..|w|] == w;
    assert (w + s)[|w|..] == s;
  }

  /** White space at the end holds no word. */
  lemma {:induction false} WordsTail(s: string, z: string)
    requires AllSpace(z)
    ensures Words(s + z) == Words(s)
    decreases |s|
  {
    if s == "" {
      assert s + z == z + "";
      WordsSkip(z, "");
    } else if IsSpace(s[0]) {
      assert (s + z)[1..] == s[1..] + z;
      WordsTail(s[1..], z);
    } else {
      var w, r := s[..WordLen(s)], s[WordLen(s)..];
      assert s == w + r;
      assert s + z == w + (r + z);
      WordsCons(w, r);
      WordsCons(w, r + z);
      WordsTail(r, z);
    }
  }

  /** Trimming a line first does not change its words. */
  lemma WordsTrim(s: string)
    ensures Words(Trim(s)) == Words(s)
  {
    var a, z := TrimSplits(s);
    WordsTail(a + Trim(s), z);
    WordsSkip(a, Trim(s));
  }

  /** A text has no word exactly when it is all white space, and then it trims to nothing. */
  lemma {:induction false} NoWords(s: string)
    ensures Words(s) == [] <==> AllSpace(s)
    ensures Words(s) == [] <==> Trim(s) == ""
  {
    WordsTrim(s);
    var a, z := TrimSplits(s);
    assert Trim(s) != "" ==> s[|a|] == Trim(s)[0];
    assert Trim(s) == "" ==> s == a + z;
    if AllSpace(s) {
      assert s + "" == s;
      WordsSkip(s, "");
    }
  }

  /** The first character of a trimmed line is the first character of its first word. */
  lemma FirstOfTrim(s: string)
    requires Words(s) != []
    ensures Trim(s) != "" && Trim(s)[0] == Words(s)[0][0]
    ensures TrimStart(s) != "" && TrimStart(s)[0] == Words(s)[0][0]
  {
    NoWords(s);
    WordsTrim(s);
    var a, z := TrimSplits(s);
    TrimStartSplits(s);
    assert TrimEnd(TrimStart(s)) <= TrimStart(s);
  }

  lemma WordsOfSpace(s: string)
    requires s != "" && IsSpace(s[0])
    ensures Words(s) == Words(s[1..])
  {
  }

  /** A text that does not begin with white space is its first word and the rest. */
  lemma FirstWord(s: string) returns (w: string, r: string)
    requires s != "" && !IsSpace(s[0])
    ensures s == w + r && IsWord(w) && (r == "" || IsSpace(r[0])) && |r| < |s|
  {
    var n := WordLen(s);
    w, r := s[..n], s[n..];
  }

  lemma {:induction false} WordsBefore(s: string, rest: string)
    requires rest != "" && IsSpace(rest[0])
    ensures Words(s + rest) == Words(s) + Words(rest)
    decreases |s|
  {
    if s == "" {
      assert s + rest == rest;
    } else if IsSpace(s[0]) {
      assert (s + rest)[1..] == s[1..] + rest;
      WordsOfSpace(s);
      WordsOfSpace(s + rest);
      WordsBefore(s[1..], rest);
    } else {
      var w, r := FirstWord(s);
      WordsBefore(r, rest);
      WordsCons(w, r);
      WordsCons(w, r + rest);
      Regrouped(w, r, rest);
      Regrouped([w], Words(r), Words(rest));
    }
  }

  /** White space between two texts separates their words. */
  lemma WordsAround(s: string, c: char, t: string)
    requires IsSpace(c)
    ensures Words(s + [c] + t) == Words(s) + Words(t)
  {
    WordsBefore(s, [c] + t);
    WordsSkip([c], t);
    Regrouped(s, [c], t);
  }

  lemma WordsApart(s: string, t: string)
    ensures Words(s + " " + t) == Words(s) + Words(t)
  {
    WordsAround(s, ' ', t);
  }

  /** Text after a line never takes words away from it, and its first word still starts the same. */
  lemma {:induction false} WordsGrow(s: string, t: string)
    ensures |Words(s + t)| >= |Words(s)|
    ensures Words(s) != [] ==> Words(s + t)[0][0] == Words(s)[0][0]
    decreases |s|
  {
    if s == "" {
      assert s + t == t;
    } else if IsSpace(s[0]) {
      assert (s + t)[1..] == s[1..] + t;
      WordsGrow(s[1..], t);
    } else {
      var w, r := s[..WordLen(s)], s[WordLen(s)..];
      WordsCons(w, r);
      assert s == w + r;
      if r != "" {
        assert s + t == w + (r + t);
        WordsCons(w, r + t);
        WordsGrow(r, t);
      }
    }
  }

  function Join(parts: seq<string>, sep: string): string {
    if parts == [] then ""
    else if |parts| == 1 then parts[0]
    else parts[0] + sep + Join(parts[1..], sep)
  }

  /** Joining words with single spaces and splitting again gives the words. */
  lemma {:induction false} WordsJoin(ws: seq<string>)
    requires AllWords(ws)
    ensures Words(Join(ws, " ")) == ws
  {
    if ws == [] {
    } else if |ws| == 1 {
      assert ws[0] + "" == ws[0];
      WordsCons(ws[0], "");
      assert ws == [ws[0]];
    } else {
      var rest := Join(ws[1..], " ");
      assert ws[0] + " " + rest == ws[0] + (" " + rest);
      WordsCons(ws[0], " " + rest);
      WordsSkip(" ", rest);
      WordsJoin(ws[1..]);
      assert ws == [ws[0]] + ws[1..];
    }
  }

  // ---------------------------------------------------------------- lines

  /** The index of the first `c`, or the length of the text. */
  function Find(s: string, c: char): (n: nat)
    ensures n <= |s|
    ensures c !in s[..n]
    ensures n < |s| ==> s[n] == c
  {
    if s == "" || s[0] == c then 0
    else
      var n := Find(s[1..], c) + 1;
      assert s[..n] == [s[0]] + s[1..][..n - 1];
      n
  }

  lemma {:induction false} FindOf(a: string, c: char, rest: string)
    requires c !in a
    requires rest == "" || rest[0] == c
    ensures Find(a + rest, c) == |a|
  {
    if a == "" {
      assert a + rest == rest;
    } else {
      assert (a + rest)[1..] == a[1..] + rest;
      FindOf(a[1..], c, rest);
    }
  }

  /** A line that was ended by a line feed loses one carriage return before it. */
  function StripCr(l: string): string {
    if l != "" && l[|l| - 1] == '\r' then l[..|l| - 1] else l
  }

  /** `str::lines`. The last line may lack its line feed, and then keeps a final `\r`. */
  function Lines(s: string): (ls: seq<string>)
    decreases |s|
  {
    if s == "" then []
    else
      var n := Find(s, '\n');
      if n == |s| then [s]
      else [StripCr(s[..n])] + Lines(s[n + 1..])
  }

  /** Every line followed by a line feed, as `writeln!` writes them. */
  function Unlines(ls: seq<string>): string {
    if ls == [] then "" else ls[0] + "\n" + Unlines(ls[1..])
  }

  /** A text made of whole lines: empty, or ending in a line feed. */
  predicate Complete(s: string) {
    s == "" || s[|s| - 1] == '\n'
  }

  lemma LinesCons(l: string, s: string)
    requires '\n' !in l
    ensures Lines(l + "\n" + s) == [StripCr(l)] + Lines(s)
  {
    assert l + "\n" + s == l + ("\n" + s);
    FindOf(l, '\n', "\n" + s);
    assert (l + "\n" + s)[..|l|] == l;
    assert (l + "\n" + s)[|l| + 1..] == s;
  }

  /** The first line of a text made of whole lines, and what follows its line feed. */
  lemma SplitLine(s: string) returns (l: string, r: string)
    requires Complete(s) && s != ""
    ensures s == l + "\n" + r && '\n' !in l && Complete(r)
  {
    assert s[..|s|] == s && s[|s| - 1] in s;
    var n := Find(s, '\n');
    l, r := s[..n], s[n + 1..];
  }

  /** Lines of a text made of whole lines followed by more text. */
  lemma {:induction false} LinesAppend(s: string, t: string)
    requires Complete(s)
    ensures Lines(s + t) == Lines(s) + Lines(t)
    decreases |s|
  {
    if s == "" {
      assert s + t == t;
    } else {
      var l, r := SplitLine(s);
      calc {
        Lines(s + t);
        { assert s + t == l + "\n" + (r + t); }
        Lines(l + "\n" + (r + t));
        { LinesCons(l, r + t); }
        [StripCr(l)] + Lines(r + t);
        { LinesAppend(r, t); }
        [StripCr(l)] + (Lines(r) + Lines(t));
        [StripCr(l)] + Lines(r) + Lines(t);
        { LinesCons(l, r); }
        Lines(s) + Lines(t);
      }
    }
  }

  lemma {:induction false} LinesHaveNoFeed(s: string)
    ensures forall i :: 0 <= i < |Lines(s)| ==> '\n' !in Lines(s)[i]
    decreases |s|
  {
    if s != "" {
      var n := Find(s, '\n');
      if n < |s| {
        LinesHaveNoFeed(s[n + 1..]);
      } else {
        assert s[..n] == s;
      }
    }
  }

  /** What stands after the last line feed of a text. */
  function Tail(s: string): (t: string)
    ensures |t| <= |s|
  {
    if s == "" || s[|s| - 1] == '\n' then "" else Tail(s[..|s| - 1]) + [s[|s| - 1]]
  }

  /** A text is whole lines and then a last line without its line feed, which may be empty. */
  lemma {:induction false} TailSplits(s: string) returns (body: string)
    ensures s == body + Tail(s) && Complete(body) && '\n' !in Tail(s)
  {
    if s == "" || s[|s| - 1] == '\n' {
      body := s;
    } else {
      body := TailSplits(s[..|s| - 1]);
      assert s == s[..|s| - 1] + [s[|s| - 1]];
    }
  }

  function StripAll(ls: seq<string>): seq<string> {
    seq(|ls|, i requires 0 <= i < |ls| => StripCr(ls[i]))
  }

  /** Lines written with `writeln!` read back without one carriage return at their end. */
  lemma {:induction false} LinesOfUnlines(ls: seq<string>)
    requires forall i :: 0 <= i < |ls| ==> '\n' !in ls[i]
    ensures Lines(Unlines(ls)) == StripAll(ls)
  {
    if ls != [] {
      assert '\n' !in ls[0];
      forall i | 0 <= i < |ls[1..]|
        ensures '\n' !in ls[1..][i]
      {
        assert ls[1..][i] == ls[i + 1];
      }
      LinesOfUnlines(ls[1..]);
      LinesCons(ls[0], Unlines(ls[1..]));
      assert StripAll(ls) == [StripCr(ls[0])] + StripAll(ls[1..]);
    }
  }

  predicate NoFeeds(ls: seq<string>) {
    forall i :: 0 <= i < |ls| ==> '\n' !in ls[i]
  }

  /** What a line that was ended by a line feed reads as: itself without one carriage return at its end. */
  predicate ReadsAs(raw: string, l: string) {
    raw == l + "\r" || (raw == l && (l == "" || l[|l| - 1] != '\r'))
  }

  predicate AllReadAs(raws: seq<string>, ls: seq<string>) {
    |raws| == |ls| && forall i :: 0 <= i < |raws| ==> ReadsAs(raws[i], ls[i])
  }

  lemma StripExactly(raw: string, l: string)
    ensures StripCr(raw) == l <==> ReadsAs(raw, l)
  {
    if raw != "" && raw[|raw| - 1] == '\r' {
      assert raw == raw[..|raw| - 1] + "\r";
    }
  }

  lemma {:induction false} WholeLines(s: string) returns (raws: seq<string>)
    requires Complete(s)
    ensures NoFeeds(raws) && Unlines(raws) == s
    decreases |s|
  {
    if s == "" {
      raws := [];
    } else {
      var l, r := SplitLine(s);
      var rest := WholeLines(r);
      raws := [l] + rest;
    }
  }

  /** The lines of whole lines and a tail. */
  lemma LinesOf(raws: seq<string>, tail: string)
    requires NoFeeds(raws) && '\n' !in tail
    ensures Lines(Unlines(raws) + tail) == StripAll(raws) + if tail == "" then [] else [tail]
  {
    LinesOfUnlines(raws);
    UnlinesComplete(raws);
    LinesAppend(Unlines(raws), tail);
    FindOf(tail, '\n', "");
    assert tail + "" == tail;
  }

  predicate CutInto(s: string, raws: seq<string>, tail: string, body: seq<string>, ls: seq<string>) {
    && NoFeeds(raws) && '\n' !in tail && s == Unlines(raws) + tail
    && AllReadAs(raws, body) && ls == body + if tail == "" then [] else [tail]
  }

  lemma CutIs(s: string, raws: seq<string>, tail: string, body: seq<string>, ls: seq<string>)
    requires CutInto(s, raws, tail, body, ls)
    ensures ls == Lines(s)
  {
    LinesOf(raws, tail);
    forall i | 0 <= i < |raws|
      ensures StripAll(raws)[i] == body[i]
    {
      StripExactly(raws[i], body[i]);
    }
    assert StripAll(raws) == body;
  }

  /**
   The lines of a text: cut behind every line feed, which is dropped with one carriage return before
   it; what stands behind the last one is a line as it is, if it is anything.
   */
  lemma LinesExactly(s: string, ls: seq<string>)
    ensures ls == Lines(s) <==> exists raws, tail, body :: CutInto(s, raws, tail, body, ls)
  {
    var whole := TailSplits(s);
    var found := WholeLines(whole);
    forall i | 0 <= i < |found|
      ensures ReadsAs(found[i], StripAll(found)[i])
    {
      StripExactly(found[i], StripCr(found[i]));
    }
    LinesOf(found, Tail(s));
    assert CutInto(s, found, Tail(s), StripAll(found), Lines(s));
    forall raws, tail, body | CutInto(s, raws, tail, body, ls)
      ensures ls == Lines(s)
    {
      CutIs(s, raws, tail, body, ls);
    }
  }

  lemma WordsStripCr(l: string)
    ensures Words(StripCr(l)) == Words(l)
  {
    if l != "" && l[|l| - 1] == '\r' {
      assert l == StripCr(l) + "\r";
      WordsTail(StripCr(l), "\r");
    }
  }

  lemma {:induction false} UnlinesComplete(ls: seq<string>)
    ensures Complete(Unlines(ls))
  {
    if ls != [] {
      UnlinesComplete(ls[1..]);
    }
  }

  predicate LineText(l: string) {
    '\n' !in l && StripCr(l) == l
  }

  /** Reading back lines that were written with `writeln!`. */
  lemma {:induction false} LinesUnlines(ls: seq<string>)
    requires forall i :: 0 <= i < |ls| ==> LineText(ls[i])
    ensures Lines(Unlines(ls)) == ls
  {
    if ls != [] {
      assert LineText(ls[0]);
      forall i | 0 <= i < |ls[1..]|
        ensures LineText(ls[1..][i])
      {
        assert ls[1..][i] == ls[i + 1];
      }
      LinesUnlines(ls[1..]);
      LinesCons(ls[0], Unlines(ls[1..]));
      assert ls == [ls[0]] + ls[1..];
    }
  }

  lemma {:induction false} UnlinesAppend(a: seq<string>, b: seq<string>)
    ensures Unlines(a + b) == Unlines(a) + Unlines(b)
  {
    if a == [] {
      assert a + b == b;
    } else {
      assert (a + b)[1..] == a[1..] + b;
      UnlinesAppend(a[1..], b);
      assert a[0] + "\n" + (Unlines(a[1..]) + Unlines(b)) == Unlines(a) + Unlines(b);
    }
  }

  /** Words joined by single spaces make one line, already trimmed, which splits into them again. */
  lemma {:induction false} JoinIsLine(ws: seq<string>)
    requires AllWords(ws) && ws != []
    ensures var l := Join(ws, " "); l != "" && Trimmed(l) && '\n' !in l && LineText(l)
  {
    if |ws| > 1 {
      JoinIsLine(ws[1..]);
      var rest := Join(ws[1..], " ");
      var l := ws[0] + " " + rest;
      assert l[|l| - 1] == rest[|rest| - 1];
    }
  }

  lemma TrimOfTrimmed(s: string)
    requires Trimmed(s)
    ensures Trim(s) == s
  {
    TrimPadded("", s, "");
    assert "" + s + "" == s;
  }

  /** `str::split` on one character: always at least one piece. */
  function Split(s: string, c: char): (ps: seq<string>)
    ensures ps != []
    decreases |s|
  {
    var n := Find(s, c);
    if n == |s| then [s] else [s[..n]] + Split(s[n + 1..], c)
  }

  lemma {:induction false} SplitJoin(ps: seq<string>, c: char)
    requires ps != [] && forall i :: 0 <= i < |ps| ==> c !in ps[i]
    ensures Split(Join(ps, [c]), c) == ps
  {
    if |ps| == 1 {
      assert ps[0] + "" == ps[0];
      FindOf(ps[0], c, "");
      assert ps == [ps[0]];
    } else {
      var rest := Join(ps[1..], [c]);
      assert ps[0] + [c] + rest == ps[0] + ([c] + rest);
      FindOf(ps[0], c, [c] + rest);
      assert (ps[0] + ([c] + rest))[..|ps[0]|] == ps[0];
      assert (ps[0] + ([c] + rest))[|ps[0]| + 1..] == rest;
      SplitJoin(ps[1..], c);
      assert ps == [ps[0]] + ps[1..];
    }
  }

  lemma {:induction false} JoinSplit(s: string, c: char)
    ensures Join(Split(s, c), [c]) == s
    decreases |s|
  {
    var n := Find(s, c);
    if n < |s| {
      var rest := Split(s[n + 1..], c);
      JoinSplit(s[n + 1..], c);
      assert ([s[..n]] + rest)[1..] == rest;
      assert s == s[..n] + [c] + s[n + 1..];
    }
  }

  // ---------------------------------------------------------------- numbers

  predicate IsDigit(c: char) {
    '0' <= c <= '9'
  }

  predicate AllDigits(s: string) {
    forall i :: 0 <= i < |s| ==> IsDigit(s[i])
  }

  /** The value of a run of decimal digits. */
  function DecVal(s: string): nat
    requires AllDigits(s)
  {
    if s == "" then 0 else 10 * DecVal(s[..|s| - 1]) + (s[|s| - 1] - '0') as nat
  }

  /** Decimal printing of an unsigned number. */
  function Dec(n: nat): (s: string)
    ensures s != "" && AllDigits(s)
    ensures n != 0 ==> s[0] != '0'
  {
    if n < 10 then ['0' + n as char] else Dec(n / 10) + ['0' + (n % 10) as char]
  }

  /** A digit run without a leading zero. */
  predicate Canonical(s: string) {
    s != "" && AllDigits(s) && (|s| > 1 ==> s[0] != '0')
  }

  lemma {:induction false} DecValDec(n: nat)
    ensures DecVal(Dec(n)) == n
    ensures Canonical(Dec(n))
  {
    if n < 10 {
      assert Dec(n)[..0] == "";
    } else {
      DecValDec(n / 10);
      assert Dec(n)[..|Dec(n)| - 1] == Dec(n / 10);
    }
  }

  /** Printing is the only canonical spelling of a number. */
  lemma {:induction false} DecDecVal(s: string)
    requires Canonical(s)
    ensures Dec(DecVal(s)) == s
  {
    var n := |s| - 1;
    assert s == s[..n] + [s[n]];
    if n == 0 {
      assert DecVal(s[..0]) == 0;
    } else {
      DecDecVal(s[..n]);
      DecPositive(s[..n]);
      var d := (s[n] - '0') as nat;
      assert DecVal(s) / 10 == DecVal(s[..n]) && DecVal(s) % 10 == d;
    }
  }

  lemma {:induction false} DecPositive(s: string)
    requires s != "" && AllDigits(s) && s[0] != '0'
    ensures DecVal(s) > 0
  {
    if |s| > 1 {
      DecPositive(s[..|s| - 1]);
    }
  }

  /** `parse::<uN>()`: an optional `+`, then digits, leading zeros allowed. */
  function ParseUnsigned(s: string, max: nat): Option<nat> {
    var d := if s != "" && s[0] == '+' then s[1..] else s;
    if d != "" && AllDigits(d) && DecVal(d) <= max then Some(DecVal(d)) else None
  }

  predicate AllZeros(s: string) {
    forall i :: 0 <= i < |s| ==> s[i] == '0'
  }

  lemma {:induction false} ZerosAddNothing(zeros: string, d: string)
    requires AllZeros(zeros) && AllDigits(d)
    ensures DecVal(zeros + d) == DecVal(d)
  {
    if d == "" {
      assert zeros + d == zeros;
      if zeros != "" {
        ZerosAddNothing(zeros[..|zeros| - 1], "");
        assert zeros[..|zeros| - 1] + "" == zeros[..|zeros| - 1];
      }
    } else {
      ZerosAddNothing(zeros, d[..|d| - 1]);
      assert (zeros + d)[..|zeros + d| - 1] == zeros + d[..|d| - 1];
    }
  }

  lemma {:induction false} LeadingZeros(d: string) returns (zeros: string, rest: string)
    requires d != "" && AllDigits(d)
    ensures AllZeros(zeros) && Canonical(rest) && d == zeros + rest
  {
    if |d| > 1 && d[0] == '0' {
      zeros, rest := LeadingZeros(d[1..]);
      assert d == ['0'] + d[1..];
      zeros := ['0'] + zeros;
    } else {
      zeros, rest := "", d;
    }
  }

  /** The spellings of a number: a plus sign or none, any zeros, its digits; and nothing above the greatest. */
  lemma SpellingExactly(s: string, max: nat, n: nat)
    ensures ParseUnsigned(s, max) == Some(n) <==>
            n <= max && exists sign, zeros :: (sign == "" || sign == "+") && AllZeros(zeros) && s == sign + (zeros + Dec(n))
  {
    if ParseUnsigned(s, max) == Some(n) {
      var sign := if s[0] == '+' then "+" else "";
      var d := if s[0] == '+' then s[1..] else s;
      var zeros, rest := LeadingZeros(d);
      ZerosAddNothing(zeros, rest);
      DecDecVal(rest);
      assert s == sign + (zeros + Dec(n));
    }
    forall sign, zeros | (sign == "" || sign == "+") && AllZeros(zeros) && s == sign + (zeros + Dec(n))
      ensures ParseUnsigned(s, max) == if n <= max then Some(n) else None
    {
      SpelledNumber(s, max, n, sign, zeros);
    }
  }

  lemma SpelledNumber(s: string, max: nat, n: nat, sign: string, zeros: string)
    requires (sign == "" || sign == "+") && AllZeros(zeros) && s == sign + (zeros + Dec(n))
    ensures ParseUnsigned(s, max) == if n <= max then Some(n) else None
  {
    var d := zeros + Dec(n);
    assert IsDigit(d[0]);
    assert s == if sign == "" then d else ['+'] + d;
    DecValDec(n);
    ZerosAddNothing(zeros, Dec(n));
  }

  lemma ParseDec(n: nat, max: nat)
    ensures ParseUnsigned(Dec(n), max) == if n <= max then Some(n) else None
  {
    DecValDec(n);
  }

  lemma DecIsWord(n: nat)
    ensures IsWord(Dec(n))
  {
  }

  // ---------------------------------------------------------------- UTF-8

  /** How many bytes UTF-8 spends on a character. */
  function Utf8Len(c: char): nat {
    var n := c as int;
    if n < 0x80 then 1 else if n < 0x800 then 2 else if n < 0x1_0000 then 3 else 4
  }

  /** `str::len`. */
  function ByteLen(s: string): nat {
    if s == "" then 0 else Utf8Len(s[0]) + ByteLen(s[1..])
  }
}
