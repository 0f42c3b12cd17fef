/** HMAC-SHA-256 and the verdicts sealed with it: `core/src/fleet.rs`. */
module Sealed {
  import opened Wrappers
  import opened Sequences
  import opened Text
  import opened Bits
  import opened Bytes
  import opened Sha256

  // ---------------------------------------------------------------- HMAC, section 2 of RFC 2104

  const BLOCK: nat := 64

  /** The key as one block: hashed first when longer, then filled up with zeros. */
  function KeyBlock(key: seq<Byte>): (k: seq<Byte>)
    ensures |k| == BLOCK
  {
    var short := if |key| > BLOCK then Hash(key) else key;
    short + ZeroBytes(BLOCK - |short|)
  }

  function XorAll(k: seq<Byte>, pad: Byte): (r: seq<Byte>)
    ensures |r| == |k|
  {
    seq(|k|, i requires 0 <= i < |k| => ByteXor(k[i], pad))
  }

  /** H(K xor opad, H(K xor ipad, text)). */
  function Hmac(key: seq<Byte>, text: seq<Byte>): (r: seq<Byte>)
    ensures |r| == 32
  {
    Hash(XorAll(KeyBlock(key), 0x5c) + Hash(XorAll(KeyBlock(key), 0x36) + text))
  }

  /** Byte `j` of the key with zeros after it. */
  function KeyByte(key: seq<Byte>, j: nat): Byte {
    if j < |key| then key[j] else 0
  }

  /** Digit by digit the key with zeros after it, changed exactly where `pad` has a one. */
  predicate Masked(key: seq<Byte>, pad: Byte, block: seq<Byte>) {
    && |block| == 64
    && forall j, b :: 0 <= j < 64 && 0 <= b < 8 ==> MaskedAt(KeyByte(key, j), pad, block[j], b)
  }

  predicate MaskedAt(k: Byte, pad: Byte, x: Byte, b: nat) {
    Digit(x, b) == (Digit(k, b) + Digit(pad, b)) % 2
  }

  lemma MaskedByte(k: Byte, pad: Byte, x: Byte)
    ensures x == ByteXor(k, pad) <==> forall b :: 0 <= b < 8 ==> MaskedAt(k, pad, x, b)
  {
    assert Pow2(8) == 256;
    var y := ByteXor(k, pad);
    forall b | 0 <= b < 8
      ensures MaskedAt(k, pad, y, b)
    {
      XorDigit(k, pad, 8, b);
      DigitIsBit(k, b);
      DigitIsBit(pad, b);
    }
    if forall b :: 0 <= b < 8 ==> MaskedAt(k, pad, x, b) {
      forall b | 0 <= b < 8
        ensures Digit(x, b) == Digit(y, b)
      {
        assert MaskedAt(k, pad, x, b) && MaskedAt(k, pad, y, b);
      }
      DigitsTell(x, y, 8);
    }
  }

  /** A key block under a pad is the one block with those digits. */
  lemma MaskedExactly(key: seq<Byte>, pad: Byte, block: seq<Byte>)
    requires |key| <= 64
    ensures block == XorAll(KeyBlock(key), pad) <==> Masked(key, pad, block)
  {
    if |block| == 64 {
      forall j | 0 <= j < 64
        ensures block[j] == ByteXor(KeyByte(key, j), pad) <==> forall b :: 0 <= b < 8 ==> MaskedAt(KeyByte(key, j), pad, block[j], b)
        ensures KeyBlock(key)[j] == KeyByte(key, j)
      {
        MaskedByte(KeyByte(key, j), pad, block[j]);
      }
    }
  }

  /** RFC 2104: the key with zeros after it under `opad`, and under `ipad` before the text; a longer key is hashed first. */
  lemma HmacExactly(key: seq<Byte>, text: seq<Byte>, outer: seq<Byte>, inner: seq<Byte>)
    requires Masked(if |key| > 64 then Hash(key) else key, 0x5c, outer)
    requires Masked(if |key| > 64 then Hash(key) else key, 0x36, inner)
    ensures Hmac(key, text) == Hash(outer + Hash(inner + text))
  {
    var short := if |key| > 64 then Hash(key) else key;
    MaskedExactly(short, 0x5c, outer);
    MaskedExactly(short, 0x36, inner);
  }

  /** Two keys of at most a block have the same inner block exactly when one is the other with zeros after it. */
  lemma InnerTells(a: seq<Byte>, b: seq<Byte>)
    requires |a| <= 64 && |b| <= 64
    ensures XorAll(KeyBlock(a), 0x36) == XorAll(KeyBlock(b), 0x36) <==> forall j :: 0 <= j < 64 ==> KeyByte(a, j) == KeyByte(b, j)
  {
    var x, y := XorAll(KeyBlock(a), 0x36), XorAll(KeyBlock(b), 0x36);
    MaskedExactly(a, 0x36, x);
    MaskedExactly(b, 0x36, y);
    forall j | 0 <= j < 64
      ensures x[j] == y[j] <==> KeyByte(a, j) == KeyByte(b, j)
    {
      SameUnderPad(KeyByte(a, j), KeyByte(b, j), 0x36, x[j], y[j]);
    }
    if forall j :: 0 <= j < 64 ==> KeyByte(a, j) == KeyByte(b, j) {
      assert x == y;
    }
  }

  lemma SameUnderPad(k: Byte, m: Byte, pad: Byte, x: Byte, y: Byte)
    requires forall b :: 0 <= b < 8 ==> MaskedAt(k, pad, x, b) && MaskedAt(m, pad, y, b)
    ensures x == y <==> k == m
  {
    assert Pow2(8) == 256;
    MaskedByte(k, pad, x);
    MaskedByte(m, pad, y);
    if x == y {
      forall b | 0 <= b < 8
        ensures Digit(k, b) == Digit(m, b)
      {
        assert MaskedAt(k, pad, x, b) && MaskedAt(m, pad, y, b);
        DigitIsBit(k, b);
        DigitIsBit(m, b);
      }
      DigitsTell(k, m, 8);
    }
  }

  /** The source's key array: the short key copied over zeros. */
  method FillBlock(short: seq<Byte>) returns (k: seq<Byte>)
    requires |short| <= BLOCK
    ensures k == short + ZeroBytes(BLOCK - |short|)
  {
    var block := new Byte[BLOCK](_ => 0);
    for i := 0 to |short|
      invariant forall j :: 0 <= j < i ==> block[j] == short[j]
      invariant forall j :: i <= j < BLOCK ==> block[j] == 0
    {
      block[i] := short[i];
    }
    k := block[..];
  }

  method ComputeHmac(key: seq<Byte>, data: seq<Byte>) returns (tag: seq<Byte>)
    ensures tag == Hmac(key, data)
  {
    var short := key;
    if |key| > 64 {
      short := Compute(key);
    }
    var k := FillBlock(short);
    assert k == KeyBlock(key);
    tag := Nested(k, data);
  }

  method Nested(k: seq<Byte>, data: seq<Byte>) returns (tag: seq<Byte>)
    ensures tag == Hash(XorAll(k, 0x5c) + Hash(XorAll(k, 0x36) + data))
  {
    var inner := Compute(XorAll(k, 0x36) + data);
    tag := Compute(XorAll(k, 0x5c) + inner);
  }

  // ---------------------------------------------------------------- sealed verdicts

  datatype SealedVerdict = SealedVerdict(subject: string, verdict: string, issuedUnix: u64, tagHex: string)

  /** The text the tag is taken over. */
  function Payload(subject: string, verdict: string, issuedUnix: u64): string {
    subject + "|" + verdict + "|" + Dec(issuedUnix)
  }

  const DIGITS := "0123456789abcdef"

  function HexDigit(n: nat): char
    requires n < 16
  {
    DIGITS[n]
  }

  /** `b >> 4` */
  function High(b: Byte): (n: nat)
    ensures n < 16
  {
    b / 16
  }

  /** `b & 0xf` */
  function Low(b: Byte): (n: nat)
    ensures n < 16
  {
    b % 16
  }

  /** Two lower-case hexadecimal digits for every byte. */
  function Hex(bytes: seq<Byte>): (s: string)
    ensures |s| == 2 * |bytes|
  {
    if bytes == [] then ""
    else Hex(bytes[..|bytes| - 1]) + [HexDigit(High(bytes[|bytes| - 1])), HexDigit(Low(bytes[|bytes| - 1]))]
  }

  lemma HexStep(bytes: seq<Byte>, k: nat)
    requires k < |bytes|
    ensures Hex(bytes[..k + 1]) == Hex(bytes[..k]) + [HexDigit(High(bytes[k])), HexDigit(Low(bytes[k]))]
  {
    assert bytes[..k + 1][..k] == bytes[..k];
  }

  method HexOf(tag: seq<Byte>) returns (s: string)
    ensures s == Hex(tag)
  {
    s := "";
    for k := 0 to |tag|
      invariant s == Hex(tag[..k])
    {
      HexStep(tag, k);
      ghost var before := s;
      s := s + [HexDigit(High(tag[k]))];
      s := s + [HexDigit(Low(tag[k]))];
      assert s == before + [HexDigit(High(tag[k])), HexDigit(Low(tag[k]))];
    }
    assert tag[..|tag|] == tag;
  }

  function TagOf(v: SealedVerdict, key: seq<Byte>): string {
    Hex(Hmac(key, Utf8(Payload(v.subject, v.verdict, v.issuedUnix))))
  }

  method Seal(subject: string, verdict: string, issuedUnix: u64, key: seq<Byte>) returns (v: SealedVerdict)
    ensures v.subject == subject && v.verdict == verdict && v.issuedUnix == issuedUnix
    ensures v.tagHex == TagOf(v, key)
    ensures IsHex(Hmac(key, Utf8(subject + "|" + verdict + "|" + Dec(issuedUnix))), v.tagHex)
  {
    var tag := ComputeHmac(key, Utf8(Payload(subject, verdict, issuedUnix)));
    var tagHex := HexOf(tag);
    HexExactly(tag, tagHex);
    v := SealedVerdict(subject, verdict, issuedUnix, tagHex);
  }

  /** The value of a lower-case hexadecimal digit. */
  function HexValue(c: char): Option<nat> {
    if '0' <= c <= '9' then Some((c - '0') as nat)
    else if 'a' <= c <= 'f' then Some((c - 'a') as nat + 10)
    else None
  }

  /** Two digits for every byte, the more significant first. */
  predicate IsHex(bytes: seq<Byte>, s: string) {
    |s| == 2 * |bytes| && forall i :: 0 <= i < |bytes| ==> IsHexByte(bytes[i], s[2 * i], s[2 * i + 1])
  }

  predicate IsHexByte(b: Byte, high: char, low: char) {
    HexValue(high).Some? && HexValue(low).Some? && b == 16 * HexValue(high).value + HexValue(low).value
  }

  lemma HexDigitExactly(n: nat, c: char)
    requires n < 16
    ensures c == HexDigit(n) <==> HexValue(c) == Some(n)
  {
  }

  lemma HexByteExactly(b: Byte, high: char, low: char)
    ensures IsHexByte(b, high, low) <==> high == HexDigit(High(b)) && low == HexDigit(Low(b))
  {
    HexDigitExactly(High(b), high);
    HexDigitExactly(Low(b), low);
    if IsHexByte(b, high, low) {
      assert High(b) == HexValue(high).value && Low(b) == HexValue(low).value;
    }
  }

  /** The text of a tag is the one that reads back, two digits a byte, as that tag. */
  lemma {:induction false} HexExactly(bytes: seq<Byte>, s: string)
    ensures s == Hex(bytes) <==> IsHex(bytes, s)
  {
    if bytes != [] && |s| == 2 * |bytes| {
      var n := |bytes| - 1;
      HexExactly(bytes[..n], s[..2 * n]);
      HexByteExactly(bytes[n], s[2 * n], s[2 * n + 1]);
      assert s == s[..2 * n] + [s[2 * n], s[2 * n + 1]];
      if IsHex(bytes[..n], s[..2 * n]) && IsHexByte(bytes[n], s[2 * n], s[2 * n + 1]) {
        forall i | 0 <= i < |bytes|
          ensures IsHexByte(bytes[i], s[2 * i], s[2 * i + 1])
        {
          assert i < n ==> IsHexByte(bytes[..n][i], s[..2 * n][2 * i], s[..2 * n][2 * i + 1]);
        }
      }
      if IsHex(bytes, s) {
        forall i | 0 <= i < n
          ensures IsHexByte(bytes[..n][i], s[..2 * n][2 * i], s[..2 * n][2 * i + 1])
        {
          assert IsHexByte(bytes[i], s[2 * i], s[2 * i + 1]);
        }
        assert IsHexByte(bytes[n], s[2 * n], s[2 * n + 1]);
      }
    }
  }

  lemma HexInjective(a: seq<Byte>, b: seq<Byte>)
    requires Hex(a) == Hex(b)
    ensures a == b
  {
    var s := Hex(a);
    HexExactly(a, s);
    HexExactly(b, s);
    forall i | 0 <= i < |a|
      ensures a[i] == b[i]
    {
      assert IsHexByte(a[i], s[2 * i], s[2 * i + 1]) && IsHexByte(b[i], s[2 * i], s[2 * i + 1]);
    }
  }

  /** A record changed after sealing passes only if the MAC of the changed payload is the same. */
  lemma AlteredExactly(v: SealedVerdict, w: SealedVerdict, key: seq<Byte>)
    requires v.tagHex == TagOf(v, key) && w.tagHex == v.tagHex
    ensures w.tagHex == TagOf(w, key) <==>
            Hmac(key, Utf8(Payload(w.subject, w.verdict, w.issuedUnix)))
            == Hmac(key, Utf8(Payload(v.subject, v.verdict, v.issuedUnix)))
  {
    var a := Hmac(key, Utf8(Payload(w.subject, w.verdict, w.issuedUnix)));
    var b := Hmac(key, Utf8(Payload(v.subject, v.verdict, v.issuedUnix)));
    if Hex(a) == Hex(b) {
      HexInjective(a, b);
    }
  }

  /** A record verifies exactly when its tag is the one its own fields and this key give. */
  method Verify(v: SealedVerdict, key: seq<Byte>) returns (ok: bool)
    ensures ok <==> v.tagHex == TagOf(v, key)
  {
    var again := Seal(v.subject, v.verdict, v.issuedUnix, key);
    Utf8Injective(again.tagHex, v.tagHex);
    ok := ConstantTimeEq(Utf8(again.tagHex), Utf8(v.tagHex));
  }

  /** A sealed verdict verifies under its own key. */
  method SealThenVerify(subject: string, verdict: string, issuedUnix: u64, key: seq<Byte>) returns (ok: bool)
    ensures ok
  {
    var v := Seal(subject, verdict, issuedUnix, key);
    ok := Verify(v, key);
  }

  // ---------------------------------------------------------------- what a payload determines

  lemma DigitsHoldNoBar(n: nat)
    ensures '|' !in Dec(n)
  {
  }

  /** Splitting at the first bar, which is where a subject without bars ends. */
  lemma FirstBar(s: string, rest: string)
    requires '|' !in s
    ensures var p := s + "|" + rest; Find(p, '|') == |s| && p[..|s|] == s && p[|s| + 1..] == rest
  {
    assert s + "|" + rest == s + ("|" + rest);
    FindOf(s, '|', "|" + rest);
  }

  lemma NoBarPast(a: string, x: string, i: int)
    requires '|' !in x
    ensures |a| < i < |a| + 1 + |x| ==> (a + "|" + x)[i] != '|'
  {
  }

  lemma NoLater(a: string, x: string, b: string, y: string)
    requires '|' !in x && a + "|" + x == b + "|" + y
    ensures |b| <= |a|
  {
    var p := b + "|" + y;
    assert p[|b|] == '|';
    assert |p| == |a| + 1 + |x|;
    NoBarPast(a, x, |b|);
  }

  /** Splitting at the last bar, which is where the digits begin. */
  lemma LastBar(a: string, x: string, b: string, y: string)
    requires '|' !in x && '|' !in y
    requires a + "|" + x == b + "|" + y
    ensures a == b && x == y
  {
    NoLater(a, x, b, y);
    NoLater(b, y, a, x);
    TwoParts(a + "|", x);
    TwoParts(b + "|", y);
    TwoParts(a, "|");
    TwoParts(b, "|");
  }

  lemma DecInjective(m: nat, n: nat)
    requires Dec(m) == Dec(n)
    ensures m == n
  {
    DecValDec(m);
    DecValDec(n);
  }

  /** Among subjects without a bar the payload determines all three fields. */
  lemma PayloadDetermines(v: SealedVerdict, w: SealedVerdict)
    requires '|' !in v.subject && '|' !in w.subject
    requires Payload(v.subject, v.verdict, v.issuedUnix) == Payload(w.subject, w.verdict, w.issuedUnix)
    ensures v.subject == w.subject && v.verdict == w.verdict && v.issuedUnix == w.issuedUnix
  {
    DigitsHoldNoBar(v.issuedUnix);
    DigitsHoldNoBar(w.issuedUnix);
    LastBar(v.subject + "|" + v.verdict, Dec(v.issuedUnix), w.subject + "|" + w.verdict, Dec(w.issuedUnix));
    DecInjective(v.issuedUnix, w.issuedUnix);
    FirstBar(v.subject, v.verdict);
    FirstBar(w.subject, w.verdict);
  }

  predicate SamePayload(v: SealedVerdict, w: SealedVerdict) {
    Payload(v.subject, v.verdict, v.issuedUnix) == Payload(w.subject, w.verdict, w.issuedUnix)
  }

  /** Some other verdict seals to the same tag under every key because it has the same payload. */
  ghost predicate Ambiguous(v: SealedVerdict) {
    exists w: SealedVerdict :: SamePayload(v, w) && (w.subject != v.subject || w.verdict != v.verdict)
  }

  function Bars(s: string): nat {
    if s == "" then 0 else Bars(s[..|s| - 1]) + if s[|s| - 1] == '|' then 1 else 0
  }

  lemma {:induction false} BarsConcat(a: string, b: string)
    ensures Bars(a + b) == Bars(a) + Bars(b)
  {
    if b == "" {
      assert a + b == a;
    } else {
      assert (a + b)[..|a + b| - 1] == a + b[..|b| - 1];
      BarsConcat(a, b[..|b| - 1]);
    }
  }

  lemma {:induction false} NoBars(s: string)
    ensures Bars(s) == 0 <==> '|' !in s
  {
    if s != "" {
      NoBars(s[..|s| - 1]);
      assert s == s[..|s| - 1] + [s[|s| - 1]];
    }
  }

  lemma PayloadBars(v: SealedVerdict)
    ensures Bars(Payload(v.subject, v.verdict, v.issuedUnix)) == Bars(v.subject) + Bars(v.verdict) + 2
  {
    BarsConcat(v.subject + "|" + v.verdict + "|", Dec(v.issuedUnix));
    BarsConcat(v.subject + "|" + v.verdict, "|");
    BarsConcat(v.subject + "|", v.verdict);
    BarsConcat(v.subject, "|");
    DigitsHoldNoBar(v.issuedUnix);
    NoBars(Dec(v.issuedUnix));
    assert "|"[..0] == "";
    assert Bars("|") == 1;
  }

  lemma SplitAtBar(s: string) returns (a: string, b: string)
    requires '|' in s
    ensures s == a + "|" + b
  {
    var n := Find(s, '|');
    assert s[..|s|] == s;
    a, b := s[..n], s[n + 1..];
  }

  /** The fields are joined without escaping: a verdict is told from all others exactly when neither text holds a bar. */
  lemma AmbiguousExactly(v: SealedVerdict)
    ensures Ambiguous(v) <==> '|' in v.subject || '|' in v.verdict
  {
    if '|' in v.subject {
      var a, b := SplitAtBar(v.subject);
      var w := v.(subject := a, verdict := b + "|" + v.verdict);
      assert a + "|" + (b + "|" + v.verdict) == v.subject + "|" + v.verdict;
      assert SamePayload(v, w) && w.subject != v.subject;
    } else if '|' in v.verdict {
      var a, b := SplitAtBar(v.verdict);
      var w := v.(subject := v.subject + "|" + a, verdict := b);
      assert v.subject + "|" + a + "|" + b == v.subject + "|" + (a + "|" + b);
      assert SamePayload(v, w) && w.subject != v.subject;
    } else {
      forall w: SealedVerdict | SamePayload(v, w)
        ensures w.subject == v.subject && w.verdict == v.verdict
      {
        PayloadBars(v);
        PayloadBars(w);
        NoBars(v.subject);
        NoBars(v.verdict);
        NoBars(w.subject);
        PayloadDetermines(v, w);
      }
    }
  }
}
