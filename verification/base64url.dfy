/** Base64url without padding (section 5 of RFC 4648): `cli/src/listen.rs`, and what is minted with it. */
module Base64Url {
  import opened Wrappers
  import opened Sequences
  import opened Text
  import opened Bytes
  import Auth

  /** The value table 2 of RFC 4648 gives a character. */
  function ValueOf(c: char): Option<nat> {
    if 'A' <= c <= 'Z' then Some((c - 'A') as nat)
    else if 'a' <= c <= 'z' then Some((c - 'a') as nat + 26)
    else if '0' <= c <= '9' then Some((c - '0') as nat + 52)
    else if c == '-' then Some(62)
    else if c == '_' then Some(63)
    else None
  }

  /** The same table read the other way. */
  function Letter(v: nat): char
    requires v < 64
  {
    if v < 26 then 'A' + v as char
    else if v < 52 then 'a' + (v - 26) as char
    else if v < 62 then '0' + (v - 52) as char
    else if v == 62 then '-'
    else '_'
  }

  /** Each value has one letter, and each letter one value. */
  lemma LetterExactly(v: nat, c: char)
    requires v < 64
    ensures Letter(v) == c <==> ValueOf(c) == Some(v)
  {
  }

  const UPPER := "ABCDEFGHIJKLMNOPQRSTUVWXYZ"
  const LOWER := "abcdefghijklmnopqrstuvwxyz"
  const SIGNS := "0123456789-_"
  const ALPHABET := UPPER + LOWER + SIGNS

  lemma UpperIs(v: nat)
    requires v < 26
    ensures UPPER[v] == 'A' + v as char
  {
  }

  lemma LowerIs(v: nat)
    requires v < 26
    ensures LOWER[v] == 'a' + v as char
  {
  }

  lemma SignIs(v: nat)
    requires v < 12
    ensures SIGNS[v] == if v < 10 then '0' + v as char else if v == 10 then '-' else '_'
  {
  }

  /** The source's alphabet is that table. */
  lemma AlphabetIs(v: nat)
    requires v < 64
    ensures |ALPHABET| == 64 && ALPHABET[v] == Letter(v)
  {
    if v < 26 {
      UpperIs(v);
    } else if v < 52 {
      LowerIs(v - 26);
    } else {
      SignIs(v - 52);
    }
  }

  /** The characters a secret may hold are those of the alphabet. */
  lemma SafeExactly(c: char)
    ensures Auth.IsBase64Url(c) <==> c in ALPHABET
  {
    if c in ALPHABET {
      var v :| 0 <= v < |ALPHABET| && ALPHABET[v] == c;
      AlphabetIs(v);
      LetterExactly(v, c);
    }
    if Auth.IsBase64Url(c) {
      var v := ValueOf(c).value;
      AlphabetIs(v);
      LetterExactly(v, c);
    }
  }

  // ---------------------------------------------------------------- encoding

  /** Three bytes as one number of 24 bits. */
  function Group(b0: u8, b1: u8, b2: u8): nat {
    b0 * 65536 + b1 * 256 + b2
  }

  /** Sextet `i` of a group: shifted right by `18 - 6 * i`, and the last six bits of that. */
  function Sextet(n: nat, i: nat): (v: nat)
    requires i < 4
    ensures v < 64
  {
    if i == 0 then n / 262144 % 64 else if i == 1 then n / 4096 % 64 else if i == 2 then n / 64 % 64 else n % 64
  }

  function Letters(n: nat, take: nat): (s: string)
    requires take <= 4
    ensures |s| == take
  {
    if take == 0 then "" else Letters(n, take - 1) + [Letter(Sextet(n, take - 1))]
  }

  /** Section 4 of RFC 4648: every three bytes give four letters, one or two left over give two or three. */
  function Encode(bytes: seq<u8>): string {
    if bytes == [] then ""
    else if |bytes| == 1 then Letters(Group(bytes[0], 0, 0), 2)
    else if |bytes| == 2 then Letters(Group(bytes[0], bytes[1], 0), 3)
    else Letters(Group(bytes[0], bytes[1], bytes[2]), 4) + Encode(bytes[3..])
  }

  method PushGroup(out: string, n: nat, take: nat) returns (r: string)
    requires take <= 4
    ensures r == out + Letters(n, take)
  {
    r := out;
    for i := 0 to take
      invariant r == out + Letters(n, i)
    {
      var index := Sextet(n, i);
      AlphabetIs(index);
      r := r + [ALPHABET[index]];
    }
  }

  function Min(a: nat, b: nat): nat {
    if a < b then a else b
  }

  method EncodeBytes(bytes: seq<u8>) returns (out: string)
    ensures out == Encode(bytes)
  {
    out := "";
    var at := 0;
    while at < |bytes|
      invariant at <= |bytes|
      invariant out + Encode(bytes[at..]) == Encode(bytes)
    {
      var chunk := bytes[at..Min(at + 3, |bytes|)];
      var b1 := if |chunk| > 1 then chunk[1] else 0;
      var b2 := if |chunk| > 2 then chunk[2] else 0;
      var n := Group(chunk[0], b1, b2);
      ghost var before := out;
      out := PushGroup(out, n, |chunk| + 1);
      EncodeChunk(bytes[at..], chunk);
      assert bytes[at..][|chunk|..] == bytes[at + |chunk|..];
      Regrouped(before, Letters(n, |chunk| + 1), Encode(bytes[at + |chunk|..]));
      at := at + |chunk|;
    }
    assert bytes[at..] == [];
  }

  lemma EncodeChunk(rest: seq<u8>, chunk: seq<u8>)
    requires rest != [] && chunk == rest[..Min(3, |rest|)]
    ensures var b1 := if |chunk| > 1 then chunk[1] else 0;
            var b2 := if |chunk| > 2 then chunk[2] else 0;
            Encode(rest) == Letters(Group(chunk[0], b1, b2), |chunk| + 1) + Encode(rest[|chunk|..])
  {
    if |rest| < 3 {
      assert rest[|chunk|..] == [];
      NothingJoins(Letters(Group(chunk[0], if |chunk| > 1 then chunk[1] else 0, 0), |chunk| + 1), "");
    }
  }

  // ---------------------------------------------------------------- decoding

  /** What four letters say, without padding; the bits that no byte uses must be zero. */
  function Decode(s: string): Option<seq<u8>> {
    if s == "" then Some([])
    else if |s| == 1 then None
    else if ValueOf(s[0]).None? || ValueOf(s[1]).None? then None
    else
      var v0, v1 := ValueOf(s[0]).value, ValueOf(s[1]).value;
      if |s| == 2 then
        if v1 % 16 == 0 then Some([v0 * 4 + v1 / 16]) else None
      else if ValueOf(s[2]).None? then None
      else
        var v2 := ValueOf(s[2]).value;
        if |s| == 3 then
          if v2 % 4 == 0 then Some([v0 * 4 + v1 / 16, v1 % 16 * 16 + v2 / 4]) else None
        else if ValueOf(s[3]).None? then None
        else match Decode(s[4..])
          case None => None
          case Some(rest) => Some([v0 * 4 + v1 / 16, v1 % 16 * 16 + v2 / 4, v2 % 4 * 64 + ValueOf(s[3]).value] + rest)
  }

  lemma Sextet0(b0: u8, low: nat)
    requires low < 65536
    ensures (b0 * 65536 + low) / 262144 % 64 == b0 / 4
  {
    var q, r := b0 / 4, b0 % 4;
    assert b0 * 65536 + low == 262144 * q + (r * 65536 + low);
  }

  lemma Sextet1(b0: u8, b1: u8, b2: u8)
    ensures (b0 * 65536 + b1 * 256 + b2) / 4096 % 64 == b0 % 4 * 16 + b1 / 16
  {
    var q, r := b1 / 16, b1 % 16;
    assert b0 * 65536 + b1 * 256 + b2 == 4096 * (b0 * 16 + q) + (r * 256 + b2);
    assert b0 * 16 + q == 64 * (b0 / 4) + (b0 % 4 * 16 + q);
  }

  lemma Sextet2(b0: u8, b1: u8, b2: u8)
    ensures (b0 * 65536 + b1 * 256 + b2) / 64 % 64 == b1 % 16 * 4 + b2 / 64
  {
    var q, r := b2 / 64, b2 % 64;
    var m := b0 * 1024 + b1 * 4 + q;
    assert b0 * 65536 + b1 * 256 + b2 == 64 * m + r;
    TwoDigits(m, r);
    assert m == 64 * (b0 * 16 + b1 / 16) + (b1 % 16 * 4 + q);
    TwoDigits(b0 * 16 + b1 / 16, b1 % 16 * 4 + q);
  }

  lemma Sextet3(b0: u8, b1: u8, b2: u8)
    ensures (b0 * 65536 + b1 * 256 + b2) % 64 == b2 % 64
  {
    assert b0 * 65536 + b1 * 256 + b2 == 64 * (b0 * 1024 + b1 * 4) + b2;
  }

  /** The four sextets of three bytes. */
  lemma Sextets(b0: u8, b1: u8, b2: u8)
    ensures var n := Group(b0, b1, b2);
            && Sextet(n, 0) == b0 / 4 && Sextet(n, 1) == b0 % 4 * 16 + b1 / 16
            && Sextet(n, 2) == b1 % 16 * 4 + b2 / 64 && Sextet(n, 3) == b2 % 64
  {
    Sextet0(b0, b1 * 256 + b2);
    Sextet1(b0, b1, b2);
    Sextet2(b0, b1, b2);
    Sextet3(b0, b1, b2);
  }

  lemma LettersAt(n: nat, take: nat, i: nat)
    requires i < take <= 4
    ensures Letters(n, take)[i] == Letter(Sextet(n, i))
    ensures ValueOf(Letters(n, take)[i]) == Some(Sextet(n, i))
  {
    if i < take - 1 {
      LettersAt(n, take - 1, i);
    }
    LetterExactly(Sextet(n, i), Letter(Sextet(n, i)));
  }

  /** The sextets of a group put together again. */
  lemma Packed(b0: u8, b1: u8, b2: u8)
    ensures var v0, v1, v2, v3 := b0 / 4, b0 % 4 * 16 + b1 / 16, b1 % 16 * 4 + b2 / 64, b2 % 64;
            && v0 * 4 + v1 / 16 == b0 && v1 % 16 * 16 + v2 / 4 == b1 && v2 % 4 * 64 + v3 == b2
            && (b1 == 0 ==> v1 % 16 == 0) && (b2 == 0 ==> v2 % 4 == 0)
  {
  }

  lemma TakenApart(b0: u8, b1: u8, b2: u8) returns (v0: nat, v1: nat, v2: nat, v3: nat)
    ensures var n := Group(b0, b1, b2); v0 == Sextet(n, 0) && v1 == Sextet(n, 1) && v2 == Sextet(n, 2) && v3 == Sextet(n, 3)
    ensures v0 * 4 + v1 / 16 == b0 && v1 % 16 * 16 + v2 / 4 == b1 && v2 % 4 * 64 + v3 == b2
    ensures (b1 == 0 ==> v1 % 16 == 0) && (b2 == 0 ==> v2 % 4 == 0)
  {
    Sextets(b0, b1, b2);
    Packed(b0, b1, b2);
    var n := Group(b0, b1, b2);
    v0, v1, v2, v3 := Sextet(n, 0), Sextet(n, 1), Sextet(n, 2), Sextet(n, 3);
  }

  lemma DecodeTwo(s: string, v0: nat, v1: nat, b0: u8)
    requires |s| == 2 && ValueOf(s[0]) == Some(v0) && ValueOf(s[1]) == Some(v1)
    requires v1 % 16 == 0 && v0 * 4 + v1 / 16 == b0
    ensures Decode(s) == Some([b0])
  {
  }

  lemma DecodeThree(s: string, v0: nat, v1: nat, v2: nat, b0: u8, b1: u8)
    requires |s| == 3 && ValueOf(s[0]) == Some(v0) && ValueOf(s[1]) == Some(v1) && ValueOf(s[2]) == Some(v2)
    requires v2 % 4 == 0 && v0 * 4 + v1 / 16 == b0 && v1 % 16 * 16 + v2 / 4 == b1
    ensures Decode(s) == Some([b0, b1])
  {
  }

  lemma OneByte(b0: u8)
    ensures Decode(Letters(Group(b0, 0, 0), 2)) == Some([b0])
  {
    var n := Group(b0, 0, 0);
    var v0, v1, _, _ := TakenApart(b0, 0, 0);
    LettersAt(n, 2, 0);
    LettersAt(n, 2, 1);
    DecodeTwo(Letters(n, 2), v0, v1, b0);
  }

  lemma TwoBytes(b0: u8, b1: u8)
    ensures Decode(Letters(Group(b0, b1, 0), 3)) == Some([b0, b1])
  {
    var n := Group(b0, b1, 0);
    var v0, v1, v2, _ := TakenApart(b0, b1, 0);
    LettersAt(n, 3, 0);
    LettersAt(n, 3, 1);
    LettersAt(n, 3, 2);
    DecodeThree(Letters(n, 3), v0, v1, v2, b0, b1);
  }

  lemma ThreeBytes(b0: u8, b1: u8, b2: u8, more: string, rest: seq<u8>)
    requires Decode(more) == Some(rest)
    ensures Decode(Letters(Group(b0, b1, b2), 4) + more) == Some([b0, b1, b2] + rest)
  {
    var n := Group(b0, b1, b2);
    var v0, v1, v2, v3 := TakenApart(b0, b1, b2);
    LettersAt(n, 4, 0);
    LettersAt(n, 4, 1);
    LettersAt(n, 4, 2);
    LettersAt(n, 4, 3);
    FourMore(Letters(n, 4), more, v0, v1, v2, v3, rest);
  }

  lemma FourMore(s: string, more: string, v0: nat, v1: nat, v2: nat, v3: nat, rest: seq<u8>)
    requires |s| == 4 && ValueOf(s[0]) == Some(v0) && ValueOf(s[1]) == Some(v1)
    requires ValueOf(s[2]) == Some(v2) && ValueOf(s[3]) == Some(v3) && Decode(more) == Some(rest)
    ensures Decode(s + more) == Some([v0 * 4 + v1 / 16, v1 % 16 * 16 + v2 / 4, v2 % 4 * 64 + v3] + rest)
  {
    assert (s + more)[4..] == more;
  }

  /** Decoding gives every byte string back. */
  lemma {:induction false} DecodeEncode(bytes: seq<u8>)
    ensures Decode(Encode(bytes)) == Some(bytes)
  {
    if |bytes| == 1 {
      OneByte(bytes[0]);
      assert bytes == [bytes[0]];
    } else if |bytes| == 2 {
      TwoBytes(bytes[0], bytes[1]);
      assert bytes == [bytes[0], bytes[1]];
    } else if bytes != [] {
      DecodeEncode(bytes[3..]);
      ThreeBytes(bytes[0], bytes[1], bytes[2], Encode(bytes[3..]), bytes[3..]);
      assert bytes == [bytes[0], bytes[1], bytes[2]] + bytes[3..];
    }
  }

  lemma ValueBelow(c: char)
    ensures ValueOf(c).Some? ==> ValueOf(c).value < 64 && Letter(ValueOf(c).value) == c
  {
    if ValueOf(c).Some? {
      LetterExactly(ValueOf(c).value, c);
    }
  }

  /** Sextets put together into bytes and taken apart again. */
  lemma Unpacked(v0: nat, v1: nat, v2: nat, v3: nat)
    requires v0 < 64 && v1 < 64 && v2 < 64 && v3 < 64
    ensures var b0, b1, b2 := v0 * 4 + v1 / 16, v1 % 16 * 16 + v2 / 4, v2 % 4 * 64 + v3;
            && b0 / 4 == v0 && b0 % 4 * 16 + b1 / 16 == v1 && b1 % 16 * 4 + b2 / 64 == v2 && b2 % 64 == v3
  {
  }

  lemma TwoBack(s: string)
    requires |s| == 2 && Decode(s).Some?
    ensures Encode(Decode(s).value) == s
  {
    var b := Decode(s).value[0];
    ValueBelow(s[0]);
    ValueBelow(s[1]);
    Unpacked(ValueOf(s[0]).value, ValueOf(s[1]).value, 0, 0);
    Sextets(b, 0, 0);
    TwoLetters(Group(b, 0, 0), s);
  }

  lemma ThreeBack(s: string)
    requires |s| == 3 && Decode(s).Some?
    ensures Encode(Decode(s).value) == s
  {
    var b, c := Decode(s).value[0], Decode(s).value[1];
    ValueBelow(s[0]);
    ValueBelow(s[1]);
    ValueBelow(s[2]);
    Unpacked(ValueOf(s[0]).value, ValueOf(s[1]).value, ValueOf(s[2]).value, 0);
    Sextets(b, c, 0);
    ThreeLetters(Group(b, c, 0), s);
  }

  lemma FourBack(s: string)
    requires |s| >= 4 && Decode(s).Some?
    ensures var bytes := Decode(s).value;
            |bytes| >= 3 && Letters(Group(bytes[0], bytes[1], bytes[2]), 4) == s[..4] && Decode(s[4..]) == Some(bytes[3..])
  {
    var bytes := Decode(s).value;
    ValueBelow(s[0]);
    ValueBelow(s[1]);
    ValueBelow(s[2]);
    ValueBelow(s[3]);
    var v0, v1, v2, v3 := ValueOf(s[0]).value, ValueOf(s[1]).value, ValueOf(s[2]).value, ValueOf(s[3]).value;
    assert bytes[3..] == Decode(s[4..]).value;
    Repacked(s[..4], v0, v1, v2, v3, bytes[0], bytes[1], bytes[2]);
  }

  lemma Repacked(s: string, v0: nat, v1: nat, v2: nat, v3: nat, b0: u8, b1: u8, b2: u8)
    requires |s| == 4 && v0 < 64 && v1 < 64 && v2 < 64 && v3 < 64
    requires b0 == v0 * 4 + v1 / 16 && b1 == v1 % 16 * 16 + v2 / 4 && b2 == v2 % 4 * 64 + v3
    requires s[0] == Letter(v0) && s[1] == Letter(v1) && s[2] == Letter(v2) && s[3] == Letter(v3)
    ensures Letters(Group(b0, b1, b2), 4) == s
  {
    Unpacked(v0, v1, v2, v3);
    Sextets(b0, b1, b2);
    FourLetters(Group(b0, b1, b2), s);
  }

  /** Encoding what was decoded gives the text back: one text for each byte string. */
  lemma {:induction false} EncodeDecode(s: string)
    requires Decode(s).Some?
    ensures Encode(Decode(s).value) == s
  {
    if |s| == 2 {
      TwoBack(s);
    } else if |s| == 3 {
      ThreeBack(s);
    } else if s != "" {
      FourBack(s);
      EncodeDecode(s[4..]);
      assert s == s[..4] + s[4..];
    }
  }

  lemma TwoLetters(n: nat, s: string)
    requires |s| == 2 && s[0] == Letter(Sextet(n, 0)) && s[1] == Letter(Sextet(n, 1))
    ensures Letters(n, 2) == s
  {
    LettersAt(n, 2, 0);
    LettersAt(n, 2, 1);
  }

  lemma ThreeLetters(n: nat, s: string)
    requires |s| == 3 && s[0] == Letter(Sextet(n, 0)) && s[1] == Letter(Sextet(n, 1)) && s[2] == Letter(Sextet(n, 2))
    ensures Letters(n, 3) == s
  {
    LettersAt(n, 3, 0);
    LettersAt(n, 3, 1);
    LettersAt(n, 3, 2);
  }

  lemma FourLetters(n: nat, s: string)
    requires |s| == 4 && s[0] == Letter(Sextet(n, 0)) && s[1] == Letter(Sextet(n, 1))
    requires s[2] == Letter(Sextet(n, 2)) && s[3] == Letter(Sextet(n, 3))
    ensures Letters(n, 4) == s
  {
    LettersAt(n, 4, 0);
    LettersAt(n, 4, 1);
    LettersAt(n, 4, 2);
    LettersAt(n, 4, 3);
  }

  /** Encoder and decoder are exactly inverse. */
  lemma EncodesExactly(bytes: seq<u8>, s: string)
    ensures Encode(bytes) == s <==> Decode(s) == Some(bytes)
  {
    DecodeEncode(bytes);
    if Decode(s) == Some(bytes) {
      EncodeDecode(s);
    }
  }

  predicate AllSafe(s: string) {
    forall i :: 0 <= i < |s| ==> Auth.IsBase64Url(s[i])
  }

  lemma {:induction false} LettersSafe(n: nat, take: nat)
    requires take <= 4
    ensures AllSafe(Letters(n, take))
  {
    if take > 0 {
      LettersSafe(n, take - 1);
      var c := Letter(Sextet(n, take - 1));
      LetterExactly(Sextet(n, take - 1), c);
      assert ValueOf(c).Some?;
    }
  }

  /** Four letters for three bytes, rounded up, all of them safe in a URL. */
  lemma {:induction false} EncodeShape(bytes: seq<u8>)
    ensures |Encode(bytes)| == (4 * |bytes| + 2) / 3
    ensures AllSafe(Encode(bytes))
  {
    if |bytes| == 1 {
      LettersSafe(Group(bytes[0], 0, 0), 2);
    } else if |bytes| == 2 {
      LettersSafe(Group(bytes[0], bytes[1], 0), 3);
    } else if bytes != [] {
      LettersSafe(Group(bytes[0], bytes[1], bytes[2]), 4);
      EncodeShape(bytes[3..]);
      assert |bytes[3..]| == |bytes| - 3;
    }
  }

  // ---------------------------------------------------------------- what is minted

  const SECRET_BYTES: nat := 32
  const NONCE_BYTES: nat := 16
  const MIN_NONCE: nat := 22

  datatype NonceError = TooShort | IllegalCharacter

  /** `Nonce::new` of `core/src/csp.rs`. */
  function NewNonce(value: string): Result<string, NonceError> {
    if ByteLen(value) < MIN_NONCE then Err(TooShort)
    else if !AllSafe(value) then Err(IllegalCharacter)
    else Ok(value)
  }

  /** A nonce is at least 22 characters of the alphabet; its length is checked first, in bytes. */
  lemma NonceExactly(value: string, nonce: string)
    ensures NewNonce(value) == Ok(nonce) <==> nonce == value && |value| >= 22 && forall i :: 0 <= i < |value| ==> value[i] in ALPHABET
    ensures NewNonce(value) == Err(TooShort) <==> |Utf8(value)| < 22
  {
    ByteLenIs(value);
    forall i | 0 <= i < |value|
      ensures Auth.IsBase64Url(value[i]) <==> value[i] in ALPHABET
    {
      SafeExactly(value[i]);
    }
    if AllSafe(value) {
      SafeByteLen(value);
    }
  }

  lemma {:induction false} SafeByteLen(s: string)
    requires AllSafe(s)
    ensures ByteLen(s) == |s|
  {
    if s != "" {
      assert Auth.IsBase64Url(s[0]);
      SafeByteLen(s[1..]);
    }
  }

  /** Whatever the kernel's randomness, a minted secret passes its own checks and holds all of it. */
  method MintSecret(random: seq<u8>) returns (r: Result<string, Auth.SecretError>)
    requires |random| == SECRET_BYTES
    ensures r.Ok? && Auth.IsSecret(r.value) && Decode(r.value) == Some(random)
  {
    var text := EncodeBytes(random);
    EncodeShape(random);
    DecodeEncode(random);
    r := Auth.NewSecret(text);
  }

  method MintNonce(random: seq<u8>) returns (r: Result<string, NonceError>)
    requires |random| == NONCE_BYTES
    ensures r.Ok? && |r.value| == MIN_NONCE && AllSafe(r.value) && Decode(r.value) == Some(random)
  {
    var text := EncodeBytes(random);
    EncodeShape(random);
    SafeByteLen(text);
    DecodeEncode(random);
    r := NewNonce(text);
  }
}
