/** Bytes, the UTF-8 bytes of a text (`str::as_bytes`), and the comparison of secrets. */
module Bytes {
  import opened Wrappers
  import opened Bits
  import opened Text

  type Byte = u8

  function ByteXor(x: Byte, y: Byte): Byte {
    assert Pow2(8) == 256;
    Xor(x, y, 8)
  }

  function ByteOr(x: Byte, y: Byte): Byte {
    assert Pow2(8) == 256;
    Or(x, y, 8)
  }

  /** UTF-8 of one character. */
  function Codes(c: char): (r: seq<Byte>)
    ensures r != []
  {
    var n := c as int;
    if n < 0x80 then [n]
    else if n < 0x800 then [0xC0 + n / 64, 0x80 + n % 64]
    else if n < 0x1_0000 then [0xE0 + n / 4096, 0x80 + n / 64 % 64, 0x80 + n % 64]
    else [0xF0 + n / 262144, 0x80 + n / 4096 % 64, 0x80 + n / 64 % 64, 0x80 + n % 64]
  }

  function Utf8(s: string): seq<Byte> {
    if s == "" then [] else Codes(s[0]) + Utf8(s[1..])
  }

  /** The first number of a character says how many follow. */
  lemma SameWidth(c: char, d: char)
    requires Codes(c)[0] == Codes(d)[0]
    ensures |Codes(c)| == |Codes(d)|
  {
  }

  lemma SameCodes(c: char, d: char)
    requires Codes(c) == Codes(d)
    ensures c == d
  {
    var n, m := c as int, d as int;
    var a, b := Codes(c), Codes(d);
    if n < 0x80 {
      assert a[0] == b[0];
    } else if n < 0x800 {
      assert a[0] == b[0] && a[1] == b[1];
      assert n == 64 * (n / 64) + n % 64 && m == 64 * (m / 64) + m % 64;
    } else if n < 0x1_0000 {
      assert a[0] == b[0] && a[1] == b[1] && a[2] == b[2];
      Parts(n);
      Parts(m);
    } else {
      assert a[0] == b[0] && a[1] == b[1] && a[2] == b[2] && a[3] == b[3];
      Parts(n);
      Parts(m);
    }
  }

  lemma Parts(n: nat)
    ensures n == 4096 * (n / 4096) + 64 * (n / 64 % 64) + n % 64
    ensures n == 262144 * (n / 262144) + 4096 * (n / 4096 % 64) + 64 * (n / 64 % 64) + n % 64
  {
    var q, p := n / 64, n / 4096;
    assert q / 64 == p && p / 64 == n / 262144;
    assert n == 64 * q + n % 64 && q == 64 * p + q % 64 && p == 64 * (p / 64) + p % 64;
  }

  lemma {:induction false} SameUtf8(s: string, t: string)
    requires Utf8(s) == Utf8(t)
    ensures s == t
  {
    if s != "" && t != "" {
      var a, b := Codes(s[0]), Codes(t[0]);
      assert Utf8(s)[0] == a[0] && Utf8(t)[0] == b[0];
      SameWidth(s[0], t[0]);
      assert Utf8(s)[..|a|] == a && Utf8(t)[..|b|] == b;
      SameCodes(s[0], t[0]);
      assert Utf8(s)[|a|..] == Utf8(s[1..]) && Utf8(t)[|b|..] == Utf8(t[1..]);
      SameUtf8(s[1..], t[1..]);
      assert s == [s[0]] + s[1..] && t == [t[0]] + t[1..];
    }
  }

  /** A byte that continues a character. */
  predicate Continues(b: int) {
    0x80 <= b <= 0xBF
  }

  predicate Two(a: int, b: int, n: int) {
    0xC2 <= a <= 0xDF && Continues(b) && n == (a - 0xC0) * 64 + (b - 0x80)
  }

  predicate Three(a: int, b: int, c: int, n: int) {
    && 0xE0 <= a <= 0xEF && Continues(b) && Continues(c) && (a == 0xE0 ==> b >= 0xA0) && (a == 0xED ==> b <= 0x9F)
    && n == (a - 0xE0) * 4096 + (b - 0x80) * 64 + (c - 0x80)
  }

  predicate Four(a: int, b: int, c: int, d: int, n: int) {
    && 0xF0 <= a <= 0xF4 && Continues(b) && Continues(c) && Continues(d) && (a == 0xF0 ==> b >= 0x90) && (a == 0xF4 ==> b <= 0x8F)
    && n == (a - 0xF0) * 262144 + (b - 0x80) * 4096 + (c - 0x80) * 64 + (d - 0x80)
  }

  /** The syntax of one character, section 4 of RFC 3629, and the code point its bytes add up to. */
  predicate IsUtf8Of(b: seq<Byte>, n: int) {
    || (|b| == 1 && b[0] <= 0x7F && n == b[0])
    || (|b| == 2 && Two(b[0], b[1], n))
    || (|b| == 3 && Three(b[0], b[1], b[2], n))
    || (|b| == 4 && Four(b[0], b[1], b[2], b[3], n))
  }

  lemma TwoDigits(x: nat, y: nat)
    requires y < 64
    ensures (64 * x + y) / 64 == x && (64 * x + y) % 64 == y
  {
  }

  lemma TwoExactly(a: Byte, b: Byte, n: nat)
    ensures Two(a, b, n) <==> 0x80 <= n < 0x800 && a == 0xC0 + n / 64 && b == 0x80 + n % 64
  {
    if Two(a, b, n) {
      TwoDigits(a - 0xC0, b - 0x80);
    }
  }

  lemma ThreeExactly(a: Byte, b: Byte, c: Byte, n: nat)
    ensures Three(a, b, c, n) <==>
            && 0x800 <= n < 0x1_0000 && !(0xD800 <= n <= 0xDFFF)
            && a == 0xE0 + n / 4096 && b == 0x80 + n / 64 % 64 && c == 0x80 + n % 64
  {
    Parts(n);
    if Three(a, b, c, n) {
      TwoDigits((a - 0xE0) * 64 + (b - 0x80), c - 0x80);
      TwoDigits(a - 0xE0, b - 0x80);
    }
  }

  lemma FourExactly(a: Byte, b: Byte, c: Byte, d: Byte, n: nat)
    ensures Four(a, b, c, d, n) <==>
            && 0x1_0000 <= n < 0x11_0000
            && a == 0xF0 + n / 262144 && b == 0x80 + n / 4096 % 64 && c == 0x80 + n / 64 % 64 && d == 0x80 + n % 64
  {
    Parts(n);
    if Four(a, b, c, d, n) {
      TwoDigits((a - 0xF0) * 4096 + (b - 0x80) * 64 + (c - 0x80), d - 0x80);
      TwoDigits((a - 0xF0) * 64 + (b - 0x80), c - 0x80);
      TwoDigits(a - 0xF0, b - 0x80);
    }
  }

  /** The bytes of a character are the one sequence of that syntax that adds up to it. */
  lemma CodesExactly(c: char, b: seq<Byte>)
    ensures b == Codes(c) <==> IsUtf8Of(b, c as int)
  {
    var n := c as int;
    if |b| == 2 {
      TwoExactly(b[0], b[1], n);
    } else if |b| == 3 {
      ThreeExactly(b[0], b[1], b[2], n);
    } else if |b| == 4 {
      FourExactly(b[0], b[1], b[2], b[3], n);
    }
  }

  /** `str::len` counts these bytes. */
  lemma {:induction false} ByteLenIs(s: string)
    ensures ByteLen(s) == |Utf8(s)|
  {
    if s != "" {
      ByteLenIs(s[1..]);
    }
  }

  /** Different texts have different bytes. */
  lemma Utf8Injective(s: string, t: string)
    ensures Utf8(s) == Utf8(t) <==> s == t
  {
    if Utf8(s) == Utf8(t) {
      SameUtf8(s, t);
    }
  }

  lemma DifferenceGrows(d: Byte, x: Byte, y: Byte)
    ensures ByteOr(d, ByteXor(x, y)) == 0 <==> d == 0 && x == y
  {
    assert Pow2(8) == 256;
    XorZero(x, y, 8);
    OrZero(d, ByteXor(x, y), 8);
  }

  /** Compares every byte before it answers: `core/src/auth.rs`. */
  method ConstantTimeEq(a: seq<Byte>, b: seq<Byte>) returns (same: bool)
    ensures same <==> a == b
  {
    if |a| != |b| {
      return false;
    }
    var difference: Byte := 0;
    for k := 0 to |a|
      invariant difference == 0 <==> a[..k] == b[..k]
    {
      DifferenceGrows(difference, a[k], b[k]);
      assert a[..k + 1] == a[..k] + [a[k]] && b[..k + 1] == b[..k] + [b[k]];
      difference := ByteOr(difference, ByteXor(a[k], b[k]));
    }
    assert a[..|a|] == a && b[..|b|] == b;
    return difference == 0;
  }
}
