/**
 SHA-256 as `core/src/fleet.rs` computes it, against FIPS 180-4.

 The functions follow sections 4.1.2, 5.1.1, 5.2.1, 5.3.3 and 6.2.2 of the standard. The
 methods follow the source. A `u32` is a number below 2^32: its sums are
 taken modulo 2^32, and its bitwise operations are defined on its binary digits.
 */
module Sha256 {
  import opened Bytes
  import opened Bits
  import opened Sha256Constants

  /** `wrapping_add`, the addition of section 3.1. */
  function Plus(x: Word, y: Word): Word {
    (x + y) % 0x1_0000_0000
  }

  function WordXor(x: Word, y: Word): Word {
    Pow2Is32();
    Xor(x, y, 32)
  }

  function Not(x: Word): Word {
    0xFFFF_FFFF - x
  }

  /** SHR of section 3.2: the last digit falls `n` times. */
  function Shr(x: Word, n: nat): Word
    decreases n, x
  {
    if n == 0 then x else Shr(x / 2, n - 1)
  }

  /** ROTR of section 3.2: the last digit becomes the first, `n` times. */
  function Rotr(x: Word, n: nat): Word
    decreases n, x
  {
    if n == 0 then x else Rotr(OneRight(x), n - 1)
  }

  function OneRight(x: Word): Word {
    x / 2 + x % 2 * 0x8000_0000
  }

  function Ch(x: Word, y: Word, z: Word): Word {
    WordXor(And(x, y), And(Not(x), z))
  }

  function Maj(x: Word, y: Word, z: Word): Word {
    WordXor(WordXor(And(x, y), And(x, z)), And(y, z))
  }

  function Sigma0(x: Word): Word {
    WordXor(WordXor(Rotr(x, 2), Rotr(x, 13)), Rotr(x, 22))
  }

  function Sigma1(x: Word): Word {
    WordXor(WordXor(Rotr(x, 6), Rotr(x, 11)), Rotr(x, 25))
  }

  function Small0(x: Word): Word {
    WordXor(WordXor(Rotr(x, 7), Rotr(x, 18)), Shr(x, 3))
  }

  function Small1(x: Word): Word {
    WordXor(WordXor(Rotr(x, 17), Rotr(x, 19)), Shr(x, 10))
  }

  // ---------------------------------------------------------------- the functions, digit by digit

  /** The place `n` up from place `i`, around the end. */
  function Up(i: nat, n: nat): (k: nat)
    requires i < 32 && n < 32
    ensures k < 32
  {
    if i + n < 32 then i + n else i + n - 32
  }

  lemma OneRightDigit(x: Word, i: nat)
    requires i < 32
    ensures Digit(OneRight(x), i) == Digit(x, Up(i, 1))
  {
    Pow2Is31();
    SumDigit(x / 2, x % 2, 31, i);
    assert Digit(x, 0) == x % 2;
    DigitIsBit(x, 0);
  }

  /** Rotating right by `n` moves every digit `n` places down, around the end. */
  lemma {:induction false} RotrDigit(x: Word, n: nat, i: nat)
    requires n < 32 && i < 32
    ensures Digit(Rotr(x, n), i) == Digit(x, Up(i, n))
    decreases n
  {
    if n > 0 {
      RotrDigit(OneRight(x), n - 1, i);
      OneRightDigit(x, Up(i, n - 1));
    }
  }

  /** Shifting right by `n` moves every digit down and lets the last `n` fall. */
  lemma {:induction false} ShrDigit(x: Word, n: nat, i: nat)
    ensures Digit(Shr(x, n), i) == Digit(x, n + i)
    decreases n
  {
    if n > 0 {
      ShrDigit(x / 2, n - 1, i);
    }
  }

  /** `Ch`: where `x` has a one the digit of `y`, elsewhere that of `z`. */
  lemma ChDigit(x: Word, y: Word, z: Word, i: nat)
    requires i < 32
    ensures Digit(Ch(x, y, z), i) == if Digit(x, i) == 1 then Digit(y, i) else Digit(z, i)
  {
    Pow2Is32();
    XorDigit(And(x, y), And(Not(x), z), 32, i);
    AndDigit(x, y, i);
    AndDigit(Not(x), z, i);
    ComplementDigit(x, 32, i);
    DigitIsBit(x, i);
    DigitIsBit(y, i);
    DigitIsBit(z, i);
  }

  /** `Maj`: the digit that at least two of the three have. */
  lemma MajDigit(x: Word, y: Word, z: Word, i: nat)
    requires i < 32
    ensures Digit(Maj(x, y, z), i) == if Digit(x, i) + Digit(y, i) + Digit(z, i) >= 2 then 1 else 0
  {
    Pow2Is32();
    XorDigit(WordXor(And(x, y), And(x, z)), And(y, z), 32, i);
    XorDigit(And(x, y), And(x, z), 32, i);
    AndDigit(x, y, i);
    AndDigit(x, z, i);
    AndDigit(y, z, i);
    DigitIsBit(x, i);
    DigitIsBit(y, i);
    DigitIsBit(z, i);
  }

  /** A number below 2^32 has no digit past the thirty-second. */
  lemma NoHighDigit(x: Word, i: nat)
    requires i >= 32
    ensures Digit(x, i) == 0
  {
    Pow2Is32();
    HighDigit(x, 32, i);
  }

  /** Every digit of `w` is the digit of `x` that stands `n` places up, around the end. */
  predicate Rotated(x: Word, n: nat, w: Word)
    requires n < 32
  {
    forall i :: 0 <= i < 32 ==> Digit(w, i) == Digit(x, Up(i, n))
  }

  /** Every digit of `w` is the digit of `x` that stands `n` places up, or zero past the end. */
  predicate Shifted(x: Word, n: nat, w: Word) {
    forall i :: 0 <= i < 32 ==> Digit(w, i) == if i + n < 32 then Digit(x, i + n) else 0
  }

  predicate Chosen(x: Word, y: Word, z: Word, w: Word) {
    forall i :: 0 <= i < 32 ==> Digit(w, i) == if Digit(x, i) == 1 then Digit(y, i) else Digit(z, i)
  }

  predicate Majority(x: Word, y: Word, z: Word, w: Word) {
    forall i :: 0 <= i < 32 ==> Digit(w, i) == if Digit(x, i) + Digit(y, i) + Digit(z, i) >= 2 then 1 else 0
  }

  /** Digit by digit the sum, without carry, of `x` rotated by `p`, by `q` and by `r`. */
  predicate RotationsSum(x: Word, p: nat, q: nat, r: nat, w: Word)
    requires p < 32 && q < 32 && r < 32
  {
    forall i :: 0 <= i < 32 ==>
      Digit(w, i) == (Digit(x, Up(i, p)) + Digit(x, Up(i, q)) + Digit(x, Up(i, r))) % 2
  }

  /** The same with `x` shifted by `n` for the third: its digits past the end are zero. */
  predicate ShiftSum(x: Word, p: nat, q: nat, n: nat, w: Word)
    requires p < 32 && q < 32
  {
    forall i :: 0 <= i < 32 ==>
      Digit(w, i) == (Digit(x, Up(i, p)) + Digit(x, Up(i, q)) + if i + n < 32 then Digit(x, i + n) else 0) % 2
  }

  /** `rotate_right` is the one word with those digits. */
  lemma RotrExactly(x: Word, n: nat, w: Word)
    requires n < 32
    ensures w == Rotr(x, n) <==> Rotated(x, n, w)
  {
    forall i | 0 <= i < 32
      ensures Digit(Rotr(x, n), i) == Digit(x, Up(i, n))
    {
      RotrDigit(x, n, i);
    }
    assert Rotated(x, n, Rotr(x, n));
    if Rotated(x, n, w) {
      SameWord(w, Rotr(x, n));
    }
  }

  lemma ShrExactly(x: Word, n: nat, w: Word)
    ensures w == Shr(x, n) <==> Shifted(x, n, w)
  {
    forall i | 0 <= i < 32
      ensures Digit(Shr(x, n), i) == if i + n < 32 then Digit(x, i + n) else 0
    {
      ShrDigit(x, n, i);
      if i + n >= 32 {
        NoHighDigit(x, n + i);
      }
    }
    assert Shifted(x, n, Shr(x, n));
    if Shifted(x, n, w) {
      SameWord(w, Shr(x, n));
    }
  }

  lemma ChExactly(x: Word, y: Word, z: Word, w: Word)
    ensures w == Ch(x, y, z) <==> Chosen(x, y, z, w)
  {
    forall i | 0 <= i < 32
      ensures Digit(Ch(x, y, z), i) == if Digit(x, i) == 1 then Digit(y, i) else Digit(z, i)
    {
      ChDigit(x, y, z, i);
    }
    assert Chosen(x, y, z, Ch(x, y, z));
    if Chosen(x, y, z, w) {
      SameWord(w, Ch(x, y, z));
    }
  }

  lemma MajExactly(x: Word, y: Word, z: Word, w: Word)
    ensures w == Maj(x, y, z) <==> Majority(x, y, z, w)
  {
    forall i | 0 <= i < 32
      ensures Digit(Maj(x, y, z), i) == if Digit(x, i) + Digit(y, i) + Digit(z, i) >= 2 then 1 else 0
    {
      MajDigit(x, y, z, i);
    }
    assert Majority(x, y, z, Maj(x, y, z));
    if Majority(x, y, z, w) {
      SameWord(w, Maj(x, y, z));
    }
  }

  /** The exclusive or of three words adds their digits and drops the carry. */
  lemma ThreeXorDigit(x: Word, y: Word, z: Word, i: nat)
    requires i < 32
    ensures Digit(WordXor(WordXor(x, y), z), i) == (Digit(x, i) + Digit(y, i) + Digit(z, i)) % 2
  {
    Pow2Is32();
    XorDigit(WordXor(x, y), z, 32, i);
    XorDigit(x, y, 32, i);
    DigitIsBit(x, i);
    DigitIsBit(y, i);
    DigitIsBit(z, i);
  }

  lemma ThreeRotated(x: Word, p: nat, q: nat, r: nat, a: Word, b: Word, c: Word)
    requires p < 32 && q < 32 && r < 32 && Rotated(x, p, a) && Rotated(x, q, b) && Rotated(x, r, c)
    ensures RotationsSum(x, p, q, r, WordXor(WordXor(a, b), c))
  {
    forall i | 0 <= i < 32
      ensures Digit(WordXor(WordXor(a, b), c), i) == (Digit(x, Up(i, p)) + Digit(x, Up(i, q)) + Digit(x, Up(i, r))) % 2
    {
      ThreeXorDigit(a, b, c, i);
    }
  }

  lemma TwoRotated(x: Word, p: nat, q: nat, n: nat, a: Word, b: Word, c: Word)
    requires p < 32 && q < 32 && Rotated(x, p, a) && Rotated(x, q, b) && Shifted(x, n, c)
    ensures ShiftSum(x, p, q, n, WordXor(WordXor(a, b), c))
  {
    forall i | 0 <= i < 32
      ensures Digit(WordXor(WordXor(a, b), c), i) ==
              (Digit(x, Up(i, p)) + Digit(x, Up(i, q)) + if i + n < 32 then Digit(x, i + n) else 0) % 2
    {
      ThreeXorDigit(a, b, c, i);
    }
  }

  lemma RotationsExactly(x: Word, p: nat, q: nat, r: nat, w: Word)
    requires p < 32 && q < 32 && r < 32
    ensures w == WordXor(WordXor(Rotr(x, p), Rotr(x, q)), Rotr(x, r)) <==> RotationsSum(x, p, q, r, w)
  {
    RotrExactly(x, p, Rotr(x, p));
    RotrExactly(x, q, Rotr(x, q));
    RotrExactly(x, r, Rotr(x, r));
    var v := WordXor(WordXor(Rotr(x, p), Rotr(x, q)), Rotr(x, r));
    ThreeRotated(x, p, q, r, Rotr(x, p), Rotr(x, q), Rotr(x, r));
    if RotationsSum(x, p, q, r, w) {
      SameWord(w, v);
    }
  }

  lemma ShiftExactly(x: Word, p: nat, q: nat, n: nat, w: Word)
    requires p < 32 && q < 32
    ensures w == WordXor(WordXor(Rotr(x, p), Rotr(x, q)), Shr(x, n)) <==> ShiftSum(x, p, q, n, w)
  {
    RotrExactly(x, p, Rotr(x, p));
    RotrExactly(x, q, Rotr(x, q));
    ShrExactly(x, n, Shr(x, n));
    var v := WordXor(WordXor(Rotr(x, p), Rotr(x, q)), Shr(x, n));
    TwoRotated(x, p, q, n, Rotr(x, p), Rotr(x, q), Shr(x, n));
    if ShiftSum(x, p, q, n, w) {
      SameWord(w, v);
    }
  }

  /** The four sums of section 4.1.2, each the one word with these digits. */
  lemma Sigma0Exactly(x: Word, w: Word)
    ensures w == Sigma0(x) <==> RotationsSum(x, 2, 13, 22, w)
  {
    RotationsExactly(x, 2, 13, 22, w);
  }

  lemma Sigma1Exactly(x: Word, w: Word)
    ensures w == Sigma1(x) <==> RotationsSum(x, 6, 11, 25, w)
  {
    RotationsExactly(x, 6, 11, 25, w);
  }

  lemma Small0Exactly(x: Word, w: Word)
    ensures w == Small0(x) <==> ShiftSum(x, 7, 18, 3, w)
  {
    ShiftExactly(x, 7, 18, 3, w);
  }

  lemma Small1Exactly(x: Word, w: Word)
    ensures w == Small1(x) <==> ShiftSum(x, 17, 19, 10, w)
  {
    ShiftExactly(x, 17, 19, 10, w);
  }

  /** A word is its thirty-two digits. */
  lemma SameWord(v: Word, w: Word)
    requires forall i :: 0 <= i < 32 ==> Digit(v, i) == Digit(w, i)
    ensures v == w
  {
    Pow2Is32();
    DigitsTell(v, w, 32);
  }

  /** The eight words of a hash value, or the eight working variables. */
  datatype Eight = Eight(a: Word, b: Word, c: Word, d: Word, e: Word, f: Word, g: Word, h: Word)

  const H0 := Eight(INITIAL[0], INITIAL[1], INITIAL[2], INITIAL[3], INITIAL[4], INITIAL[5], INITIAL[6], INITIAL[7])

  /** Big-endian bytes of a number, `k` of them. */
  function BigEndian(n: nat, k: nat): (r: seq<Byte>)
    ensures |r| == k
  {
    if k == 0 then [] else BigEndian(n / 256, k - 1) + [n % 256]
  }

  /** The zero bytes after the closing bit: the fewest that leave 8 bytes to the end of a block. */
  function Zeros(length: nat): (k: nat)
    ensures k < 64 && (length + 1 + k) % 64 == 56 && (length + 9 + k) % 64 == 0
  {
    (119 - length % 64) % 64
  }

  /** Section 5.1.1, with the length field taken modulo 2^64 as the source does. */
  function Pad(m: seq<Byte>): (r: seq<Byte>)
    ensures |r| == |m| + 9 + Zeros(|m|) && |r| % 64 == 0
  {
    m + [0x80] + ZeroBytes(Zeros(|m|)) + BigEndian(|m| * 8 % 0x1_0000_0000_0000_0000, 8)
  }

  function ZeroBytes(k: nat): (r: seq<Byte>)
    ensures |r| == k
  {
    seq(k, _ => 0)
  }

  function WordAt(block: seq<Byte>, t: nat): Word
    requires 4 * t + 4 <= |block|
  {
    var b := block[4 * t..4 * t + 4];
    b[0] as int * 0x100_0000 + b[1] as int * 0x1_0000 + b[2] as int * 0x100 + b[3]
  }

  /** The first `n` words of the message schedule, step 1 of section 6.2.2. */
  function Schedule(block: seq<Byte>, n: nat): (w: seq<Word>)
    requires |block| == 64 && n <= 64
    ensures |w| == n
  {
    if n == 0 then []
    else
      var w := Schedule(block, n - 1);
      w + [if n <= 16 then WordAt(block, n - 1) else NextWord(w)]
  }

  /** The word that follows these in a schedule. */
  function NextWord(w: seq<Word>): Word
    requires |w| >= 16
  {
    var t := |w|;
    Plus(Plus(Plus(Small1(w[t - 2]), w[t - 7]), Small0(w[t - 15])), w[t - 16])
  }

  function T1(v: Eight, k: Word, w: Word): Word {
    Plus(Plus(Plus(Plus(v.h, Sigma1(v.e)), Ch(v.e, v.f, v.g)), k), w)
  }

  function T2(v: Eight): Word {
    Plus(Sigma0(v.a), Maj(v.a, v.b, v.c))
  }

  function Round(v: Eight, k: Word, w: Word): Eight {
    Eight(Plus(T1(v, k, w), T2(v)), v.a, v.b, v.c, Plus(v.d, T1(v, k, w)), v.e, v.f, v.g)
  }

  /** The working variables after `t` rounds, step 3. */
  function Rounds(v: Eight, w: seq<Word>, t: nat): Eight
    requires t <= |w| <= 64
  {
    if t == 0 then v else Round(Rounds(v, w, t - 1), K[t - 1], w[t - 1])
  }

  function Sum(x: Eight, y: Eight): Eight {
    Eight(Plus(x.a, y.a), Plus(x.b, y.b), Plus(x.c, y.c), Plus(x.d, y.d), Plus(x.e, y.e), Plus(x.f, y.f), Plus(x.g, y.g),
          Plus(x.h, y.h))
  }

  /** Block `n` of a padded message, section 5.2.1. */
  function Block(padded: seq<Byte>, n: nat): (r: seq<Byte>)
    requires 64 * n + 64 <= |padded|
    ensures |r| == 64
  {
    padded[64 * n..64 * n + 64]
  }

  const ROUNDS: nat := 64

  function Compress(h: Eight, block: seq<Byte>): Eight
    requires |block| == 64
  {
    Sum(h, Rounds(h, Schedule(block, ROUNDS), ROUNDS))
  }

  /** The hash value after the first `n` blocks. */
  function HashAfter(padded: seq<Byte>, n: nat): Eight
    requires 64 * n <= |padded|
  {
    if n == 0 then H0 else Compress(HashAfter(padded, n - 1), Block(padded, n - 1))
  }

  function Digest(v: Eight): (r: seq<Byte>)
    ensures |r| == 32
  {
    BigEndian(v.a, 4) + BigEndian(v.b, 4) + BigEndian(v.c, 4) + BigEndian(v.d, 4)
    + BigEndian(v.e, 4) + BigEndian(v.f, 4) + BigEndian(v.g, 4) + BigEndian(v.h, 4)
  }

  function Hash(m: seq<Byte>): (r: seq<Byte>)
    ensures |r| == 32
  {
    Digest(HashAfter(Pad(m), |Pad(m)| / 64))
  }

  // ---------------------------------------------------------------- the source's loops

  /** The source adds the four terms of the schedule in another order than the standard. */
  lemma SumOrder(p: Word, q: Word, r: Word, s: Word)
    ensures Plus(Plus(Plus(s, r), q), p) == Plus(Plus(Plus(p, q), r), s)
  {
    FourTerms(s, r, q, p);
    FourTerms(p, q, r, s);
  }

  lemma FourTerms(p: Word, q: Word, r: Word, s: Word)
    ensures Plus(Plus(Plus(p, q), r), s) == (p + q + r + s) % 0x1_0000_0000
  {
    PlusCarries(p + q, r);
    PlusCarries(p + q + r, s);
  }

  lemma PlusCarries(total: nat, y: Word)
    ensures (total % 0x1_0000_0000 + y) % 0x1_0000_0000 == (total + y) % 0x1_0000_0000
  {
  }

  /** Words of a schedule stay when more are added. */
  lemma {:induction false} ScheduleStays(block: seq<Byte>, n: nat, m: nat)
    requires |block| == 64 && n <= m <= 64
    ensures Schedule(block, m)[..n] == Schedule(block, n)
  {
    if n < m {
      ScheduleStays(block, n, m - 1);
      assert Schedule(block, m)[..n] == Schedule(block, m - 1)[..n];
    }
  }

  lemma ScheduleWord(block: seq<Byte>, t: nat)
    requires |block| == 64 && t < 64
    ensures Schedule(block, ROUNDS)[t] == if t < 16 then WordAt(block, t) else NextWord(Schedule(block, ROUNDS)[..t])
  {
    ScheduleStays(block, t, ROUNDS);
    ScheduleStays(block, t + 1, ROUNDS);
    assert Schedule(block, ROUNDS)[t] == Schedule(block, t + 1)[t];
  }

  /** One word of the schedule from the sixteen before it. */
  method ExpandWord(block: seq<Byte>, w: array<Word>, t: nat) returns (x: Word)
    requires |block| == 64 && w.Length == 64 && 16 <= t < 64
    requires w[..t] == Schedule(block, ROUNDS)[..t]
    ensures x == Schedule(block, ROUNDS)[t]
  {
    ghost var s := w[..t];
    assert s[t - 15] == w[t - 15] && s[t - 2] == w[t - 2] && s[t - 7] == w[t - 7] && s[t - 16] == w[t - 16];
    ScheduleWord(block, t);
    var s0 := Small0(w[t - 15]);
    var s1 := Small1(w[t - 2]);
    SumOrder(s1, w[t - 7], s0, w[t - 16]);
    x := Plus(Plus(Plus(w[t - 16], s0), w[t - 7]), s1);
  }

  /** One of the first sixteen, read from the block. */
  method FirstWord(block: seq<Byte>, t: nat) returns (x: Word)
    requires |block| == 64 && t < 16
    ensures x == Schedule(block, ROUNDS)[t]
  {
    ScheduleWord(block, t);
    x := WordAt(block, t);
  }

  method Expand(block: seq<Byte>) returns (w: array<Word>)
    requires |block| == 64
    ensures fresh(w) && w[..] == Schedule(block, ROUNDS)
  {
    w := new Word[64](_ => 0);
    ghost var s := Schedule(block, ROUNDS);
    for t := 0 to 16
      invariant w[..t] == s[..t]
    {
      var x := FirstWord(block, t);
      w[t] := x;
    }
    for t := 16 to 64
      invariant w[..t] == s[..t]
    {
      var x := ExpandWord(block, w, t);
      w[t] := x;
    }
    assert w[..64] == w[..] && s[..64] == s;
  }

  /** The sixty-four rounds over one block. */
  method Mix(start: Eight, block: seq<Byte>) returns (v: Eight)
    requires |block| == 64
    ensures v == Rounds(start, Schedule(block, ROUNDS), ROUNDS)
  {
    var w := Expand(block);
    var a, b, c, d, e, f, g, h := start.a, start.b, start.c, start.d, start.e, start.f, start.g, start.h;
    for t := 0 to 64
      invariant w[..] == Schedule(block, ROUNDS)
      invariant Eight(a, b, c, d, e, f, g, h) == Rounds(start, w[..], t)
    {
      assert w[..][t] == w[t];
      var t1 := Plus(Plus(Plus(Plus(h, Sigma1(e)), Ch(e, f, g)), K[t]), w[t]);
      var t2 := Plus(Sigma0(a), Maj(a, b, c));
      h := g;
      g := f;
      f := e;
      e := Plus(d, t1);
      d := c;
      c := b;
      b := a;
      a := Plus(t1, t2);
    }
    v := Eight(a, b, c, d, e, f, g, h);
  }

  method AppendPadding(data: seq<Byte>) returns (msg: seq<Byte>)
    ensures msg == Pad(data)
  {
    var bitlen := |data| * 8 % 0x1_0000_0000_0000_0000;
    msg := data + [0x80];
    ghost var zeros := 0;
    while |msg| % 64 != 56
      invariant zeros <= Zeros(|data|)
      invariant |msg| == |data| + 1 + zeros && msg == data + [0x80] + ZeroBytes(zeros)
      decreases Zeros(|data|) - zeros
    {
      FewestZeros(|data|, zeros);
      assert ZeroBytes(zeros + 1) == ZeroBytes(zeros) + [0];
      msg := msg + [0];
      zeros := zeros + 1;
    }
    FewestZeros(|data|, zeros);
    msg := msg + BigEndian(bitlen, 8);
  }

  /** No shorter run of zeros reaches the last eight bytes of a block. */
  lemma FewestZeros(length: nat, k: nat)
    requires k <= Zeros(length)
    ensures (length + 1 + k) % 64 == 56 <==> k == Zeros(length)
  {
  }

  /** SHA-256 of the source: pad, then fold every block. */
  method Compute(data: seq<Byte>) returns (out: seq<Byte>)
    ensures out == Hash(data)
  {
    var msg := AppendPadding(data);
    var h := H0;
    var blocks := |msg| / 64;
    for n := 0 to blocks
      invariant h == HashAfter(msg, n)
    {
      h := FoldBlock(h, Block(msg, n));
    }
    out := Digest(h);
  }

  method FoldBlock(h: Eight, block: seq<Byte>) returns (r: Eight)
    requires |block| == 64
    ensures r == Compress(h, block)
  {
    var v := Mix(h, block);
    r := Sum(h, v);
  }
}
