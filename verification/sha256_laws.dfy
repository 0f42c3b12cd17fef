/**
 What the parts of SHA-256 are, told without the functions that compute them: the padding by what
 stands in it, the schedule read backwards, the rounds as two running sequences, the hash value by
 its words, and the hash by the blocks of the padded message.
 */
module Sha256Laws {
  import opened Bytes
  import opened Bits
  import opened Primes
  import opened Sha256Constants
  import opened Sha256

  const MODULUS: nat := 0x1_0000_0000

  // ---------------------------------------------------------------- words and bytes

  /** The big-endian value of some bytes. */
  function Value(bytes: seq<Byte>): nat {
    if bytes == [] then 0 else 256 * Value(bytes[..|bytes| - 1]) + bytes[|bytes| - 1]
  }

  function Pow256(k: nat): nat {
    if k == 0 then 1 else 256 * Pow256(k - 1)
  }

  lemma {:induction false} BigEndianReads(n: nat, k: nat)
    requires n < Pow256(k)
    ensures Value(BigEndian(n, k)) == n
  {
    if k > 0 {
      BigEndianReads(n / 256, k - 1);
      var bytes := BigEndian(n, k);
      assert bytes[..k - 1] == BigEndian(n / 256, k - 1);
    }
  }

  lemma {:induction false} ValueWrites(bytes: seq<Byte>)
    ensures BigEndian(Value(bytes), |bytes|) == bytes
  {
    if bytes != [] {
      var n := |bytes| - 1;
      ValueWrites(bytes[..n]);
      assert bytes == bytes[..n] + [bytes[n]];
      LastDigit(Value(bytes[..n]), bytes[n]);
    }
  }

  lemma LastDigit(q: nat, r: Byte)
    ensures (256 * q + r) / 256 == q && (256 * q + r) % 256 == r
  {
  }

  lemma ValueOfFour(b: seq<Byte>)
    requires |b| == 4
    ensures Value(b) == b[0] as int * 0x100_0000 + b[1] as int * 0x1_0000 + b[2] as int * 0x100 + b[3]
  {
    assert b[..3][..2] == b[..2] && b[..2][..1] == b[..1] && b[..1][..0] == [];
    assert Value(b[..1]) == b[0] as int;
    assert Value(b[..2]) == 256 * Value(b[..1]) + b[1];
    assert Value(b[..3]) == 256 * Value(b[..2]) + b[2];
  }

  /** The words of a block are its bytes, four at a time. */
  lemma WordReads(block: seq<Byte>, t: nat)
    requires 4 * t + 4 <= |block|
    ensures BigEndian(WordAt(block, t), 4) == block[4 * t..4 * t + 4]
  {
    ValueOfFour(block[4 * t..4 * t + 4]);
    ValueWrites(block[4 * t..4 * t + 4]);
  }

  lemma WordIs(bytes: seq<Byte>, t: nat, w: Word)
    requires 4 * t + 4 <= |bytes| && bytes[4 * t..4 * t + 4] == BigEndian(w, 4)
    ensures WordAt(bytes, t) == w
  {
    ValueOfFour(bytes[4 * t..4 * t + 4]);
    assert Pow256(4) == 0x1_0000_0000;
    BigEndianReads(w, 4);
  }

  /** The eight words of a hash value, by number. */
  function Nth(v: Eight, t: nat): Word
    requires t < 8
  {
    match t
    case 0 => v.a
    case 1 => v.b
    case 2 => v.c
    case 3 => v.d
    case 4 => v.e
    case 5 => v.f
    case 6 => v.g
    case 7 => v.h
  }

  lemma EightParts(a: seq<Byte>, b: seq<Byte>, c: seq<Byte>, d: seq<Byte>, e: seq<Byte>, f: seq<Byte>, g: seq<Byte>, h: seq<Byte>)
    requires |a| == |b| == |c| == |d| == |e| == |f| == |g| == |h| == 4
    ensures var s := a + b + c + d + e + f + g + h;
            && s[0..4] == a && s[4..8] == b && s[8..12] == c && s[12..16] == d
            && s[16..20] == e && s[20..24] == f && s[24..28] == g && s[28..32] == h
  {
  }

  /** The digest is the eight words in order, each the most significant byte first. */
  lemma DigestReads(v: Eight, t: nat)
    requires t < 8
    ensures WordAt(Digest(v), t) == Nth(v, t)
  {
    EightParts(BigEndian(v.a, 4), BigEndian(v.b, 4), BigEndian(v.c, 4), BigEndian(v.d, 4),
               BigEndian(v.e, 4), BigEndian(v.f, 4), BigEndian(v.g, 4), BigEndian(v.h, 4));
    WordIs(Digest(v), t, Nth(v, t));
  }

  /** Hashing starts from the fractions of the square roots of the first eight primes, in order. */
  lemma StartsFromRoots(padded: seq<Byte>, t: nat)
    requires t < 8
    ensures SquareRootFraction(P0[t], WordAt(Digest(HashAfter(padded, 0)), t)) && ListsPrimes(P0, 2, 22)
  {
    InitialWords(t);
    FirstValue(t);
    DigestReads(H0, t);
  }

  lemma FirstValue(t: nat)
    requires t < 8
    ensures Nth(H0, t) == INITIAL[t]
  {
  }

  // ---------------------------------------------------------------- padding

  predicate AllZero(bytes: seq<Byte>) {
    forall i :: 0 <= i < |bytes| ==> bytes[i] == 0
  }

  /**
   Section 5.1.1: the message, a one and zeros, the length in bits as a number of 64 digits, whole
   blocks, and as few zeros as that allows.
   */
  predicate IsPadded(m: seq<Byte>, p: seq<Byte>) {
    && |p| % 64 == 0 && |m| + 9 <= |p| < |m| + 73
    && p[..|m|] == m && p[|m|] == 0x80 && AllZero(p[|m| + 1..|p| - 8])
    && Value(p[|p| - 8..]) == |m| * 8 % 0x1_0000_0000_0000_0000
  }

  lemma FitsEight(n: nat)
    requires n < 0x1_0000_0000_0000_0000
    ensures n < Pow256(8)
  {
    assert Pow256(4) == 0x1_0000_0000;
  }

  lemma FourParts(m: seq<Byte>, z: seq<Byte>, e: seq<Byte>)
    requires |e| == 8
    ensures var p := m + [0x80] + z + e;
            p[..|m|] == m && p[|m|] == 0x80 && p[|m| + 1..|p| - 8] == z && p[|p| - 8..] == e
  {
  }

  lemma CutInFour(m: seq<Byte>, p: seq<Byte>)
    requires |m| + 9 <= |p| && p[..|m|] == m && p[|m|] == 0x80
    ensures p == m + [0x80] + p[|m| + 1..|p| - 8] + p[|p| - 8..]
  {
  }

  /** The padding of the source is that, for every message. */
  lemma PadExactly(m: seq<Byte>, p: seq<Byte>)
    ensures p == Pad(m) <==> IsPadded(m, p)
  {
    var bits := |m| * 8 % 0x1_0000_0000_0000_0000;
    var zeros := ZeroBytes(Zeros(|m|));
    FitsEight(bits);
    if p == Pad(m) {
      BigEndianReads(bits, 8);
      FourParts(m, zeros, BigEndian(bits, 8));
    }
    if IsPadded(m, p) {
      CutInFour(m, p);
      SameLength(|m|, |p|);
      assert p[|m| + 1..|p| - 8] == zeros;
      ValueWrites(p[|p| - 8..]);
    }
  }

  lemma SameLength(length: nat, padded: nat)
    requires padded % 64 == 0 && length + 9 <= padded < length + 73
    ensures padded == length + 9 + Zeros(length)
  {
  }

  /** Below 2^61 bytes no two messages pad to the same blocks. */
  lemma PadInjective(m: seq<Byte>, n: seq<Byte>)
    requires |m| < 0x2000_0000_0000_0000 && |n| < 0x2000_0000_0000_0000
    requires Pad(m) == Pad(n)
    ensures m == n
  {
    PadExactly(m, Pad(m));
    PadExactly(n, Pad(n));
    SmallBits(|m|);
    SmallBits(|n|);
  }

  lemma SmallBits(n: nat)
    requires n < 0x2000_0000_0000_0000
    ensures n * 8 % 0x1_0000_0000_0000_0000 == 8 * n
  {
  }

  // ---------------------------------------------------------------- the message schedule

  /** `x` with four terms taken modulo 2^32, the last three moved to the other side. */
  lemma Subtracted(a: Word, b: Word, c: Word, d: Word)
    ensures d == (Plus(Plus(Plus(a, b), c), d) - a - b - c) % MODULUS
  {
    FourTerms(a, b, c, d);
    var sum := a + b + c + d;
    assert sum == sum / MODULUS * MODULUS + sum % MODULUS;
    Wraps(d, -(sum / MODULUS));
  }

  /** Each word of the schedule is known from the sixteen after it. */
  lemma ScheduleBackward(block: seq<Byte>, t: nat)
    requires |block| == 64 && t < 48
    ensures var w := Schedule(block, ROUNDS); w[t] == (w[t + 16] - Small1(w[t + 14]) - w[t + 9] - Small0(w[t + 1])) % MODULUS
  {
    var w := Schedule(block, ROUNDS);
    ScheduleWord(block, t + 16);
    assert w[..t + 16][t + 14] == w[t + 14] && w[..t + 16][t + 9] == w[t + 9] && w[..t + 16][t + 1] == w[t + 1] && w[..t + 16][t] == w[t];
    Subtracted(Small1(w[t + 14]), w[t + 9], Small0(w[t + 1]), w[t]);
  }

  predicate SameWindow(a: seq<Byte>, b: seq<Byte>, t: nat)
    requires |a| == |b| == 64 && t <= 48
  {
    forall i :: t <= i < t + 16 ==> Schedule(a, ROUNDS)[i] == Schedule(b, ROUNDS)[i]
  }

  lemma WindowMoves(a: seq<Byte>, b: seq<Byte>, t: nat)
    requires |a| == |b| == 64 && 0 < t <= 48 && SameWindow(a, b, t)
    ensures SameWindow(a, b, t - 1)
  {
    ScheduleBackward(a, t - 1);
    ScheduleBackward(b, t - 1);
  }

  lemma FirstWindowTells(a: seq<Byte>, b: seq<Byte>)
    requires |a| == |b| == 64 && forall t :: 0 <= t < 16 ==> WordAt(a, t) == WordAt(b, t)
    ensures a == b
  {
    forall i | 0 <= i < 64
      ensures a[i] == b[i]
    {
      var t := i / 4;
      WordReads(a, t);
      WordReads(b, t);
      assert a[4 * t..4 * t + 4][i % 4] == a[i] && b[4 * t..4 * t + 4][i % 4] == b[i];
    }
  }

  /** Any sixteen consecutive words of the schedule tell the whole block. */
  lemma {:induction false} WindowTells(a: seq<Byte>, b: seq<Byte>, t: nat)
    requires |a| == |b| == 64 && t <= 48 && SameWindow(a, b, t)
    ensures a == b
  {
    if t > 0 {
      WindowMoves(a, b, t);
      WindowTells(a, b, t - 1);
    } else {
      forall i | 0 <= i < 16
        ensures WordAt(a, i) == WordAt(b, i)
      {
        ScheduleWord(a, i);
        ScheduleWord(b, i);
        assert Schedule(a, ROUNDS)[i] == Schedule(b, ROUNDS)[i];
      }
      FirstWindowTells(a, b);
    }
  }

  // ---------------------------------------------------------------- the rounds

  /**
   Of the eight variables six are only moved: `b`, `c` and `d` are what `a` was one, two and three
   rounds before, and `f`, `g` and `h` the same of `e`. So the rounds are two running sequences, the
   values of `a` in `left` and those of `e` in `right`, each after the four of the chaining value.
   */
  predicate Follows(v: Eight, w: seq<Word>, left: seq<Word>, right: seq<Word>) {
    && |w| <= 64 && |left| == |right| == |w| + 4
    && left[..4] == [v.d, v.c, v.b, v.a] && right[..4] == [v.h, v.g, v.f, v.e]
    && forall t :: 0 <= t < |w| ==> FollowsAt(w[t], left, right, t)
  }

  predicate FollowsAt(x: Word, left: seq<Word>, right: seq<Word>, t: nat)
    requires t < 64 && t + 4 < |left| == |right|
  {
    NewPair(left[t + 3], left[t + 2], left[t + 1], left[t], right[t + 3], right[t + 2], right[t + 1], right[t], K[t], x,
            right[t + 4], left[t + 4])
  }

  /** The new `e` and the new `a` of a round, each one sum taken modulo 2^32. */
  predicate NewPair(a: Word, b: Word, c: Word, d: Word, e: Word, f: Word, g: Word, h: Word, k: Word, w: Word, newE: Word, newA: Word) {
    && newE == (d + h + Sigma1(e) + Ch(e, f, g) + k + w) % MODULUS
    && newA == (newE - d + Sigma0(a) + Maj(a, b, c)) % MODULUS
  }

  lemma NewE(d: Word, h: Word, s: Word, c: Word, k: Word, w: Word)
    ensures Plus(d, Plus(Plus(Plus(Plus(h, s), c), k), w)) == (d + h + s + c + k + w) % MODULUS
  {
    FourTerms(h, s, c, k);
    PlusCarries(h + s + c + k, w);
    PlusCarries(h + s + c + k + w, d);
  }

  lemma NewA(d: Word, t1: Word, s: Word, m: Word)
    ensures Plus(t1, Plus(s, m)) == (Plus(d, t1) - d + s + m) % MODULUS
  {
    assert s + m == (s + m) / MODULUS * MODULUS + Plus(s, m);
    assert d + t1 == (d + t1) / MODULUS * MODULUS + Plus(d, t1);
    Wraps(t1 + Plus(s, m), (s + m) / MODULUS - (d + t1) / MODULUS);
  }

  lemma Wraps(x: nat, k: int)
    ensures (x + k * MODULUS) % MODULUS == x % MODULUS
  {
  }

  /** One round makes a new `e` and a new `a`, and moves the other six. */
  lemma RoundIs(a: Word, b: Word, c: Word, d: Word, e: Word, f: Word, g: Word, h: Word, k: Word, w: Word, newE: Word, newA: Word)
    requires NewPair(a, b, c, d, e, f, g, h, k, w, newE, newA)
    ensures Round(Eight(a, b, c, d, e, f, g, h), k, w) == Eight(newA, a, b, c, newE, e, f, g)
  {
    var s1, ch, s0, maj := Sigma1(e), Ch(e, f, g), Sigma0(a), Maj(a, b, c);
    NewE(d, h, s1, ch, k, w);
    NewA(d, Plus(Plus(Plus(Plus(h, s1), ch), k), w), s0, maj);
  }

  /** Four neighbours of each sequence. */
  function Neighbours(left: seq<Word>, right: seq<Word>, t: nat): Eight
    requires t + 4 <= |left| == |right|
  {
    Eight(left[t + 3], left[t + 2], left[t + 1], left[t], right[t + 3], right[t + 2], right[t + 1], right[t])
  }

  lemma NeighboursMove(x: Word, left: seq<Word>, right: seq<Word>, t: nat)
    requires t < 64 && t + 4 < |left| == |right| && FollowsAt(x, left, right, t)
    ensures Round(Eight(left[t + 3], left[t + 2], left[t + 1], left[t], right[t + 3], right[t + 2], right[t + 1], right[t]), K[t], x)
            == Eight(left[t + 4], left[t + 3], left[t + 2], left[t + 1], right[t + 4], right[t + 3], right[t + 2], right[t + 1])
  {
    RoundIs(left[t + 3], left[t + 2], left[t + 1], left[t], right[t + 3], right[t + 2], right[t + 1], right[t],
            K[t], x, right[t + 4], left[t + 4]);
  }

  lemma FirstNeighbours(v: Eight, left: seq<Word>, right: seq<Word>)
    requires 4 <= |left| == |right| && left[..4] == [v.d, v.c, v.b, v.a] && right[..4] == [v.h, v.g, v.f, v.e]
    ensures Neighbours(left, right, 0) == v
  {
    assert left[..4][0] == v.d && left[..4][1] == v.c && left[..4][2] == v.b && left[..4][3] == v.a;
    assert right[..4][0] == v.h && right[..4][1] == v.g && right[..4][2] == v.f && right[..4][3] == v.e;
  }

  lemma RoundsNext(v: Eight, w: seq<Word>, t: nat, before: Eight, after: Eight)
    requires t < |w| <= 64 && Rounds(v, w, t) == before && Round(before, K[t], w[t]) == after
    ensures Rounds(v, w, t + 1) == after
  {
  }

  /** The eight variables after `t` rounds are four neighbours of each sequence. */
  lemma {:induction false} RoundsAre(v: Eight, w: seq<Word>, left: seq<Word>, right: seq<Word>, t: nat)
    requires Follows(v, w, left, right) && t <= |w|
    ensures Rounds(v, w, t) == Neighbours(left, right, t)
  {
    hide Round, FollowsAt;
    if t > 0 {
      RoundsAre(v, w, left, right, t - 1);
      assert FollowsAt(w[t - 1], left, right, t - 1);
      NeighboursMove(w[t - 1], left, right, t - 1);
      RoundsNext(v, w, t - 1, Neighbours(left, right, t - 1), Neighbours(left, right, t));
    } else {
      FirstNeighbours(v, left, right);
    }
  }

  /** The chaining value with the last four values of each sequence added, the last of them first. */
  function Added(v: Eight, left: seq<Word>, right: seq<Word>): Eight
    requires |left| == |right| == 68
  {
    Eight((v.a + left[67]) % MODULUS, (v.b + left[66]) % MODULUS, (v.c + left[65]) % MODULUS, (v.d + left[64]) % MODULUS,
          (v.e + right[67]) % MODULUS, (v.f + right[66]) % MODULUS, (v.g + right[65]) % MODULUS, (v.h + right[64]) % MODULUS)
  }

  predicate Stage(v: Eight, block: seq<Byte>, left: seq<Word>, right: seq<Word>, next: Eight)
    requires |block| == 64
  {
    |left| == |right| == 68 && Follows(v, Schedule(block, ROUNDS), left, right) && next == Added(v, left, right)
  }

  lemma SumIs(v: Eight, left: seq<Word>, right: seq<Word>)
    requires |left| == |right| == 68
    ensures Sum(v, Neighbours(left, right, 64)) == Added(v, left, right)
  {
    var last := Neighbours(left, right, 64);
    assert last.a == left[67] && last.b == left[66] && last.c == left[65] && last.d == left[64];
    assert last.e == right[67] && last.f == right[66] && last.g == right[65] && last.h == right[64];
  }

  lemma CompressIs(v: Eight, block: seq<Byte>, last: Eight)
    requires |block| == 64 && Rounds(v, Schedule(block, ROUNDS), ROUNDS) == last
    ensures Compress(v, block) == Sum(v, last)
  {
  }

  lemma StageIs(v: Eight, block: seq<Byte>, left: seq<Word>, right: seq<Word>, next: Eight)
    requires |block| == 64 && Stage(v, block, left, right, next)
    ensures Compress(v, block) == next
  {
    RoundsAre(v, Schedule(block, ROUNDS), left, right, ROUNDS);
    CompressIs(v, block, Neighbours(left, right, ROUNDS));
    SumIs(v, left, right);
  }

  /** There is a next pair, and adding it keeps the pairs before. */
  lemma NextPair(x: Word, l: seq<Word>, r: seq<Word>, t: nat) returns (a: Word, e: Word)
    requires t < 64 && |l| == |r| == t + 4
    ensures FollowsAt(x, l + [a], r + [e], t)
  {
    e := (l[t] + r[t] + Sigma1(r[t + 3]) + Ch(r[t + 3], r[t + 2], r[t + 1]) + K[t] + x) % MODULUS;
    a := (e - l[t] + Sigma0(l[t + 3]) + Maj(l[t + 3], l[t + 2], l[t + 1])) % MODULUS;
  }

  lemma PairStays(x: Word, l: seq<Word>, r: seq<Word>, a: Word, e: Word, t: nat)
    requires t < 64 && t + 4 < |l| == |r| && FollowsAt(x, l, r, t)
    ensures FollowsAt(x, l + [a], r + [e], t)
  {
    var left, right := l + [a], r + [e];
    assert left[t] == l[t] && left[t + 1] == l[t + 1] && left[t + 2] == l[t + 2] && left[t + 3] == l[t + 3] && left[t + 4] == l[t + 4];
    assert right[t] == r[t] && right[t + 1] == r[t + 1] && right[t + 2] == r[t + 2] && right[t + 3] == r[t + 3] && right[t + 4] == r[t + 4];
  }

  /** The sequences are there for every chaining value and every words. */
  lemma {:induction false} RunningValues(v: Eight, w: seq<Word>) returns (left: seq<Word>, right: seq<Word>)
    requires |w| <= 64
    ensures Follows(v, w, left, right)
  {
    hide FollowsAt;
    if w == [] {
      left, right := [v.d, v.c, v.b, v.a], [v.h, v.g, v.f, v.e];
    } else {
      var n := |w| - 1;
      var l, r := RunningValues(v, w[..n]);
      var a, e := NextPair(w[n], l, r, n);
      left, right := l + [a], r + [e];
      assert left[..4] == l[..4] && right[..4] == r[..4];
      forall t | 0 <= t < |w|
        ensures FollowsAt(w[t], left, right, t)
      {
        if t < n {
          assert w[..n][t] == w[t];
          PairStays(w[t], l, r, a, e, t);
        }
      }
    }
  }

  // ---------------------------------------------------------------- the whole message

  ghost predicate Compresses(v: Eight, block: seq<Byte>, next: Eight)
    requires |block| == 64
  {
    exists left, right :: Stage(v, block, left, right, next)
  }

  lemma CompressExactly(v: Eight, block: seq<Byte>, next: Eight)
    requires |block| == 64
    ensures Compress(v, block) == next <==> Compresses(v, block, next)
  {
    var left, right := RunningValues(v, Schedule(block, ROUNDS));
    var found := Added(v, left, right);
    StageIs(v, block, left, right, found);
    assert Stage(v, block, left, right, found);
    if Compresses(v, block, next) {
      var l, r :| Stage(v, block, l, r, next);
      StageIs(v, block, l, r, next);
    }
  }

  /** The hash value after one more block is the one that this block and the value before it give. */
  lemma NextHash(padded: seq<Byte>, n: nat, next: Eight)
    requires 64 * n + 64 <= |padded|
    ensures HashAfter(padded, n + 1) == next <==> Compresses(HashAfter(padded, n), padded[64 * n..64 * n + 64], next)
  {
    hide Compress;
    CompressExactly(HashAfter(padded, n), Block(padded, n), next);
  }

  /** The hash of a message is the digest of the value after all blocks of its padded text. */
  lemma HashOfPadded(m: seq<Byte>, p: seq<Byte>, blocks: nat)
    requires IsPadded(m, p) && |p| == 64 * blocks
    ensures Hash(m) == Digest(HashAfter(p, blocks))
  {
    hide HashAfter;
    PadExactly(m, p);
  }
}
