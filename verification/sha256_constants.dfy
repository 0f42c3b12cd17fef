/** The constants of SHA-256, sections 4.2.2 and 5.3.3 of FIPS 180-4: fractions of roots of the first primes. */
module Sha256Constants {
  import opened Primes

  type Word = x: int | 0 <= x < 0x1_0000_0000

  function Square(x: nat): nat {
    x * x
  }

  function Cube(x: nat): nat {
    x * x * x
  }

  /** `w` is the first 32 bits of the fraction of the cube root of `p`, whose whole part is `c`. */
  predicate IsCubeRootPart(p: nat, c: nat, w: Word) {
    Cube(c * 0x1_0000_0000 + w) <= p * 0x1_0000_0000_0000_0000_0000_0000 < Cube(c * 0x1_0000_0000 + w + 1)
  }

  predicate IsSquareRootPart(p: nat, c: nat, w: Word) {
    Square(c * 0x1_0000_0000 + w) <= p * 0x1_0000_0000_0000_0000 < Square(c * 0x1_0000_0000 + w + 1)
  }

  ghost predicate CubeRootFraction(p: nat, w: Word) {
    exists c: nat :: IsCubeRootPart(p, c, w)
  }

  ghost predicate AreCubeRootFractions(ps: seq<nat>, ws: seq<Word>) {
    |ps| == |ws| && forall i :: 0 <= i < |ps| ==> CubeRootFraction(ps[i], ws[i])
  }

  lemma Joined(ps: seq<nat>, ws: seq<Word>, qs: seq<nat>, vs: seq<Word>)
    requires AreCubeRootFractions(ps, ws) && AreCubeRootFractions(qs, vs)
    ensures AreCubeRootFractions(ps + qs, ws + vs)
  {
  }

  ghost predicate SquareRootFraction(p: nat, w: Word) {
    exists c: nat :: IsSquareRootPart(p, c, w)
  }

  const K0: seq<Word> := [0x428a2f98, 0x71374491, 0xb5c0fbcf, 0xe9b5dba5, 0x3956c25b, 0x59f111f1, 0x923f82a4, 0xab1c5ed5]

  lemma Chunk0()
    ensures AreCubeRootFractions(P0, K0)
  {
    assert IsCubeRootPart(2, 1, 0x428a2f98);
    assert IsCubeRootPart(3, 1, 0x71374491);
    assert IsCubeRootPart(5, 1, 0xb5c0fbcf);
    assert IsCubeRootPart(7, 1, 0xe9b5dba5);
    assert IsCubeRootPart(11, 2, 0x3956c25b);
    assert IsCubeRootPart(13, 2, 0x59f111f1);
    assert IsCubeRootPart(17, 2, 0x923f82a4);
    assert IsCubeRootPart(19, 2, 0xab1c5ed5);
  }

  const K1: seq<Word> := [0xd807aa98, 0x12835b01, 0x243185be, 0x550c7dc3, 0x72be5d74, 0x80deb1fe, 0x9bdc06a7, 0xc19bf174]

  lemma Chunk1()
    ensures AreCubeRootFractions(P1, K1)
  {
    assert IsCubeRootPart(23, 2, 0xd807aa98);
    assert IsCubeRootPart(29, 3, 0x12835b01);
    assert IsCubeRootPart(31, 3, 0x243185be);
    assert IsCubeRootPart(37, 3, 0x550c7dc3);
    assert IsCubeRootPart(41, 3, 0x72be5d74);
    assert IsCubeRootPart(43, 3, 0x80deb1fe);
    assert IsCubeRootPart(47, 3, 0x9bdc06a7);
    assert IsCubeRootPart(53, 3, 0xc19bf174);
  }

  const K2: seq<Word> := [0xe49b69c1, 0xefbe4786, 0x0fc19dc6, 0x240ca1cc, 0x2de92c6f, 0x4a7484aa, 0x5cb0a9dc, 0x76f988da]

  lemma Chunk2()
    ensures AreCubeRootFractions(P2, K2)
  {
    assert IsCubeRootPart(59, 3, 0xe49b69c1);
    assert IsCubeRootPart(61, 3, 0xefbe4786);
    assert IsCubeRootPart(67, 4, 0x0fc19dc6);
    assert IsCubeRootPart(71, 4, 0x240ca1cc);
    assert IsCubeRootPart(73, 4, 0x2de92c6f);
    assert IsCubeRootPart(79, 4, 0x4a7484aa);
    assert IsCubeRootPart(83, 4, 0x5cb0a9dc);
    assert IsCubeRootPart(89, 4, 0x76f988da);
  }

  const K3: seq<Word> := [0x983e5152, 0xa831c66d, 0xb00327c8, 0xbf597fc7, 0xc6e00bf3, 0xd5a79147, 0x06ca6351, 0x14292967]

  lemma Chunk3()
    ensures AreCubeRootFractions(P3, K3)
  {
    assert IsCubeRootPart(97, 4, 0x983e5152);
    assert IsCubeRootPart(101, 4, 0xa831c66d);
    assert IsCubeRootPart(103, 4, 0xb00327c8);
    assert IsCubeRootPart(107, 4, 0xbf597fc7);
    assert IsCubeRootPart(109, 4, 0xc6e00bf3);
    assert IsCubeRootPart(113, 4, 0xd5a79147);
    assert IsCubeRootPart(127, 5, 0x06ca6351);
    assert IsCubeRootPart(131, 5, 0x14292967);
  }

  const K4: seq<Word> := [0x27b70a85, 0x2e1b2138, 0x4d2c6dfc, 0x53380d13, 0x650a7354, 0x766a0abb, 0x81c2c92e, 0x92722c85]

  lemma Chunk4()
    ensures AreCubeRootFractions(P4, K4)
  {
    assert IsCubeRootPart(137, 5, 0x27b70a85);
    assert IsCubeRootPart(139, 5, 0x2e1b2138);
    assert IsCubeRootPart(149, 5, 0x4d2c6dfc);
    assert IsCubeRootPart(151, 5, 0x53380d13);
    assert IsCubeRootPart(157, 5, 0x650a7354);
    assert IsCubeRootPart(163, 5, 0x766a0abb);
    assert IsCubeRootPart(167, 5, 0x81c2c92e);
    assert IsCubeRootPart(173, 5, 0x92722c85);
  }

  const K5: seq<Word> := [0xa2bfe8a1, 0xa81a664b, 0xc24b8b70, 0xc76c51a3, 0xd192e819, 0xd6990624, 0xf40e3585, 0x106aa070]

  lemma Chunk5()
    ensures AreCubeRootFractions(P5, K5)
  {
    assert IsCubeRootPart(179, 5, 0xa2bfe8a1);
    assert IsCubeRootPart(181, 5, 0xa81a664b);
    assert IsCubeRootPart(191, 5, 0xc24b8b70);
    assert IsCubeRootPart(193, 5, 0xc76c51a3);
    assert IsCubeRootPart(197, 5, 0xd192e819);
    assert IsCubeRootPart(199, 5, 0xd6990624);
    assert IsCubeRootPart(211, 5, 0xf40e3585);
    assert IsCubeRootPart(223, 6, 0x106aa070);
  }

  const K6: seq<Word> := [0x19a4c116, 0x1e376c08, 0x2748774c, 0x34b0bcb5, 0x391c0cb3, 0x4ed8aa4a, 0x5b9cca4f, 0x682e6ff3]

  lemma Chunk6()
    ensures AreCubeRootFractions(P6, K6)
  {
    assert IsCubeRootPart(227, 6, 0x19a4c116);
    assert IsCubeRootPart(229, 6, 0x1e376c08);
    assert IsCubeRootPart(233, 6, 0x2748774c);
    assert IsCubeRootPart(239, 6, 0x34b0bcb5);
    assert IsCubeRootPart(241, 6, 0x391c0cb3);
    assert IsCubeRootPart(251, 6, 0x4ed8aa4a);
    assert IsCubeRootPart(257, 6, 0x5b9cca4f);
    assert IsCubeRootPart(263, 6, 0x682e6ff3);
  }

  const K7: seq<Word> := [0x748f82ee, 0x78a5636f, 0x84c87814, 0x8cc70208, 0x90befffa, 0xa4506ceb, 0xbef9a3f7, 0xc67178f2]

  lemma Chunk7()
    ensures AreCubeRootFractions(P7, K7)
  {
    assert IsCubeRootPart(269, 6, 0x748f82ee);
    assert IsCubeRootPart(271, 6, 0x78a5636f);
    assert IsCubeRootPart(277, 6, 0x84c87814);
    assert IsCubeRootPart(281, 6, 0x8cc70208);
    assert IsCubeRootPart(283, 6, 0x90befffa);
    assert IsCubeRootPart(293, 6, 0xa4506ceb);
    assert IsCubeRootPart(307, 6, 0xbef9a3f7);
    assert IsCubeRootPart(311, 6, 0xc67178f2);
  }

  const K: seq<Word> := K0 + K1 + K2 + K3 + K4 + K5 + K6 + K7

  /** The round constants are the fractions of the cube roots of the first sixty-four primes, in order. */
  lemma RoundConstants()
    ensures |K| == 64 && AreCubeRootFractions(PRIMES, K) && ListsPrimes(PRIMES, 2, 311)
  {
    PrimesListed();
    Chunk0();
    Chunk1();
    Chunk2();
    Chunk3();
    Chunk4();
    Chunk5();
    Chunk6();
    Chunk7();
    Joined(P0, K0, P1, K1);
    Joined(P0 + P1, K0 + K1, P2, K2);
    Joined(P0 + P1 + P2, K0 + K1 + K2, P3, K3);
    Joined(P0 + P1 + P2 + P3, K0 + K1 + K2 + K3, P4, K4);
    Joined(P0 + P1 + P2 + P3 + P4, K0 + K1 + K2 + K3 + K4, P5, K5);
    Joined(P0 + P1 + P2 + P3 + P4 + P5, K0 + K1 + K2 + K3 + K4 + K5, P6, K6);
    Joined(P0 + P1 + P2 + P3 + P4 + P5 + P6, K0 + K1 + K2 + K3 + K4 + K5 + K6, P7, K7);
  }

  const INITIAL: seq<Word> := [
    0x6a09e667, 0xbb67ae85, 0x3c6ef372, 0xa54ff53a, 0x510e527f, 0x9b05688c, 0x1f83d9ab, 0x5be0cd19
  ]

  /** Each word of the initial hash value is the fraction of the square root of its prime. */
  lemma InitialWords(t: nat)
    requires t < 8
    ensures SquareRootFraction(P0[t], INITIAL[t]) && ListsPrimes(P0, 2, 22)
  {
    Primes0();
    assert IsSquareRootPart(2, 1, 0x6a09e667);
    assert IsSquareRootPart(3, 1, 0xbb67ae85);
    assert IsSquareRootPart(5, 2, 0x3c6ef372);
    assert IsSquareRootPart(7, 2, 0xa54ff53a);
    assert IsSquareRootPart(11, 3, 0x510e527f);
    assert IsSquareRootPart(13, 3, 0x9b05688c);
    assert IsSquareRootPart(17, 4, 0x1f83d9ab);
    assert IsSquareRootPart(19, 4, 0x5be0cd19);
  }
}
