/** The first sixty-four primes, eight at a time, from which SHA-256 takes its constants. */
module Primes {
  import opened Arithmetic

  const P0: seq<nat> := [2, 3, 5, 7, 11, 13, 17, 19]
  const P1: seq<nat> := [23, 29, 31, 37, 41, 43, 47, 53]
  const P2: seq<nat> := [59, 61, 67, 71, 73, 79, 83, 89]
  const P3: seq<nat> := [97, 101, 103, 107, 109, 113, 127, 131]
  const P4: seq<nat> := [137, 139, 149, 151, 157, 163, 167, 173]
  const P5: seq<nat> := [179, 181, 191, 193, 197, 199, 211, 223]
  const P6: seq<nat> := [227, 229, 233, 239, 241, 251, 257, 263]
  const P7: seq<nat> := [269, 271, 277, 281, 283, 293, 307, 311]

  const PRIMES: seq<nat> := P0 + P1 + P2 + P3 + P4 + P5 + P6 + P7

  predicate IsPrime(n: nat) {
    n >= 2 && forall d :: 2 <= d < n ==> n % d != 0
  }

  /** No prime below 18 divides `n`, unless it is `n`. */
  predicate NoSmallDivisor(n: nat) {
    && (n == 2 || n % 2 != 0) && (n == 3 || n % 3 != 0) && (n == 5 || n % 5 != 0) && (n == 7 || n % 7 != 0)
    && (n == 11 || n % 11 != 0) && (n == 13 || n % 13 != 0) && (n == 17 || n % 17 != 0)
  }

  lemma SmallDivisor(n: nat, d: nat)
    requires 2 <= d <= 17 && d < n && n % d == 0
    ensures !NoSmallDivisor(n)
  {
    if d % 2 == 0 {
      DivisorPart(n, 2, d / 2);
    } else if d == 9 || d == 15 {
      DivisorPart(n, 3, d / 3);
    }
  }

  /** Below 18 * 18 a number with a divisor has one below 18. */
  lemma PrimeExactly(n: nat)
    requires 2 <= n < 324
    ensures IsPrime(n) <==> NoSmallDivisor(n)
  {
    if NoSmallDivisor(n) {
      forall d | 2 <= d < n
        ensures n % d != 0
      {
        if n % d == 0 {
          Divided(n, d);
        }
      }
    }
  }

  lemma Divided(n: nat, d: nat)
    requires 2 <= d < n < 324 && n % d == 0
    ensures !NoSmallDivisor(n)
  {
    var m := if d <= 17 then d else n / d;
    if d > 17 {
      OtherDivisor(n, d, m);
    }
    SmallDivisor(n, m);
  }

  lemma OtherDivisor(n: nat, d: nat, q: nat)
    requires 18 <= d < n < 324 && n % d == 0 && q == n / d
    ensures 2 <= q <= 17 && n % q == 0
  {
    Division(n, d);
    assert n == q * d;
    if q >= 18 {
      MulMonotone(18, q, d);
    }
    if q <= 1 {
      MulMonotone(q, 1, d);
    }
    Multiple(q, d);
  }

  predicate Ascending(ps: seq<nat>, lo: nat, hi: nat) {
    && (forall i :: 0 <= i < |ps| ==> lo <= ps[i] <= hi)
    && forall i, j :: 0 <= i < j < |ps| ==> ps[i] < ps[j]
  }

  ghost predicate ListsPrimes(ps: seq<nat>, lo: nat, hi: nat) {
    Ascending(ps, lo, hi) && forall n: nat :: lo <= n <= hi ==> (n in ps <==> IsPrime(n))
  }

  lemma Sieved0Part0(n: nat)
    requires 2 <= n < 12
    ensures n in P0 <==> NoSmallDivisor(n)
  {
  }

  lemma Sieved0Part1(n: nat)
    requires 12 <= n < 23
    ensures n in P0 <==> NoSmallDivisor(n)
  {
  }

  lemma Primes0()
    ensures ListsPrimes(P0, 2, 22)
  {
    forall n: nat | 2 <= n <= 22
      ensures n in P0 <==> IsPrime(n)
    {
      PrimeExactly(n);
      if n < 12 {
        Sieved0Part0(n);
      } else {
        Sieved0Part1(n);
      }
    }
  }

  lemma Sieved1Part0(n: nat)
    requires 23 <= n < 32
    ensures n in P1 <==> NoSmallDivisor(n)
  {
  }

  lemma Sieved1Part1(n: nat)
    requires 32 <= n < 41
    ensures n in P1 <==> NoSmallDivisor(n)
  {
  }

  lemma Sieved1Part2(n: nat)
    requires 41 <= n < 50
    ensures n in P1 <==> NoSmallDivisor(n)
  {
  }

  lemma Sieved1Part3(n: nat)
    requires 50 <= n < 59
    ensures n in P1 <==> NoSmallDivisor(n)
  {
  }

  lemma Primes1()
    ensures ListsPrimes(P1, 23, 58)
  {
    forall n: nat | 23 <= n <= 58
      ensures n in P1 <==> IsPrime(n)
    {
      PrimeExactly(n);
      if n < 32 {
        Sieved1Part0(n);
      } else if n < 41 {
        Sieved1Part1(n);
      } else if n < 50 {
        Sieved1Part2(n);
      } else {
        Sieved1Part3(n);
      }
    }
  }

  lemma Sieved2Part0(n: nat)
    requires 59 <= n < 68
    ensures n in P2 <==> NoSmallDivisor(n)
  {
  }

  lemma Sieved2Part1(n: nat)
    requires 68 <= n < 78
    ensures n in P2 <==> NoSmallDivisor(n)
  {
  }

  lemma Sieved2Part2(n: nat)
    requires 78 <= n < 87
    ensures n in P2 <==> NoSmallDivisor(n)
  {
  }

  lemma Sieved2Part3(n: nat)
    requires 87 <= n < 97
    ensures n in P2 <==> NoSmallDivisor(n)
  {
  }

  lemma Primes2()
    ensures ListsPrimes(P2, 59, 96)
  {
    forall n: nat | 59 <= n <= 96
      ensures n in P2 <==> IsPrime(n)
    {
      PrimeExactly(n);
      if n < 68 {
        Sieved2Part0(n);
      } else if n < 78 {
        Sieved2Part1(n);
      } else if n < 87 {
        Sieved2Part2(n);
      } else {
        Sieved2Part3(n);
      }
    }
  }

  lemma Sieved3Part0(n: nat)
    requires 97 <= n < 107
    ensures n in P3 <==> NoSmallDivisor(n)
  {
  }

  lemma Sieved3Part1(n: nat)
    requires 107 <= n < 117
    ensures n in P3 <==> NoSmallDivisor(n)
  {
  }

  lemma Sieved3Part2(n: nat)
    requires 117 <= n < 127
    ensures n in P3 <==> NoSmallDivisor(n)
  {
  }

  lemma Sieved3Part3(n: nat)
    requires 127 <= n < 137
    ensures n in P3 <==> NoSmallDivisor(n)
  {
  }

  lemma Primes3()
    ensures ListsPrimes(P3, 97, 136)
  {
    forall n: nat | 97 <= n <= 136
      ensures n in P3 <==> IsPrime(n)
    {
      PrimeExactly(n);
      if n < 107 {
        Sieved3Part0(n);
      } else if n < 117 {
        Sieved3Part1(n);
      } else if n < 127 {
        Sieved3Part2(n);
      } else {
        Sieved3Part3(n);
      }
    }
  }

  lemma Sieved4Part0(n: nat)
    requires 137 <= n < 147
    ensures n in P4 <==> NoSmallDivisor(n)
  {
  }

  lemma Sieved4Part1(n: nat)
    requires 147 <= n < 158
    ensures n in P4 <==> NoSmallDivisor(n)
  {
  }

  lemma Sieved4Part2(n: nat)
    requires 158 <= n < 168
    ensures n in P4 <==> NoSmallDivisor(n)
  {
  }

  lemma Sieved4Part3(n: nat)
    requires 168 <= n < 179
    ensures n in P4 <==> NoSmallDivisor(n)
  {
  }

  lemma Primes4()
    ensures ListsPrimes(P4, 137, 178)
  {
    forall n: nat | 137 <= n <= 178
      ensures n in P4 <==> IsPrime(n)
    {
      PrimeExactly(n);
      if n < 147 {
        Sieved4Part0(n);
      } else if n < 158 {
        Sieved4Part1(n);
      } else if n < 168 {
        Sieved4Part2(n);
      } else {
        Sieved4Part3(n);
      }
    }
  }

  lemma Sieved5Part0(n: nat)
    requires 179 <= n < 188
    ensures n in P5 <==> NoSmallDivisor(n)
  {
  }

  lemma Sieved5Part1(n: nat)
    requires 188 <= n < 198
    ensures n in P5 <==> NoSmallDivisor(n)
  {
  }

  lemma Sieved5Part2(n: nat)
    requires 198 <= n < 207
    ensures n in P5 <==> NoSmallDivisor(n)
  {
  }

  lemma Sieved5Part3(n: nat)
    requires 207 <= n < 217
    ensures n in P5 <==> NoSmallDivisor(n)
  {
  }

  lemma Sieved5Part4(n: nat)
    requires 217 <= n < 227
    ensures n in P5 <==> NoSmallDivisor(n)
  {
  }

  lemma Primes5()
    ensures ListsPrimes(P5, 179, 226)
  {
    forall n: nat | 179 <= n <= 226
      ensures n in P5 <==> IsPrime(n)
    {
      PrimeExactly(n);
      if n < 188 {
        Sieved5Part0(n);
      } else if n < 198 {
        Sieved5Part1(n);
      } else if n < 207 {
        Sieved5Part2(n);
      } else if n < 217 {
        Sieved5Part3(n);
      } else {
        Sieved5Part4(n);
      }
    }
  }

  lemma Sieved6Part0(n: nat)
    requires 227 <= n < 237
    ensures n in P6 <==> NoSmallDivisor(n)
  {
  }

  lemma Sieved6Part1(n: nat)
    requires 237 <= n < 248
    ensures n in P6 <==> NoSmallDivisor(n)
  {
  }

  lemma Sieved6Part2(n: nat)
    requires 248 <= n < 258
    ensures n in P6 <==> NoSmallDivisor(n)
  {
  }

  lemma Sieved6Part3(n: nat)
    requires 258 <= n < 269
    ensures n in P6 <==> NoSmallDivisor(n)
  {
  }

  lemma Primes6()
    ensures ListsPrimes(P6, 227, 268)
  {
    forall n: nat | 227 <= n <= 268
      ensures n in P6 <==> IsPrime(n)
    {
      PrimeExactly(n);
      if n < 237 {
        Sieved6Part0(n);
      } else if n < 248 {
        Sieved6Part1(n);
      } else if n < 258 {
        Sieved6Part2(n);
      } else {
        Sieved6Part3(n);
      }
    }
  }

  lemma Sieved7Part0(n: nat)
    requires 269 <= n < 279
    ensures n in P7 <==> NoSmallDivisor(n)
  {
  }

  lemma Sieved7Part1(n: nat)
    requires 279 <= n < 290
    ensures n in P7 <==> NoSmallDivisor(n)
  {
  }

  lemma Sieved7Part2(n: nat)
    requires 290 <= n < 301
    ensures n in P7 <==> NoSmallDivisor(n)
  {
  }

  lemma Sieved7Part3(n: nat)
    requires 301 <= n < 312
    ensures n in P7 <==> NoSmallDivisor(n)
  {
  }

  lemma Primes7()
    ensures ListsPrimes(P7, 269, 311)
  {
    forall n: nat | 269 <= n <= 311
      ensures n in P7 <==> IsPrime(n)
    {
      PrimeExactly(n);
      if n < 279 {
        Sieved7Part0(n);
      } else if n < 290 {
        Sieved7Part1(n);
      } else if n < 301 {
        Sieved7Part2(n);
      } else {
        Sieved7Part3(n);
      }
    }
  }

  lemma ListedFurther(ps: seq<nat>, lo: nat, mid: nat, qs: seq<nat>, hi: nat)
    requires lo <= mid <= hi && ListsPrimes(ps, lo, mid) && ListsPrimes(qs, mid + 1, hi)
    ensures ListsPrimes(ps + qs, lo, hi)
  {
    forall n: nat | lo <= n <= hi
      ensures n in ps + qs <==> IsPrime(n)
    {
    }
  }

  /** The numbers listed are the primes up to 311, in order. */
  lemma PrimesListed()
    ensures ListsPrimes(PRIMES, 2, 311)
  {
    Primes0();
    Primes1();
    ListedFurther(P0, 2, 22, P1, 58);
    Primes2();
    ListedFurther(P0 + P1, 2, 58, P2, 96);
    Primes3();
    ListedFurther(P0 + P1 + P2, 2, 96, P3, 136);
    Primes4();
    ListedFurther(P0 + P1 + P2 + P3, 2, 136, P4, 178);
    Primes5();
    ListedFurther(P0 + P1 + P2 + P3 + P4, 2, 178, P5, 226);
    Primes6();
    ListedFurther(P0 + P1 + P2 + P3 + P4 + P5, 2, 226, P6, 268);
    Primes7();
    ListedFurther(P0 + P1 + P2 + P3 + P4 + P5 + P6, 2, 268, P7, 311);
  }
}
