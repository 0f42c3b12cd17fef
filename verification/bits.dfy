/** The bitwise operations of unsigned words, on binary digits. */
module Bits {
  function Pow2(k: nat): (r: nat)
    ensures r > 0
  {
    if k == 0 then 1 else 2 * Pow2(k - 1)
  }

  lemma Pow2Is32()
    ensures Pow2(32) == 0x1_0000_0000
  {
    assert Pow2(8) == 256;
    assert Pow2(16) == 65536;
    assert Pow2(24) == 16777216;
  }

  lemma Pow2Is31()
    ensures Pow2(31) == 0x8000_0000
  {
    assert Pow2(8) == 256;
    assert Pow2(16) == 65536;
    assert Pow2(24) == 16777216;
  }

  /** Binary digit `i`, counted from the last. */
  function Digit(x: nat, i: nat): nat {
    if i == 0 then x % 2 else Digit(x / 2, i - 1)
  }

  lemma {:induction false} DigitIsBit(x: nat, i: nat)
    ensures Digit(x, i) <= 1
  {
    if i > 0 {
      DigitIsBit(x / 2, i - 1);
    }
  }

  function And(x: nat, y: nat): (r: nat)
    ensures r <= x
  {
    if x == 0 then 0 else 2 * And(x / 2, y / 2) + if x % 2 == 1 && y % 2 == 1 then 1 else 0
  }

  function Xor(x: nat, y: nat, k: nat): (r: nat)
    requires x < Pow2(k) && y < Pow2(k)
    ensures r < Pow2(k)
  {
    if k == 0 then 0 else 2 * Xor(x / 2, y / 2, k - 1) + if x % 2 != y % 2 then 1 else 0
  }

  function Or(x: nat, y: nat, k: nat): (r: nat)
    requires x < Pow2(k) && y < Pow2(k)
    ensures r < Pow2(k)
  {
    if k == 0 then 0 else 2 * Or(x / 2, y / 2, k - 1) + if x % 2 == 1 || y % 2 == 1 then 1 else 0
  }

  /** Each operation works on every digit by itself. */
  lemma {:induction false} AndDigit(x: nat, y: nat, i: nat)
    ensures Digit(And(x, y), i) == if Digit(x, i) == 1 && Digit(y, i) == 1 then 1 else 0
  {
    if x == 0 {
      ZeroDigit(i);
    } else if i > 0 {
      AndDigit(x / 2, y / 2, i - 1);
    }
  }

  lemma {:induction false} ZeroDigit(i: nat)
    ensures Digit(0, i) == 0
  {
    if i > 0 {
      ZeroDigit(i - 1);
    }
  }

  lemma {:induction false} XorDigit(x: nat, y: nat, k: nat, i: nat)
    requires x < Pow2(k) && y < Pow2(k) && i < k
    ensures Digit(Xor(x, y, k), i) == if Digit(x, i) != Digit(y, i) then 1 else 0
  {
    if i > 0 {
      XorDigit(x / 2, y / 2, k - 1, i - 1);
    }
  }

  lemma {:induction false} OrDigit(x: nat, y: nat, k: nat, i: nat)
    requires x < Pow2(k) && y < Pow2(k) && i < k
    ensures Digit(Or(x, y, k), i) == if Digit(x, i) == 1 || Digit(y, i) == 1 then 1 else 0
  {
    if i > 0 {
      OrDigit(x / 2, y / 2, k - 1, i - 1);
    }
  }

  /** The exclusive or of two numbers is zero exactly when they are the same. */
  lemma {:induction false} XorZero(x: nat, y: nat, k: nat)
    requires x < Pow2(k) && y < Pow2(k)
    ensures Xor(x, y, k) == 0 <==> x == y
  {
    if k > 0 {
      XorZero(x / 2, y / 2, k - 1);
    }
  }

  lemma {:induction false} OrZero(x: nat, y: nat, k: nat)
    requires x < Pow2(k) && y < Pow2(k)
    ensures Or(x, y, k) == 0 <==> x == 0 && y == 0
  {
    if k > 0 {
      OrZero(x / 2, y / 2, k - 1);
    }
  }

  lemma HalfOfSum(a: nat, b: nat, p: nat)
    ensures (a + b * (2 * p)) / 2 == a / 2 + b * p && (a + b * (2 * p)) % 2 == a % 2
  {
    var q := b * p;
    assert b * (2 * p) == 2 * q;
  }

  /** Two numbers written one after the other. */
  lemma {:induction false} SumDigit(a: nat, b: nat, m: nat, i: nat)
    requires a < Pow2(m)
    ensures Digit(a + b * Pow2(m), i) == if i < m then Digit(a, i) else Digit(b, i - m)
  {
    if m > 0 {
      HalfOfSum(a, b, Pow2(m - 1));
      if i > 0 {
        SumDigit(a / 2, b, m - 1, i - 1);
      }
    }
  }

  lemma {:induction false} ComplementDigit(x: nat, k: nat, i: nat)
    requires x < Pow2(k) && i < k
    ensures Digit(Pow2(k) - 1 - x, i) == 1 - Digit(x, i)
  {
    if i > 0 {
      ComplementDigit(x / 2, k - 1, i - 1);
      assert (Pow2(k) - 1 - x) / 2 == Pow2(k - 1) - 1 - x / 2;
    }
  }

  /** A number below 2^k has no digit past the `k`-th. */
  lemma {:induction false} HighDigit(x: nat, k: nat, i: nat)
    requires x < Pow2(k) && i >= k
    ensures Digit(x, i) == 0
  {
    if k > 0 {
      HighDigit(x / 2, k - 1, i - 1);
    } else {
      ZeroDigit(i);
    }
  }

  /** A number below 2^k is known by its `k` digits. */
  lemma {:induction false} DigitsTell(x: nat, y: nat, k: nat)
    requires x < Pow2(k) && y < Pow2(k)
    requires forall i :: 0 <= i < k ==> Digit(x, i) == Digit(y, i)
    ensures x == y
  {
    if k > 0 {
      assert Digit(x, 0) == Digit(y, 0);
      forall i | 0 <= i < k - 1
        ensures Digit(x / 2, i) == Digit(y / 2, i)
      {
        assert Digit(x, i + 1) == Digit(y, i + 1);
      }
      DigitsTell(x / 2, y / 2, k - 1);
    }
  }
}
