/** Unsigned machine words as natural numbers: powers of two and the bitwise operators of C. */
module Bits {
  import opened Arithmetic

  function Pow2(n: nat): (p: nat)
    ensures p >= 1
  {
    if n == 0 then 1 else 2 * Pow2(n - 1)
  }

  lemma HalfOfPow2(w: nat)
    requires w > 0
    ensures Pow2(w) == 2 * Pow2(w - 1)
  {
  }

  lemma {:induction false} Pow2Add(m: nat, n: nat)
    ensures Pow2(m + n) == Pow2(m) * Pow2(n)
  {
    if m > 0 {
      Pow2Add(m - 1, n);
      assert 2 * (Pow2(m - 1) * Pow2(n)) == (2 * Pow2(m - 1)) * Pow2(n);
    }
  }

  lemma {:induction false} Pow2Monotone(m: nat, n: nat)
    requires m < n
    ensures Pow2(m) < Pow2(n)
  {
    if m < n - 1 { Pow2Monotone(m, n - 1); }
  }

  /** Unsigned division. */
  function Quotient(a: nat, b: nat): nat
    requires b > 0
  {
    a / b
  }

  /** a >> n */
  function Shr(a: nat, n: nat): nat {
    Quotient(a, Pow2(n))
  }

  /** One more than the largest uint64_t. */
  const WORD: nat := 0x1_0000_0000_0000_0000

  /** Addition of uint32_t. */
  function Add32(a: nat, b: nat): (r: nat)
    ensures r < 0x1_0000_0000
  {
    (a + b) % 0x1_0000_0000
  }

  /** Addition of uint64_t. */
  function Add64(a: nat, b: nat): (r: nat)
    ensures r < WORD
  {
    (a + b) % WORD
  }

  lemma Pow2Eight()
    ensures Pow2(8) == 256
  {
    assert Pow2(4) == 16;
    Pow2Add(4, 4);
  }

  lemma WordIsPow2()
    ensures Pow2(64) == WORD && Pow2(63) == 0x8000_0000_0000_0000
  {
    assert Pow2(64) == 2 * Pow2(63);
    hide Pow2;
    Pow2Eight();
    Pow2Add(8, 8);
    Pow2Add(16, 16);
    Pow2Add(32, 32);
  }

  lemma Pow2AtMost(m: nat, n: nat)
    requires m <= n
    ensures Pow2(m) <= Pow2(n)
  {
    if m < n { Pow2Monotone(m, n); }
  }

  // ----- bitwise operators

  function OrBit(a: nat, b: nat): nat { if a % 2 == 1 || b % 2 == 1 then 1 else 0 }
  function AndBit(a: nat, b: nat): nat { if a % 2 == 1 && b % 2 == 1 then 1 else 0 }
  function XorBit(a: nat, b: nat): nat { if a % 2 != b % 2 then 1 else 0 }

  function Or(a: nat, b: nat): nat
    decreases a + b
  {
    if a == 0 && b == 0 then 0 else OrBit(a, b) + 2 * Or(a / 2, b / 2)
  }

  function And(a: nat, b: nat): nat
    decreases a + b
  {
    if a == 0 && b == 0 then 0 else AndBit(a, b) + 2 * And(a / 2, b / 2)
  }

  function Xor(a: nat, b: nat): nat
    decreases a + b
  {
    if a == 0 && b == 0 then 0 else XorBit(a, b) + 2 * Xor(a / 2, b / 2)
  }

  /** Words whose bits do not overlap are joined by addition. */
  lemma {:induction false} OrDisjoint(low: nat, high: nat, n: nat)
    requires low < Pow2(n)
    ensures Or(low, high * Pow2(n)) == low + high * Pow2(n)
    decreases n
  {
    if n == 0 {
      OrZero(high);
    } else {
      var m := Pow2(n - 1);
      assert high * Pow2(n) == 2 * (high * m);
      OrDisjoint(low / 2, high, n - 1);
    }
  }

  lemma {:induction false} OrZero(a: nat)
    ensures Or(0, a) == a == Or(a, 0)
  {
    if a > 0 { OrZero(a / 2); }
  }

  lemma {:induction false} AndZero(a: nat)
    ensures And(0, a) == 0 == And(a, 0)
  {
    if a > 0 { AndZero(a / 2); }
  }

  lemma {:induction false} XorSelf(a: nat)
    ensures Xor(a, a) == 0
  {
    if a > 0 { XorSelf(a / 2); }
  }

  lemma AndDouble(a: nat, b: nat)
    ensures And(2 * a, 2 * b) == 2 * And(a, b)
  {
  }

  lemma XorDouble(a: nat, b: nat)
    ensures Xor(2 * a, 2 * b) == 2 * Xor(a, b)
  {
  }

  /** a << n, without a limit on the width. */
  function Shl(a: nat, n: nat): nat {
    a * Pow2(n)
  }

  lemma ShlNext(a: nat, n: nat)
    ensures n == 0 ==> Shl(a, n) == a
    ensures n > 0 ==> Shl(a, n) == 2 * Shl(a, n - 1)
  {
    if n > 0 {
      HalfOfPow2(n);
      hide Pow2;
      DoubleProduct(a, Pow2(n - 1));
    }
  }

  lemma AndShift(a: nat, b: nat, j: nat)
    ensures And(a * Pow2(j), b * Pow2(j)) == And(a, b) * Pow2(j)
  {
    hide And, Pow2;
    AndShifted(a, b, j);
  }

  lemma {:induction false} AndShifted(a: nat, b: nat, j: nat)
    ensures And(Shl(a, j), Shl(b, j)) == Shl(And(a, b), j)
    decreases j
  {
    hide And, Shl;
    ShlNext(a, j); ShlNext(b, j); ShlNext(And(a, b), j);
    if j > 0 {
      AndShifted(a, b, j - 1);
      AndDouble(Shl(a, j - 1), Shl(b, j - 1));
    }
  }

  lemma XorShift(a: nat, b: nat, j: nat)
    ensures Xor(a * Pow2(j), b * Pow2(j)) == Xor(a, b) * Pow2(j)
  {
    hide Xor, Pow2;
    XorShifted(a, b, j);
  }

  lemma {:induction false} XorShifted(a: nat, b: nat, j: nat)
    ensures Xor(Shl(a, j), Shl(b, j)) == Shl(Xor(a, b), j)
    decreases j
  {
    hide Xor, Shl;
    ShlNext(a, j); ShlNext(b, j); ShlNext(Xor(a, b), j);
    if j > 0 {
      XorShifted(a, b, j - 1);
      XorDouble(Shl(a, j - 1), Shl(b, j - 1));
    }
  }

  lemma DoubleProduct(a: int, p: int)
    ensures a * (2 * p) == 2 * (a * p)
  {
  }

  // ----- exclusive or

  lemma {:induction false} XorBelow(a: nat, b: nat, n: nat)
    requires a < Pow2(n) && b < Pow2(n)
    ensures Xor(a, b) < Pow2(n) && (Xor(a, b) == 0 <==> a == b)
    decreases n
  {
    if n > 0 && (a > 0 || b > 0) { XorBelow(a / 2, b / 2, n - 1); }
  }

  /** Exclusive or works on low and high parts separately. */
  lemma {:induction false} XorParts(low: nat, low': nat, high: nat, high': nat, n: nat)
    requires low < Pow2(n) && low' < Pow2(n)
    ensures Xor(low + high * Pow2(n), low' + high' * Pow2(n)) == Xor(low, low') + Xor(high, high') * Pow2(n)
    decreases n
  {
    hide Xor;
    if n == 0 {
      XorSelf(0);
    } else {
      var p := Pow2(n - 1);
      DoubleProduct(high, p); DoubleProduct(high', p); DoubleProduct(Xor(high, high'), p);
      XorParts(low / 2, low' / 2, high, high', n - 1);
      XorHalves(low + 2 * (high * p), low' + 2 * (high' * p));
      XorHalves(low, low');
      assert (low + 2 * (high * p)) / 2 == low / 2 + high * p;
      assert (low' + 2 * (high' * p)) / 2 == low' / 2 + high' * p;
    }
  }

  lemma XorHalves(a: nat, b: nat)
    ensures Xor(a, b) == XorBit(a, b) + 2 * Xor(a / 2, b / 2)
  {
  }

  /** A word and its complement have no bit in common. */
  lemma {:induction false} AndComplement(a: nat, n: nat)
    requires a < Pow2(n)
    ensures And(a, Pow2(n) - 1 - a) == 0
    decreases n
  {
    if n == 0 {
    } else {
      var b := Pow2(n) - 1 - a;
      assert b / 2 == Pow2(n - 1) - 1 - a / 2;
      AndComplement(a / 2, n - 1);
    }
  }

  /** Masking with 2^n - 1 keeps the low n bits. */
  lemma {:induction false} AndLowMask(a: nat, n: nat)
    ensures And(a, Pow2(n) - 1) == a % Pow2(n)
    decreases n
  {
    hide And;
    if n == 0 {
      AndZero(a);
    } else {
      AndHalves(a, n);
      hide Pow2;
      AndLowMask(a / 2, n - 1);
      HalfModulo(a, Pow2(n - 1));
    }
  }

  lemma AndHalves(a: nat, n: nat)
    requires n > 0
    ensures And(a, Pow2(n) - 1) == a % 2 + 2 * And(a / 2, Pow2(n - 1) - 1) && Pow2(n) == 2 * Pow2(n - 1)
  {
    assert (Pow2(n) - 1) / 2 == Pow2(n - 1) - 1;
  }

  lemma HalfModulo(a: nat, p: nat)
    requires p > 0
    ensures a % (2 * p) == 2 * (a / 2 % p) + a % 2
  {
    var q, r := a / 2 / p, a / 2 % p;
    DoubleProduct(q, p);
    DivModUnique(a, q, 2 * r + a % 2, 2 * p);
  }

  /** Masking does not increase a word. */
  lemma {:induction false} AndAtMost(a: nat, mask: nat)
    ensures And(a, mask) <= mask
    decreases a + mask
  {
    if a > 0 || mask > 0 { AndAtMost(a / 2, mask / 2); }
  }

  // ----- single bits and population count

  function Bit(a: nat, i: nat): bool {
    if i == 0 then a % 2 == 1 else Bit(a / 2, i - 1)
  }

  function PopCount(a: nat): nat {
    if a == 0 then 0 else a % 2 + PopCount(a / 2)
  }

  lemma {:induction false} BitHigh(a: nat, n: nat, i: nat)
    requires a < Pow2(n) && n <= i
    ensures !Bit(a, i)
    decreases n
  {
    if n == 0 {
      assert a == 0;
      ZeroBits(i);
    } else {
      BitHigh(a / 2, n - 1, i - 1);
    }
  }

  lemma {:induction false} ZeroBits(i: nat)
    ensures !Bit(0, i)
  {
    if i > 0 { ZeroBits(i - 1); }
  }

  /** Bit n of a word below 2^(n+1) says whether it reaches 2^n. */
  lemma {:induction false} TopBit(a: nat, n: nat)
    requires a < Pow2(n + 1)
    ensures Bit(a, n) <==> a >= Pow2(n)
    decreases n
  {
    if n > 0 { TopBit(a / 2, n - 1); }
  }

  /** Testing bit n with a mask. */
  lemma {:induction false} AndMask(a: nat, n: nat)
    ensures And(a, Pow2(n)) == if Bit(a, n) then Pow2(n) else 0
    decreases n
  {
    if n == 0 {
      AndZero(a / 2);
    } else {
      AndMask(a / 2, n - 1);
    }
  }

  lemma {:induction false} PopCountShift(a: nat, h: nat, n: nat)
    requires a < Pow2(n)
    ensures PopCount(a + h * Pow2(n)) == PopCount(a) + PopCount(h)
    decreases n
  {
    if n == 0 {
    } else {
      var m := Pow2(n - 1);
      assert h * Pow2(n) == 2 * (h * m);
      PopCountShift(a / 2, h, n - 1);
      assert (a + 2 * (h * m)) / 2 == a / 2 + h * m;
    }
  }

  lemma {:induction false} PopCountBound(a: nat, n: nat)
    requires a < Pow2(n)
    ensures PopCount(a) <= n
    ensures PopCount(a) == n <==> a == Pow2(n) - 1
    decreases n
  {
    if n == 0 {
    } else {
      PopCountBound(a / 2, n - 1);
    }
  }

  lemma PopCountPositive(a: nat)
    ensures PopCount(a) == 0 <==> a == 0
  {
  }
}
