/** The field GF(2^8) of erasure_code/: bytes, exclusive or as addition, and the product
    reduced by x^8 + x^4 + x^3 + x^2 + 1.  PolyMul is the definition of the product; GfMul and
    GfInv are the library's look-ups in an exponent table and a logarithm table. */
module GaloisField {
  import opened Arithmetic

  type Byte = bv8

  // ----- addition

  /** Addition, and subtraction, in GF(2^8). */
  function Add(a: Byte, b: Byte): Byte {
    a ^ b
  }

  lemma AddLaws(a: Byte, b: Byte, c: Byte)
    ensures Add(a, b) == Add(b, a)
    ensures Add(Add(a, b), c) == Add(a, Add(b, c))
    ensures Add(a, 0) == a == Add(0, a)
    ensures Add(a, a) == 0
    ensures Add(a, b) == 0 <==> a == b
  {
  }

  lemma AddSwap(a: Byte, b: Byte, c: Byte, d: Byte)
    ensures Add(Add(a, b), Add(c, d)) == Add(Add(a, c), Add(b, d))
  {
    hide Add;
    AddLaws(a, b, Add(c, d));
    AddLaws(b, c, d);
    AddLaws(c, b, d);
    AddLaws(a, c, Add(b, d));
  }

  // ----- multiplication by {2} and the powers of {2}

  /** Multiplication by GF{2}. */
  function XTime(a: Byte): Byte {
    (a << 1) ^ (if a & 0x80 != 0 then 0x1d else 0)
  }

  /** XTime without the branch, the form in which bit-vector reasoning is cheap. */
  function XTimeFlat(a: Byte): Byte {
    (a << 1) ^ ((a >> 7) & 0x01) ^ ((a >> 5) & 0x04) ^ ((a >> 4) & 0x08) ^ ((a >> 3) & 0x10)
  }

  lemma XTimeIsFlat(a: Byte)
    ensures XTime(a) == XTimeFlat(a)
  {
  }

  lemma XTimeFlatAdd(a: Byte, b: Byte)
    ensures XTimeFlat(Add(a, b)) == Add(XTimeFlat(a), XTimeFlat(b))
  {
  }

  lemma XTimeAdd(a: Byte, b: Byte)
    ensures XTime(Add(a, b)) == Add(XTime(a), XTime(b))
  {
    hide *;
    XTimeIsFlat(a); XTimeIsFlat(b); XTimeIsFlat(Add(a, b));
    XTimeFlatAdd(a, b);
  }

  lemma XTimeZero(a: Byte)
    ensures XTime(a) == 0 <==> a == 0
  {
  }

  /** The byte {2}^n. */
  function Power(n: nat): (p: Byte)
    ensures p != 0
  {
    if n == 0 then 1 else XTimeZero(Power(n - 1)); XTime(Power(n - 1))
  }

  /** n-fold multiplication by {2}. */
  function XTimes(n: nat, b: Byte): Byte {
    if n == 0 then b else XTime(XTimes(n - 1, b))
  }

  lemma {:induction false} XTimesPower(m: nat, n: nat)
    ensures XTimes(m, Power(n)) == Power(m + n)
  {
    hide XTime;
    if m > 0 { XTimesPower(m - 1, n); }
  }

  // ----- the product of polynomials

  /** a times the lowest coefficient of b. */
  function Pick(b: Byte, a: Byte): Byte {
    if b & 1 != 0 then a else 0
  }

  /** The product of a and the n low coefficients of b. */
  function PolyMulLow(a: Byte, b: Byte, n: nat): Byte
    decreases n
  {
    if n == 0 then 0 else Add(Pick(b, a), PolyMulLow(XTime(a), b >> 1, n - 1))
  }

  /** The product in GF(2^8). */
  function PolyMul(a: Byte, b: Byte): Byte {
    PolyMulLow(a, b, 8)
  }

  lemma PickAddLeft(b: Byte, c: Byte, a: Byte)
    ensures Pick(Add(b, c), a) == Add(Pick(b, a), Pick(c, a))
  {
    assert (b ^ c) & 1 == (b & 1) ^ (c & 1);
  }

  lemma PickAddRight(b: Byte, a: Byte, c: Byte)
    ensures Pick(b, Add(a, c)) == Add(Pick(b, a), Pick(b, c))
    ensures Pick(b, XTime(a)) == XTime(Pick(b, a))
  {
  }

  lemma ShiftAdd(b: Byte, c: Byte)
    ensures Add(b, c) >> 1 == Add(b >> 1, c >> 1)
  {
  }

  lemma {:induction false} PolyMulLowAddRight(a: Byte, b: Byte, c: Byte, n: nat)
    ensures PolyMulLow(a, Add(b, c), n) == Add(PolyMulLow(a, b, n), PolyMulLow(a, c, n))
    decreases n
  {
    if n == 0 {
    } else {
      hide XTime, Pick, Add;
      PickAddLeft(b, c, a);
      ShiftAdd(b, c);
      PolyMulLowAddRight(XTime(a), b >> 1, c >> 1, n - 1);
      AddSwap(Pick(b, a), Pick(c, a), PolyMulLow(XTime(a), b >> 1, n - 1), PolyMulLow(XTime(a), c >> 1, n - 1));
    }
  }

  lemma {:induction false} PolyMulLowXTime(a: Byte, b: Byte, n: nat)
    ensures PolyMulLow(XTime(a), b, n) == XTime(PolyMulLow(a, b, n))
    decreases n
  {
    if n == 0 {
    } else {
      hide XTime, Pick, Add;
      PickAddRight(b, a, a);
      XTimeAdd(Pick(b, a), PolyMulLow(XTime(a), b >> 1, n - 1));
      PolyMulLowXTime(XTime(a), b >> 1, n - 1);
    }
  }

  lemma PickBits(b: Byte)
    ensures Pick(b, 0x01) == b & 0x01 && Pick(b >> 1, 0x02) == b & 0x02
    ensures Pick(b >> 1 >> 1, 0x04) == b & 0x04 && Pick(b >> 1 >> 1 >> 1, 0x08) == b & 0x08
  {
  }

  lemma PickHighBits(b: Byte)
    ensures Pick(b, 0x10) == (b & 0x01) << 4 && Pick(b >> 1, 0x20) == (b & 0x02) << 4
    ensures Pick(b >> 1 >> 1, 0x40) == (b & 0x04) << 4 && Pick(b >> 1 >> 1 >> 1, 0x80) == (b & 0x08) << 4
  {
  }

  lemma NibbleIsItsBits(b: Byte)
    ensures Add(b & 0x01, Add(b & 0x02, Add(b & 0x04, b & 0x08))) == b & 0x0f
    ensures Add((b & 0x01) << 4, Add((b & 0x02) << 4, Add((b & 0x04) << 4, (b & 0x08) << 4))) == b << 4
  {
  }

  lemma NibblesAreByte(b: Byte)
    ensures Add(b & 0x0f, (b >> 4) << 4) == b
    ensures b >> 1 >> 1 >> 1 >> 1 == b >> 4
  {
  }

  lemma PolyMulLow4(a: Byte, b: Byte, n: nat)
    ensures var a1 := XTime(a); var a2 := XTime(a1); var a3 := XTime(a2);
      PolyMulLow(a, b, n + 4) == Add(Pick(b, a), Add(Pick(b >> 1, a1), Add(Pick(b >> 1 >> 1, a2),
        Add(Pick(b >> 1 >> 1 >> 1, a3), PolyMulLow(XTime(a3), b >> 1 >> 1 >> 1 >> 1, n)))))
  {
    hide XTime, Pick, Add;
    var a1 := XTime(a); var a2 := XTime(a1);
    assert PolyMulLow(a2, b >> 1 >> 1, n + 2) == Add(Pick(b >> 1 >> 1, a2),
      Add(Pick(b >> 1 >> 1 >> 1, XTime(a2)), PolyMulLow(XTime(XTime(a2)), b >> 1 >> 1 >> 1 >> 1, n)));
  }

  lemma AddFour(a: Byte, b: Byte, c: Byte, d: Byte, e: Byte)
    ensures Add(a, Add(b, Add(c, Add(d, e)))) == Add(Add(a, Add(b, Add(c, d))), e)
  {
    hide Add;
    AddLaws(c, d, e);
    AddLaws(b, Add(c, d), e);
    AddLaws(a, Add(b, Add(c, d)), e);
  }

  lemma PolyMulOne(b: Byte)
    ensures PolyMul(1, b) == b
  {
    var h := b >> 1 >> 1 >> 1 >> 1;
    assert XTime(0x01) == 0x02 && XTime(0x02) == 0x04 && XTime(0x04) == 0x08 && XTime(0x08) == 0x10;
    assert XTime(0x10) == 0x20 && XTime(0x20) == 0x40 && XTime(0x40) == 0x80;
    hide *;
    assert PolyMulLow(0x10, h, 4) == h << 4 by {
      PolyMulLow4(0x10, h, 0);
      PickHighBits(h);
      NibbleIsItsBits(h);
      PolyMulLowNone(XTime(0x80), h >> 1 >> 1 >> 1 >> 1);
      AddFour((h & 0x01) << 4, (h & 0x02) << 4, (h & 0x04) << 4, (h & 0x08) << 4, 0);
      AddLaws(h << 4, 0, 0);
    }
    assert PolyMul(1, b) == Add(b & 0x0f, h << 4) by {
      PolyMulLow4(0x01, b, 4);
      PickBits(b);
      NibbleIsItsBits(b);
      AddFour(b & 0x01, b & 0x02, b & 0x04, b & 0x08, h << 4);
      PolyMulIsLow(1, b);
    }
    NibblesAreByte(b);
  }

  lemma PolyMulLowNone(a: Byte, b: Byte)
    ensures PolyMulLow(a, b, 0) == 0
  {
  }

  lemma PolyMulIsLow(a: Byte, b: Byte)
    ensures PolyMul(a, b) == PolyMulLow(a, b, 8)
  {
  }

  /** Multiplying by {2}^n is n-fold multiplication by {2}. */
  lemma {:induction false} PolyMulPower(n: nat, b: Byte)
    ensures PolyMul(Power(n), b) == XTimes(n, b)
  {
    hide XTime, Pick, Add, PolyMulLow;
    if n == 0 {
      PolyMulOne(b);
    } else {
      PolyMulPower(n - 1, b);
      PolyMulLowXTime(Power(n - 1), b, 8);
    }
  }

  lemma PowerMul(m: nat, n: nat)
    ensures PolyMul(Power(m), Power(n)) == Power(m + n)
  {
    PolyMulPower(m, Power(n));
    XTimesPower(m, n);
  }

  // ----- {2} generates all nonzero bytes

  lemma XTimeInjective(a: Byte, b: Byte)
    requires XTime(a) == XTime(b)
    ensures a == b
  {
    hide XTime, Add;
    XTimeAdd(a, b);
    AddLaws(XTime(a), XTime(b), 0);
    XTimeZero(Add(a, b));
    AddLaws(a, b, 0);
  }

  lemma {:induction false} PowerDifference(i: nat, j: nat)
    requires i <= j && Power(i) == Power(j)
    ensures Power(j - i) == 1
  {
    if i > 0 {
      XTimeInjective(Power(i - 1), Power(j - 1));
      PowerDifference(i - 1, j - 1);
    }
  }

  lemma {:induction false} PowerModulo(n: nat, d: nat)
    requires d > 0 && Power(d) == 1
    ensures Power(n) == Power(n % d)
  {
    hide *;
    if n >= d {
      PowerMul(d, n - d);
      PolyMulOne(Power(n - d));
      PowerModulo(n - d, d);
      DivModUnique(n, (n - d) / d + 1, (n - d) % d, d);
    }
  }

  lemma SomePowers()
    ensures Power(8) == 0x1d && Power(15) == 0x26 && Power(51) == 0x0a && Power(85) == 0xd6
  {
    assert Power(1) == 0x02; assert Power(2) == 0x04; assert Power(3) == 0x08; assert Power(4) == 0x10;
    assert Power(5) == 0x20; assert Power(6) == 0x40; assert Power(7) == 0x80; assert Power(8) == 0x1d;
    assert Power(9) == 0x3a; assert Power(10) == 0x74; assert Power(11) == 0xe8; assert Power(12) == 0xcd;
    assert Power(13) == 0x87; assert Power(14) == 0x13; assert Power(15) == 0x26;
    PowerMul(15, 15); assert Power(30) == 0x60;
    PowerMul(30, 15); assert Power(45) == 0xc1;
    assert Power(46) == 0x9f; assert Power(47) == 0x23; assert Power(48) == 0x46;
    assert Power(49) == 0x8c; assert Power(50) == 0x05; assert Power(51) == 0x0a;
    PowerMul(51, 30); assert Power(81) == 0xe7;
    assert Power(82) == 0xd3; assert Power(83) == 0xbb; assert Power(84) == 0x6b;
  }

  lemma Power255()
    ensures Power(255) == 1
  {
    SomePowers();
    PowerMul(85, 85); assert Power(170) == 0xd7;
    PowerMul(170, 85);
  }

  lemma ProperDivisorOf255(d: nat)
    requires 0 < d < 255 && 255 % d == 0
    ensures 15 % d == 0 || 51 % d == 0 || 85 % d == 0
  {
    var q := 255 / d;
    assert q * d == 255;
    if d < 16 {
      assert d != 2 && d != 4 && d != 6 && d != 7 && d != 8 && d != 9 && d != 10 && d != 11
        && d != 12 && d != 13 && d != 14;
    } else {
      assert q < 16;
      assert q != 2 && q != 4 && q != 6 && q != 7 && q != 8 && q != 9 && q != 10 && q != 11
        && q != 12 && q != 13 && q != 14;
    }
  }

  /** {2} has order exactly 255. */
  lemma {:induction false} PowerIsOne(n: nat)
    ensures Power(n) == 1 <==> n % 255 == 0
  {
    Power255();
    PowerModulo(n, 255);
    if n % 255 != 0 && Power(n) == 1 { NoSmallerOrder(n % 255); }
  }

  lemma {:induction false} NoSmallerOrder(d: nat)
    requires 0 < d < 255
    ensures Power(d) != 1
  {
    if Power(d) == 1 {
      Power255();
      PowerModulo(255, d);
      if 255 % d != 0 {
        NoSmallerOrder(255 % d);
      } else {
        SomePowers();
        PowerModulo(15, d); PowerModulo(51, d); PowerModulo(85, d);
        ProperDivisorOf255(d);
      }
    }
  }

  lemma PowerInjective(i: nat, j: nat)
    requires Power(i) == Power(j)
    ensures i % 255 == j % 255
  {
    hide *;
    var lo, hi := if i <= j then i else j, if i <= j then j else i;
    PowerDifference(lo, hi);
    PowerIsOne(hi - lo);
  }

  /** The integer values of {2}^0, ..., {2}^(n-1). */
  function Powers(n: nat): (s: set<int>) {
    if n == 0 then {} else Powers(n - 1) + {Power(n - 1) as int}
  }

  lemma {:induction false} InPowers(n: nat, v: int)
    requires v in Powers(n)
    ensures exists i: nat :: i < n && Power(i) as int == v
  {
    hide Power;
    if v in Powers(n - 1) { InPowers(n - 1, v); }
  }

  lemma {:induction false} PowersCount(n: nat)
    requires n <= 255
    ensures |Powers(n)| == n
  {
    hide Power;
    if n > 0 {
      PowersCount(n - 1);
      if Power(n - 1) as int in Powers(n - 1) {
        InPowers(n - 1, Power(n - 1) as int);
        var i: nat :| i < n - 1 && Power(i) as int == Power(n - 1) as int;
        SameInt(Power(i), Power(n - 1));
        PowerInjective(i, n - 1);
      }
    }
  }

  lemma SameInt(a: Byte, b: Byte)
    requires a as int == b as int
    ensures a == b
  {
  }

  lemma {:induction false} NoZeroPower(n: nat)
    ensures 0 !in Powers(n)
  {
    hide Power;
    if n > 0 {
      NoZeroPower(n - 1);
      if Power(n - 1) as int == 0 { SameInt(Power(n - 1), 0); }
    }
  }

  lemma {:induction false} Pigeonhole(s: set<int>, n: nat)
    requires forall v | v in s :: 0 <= v < n
    ensures |s| <= n
  {
    if n == 0 {
      assert forall v :: v !in s;
      assert s == {};
    } else {
      Pigeonhole(s - {n - 1}, n - 1);
    }
  }

  /** Every nonzero byte is a power of {2}. */
  lemma EveryByteIsPower(a: Byte) returns (i: nat)
    requires a != 0
    ensures i < 255 && Power(i) == a
  {
    hide *;
    PowersCount(255);
    var all := Powers(255) + {0} + {a as int};
    if a as int !in Powers(255) {
      NoZeroPower(255);
      if a as int == 0 { SameInt(a, 0); }
      assert |Powers(255) + {0}| == 256;
      assert |all| == 257;
      forall v | v in all ensures 0 <= v < 256 {
        if v in Powers(255) { InPowers(255, v); }
      }
      Pigeonhole(all, 256);
    }
    InPowers(255, a as int);
    i :| i < 255 && Power(i) as int == a as int;
    SameInt(Power(i), a);
  }
}
