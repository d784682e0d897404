/** next_subset: Gosper's hack on 64-bit masks, and the proof that it enumerates all subsets of a
    given size. */
module Subsets {
  import opened Arithmetic
  import opened Bits

  // ----- the step, with the operators of C on uint64_t

  /** -x on uint64_t. */
  function Negate(x: nat): nat
    requires x < WORD
  {
    if x == 0 then 0 else WORD - x
  }

  /** The lowest set bit: x & -x. */
  function LowestBit(x: nat): nat
    requires x < WORD
  {
    And(x, Negate(x))
  }

  // ----- the shape of a mask

  /** A nonzero mask is a block of l ones at position j below the rest h. */
  function Mask(j: nat, l: nat, h: nat): nat
  {
    (Pow2(l) - 1 + h * Pow2(l + 1)) * Pow2(j)
  }

  lemma {:induction false} Shape(x: nat) returns (j: nat, l: nat, h: nat)
    requires x > 0
    ensures l > 0 && x == Mask(j, l, h)
    decreases x
  {
    if x % 2 == 0 {
      j, l, h := Shape(x / 2);
      j := j + 1;
      DoubleProduct(Pow2(l) - 1 + h * Pow2(l + 1), Pow2(j - 1));
    } else if (x / 2) % 2 == 0 {
      j, l, h := 0, 1, x / 4;
      assert Pow2(2) == 4;
    } else {
      j, l, h := Shape(x / 2);
      assert j == 0 by { if j > 0 { EvenMask(j, l, h); } }
      l := l + 1;
      assert Pow2(0) == 1;
      DoubleProduct(h, Pow2(l));
    }
  }

  lemma EvenMask(j: nat, l: nat, h: nat)
    requires j > 0
    ensures Mask(j, l, h) % 2 == 0
  {
    DoubleProduct(Pow2(l) - 1 + h * Pow2(l + 1), Pow2(j - 1));
  }

  lemma MaskBound(j: nat, l: nat, h: nat, n: nat)
    requires l > 0 && Mask(j, l, h) < Pow2(n)
    ensures j + l <= n
  {
    if j + l > n {
      Pow2Add(l - 1, j);
      ProductMonotone(Pow2(l - 1), Pow2(l) - 1 + h * Pow2(l + 1), Pow2(j));
      if n < j + l - 1 { Pow2Monotone(n, j + l - 1); }
    }
  }

  /** An odd word and its negation have only the lowest bit in common. */
  lemma AndOddNegation(y: nat, n: nat)
    requires n > 0 && y % 2 == 1 && y < Pow2(n)
    ensures And(y, Pow2(n) - y) == 1
  {
    AndComplement(y / 2, n - 1);
    assert (Pow2(n) - y) / 2 == Pow2(n - 1) - 1 - y / 2;
  }

  /** x & -x is the power of two at the foot of the lowest block. */
  lemma LowestBitOfShifted(y: nat, j: nat)
    requires y % 2 == 1 && y * Pow2(j) < WORD && j < 64
    ensures LowestBit(y * Pow2(j)) == Pow2(j)
  {
    WordIsPow2();
    hide And, Pow2;
    var n, p := 64 - j, Pow2(j);
    Pow2Add(n, j);
    SmallerFactor(y, Pow2(n), p);
    Factor(Pow2(n), y, p);
    AndShift(y, Pow2(n) - y, j);
    AndOddNegation(y, n);
    ProductMonotone(1, y, p);
  }

  lemma LowestBitOfMask(j: nat, l: nat, h: nat)
    requires l > 0 && Mask(j, l, h) < WORD
    ensures LowestBit(Mask(j, l, h)) == Pow2(j)
  {
    WordIsPow2();
    OddBlock(l, h);
    MaskBound(j, l, h, 64);
    hide LowestBit, Pow2;
    LowestBitOfShifted(Pow2(l) - 1 + h * Pow2(l + 1), j);
  }

  lemma OddBlock(l: nat, h: nat)
    requires l > 0
    ensures (Pow2(l) - 1 + h * Pow2(l + 1)) % 2 == 1
  {
    DoubleProduct(h, Pow2(l));
  }

  /** The next mask of the same size, as next_subset computes it. */
  function Gosper(x: nat): nat
    requires 0 < x < WORD
  {
    var tmp1 := LowestBit(x);
    var tmp2 := (x + tmp1) % WORD;
    if tmp1 == 0 then 0 else Or(Quotient(Quotient(Xor(x, tmp2), 4), tmp1), tmp2)
  }

  /** The block moves up as its top bit is carried and the others drop to the bottom. */
  function Successor(j: nat, l: nat, h: nat): nat
    requires l > 0
  {
    Pow2(l - 1) - 1 + (1 + 2 * h) * Pow2(j + l)
  }

  lemma {:induction false} XorOfCarry(l: nat, h: nat)
    ensures Xor(Pow2(l) - 1 + h * Pow2(l + 1), Pow2(l) + h * Pow2(l + 1)) == Pow2(l + 1) - 1
  {
    hide Pow2, Xor;
    CarryParts(l, h);
    if l == 0 {
      XorSelf(h);
      XorOdd(h, h);
    } else {
      XorOfCarry(l - 1, h);
      XorOdd(Pow2(l - 1) - 1 + h * Pow2(l), Pow2(l - 1) + h * Pow2(l));
    }
  }

  lemma CarryParts(l: nat, h: nat)
    ensures Pow2(l + 1) == 2 * Pow2(l) && (l == 0 ==> Pow2(l) == 1)
    ensures l == 0 ==> Pow2(l) - 1 + h * Pow2(l + 1) == 2 * h && Pow2(l) + h * Pow2(l + 1) == 1 + 2 * h
    ensures l > 0 ==> Pow2(l) - 1 + h * Pow2(l + 1) == 1 + 2 * (Pow2(l - 1) - 1 + h * Pow2(l))
    ensures l > 0 ==> Pow2(l) + h * Pow2(l + 1) == 2 * (Pow2(l - 1) + h * Pow2(l))
  {
    HalfOfPow2(l + 1);
    if l > 0 { HalfOfPow2(l); } else { assert Pow2(0) == 1; }
    hide Pow2;
    DoubleProduct(h, Pow2(l));
  }

  lemma XorOdd(a: nat, b: nat)
    ensures Xor(1 + 2 * a, 2 * b) == 1 + 2 * Xor(a, b) == Xor(2 * a, 1 + 2 * b)
  {
    XorHalves(1 + 2 * a, 2 * b);
    XorHalves(2 * a, 1 + 2 * b);
  }

  /** The steps of the computation, for a mask block * 2^j. */
  lemma GosperSteps(block: nat, j: nat, changed: nat, rest: nat, high: nat, e: nat)
    requires var p := Pow2(j);
      0 < block * p && (block + 1) * p < WORD && LowestBit(block * p) == p && (block + 1) * p == high * Pow2(e)
    requires Xor(block, block + 1) == changed && changed / 4 == rest && rest < Pow2(e)
    ensures block * Pow2(j) < WORD && Gosper(block * Pow2(j)) == rest + high * Pow2(e)
  {
    hide And, Or, Xor, Pow2, LowestBit;
    var p := Pow2(j);
    Factor(block + 1, block, p);
    XorShift(block, block + 1, j);
    ShiftedQuotient(changed, p);
    OrDisjoint(rest, high, e);
  }

  lemma GosperOfMask(j: nat, l: nat, h: nat)
    requires l > 0 && Mask(j, l, h) < 0x8000_0000_0000_0000
    ensures 0 < Mask(j, l, h) && Gosper(Mask(j, l, h)) == Successor(j, l, h)
  {
    hide And, Or, Xor, Gosper, LowestBit, Pow2;
    var block := Pow2(l) - 1 + h * Pow2(l + 1);
    QuarterOfOnes(l);
    BlockSizes(j, l, h);
    LowestBitOfMask(j, l, h);
    XorOfCarry(l, h);
    CarriedBlock(j, l, h);
    Pow2Monotone(l - 1, j + l);
    Factor(block + 1, block, Pow2(j));
    GosperSteps(block, j, Pow2(l + 1) - 1, Pow2(l - 1) - 1, 1 + 2 * h, j + l);
  }

  lemma QuarterOfOnes(l: nat)
    requires l > 0
    ensures (Pow2(l + 1) - 1) / 4 == Pow2(l - 1) - 1
  {
  }

  lemma BlockSizes(j: nat, l: nat, h: nat)
    requires l > 0 && Mask(j, l, h) < 0x8000_0000_0000_0000
    ensures 0 < Mask(j, l, h) && Mask(j, l, h) + Pow2(j) < WORD
  {
    WordIsPow2();
    MaskBound(j, l, h, 63);
    Pow2Monotone(j, 63);
    HalfOfPow2(l);
    hide Pow2;
    ProductMonotone(0, h, Pow2(l + 1));
    ProductMonotone(1, Pow2(l) - 1 + h * Pow2(l + 1), Pow2(j));
  }

  lemma CarriedBlock(j: nat, l: nat, h: nat)
    ensures (Pow2(l) + h * Pow2(l + 1)) * Pow2(j) == (1 + 2 * h) * Pow2(j + l)
  {
    DoubleProduct(h, Pow2(l));
    var a, p, q := 1 + 2 * h, Pow2(l), Pow2(j);
    assert Pow2(l) + h * Pow2(l + 1) == a * p;
    Pow2Add(j, l);
    assert (a * p) * q == a * (q * p);
  }

  lemma ShiftedQuotient(a: nat, p: nat)
    requires p > 0
    ensures a * p / 4 / p == a / 4
  {
    var q, r := a / 4, a % 4;
    assert a * p == 4 * (q * p) + r * p;
    assert 0 <= r * p <= 3 * p;
    var s := a * p / 4;
    assert q * p <= s < q * p + p;
    DivModUnique(s, q, s - q * p, p);
  }

  // ----- same size, and nothing in between

  lemma SizeOfMask(j: nat, l: nat, h: nat)
    ensures PopCount(Mask(j, l, h)) == l + PopCount(h)
  {
    var block := Pow2(l) - 1 + h * Pow2(l + 1);
    HalfOfPow2(l + 1);
    SizeOfDouble(h);
    hide Pow2, PopCount;
    PopCountShift(0, block, j);
    DoubleFactor(h, Pow2(l));
    PopCountShift(Pow2(l) - 1, 2 * h, l);
    PopCountBound(Pow2(l) - 1, l);
  }

  lemma SizeOfSuccessor(j: nat, l: nat, h: nat)
    requires l > 0
    ensures PopCount(Successor(j, l, h)) == l + PopCount(h)
  {
    SizeOfDouble(h);
    hide Pow2, PopCount;
    Pow2Monotone(l - 1, j + l);
    PopCountShift(Pow2(l - 1) - 1, 1 + 2 * h, j + l);
    PopCountBound(Pow2(l - 1) - 1, l - 1);
  }

  lemma SizeOfDouble(h: nat)
    ensures PopCount(0) == 0 && PopCount(2 * h) == PopCount(h) && PopCount(1 + 2 * h) == 1 + PopCount(h)
  {
  }

  /** Filling in bits below a full block makes it larger. */
  lemma FullBlockSize(j: nat, l: nat, r: nat)
    requires (Pow2(l) - 1) * Pow2(j) < r < Pow2(j + l)
    ensures PopCount(r) > l
  {
    Pow2Add(j, l);
    hide Pow2, PopCount;
    var p := Pow2(j);
    var low := r - (Pow2(l) - 1) * p;
    Factor(Pow2(l), Pow2(l) - 1, p);
    PopCountShift(low, Pow2(l) - 1, j);
    PopCountBound(Pow2(l) - 1, l);
    PopCountPositive(low);
  }

  /** A full block with a leading one above it, but fewer ones below, is smaller. */
  lemma CarriedSize(j: nat, l: nat, r: nat)
    requires l > 0 && Pow2(j + l) <= r < Pow2(j + l) + Pow2(l - 1) - 1
    ensures PopCount(r) < l
  {
    var q := Pow2(j + l);
    Pow2Monotone(l - 1, j + l);
    PopCountShift(r - q, 1, j + l);
    assert PopCount(1) == 1;
    hide PopCount, Pow2;
    PopCountBound(r - q, l - 1);
  }

  /** Between a mask and its successor every mask has another size. */
  lemma NothingBetween(j: nat, l: nat, h: nat, y: nat)
    requires l > 0 && Mask(j, l, h) < y < Successor(j, l, h)
    ensures PopCount(y) != l + PopCount(h)
  {
    MaskAboveBase(j, l, h);
    hide Pow2, Mask, Successor, PopCount;
    SizeBetween(j, l, h, y - h * Pow2(j + l + 1));
  }

  lemma SizeBetween(j: nat, l: nat, h: nat, r: int)
    requires l > 0 && (Pow2(l) - 1) * Pow2(j) < r < Pow2(l - 1) - 1 + Pow2(j + l)
    ensures r >= 0 && PopCount(r + h * Pow2(j + l + 1)) != l + PopCount(h)
  {
    hide Pow2, PopCount;
    Pow2Monotone(l - 1, j + l);
    HalfOfPow2(j + l + 1);
    ProductMonotone(0, Pow2(l) - 1, Pow2(j));
    PopCountShift(r, h, j + l + 1);
    if r < Pow2(j + l) {
      FullBlockSize(j, l, r);
    } else {
      CarriedSize(j, l, r);
    }
  }

  lemma DistributeScaled(a: int, h: int, q: int, p: int)
    ensures (a + h * q) * p == a * p + h * (p * q)
  {
    assert (h * q) * p == h * (p * q);
    Factor(a, -(h * q), p);
    assert -(h * q) * p == -((h * q) * p);
  }

  lemma MaskAboveBase(j: nat, l: nat, h: nat)
    requires l > 0
    ensures Mask(j, l, h) == (Pow2(l) - 1) * Pow2(j) + h * Pow2(j + l + 1)
    ensures Successor(j, l, h) == Pow2(l - 1) - 1 + Pow2(j + l) + h * Pow2(j + l + 1)
  {
    Pow2Add(j, l + 1);
    HalfOfPow2(j + l + 1);
    hide Pow2;
    DistributeScaled(Pow2(l) - 1, h, Pow2(l + 1), Pow2(j));
    DistributeScaled(1, h, 2, Pow2(j + l));
    assert Pow2(j + l) * 2 == Pow2(j + l + 1);
    assert 1 + h * 2 == 1 + 2 * h;
  }

  /** The successor is larger, but at most twice as large. */
  lemma SuccessorBounds(j: nat, l: nat, h: nat)
    requires l > 0
    ensures Mask(j, l, h) < Successor(j, l, h) <= 2 * Mask(j, l, h)
  {
    MaskAboveBase(j, l, h);
    Pow2Add(j, l);
    HalfOfPow2(l);
    hide Pow2, Mask, Successor;
    BoundsFrom(Pow2(j), Pow2(l - 1), h * Pow2(j + l + 1));
  }

  lemma BoundsFrom(p: nat, half: nat, b: nat)
    requires p >= 1 && half >= 1
    ensures (2 * half - 1) * p + b < half - 1 + p * (2 * half) + b <= 2 * ((2 * half - 1) * p + b)
  {
    var y := (half - 1) * p;
    ProductMonotone(1, p, half - 1);
    assert (2 * half - 1) * p == 2 * y + p && p * (2 * half) == 2 * y + 2 * p;
  }

  // ----- next_subset

  ghost predicate IsSubset(x: nat, n: nat, s: nat) {
    x < Pow2(n) && PopCount(x) == s
  }

  /** Gosper's Hack.  Steps to the next larger mask of subsize elements, or, after the last one,
      wraps around to the first and returns 1. */
  method NextSubset(subset: nat, elementCount: nat, subsize: nat) returns (next: nat, wrapped: nat)
    requires subset > 0 && elementCount <= 63 && IsSubset(subset, elementCount, subsize)
    ensures wrapped == 0 || wrapped == 1
    ensures wrapped == 0 ==> subset < next && IsSubset(next, elementCount, subsize)
    ensures wrapped == 0 ==> forall y: nat :: subset < y < next ==> !IsSubset(y, elementCount, subsize)
    ensures wrapped == 1 ==> next == Pow2(subsize) - 1
    ensures wrapped == 1 ==> forall y: nat :: subset < y ==> !IsSubset(y, elementCount, subsize)
  {
    GosperStep(subset, elementCount);
    hide Gosper, And, Or, Xor, PopCount, Pow2;
    var tmp1 := LowestBit(subset);
    var tmp2 := (subset + tmp1) % WORD;
    next := Or(Quotient(Quotient(Xor(subset, tmp2), 4), tmp1), tmp2);
    assert next == Gosper(subset) by { GosperIs(subset); }
    wrapped := 0;
    TopBit(next, elementCount);
    AndMask(next, elementCount);
    if And(next, Pow2(elementCount)) != 0 {
      next := Pow2(subsize) - 1;
      wrapped := 1;
    }
  }

  lemma GosperIs(x: nat)
    requires 0 < x < WORD && LowestBit(x) > 0
    ensures var tmp2 := (x + LowestBit(x)) % WORD;
      Gosper(x) == Or(Quotient(Quotient(Xor(x, tmp2), 4), LowestBit(x)), tmp2)
  {
  }

  /** What one step of the computation does to a mask of n elements. */
  lemma GosperStep(x: nat, n: nat)
    requires n <= 63 && 0 < x < Pow2(n)
    ensures x < WORD && LowestBit(x) > 0
    ensures x < Gosper(x) < Pow2(n + 1) && PopCount(Gosper(x)) == PopCount(x)
    ensures forall y: nat :: x < y < Gosper(x) ==> PopCount(y) != PopCount(x)
  {
    WordIsPow2();
    if n < 63 { Pow2Monotone(n, 63); }
    var j, l, h := Shape(x);
    HalfOfPow2(n + 1);
    hide Gosper, Mask, Successor, LowestBit, PopCount, Pow2;
    LowestBitOfMask(j, l, h);
    GosperOfMask(j, l, h);
    SizeOfMask(j, l, h);
    SizeOfSuccessor(j, l, h);
    SuccessorBounds(j, l, h);
    forall y: nat | x < y < Successor(j, l, h) ensures PopCount(y) != PopCount(x) {
      NothingBetween(j, l, h, y);
    }
  }

  // ----- all subsets, each once

  /** The masks that repeated steps visit, from x until the wrap-around. */
  ghost function Orbit(x: nat, n: nat): (o: seq<nat>)
    requires n <= 63 && 0 < x < Pow2(n)
    decreases Pow2(n) - x
  {
    GosperStep(x, n);
    [x] + if Gosper(x) < Pow2(n) then Orbit(Gosper(x), n) else []
  }

  /** Strictly ascending: in particular, without repetition. */
  ghost predicate Ascending(s: seq<nat>) {
    forall i, j :: 0 <= i < j < |s| ==> s[i] < s[j]
  }

  lemma {:induction false} OrbitIsAscending(x: nat, n: nat)
    requires n <= 63 && 0 < x < Pow2(n)
    ensures Ascending(Orbit(x, n))
    ensures forall i :: 0 <= i < |Orbit(x, n)| ==> x <= Orbit(x, n)[i]
    decreases Pow2(n) - x
  {
    GosperStep(x, n);
    hide Gosper, Pow2;
    if Gosper(x) < Pow2(n) { OrbitIsAscending(Gosper(x), n); }
  }

  lemma {:induction false} InOrbit(x: nat, n: nat, y: nat)
    requires n <= 63 && 0 < x < Pow2(n)
    ensures y in Orbit(x, n) <==> x <= y && IsSubset(y, n, PopCount(x))
    decreases Pow2(n) - x
  {
    hide Gosper, Pow2, PopCount;
    GosperStep(x, n);
    if Gosper(x) < Pow2(n) {
      InOrbit(Gosper(x), n, y);
    }
  }

  lemma FirstSubset(n: nat, s: nat)
    requires 0 < s <= n
    ensures 0 < Pow2(s) - 1 && IsSubset(Pow2(s) - 1, n, s)
    ensures forall y: nat :: IsSubset(y, n, s) ==> Pow2(s) - 1 <= y
  {
    if s < n { Pow2Monotone(s, n); }
    PopCountBound(Pow2(s) - 1, s);
    forall y: nat | IsSubset(y, n, s) ensures Pow2(s) - 1 <= y {
      if y < Pow2(s) { PopCountBound(y, s); }
    }
  }

  /** From 2^s - 1 the steps visit every s-element subset of n elements exactly once. */
  lemma EverySubsetOnce(n: nat, s: nat)
    requires 0 < s <= n <= 63
    ensures 0 < Pow2(s) - 1 < Pow2(n)
    ensures forall y: nat :: y in Orbit(Pow2(s) - 1, n) <==> IsSubset(y, n, s)
    ensures Ascending(Orbit(Pow2(s) - 1, n))
  {
    FirstSubset(n, s);
    var x := Pow2(s) - 1;
    hide Orbit, Pow2;
    OrbitIsAscending(x, n);
    forall y: nat ensures y in Orbit(x, n) <==> IsSubset(y, n, s) {
      InOrbit(x, n, y);
    }
  }
}
