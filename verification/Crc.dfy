/** Cyclic redundancy checks: the table-driven loops of crc64_base.c and crc_base.c, and the bit-serial
    ones of crc64_ref.h and crc_ref.h, for any width and polynomial. */
module Crc {
  import opened Arithmetic
  import opened Bits
  import opened BitStream

  // ----- exclusive or as addition

  lemma {:induction false} XorCommutes(a: nat, b: nat)
    ensures Xor(a, b) == Xor(b, a)
    decreases a + b
  {
    if a != 0 || b != 0 { XorCommutes(a / 2, b / 2); }
  }

  lemma {:induction false} XorZero(a: nat)
    ensures Xor(0, a) == a == Xor(a, 0)
  {
    if a != 0 { XorZero(a / 2); }
  }

  lemma {:induction false} XorAssociates(a: nat, b: nat, c: nat)
    ensures Xor(Xor(a, b), c) == Xor(a, Xor(b, c))
    decreases a + b + c
  {
    if a != 0 || b != 0 || c != 0 {
      XorAssociates(a / 2, b / 2, c / 2);
      hide Xor;
      XorHalves(a, b); XorHalves(b, c);
      XorHalves(Xor(a, b), c); XorHalves(a, Xor(b, c));
      XorParity(a, b); XorParity(b, c);
    } else {
      XorZero(0);
    }
  }

  lemma XorParity(a: nat, b: nat)
    ensures Xor(a, b) % 2 == XorBit(a, b) && Xor(a, b) / 2 == Xor(a / 2, b / 2)
  {
    XorHalves(a, b);
  }

  /** Sums of four may be regrouped. */
  lemma XorSwap(a: nat, b: nat, c: nat, d: nat)
    ensures Xor(Xor(a, b), Xor(c, d)) == Xor(Xor(a, c), Xor(b, d))
  {
    hide Xor;
    XorAssociates(a, b, Xor(c, d)); XorAssociates(b, c, d);
    XorCommutes(b, c);
    XorAssociates(c, b, d); XorAssociates(a, c, Xor(b, d));
  }

  lemma XorCancels(a: nat, b: nat)
    ensures Xor(a, b) == 0 <==> a == b
  {
    hide Xor;
    XorSelf(a);
    if Xor(a, b) == 0 {
      XorAssociates(a, a, b);
      XorZero(a); XorZero(b);
    }
  }

  // ----- one bit step

  /** The reflected step: rem = (rem & 1 ? poly : 0) ^ (rem >> 1). */
  function Refl(poly: nat, rem: nat): nat {
    Xor(if rem % 2 == 1 then poly else 0, rem / 2)
  }

  /** Bit k of a word. */
  predicate BitSet(a: nat, k: nat) {
    (a / Pow2(k)) % 2 == 1
  }

  /** rem << 1 on w bits. */
  function Doubled(w: nat, rem: nat): nat {
    (2 * rem) % Pow2(w)
  }

  /** The byte at the top of w bits, and what is left when it is shifted out. */
  function HighByte(w: nat, rem: nat): nat
    requires w >= 8
  {
    Shr(rem, w - 8)
  }

  function ShiftedByte(w: nat, rem: nat): nat {
    (256 * rem) % Pow2(w)
  }

  /** The normal step on w bits: rem = (rem & top ? poly : 0) ^ (rem << 1). */
  function Norm(w: nat, poly: nat, rem: nat): nat
    requires w > 0
  {
    Xor(if BitSet(rem, w - 1) then poly else 0, Doubled(w, rem))
  }

  /** The step of crc_ref.h on a 64-bit accumulator that is never masked. */
  function Unmasked(w: nat, poly: nat, rem: nat): nat {
    var rem1 := (2 * rem) % WORD;
    if BitSet(rem1, w) then Xor(rem1, poly) else rem1
  }

  lemma {:induction false} ReflLinear(poly: nat, a: nat, b: nat)
    ensures Refl(poly, Xor(a, b)) == Xor(Refl(poly, a), Refl(poly, b))
  {
    hide Xor;
    XorParity(a, b);
    var p, q := if a % 2 == 1 then poly else 0, if b % 2 == 1 then poly else 0;
    XorSelf(poly); XorZero(poly); XorSelf(0);
    XorSwap(p, a / 2, q, b / 2);
  }

  lemma ReflBound(w: nat, poly: nat, a: nat)
    requires poly < Pow2(w) && a < Pow2(w)
    ensures Refl(poly, a) < Pow2(w)
  {
    hide Xor, Pow2;
    XorBelow(if a % 2 == 1 then poly else 0, a / 2, w);
  }

  lemma ReflDouble(poly: nat, a: nat)
    ensures Refl(poly, 2 * a) == a
  {
    hide Xor;
    XorZero(a);
  }

  /** No register but 0 steps to 0, if the polynomial has its top bit. */
  lemma ReflNonzero(w: nat, poly: nat, a: nat)
    requires w > 0 && Pow2(w - 1) <= poly < Pow2(w) && 0 < a < Pow2(w)
    ensures Refl(poly, a) > 0
  {
    hide Xor;
    if a % 2 == 1 {
      XorCancels(poly, a / 2);
    } else {
      XorZero(a / 2);
    }
  }

  /** n steps. */
  function ReflSteps(poly: nat, rem: nat, n: nat): nat
    decreases n
  {
    if n == 0 then rem else ReflSteps(poly, Refl(poly, rem), n - 1)
  }

  function NormSteps(w: nat, poly: nat, rem: nat, n: nat): nat
    requires w > 0
    decreases n
  {
    if n == 0 then rem else NormSteps(w, poly, Norm(w, poly, rem), n - 1)
  }

  lemma {:induction false} ReflStepsLinear(poly: nat, a: nat, b: nat, n: nat)
    ensures ReflSteps(poly, Xor(a, b), n) == Xor(ReflSteps(poly, a, n), ReflSteps(poly, b, n))
    decreases n
  {
    hide Xor, Refl;
    if n > 0 {
      ReflLinear(poly, a, b);
      ReflStepsLinear(poly, Refl(poly, a), Refl(poly, b), n - 1);
    }
  }

  lemma {:induction false} ReflStepsShift(poly: nat, a: nat, n: nat)
    ensures ReflSteps(poly, a * Pow2(n), n) == a
    decreases n
  {
    hide Refl;
    if n > 0 {
      DoubleProduct(a, Pow2(n - 1));
      ReflDouble(poly, a * Pow2(n - 1));
      ReflStepsShift(poly, a, n - 1);
    }
  }

  lemma {:induction false} ReflStepsBound(w: nat, poly: nat, a: nat, n: nat)
    requires poly < Pow2(w) && a < Pow2(w)
    ensures ReflSteps(poly, a, n) < Pow2(w)
    decreases n
  {
    hide Refl, Pow2;
    if n > 0 {
      ReflBound(w, poly, a);
      ReflStepsBound(w, poly, Refl(poly, a), n - 1);
    }
  }

  lemma {:induction false} ReflStepsNonzero(w: nat, poly: nat, a: nat, n: nat)
    requires w > 0 && Pow2(w - 1) <= poly < Pow2(w) && 0 < a < Pow2(w)
    ensures 0 < ReflSteps(poly, a, n) < Pow2(w)
    decreases n
  {
    hide Refl, Pow2;
    if n > 0 {
      ReflBound(w, poly, a);
      ReflNonzero(w, poly, a);
      ReflStepsNonzero(w, poly, Refl(poly, a), n - 1);
    }
  }

  // ----- reversing the bits of a register

  /** The w low bits of a in the opposite order. */
  function Rev(w: nat, a: nat): (r: nat)
    ensures r < Pow2(w)
  {
    if w == 0 then 0
    else
      HalfOfPow2(w);
      (if a % 2 == 1 then Pow2(w - 1) else 0) + Rev(w - 1, a / 2)
  }

  lemma RevStep(w: nat, a: nat)
    requires w > 0
    ensures Rev(w, a) == Rev(w - 1, a / 2) + (a % 2) * Pow2(w - 1)
  {
  }

  lemma {:induction false} RevDouble(w: nat, a: nat)
    requires a < Pow2(w)
    ensures Rev(w + 1, a) == 2 * Rev(w, a)
  {
    if w > 0 { RevDouble(w - 1, a / 2); }
  }

  /** A register whose top bit is set, from the low end. */
  lemma {:induction false} RevTop(w: nat, low: nat, top: nat)
    requires low < Pow2(w) && top < 2
    ensures Rev(w + 1, low + top * Pow2(w)) == 2 * Rev(w, low) + top
    decreases w
  {
    if w > 0 {
      DoubleProduct(top, Pow2(w - 1));
      RevTop(w - 1, low / 2, top);
      assert (low + top * Pow2(w)) / 2 == low / 2 + top * Pow2(w - 1);
    }
  }

  lemma {:induction false} RevInvolutive(w: nat, a: nat)
    requires a < Pow2(w)
    ensures Rev(w, Rev(w, a)) == a
  {
    if w > 0 {
      RevInvolutive(w - 1, a / 2);
      RevStep(w, a);
      hide Rev;
      RevTop(w - 1, Rev(w - 1, a / 2), a % 2);
    }
  }

  lemma {:induction false} RevLinear(w: nat, a: nat, b: nat)
    ensures Rev(w, Xor(a, b)) == Xor(Rev(w, a), Rev(w, b))
  {
    hide Xor;
    if w > 0 {
      RevLinear(w - 1, a / 2, b / 2);
      RevTopTerm(w, a); RevTopTerm(w, b); RevTopTerm(w, Xor(a, b));
      hide Rev, Pow2, TopTerm;
      XorParity(a, b);
      XorOfTops(Rev(w - 1, a / 2), Rev(w - 1, b / 2), a, b, w - 1);
    } else {
      XorSelf(0);
    }
  }

  /** The low bit of a, moved to bit w. */
  function TopTerm(a: nat, w: nat): nat {
    (a % 2) * Pow2(w)
  }

  lemma RevTopTerm(w: nat, a: nat)
    requires w > 0
    ensures Rev(w, a) == Rev(w - 1, a / 2) + TopTerm(a, w - 1)
  {
    RevStep(w, a);
  }

  lemma XorOfTops(x: nat, y: nat, a: nat, b: nat, w: nat)
    requires x < Pow2(w) && y < Pow2(w)
    ensures Xor(x + TopTerm(a, w), y + TopTerm(b, w)) == Xor(x, y) + TopTerm(Xor(a, b), w)
  {
    hide Xor, Pow2;
    XorParity(a, b);
    XorOfBits(a % 2, b % 2);
    XorParts(x, y, a % 2, b % 2, w);
  }

  lemma XorOfBits(a: nat, b: nat)
    requires a < 2 && b < 2
    ensures Xor(a, b) == XorBit(a, b)
  {
    assert a / 2 == 0 && b / 2 == 0 && Xor(0, 0) == 0;
    XorHalves(a, b);
  }

  lemma TopIsBitSet(w: nat, a: nat)
    requires w > 0 && a < Pow2(w)
    ensures BitSet(a, w - 1) <==> a >= Pow2(w - 1)
  {
    HalfOfPow2(w);
    hide Pow2;
    var p := Pow2(w - 1);
    if a >= p { DivModUnique(a, 1, a - p, p); } else { DivModUnique(a, 0, a, p); }
  }

  /** The normal step is the reflected one, seen from the other end. */
  lemma NormIsReversedRefl(w: nat, poly: nat, rem: nat)
    requires w > 0 && poly < Pow2(w) && rem < Pow2(w)
    ensures Norm(w, Rev(w, poly), Rev(w, rem)) == Rev(w, Refl(poly, rem))
  {
    hide Xor, BitSet, Pow2;
    HalfOfPow2(w);
    var tail := Rev(w - 1, rem / 2);
    TopIsBitSet(w, Rev(w, rem));
    RevLinear(w, if rem % 2 == 1 then poly else 0, rem / 2);
    RevZero(w);
    RevDouble(w - 1, rem / 2);
    DoubledTop(tail, Pow2(w - 1), rem % 2);
  }

  lemma DoubledTop(tail: nat, half: nat, top: nat)
    requires tail < half && top < 2
    ensures (2 * (top * half + tail)) % (2 * half) == 2 * tail
  {
    DivModUnique(2 * (top * half + tail), top, 2 * tail, 2 * half);
  }

  lemma {:induction false} RevZero(w: nat)
    ensures Rev(w, 0) == 0
  {
    if w > 0 { RevZero(w - 1); }
  }

  lemma {:induction false} NormStepsReversed(w: nat, poly: nat, rem: nat, n: nat)
    requires w > 0 && poly < Pow2(w) && rem < Pow2(w)
    ensures NormSteps(w, Rev(w, poly), Rev(w, rem), n) == Rev(w, ReflSteps(poly, rem, n))
    decreases n
  {
    hide Norm, Refl, Rev, Pow2;
    if n > 0 {
      NormIsReversedRefl(w, poly, rem);
      ReflBound(w, poly, rem);
      NormStepsReversed(w, poly, Refl(poly, rem), n - 1);
    }
  }

  // ----- whole buffers, bit by bit

  /** One CRC of the library: its width and polynomial, the order of its bits, and whether seed and
      result are complemented. */
  datatype Algorithm = Algorithm(width: nat, poly: nat, reflected: bool, inverted: bool)

  /** The polynomial fits, and it has the coefficient that shifts a bit in. */
  ghost predicate ValidAlgorithm(g: Algorithm) {
    && 8 <= g.width <= 64 && g.poly < Pow2(g.width)
    && (if g.reflected then Pow2(g.width - 1) <= g.poly else g.poly % 2 == 1)
  }

  function ByteStep(g: Algorithm, rem: nat, byte: Octet): nat
    requires g.width >= 8
  {
    if g.reflected then ReflSteps(g.poly, Xor(rem, byte), 8)
    else NormSteps(g.width, g.poly, Xor(rem, byte * Pow2(g.width - 8)), 8)
  }

  function Run(g: Algorithm, rem: nat, buf: seq<Octet>): nat
    requires g.width >= 8
    decreases |buf|
  {
    if buf == [] then rem else Run(g, ByteStep(g, rem, buf[0]), buf[1..])
  }

  function Complement(w: nat, a: nat): nat {
    if a < Pow2(w) then Pow2(w) - 1 - a else 0
  }

  function Ends(g: Algorithm, a: nat): nat {
    if g.inverted then Complement(g.width, a) else a
  }

  /** The CRC of a buffer by definition: byte by byte, bit by bit. */
  function CrcOf(g: Algorithm, seed: nat, buf: seq<Octet>): nat
    requires g.width >= 8
  {
    Ends(g, Run(g, Ends(g, seed), buf))
  }

  lemma {:induction false} NormStepsBound(w: nat, poly: nat, a: nat, n: nat)
    requires w > 0 && poly < Pow2(w) && a < Pow2(w)
    ensures NormSteps(w, poly, a, n) < Pow2(w)
    decreases n
  {
    hide Norm, Pow2;
    if n > 0 {
      NormBound(w, poly, a);
      NormStepsBound(w, poly, Norm(w, poly, a), n - 1);
    }
  }

  lemma NormBound(w: nat, poly: nat, a: nat)
    requires w > 0 && poly < Pow2(w)
    ensures Norm(w, poly, a) < Pow2(w)
  {
    hide Xor, Pow2, BitSet;
    XorBelow(if BitSet(a, w - 1) then poly else 0, Doubled(w, a), w);
  }

  /** A byte moved to the top of a register. */
  lemma TopByte(w: nat, byte: nat)
    requires w >= 8 && byte < 256
    ensures byte * Pow2(w - 8) < Pow2(w) == 256 * Pow2(w - 8)
  {
    Pow2Eight();
    Pow2Add(8, w - 8);
    hide Pow2;
    SmallerProduct(byte, 256, Pow2(w - 8));
  }

  lemma ByteBelow(w: nat, byte: nat)
    requires w >= 8 && byte < 256
    ensures byte < Pow2(w)
  {
    Pow2Eight();
    Pow2AtMost(8, w);
  }

  lemma ByteStepBound(g: Algorithm, rem: nat, byte: Octet)
    requires g.width >= 8 && g.poly < Pow2(g.width) && rem < Pow2(g.width)
    ensures ByteStep(g, rem, byte) < Pow2(g.width)
  {
    hide Pow2, Xor, ReflSteps, NormSteps;
    var w := g.width;
    TopByte(w, byte);
    ByteBelow(w, byte);
    if g.reflected {
      XorBelow(rem, byte, w);
      ReflStepsBound(w, g.poly, Xor(rem, byte), 8);
    } else {
      XorBelow(rem, byte * Pow2(w - 8), w);
      NormStepsBound(w, g.poly, Xor(rem, byte * Pow2(w - 8)), 8);
    }
  }

  lemma {:induction false} RunBound(g: Algorithm, rem: nat, buf: seq<Octet>)
    requires g.width >= 8 && g.poly < Pow2(g.width) && rem < Pow2(g.width)
    ensures Run(g, rem, buf) < Pow2(g.width)
    decreases |buf|
  {
    hide Pow2, ByteStep;
    if buf != [] {
      ByteStepBound(g, rem, buf[0]);
      RunBound(g, ByteStep(g, rem, buf[0]), buf[1..]);
    }
  }

  lemma {:induction false} RunAppend(g: Algorithm, rem: nat, a: seq<Octet>, b: seq<Octet>)
    requires g.width >= 8
    ensures Run(g, rem, a + b) == Run(g, Run(g, rem, a), b)
    decreases |a|
  {
    hide ByteStep;
    if a == [] {
      assert a + b == b;
    } else {
      assert (a + b)[1..] == a[1..] + b;
      RunAppend(g, ByteStep(g, rem, a[0]), a[1..], b);
    }
  }

  lemma ComplementTwice(w: nat, a: nat)
    requires a < Pow2(w)
    ensures Complement(w, a) < Pow2(w) && Complement(w, Complement(w, a)) == a
  {
  }

  /** Chaining: a second call seeded with the result of the first continues it. */
  lemma CrcChains(g: Algorithm, seed: nat, a: seq<Octet>, b: seq<Octet>)
    requires g.width >= 8 && g.poly < Pow2(g.width) && seed < Pow2(g.width)
    ensures CrcOf(g, CrcOf(g, seed, a), b) == CrcOf(g, seed, a + b) < Pow2(g.width)
  {
    hide Run, Pow2;
    ComplementTwice(g.width, seed);
    RunBound(g, Ends(g, seed), a);
    RunBound(g, Ends(g, seed), a + b);
    ComplementTwice(g.width, Run(g, Ends(g, seed), a));
    ComplementTwice(g.width, Run(g, Ends(g, seed), a + b));
    RunAppend(g, Ends(g, seed), a, b);
  }

  // ----- the table

  /** Entry b of the table: eight bit steps of b. */
  function TableEntry(g: Algorithm, b: Octet): nat
    requires g.width >= 8
  {
    if g.reflected then ReflSteps(g.poly, b, 8) else NormSteps(g.width, g.poly, b * Pow2(g.width - 8), 8)
  }

  /** XorParts with the high parts named by Shl. */
  lemma XorOfParts(low: nat, low': nat, high: nat, high': nat, n: nat)
    requires low < Pow2(n) && low' < Pow2(n)
    ensures Xor(low + Shl(high, n), low' + Shl(high', n)) == Xor(low, low') + Shl(Xor(high, high'), n)
    ensures Shl(0, n) == 0
  {
    hide Xor, Pow2;
    XorParts(low, low', high, high', n);
  }

  lemma SplitByte(a: nat, byte: Octet)
    ensures Xor(a, byte) == Xor(Xor(a % 256, byte), (a / 256) * Pow2(8)) && Xor(a % 256, byte) < 256
  {
    Pow2Eight();
    hide Xor, Pow2;
    var hi, lo := a / 256, a % 256;
    XorBelow(lo, byte, 8);
    XorOfParts(lo, byte, hi, 0, 8);
    XorOfParts(Xor(lo, byte), 0, 0, hi, 8);
    XorZero(hi); XorZero(Xor(lo, byte));
  }

  /** One look-up does eight reflected steps. */
  lemma ReflTableStep(g: Algorithm, rem: nat, byte: Octet)
    requires g.width >= 8 && g.reflected
    ensures Xor(rem % 256, byte) < 256
    ensures Xor(TableEntry(g, Xor(rem % 256, byte)), rem / 256) == ByteStep(g, rem, byte)
  {
    hide Xor, Pow2, ReflSteps;
    SplitByte(rem, byte);
    ReflStepsLinear(g.poly, Xor(rem % 256, byte), (rem / 256) * Pow2(8), 8);
    ReflStepsShift(g.poly, rem / 256, 8);
  }

  lemma NormLinear(w: nat, poly: nat, a: nat, b: nat)
    requires w > 0 && poly < Pow2(w) && a < Pow2(w) && b < Pow2(w)
    ensures Norm(w, poly, Xor(a, b)) == Xor(Norm(w, poly, a), Norm(w, poly, b))
  {
    hide Norm, Refl, Rev, Xor, Pow2;
    var p, x, y := Rev(w, poly), Rev(w, a), Rev(w, b);
    RevInvolutive(w, poly); RevInvolutive(w, a); RevInvolutive(w, b);
    XorBelow(x, y, w);
    NormIsReversedRefl(w, p, x); NormIsReversedRefl(w, p, y); NormIsReversedRefl(w, p, Xor(x, y));
    RevLinear(w, x, y);
    ReflLinear(p, x, y);
    RevLinear(w, Refl(p, x), Refl(p, y));
  }

  lemma {:induction false} NormStepsLinear(w: nat, poly: nat, a: nat, b: nat, n: nat)
    requires w > 0 && poly < Pow2(w) && a < Pow2(w) && b < Pow2(w)
    ensures NormSteps(w, poly, Xor(a, b), n) == Xor(NormSteps(w, poly, a, n), NormSteps(w, poly, b, n))
    decreases n
  {
    hide Norm, Xor, Pow2;
    if n > 0 {
      NormLinear(w, poly, a, b);
      NormBound(w, poly, a); NormBound(w, poly, b);
      NormStepsLinear(w, poly, Norm(w, poly, a), Norm(w, poly, b), n - 1);
    }
  }

  /** While the top bits are 0, steps only shift. */
  lemma {:induction false} NormStepsShift(w: nat, poly: nat, a: nat, n: nat)
    requires n <= w && w > 0 && a < Pow2(w - n)
    ensures NormSteps(w, poly, a, n) == a * Pow2(n)
    decreases n
  {
    hide Norm;
    if n > 0 {
      NormDouble(w, poly, a, n);
      NormStepsShift(w, poly, 2 * a, n - 1);
      HalfOfPow2(n);
      hide Pow2;
      DoubleFactor(a, Pow2(n - 1));
    }
  }

  lemma NormDouble(w: nat, poly: nat, a: nat, n: nat)
    requires 0 < n <= w && a < Pow2(w - n)
    ensures Norm(w, poly, a) == 2 * a < Pow2(w - (n - 1))
  {
    hide Pow2, Xor, BitSet;
    HalfOfPow2(w - n + 1);
    Pow2AtMost(w - n + 1, w);
    Pow2AtMost(w - n, w - 1);
    TopIsBitSet(w, a);
    SmallModulo(2 * a, Pow2(w));
    XorZero(2 * a);
  }

  lemma SplitTopByte(w: nat, rem: nat, byte: Octet)
    requires w >= 8 && rem < Pow2(w)
    ensures HighByte(w, rem) < 256 && LowPart(w, rem) < Pow2(w - 8) <= Pow2(w)
    ensures Xor(HighByte(w, rem), byte) < 256
    ensures Xor(rem, Shl(byte, w - 8)) == Xor(Shl(Xor(HighByte(w, rem), byte), w - 8), LowPart(w, rem))
    ensures ShiftedByte(w, rem) == 256 * LowPart(w, rem)
  {
    TopByteParts(w, rem);
    Pow2AtMost(w - 8, w);
    hide Pow2, Xor, Shl, HighByte, LowPart, ShiftedByte;
    XorTopByte(w, HighByte(w, rem), LowPart(w, rem), byte);
  }

  lemma XorTopByte(w: nat, hi: nat, lo: nat, byte: Octet)
    requires w >= 8 && hi < 256 && lo < Pow2(w - 8)
    ensures Xor(hi, byte) < 256
    ensures Xor(lo + Shl(hi, w - 8), Shl(byte, w - 8)) == Xor(Shl(Xor(hi, byte), w - 8), lo)
  {
    Pow2Eight();
    hide Pow2, Xor, Shl;
    var top := Xor(hi, byte);
    XorBelow(hi, byte, 8);
    XorZero(lo); XorZero(top);
    XorOfParts(lo, 0, hi, byte, w - 8);
    XorOfParts(0, lo, top, 0, w - 8);
  }

  /** What is below the top byte of w bits. */
  function LowPart(w: nat, rem: nat): nat
    requires w >= 8
  {
    rem % Pow2(w - 8)
  }

  lemma TopByteParts(w: nat, rem: nat)
    requires w >= 8 && rem < Pow2(w)
    ensures HighByte(w, rem) < 256 && LowPart(w, rem) < Pow2(w - 8)
    ensures rem == LowPart(w, rem) + Shl(HighByte(w, rem), w - 8)
    ensures ShiftedByte(w, rem) == 256 * LowPart(w, rem)
  {
    Pow2Eight();
    Pow2Add(8, w - 8);
    hide Pow2;
    TopByteOf(rem, Pow2(w - 8));
  }

  lemma TopByteOf(rem: nat, p: nat)
    requires p > 0 && rem < 256 * p
    ensures rem / p < 256 && 0 <= rem % p < p && rem == rem % p + (rem / p) * p
    ensures (256 * rem) % (256 * p) == (rem % p) * 256
  {
    QuotientBelow(rem, 256, p);
    var hi, lo := rem / p, rem % p;
    assert rem == lo + hi * p;
    DivModUnique(256 * rem, hi, lo * 256, 256 * p);
  }

  lemma QuotientBelow(a: nat, b: nat, p: nat)
    requires p > 0 && a < b * p
    ensures a / p < b
  {
    if a / p >= b { ProductMonotone(b, a / p, p); }
  }

  /** One look-up does eight normal steps. */
  lemma NormTableStep(g: Algorithm, rem: nat, byte: Octet)
    requires g.width >= 8 && !g.reflected && g.poly < Pow2(g.width) && rem < Pow2(g.width)
    ensures Xor(HighByte(g.width, rem), byte) < 256
    ensures Xor(TableEntry(g, Xor(HighByte(g.width, rem), byte)), ShiftedByte(g.width, rem)) == ByteStep(g, rem, byte)
  {
    hide Xor, Pow2, NormSteps, HighByte, LowPart, ShiftedByte;
    var w := g.width;
    SplitTopByte(w, rem, byte);
    var hi, lo := Xor(HighByte(w, rem), byte), LowPart(w, rem);
    TopByte(w, hi);
    NormStepsLinear(w, g.poly, Shl(hi, w - 8), lo, 8);
    NormStepsShift(w, g.poly, lo, 8);
    Pow2Eight();
  }
}
