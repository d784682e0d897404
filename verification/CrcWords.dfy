/** CRC registers as machine words, on which the steps of a CRC can be evaluated. */
module CrcWords {
  import opened Bits
  import opened Crc
  import opened CrcFamilies

  // ----- words and their values

  function LowBit(w: bv64): (b: nat)
    ensures b < 2
  {
    if w & 1 == 1 then 1 else 0
  }

  function Half(w: bv64): (h: bv64)
    ensures w != 0 ==> h < w
  {
    w >> 1
  }

  function WordXor(x: bv64, y: bv64): bv64 {
    x ^ y
  }

  function Value(w: bv64): nat
    decreases w
  {
    if w == 0 then 0 else LowBit(w) + 2 * Value(Half(w))
  }

  lemma ValueHalves(w: bv64)
    ensures Value(w) == LowBit(w) + 2 * Value(Half(w))
  {
    if w == 0 { assert Half(w) == 0; }
  }

  lemma ValueZero()
    ensures Value(0) == 0 && WordXor(0, 0) == 0
  {
  }

  lemma {:induction false} OnlyZero(w: bv64)
    requires Value(w) == 0
    ensures w == 0
    decreases w
  {
    if w != 0 {
      OnlyZero(Half(w));
      assert w & 1 == 0;
      OneHalf(w);
    }
  }

  lemma OneHalf(w: bv64)
    requires Half(w) == 0 && w & 1 == 0
    ensures w == 0
  {
  }

  lemma WordXorHalves(x: bv64, y: bv64)
    ensures Half(WordXor(x, y)) == WordXor(Half(x), Half(y))
    ensures LowBit(WordXor(x, y)) == XorBit(LowBit(x), LowBit(y))
  {
  }

  lemma {:induction false} XorIsWordXor(x: bv64, y: bv64)
    ensures Xor(Value(x), Value(y)) == Value(WordXor(x, y))
    decreases Value(x) + Value(y)
  {
    hide Value, LowBit, Half, WordXor, Xor;
    ValueHalves(x); ValueHalves(y);
    if Value(x) + Value(y) > 0 {
      XorIsWordXor(Half(x), Half(y));
      XorOfValues(x, y);
    } else {
      OnlyZero(x); OnlyZero(y);
      ValueZero();
      XorSelf(0);
    }
  }

  lemma XorOfValues(x: bv64, y: bv64)
    requires Xor(Value(Half(x)), Value(Half(y))) == Value(WordXor(Half(x), Half(y)))
    ensures Xor(Value(x), Value(y)) == Value(WordXor(x, y))
  {
    hide Value, LowBit, Half, WordXor, Xor, XorBit;
    WordXorHalves(x, y);
    ValueHalves(x); ValueHalves(y); ValueHalves(WordXor(x, y));
    XorOfSums(LowBit(x), Value(Half(x)), LowBit(y), Value(Half(y)));
  }

  lemma XorOfSums(a: nat, high: nat, b: nat, high': nat)
    requires a < 2 && b < 2
    ensures Xor(a + 2 * high, b + 2 * high') == XorBit(a, b) + 2 * Xor(high, high')
  {
    hide Xor;
    XorHalves(a + 2 * high, b + 2 * high');
  }

  /** Refl without a branch. */
  /** Refl without a branch. */
  /** Refl without a branch. */
  /** Refl without a branch. */
  /** Refl without a branch. */
  /** Refl without a branch. */
  function Step(p: bv64, r: bv64): bv64 {
    (r >> 1) ^ (p & (0 - (r & 1)))
  }

  lemma StepBranches(p: bv64, r: bv64)
    ensures Step(p, r) == WordXor(if LowBit(r) == 1 then p else 0, Half(r))
  {
    assert r & 1 == 0 || r & 1 == 1;
    assert r & 1 == 1 ==> 0 - (r & 1) == 0xFFFF_FFFF_FFFF_FFFF;
  }

  lemma StepIs(p: bv64, r: bv64)
    ensures Refl(Value(p), Value(r)) == Value(Step(p, r))
  {
    hide Value, LowBit, Half, WordXor, Xor, Step;
    StepBranches(p, r);
    ValueZero();
    ValueHalves(r);
    XorIsWordXor(if LowBit(r) == 1 then p else 0, Half(r));
  }

  function FourSteps(p: bv64, r: bv64): bv64 {
    Step(p, Step(p, Step(p, Step(p, r))))
  }

  lemma FourStepsIs(p: bv64, r: bv64)
    ensures ReflSteps(Value(p), Value(r), 4) == Value(FourSteps(p, r))
  {
    hide Value, Step, Refl;
    StepIs(p, r);
    StepIs(p, Step(p, r));
    StepIs(p, Step(p, Step(p, r)));
    StepIs(p, Step(p, Step(p, Step(p, r))));
  }

  function EightSteps(p: bv64, r: bv64): bv64 {
    Step(p, Step(p, Step(p, Step(p, Step(p, Step(p, Step(p, Step(p, r))))))))
  }

  function ManySteps(p: bv64, r: bv64): bv64 {
    EightSteps(p, EightSteps(p, EightSteps(p, EightSteps(p, r))))
  }

  lemma {:induction false} StepsAdd(poly: nat, rem: nat, m: nat, n: nat)
    ensures ReflSteps(poly, rem, m + n) == ReflSteps(poly, ReflSteps(poly, rem, m), n)
    decreases m
  {
    hide Refl;
    if m > 0 { StepsAdd(poly, Refl(poly, rem), m - 1, n); }
  }

  lemma EightStepsIs(p: bv64, r: bv64)
    ensures ReflSteps(Value(p), Value(r), 8) == Value(EightSteps(p, r))
  {
    hide Value, Step, ReflSteps;
    FourStepsIs(p, r);
    FourStepsIs(p, FourSteps(p, r));
    StepsAdd(Value(p), Value(r), 4, 4);
  }

  lemma ManyStepsAre(p: bv64, r: bv64)
    ensures ReflSteps(Value(p), Value(r), 32) == Value(ManySteps(p, r))
    ensures ReflSteps(Value(p), Value(r), 64) == Value(ManySteps(p, ManySteps(p, r)))
  {
    hide Value, ManySteps, ReflSteps;
    ManyOnce(p, r);
    ManyOnce(p, ManySteps(p, r));
    StepsAdd(Value(p), Value(r), 32, 32);
  }

  lemma ManyOnce(p: bv64, r: bv64)
    ensures ReflSteps(Value(p), Value(r), 32) == Value(ManySteps(p, r))
  {
    hide Value, EightSteps, ReflSteps;
    var s := EightSteps(p, r);
    var t := EightSteps(p, s);
    var u := EightSteps(p, t);
    EightStepsIs(p, r); EightStepsIs(p, s); EightStepsIs(p, t); EightStepsIs(p, u);
    StepsAdd(Value(p), Value(r), 8, 24);
    StepsAdd(Value(p), Value(s), 8, 16);
    StepsAdd(Value(p), Value(t), 8, 8);
  }

  // ----- their values

  /** The value of the low 4, 8, 16, 32 and 64 bits, spelled out. */
  function Low4(w: bv64): nat { LowBit(w) + 2 * LowBit(w >> 1) + 4 * LowBit(w >> 2) + 8 * LowBit(w >> 3) }
  function Low8(w: bv64): nat { ((w & 0xff) as bv8) as int }
  function Low16(w: bv64): nat { Low8(w) + 0x100 * Low8(w >> 8) }
  function Low32(w: bv64): nat { Low16(w) + 0x1_0000 * Low16(w >> 16) }
  function Low64(w: bv64): nat { Low32(w) + 0x1_0000_0000 * Low32(w >> 32) }

  lemma FourHalves(w: bv64)
    ensures Half(w) == w >> 1 && Half(w >> 1) == w >> 2 && Half(w >> 2) == w >> 3 && Half(w >> 3) == w >> 4
  {
  }

  lemma FourValues(w: bv64, w1: bv64, w2: bv64, w3: bv64, w4: bv64)
    requires Half(w) == w1 && Half(w1) == w2 && Half(w2) == w3 && Half(w3) == w4
    ensures Value(w) == LowBit(w) + 2 * LowBit(w1) + 4 * LowBit(w2) + 8 * LowBit(w3) + 0x10 * Value(w4)
  {
    hide Value, LowBit, Half;
    ValueHalves(w); ValueHalves(w1); ValueHalves(w2); ValueHalves(w3);
  }

  lemma ValueLow4(w: bv64)
    ensures Value(w) == Low4(w) + 0x10 * Value(w >> 4)
  {
    hide Value, LowBit, Half;
    FourHalves(w);
    FourValues(w, w >> 1, w >> 2, w >> 3, w >> 4);
  }

  lemma Low8Is(w: bv64)
    ensures Low8(w) == Low4(w) + 0x10 * Low4(w >> 4)
  {
  }

  lemma ValueLow8(w: bv64)
    ensures Value(w) == Low8(w) + 0x100 * Value(w >> 8)
  {
    hide Value, Low4, Low8;
    assert (w >> 4) >> 4 == w >> 8;
    ValueLow4(w); ValueLow4(w >> 4);
    Low8Is(w);
  }

  lemma ValueLow16(w: bv64)
    ensures Value(w) == Low16(w) + 0x1_0000 * Value(w >> 16)
  {
    hide Value, Low8;
    assert (w >> 8) >> 8 == w >> 16;
    ValueLow8(w); ValueLow8(w >> 8);
  }

  lemma ValueLow32(w: bv64)
    ensures Value(w) == Low32(w) + 0x1_0000_0000 * Value(w >> 32)
  {
    hide Value, Low16;
    assert (w >> 16) >> 16 == w >> 32;
    ValueLow16(w); ValueLow16(w >> 16);
  }

  lemma ValueIs(w: bv64)
    ensures Value(w) == Low64(w)
  {
    hide Value, Low32;
    assert (w >> 32) >> 32 == 0;
    ValueZero();
    ValueLow32(w); ValueLow32(w >> 32);
  }

  lemma ByteValue(a: bv64)
    requires a < 0x100
    ensures Value(a) == Low8(a)
  {
    hide Value, Low8;
    assert a >> 8 == 0;
    ValueZero();
    ValueLow8(a);
  }

  // ----- reversal

  /** Rev, computed from the low end. */
  function RevInto(w: nat, a: nat, acc: nat): nat {
    if w == 0 then acc else RevInto(w - 1, a / 2, 2 * acc + a % 2)
  }

  lemma {:induction false} RevIntoIs(w: nat, a: nat, acc: nat)
    ensures RevInto(w, a, acc) == Rev(w, a) + acc * Pow2(w)
    decreases w
  {
    if w > 0 {
      RevIntoIs(w - 1, a / 2, 2 * acc + a % 2);
      RevStep(w, a);
      HalfOfPow2(w);
      hide Pow2, Rev;
      ShiftedSum(acc, a % 2, Pow2(w - 1));
    }
  }

  lemma ShiftedSum(a: nat, b: nat, p: nat)
    ensures (2 * a + b) * p == a * (2 * p) + b * p
  {
  }

  lemma RevComputed(w: nat, a: nat)
    ensures Rev(w, a) == RevInto(w, a, 0)
  {
    RevIntoIs(w, a, 0);
  }

  /** Rev of the low 4, 8, 16, 32 and 64 bits, spelled out. */
  function Turned4(w: bv64): nat { 8 * LowBit(w) + 4 * LowBit(w >> 1) + 2 * LowBit(w >> 2) + LowBit(w >> 3) }
  function Turned8(w: bv64): nat { 0x10 * Turned4(w) + Turned4(w >> 4) }
  function Turned16(w: bv64): nat { 0x100 * Turned8(w) + Turned8(w >> 8) }
  function Turned32(w: bv64): nat { 0x1_0000 * Turned16(w) + Turned16(w >> 16) }
  function Turned64(w: bv64): nat { 0x1_0000_0000 * Turned32(w) + Turned32(w >> 32) }

  lemma RevOnWord(n: nat, w: bv64, acc: nat)
    requires n > 0
    ensures RevInto(n, Value(w), acc) == RevInto(n - 1, Value(Half(w)), 2 * acc + LowBit(w))
  {
    ValueHalves(w);
    hide Value, LowBit, Half;
  }

  lemma RevOn4(n: nat, w: bv64, acc: nat)
    requires n >= 4
    ensures RevInto(n, Value(w), acc) == RevInto(n - 4, Value(w >> 4), 0x10 * acc + Turned4(w))
  {
    hide Value, LowBit, Half, RevInto;
    FourHalves(w);
    var acc1 := 2 * acc + LowBit(w);
    var acc2 := 2 * acc1 + LowBit(w >> 1);
    RevOnWord(n, w, acc);
    RevOnWord(n - 1, w >> 1, acc1);
    RevOnWord(n - 2, w >> 2, acc2);
    RevOnWord(n - 3, w >> 3, 2 * acc2 + LowBit(w >> 2));
  }

  lemma RevOn8(n: nat, w: bv64, acc: nat)
    requires n >= 8
    ensures RevInto(n, Value(w), acc) == RevInto(n - 8, Value(w >> 8), 0x100 * acc + Turned8(w))
  {
    hide Value, Turned4, RevInto;
    assert (w >> 4) >> 4 == w >> 8;
    RevOn4(n, w, acc); RevOn4(n - 4, w >> 4, 0x10 * acc + Turned4(w));
  }

  lemma RevOn16(n: nat, w: bv64, acc: nat)
    requires n >= 16
    ensures RevInto(n, Value(w), acc) == RevInto(n - 16, Value(w >> 16), 0x1_0000 * acc + Turned16(w))
  {
    hide Value, Turned8, RevInto;
    assert (w >> 8) >> 8 == w >> 16;
    RevOn8(n, w, acc); RevOn8(n - 8, w >> 8, 0x100 * acc + Turned8(w));
  }

  lemma RevOn32(n: nat, w: bv64, acc: nat)
    requires n >= 32
    ensures RevInto(n, Value(w), acc) == RevInto(n - 32, Value(w >> 32), 0x1_0000_0000 * acc + Turned32(w))
  {
    hide Value, Turned16, RevInto;
    assert (w >> 16) >> 16 == w >> 32;
    RevOn16(n, w, acc); RevOn16(n - 16, w >> 16, 0x1_0000 * acc + Turned16(w));
  }

  lemma RevIntoEnds(a: nat, acc: nat)
    ensures RevInto(0, a, acc) == acc
  {
  }

  lemma TurnedIs(w: bv64)
    ensures Rev(8, Low64(w)) == Turned8(w)
    ensures Rev(16, Low64(w)) == Turned16(w)
    ensures Rev(32, Low64(w)) == Turned32(w)
  {
    hide Value, Rev, RevInto, Turned8, Turned16, Turned32, Low64;
    ValueIs(w);
    RevComputed(8, Value(w)); RevOn8(8, w, 0); RevIntoEnds(Value(w >> 8), Turned8(w));
    RevComputed(16, Value(w)); RevOn16(16, w, 0); RevIntoEnds(Value(w >> 16), Turned16(w));
    RevComputed(32, Value(w)); RevOn32(32, w, 0); RevIntoEnds(Value(w >> 32), Turned32(w));
  }

  lemma WideTurnedIs(w: bv64)
    ensures Rev(64, Low64(w)) == Turned64(w)
  {
    hide Value, Rev, RevInto, Turned32, Low64;
    ValueIs(w);
    RevComputed(64, Value(w)); RevOn32(64, w, 0); RevOn32(32, w >> 32, Turned32(w));
    RevIntoEnds(Value((w >> 32) >> 32), Turned64(w));
  }

  lemma EcmaMirrored()
    ensures Rev(64, 0xC96C5795D7870F42) == 0x42F0E1EBA9EA3693
  {
    assert Low64(0xC96C5795D7870F42) == 0xC96C5795D7870F42;
    assert Turned32(0xC96C5795D7870F42) == 0x42F0E1EB;
    assert Turned32(0xC96C5795) == 0xA9EA3693;
    hide Rev, Turned32, Low64;
    WideTurnedIs(0xC96C5795D7870F42);
  }

  lemma IsoMirrored()
    ensures Rev(64, 0xD800000000000000) == 0x1B
  {
    assert Low64(0xD800000000000000) == 0xD800000000000000;
    assert Turned32(0xD800000000000000) == 0x0;
    assert Turned32(0xD8000000) == 0x1B;
    hide Rev, Turned32, Low64;
    WideTurnedIs(0xD800000000000000);
  }

  lemma JonesMirrored()
    ensures Rev(64, 0x95AC9329AC4BC9B5) == 0xAD93D23594C935A9
  {
    assert Low64(0x95AC9329AC4BC9B5) == 0x95AC9329AC4BC9B5;
    assert Turned32(0x95AC9329AC4BC9B5) == 0xAD93D235;
    assert Turned32(0x95AC9329) == 0x94C935A9;
    hide Rev, Turned32, Low64;
    WideTurnedIs(0x95AC9329AC4BC9B5);
  }

  lemma RocksoftMirrored()
    ensures Rev(64, 0x9A6C9329AC4BC9B5) == 0xAD93D23594C93659
  {
    assert Low64(0x9A6C9329AC4BC9B5) == 0x9A6C9329AC4BC9B5;
    assert Turned32(0x9A6C9329AC4BC9B5) == 0xAD93D235;
    assert Turned32(0x9A6C9329) == 0x94C93659;
    hide Rev, Turned32, Low64;
    WideTurnedIs(0x9A6C9329AC4BC9B5);
  }

  lemma GzipMirrored()
    ensures Rev(32, 0xEDB88320) == 0x04C11DB7
  {
    assert Low64(0xEDB88320) == 0xEDB88320 && Turned32(0xEDB88320) == 0x04C11DB7;
    hide Rev, Turned8, Turned16, Turned32, Low64;
    TurnedIs(0xEDB88320);
  }

  /** The pairs of the library are mirror images. */
  lemma MirrorPairs()
    ensures Mirror(ECMA_REFL) == ECMA_NORM && Mirror(ISO_REFL) == ISO_NORM && Mirror(JONES_REFL) == JONES_NORM
    ensures Mirror(ROCKSOFT_REFL) == ROCKSOFT_NORM && Mirror(GZIP_REFL) == IEEE
  {
    hide Rev;
    EcmaMirrored(); IsoMirrored(); JonesMirrored(); RocksoftMirrored(); GzipMirrored();
  }
}
