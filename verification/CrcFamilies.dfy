/** The CRCs of the library: their loops, the relation between the reflected and the normal ones, and the
    errors that they detect. */
module CrcFamilies {
  import opened Arithmetic
  import opened Bits
  import opened BitStream
  import opened Crc

  // ----- the algorithms

  const ECMA_REFL := Algorithm(64, 0xC96C5795D7870F42, true, true)
  const ECMA_NORM := Algorithm(64, 0x42F0E1EBA9EA3693, false, true)
  const ISO_REFL := Algorithm(64, 0xD800000000000000, true, true)
  const ISO_NORM := Algorithm(64, 0x000000000000001B, false, true)
  const JONES_REFL := Algorithm(64, 0x95ac9329ac4bc9b5, true, true)
  const JONES_NORM := Algorithm(64, 0xad93d23594c935a9, false, true)
  const ROCKSOFT_REFL := Algorithm(64, 0x9a6c9329ac4bc9b5, true, true)
  const ROCKSOFT_NORM := Algorithm(64, 0xad93d23594c93659, false, true)
  const T10DIF := Algorithm(16, 0x8bb7, false, false)
  const ISCSI := Algorithm(32, 0x82F63B78, true, false)
  const IEEE := Algorithm(32, 0x04C11DB7, false, true)
  const GZIP_REFL := Algorithm(32, 0xEDB88320, true, true)

  const ALGORITHMS: seq<Algorithm> := [ECMA_REFL, ECMA_NORM, ISO_REFL, ISO_NORM, JONES_REFL, JONES_NORM,
    ROCKSOFT_REFL, ROCKSOFT_NORM, T10DIF, ISCSI, IEEE, GZIP_REFL]

  lemma Powers()
    ensures Pow2(16) == 0x1_0000 && Pow2(32) == 0x1_0000_0000 && Pow2(64) == WORD
    ensures Pow2(15) == 0x8000 && Pow2(31) == 0x8000_0000 && Pow2(63) == 0x8000_0000_0000_0000
  {
    HalfOfPow2(16); HalfOfPow2(32);
    hide Pow2;
    WordIsPow2();
    Pow2Eight();
    Pow2Add(8, 8);
    Pow2Add(16, 16);
  }

  /** Every one of them has a usable polynomial. */
  lemma AllValid(g: Algorithm)
    requires g in ALGORITHMS
    ensures ValidAlgorithm(g) && (g.width == 16 || g.width == 32 || g.width == 64)
  {
    Powers();
    hide Pow2;
  }

  // ----- the loops

  /** The table of 256 entries. */
  function Table(g: Algorithm): (t: seq<nat>)
    requires g.width >= 8
    ensures |t| == 256
  {
    seq(256, b requires 0 <= b < 256 => TableEntry(g, b))
  }

  /** table[(uint8_t) crc ^ byte] ^ (crc >> 8) */
  function ReflLookUp(table: seq<nat>, crc: nat, byte: Octet): nat
    requires |table| == 256
  {
    SplitByte(crc, byte);
    Xor(table[Xor(crc % 256, byte)], crc / 256)
  }

  /** table[((crc >> (w - 8)) ^ byte) & 0xff] ^ (crc << 8), on w bits */
  function NormLookUp(w: nat, table: seq<nat>, crc: nat, byte: Octet): nat
    requires |table| == 256 && w >= 8
  {
    Xor(table[LowByte(Xor(HighByte(w, crc), byte))], ShiftedByte(w, crc))
  }

  function LowByte(a: nat): (b: nat)
    ensures b < 256
  {
    a % 256
  }

  lemma ReflLookUpSteps(g: Algorithm, crc: nat, byte: Octet)
    requires ValidAlgorithm(g) && g.reflected && crc < Pow2(g.width)
    ensures ReflLookUp(Table(g), crc, byte) == ByteStep(g, crc, byte) < Pow2(g.width)
  {
    hide Pow2, ByteStep, TableEntry, Xor;
    ReflTableStep(g, crc, byte);
    ByteStepBound(g, crc, byte);
  }

  lemma NormLookUpSteps(g: Algorithm, crc: nat, byte: Octet)
    requires ValidAlgorithm(g) && !g.reflected && crc < Pow2(g.width)
    ensures NormLookUp(g.width, Table(g), crc, byte) == ByteStep(g, crc, byte) < Pow2(g.width)
  {
    hide Pow2, ByteStep, TableEntry, Xor, HighByte, ShiftedByte;
    NormTableStep(g, crc, byte);
    ByteStepBound(g, crc, byte);
  }

  /** crc64_*_refl_base, crc32_iscsi_base and crc32_gzip_refl_base: a table look-up for each byte. */
  method TableRefl(g: Algorithm, seed: nat, buf: seq<Octet>) returns (crc: nat)
    requires ValidAlgorithm(g) && g.reflected && seed < Pow2(g.width)
    ensures crc == CrcOf(g, seed, buf) < Pow2(g.width)
  {
    hide Pow2, ReflLookUp, Table, ValidAlgorithm, ByteStep;
    StartsBounded(g, seed, buf);
    var table := Table(g);
    crc := Ends(g, seed);
    for i := 0 to |buf|
      invariant crc < Pow2(g.width) && Run(g, crc, buf[i..]) == Run(g, Ends(g, seed), buf)
    {
      var byte := buf[i];
      ReflLookUpSteps(g, crc, byte);
      RunNext(g, crc, buf, i);
      crc := ReflLookUp(table, crc, byte);
    }
    crc := Ends(g, crc);
  }

  /** crc64_*_norm_base, crc16_t10dif_base and crc32_ieee_base. */
  method TableNorm(g: Algorithm, seed: nat, buf: seq<Octet>) returns (crc: nat)
    requires ValidAlgorithm(g) && !g.reflected && seed < Pow2(g.width)
    ensures crc == CrcOf(g, seed, buf) < Pow2(g.width)
  {
    hide Pow2, NormLookUp, Table, ValidAlgorithm, ByteStep;
    StartsBounded(g, seed, buf);
    var table := Table(g);
    crc := Ends(g, seed);
    for i := 0 to |buf|
      invariant crc < Pow2(g.width) && Run(g, crc, buf[i..]) == Run(g, Ends(g, seed), buf)
    {
      var byte := buf[i];
      NormLookUpSteps(g, crc, byte);
      RunNext(g, crc, buf, i);
      crc := NormLookUp(g.width, table, crc, byte);
    }
    crc := Ends(g, crc);
  }

  /** crc16_t10dif_copy_base: the CRC of what is copied on the way.  The buffers may be the same. */
  method TableNormCopy(g: Algorithm, seed: nat, dst: array<Octet>, src: array<Octet>) returns (crc: nat)
    requires ValidAlgorithm(g) && !g.reflected && !g.inverted && seed < Pow2(g.width)
    requires src.Length <= dst.Length
    modifies dst
    ensures crc == CrcOf(g, seed, old(src[..])) < Pow2(g.width)
    ensures dst[..src.Length] == old(src[..]) && dst[src.Length..] == old(dst[src.Length..])
  {
    hide Pow2, NormLookUp, Table, ValidAlgorithm, ByteStep;
    ghost var buf := src[..];
    StartsBounded(g, seed, buf);
    var table := Table(g);
    crc := seed;
    for i := 0 to src.Length
      invariant crc < Pow2(g.width) && Run(g, crc, buf[i..]) == Run(g, seed, buf)
      invariant dst[..i] == buf[..i] && dst[src.Length..] == old(dst[src.Length..])
      invariant src[i..] == buf[i..]
    {
      assert src[i..][0] == buf[i];
      NormLookUpSteps(g, crc, src[i]);
      RunNext(g, crc, buf, i);
      crc := NormLookUp(g.width, table, crc, src[i]);
      dst[i] := src[i];
    }
  }

  lemma RunNext(g: Algorithm, rem: nat, buf: seq<Octet>, i: nat)
    requires g.width >= 8 && i < |buf|
    ensures Run(g, rem, buf[i..]) == Run(g, ByteStep(g, rem, buf[i]), buf[i + 1..])
  {
    assert buf[i..][1..] == buf[i + 1..];
  }

  lemma StartsBounded(g: Algorithm, seed: nat, buf: seq<Octet>)
    requires ValidAlgorithm(g) && seed < Pow2(g.width)
    ensures g.width >= 8 && Ends(g, seed) < Pow2(g.width) && CrcOf(g, seed, buf) < Pow2(g.width)
    ensures buf[0..] == buf
  {
    hide Pow2, Run;
    ComplementTwice(g.width, seed);
    RunBound(g, Ends(g, seed), buf);
    ComplementTwice(g.width, Run(g, Ends(g, seed), buf));
  }

  /** The bit-serial references with one register of the CRC's own width, or wider but never above it:
      crc64_*_refl_ref, crc32_iscsi_ref and crc32_gzip_refl_ref. */
  method SerialRefl(g: Algorithm, seed: nat, buf: seq<Octet>) returns (crc: nat)
    requires ValidAlgorithm(g) && g.reflected && seed < Pow2(g.width)
    ensures crc == CrcOf(g, seed, buf) < Pow2(g.width)
  {
    hide Pow2, Xor, ValidAlgorithm;
    StartsBounded(g, seed, buf);
    var rem := Ends(g, seed);
    for i := 0 to |buf|
      invariant Run(g, rem, buf[i..]) == Run(g, Ends(g, seed), buf)
    {
      RunNext(g, rem, buf, i);
      rem := Xor(rem, buf[i]);
      ghost var all := ReflSteps(g.poly, rem, 8);
      for j := 0 to 8
        invariant ReflSteps(g.poly, rem, 8 - j) == all
      {
        rem := Xor(if rem % 2 == 1 then g.poly else 0, rem / 2);
      }
    }
    crc := Ends(g, rem);
  }

  /** crc64_*_norm_ref, on 64 bits. */
  method SerialNorm(g: Algorithm, seed: nat, buf: seq<Octet>) returns (crc: nat)
    requires ValidAlgorithm(g) && !g.reflected && seed < Pow2(g.width)
    ensures crc == CrcOf(g, seed, buf) < Pow2(g.width)
  {
    hide Pow2, Xor, BitSet, Doubled, ValidAlgorithm;
    StartsBounded(g, seed, buf);
    var w := g.width;
    var rem := Ends(g, seed);
    for i := 0 to |buf|
      invariant Run(g, rem, buf[i..]) == Run(g, Ends(g, seed), buf)
    {
      RunNext(g, rem, buf, i);
      rem := Xor(rem, buf[i] * Pow2(w - 8));
      ghost var all := NormSteps(w, g.poly, rem, 8);
      for j := 0 to 8
        invariant NormSteps(w, g.poly, rem, 8 - j) == all
      {
        rem := Xor(if BitSet(rem, w - 1) then g.poly else 0, Doubled(w, rem));
      }
    }
    crc := Ends(g, rem);
  }

  // ----- accumulators that are never masked

  /** The low bits of the sum are the sum of the low bits. */
  lemma XorModulo(a: nat, b: nat, w: nat)
    requires b < Pow2(w)
    ensures Xor(a, b) % Pow2(w) == Xor(a % Pow2(w), b)
  {
    hide Xor, Pow2;
    var p := Pow2(w);
    var low, high := a % p, a / p;
    assert a == low + high * p;
    XorParts(low, b, high, 0, w);
    XorZero(high);
    XorBelow(low, b, w);
    DivModUnique(Xor(a, b), high, Xor(low, b), p);
  }

  /** A step of the wide accumulator is, in its low bits, a step of the register. */
  lemma UnmaskedStep(w: nat, poly: nat, rem: nat)
    requires 0 < w < 64 && poly < Pow2(w)
    ensures Unmasked(w, poly, rem) % Pow2(w) == Norm(w, poly, rem % Pow2(w))
  {
    hide Xor, Pow2, BitSet;
    var r := (2 * rem) % WORD;
    DoubledLow(w, rem);
    XorModulo(r, poly, w);
    XorCommutes(r % Pow2(w), poly);
    XorZero(r % Pow2(w));
  }

  lemma DoubledLow(w: nat, rem: nat)
    requires 0 < w < 64
    ensures ((2 * rem) % WORD) % Pow2(w) == Doubled(w, rem % Pow2(w))
    ensures BitSet((2 * rem) % WORD, w) == BitSet(rem % Pow2(w), w - 1)
  {
    HalfOfPow2(w);
    HalfOfPow2(64 - w);
    WordIsPow2();
    Pow2Add(w, 64 - w);
    hide Pow2;
    LowOfDoubled(rem, Pow2(w - 1), Pow2(63 - w));
  }

  lemma LowOfDoubled(rem: nat, p: nat, q: nat)
    requires p > 0 && q > 0
    ensures var x := (2 * rem) % ((2 * p) * (2 * q));
      x % (2 * p) == (2 * (rem % (2 * p))) % (2 * p) && (x / (2 * p)) % 2 == (rem % (2 * p) / p) % 2
  {
    var t, low := rem / p, rem % p;
    assert rem == t * p + low;
    var high, bit := t / 2, t % 2;
    assert t == 2 * high + bit;
    TwoLow(high, bit, low, p);
    LowOfDoubledParts(high, bit, low, p, q);
  }

  lemma LowOfDoubledParts(high: nat, bit: nat, low: nat, p: nat, q: nat)
    requires low < p && bit < 2 && q > 0
    ensures (2 * p) * (2 * q) > 0
    ensures var x := (2 * ((2 * high + bit) * p + low)) % ((2 * p) * (2 * q));
      x % (2 * p) == 2 * low && (x / (2 * p)) % 2 == bit
  {
    var m, a := (2 * p) * (2 * q), 2 * ((2 * high + bit) * p + low);
    ProductMonotone(1, 2 * p, 2 * q);
    var (k, x) := QuotientRemainder(a, m);
    WordParts(high, bit, low, p, q, k, x);
  }

  lemma TwoLow(high: nat, bit: nat, low: nat, p: nat)
    requires low < p && bit < 2
    ensures ((2 * high + bit) * p + low) % (2 * p) == bit * p + low
    ensures (2 * (bit * p + low)) % (2 * p) == 2 * low && (bit * p + low) / p == bit
  {
    DivModUnique((2 * high + bit) * p + low, high, bit * p + low, 2 * p);
    DivModUnique(2 * (bit * p + low), bit, 2 * low, 2 * p);
    DivModUnique(bit * p + low, bit, low, p);
  }

  lemma WordParts(high: nat, bit: nat, low: nat, p: nat, q: nat, k: nat, x: nat)
    requires low < p && bit < 2
    requires 2 * ((2 * high + bit) * p + low) == k * ((2 * p) * (2 * q)) + x
    ensures x % (2 * p) == 2 * low && (x / (2 * p)) % 2 == bit
  {
    var d := 2 * (high - k * q) + bit;
    assert x == d * (2 * p) + 2 * low by {
      assert k * ((2 * p) * (2 * q)) == (2 * (k * q)) * (2 * p);
    }
    if d < 0 { ProductMonotone(1, -d, 2 * p); }
    DivModUnique(x, d, 2 * low, 2 * p);
  }

  lemma UnmaskedBound(w: nat, poly: nat, rem: nat)
    requires w < 64 && poly < Pow2(w)
    ensures Unmasked(w, poly, rem) < WORD
  {
    hide Xor, Pow2, BitSet;
    WordIsPow2();
    Pow2AtMost(w, 64);
    XorBelow((2 * rem) % WORD, poly, 64);
  }

  /** The low bits of a complemented word are the complement of its low bits. */
  lemma ComplementLow(w: nat, rem: nat)
    requires w <= 64 && rem < WORD
    ensures (WORD - 1 - rem) % Pow2(w) == Complement(w, rem % Pow2(w))
  {
    WordIsPow2();
    Pow2Add(w, 64 - w);
    hide Pow2;
    ComplementModulo(rem, Pow2(w), Pow2(64 - w));
  }

  lemma ComplementModulo(rem: nat, p: nat, q: nat)
    requires p > 0 && rem < p * q
    ensures (p * q - 1 - rem) % p == p - 1 - rem % p
  {
    var (k, low) := QuotientRemainder(rem, p);
    Factor(q, 1 + k, p);
    Factor(1 + k, k, p);
    DivModUnique(p * q - 1 - rem, q - (1 + k), p - 1 - low, p);
  }

  /** crc16_t10dif_ref and crc32_ieee_ref: a 64-bit accumulator into whose upper part bits run off. */
  method SerialUnmasked(g: Algorithm, seed: nat, buf: seq<Octet>) returns (crc: nat)
    requires ValidAlgorithm(g) && !g.reflected && g.width < 64 && seed < Pow2(g.width)
    ensures crc == CrcOf(g, seed, buf) < Pow2(g.width)
  {
    hide Pow2, Xor, BitSet, ValidAlgorithm, Norm, ByteStep, Run;
    StartsBounded(g, seed, buf);
    var w := g.width;
    PolynomialFits(g);
    var rem: nat := Ends(g, seed);
    SmallModulo(rem, Pow2(w));
    Pow2AtMost(w, 64);
    WordIsPow2();
    for i := 0 to |buf|
      invariant rem < WORD && Run(g, rem % Pow2(w), buf[i..]) == Run(g, Ends(g, seed), buf)
    {
      RunNext(g, rem % Pow2(w), buf, i);
      rem := UnmaskedByte(g, rem, buf[i]);
    }
    RunNothing(g, rem % Pow2(w), buf[|buf|..]);
    ComplementLow(w, rem);
    crc := (if g.inverted then WORD - 1 - rem else rem) % Pow2(w);
  }

  /** The inner loop for one byte. */
  method UnmaskedByte(g: Algorithm, rem0: nat, byte: Octet) returns (rem: nat)
    requires 8 <= g.width < 64 && !g.reflected && g.poly < Pow2(g.width) && rem0 < WORD
    ensures rem < WORD && rem % Pow2(g.width) == ByteStep(g, rem0 % Pow2(g.width), byte)
  {
    hide Pow2, Xor, BitSet, Norm;
    var w := g.width;
    TopByte(w, byte);
    XorModulo(rem0, byte * Pow2(w - 8), w);
    Pow2AtMost(w, 64);
    WordIsPow2();
    XorBelow(rem0, byte * Pow2(w - 8), 64);
    rem := Xor(rem0, byte * Pow2(w - 8));
    for j := 0 to 8
      invariant rem < WORD
      invariant NormSteps(w, g.poly, rem % Pow2(w), 8 - j) == ByteStep(g, rem0 % Pow2(w), byte)
    {
      UnmaskedStep(w, g.poly, rem);
      UnmaskedBound(w, g.poly, rem);
      rem := (2 * rem) % WORD;
      if BitSet(rem, w) {
        rem := Xor(rem, g.poly);
      }
    }
  }

  lemma PolynomialFits(g: Algorithm)
    requires ValidAlgorithm(g)
    ensures 8 <= g.width <= 64 && g.poly < Pow2(g.width)
  {
  }

  lemma RunNothing(g: Algorithm, rem: nat, buf: seq<Octet>)
    requires g.width >= 8 && buf == []
    ensures Run(g, rem, buf) == rem
  {
  }

  // ----- reflection

  /** The bits of every byte in the opposite order. */
  function RevBytes(buf: seq<Octet>): (r: seq<Octet>)
    ensures |r| == |buf|
  {
    if buf == [] then [] else ByteIsPow2(); [Rev(8, buf[0])] + RevBytes(buf[1..])
  }

  lemma ByteIsPow2()
    ensures Pow2(8) == 256
  {
    Pow2Eight();
  }

  /** The algorithm that works from the other end. */
  function Mirror(g: Algorithm): Algorithm {
    Algorithm(g.width, Rev(g.width, g.poly), !g.reflected, g.inverted)
  }

  lemma {:induction false} RevWiden(m: nat, n: nat, a: nat)
    requires a < Pow2(m)
    ensures Rev(m + n, a) == Rev(m, a) * Pow2(n)
    decreases n
  {
    if n > 0 {
      RevWiden(m, n - 1, a);
      Pow2AtMost(m, m + n - 1);
      RevDouble(m + n - 1, a);
      HalfOfPow2(n);
      hide Pow2, Rev;
      DoubleProduct(Rev(m, a), Pow2(n - 1));
    }
  }

  lemma MirrorByteStep(g: Algorithm, rem: nat, byte: Octet)
    requires ValidAlgorithm(g) && g.reflected && rem < Pow2(g.width)
    ensures Rev(8, byte) < 256
    ensures ByteStep(Mirror(g), Rev(g.width, rem), Rev(8, byte)) == Rev(g.width, ByteStep(g, rem, byte))
  {
    hide Pow2, Xor, Rev, NormSteps, ReflSteps;
    var w := g.width;
    ByteIsPow2();
    RevWiden(8, w - 8, byte);
    ByteBelow(w, byte);
    RevLinear(w, rem, byte);
    XorBelow(rem, byte, w);
    NormStepsReversed(w, g.poly, Xor(rem, byte), 8);
  }

  lemma {:induction false} MirrorRun(g: Algorithm, rem: nat, buf: seq<Octet>)
    requires ValidAlgorithm(g) && g.reflected && rem < Pow2(g.width)
    ensures Run(Mirror(g), Rev(g.width, rem), RevBytes(buf)) == Rev(g.width, Run(g, rem, buf))
    decreases |buf|
  {
    hide Pow2, Rev, ByteStep, ValidAlgorithm;
    PolynomialFits(g);
    if buf != [] {
      MirrorByteStep(g, rem, buf[0]);
      ByteStepBound(g, rem, buf[0]);
      MirrorRun(g, ByteStep(g, rem, buf[0]), buf[1..]);
    }
  }

  lemma {:induction false} RevComplement(w: nat, a: nat)
    requires a < Pow2(w)
    ensures Rev(w, Pow2(w) - 1 - a) == Pow2(w) - 1 - Rev(w, a)
  {
    if w > 0 {
      HalfOfPow2(w);
      hide Pow2;
      RevComplement(w - 1, a / 2);
      assert (Pow2(w) - 1 - a) / 2 == Pow2(w - 1) - 1 - a / 2;
    }
  }

  lemma MirrorEnds(g: Algorithm, a: nat)
    requires a < Pow2(g.width)
    ensures Ends(Mirror(g), Rev(g.width, a)) == Rev(g.width, Ends(g, a))
  {
    hide Pow2, Rev;
    RevComplement(g.width, a);
  }

  /** A reflected CRC is the reversal of the normal one with the reversed polynomial, on the reversed
      seed and the reversed bytes. */
  lemma ReflectedIsReversedNormal(g: Algorithm, seed: nat, buf: seq<Octet>)
    requires ValidAlgorithm(g) && g.reflected && seed < Pow2(g.width)
    ensures CrcOf(Mirror(g), Rev(g.width, seed), RevBytes(buf)) == Rev(g.width, CrcOf(g, seed, buf))
  {
    hide Pow2, Rev, Run, Ends, ValidAlgorithm;
    StartsBounded(g, seed, buf);
    PolynomialFits(g);
    MirrorEnds(g, seed);
    MirrorRun(g, Ends(g, seed), buf);
    RunBound(g, Ends(g, seed), buf);
    MirrorEnds(g, Run(g, Ends(g, seed), buf));
  }
}
