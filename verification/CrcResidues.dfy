/** What a receiver sees when a message is followed by its own CRC: the same register whatever the message
    and the seed, and 0 if the last complement is left out. */
module CrcResidues {
  import opened Arithmetic
  import opened Bits
  import opened BitStream
  import opened Crc
  import opened CrcFamilies
  import opened CrcDetection
  import opened CrcWords

  // ----- bytes in the order of a normal CRC

  /** The n low bytes of a, most significant first. */
  function BigEndian(a: nat, n: nat): (b: seq<Octet>)
    ensures |b| == n
  {
    if n == 0 then [] else [Shr(a, 8 * (n - 1)) % 256] + BigEndian(a, n - 1)
  }

  lemma {:induction false} RevSplit(m: nat, n: nat, a: nat)
    ensures Rev(m + n, a) == Rev(n, Shr(a, m)) + Rev(m, a) * Pow2(n)
    decreases m
  {
    if m == 0 {
      ShiftedByNothing(a);
      RevOfNothing(a);
    } else {
      hide Rev, Pow2, Shr;
      RevSplit(m - 1, n, a / 2);
      ShiftedHalf(a, m);
      Pow2Add(m - 1, n);
      RevStep(m + n, a);
      RevStep(m, a);
      MovedUp(Rev(m - 1, a / 2), a % 2, Pow2(m - 1), Pow2(n));
    }
  }

  lemma ShiftedByNothing(a: nat)
    ensures Shr(a, 0) == a
  {
  }

  lemma RevOfNothing(a: nat)
    ensures Rev(0, a) == 0
  {
  }

  lemma ShiftedHalf(a: nat, m: nat)
    requires m > 0
    ensures Shr(a / 2, m - 1) == Shr(a, m)
  {
    HalfOfPow2(m);
    DivDiv(a, 2, Pow2(m - 1));
    hide Pow2;
  }

  lemma MovedUp(low: nat, bit: nat, p: nat, q: nat)
    ensures (low + bit * p) * q == low * q + bit * (p * q)
  {
  }

  lemma {:induction false} RevLow(w: nat, a: nat)
    ensures Rev(w, a) == Rev(w, a % Pow2(w))
  {
    if w > 0 {
      RevStep(w, a);
      RevStep(w, a % Pow2(w));
      HalfOfPow2(w);
      HalfModulo(a, Pow2(w - 1));
      RevLow(w - 1, a / 2);
    }
  }

  /** Higher bytes do not matter. */
  lemma {:induction false} BigEndianLow(a: nat, h: nat, m: nat, n: nat)
    requires n <= m
    ensures BigEndian(a + h * Pow2(8 * m), n) == BigEndian(a, n)
    decreases n
  {
    if n > 0 {
      HigherByte(a, h, m, n);
      hide Pow2, Shr;
      BigEndianLow(a, h, m, n - 1);
    }
  }

  lemma HigherByte(a: nat, h: nat, m: nat, n: nat)
    requires 0 < n <= m
    ensures Shr(a + h * Pow2(8 * m), 8 * (n - 1)) % 256 == Shr(a, 8 * (n - 1)) % 256
  {
    var p := Pow2(8 * (n - 1));
    Pow2Eight();
    Pow2Add(8, 8 * (n - 1));
    Pow2Add(8 * (m - n), 8 * n);
    hide Pow2;
    ByteAbove(a, h * Pow2(8 * (m - n)), p);
    Regroup(h, 256 * p, Pow2(8 * (m - n)));
    Regroup(h, Pow2(8 * (m - n)), 256 * p);
  }

  lemma ByteAbove(a: nat, h: nat, p: nat)
    requires p > 0
    ensures (a + h * (256 * p)) / p % 256 == a / p % 256
  {
    var (q, r) := QuotientRemainder(a, p);
    assert h * (256 * p) == 256 * h * p;
    DivModUnique(a + h * (256 * p), q + 256 * h, r, p);
    DivModUnique(q + 256 * h, h + q / 256, q % 256, 256);
  }

  /** Reversing the bits of little-endian bytes makes big-endian ones of the reversed word. */
  lemma {:induction false} TurnedLittleEndian(a: nat, n: nat)
    ensures RevBytes(LittleEndian(a, n)) == BigEndian(Rev(8 * n, a), n)
  {
    hide Rev, Shr;
    if n > 0 {
      var w := 8 * (n - 1);
      ByteIsPow2();
      RevSplit(8, w, a);
      RevLow(8, a);
      var low, high := Rev(w, Shr(a, 8)), Rev(8, a);
      BigEndianLow(low, high, n - 1, n - 1);
      TurnedLittleEndian(a / 256, n - 1);
      TopOctet(low, high, w);
      EighthShift(a);
    }
  }

  lemma TopOctet(low: nat, high: nat, w: nat)
    requires low < Pow2(w) && high < 256
    ensures Shr(low + high * Pow2(w), w) % 256 == high
  {
    DivModUnique(low + high * Pow2(w), high, low, Pow2(w));
  }

  lemma EighthShift(a: nat)
    ensures Shr(a, 8) == a / 256
  {
    ByteIsPow2();
  }

  // ----- a register's worth of bytes

  /** Bytes that fill the register can be added at once. */
  lemma WholeRegister(g: Algorithm, rem: nat, m: nat, n: nat)
    requires g.width >= 8 && g.reflected && m < Pow2(8 * n)
    ensures Run(g, rem, LittleEndian(m, n)) == ReflSteps(g.poly, Xor(rem, m), 8 * n)
  {
    hide Pow2, Xor, Feed, Run, ByteBits, LittleEndian, NatBits;
    RunIsFeed(g, rem, LittleEndian(m, n));
    LittleEndianBits(m, n);
    BitsValueInverts(m, 8 * n);
    FeedIsSteps(g.poly, rem, NatBits(m, 8 * n));
  }

  lemma {:induction false} XorComplement(a: nat, w: nat)
    requires a < Pow2(w)
    ensures Xor(a, Pow2(w) - 1 - a) == Pow2(w) - 1
  {
    hide Xor;
    if w == 0 {
      XorSelf(0);
    } else {
      HalfOfPow2(w);
      hide Pow2;
      assert (Pow2(w) - 1 - a) / 2 == Pow2(w - 1) - 1 - a / 2;
      XorComplement(a / 2, w - 1);
      XorHalves(a, Pow2(w) - 1 - a);
    }
  }

  /** The bytes of a register in the order in which the algorithm takes them. */
  function Trailer(g: Algorithm, a: nat): seq<Octet> {
    if g.reflected then LittleEndian(a, g.width / 8) else BigEndian(a, g.width / 8)
  }

  /** A register of ones, stepped once for each bit. */
  function OnesStepped(g: Algorithm): nat {
    if g.reflected then ReflSteps(g.poly, Pow2(g.width) - 1, g.width)
    else Rev(g.width, ReflSteps(Rev(g.width, g.poly), Pow2(g.width) - 1, g.width))
  }

  lemma ReflectedTrailer(g: Algorithm, rem: nat)
    requires ValidAlgorithm(g) && g.reflected && g.width % 8 == 0 && rem < Pow2(g.width)
    ensures Run(g, rem, LittleEndian(rem, g.width / 8)) == 0
    ensures Run(g, rem, LittleEndian(Pow2(g.width) - 1 - rem, g.width / 8)) == OnesStepped(g)
  {
    hide Pow2, Xor, Run, LittleEndian, ReflSteps;
    var w := g.width;
    assert w == 8 * (w / 8);
    WholeRegister(g, rem, rem, w / 8);
    XorSelf(rem);
    StepsFromZero(g.poly, w);
    WholeRegister(g, rem, Pow2(w) - 1 - rem, w / 8);
    XorComplement(rem, w);
  }

  lemma NormalTrailer(g: Algorithm, rem: nat)
    requires ValidAlgorithm(g) && !g.reflected && g.width % 8 == 0 && rem < Pow2(g.width)
    ensures Run(g, rem, BigEndian(rem, g.width / 8)) == 0
    ensures Run(g, rem, BigEndian(Pow2(g.width) - 1 - rem, g.width / 8)) == OnesStepped(g)
  {
    hide Pow2, Rev, Run, LittleEndian, ReflSteps, BigEndian, ValidAlgorithm;
    var w, m := g.width, Mirror(g);
    var x := Rev(w, rem);
    MirrorValid(g);
    PolynomialFits(g);
    RevInvolutive(w, rem);
    assert w == 8 * (w / 8);
    ReflectedTrailer(m, x);
    MirrorRun(m, x, LittleEndian(x, w / 8));
    TurnedLittleEndian(x, w / 8);
    RevZero(w);
    MirrorRun(m, x, LittleEndian(Pow2(w) - 1 - x, w / 8));
    TurnedLittleEndian(Pow2(w) - 1 - x, w / 8);
    RevComplement(w, x);
  }

  /** The complement of the register whose CRC is given. */
  function Complemented(g: Algorithm, crc: nat): nat {
    if g.inverted then crc else Complement(g.width, crc)
  }

  /** A message followed by the complement of its register. */
  lemma Residue(g: Algorithm, seed: nat, buf: seq<Octet>)
    requires ValidAlgorithm(g) && g.width % 8 == 0 && seed < Pow2(g.width)
    ensures g.width >= 8 && CrcOf(g, seed, buf) < Pow2(g.width)
    ensures CrcOf(g, seed, buf + Trailer(g, Complemented(g, CrcOf(g, seed, buf)))) == Ends(g, OnesStepped(g))
  {
    hide Pow2, Run, OnesStepped;
    var crc, rem := CrcOf(g, seed, buf), Run(g, Ends(g, seed), buf);
    RegisterAfter(g, seed, buf);
    RunAppend(g, Ends(g, seed), buf, Trailer(g, Complement(g.width, rem)));
    if g.reflected { ReflectedTrailer(g, rem); } else { NormalTrailer(g, rem); }
  }

  lemma RegisterAfter(g: Algorithm, seed: nat, buf: seq<Octet>)
    requires ValidAlgorithm(g) && seed < Pow2(g.width)
    ensures g.width >= 8 && Run(g, Ends(g, seed), buf) < Pow2(g.width)
    ensures CrcOf(g, seed, buf) == Ends(g, Run(g, Ends(g, seed), buf)) < Pow2(g.width)
  {
    hide Pow2, Run;
    StartsBounded(g, seed, buf);
    RunBound(g, Ends(g, seed), buf);
    ComplementTwice(g.width, Run(g, Ends(g, seed), buf));
  }

  /** A message followed by its register leaves nothing. */
  lemma NothingLeft(g: Algorithm, seed: nat, buf: seq<Octet>)
    requires ValidAlgorithm(g) && g.width % 8 == 0 && seed < Pow2(g.width)
    ensures g.width >= 8
    ensures CrcOf(g, seed, buf + Trailer(g, Ends(g, CrcOf(g, seed, buf)))) == Ends(g, 0)
  {
    hide Pow2, Run;
    var rem := Run(g, Ends(g, seed), buf);
    RegisterAfter(g, seed, buf);
    ComplementTwice(g.width, rem);
    RunAppend(g, Ends(g, seed), buf, Trailer(g, rem));
    if g.reflected { ReflectedTrailer(g, rem); } else { NormalTrailer(g, rem); }
  }

  // ----- what the library's own leave

  lemma EcmaOnes()
    ensures ReflSteps(0xC96C5795D7870F42, 0xFFFFFFFFFFFFFFFF, 64) == 0x49958C9ABD7D353F
  {
    assert ManySteps(0xC96C5795D7870F42, ManySteps(0xC96C5795D7870F42, 0xFFFFFFFFFFFFFFFF)) == 0x49958C9ABD7D353F;
    assert Low64(0xC96C5795D7870F42) == 0xC96C5795D7870F42 && Low64(0xFFFFFFFFFFFFFFFF) == 0xFFFFFFFFFFFFFFFF;
    assert Low64(0x49958C9ABD7D353F) == 0x49958C9ABD7D353F;
    hide ManySteps, Low64, ReflSteps, Value;
    ManyStepsAre(0xC96C5795D7870F42, 0xFFFFFFFFFFFFFFFF);
    ValueIs(0xC96C5795D7870F42); ValueIs(0xFFFFFFFFFFFFFFFF); ValueIs(0x49958C9ABD7D353F);
  }

  lemma EcmaOnesTurned()
    ensures Rev(64, 0x49958C9ABD7D353F) == 0xFCACBEBD5931A992
  {
    assert Low64(0x49958C9ABD7D353F) == 0x49958C9ABD7D353F;
    assert Turned32(0x49958C9ABD7D353F) == 0xFCACBEBD;
    assert Turned32(0x49958C9A) == 0x5931A992;
    hide Rev, Turned32, Low64;
    WideTurnedIs(0x49958C9ABD7D353F);
  }

  lemma IsoOnes()
    ensures ReflSteps(0xD800000000000000, 0xFFFFFFFFFFFFFFFF, 64) == 0x5300000000000000
  {
    assert ManySteps(0xD800000000000000, ManySteps(0xD800000000000000, 0xFFFFFFFFFFFFFFFF)) == 0x5300000000000000;
    assert Low64(0xD800000000000000) == 0xD800000000000000 && Low64(0xFFFFFFFFFFFFFFFF) == 0xFFFFFFFFFFFFFFFF;
    assert Low64(0x5300000000000000) == 0x5300000000000000;
    hide ManySteps, Low64, ReflSteps, Value;
    ManyStepsAre(0xD800000000000000, 0xFFFFFFFFFFFFFFFF);
    ValueIs(0xD800000000000000); ValueIs(0xFFFFFFFFFFFFFFFF); ValueIs(0x5300000000000000);
  }

  lemma IsoOnesTurned()
    ensures Rev(64, 0x5300000000000000) == 0xCA
  {
    assert Low64(0x5300000000000000) == 0x5300000000000000;
    assert Turned32(0x5300000000000000) == 0x0;
    assert Turned32(0x53000000) == 0xCA;
    hide Rev, Turned32, Low64;
    WideTurnedIs(0x5300000000000000);
  }

  lemma JonesOnes()
    ensures ReflSteps(0x95AC9329AC4BC9B5, 0xFFFFFFFFFFFFFFFF, 64) == 0xF13C1DC270A84D1A
  {
    assert ManySteps(0x95AC9329AC4BC9B5, ManySteps(0x95AC9329AC4BC9B5, 0xFFFFFFFFFFFFFFFF)) == 0xF13C1DC270A84D1A;
    assert Low64(0x95AC9329AC4BC9B5) == 0x95AC9329AC4BC9B5 && Low64(0xFFFFFFFFFFFFFFFF) == 0xFFFFFFFFFFFFFFFF;
    assert Low64(0xF13C1DC270A84D1A) == 0xF13C1DC270A84D1A;
    hide ManySteps, Low64, ReflSteps, Value;
    ManyStepsAre(0x95AC9329AC4BC9B5, 0xFFFFFFFFFFFFFFFF);
    ValueIs(0x95AC9329AC4BC9B5); ValueIs(0xFFFFFFFFFFFFFFFF); ValueIs(0xF13C1DC270A84D1A);
  }

  lemma JonesOnesTurned()
    ensures Rev(64, 0xF13C1DC270A84D1A) == 0x58B2150E43B83C8F
  {
    assert Low64(0xF13C1DC270A84D1A) == 0xF13C1DC270A84D1A;
    assert Turned32(0xF13C1DC270A84D1A) == 0x58B2150E;
    assert Turned32(0xF13C1DC2) == 0x43B83C8F;
    hide Rev, Turned32, Low64;
    WideTurnedIs(0xF13C1DC270A84D1A);
  }

  lemma RocksoftOnes()
    ensures ReflSteps(0x9A6C9329AC4BC9B5, 0xFFFFFFFFFFFFFFFF, 64) == 0xF310303B2B6F6E42
  {
    assert ManySteps(0x9A6C9329AC4BC9B5, ManySteps(0x9A6C9329AC4BC9B5, 0xFFFFFFFFFFFFFFFF)) == 0xF310303B2B6F6E42;
    assert Low64(0x9A6C9329AC4BC9B5) == 0x9A6C9329AC4BC9B5 && Low64(0xFFFFFFFFFFFFFFFF) == 0xFFFFFFFFFFFFFFFF;
    assert Low64(0xF310303B2B6F6E42) == 0xF310303B2B6F6E42;
    hide ManySteps, Low64, ReflSteps, Value;
    ManyStepsAre(0x9A6C9329AC4BC9B5, 0xFFFFFFFFFFFFFFFF);
    ValueIs(0x9A6C9329AC4BC9B5); ValueIs(0xFFFFFFFFFFFFFFFF); ValueIs(0xF310303B2B6F6E42);
  }

  lemma RocksoftOnesTurned()
    ensures Rev(64, 0xF310303B2B6F6E42) == 0x4276F6D4DC0C08CF
  {
    assert Low64(0xF310303B2B6F6E42) == 0xF310303B2B6F6E42;
    assert Turned32(0xF310303B2B6F6E42) == 0x4276F6D4;
    assert Turned32(0xF310303B) == 0xDC0C08CF;
    hide Rev, Turned32, Low64;
    WideTurnedIs(0xF310303B2B6F6E42);
  }

  lemma IscsiOnes()
    ensures ReflSteps(0x82F63B78, 0xFFFFFFFF, 32) == 0xB798B438
  {
    assert ManySteps(0x82F63B78, 0xFFFFFFFF) == 0xB798B438;
    assert Low64(0x82F63B78) == 0x82F63B78 && Low64(0xFFFFFFFF) == 0xFFFFFFFF;
    assert Low64(0xB798B438) == 0xB798B438;
    hide ManySteps, Low64, ReflSteps, Value;
    ManyStepsAre(0x82F63B78, 0xFFFFFFFF);
    ValueIs(0x82F63B78); ValueIs(0xFFFFFFFF); ValueIs(0xB798B438);
  }

  lemma GzipOnes()
    ensures ReflSteps(0xEDB88320, 0xFFFFFFFF, 32) == 0xDEBB20E3
  {
    assert ManySteps(0xEDB88320, 0xFFFFFFFF) == 0xDEBB20E3;
    assert Low64(0xEDB88320) == 0xEDB88320 && Low64(0xFFFFFFFF) == 0xFFFFFFFF;
    assert Low64(0xDEBB20E3) == 0xDEBB20E3;
    hide ManySteps, Low64, ReflSteps, Value;
    ManyStepsAre(0xEDB88320, 0xFFFFFFFF);
    ValueIs(0xEDB88320); ValueIs(0xFFFFFFFF); ValueIs(0xDEBB20E3);
  }

  lemma GzipOnesTurned()
    ensures Rev(32, 0xDEBB20E3) == 0xC704DD7B
  {
    assert Low64(0xDEBB20E3) == 0xDEBB20E3 && Turned32(0xDEBB20E3) == 0xC704DD7B;
    hide Rev, Turned8, Turned16, Turned32, Low64;
    TurnedIs(0xDEBB20E3);
  }

  /** The image of a normal algorithm in its mirror. */
  lemma MirrorOnes(g: Algorithm)
    requires ValidAlgorithm(g) && g.reflected
    ensures OnesStepped(Mirror(g)) == Rev(g.width, OnesStepped(g))
  {
    hide Rev, Pow2, ReflSteps;
    PolynomialFits(g);
    RevInvolutive(g.width, g.poly);
  }

  lemma ReflectedResidue(g: Algorithm, ones: nat, seed: nat, buf: seq<Octet>)
    requires ValidAlgorithm(g) && g.reflected && g.width % 8 == 0 && g.inverted && seed < Pow2(g.width)
    requires ReflSteps(g.poly, Pow2(g.width) - 1, g.width) == ones
    ensures g.width >= 8
    ensures CrcOf(g, seed, buf + LittleEndian(CrcOf(g, seed, buf), g.width / 8)) == Complement(g.width, ones)
  {
    hide Run, ReflSteps, LittleEndian, Pow2;
    Residue(g, seed, buf);
  }

  lemma NormalResidue(g: Algorithm, n: Algorithm, ones: nat, seed: nat, buf: seq<Octet>)
    requires ValidAlgorithm(g) && ValidAlgorithm(n) && g.reflected && g.width % 8 == 0 && g.inverted
    requires Mirror(g) == n && seed < Pow2(n.width)
    requires Rev(g.width, ReflSteps(g.poly, Pow2(g.width) - 1, g.width)) == ones
    ensures n.width >= 8
    ensures CrcOf(n, seed, buf + BigEndian(CrcOf(n, seed, buf), n.width / 8)) == Complement(n.width, ones)
  {
    hide Run, ReflSteps, BigEndian, Pow2, Rev;
    MirrorOnes(g);
    Residue(n, seed, buf);
  }

  /** The residues of the 32-bit ones; the registers are the published 0xB798B438, and for the
      complemented ones 0xDEBB20E3 and 0xC704DD7B. */
  lemma Residues32(seed: nat, buf: seq<Octet>)
    requires seed < 0x1_0000_0000
    ensures CrcOf(ISCSI, seed, buf) < 0x1_0000_0000
    ensures CrcOf(ISCSI, seed, buf + LittleEndian(0xFFFFFFFF - CrcOf(ISCSI, seed, buf), 4)) == 0xB798B438
    ensures CrcOf(GZIP_REFL, seed, buf + LittleEndian(CrcOf(GZIP_REFL, seed, buf), 4)) == 0x2144DF1C
    ensures CrcOf(IEEE, seed, buf + BigEndian(CrcOf(IEEE, seed, buf), 4)) == 0x38FB2284
  {
    Powers();
    hide Pow2, Run, Rev, ReflSteps, ValidAlgorithm, Mirror, LittleEndian, BigEndian;
    AllValid(ISCSI); AllValid(GZIP_REFL); AllValid(IEEE);
    hide ALGORITHMS;
    MirrorPairs();
    IscsiOnes(); GzipOnes(); GzipOnesTurned();
    Residue(ISCSI, seed, buf);
    ReflectedResidue(GZIP_REFL, 0xDEBB20E3, seed, buf);
    NormalResidue(GZIP_REFL, IEEE, 0xC704DD7B, seed, buf);
  }

  /** The residues of the reflected 64-bit ones. */
  lemma Residues64(seed: nat, buf: seq<Octet>)
    requires seed < WORD
    ensures CrcOf(ECMA_REFL, seed, buf + LittleEndian(CrcOf(ECMA_REFL, seed, buf), 8)) == 0xB66A73654282CAC0
    ensures CrcOf(ISO_REFL, seed, buf + LittleEndian(CrcOf(ISO_REFL, seed, buf), 8)) == 0xACFFFFFFFFFFFFFF
    ensures CrcOf(JONES_REFL, seed, buf + LittleEndian(CrcOf(JONES_REFL, seed, buf), 8)) == 0xEC3E23D8F57B2E5
    ensures CrcOf(ROCKSOFT_REFL, seed, buf + LittleEndian(CrcOf(ROCKSOFT_REFL, seed, buf), 8)) == 0xCEFCFC4D49091BD
  {
    Powers();
    hide Pow2, Run, ReflSteps, LittleEndian, ValidAlgorithm;
    AllValid(ECMA_REFL); AllValid(ISO_REFL); AllValid(JONES_REFL); AllValid(ROCKSOFT_REFL);
    hide ALGORITHMS;
    EcmaOnes(); IsoOnes(); JonesOnes(); RocksoftOnes();
    ReflectedResidue(ECMA_REFL, 0x49958C9ABD7D353F, seed, buf);
    ReflectedResidue(ISO_REFL, 0x5300000000000000, seed, buf);
    ReflectedResidue(JONES_REFL, 0xF13C1DC270A84D1A, seed, buf);
    ReflectedResidue(ROCKSOFT_REFL, 0xF310303B2B6F6E42, seed, buf);
  }

  lemma EcmaNormResidue(seed: nat, buf: seq<Octet>)
    requires seed < WORD
    ensures CrcOf(ECMA_NORM, seed, buf + BigEndian(CrcOf(ECMA_NORM, seed, buf), 8)) == 0x3534142A6CE566D
  {
    Powers();
    hide Pow2, Run, Rev, ReflSteps, BigEndian, Mirror, ValidAlgorithm;
    AllValid(ECMA_REFL); AllValid(ECMA_NORM);
    hide ALGORITHMS;
    MirrorPairs();
    EcmaOnes(); EcmaOnesTurned();
    NormalResidue(ECMA_REFL, ECMA_NORM, 0xFCACBEBD5931A992, seed, buf);
  }

  lemma IsoNormResidue(seed: nat, buf: seq<Octet>)
    requires seed < WORD
    ensures CrcOf(ISO_NORM, seed, buf + BigEndian(CrcOf(ISO_NORM, seed, buf), 8)) == 0xFFFFFFFFFFFFFF35
  {
    Powers();
    hide Pow2, Run, Rev, ReflSteps, BigEndian, Mirror, ValidAlgorithm;
    AllValid(ISO_REFL); AllValid(ISO_NORM);
    hide ALGORITHMS;
    MirrorPairs();
    IsoOnes(); IsoOnesTurned();
    NormalResidue(ISO_REFL, ISO_NORM, 0xCA, seed, buf);
  }

  lemma JonesNormResidue(seed: nat, buf: seq<Octet>)
    requires seed < WORD
    ensures CrcOf(JONES_NORM, seed, buf + BigEndian(CrcOf(JONES_NORM, seed, buf), 8)) == 0xA74DEAF1BC47C370
  {
    Powers();
    hide Pow2, Run, Rev, ReflSteps, BigEndian, Mirror, ValidAlgorithm;
    AllValid(JONES_REFL); AllValid(JONES_NORM);
    hide ALGORITHMS;
    MirrorPairs();
    JonesOnes(); JonesOnesTurned();
    NormalResidue(JONES_REFL, JONES_NORM, 0x58B2150E43B83C8F, seed, buf);
  }

  lemma RocksoftNormResidue(seed: nat, buf: seq<Octet>)
    requires seed < WORD
    ensures CrcOf(ROCKSOFT_NORM, seed, buf + BigEndian(CrcOf(ROCKSOFT_NORM, seed, buf), 8)) == 0xBD89092B23F3F730
  {
    Powers();
    hide Pow2, Run, Rev, ReflSteps, BigEndian, Mirror, ValidAlgorithm;
    AllValid(ROCKSOFT_REFL); AllValid(ROCKSOFT_NORM);
    hide ALGORITHMS;
    MirrorPairs();
    RocksoftOnes(); RocksoftOnesTurned();
    NormalResidue(ROCKSOFT_REFL, ROCKSOFT_NORM, 0x4276F6D4DC0C08CF, seed, buf);
  }

  /** The residues of the normal 64-bit ones. */
  lemma NormalResidues64(seed: nat, buf: seq<Octet>)
    requires seed < WORD
    ensures CrcOf(ECMA_NORM, seed, buf + BigEndian(CrcOf(ECMA_NORM, seed, buf), 8)) == 0x3534142A6CE566D
    ensures CrcOf(ISO_NORM, seed, buf + BigEndian(CrcOf(ISO_NORM, seed, buf), 8)) == 0xFFFFFFFFFFFFFF35
    ensures CrcOf(JONES_NORM, seed, buf + BigEndian(CrcOf(JONES_NORM, seed, buf), 8)) == 0xA74DEAF1BC47C370
    ensures CrcOf(ROCKSOFT_NORM, seed, buf + BigEndian(CrcOf(ROCKSOFT_NORM, seed, buf), 8)) == 0xBD89092B23F3F730
  {
    Powers();
    hide Run, BigEndian;
    EcmaNormResidue(seed, buf); IsoNormResidue(seed, buf); JonesNormResidue(seed, buf); RocksoftNormResidue(seed, buf);
  }

  /** A sector followed by its own T10-DIF guard checks to 0. */
  lemma T10DifResidue(seed: nat, buf: seq<Octet>)
    requires seed < 0x1_0000
    ensures CrcOf(T10DIF, seed, buf + BigEndian(CrcOf(T10DIF, seed, buf), 2)) == 0
  {
    Powers();
    hide Pow2, Run, ValidAlgorithm, BigEndian, CrcOf;
    AllValid(T10DIF);
    hide ALGORITHMS;
    NothingLeft(T10DIF, seed, buf);
  }
}
