/** What ties each CRC to its polynomial: the published check values of "123456789", and the residue that
    a message leaves when its own CRC is appended. */
module CrcChecks {
  import opened Bits
  import opened BitStream
  import opened Crc
  import opened CrcFamilies
  import opened CrcDetection
  import opened CrcWords

  // ----- the check values

  /** "123456789" */
  const DIGITS: seq<Octet> := [0x31, 0x32, 0x33, 0x34, 0x35, 0x36, 0x37, 0x38, 0x39]

  /** With the bits of every byte reversed. */
  const TURNED_DIGITS: seq<Octet> := [0x8C, 0x4C, 0xCC, 0x2C, 0xAC, 0x6C, 0xEC, 0x1C, 0x9C]

  function OnByte(p: bv64, r: bv64, byte: bv64): bv64 {
    EightSteps(p, WordXor(r, byte))
  }

  lemma OnByteIs(g: Algorithm, p: bv64, r: bv64, byte: bv64, octet: Octet)
    requires g.width >= 8 && g.reflected && g.poly == Value(p) && Value(byte) == octet
    ensures ByteStep(g, Value(r), octet) == Value(OnByte(p, r, byte))
  {
    hide Value, Xor, WordXor, ReflSteps, EightSteps;
    XorIsWordXor(r, byte);
    EightStepsIs(p, WordXor(r, byte));
  }

  function OnThree(p: bv64, r: bv64, a: bv64, b: bv64, c: bv64): bv64 {
    OnByte(p, OnByte(p, OnByte(p, r, a), b), c)
  }

  lemma OnThreeIs(g: Algorithm, p: bv64, r: bv64, a: bv64, b: bv64, c: bv64, buf: seq<Octet>)
    requires g.width >= 8 && g.reflected && g.poly == Value(p)
    requires |buf| == 3 && Value(a) == buf[0] && Value(b) == buf[1] && Value(c) == buf[2]
    ensures Run(g, Value(r), buf) == Value(OnThree(p, r, a, b, c))
  {
    hide Value, ByteStep, OnByte;
    var s := OnByte(p, r, a);
    var t := OnByte(p, s, b);
    OnByteIs(g, p, r, a, buf[0]); OnByteIs(g, p, s, b, buf[1]); OnByteIs(g, p, t, c, buf[2]);
    RunThree(g, Value(r), buf);
  }

  lemma RunThree(g: Algorithm, rem: nat, buf: seq<Octet>)
    requires g.width >= 8 && |buf| == 3
    ensures Run(g, rem, buf) == ByteStep(g, ByteStep(g, ByteStep(g, rem, buf[0]), buf[1]), buf[2])
  {
    hide ByteStep, Run;
    var s := ByteStep(g, rem, buf[0]);
    var t := ByteStep(g, s, buf[1]);
    RunOne(g, rem, buf);
    RunOne(g, s, buf[1..]);
    RunOne(g, t, buf[1..][1..]);
    RunNothing(g, ByteStep(g, t, buf[2]), buf[1..][1..][1..]);
  }

  lemma RunOne(g: Algorithm, rem: nat, buf: seq<Octet>)
    requires g.width >= 8 && |buf| > 0
    ensures Run(g, rem, buf) == Run(g, ByteStep(g, rem, buf[0]), buf[1..])
  {
    hide ByteStep;
  }

  lemma RunParts(g: Algorithm, rem: nat, a: seq<Octet>, b: seq<Octet>, c: seq<Octet>)
    requires g.width >= 8
    ensures Run(g, rem, a + (b + c)) == Run(g, Run(g, Run(g, rem, a), b), c)
  {
    hide Run;
    RunAppend(g, rem, a, b + c);
    RunAppend(g, Run(g, rem, a), b, c);
  }

  function OnDigits(p: bv64, r: bv64): bv64 {
    var r := EightSteps(p, WordXor(r, 0x31)); var r := EightSteps(p, WordXor(r, 0x32));
    var r := EightSteps(p, WordXor(r, 0x33)); var r := EightSteps(p, WordXor(r, 0x34));
    var r := EightSteps(p, WordXor(r, 0x35)); var r := EightSteps(p, WordXor(r, 0x36));
    var r := EightSteps(p, WordXor(r, 0x37)); var r := EightSteps(p, WordXor(r, 0x38));
    EightSteps(p, WordXor(r, 0x39))
  }

  function OnTurnedDigits(p: bv64, r: bv64): bv64 {
    var r := EightSteps(p, WordXor(r, 0x8C)); var r := EightSteps(p, WordXor(r, 0x4C));
    var r := EightSteps(p, WordXor(r, 0xCC)); var r := EightSteps(p, WordXor(r, 0x2C));
    var r := EightSteps(p, WordXor(r, 0xAC)); var r := EightSteps(p, WordXor(r, 0x6C));
    var r := EightSteps(p, WordXor(r, 0xEC)); var r := EightSteps(p, WordXor(r, 0x1C));
    EightSteps(p, WordXor(r, 0x9C))
  }

  lemma DigitsByThrees(p: bv64, r: bv64)
    ensures OnDigits(p, r)
      == OnThree(p, OnThree(p, OnThree(p, r, 0x31, 0x32, 0x33), 0x34, 0x35, 0x36), 0x37, 0x38, 0x39)
    ensures OnTurnedDigits(p, r)
      == OnThree(p, OnThree(p, OnThree(p, r, 0x8C, 0x4C, 0xCC), 0x2C, 0xAC, 0x6C), 0xEC, 0x1C, 0x9C)
  {
    hide EightSteps, WordXor;
  }

  lemma DigitValues()
    ensures Value(0x31) == 0x31 && Value(0x32) == 0x32 && Value(0x33) == 0x33
    ensures Value(0x34) == 0x34 && Value(0x35) == 0x35 && Value(0x36) == 0x36
    ensures Value(0x37) == 0x37 && Value(0x38) == 0x38 && Value(0x39) == 0x39
  {
    hide Value;
    ByteValue(0x31); ByteValue(0x32); ByteValue(0x33);
    ByteValue(0x34); ByteValue(0x35); ByteValue(0x36);
    ByteValue(0x37); ByteValue(0x38); ByteValue(0x39);
  }

  lemma TurnedDigitValues()
    ensures Value(0x8C) == 0x8C && Value(0x4C) == 0x4C && Value(0xCC) == 0xCC
    ensures Value(0x2C) == 0x2C && Value(0xAC) == 0xAC && Value(0x6C) == 0x6C
    ensures Value(0xEC) == 0xEC && Value(0x1C) == 0x1C && Value(0x9C) == 0x9C
  {
    hide Value;
    ByteValue(0x8C); ByteValue(0x4C); ByteValue(0xCC);
    ByteValue(0x2C); ByteValue(0xAC); ByteValue(0x6C);
    ByteValue(0xEC); ByteValue(0x1C); ByteValue(0x9C);
  }

  lemma DigitsRun(g: Algorithm, p: bv64, r: bv64)
    requires g.width >= 8 && g.reflected && g.poly == Value(p)
    ensures Run(g, Value(r), DIGITS) == Value(OnDigits(p, r))
  {
    DigitValues();
    DigitsByThrees(p, r);
    hide Value, OnThree, Run, OnDigits;
    var s := OnThree(p, r, 0x31, 0x32, 0x33);
    var t := OnThree(p, s, 0x34, 0x35, 0x36);
    OnThreeIs(g, p, r, 0x31, 0x32, 0x33, [0x31, 0x32, 0x33]);
    OnThreeIs(g, p, s, 0x34, 0x35, 0x36, [0x34, 0x35, 0x36]);
    OnThreeIs(g, p, t, 0x37, 0x38, 0x39, [0x37, 0x38, 0x39]);
    RunParts(g, Value(r), [0x31, 0x32, 0x33], [0x34, 0x35, 0x36], [0x37, 0x38, 0x39]);
    assert DIGITS == [0x31, 0x32, 0x33] + ([0x34, 0x35, 0x36] + [0x37, 0x38, 0x39]);
  }

  lemma TurnedDigitsRun(g: Algorithm, p: bv64, r: bv64)
    requires g.width >= 8 && g.reflected && g.poly == Value(p)
    ensures Run(g, Value(r), TURNED_DIGITS) == Value(OnTurnedDigits(p, r))
  {
    TurnedDigitValues();
    DigitsByThrees(p, r);
    hide Value, OnThree, Run, OnTurnedDigits;
    var s := OnThree(p, r, 0x8C, 0x4C, 0xCC);
    var t := OnThree(p, s, 0x2C, 0xAC, 0x6C);
    OnThreeIs(g, p, r, 0x8C, 0x4C, 0xCC, [0x8C, 0x4C, 0xCC]);
    OnThreeIs(g, p, s, 0x2C, 0xAC, 0x6C, [0x2C, 0xAC, 0x6C]);
    OnThreeIs(g, p, t, 0xEC, 0x1C, 0x9C, [0xEC, 0x1C, 0x9C]);
    RunParts(g, Value(r), [0x8C, 0x4C, 0xCC], [0x2C, 0xAC, 0x6C], [0xEC, 0x1C, 0x9C]);
    assert TURNED_DIGITS == [0x8C, 0x4C, 0xCC] + ([0x2C, 0xAC, 0x6C] + [0xEC, 0x1C, 0x9C]);
  }

  /** The same with values that can be read off. */
  lemma DigitsRegister(g: Algorithm, p: bv64, r: bv64)
    requires g.width >= 8 && g.reflected && g.poly == Low64(p)
    ensures Run(g, Low64(r), DIGITS) == Low64(OnDigits(p, r))
  {
    hide Value, Run, OnDigits, Low64;
    ValueIs(p); ValueIs(r); ValueIs(OnDigits(p, r));
    DigitsRun(g, p, r);
  }

  lemma TurnedDigitsRegister(g: Algorithm, p: bv64, r: bv64)
    requires g.width >= 8 && g.reflected && g.poly == Low64(p)
    ensures Run(g, Low64(r), TURNED_DIGITS) == Low64(OnTurnedDigits(p, r))
  {
    hide Value, Run, OnTurnedDigits, Low64;
    ValueIs(p); ValueIs(r); ValueIs(OnTurnedDigits(p, r));
    TurnedDigitsRun(g, p, r);
  }

  lemma EcmaDigits()
    ensures Run(ECMA_REFL, 0xFFFFFFFFFFFFFFFF, DIGITS) == 0x66A2364420E6C605
  {
    assert OnDigits(0xC96C5795D7870F42, 0xFFFFFFFFFFFFFFFF) == 0x66A2364420E6C605;
    assert Low64(0xC96C5795D7870F42) == 0xC96C5795D7870F42 && Low64(0xFFFFFFFFFFFFFFFF) == 0xFFFFFFFFFFFFFFFF;
    assert Low64(0x66A2364420E6C605) == 0x66A2364420E6C605;
    hide Run, OnDigits, Low64;
    DigitsRegister(ECMA_REFL, 0xC96C5795D7870F42, 0xFFFFFFFFFFFFFFFF);
  }

  lemma IsoDigits()
    ensures Run(ISO_REFL, 0xFFFFFFFFFFFFFFFF, DIGITS) == 0x46F6A9388A5BEFFE
  {
    assert OnDigits(0xD800000000000000, 0xFFFFFFFFFFFFFFFF) == 0x46F6A9388A5BEFFE;
    assert Low64(0xD800000000000000) == 0xD800000000000000 && Low64(0xFFFFFFFFFFFFFFFF) == 0xFFFFFFFFFFFFFFFF;
    assert Low64(0x46F6A9388A5BEFFE) == 0x46F6A9388A5BEFFE;
    hide Run, OnDigits, Low64;
    DigitsRegister(ISO_REFL, 0xD800000000000000, 0xFFFFFFFFFFFFFFFF);
  }

  lemma JonesDigits()
    ensures Run(JONES_REFL, 0xFFFFFFFFFFFFFFFF, DIGITS) == 0xCAA717168609F281
  {
    assert OnDigits(0x95AC9329AC4BC9B5, 0xFFFFFFFFFFFFFFFF) == 0xCAA717168609F281;
    assert Low64(0x95AC9329AC4BC9B5) == 0x95AC9329AC4BC9B5 && Low64(0xFFFFFFFFFFFFFFFF) == 0xFFFFFFFFFFFFFFFF;
    assert Low64(0xCAA717168609F281) == 0xCAA717168609F281;
    hide Run, OnDigits, Low64;
    DigitsRegister(JONES_REFL, 0x95AC9329AC4BC9B5, 0xFFFFFFFFFFFFFFFF);
  }

  lemma RocksoftDigits()
    ensures Run(ROCKSOFT_REFL, 0xFFFFFFFFFFFFFFFF, DIGITS) == 0x5174EB79F5866777
  {
    assert OnDigits(0x9A6C9329AC4BC9B5, 0xFFFFFFFFFFFFFFFF) == 0x5174EB79F5866777;
    assert Low64(0x9A6C9329AC4BC9B5) == 0x9A6C9329AC4BC9B5 && Low64(0xFFFFFFFFFFFFFFFF) == 0xFFFFFFFFFFFFFFFF;
    assert Low64(0x5174EB79F5866777) == 0x5174EB79F5866777;
    hide Run, OnDigits, Low64;
    DigitsRegister(ROCKSOFT_REFL, 0x9A6C9329AC4BC9B5, 0xFFFFFFFFFFFFFFFF);
  }

  lemma IscsiDigits()
    ensures Run(ISCSI, 0xFFFFFFFF, DIGITS) == 0x1CF96D7C
  {
    assert OnDigits(0x82F63B78, 0xFFFFFFFF) == 0x1CF96D7C;
    assert Low64(0x82F63B78) == 0x82F63B78 && Low64(0xFFFFFFFF) == 0xFFFFFFFF;
    assert Low64(0x1CF96D7C) == 0x1CF96D7C;
    hide Run, OnDigits, Low64;
    DigitsRegister(ISCSI, 0x82F63B78, 0xFFFFFFFF);
  }

  lemma GzipDigits()
    ensures Run(GZIP_REFL, 0xFFFFFFFF, DIGITS) == 0x340BC6D9
  {
    assert OnDigits(0xEDB88320, 0xFFFFFFFF) == 0x340BC6D9;
    assert Low64(0xEDB88320) == 0xEDB88320 && Low64(0xFFFFFFFF) == 0xFFFFFFFF;
    assert Low64(0x340BC6D9) == 0x340BC6D9;
    hide Run, OnDigits, Low64;
    DigitsRegister(GZIP_REFL, 0xEDB88320, 0xFFFFFFFF);
  }

  /** The published check values of the reflected ones: CRC-64/XZ, CRC-64/GO-ISO, the one of Jones with a
      complemented register, CRC-64/NVME, CRC-32C before its last complement, and CRC-32. */
  lemma CheckValues()
    ensures CrcOf(ECMA_REFL, 0, DIGITS) == 0x995DC9BBDF1939FA
    ensures CrcOf(ISO_REFL, 0, DIGITS) == 0xB90956C775A41001
    ensures CrcOf(JONES_REFL, 0, DIGITS) == 0x3558E8E979F60D7E
    ensures CrcOf(ROCKSOFT_REFL, 0, DIGITS) == 0xAE8B14860A799888
    ensures CrcOf(ISCSI, 0xFFFFFFFF, DIGITS) == 0x1CF96D7C
    ensures CrcOf(GZIP_REFL, 0, DIGITS) == 0xCBF43926
  {
    Powers();
    hide Run, Pow2;
    EcmaDigits(); IsoDigits(); JonesDigits(); RocksoftDigits(); IscsiDigits(); GzipDigits();
  }

  lemma ByteTurned(w: bv64)
    requires w < 0x100
    ensures Rev(8, Low8(w)) == Turned8(w)
  {
    hide Value, Rev, Turned8, Low8, Low64, Turned16, Turned32;
    ByteValue(w);
    ValueIs(w);
    TurnedIs(w);
  }

  lemma EachTurned()
    ensures Rev(8, 0x31) == 0x8C && Rev(8, 0x32) == 0x4C && Rev(8, 0x33) == 0xCC
    ensures Rev(8, 0x34) == 0x2C && Rev(8, 0x35) == 0xAC && Rev(8, 0x36) == 0x6C
    ensures Rev(8, 0x37) == 0xEC && Rev(8, 0x38) == 0x1C && Rev(8, 0x39) == 0x9C
  {
    hide Rev;
    ByteTurned(0x31); ByteTurned(0x32); ByteTurned(0x33);
    ByteTurned(0x34); ByteTurned(0x35); ByteTurned(0x36);
    ByteTurned(0x37); ByteTurned(0x38); ByteTurned(0x39);
  }

  lemma DigitsTurned()
    ensures RevBytes(DIGITS) == TURNED_DIGITS && RevBytes(TURNED_DIGITS) == DIGITS
  {
    hide Rev, RevBytes;
    EachTurned();
    RevBytesTwice(DIGITS);
    RevBytesAre(DIGITS, TURNED_DIGITS);
  }

  lemma {:induction false} RevBytesAre(buf: seq<Octet>, turned: seq<Octet>)
    requires |buf| == |turned|
    requires forall i :: 0 <= i < |buf| ==> Rev(8, buf[i]) == turned[i]
    ensures RevBytes(buf) == turned
    decreases |buf|
  {
    hide Rev;
    if buf != [] { RevBytesAre(buf[1..], turned[1..]); }
  }

  /** What a normal CRC makes of the digits, from what its mirror image makes of the turned ones. */
  lemma MirroredDigits(g: Algorithm)
    requires ValidAlgorithm(g) && g.reflected
    ensures CrcOf(Mirror(g), 0, DIGITS) == Rev(g.width, CrcOf(g, 0, TURNED_DIGITS))
  {
    hide Run, Rev, Pow2, RevBytes;
    RevZero(g.width);
    DigitsTurned();
    ReflectedIsReversedNormal(g, 0, TURNED_DIGITS);
  }

  /** T10-DIF seen from the other end. */
  const TURNED_T10DIF := Algorithm(16, 0xEDD1, true, false)

  lemma T10DifDigits()
    ensures Run(TURNED_T10DIF, 0, TURNED_DIGITS) == 0xDB0B
  {
    assert OnTurnedDigits(0xEDD1, 0) == 0xDB0B;
    assert Low64(0xEDD1) == 0xEDD1 && Low64(0) == 0 && Low64(0xDB0B) == 0xDB0B;
    hide Run, OnTurnedDigits, Low64;
    TurnedDigitsRegister(TURNED_T10DIF, 0xEDD1, 0);
  }

  lemma T10DifTurned()
    ensures Rev(16, 0xEDD1) == 0x8BB7 && Rev(16, 0xDB0B) == 0xD0DB
  {
    assert Turned16(0xEDD1) == 0x8BB7 && Turned16(0xDB0B) == 0xD0DB;
    assert Low64(0xEDD1) == 0xEDD1 && Low64(0xDB0B) == 0xDB0B;
    hide Rev, Turned8, Turned16, Turned32, Low64;
    TurnedIs(0xEDD1); TurnedIs(0xDB0B);
  }

  /** The published check value of CRC-16/T10-DIF. */
  lemma T10DifCheck()
    ensures CrcOf(T10DIF, 0, DIGITS) == 0xD0DB
  {
    Powers();
    T10DifTurned();
    hide Run, Rev, Pow2;
    T10DifDigits();
    MirroredDigits(TURNED_T10DIF);
  }

  lemma GzipTurnedDigits()
    ensures Run(GZIP_REFL, 0xFFFFFFFF, TURNED_DIGITS) == 0xE7676EC0
  {
    assert OnTurnedDigits(0xEDB88320, 0xFFFFFFFF) == 0xE7676EC0;
    assert Low64(0xEDB88320) == 0xEDB88320 && Low64(0xFFFFFFFF) == 0xFFFFFFFF;
    assert Low64(0xE7676EC0) == 0xE7676EC0;
    hide Run, OnTurnedDigits, Low64;
    TurnedDigitsRegister(GZIP_REFL, 0xEDB88320, 0xFFFFFFFF);
  }

  lemma IeeeTurned()
    ensures Rev(32, 0x1898913F) == 0xFC891918
  {
    assert Low64(0x1898913F) == 0x1898913F;
    assert Turned32(0x1898913F) == 0xFC891918;
    hide Rev, Turned8, Turned16, Turned32, Low64;
    TurnedIs(0x1898913F);
  }

  /** The published check value of CRC-32/BZIP2. */
  lemma IeeeCheck()
    ensures CrcOf(IEEE, 0, DIGITS) == 0xFC891918
  {
    hide Run, Rev, Mirror, ValidAlgorithm;
    AllValid(GZIP_REFL);
    MirrorPairs();
    IeeeTurned();
    GzipTurnedDigits();
    Powers();
    hide Pow2;
    MirroredDigits(GZIP_REFL);
  }

  lemma EcmaTurnedDigits()
    ensures Run(ECMA_REFL, 0xFFFFFFFFFFFFFFFF, TURNED_DIGITS) == 0xAFF0DA703865C8B9
  {
    assert OnTurnedDigits(0xC96C5795D7870F42, 0xFFFFFFFFFFFFFFFF) == 0xAFF0DA703865C8B9;
    assert Low64(0xC96C5795D7870F42) == 0xC96C5795D7870F42 && Low64(0xFFFFFFFFFFFFFFFF) == 0xFFFFFFFFFFFFFFFF;
    assert Low64(0xAFF0DA703865C8B9) == 0xAFF0DA703865C8B9;
    hide Run, OnTurnedDigits, Low64;
    TurnedDigitsRegister(ECMA_REFL, 0xC96C5795D7870F42, 0xFFFFFFFFFFFFFFFF);
  }

  lemma EcmaTurned()
    ensures Rev(64, 0x500F258FC79A3746) == 0x62EC59E3F1A4F00A
  {
    assert Low64(0x500F258FC79A3746) == 0x500F258FC79A3746;
    assert Turned32(0x500F258FC79A3746) == 0x62EC59E3;
    assert Turned32(0x500F258F) == 0xF1A4F00A;
    hide Rev, Turned32, Low64;
    WideTurnedIs(0x500F258FC79A3746);
  }

  /** The published check value of CRC-64/WE. */
  lemma EcmaNormCheck()
    ensures CrcOf(ECMA_NORM, 0, DIGITS) == 0x62EC59E3F1A4F00A
  {
    hide Run, Rev, Mirror, ValidAlgorithm;
    AllValid(ECMA_REFL);
    MirrorPairs();
    EcmaTurned();
    EcmaTurnedDigits();
    Powers();
    hide Pow2;
    MirroredDigits(ECMA_REFL);
  }
}
