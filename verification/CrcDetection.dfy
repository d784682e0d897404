/** What the CRCs detect: two buffers that differ only within a window no longer than the CRC. */
module CrcDetection {
  import opened Bits
  import opened BitStream
  import opened Crc
  import opened CrcFamilies

  // ----- feeding one bit at a time

  function BitValue(b: bool): nat {
    if b then 1 else 0
  }

  /** Adds each bit at the low end, then steps. */
  function Feed(poly: nat, rem: nat, bits: seq<bool>): nat
    decreases |bits|
  {
    if bits == [] then rem else Feed(poly, Refl(poly, Xor(rem, BitValue(bits[0]))), bits[1..])
  }

  lemma LowBitAdded(bit: nat, high: nat)
    requires bit < 2
    ensures Xor(bit, 2 * high) == bit + 2 * high
  {
    assert (2 * high) / 2 == high && bit / 2 == 0;
    XorZero(high);
  }

  /** Bits that come later can as well be added at once, further up. */
  lemma {:induction false} FeedIsSteps(poly: nat, rem: nat, bits: seq<bool>)
    ensures Feed(poly, rem, bits) == ReflSteps(poly, Xor(rem, BitsValue(bits)), |bits|)
    decreases |bits|
  {
    hide Xor, Refl;
    if bits == [] {
      XorZero(rem);
    } else {
      var bit, high := BitValue(bits[0]), BitsValue(bits[1..]);
      LowBitAdded(bit, high);
      XorAssociates(rem, bit, 2 * high);
      ReflLinear(poly, Xor(rem, bit), 2 * high);
      ReflDouble(poly, high);
      FeedIsSteps(poly, Refl(poly, Xor(rem, bit)), bits[1..]);
    }
  }

  lemma {:induction false} FeedAppend(poly: nat, rem: nat, a: seq<bool>, b: seq<bool>)
    ensures Feed(poly, rem, a + b) == Feed(poly, Feed(poly, rem, a), b)
    decreases |a|
  {
    hide Refl, Xor;
    if a == [] {
      assert a + b == b;
    } else {
      assert (a + b)[1..] == a[1..] + b;
      FeedAppend(poly, Refl(poly, Xor(rem, BitValue(a[0]))), a[1..], b);
    }
  }

  /** A reflected CRC reads its buffer as a sequence of bits, low bit of each byte first. */
  lemma {:induction false} RunIsFeed(g: Algorithm, rem: nat, buf: seq<Octet>)
    requires g.width >= 8 && g.reflected
    ensures Run(g, rem, buf) == Feed(g.poly, rem, ByteBits(buf))
    decreases |buf|
  {
    hide Xor, Feed, ReflSteps, NatBits;
    if buf == [] {
      FeedNothing(g.poly, rem);
    } else {
      ByteIsPow2();
      FeedIsSteps(g.poly, rem, NatBits(buf[0], 8));
      BitsValueInverts(buf[0], 8);
      FeedAppend(g.poly, rem, NatBits(buf[0], 8), ByteBits(buf[1..]));
      RunIsFeed(g, ByteStep(g, rem, buf[0]), buf[1..]);
    }
  }

  lemma FeedNothing(poly: nat, rem: nat)
    ensures Feed(poly, rem, []) == rem
  {
  }

  // ----- differences

  function Difference(a: seq<bool>, b: seq<bool>): (d: seq<bool>)
    requires |a| == |b|
    ensures |d| == |a| && forall i :: 0 <= i < |d| ==> d[i] == (a[i] != b[i])
  {
    seq(|a|, i requires 0 <= i < |a| => a[i] != b[i])
  }

  /** The difference of two runs is the run of the difference. */
  lemma {:induction false} FeedDifference(poly: nat, x: nat, y: nat, a: seq<bool>, b: seq<bool>)
    requires |a| == |b|
    ensures Xor(Feed(poly, x, a), Feed(poly, y, b)) == Feed(poly, Xor(x, y), Difference(a, b))
    decreases |a|
  {
    hide Xor, Refl;
    if a != [] {
      var p, q := BitValue(a[0]), BitValue(b[0]);
      XorSwap(x, p, y, q);
      XorOfBitValues(a[0], b[0]);
      ReflLinear(poly, Xor(x, p), Xor(y, q));
      assert Difference(a, b)[1..] == Difference(a[1..], b[1..]);
      FeedDifference(poly, Refl(poly, Xor(x, p)), Refl(poly, Xor(y, q)), a[1..], b[1..]);
    }
  }

  lemma XorOfBitValues(a: bool, b: bool)
    ensures Xor(BitValue(a), BitValue(b)) == BitValue(a != b)
  {
    assert Xor(0, 0) == 0;
    XorZero(1);
    XorSelf(1);
  }

  ghost predicate AllZero(bits: seq<bool>) {
    forall i :: 0 <= i < |bits| ==> !bits[i]
  }

  lemma {:induction false} FeedZeros(poly: nat, rem: nat, bits: seq<bool>)
    requires AllZero(bits)
    ensures Feed(poly, rem, bits) == ReflSteps(poly, rem, |bits|)
    decreases |bits|
  {
    hide Xor, Refl;
    if bits != [] {
      XorZero(rem);
      FeedZeros(poly, Refl(poly, rem), bits[1..]);
    }
  }

  lemma {:induction false} StepsFromZero(poly: nat, n: nat)
    ensures ReflSteps(poly, 0, n) == 0
    decreases n
  {
    if n > 0 {
      XorZero(0);
      StepsFromZero(poly, n - 1);
    }
  }

  lemma {:induction false} ValueBound(bits: seq<bool>)
    ensures BitsValue(bits) < Pow2(|bits|)
    ensures BitsValue(bits) == 0 <==> AllZero(bits)
    decreases |bits|
  {
    if bits != [] {
      ValueBound(bits[1..]);
      if BitsValue(bits) == 0 {
        assert forall i :: 0 < i < |bits| ==> bits[i] == bits[1..][i - 1];
      } else if !bits[0] {
        var i :| 0 <= i < |bits[1..]| && bits[1..][i];
        assert bits[i + 1];
      }
    }
  }

  /** A difference within a window of at most w bits never dies out. */
  lemma WindowSurvives(w: nat, poly: nat, bits: seq<bool>, lo: nat, n: nat)
    requires w > 0 && Pow2(w - 1) <= poly < Pow2(w)
    requires n <= w && lo + n <= |bits| && !AllZero(bits)
    requires AllZero(bits[..lo]) && AllZero(bits[lo + n..])
    ensures Feed(poly, 0, bits) != 0
  {
    hide Feed, Pow2, ReflSteps;
    var before, window, after := bits[..lo], bits[lo..lo + n], bits[lo + n..];
    assert bits == before + (window + after);
    FeedAppend(poly, 0, before, window + after);
    FeedZeros(poly, 0, before);
    StepsFromZero(poly, |before|);
    FeedAppend(poly, 0, window, after);
    FeedIsSteps(poly, 0, window);
    XorZero(BitsValue(window));
    ValueBound(window);
    Pow2AtMost(n, w);
    ZeroOutside(bits, lo, n);
    ReflStepsNonzero(w, poly, BitsValue(window), n);
    FeedZeros(poly, ReflSteps(poly, BitsValue(window), n), after);
    ReflStepsNonzero(w, poly, ReflSteps(poly, BitsValue(window), n), |after|);
  }

  lemma ZeroOutside(bits: seq<bool>, lo: nat, n: nat)
    requires lo + n <= |bits| && !AllZero(bits) && AllZero(bits[..lo]) && AllZero(bits[lo + n..])
    ensures !AllZero(bits[lo..lo + n])
  {
    assert forall i :: 0 <= i < lo ==> bits[i] == bits[..lo][i];
    assert forall i :: lo + n <= i < |bits| ==> bits[i] == bits[lo + n..][i - lo - n];
    var i :| 0 <= i < |bits| && bits[i];
    assert bits[lo..lo + n][i - lo];
  }

  // ----- bursts

  /** The bits of a buffer in the order in which the algorithm takes them. */
  function StreamBits(g: Algorithm, buf: seq<Octet>): (bits: seq<bool>)
    ensures |bits| == 8 * |buf|
  {
    ByteBits(if g.reflected then buf else RevBytes(buf))
  }

  ghost predicate SameOutside(a: seq<bool>, b: seq<bool>, lo: nat, n: nat) {
    && |a| == |b| && lo + n <= |a|
    && a[..lo] == b[..lo] && a[lo + n..] == b[lo + n..]
  }

  lemma {:induction false} ByteBitsInjective(a: seq<Octet>, b: seq<Octet>)
    requires ByteBits(a) == ByteBits(b)
    ensures a == b
    decreases |a|
  {
    hide NatBits;
    assert |a| == |b|;
    if a != [] {
      ByteIsPow2();
      assert ByteBits(a)[..8] == NatBits(a[0], 8) && ByteBits(b)[..8] == NatBits(b[0], 8);
      assert ByteBits(a)[8..] == ByteBits(a[1..]) && ByteBits(b)[8..] == ByteBits(b[1..]);
      BitsValueInverts(a[0], 8);
      BitsValueInverts(b[0], 8);
      ByteBitsInjective(a[1..], b[1..]);
      assert a == [a[0]] + a[1..] && b == [b[0]] + b[1..];
    }
  }

  /** For a reflected CRC. */
  lemma ReflectedBurst(g: Algorithm, seed: nat, a: seq<Octet>, b: seq<Octet>, lo: nat, n: nat)
    requires ValidAlgorithm(g) && g.reflected && seed < Pow2(g.width)
    requires a != b && n <= g.width && SameOutside(ByteBits(a), ByteBits(b), lo, n)
    ensures CrcOf(g, seed, a) != CrcOf(g, seed, b)
  {
    hide Pow2, Feed, Run, Xor, ByteBits, Complement;
    var x, y, rem := ByteBits(a), ByteBits(b), Ends(g, seed);
    if x == y { ByteBitsInjective(a, b); }
    var d := Difference(x, y);
    DifferenceWindow(x, y, lo, n);
    FeedDifference(g.poly, rem, rem, x, y);
    XorSelf(rem);
    WindowSurvives(g.width, g.poly, d, lo, n);
    RunIsFeed(g, rem, a);
    RunIsFeed(g, rem, b);
    XorCancels(Run(g, rem, a), Run(g, rem, b));
    EndsInjective(g, seed, a, b);
  }

  lemma DifferenceWindow(a: seq<bool>, b: seq<bool>, lo: nat, n: nat)
    requires SameOutside(a, b, lo, n) && a != b
    ensures !AllZero(Difference(a, b)) && AllZero(Difference(a, b)[..lo]) && AllZero(Difference(a, b)[lo + n..])
  {
    var d := Difference(a, b);
    var i :| 0 <= i < |a| && a[i] != b[i];
    assert d[i];
    assert forall j :: 0 <= j < lo ==> a[j] == a[..lo][j] == b[..lo][j] == b[j];
    assert forall j :: lo + n <= j < |a| ==> a[j] == a[lo + n..][j - lo - n] == b[lo + n..][j - lo - n] == b[j];
  }

  lemma EndsInjective(g: Algorithm, seed: nat, a: seq<Octet>, b: seq<Octet>)
    requires ValidAlgorithm(g) && seed < Pow2(g.width)
    requires Run(g, Ends(g, seed), a) != Run(g, Ends(g, seed), b)
    ensures CrcOf(g, seed, a) != CrcOf(g, seed, b)
  {
    hide Pow2, Run;
    ComplementTwice(g.width, seed);
    RunBound(g, Ends(g, seed), a);
    RunBound(g, Ends(g, seed), b);
    ComplementTwice(g.width, Run(g, Ends(g, seed), a));
    ComplementTwice(g.width, Run(g, Ends(g, seed), b));
  }

  lemma {:induction false} RevBytesTwice(buf: seq<Octet>)
    ensures RevBytes(RevBytes(buf)) == buf
  {
    hide Rev;
    if buf != [] {
      ByteIsPow2();
      RevInvolutive(8, buf[0]);
      RevBytesTwice(buf[1..]);
      assert RevBytes(buf)[1..] == RevBytes(buf[1..]);
    }
  }

  /** The mirror image of a normal algorithm is a valid reflected one, and the other way round. */
  lemma MirrorValid(g: Algorithm)
    requires ValidAlgorithm(g) && !g.reflected
    ensures ValidAlgorithm(Mirror(g)) && Mirror(Mirror(g)) == g
  {
    hide Pow2;
    RevInvolutive(g.width, g.poly);
    RevStep(g.width, g.poly);
    hide Rev;
  }

  /** Two buffers of equal length that differ only within a window of at most as many bits as the CRC
      has, have different CRCs under any seed. */
  lemma BurstDetected(g: Algorithm, seed: nat, a: seq<Octet>, b: seq<Octet>, lo: nat, n: nat)
    requires ValidAlgorithm(g) && seed < Pow2(g.width)
    requires a != b && n <= g.width && SameOutside(StreamBits(g, a), StreamBits(g, b), lo, n)
    ensures CrcOf(g, seed, a) != CrcOf(g, seed, b)
  {
    hide Pow2, Rev, Run, Ends, ValidAlgorithm, ByteBits, SameOutside;
    if g.reflected {
      ReflectedBurst(g, seed, a, b, lo, n);
    } else {
      var m := Mirror(g);
      MirrorValid(g);
      PolynomialFits(g);
      RevInvolutive(g.width, seed);
      RevBytesTwice(a);
      RevBytesTwice(b);
      ReflectedBurst(m, Rev(g.width, seed), RevBytes(a), RevBytes(b), lo, n);
      ReflectedIsReversedNormal(m, Rev(g.width, seed), RevBytes(a));
      ReflectedIsReversedNormal(m, Rev(g.width, seed), RevBytes(b));
      MirrorBounded(m, Rev(g.width, seed), RevBytes(a));
      MirrorBounded(m, Rev(g.width, seed), RevBytes(b));
    }
  }

  /** The reversal of a result determines it. */
  lemma MirrorBounded(g: Algorithm, seed: nat, buf: seq<Octet>)
    requires ValidAlgorithm(g) && seed < Pow2(g.width)
    ensures g.width >= 8 && Rev(g.width, Rev(g.width, CrcOf(g, seed, buf))) == CrcOf(g, seed, buf)
  {
    hide Pow2, Rev, Run, Ends;
    StartsBounded(g, seed, buf);
    RevInvolutive(g.width, CrcOf(g, seed, buf));
  }
}
