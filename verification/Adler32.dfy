/** Adler-32 (adler32_base.c): sums in 64 bits with one reduction for each 2^28 bytes, against the
    definition of section 2.2 of RFC 1950 that reduces at every byte. */
module Adler32 {
  import opened Arithmetic
  import opened Bits
  import opened BitStream

  const ADLER_MOD: nat := 65521
  const MAX_ADLER_BUF: nat := 0x1000_0000

  /** As section 8.2 of RFC 1950 says, it is the largest prime below 65536. */
  lemma ModulusIsLargestPrime(d: nat)
    requires 1 < d < ADLER_MOD
    ensures ADLER_MOD % d != 0 && ADLER_MOD < 65536
    ensures forall n :: ADLER_MOD < n < 65536 ==> HasDivisor(n)
  {
    if ADLER_MOD % d == 0 {
      var e := ADLER_MOD / d;
      assert d * e == 65521;
      SmallFactor(65521, d, e);
      if d <= 255 { NoSmallDivisor(d); } else { NoSmallDivisor(e); }
    }
    LargerOnesDivide();
  }

  /** Of two factors one is below 256. */
  lemma SmallFactor(n: nat, d: nat, e: nat)
    requires 1 < d < n < 65536 && d * e == n
    ensures 2 <= e && (d <= 255 || e <= 255) && n % e == 0
  {
    assert d * 0 == 0 && d * 1 == d;
    if d >= 256 && e >= 256 {
      ProductMonotone(256, d, e);
    }
    DivModUnique(n, d, 0, e);
  }

  ghost predicate HasDivisor(n: nat) {
    exists d: nat, e: nat :: 1 < d < n && 1 < e && n == Times(d, e)
  }

  lemma NoSmallDivisor(d: nat)
    requires 2 <= d <= 255
    ensures 65521 % d != 0
  {
  }

  lemma Divides(n: nat, d: nat, e: nat)
    requires 1 < d < n && 1 < e && n == d * e
    ensures HasDivisor(n)
  {
    assert n == Times(d, e);
  }

  lemma LargerOnesDivide()
    ensures forall n :: ADLER_MOD < n < 65536 ==> HasDivisor(n)
  {
    Divides(65522, 2, 32761); Divides(65523, 3, 21841); Divides(65524, 2, 32762); Divides(65525, 5, 13105);
    Divides(65526, 2, 32763); Divides(65527, 7, 9361); Divides(65528, 2, 32764); Divides(65529, 3, 21843);
    Divides(65530, 2, 32765); Divides(65531, 19, 3449); Divides(65532, 2, 32766); Divides(65533, 13, 5041);
    Divides(65534, 2, 32767); Divides(65535, 3, 21845);
  }

  /** (b << 16) | a */
  function Join(a: nat, b: nat): nat {
    Or(a, b * 65536)
  }

  lemma JoinIs(a: nat, b: nat)
    requires a < 65536
    ensures Join(a, b) == a + b * 65536 && Join(a, b) % 65536 == a && Join(a, b) / 65536 == b
  {
    assert Pow2(16) == 65536 by { Pow2Eight(); Pow2Add(8, 8); }
    hide Pow2, Or;
    OrDisjoint(a, b, 16);
    DivModUnique(a + b * 65536, b, a, 65536);
  }

  // ----- the sums

  /** The two sums over a buffer, without any reduction. */
  function Sums(a: nat, b: nat, buf: seq<Octet>): (s: (nat, nat))
    decreases |buf|
  {
    if buf == [] then (a, b) else Sums(a + buf[0], b + a + buf[0], buf[1..])
  }

  /** The definition: both sums reduced at every byte. */
  function Reduced(a: nat, b: nat, buf: seq<Octet>): (s: (nat, nat))
    decreases |buf|
  {
    if buf == [] then (a, b)
    else
      var a1 := (a + buf[0]) % ADLER_MOD;
      Reduced(a1, (b + a1) % ADLER_MOD, buf[1..])
  }

  function Adler(init: nat, buf: seq<Octet>): nat {
    var s := Reduced(init % 65536, init / 65536, buf);
    Join(s.0, s.1)
  }

  lemma ByteCongruent(a: nat, b: nat, a': nat, b': nat, c: Octet)
    requires a % ADLER_MOD == a' % ADLER_MOD && b % ADLER_MOD == b' % ADLER_MOD
    ensures var a1 := (a' + c) % ADLER_MOD;
      && (a + c) % ADLER_MOD == a1 == a1 % ADLER_MOD
      && (b + a + c) % ADLER_MOD == (b' + a1) % ADLER_MOD == ((b' + a1) % ADLER_MOD) % ADLER_MOD
  {
    SumCongruent(a, a', c);
    SumCongruent(b, b', a + c);
    SumCongruent(a + c, (a' + c) % ADLER_MOD, b');
  }

  lemma SumCongruent(x: nat, y: nat, c: nat)
    requires x % ADLER_MOD == y % ADLER_MOD
    ensures (x + c) % ADLER_MOD == (y + c) % ADLER_MOD
  {
    var k := x / ADLER_MOD - y / ADLER_MOD;
    assert x + c == y + c + k * ADLER_MOD;
  }

  /** Reduction may be put off. */
  lemma {:induction false} SumsReduce(a: nat, b: nat, a': nat, b': nat, buf: seq<Octet>)
    requires a % ADLER_MOD == a' % ADLER_MOD && b % ADLER_MOD == b' % ADLER_MOD
    ensures Sums(a, b, buf).0 % ADLER_MOD == Reduced(a', b', buf).0 % ADLER_MOD
    ensures Sums(a, b, buf).1 % ADLER_MOD == Reduced(a', b', buf).1 % ADLER_MOD
    decreases |buf|
  {
    if buf != [] {
      var a1 := (a' + buf[0]) % ADLER_MOD;
      ByteCongruent(a, b, a', b', buf[0]);
      SumsReduce(a + buf[0], b + a + buf[0], a1, (b' + a1) % ADLER_MOD, buf[1..]);
    }
  }

  /** After at least one byte the definition's sums are reduced. */
  lemma {:induction false} ReducedBelow(a: nat, b: nat, buf: seq<Octet>)
    requires buf != [] || (a < ADLER_MOD && b < ADLER_MOD)
    ensures Reduced(a, b, buf).0 < ADLER_MOD && Reduced(a, b, buf).1 < ADLER_MOD
    decreases |buf|
  {
    if buf != [] {
      var a1 := (a + buf[0]) % ADLER_MOD;
      ReducedBelow(a1, (b + a1) % ADLER_MOD, buf[1..]);
    }
  }

  lemma {:induction false} SumsAppend(a: nat, b: nat, x: seq<Octet>, y: seq<Octet>)
    ensures Sums(a, b, x + y) == Sums(Sums(a, b, x).0, Sums(a, b, x).1, y)
    decreases |x|
  {
    if x == [] {
      assert x + y == y;
    } else {
      assert (x + y)[1..] == x[1..] + y;
      SumsAppend(a + x[0], b + a + x[0], x[1..], y);
    }
  }

  lemma {:induction false} ReducedAppend(a: nat, b: nat, x: seq<Octet>, y: seq<Octet>)
    ensures Reduced(a, b, x + y) == Reduced(Reduced(a, b, x).0, Reduced(a, b, x).1, y)
    decreases |x|
  {
    if x == [] {
      assert x + y == y;
    } else {
      assert (x + y)[1..] == x[1..] + y;
      var a1 := (a + x[0]) % ADLER_MOD;
      ReducedAppend(a1, (b + a1) % ADLER_MOD, x[1..], y);
    }
  }

  /** How large the sums of n bytes can get. */
  lemma {:induction false} SumsBound(a: nat, b: nat, buf: seq<Octet>)
    ensures a <= Sums(a, b, buf).0 <= a + 255 * |buf|
    ensures b <= Sums(a, b, buf).1 <= b + |buf| * (a + 255 * |buf|)
    decreases |buf|
  {
    if buf != [] {
      var n, c := |buf| - 1, buf[0];
      SumsBound(a + c, b + a + c, buf[1..]);
      BoundStep(a, c, n);
    }
  }

  lemma BoundStep(a: nat, c: nat, n: nat)
    requires c <= 255
    ensures a + c + n * (a + c + 255 * n) <= (n + 1) * (a + 255 * (n + 1))
  {
    assert n * (a + c + 255 * n) <= n * (a + 255 * (n + 1)) by {
      ProductMonotone(a + c + 255 * n, a + 255 * (n + 1), n);
    }
  }

  /** A chunk never overflows 64 bits. */
  lemma ChunkFits(a: nat, b: nat, buf: seq<Octet>)
    requires a < 65536 && b < 65536 && |buf| <= MAX_ADLER_BUF
    ensures Sums(a, b, buf).0 < WORD && Sums(a, b, buf).1 < WORD
  {
    SumsBound(a, b, buf);
    ProductMonotone(|buf|, MAX_ADLER_BUF, a + 255 * |buf|);
    assert MAX_ADLER_BUF * (a + 255 * |buf|) <= MAX_ADLER_BUF * (65535 + 255 * MAX_ADLER_BUF);
  }

  function Residues(s: (nat, nat)): (nat, nat) {
    (s.0 % ADLER_MOD, s.1 % ADLER_MOD)
  }

  /** What adler32_base returns: the reduced sums. */
  function Deferred(init: nat, buf: seq<Octet>): nat {
    var s := Residues(Reduced(init % 65536, init / 65536, buf));
    Join(s.0, s.1)
  }

  // ----- in closed form

  function Total(buf: seq<Octet>): nat {
    if buf == [] then 0 else buf[0] + Total(buf[1..])
  }

  function Times(n: nat, a: nat): nat {
    n * a
  }

  /** Each byte counts as often as there are bytes from it on. */
  function WeightedTotal(buf: seq<Octet>): nat {
    if buf == [] then 0 else Times(|buf|, buf[0]) + WeightedTotal(buf[1..])
  }

  lemma TimesLaws(n: nat, a: nat, c: nat)
    ensures Times(n + 1, a) == Times(n, a) + a
    ensures Times(n, a + c) == Times(n, a) + Times(n, c)
    ensures Times(0, a) == 0
  {
    Distribute(n, 1, a);
    Distribute(a, c, n);
  }

  /** The sums as section 2.2 of RFC 1950 describes them. */
  lemma {:induction false} SumsAre(a: nat, b: nat, buf: seq<Octet>)
    ensures Sums(a, b, buf) == (a + Total(buf), b + Times(|buf|, a) + WeightedTotal(buf))
    decreases |buf|
  {
    hide Times;
    TimesLaws(0, a, 0);
    if buf != [] {
      var n, c := |buf| - 1, buf[0];
      SumsAre(a + c, b + a + c, buf[1..]);
      TimesLaws(n, a, c);
      TimesLaws(n, c, 0);
    }
  }

  /** Both sums modulo 65521, the second in the upper half. */
  function ClosedForm(init: nat, buf: seq<Octet>): nat {
    var a, b := init % 65536, init / 65536;
    (a + Total(buf)) % 65521 + 65536 * ((b + |buf| * a + WeightedTotal(buf)) % 65521)
  }

  lemma AdlerInClosedForm(init: nat, buf: seq<Octet>)
    requires init < 0x1_0000_0000
    ensures Deferred(init, buf) == ClosedForm(init, buf)
  {
    hide Join;
    var a, b := init % 65536, init / 65536;
    SumsReduce(a, b, a, b, buf);
    SumsAre(a, b, buf);
    JoinIs((a + Total(buf)) % 65521, (b + Times(|buf|, a) + WeightedTotal(buf)) % 65521);
  }

  /** The two agree unless the buffer is empty and a half of the initial value is not reduced. */
  lemma DeferredIsAdler(init: nat, buf: seq<Octet>)
    requires init < 0x1_0000_0000
    ensures Deferred(init, buf) == Adler(init, buf) <==>
      buf != [] || (init % 65536 < ADLER_MOD && init / 65536 < ADLER_MOD)
  {
    hide Join;
    var s := Reduced(init % 65536, init / 65536, buf);
    if buf != [] || (init % 65536 < ADLER_MOD && init / 65536 < ADLER_MOD) {
      ReducedBelow(init % 65536, init / 65536, buf);
    } else {
      JoinIs(s.0, s.1);
      JoinIs(s.0 % ADLER_MOD, s.1 % ADLER_MOD);
    }
  }

  // ----- the loops

  /** One inner loop of adler32_base. */
  method SumChunk(a: nat, b: nat, chunk: seq<Octet>) returns (a1: nat, b1: nat)
    requires a < 65536 && b < 65536 && |chunk| <= MAX_ADLER_BUF
    ensures (a1, b1) == Sums(a, b, chunk)
  {
    a1, b1 := a, b;
    assert chunk[..0] == [] && chunk[..|chunk|] == chunk;
    for i := 0 to |chunk|
      invariant (a1, b1) == Sums(a, b, chunk[..i])
    {
      assert chunk[..i + 1] == chunk[..i] + [chunk[i]];
      SumsAppend(a, b, chunk[..i], [chunk[i]]);
      ChunkFits(a, b, chunk[..i + 1]);
      SumOfOne(a1, b1, chunk[i]);
      a1 := Add64(a1, chunk[i]);
      b1 := Add64(b1, a1);
    }
  }

  lemma SumOfOne(a: nat, b: nat, c: Octet)
    ensures Sums(a, b, [c]) == (a + c, b + a + c)
  {
    assert [c][1..] == [];
  }

  /** Sums reduced after a part do as well for the rest. */
  lemma ChunkReduced(a: nat, b: nat, chunk: seq<Octet>, rest: seq<Octet>)
    ensures var s := Residues(Sums(a, b, chunk));
      Residues(Reduced(s.0, s.1, rest)) == Residues(Reduced(a, b, chunk + rest))
    ensures Residues(Sums(a, b, chunk)) == Residues(Reduced(a, b, chunk))
  {
    hide Sums, Reduced;
    var s, t := Sums(a, b, chunk), Reduced(a, b, chunk);
    SumsReduce(a, b, a, b, chunk);
    ReducedAppend(a, b, chunk, rest);
    SumsReduce(t.0, t.1, s.0 % ADLER_MOD, s.1 % ADLER_MOD, rest);
    SumsReduce(t.0, t.1, t.0, t.1, rest);
  }

  /** adler32_base */
  method Adler32Base(adler32: nat, start: seq<Octet>) returns (r: nat)
    requires adler32 < 0x1_0000_0000
    ensures r == Deferred(adler32, start) == ClosedForm(adler32, start)
  {
    hide Sums, Reduced, ClosedForm;
    AdlerInClosedForm(adler32, start);
    var next: nat, length: nat := 0, |start|;
    var a: nat, b: nat := adler32 % 65536, adler32 / 65536;
    ghost var all := Residues(Reduced(a, b, start));
    assert start[0..] == start;
    while length > MAX_ADLER_BUF
      invariant next + length == |start| && a < 65536 && b < 65536
      invariant Residues(Reduced(a, b, start[next..])) == all
    {
      ghost var rest := start[next + MAX_ADLER_BUF..];
      assert start[next..] == start[next..next + MAX_ADLER_BUF] + rest;
      ChunkReduced(a, b, start[next..next + MAX_ADLER_BUF], rest);
      a, b := SumChunk(a, b, start[next..next + MAX_ADLER_BUF]);
      a := a % ADLER_MOD;
      b := b % ADLER_MOD;
      next := next + MAX_ADLER_BUF;
      length := length - MAX_ADLER_BUF;
    }
    ChunkReduced(a, b, start[next..], []);
    a, b := SumChunk(a, b, start[next..]);
    a := a % ADLER_MOD;
    b := b % ADLER_MOD;
    r := Join(a, b);
  }

  /** adler_ref */
  method AdlerRef(init: nat, buf: seq<Octet>) returns (r: nat)
    requires init < 0x1_0000_0000
    ensures r == Adler(init, buf)
    ensures buf != [] ==> r == ClosedForm(init, buf)
  {
    hide ClosedForm;
    DeferredIsAdler(init, buf);
    AdlerInClosedForm(init, buf);
    var a: nat, b: nat := init % 65536, init / 65536;
    ghost var all := Reduced(a, b, buf);
    assert buf[0..] == buf;
    for i := 0 to |buf|
      invariant Reduced(a, b, buf[i..]) == all
    {
      assert buf[i..][1..] == buf[i + 1..];
      a := (a + buf[i]) % ADLER_MOD;
      b := (b + a) % ADLER_MOD;
    }
    r := Join(a, b);
  }

  /** The checksum of a concatenation is that of the second part, started with that of the first. */
  lemma AdlerComposes(init: nat, x: seq<Octet>, y: seq<Octet>)
    requires init < 0x1_0000_0000
    ensures Adler(Adler(init, x), y) == Adler(init, x + y)
    ensures Deferred(Deferred(init, x), y) == Deferred(init, x + y)
  {
    hide Join, Reduced, Sums;
    var a, b := init % 65536, init / 65536;
    var s := Reduced(a, b, x);
    HalvesBelow(a, b, x);
    ReducedAppend(a, b, x, y);
    JoinIs(s.0, s.1);
    JoinIs(s.0 % ADLER_MOD, s.1 % ADLER_MOD);
    SumsReduce(s.0, s.1, s.0, s.1, y);
    SumsReduce(s.0, s.1, s.0 % ADLER_MOD, s.1 % ADLER_MOD, y);
  }

  lemma HalvesBelow(a: nat, b: nat, buf: seq<Octet>)
    requires a < 65536 && b < 65536
    ensures Reduced(a, b, buf).0 < 65536 && Reduced(a, b, buf).1 < 65536
  {
    if buf != [] { ReducedBelow(a, b, buf); }
  }
}
