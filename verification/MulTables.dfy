/** The 32-byte multiplication tables of gf_vect_mul_init_base, built byte by byte or word by word,
    and ec_init_tables_base, which builds one table for each coefficient of a matrix. */
module MulTables {
  import opened GaloisField
  import opened GaloisTables

  /** The products of c and 0, h, 2h, ..., 15h, for h = 1 << shift. */
  function Products(c: Byte, shift: bv4): (t: seq<Byte>)
    requires shift <= 4
    ensures |t| == 16
  {
    EightProducts(c, 0, shift) + EightProducts(c, 8, shift)
  }

  function EightProducts(c: Byte, first: Byte, shift: bv4): (t: seq<Byte>)
    requires shift <= 4
    ensures |t| == 8
  {
    [GfMul(c, first << shift), GfMul(c, first + 1 << shift), GfMul(c, first + 2 << shift), GfMul(c, first + 3 << shift),
     GfMul(c, first + 4 << shift), GfMul(c, first + 5 << shift), GfMul(c, first + 6 << shift),
     GfMul(c, first + 7 << shift)]
  }

  /** Sixteen products by the low nibbles, then sixteen by the high ones. */
  ghost predicate IsTable(t: seq<Byte>, c: Byte) {
    t == Products(c, 0) + Products(c, 4)
  }

  lemma LowProductAt(c: Byte, i: Byte)
    requires i < 16
    ensures i as int < 16 && Products(c, 0)[i as int] == GfMul(c, i)
  {
    if i < 8 { FirstProducts(c, 0, i); } else { LastProducts(c, 0, i); }
  }

  lemma HighProductAt(c: Byte, i: Byte)
    requires i < 16
    ensures i as int < 16 && Products(c, 4)[i as int] == GfMul(c, i << 4)
  {
    if i < 8 { FirstProducts(c, 4, i); } else { LastProducts(c, 4, i); }
  }

  lemma FirstProducts(c: Byte, shift: bv4, i: Byte)
    requires (shift == 0 || shift == 4) && i < 8
    ensures i as int < 16 && Products(c, shift)[i as int] == GfMul(c, i << shift)
  {
    hide GfMul;
    if i == 0 {} else if i == 1 {} else if i == 2 {} else if i == 3 {} else if i == 4 {} else if i == 5 {}
    else if i == 6 {} else { assert i == 7; }
  }

  lemma LastProducts(c: Byte, shift: bv4, i: Byte)
    requires (shift == 0 || shift == 4) && 8 <= i < 16
    ensures i as int < 16 && Products(c, shift)[i as int] == GfMul(c, i << shift)
  {
    hide GfMul;
    if i == 8 {} else if i == 9 {} else if i == 10 {} else if i == 11 {} else if i == 12 {} else if i == 13 {}
    else if i == 14 {} else { assert i == 15; }
  }

  /** Two look-ups multiply any byte. */
  lemma TableMultiplies(t: seq<Byte>, c: Byte, b: Byte)
    requires IsTable(t, c)
    ensures (b & 0x0f) as int < 16 && (b >> 4) as int < 16
    ensures Add(t[(b & 0x0f) as int], t[16 + (b >> 4) as int]) == GfMul(c, b)
  {
    hide GfMul, Add, Products;
    assert b & 0x0f < 16 && b >> 4 < 16;
    LowProductAt(c, b & 0x0f);
    HighProductAt(c, b >> 4);
    NibblesAreByte(b);
    MulDistributes(c, b & 0x0f, (b >> 4) << 4);
  }

  // ----- the entries of one half

  /** The eight sums of c, c2 and c4, in order. */
  function LowSums(c: Byte, c2: Byte, c4: Byte): (s: seq<Byte>)
    ensures |s| == 8
  {
    var c3 := Add(c2, c);
    [0, c, c2, c3, c4, Add(c4, c), Add(c4, c2), Add(c4, c3)]
  }

  /** The same with c8 added. */
  function HighSums(c: Byte, c2: Byte, c4: Byte, c8: Byte): (s: seq<Byte>)
    ensures |s| == 8
  {
    var c3 := Add(c2, c);
    var c5, c6, c7 := Add(c4, c), Add(c4, c2), Add(c4, c3);
    [c8, Add(c8, c), Add(c8, c2), Add(c8, c3), Add(c8, c4), Add(c8, c5), Add(c8, c6), Add(c8, c7)]
  }

  /** The sixteen sums of c, c2, c4 and c8, in order. */
  function NibbleSums(c: Byte, c2: Byte, c4: Byte, c8: Byte): (s: seq<Byte>)
    ensures |s| == 16
  {
    LowSums(c, c2, c4) + HighSums(c, c2, c4, c8)
  }

  lemma NibbleAdds()
    ensures Add(2, 1) == 3 && Add(4, 1) == 5 && Add(4, 2) == 6 && Add(4, 3) == 7
    ensures Add(8, 1) == 9 && Add(8, 2) == 10 && Add(8, 3) == 11 && Add(8, 4) == 12
    ensures Add(8, 5) == 13 && Add(8, 6) == 14 && Add(8, 7) == 15
    ensures Add(0x20, 0x10) == 0x30 && Add(0x40, 0x10) == 0x50 && Add(0x40, 0x20) == 0x60 && Add(0x40, 0x30) == 0x70
    ensures Add(0x80, 0x10) == 0x90 && Add(0x80, 0x20) == 0xa0 && Add(0x80, 0x30) == 0xb0 && Add(0x80, 0x40) == 0xc0
    ensures Add(0x80, 0x50) == 0xd0 && Add(0x80, 0x60) == 0xe0 && Add(0x80, 0x70) == 0xf0
  {
  }

  lemma LowProducts(c: Byte)
    ensures Products(c, 0) == NibbleSums(GfMul(c, 1), GfMul(c, 2), GfMul(c, 4), GfMul(c, 8))
  {
    hide GfMul, Add;
    NibbleAdds();
    MulZero(c, 0);
    MulDistributes(c, 2, 1); MulDistributes(c, 4, 1); MulDistributes(c, 4, 2); MulDistributes(c, 4, 3);
    MulDistributes(c, 8, 1); MulDistributes(c, 8, 2); MulDistributes(c, 8, 3); MulDistributes(c, 8, 4);
    MulDistributes(c, 8, 5); MulDistributes(c, 8, 6); MulDistributes(c, 8, 7);
  }

  lemma HighProducts(c: Byte)
    ensures Products(c, 4) == NibbleSums(GfMul(c, 0x10), GfMul(c, 0x20), GfMul(c, 0x40), GfMul(c, 0x80))
  {
    hide GfMul, Add;
    NibbleAdds();
    MulZero(c, 0);
    MulDistributes(c, 0x20, 0x10); MulDistributes(c, 0x40, 0x10);
    MulDistributes(c, 0x40, 0x20); MulDistributes(c, 0x40, 0x30);
    MulDistributes(c, 0x80, 0x10); MulDistributes(c, 0x80, 0x20); MulDistributes(c, 0x80, 0x30);
    MulDistributes(c, 0x80, 0x40); MulDistributes(c, 0x80, 0x50); MulDistributes(c, 0x80, 0x60);
    MulDistributes(c, 0x80, 0x70);
  }

  lemma XTimesIsMul(c: Byte, n: nat)
    ensures XTimes(n, c) == GfMul(c, Power(n))
  {
    hide GfMul, PolyMul, Power, XTimes;
    MulCommutes(c, Power(n));
    GfMulIsPolyMul(Power(n), c);
    PolyMulPower(n, c);
  }

  /** Repeated doubling gives the products by 1, 2, 4, ..., 0x80. */
  lemma Doublings(c: Byte)
    ensures var c2 := XTime(c); var c4 := XTime(c2); var c8 := XTime(c4);
      var c17 := XTime(c8); var c18 := XTime(c17); var c20 := XTime(c18); var c24 := XTime(c20);
      && Products(c, 0) == NibbleSums(c, c2, c4, c8)
      && Products(c, 4) == NibbleSums(c17, c18, c20, c24)
  {
    LowProducts(c);
    HighProducts(c);
    MulOne(c);
    assert Power(1) == 2; assert Power(2) == 4; assert Power(3) == 8; assert Power(4) == 0x10;
    assert Power(5) == 0x20; assert Power(6) == 0x40; assert Power(7) == 0x80;
    hide GfMul, XTime, Products, NibbleSums, Power;
    XTimesIsMul(c, 1); XTimesIsMul(c, 2); XTimesIsMul(c, 3); XTimesIsMul(c, 4);
    XTimesIsMul(c, 5); XTimesIsMul(c, 6); XTimesIsMul(c, 7);
    assert XTimes(1, c) == XTime(c); assert XTimes(2, c) == XTime(XTimes(1, c));
    assert XTimes(3, c) == XTime(XTimes(2, c)); assert XTimes(4, c) == XTime(XTimes(3, c));
    assert XTimes(5, c) == XTime(XTimes(4, c)); assert XTimes(6, c) == XTime(XTimes(5, c));
    assert XTimes(7, c) == XTime(XTimes(6, c));
  }

  // ----- building a table

  /** s and s' agree outside the stretch of n bytes at off. */
  ghost predicate SameOutside(s: seq<Byte>, s': seq<Byte>, off: int, n: int) {
    |s| == |s'| && forall p :: 0 <= p < |s| && !(off <= p < off + n) ==> s[p] == s'[p]
  }

  /** Writes the bytes s at off. */
  method Store(tbl: array<Byte>, off: nat, s: seq<Byte>)
    requires off + |s| <= tbl.Length
    modifies tbl
    ensures tbl[off..off + |s|] == s
    ensures SameOutside(old(tbl[..]), tbl[..], off, |s|)
  {
    forall i | 0 <= i < |s| {
      tbl[off + i] := s[i];
    }
  }

  /** Writes one half of a table, byte by byte. */
  method StoreSums(c: Byte, c2: Byte, c4: Byte, c8: Byte, tbl: array<Byte>, off: nat)
    requires off + 16 <= tbl.Length
    modifies tbl
    ensures tbl[off..off + 16] == NibbleSums(c, c2, c4, c8)
    ensures SameOutside(old(tbl[..]), tbl[..], off, 16)
  {
    hide Add, SameOutside;
    var c3, c5, c6 := Add(c2, c), Add(c4, c), Add(c4, c2);
    var c7 := Add(c4, c3);
    var c9, c10, c11, c12 := Add(c8, c), Add(c8, c2), Add(c8, c3), Add(c8, c4);
    var c13, c14, c15 := Add(c8, c5), Add(c8, c6), Add(c8, c7);
    Store(tbl, off, [0, c, c2, c3, c4, c5, c6, c7]);
    ghost var first := tbl[..];
    Store(tbl, off + 8, [c8, c9, c10, c11, c12, c13, c14, c15]);
    BothStored(old(tbl[..]), first, tbl[..], off, 8, 8);
  }

  lemma HalvesMakeTable(t: seq<Byte>, c: Byte)
    requires t == Products(c, 0) + Products(c, 4)
    ensures IsTable(t, c)
  {
  }

  /** The portable form: both halves byte by byte. */
  method GfVectMulInitBytes(c: Byte, tbl: array<Byte>, off: nat)
    requires off + 32 <= tbl.Length
    modifies tbl
    ensures IsTable(tbl[off..off + 32], c)
    ensures SameOutside(old(tbl[..]), tbl[..], off, 32)
  {
    hide *;
    var c2 := XTime(c);
    var c4 := XTime(c2);
    var c8 := XTime(c4);
    StoreSums(c, c2, c4, c8, tbl, off);
    ghost var half := tbl[..];

    var c17 := XTime(c8);
    var c18 := XTime(c17);
    var c20 := XTime(c18);
    var c24 := XTime(c20);
    StoreSums(c17, c18, c20, c24, tbl, off + 16);
    Doublings(c);
    BothStored(old(tbl[..]), half, tbl[..], off, 16, 16);
    HalvesMakeTable(tbl[off..off + 32], c);
  }

  // ----- building it a word at a time

  /** The bytes of a 64-bit word, least significant first. */
  function WordBytes(w: bv64): (s: seq<Byte>)
    ensures |s| == 8
  {
    [(w & 0xff) as Byte, ((w >> 8) & 0xff) as Byte, ((w >> 16) & 0xff) as Byte, ((w >> 24) & 0xff) as Byte,
     ((w >> 32) & 0xff) as Byte, ((w >> 40) & 0xff) as Byte, ((w >> 48) & 0xff) as Byte, ((w >> 56) & 0xff) as Byte]
  }

  function Xor(v: bv64, w: bv64): bv64 {
    v ^ w
  }

  /** c in every second byte, in every second pair of bytes, in the upper half, in every byte. */
  function Spread1(c: Byte): bv64 { (c as bv64) * 0x0100010001000100 }
  function Spread2(c: Byte): bv64 { (c as bv64) * 0x0101000001010000 }
  function Spread4(c: Byte): bv64 { (c as bv64) * 0x0101010100000000 }
  function Spread8(c: Byte): bv64 { (c as bv64) * 0x0101010101010101 }

  lemma SpreadBytes1(c: Byte)
    ensures WordBytes(Spread1(c)) == [0, c, 0, c, 0, c, 0, c]
  {
  }

  lemma SpreadBytes2(c: Byte)
    ensures WordBytes(Spread2(c)) == [0, 0, c, c, 0, 0, c, c]
  {
  }

  lemma SpreadBytes4(c: Byte)
    ensures WordBytes(Spread4(c)) == [0, 0, 0, 0, c, c, c, c]
  {
  }

  lemma SpreadBytes8(c: Byte)
    ensures WordBytes(Spread8(c)) == [c, c, c, c, c, c, c, c]
  {
  }

  lemma XorLowBytes(v: bv64, w: bv64)
    ensures (Xor(v, w) & 0xff) as Byte == Add((v & 0xff) as Byte, (w & 0xff) as Byte)
    ensures ((Xor(v, w) >> 8) & 0xff) as Byte == Add(((v >> 8) & 0xff) as Byte, ((w >> 8) & 0xff) as Byte)
    ensures ((Xor(v, w) >> 16) & 0xff) as Byte == Add(((v >> 16) & 0xff) as Byte, ((w >> 16) & 0xff) as Byte)
    ensures ((Xor(v, w) >> 24) & 0xff) as Byte == Add(((v >> 24) & 0xff) as Byte, ((w >> 24) & 0xff) as Byte)
  {
  }

  lemma XorHighBytes(v: bv64, w: bv64)
    ensures ((Xor(v, w) >> 32) & 0xff) as Byte == Add(((v >> 32) & 0xff) as Byte, ((w >> 32) & 0xff) as Byte)
    ensures ((Xor(v, w) >> 40) & 0xff) as Byte == Add(((v >> 40) & 0xff) as Byte, ((w >> 40) & 0xff) as Byte)
    ensures ((Xor(v, w) >> 48) & 0xff) as Byte == Add(((v >> 48) & 0xff) as Byte, ((w >> 48) & 0xff) as Byte)
    ensures ((Xor(v, w) >> 56) & 0xff) as Byte == Add(((v >> 56) & 0xff) as Byte, ((w >> 56) & 0xff) as Byte)
  {
  }

  function AddBytes(s: seq<Byte>, t: seq<Byte>): (r: seq<Byte>)
    requires |s| == |t| == 8
    ensures |r| == 8
  {
    [Add(s[0], t[0]), Add(s[1], t[1]), Add(s[2], t[2]), Add(s[3], t[3]),
     Add(s[4], t[4]), Add(s[5], t[5]), Add(s[6], t[6]), Add(s[7], t[7])]
  }

  lemma XorWords(v: bv64, w: bv64)
    ensures WordBytes(Xor(v, w)) == AddBytes(WordBytes(v), WordBytes(w))
  {
    hide Add, Xor;
    XorLowBytes(v, w);
    XorHighBytes(v, w);
  }

  lemma AddSpreads(c: Byte, c2: Byte)
    ensures AddBytes([0, c, 0, c, 0, c, 0, c], [0, 0, c2, c2, 0, 0, c2, c2]) ==
      [0, c, c2, Add(c2, c), 0, c, c2, Add(c2, c)]
  {
    hide Add;
    AddLaws(0, 0, 0); AddLaws(c, c2, 0); AddLaws(c2, 0, 0);
  }

  lemma AddUpperSpread(c: Byte, c2: Byte, c3: Byte, c4: Byte)
    ensures AddBytes([0, c, c2, c3, 0, c, c2, c3], [0, 0, 0, 0, c4, c4, c4, c4]) ==
      [0, c, c2, c3, c4, Add(c4, c), Add(c4, c2), Add(c4, c3)]
  {
    hide Add;
    AddLaws(0, 0, 0); AddLaws(c, c4, 0); AddLaws(c2, c4, 0); AddLaws(c3, c4, 0); AddLaws(c4, 0, 0);
  }

  lemma AddToLow(c: Byte, c2: Byte, c4: Byte, c8: Byte)
    ensures AddBytes([c8, c8, c8, c8, c8, c8, c8, c8], LowSums(c, c2, c4)) == HighSums(c, c2, c4, c8)
  {
    hide Add;
    AddLaws(c8, 0, 0);
  }

  lemma LowWord(c: Byte, c2: Byte, c4: Byte)
    ensures WordBytes(Xor(Xor(Spread1(c), Spread2(c2)), Spread4(c4))) == LowSums(c, c2, c4)
  {
    hide Add, WordBytes, Xor, Spread1, Spread2, Spread4, AddBytes;
    SpreadBytes1(c); SpreadBytes2(c2); SpreadBytes4(c4);
    XorWords(Spread1(c), Spread2(c2));
    XorWords(Xor(Spread1(c), Spread2(c2)), Spread4(c4));
    AddSpreads(c, c2);
    AddUpperSpread(c, c2, Add(c2, c), c4);
  }

  /** Two words hold the sixteen sums. */
  lemma WordsAreSums(c: Byte, c2: Byte, c4: Byte, c8: Byte)
    ensures var low := Xor(Xor(Spread1(c), Spread2(c2)), Spread4(c4));
      WordBytes(low) + WordBytes(Xor(Spread8(c8), low)) == NibbleSums(c, c2, c4, c8)
  {
    hide Add, WordBytes, Xor, Spread1, Spread2, Spread4, Spread8, AddBytes, LowSums, HighSums;
    LowWord(c, c2, c4);
    SpreadBytes8(c8);
    XorWords(Spread8(c8), Xor(Xor(Spread1(c), Spread2(c2)), Spread4(c4)));
    AddToLow(c, c2, c4, c8);
  }

  /** Writes one half of a table as two little-endian words. */
  method StoreWords(c: Byte, c2: Byte, c4: Byte, c8: Byte, tbl: array<Byte>, off: nat)
    requires off + 16 <= tbl.Length
    modifies tbl
    ensures tbl[off..off + 16] == NibbleSums(c, c2, c4, c8)
    ensures SameOutside(old(tbl[..]), tbl[..], off, 16)
  {
    hide *;
    var v1, v2, v4, v8 := Spread1(c), Spread2(c2), Spread4(c4), Spread8(c8);
    v4 := Xor(Xor(v1, v2), v4);
    Store(tbl, off, WordBytes(v4));
    ghost var first := tbl[..];
    Store(tbl, off + 8, WordBytes(Xor(v8, v4)));
    WordsAreSums(c, c2, c4, c8);
    BothStored(old(tbl[..]), first, tbl[..], off, 8, 8);
  }

  lemma BothStored(s: seq<Byte>, s': seq<Byte>, s'': seq<Byte>, off: nat, n: nat, n': nat)
    requires off + n + n' <= |s|
    requires SameOutside(s, s', off, n) && SameOutside(s', s'', off + n, n')
    ensures SameOutside(s, s'', off, n + n')
    ensures s''[off..off + n + n'] == s'[off..off + n] + s''[off + n..off + n + n']
  {
  }

  /** gf_vect_mul_init_base on a 64-bit little-endian machine: the same table from four words. */
  method GfVectMulInitBase(c: Byte, tbl: array<Byte>, off: nat)
    requires off + 32 <= tbl.Length
    modifies tbl
    ensures IsTable(tbl[off..off + 32], c)
    ensures SameOutside(old(tbl[..]), tbl[..], off, 32)
  {
    hide *;
    var c2 := XTime(c);
    var c4 := XTime(c2);
    var c8 := XTime(c4);
    StoreWords(c, c2, c4, c8, tbl, off);
    ghost var half := tbl[..];

    var c17 := XTime(c8);
    var c18 := XTime(c17);
    var c20 := XTime(c18);
    var c24 := XTime(c20);
    StoreWords(c17, c18, c20, c24, tbl, off + 16);
    Doublings(c);
    BothStored(old(tbl[..]), half, tbl[..], off, 16, 16);
    HalvesMakeTable(tbl[off..off + 32], c);
  }

  // ----- ec_init_tables_base

  /** From index base on, g holds the tables of coefs, one after the other. */
  ghost predicate HoldsTables(g: seq<Byte>, base: nat, coefs: seq<Byte>) {
    && base + 32 * |coefs| <= |g|
    && forall q :: 0 <= q < |coefs| ==> IsTable(TableAt(g, base, q), coefs[q])
  }

  function TableAt(g: seq<Byte>, base: nat, q: nat): seq<Byte> {
    if base + 32 * q + 32 <= |g| then g[base + 32 * q..base + 32 * q + 32] else []
  }

  /** Element 1 of a table is its coefficient. */
  lemma TableCoefficient(g: seq<Byte>, base: nat, coefs: seq<Byte>, q: nat)
    requires HoldsTables(g, base, coefs) && q < |coefs|
    ensures base + 32 * q + 1 < |g| && g[base + 32 * q + 1] == coefs[q]
  {
    hide GfMul;
    assert IsTable(TableAt(g, base, q), coefs[q]);
    MulOne(coefs[q]);
    assert TableAt(g, base, q)[1] == g[base + 32 * q + 1];
  }

  lemma TableAppended(g: seq<Byte>, g': seq<Byte>, base: nat, coefs: seq<Byte>, c: Byte)
    requires HoldsTables(g, base, coefs) && base + 32 * |coefs| + 32 <= |g|
    requires SameOutside(g, g', base + 32 * |coefs|, 32)
    requires IsTable(g'[base + 32 * |coefs|..base + 32 * |coefs| + 32], c)
    ensures HoldsTables(g', base, coefs + [c])
  {
    hide IsTable;
    forall q | 0 <= q < |coefs| + 1 ensures IsTable(TableAt(g', base, q), (coefs + [c])[q]) {
      if q < |coefs| {
        assert TableAt(g', base, q) == TableAt(g, base, q);
      }
    }
  }

  /** Builds the tables of the rows x k coefficients that start at a[aOff]. */
  method EcInitTablesBase(k: nat, rows: nat, a: array<Byte>, aOff: nat, gTbls: array<Byte>)
    requires a != gTbls && aOff + rows * k <= a.Length && 32 * (rows * k) <= gTbls.Length
    modifies gTbls
    ensures HoldsTables(gTbls[..], 0, a[aOff..aOff + rows * k])
    ensures forall p :: 32 * (rows * k) <= p < gTbls.Length ==> gTbls[p] == old(gTbls[p])
  {
    hide IsTable, HoldsTables;
    var next, g := aOff, 0;
    HoldsNoTables(gTbls[..]);
    assert a[aOff..next] == [];
    for i := 0 to rows
      invariant next == aOff + i * k && g == 32 * (i * k) && i * k <= rows * k
      invariant HoldsTables(gTbls[..], 0, a[aOff..next])
      invariant forall p :: 32 * (rows * k) <= p < gTbls.Length ==> gTbls[p] == old(gTbls[p])
    {
      assert (i + 1) * k <= rows * k;
      for j := 0 to k
        invariant next == aOff + i * k + j && g == 32 * (i * k + j)
        invariant HoldsTables(gTbls[..], 0, a[aOff..next])
        invariant forall p :: 32 * (rows * k) <= p < gTbls.Length ==> gTbls[p] == old(gTbls[p])
      {
        ghost var before := gTbls[..];
        GfVectMulInitBase(a[next], gTbls, g);
        TableAppended(before, gTbls[..], 0, a[aOff..next], a[next]);
        assert a[aOff..next + 1] == a[aOff..next] + [a[next]];
        next := next + 1;
        g := g + 32;
      }
    }
  }

  lemma HoldsNoTables(g: seq<Byte>)
    ensures HoldsTables(g, 0, [])
  {
  }
}
