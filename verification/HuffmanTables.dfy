/** The code tables of huffman.h and their look-ups.  A table entry holds a code and its length, with
    the extra bits of a length or distance already appended. */
module HuffmanTables {
  import opened Arithmetic
  import opened Bits
  import opened BitStream
  import opened DeflateFormat

  /** struct isal_hufftables, without the block header. */
  datatype Tables = Tables(distTable: seq<nat>, lenTable: seq<nat>, litTable: seq<nat>, litTableSizes: seq<nat>,
                           dcodes: seq<nat>, dcodesSizes: seq<nat>, decodeOffset: nat)

  /** A code and its length in bits. */
  datatype Code = Code(bits: nat, length: nat)

  ghost predicate Spells(code: Code, bits: Bits01) {
    code.bits < Pow2(code.length) && NatBits(code.bits, code.length) == bits
  }

  /** Packed entries: the length in the five low bits. */
  function Unpack(codeLen: nat): Code {
    Code(codeLen / 32, codeLen % 32)
  }

  /** The entry of a code of fewer than 32 bits. */
  lemma UnpackIs(code: Code)
    requires code.length < 32
    ensures Unpack(code.bits * 32 + code.length) == code
  {
  }

  ghost predicate HasSizes(h: Tables) {
    && |h.lenTable| == 256 && |h.litTable| == |h.litTableSizes| == 257
    && |h.dcodes| == |h.dcodesSizes| == 30 - h.decodeOffset
    && ((|h.distTable| == 2 && h.decodeOffset == 0) || (|h.distTable| == 8192 && h.decodeOffset == 26))
  }

  /** The tables spell the codes of one block, none of which is longer than 15 bits.  Nothing is said
      of the entries of symbols without a code. */
  ghost predicate TablesFor(h: Tables, c: Codes) {
    && HasSizes(h) && ValidCodes(c)
    && (forall s :: 0 <= s < 286 ==> |c.lit[s]| <= 15)
    && (forall s :: 0 <= s < 30 ==> |c.dist[s]| <= 15)
    && (forall s :: 0 <= s <= 256 && c.lit[s] != [] ==> Spells(Code(h.litTable[s], h.litTableSizes[s]), c.lit[s]))
    && (forall i :: 0 <= i < 256 && c.lit[LengthSymbol(i + 3)] != [] ==>
      Spells(Unpack(h.lenTable[i]), LengthBits(c, i + 3)))
    && (forall i :: 0 <= i < |h.distTable| && c.dist[DistSymbol(i + 1)] != [] ==>
      Spells(Unpack(h.distTable[i]), DistanceBits(c, i + 1)))
    && (forall i :: 0 <= i < |h.dcodes| ==> SpellsDcode(h, c, i))
  }

  lemma SizedTables(h: Tables, c: Codes)
    requires TablesFor(h, c)
    ensures |c.lit| == 286 && |c.dist| == 30 && HasSizes(h)
  {
  }

  ghost predicate SpellsDcode(h: Tables, c: Codes, i: nat)
    requires HasSizes(h) && |c.dist| == 30 && i < |h.dcodes|
  {
    var bits := c.dist[i + h.decodeOffset];
    bits != [] ==> Spells(Code(h.dcodes[i], h.dcodesSizes[i]), bits)
  }

  // ----- look-ups

  function GetLitCode(h: Tables, lit: nat): Code
    requires HasSizes(h) && lit <= 256
  {
    Code(h.litTable[lit], h.litTableSizes[lit])
  }

  function GetLenCode(h: Tables, length: nat): Code
    requires HasSizes(h) && 3 <= length <= 258
  {
    Unpack(h.lenTable[length - 3])
  }

  /** bsr: counts the significant bits. */
  method Bsr(val: nat) returns (msb: nat)
    ensures msb == BitLength(val)
  {
    msb := 0;
    var v := val;
    while v > 0
      invariant msb + BitLength(v) == BitLength(val)
    {
      v := v / 2;
      msb := msb + 1;
    }
  }

  function ComputeDistCode(h: Tables, distance: nat): Code
    requires HasSizes(h) && |h.distTable| < distance <= 32768
  {
    var dist := distance - 1;
    DistPartsBounds(distance);
    LargeSymbol(h, distance);
    var msb := BitLength(dist);
    var numExtraBits := msb - 2;
    var extraBits := And(dist, Pow2(numExtraBits) - 1);
    var sym := Shr(dist, numExtraBits) + 2 * numExtraBits;
    var code := h.dcodes[sym - h.decodeOffset];
    var len := h.dcodesSizes[sym - h.decodeOffset];
    ProductMonotone(0, extraBits, Pow2(len));
    Code(Or(code, extraBits * Pow2(len)), len + numExtraBits)
  }

  function GetDistCode(h: Tables, distance: nat): Code
    requires HasSizes(h) && 1 <= distance <= 32768
  {
    if distance <= |h.distTable| then Unpack(h.distTable[distance - 1]) else ComputeDistCode(h, distance)
  }

  /** Distances beyond the table have symbols beyond the offset. */
  lemma LargeSymbol(h: Tables, distance: nat)
    requires HasSizes(h) && |h.distTable| < distance <= 32768
    ensures h.decodeOffset <= DistParts(distance).1 + 2 * DistParts(distance).0 < 30
    ensures DistSymbol(distance) == DistParts(distance).1 + 2 * DistParts(distance).0
  {
    hide DistParts, BitLength, Pow2, Shr;
    DistPartsBounds(distance);
    DistSymbolParts(distance);
    var e := DistParts(distance).0;
    SmallPowers();
    ProductMonotone(DistParts(distance).1 + 1, 4, Pow2(e));
    if e < 12 { Pow2AtMost(e, 11); }
  }

  // ----- what the look-ups spell

  lemma LitCodeSpells(h: Tables, c: Codes, lit: nat)
    requires TablesFor(h, c) && lit <= 256 && c.lit[lit] != []
    ensures Spells(GetLitCode(h, lit), c.lit[lit]) && GetLitCode(h, lit).length <= 15
  {
  }

  lemma LenCodeSpells(h: Tables, c: Codes, length: nat)
    requires TablesFor(h, c) && 3 <= length <= 258 && c.lit[LengthSymbol(length)] != []
    ensures Spells(GetLenCode(h, length), LengthBits(c, length)) && GetLenCode(h, length).length <= 20
  {
    hide NatBits, Pow2, LenBase, LenExtra;
    LengthSymbolRange(length);
    assert Spells(Unpack(h.lenTable[length - 3]), LengthBits(c, length - 3 + 3));
  }

  /** compute_dist_code spells the distance: symbol, then extra bits. */
  lemma ComputeDistCodeSpells(h: Tables, c: Codes, distance: nat)
    requires TablesFor(h, c) && |h.distTable| < distance <= 32768 && c.dist[DistSymbol(distance)] != []
    ensures Spells(ComputeDistCode(h, distance), DistanceBits(c, distance))
  {
    hide NatBits, Pow2, And, Or, Shr, DistBase, DistExtra, BitLength, LengthBits, ComputeDistCode, DistParts;
    LargeSymbol(h, distance);
    var (e, q) := DistParts(distance);
    var i := q + 2 * e - h.decodeOffset;
    assert SpellsDcode(h, c, i);
    hide TablesFor;
    ExtraBitsOf(distance, e, q);
    ComputeDistCodeIs(h, distance, e, q);
    var code, len, extra := h.dcodes[i], h.dcodesSizes[i], And(distance - 1, Pow2(e) - 1);
    OrDisjoint(code, extra, len);
    NatBitsJoin(code, extra, len, e);
    JoinedBound(code, extra, len, e);
  }

  lemma ComputeDistCodeIs(h: Tables, distance: nat, e: nat, q: nat)
    requires HasSizes(h) && |h.distTable| < distance <= 32768 && DistParts(distance) == (e, q)
    ensures h.decodeOffset <= q + 2 * e < 30 && Pow2(e) > 0
    ensures var i := q + 2 * e - h.decodeOffset;
      ComputeDistCode(h, distance)
        == Code(Or(h.dcodes[i], And(distance - 1, Pow2(e) - 1) * Pow2(h.dcodesSizes[i])), h.dcodesSizes[i] + e)
  {
    hide Pow2, And, Or, Shr, BitLength;
    DistPartsBounds(distance);
    LargeSymbol(h, distance);
  }

  /** The low bits of a distance are its extra bits. */
  lemma ExtraBitsOf(distance: nat, e: nat, q: nat)
    requires 3 <= distance <= 32768 && DistParts(distance) == (e, q)
    ensures q + 2 * e < 30 && DistExtra(q + 2 * e) == e
    ensures And(distance - 1, Pow2(e) - 1) == distance - DistBase(q + 2 * e) < Pow2(e)
  {
    hide Pow2, And, DistBase, DistExtra, BitLength, DistParts, Shr;
    DistPartsBounds(distance);
    DistSymbolParts(distance);
    AndLowMask(distance - 1, e);
    DivModUnique(distance - 1, q, distance - 1 - q * Pow2(e), Pow2(e));
    DistTableFormula(q + 2 * e);
    assert (q + 2 * e) / 2 - 1 == e && 2 + (q + 2 * e) % 2 == q;
  }

  lemma JoinedBound(low: nat, high: nat, m: nat, n: nat)
    requires low < Pow2(m) && high < Pow2(n)
    ensures low + high * Pow2(m) < Pow2(m + n)
  {
    hide Pow2;
    Pow2Add(n, m);
    SmallerProduct(high, Pow2(n), Pow2(m));
  }

  lemma DistCodeSpells(h: Tables, c: Codes, distance: nat)
    requires TablesFor(h, c) && 1 <= distance <= 32768 && c.dist[DistSymbol(distance)] != []
    ensures Spells(GetDistCode(h, distance), DistanceBits(c, distance)) && GetDistCode(h, distance).length <= 28
  {
    hide NatBits, Pow2, DistBase, DistExtra, ComputeDistCode;
    DistSymbolRange(distance);
    if distance <= |h.distTable| {
      assert Spells(Unpack(h.distTable[distance - 1]), DistanceBits(c, distance - 1 + 1));
    } else {
      ComputeDistCodeSpells(h, c, distance);
    }
  }

  /** A match is written as one code: length, then distance. */
  function MatchCode(h: Tables, length: nat, distance: nat): Code
    requires HasSizes(h) && 3 <= length <= 258 && 1 <= distance <= 32768
  {
    var code, code2 := GetLenCode(h, length), GetDistCode(h, distance);
    Code(Or(code.bits, (code2.bits * Pow2(code.length)) % WORD), code.length + code2.length)
  }

  lemma MatchCodeSpells(h: Tables, c: Codes, length: nat, distance: nat)
    requires TablesFor(h, c) && HasCode(c, Match(length, distance))
    ensures Spells(MatchCode(h, length, distance), TokenBits(c, Match(length, distance)))
    ensures MatchCode(h, length, distance).length <= 48
  {
    hide NatBits, Pow2, GetLenCode, GetDistCode, Or, LengthBits, DistanceBits, TablesFor, Spells;
    SizedTables(h, c);
    LenCodeSpells(h, c, length);
    DistCodeSpells(h, c, distance);
    CodesJoined(GetLenCode(h, length), GetDistCode(h, distance), LengthBits(c, length), DistanceBits(c, distance));
  }

  /** Or-ing a code above another in a 64-bit word joins their bits. */
  lemma CodesJoined(low: Code, high: Code, x: Bits01, y: Bits01)
    requires Spells(low, x) && Spells(high, y) && low.length + high.length <= 64
    ensures Spells(Code(Or(low.bits, (high.bits * Pow2(low.length)) % WORD), low.length + high.length), x + y)
  {
    hide NatBits, Pow2, Or;
    JoinedBound(low.bits, high.bits, low.length, high.length);
    WordIsPow2();
    Pow2AtMost(low.length + high.length, 64);
    ProductMonotone(0, high.bits, Pow2(low.length));
    SmallModulo(high.bits * Pow2(low.length), WORD);
    OrDisjoint(low.bits, high.bits, low.length);
    NatBitsJoin(low.bits, high.bits, low.length, high.length);
  }

  // ----- tables exist

  /** A packed entry for given bits. */
  function PackBits(bits: Bits01): nat {
    BitsValue(bits) * 32 + |bits|
  }

  lemma {:induction false} ValueSpells(bits: Bits01)
    ensures BitsValue(bits) < Pow2(|bits|) && NatBits(BitsValue(bits), |bits|) == bits
    decreases |bits|
  {
    if bits != [] {
      ValueSpells(bits[1..]);
      assert bits == [bits[0]] + bits[1..];
    }
  }

  lemma PackSpells(bits: Bits01)
    requires |bits| < 32
    ensures Spells(Unpack(PackBits(bits)), bits)
  {
    ValueSpells(bits);
    DivModUnique(PackBits(bits), BitsValue(bits), |bits|, 32);
  }

  /** Codes short enough for the tables. */
  ghost predicate ShortCodes(c: Codes) {
    && ValidCodes(c)
    && (forall s :: 0 <= s < 286 ==> |c.lit[s]| <= 15)
    && (forall s :: 0 <= s < 30 ==> |c.dist[s]| <= 15)
  }

  lemma ShortLengths(c: Codes, i: nat)
    requires ShortCodes(c) && i < 256
    ensures |LengthBits(c, i + 3)| < 32
  {
    LengthSymbolRange(i + 3);
  }

  lemma ShortDistances(c: Codes, i: nat)
    requires ShortCodes(c) && i < 32768
    ensures |DistanceBits(c, i + 1)| < 32
  {
    DistSymbolRange(i + 1);
  }

  function DistEntry(c: Codes, i: nat): nat
    requires |c.dist| == 30 && i < 32768
  {
    PackBits(DistanceBits(c, i + 1))
  }

  function LenEntry(c: Codes, i: nat): nat
    requires |c.lit| == 286 && i < 256
  {
    PackBits(LengthBits(c, i + 3))
  }

  function DistEntries(c: Codes, size: nat): (t: seq<nat>)
    requires |c.dist| == 30 && size <= 32768
    ensures |t| == size && forall i :: 0 <= i < size ==> t[i] == DistEntry(c, i)
  {
    seq(size, i requires 0 <= i < size => DistEntry(c, i))
  }

  function LenEntries(c: Codes): (t: seq<nat>)
    requires |c.lit| == 286
    ensures |t| == 256 && forall i :: 0 <= i < 256 ==> t[i] == LenEntry(c, i)
  {
    seq(256, i requires 0 <= i < 256 => LenEntry(c, i))
  }

  function Values(codes: seq<Bits01>): (t: seq<nat>)
    ensures |t| == |codes| && forall i :: 0 <= i < |t| ==> t[i] == BitsValue(codes[i])
  {
    seq(|codes|, i requires 0 <= i < |codes| => BitsValue(codes[i]))
  }

  function Sizes(codes: seq<Bits01>): (t: seq<nat>)
    ensures |t| == |codes| && forall i :: 0 <= i < |t| ==> t[i] == |codes[i]|
  {
    seq(|codes|, i requires 0 <= i < |codes| => |codes[i]|)
  }

  /** The tables of given codes, in either of the two sizes. */
  function MakeTables(c: Codes, large: bool): Tables
    requires |c.lit| == 286 && |c.dist| == 30
  {
    var size, offset := if large then 8192 else 2, if large then 26 else 0;
    Tables(DistEntries(c, size), LenEntries(c), Values(c.lit[..257]), Sizes(c.lit[..257]),
           Values(c.dist[offset..]), Sizes(c.dist[offset..]), offset)
  }

  /** Every prefix-free code without long words has its tables. */
  lemma TablesExist(c: Codes, large: bool)
    requires ShortCodes(c)
    ensures TablesFor(MakeTables(c, large), c)
  {
    hide Spells, PrefixFree, LengthBits, DistanceBits, PackBits, Unpack, DistEntries, LenEntries, Values, Sizes;
    hide BitsValue;
    var h := MakeTables(c, large);
    forall s | 0 <= s <= 256 ensures Spells(Code(h.litTable[s], h.litTableSizes[s]), c.lit[s]) {
      CodeSpells(c.lit[s]);
    }
    forall i | 0 <= i < 256 ensures Spells(Unpack(h.lenTable[i]), LengthBits(c, i + 3)) {
      ShortLengths(c, i);
      PackSpells(LengthBits(c, i + 3));
    }
    forall i | 0 <= i < |h.distTable| ensures Spells(Unpack(h.distTable[i]), DistanceBits(c, i + 1)) {
      ShortDistances(c, i);
      PackSpells(DistanceBits(c, i + 1));
    }
    forall i | 0 <= i < |h.dcodes| ensures SpellsDcode(h, c, i) {
      CodeSpells(c.dist[i + h.decodeOffset]);
    }
  }

  lemma CodeSpells(bits: Bits01)
    ensures Spells(Code(BitsValue(bits), |bits|), bits)
  {
    ValueSpells(bits);
  }

  /** There are such codes: words of one length each. */
  lemma ShortCodesExist() returns (c: Codes)
    ensures ShortCodes(c)
  {
    c := Codes(seq(286, s requires 0 <= s < 286 => NatBits(s, 9)), seq(30, s requires 0 <= s < 30 => NatBits(s, 5)));
    assert Pow2(9) == 512 && Pow2(5) == 32 by { SmallPowers(); }
    FixedLength(c.lit, 9);
    FixedLength(c.dist, 5);
  }

  lemma NoProperPrefix(a: Bits01, b: Bits01)
    requires |a| == |b| && a != b
    ensures !(a <= b)
  {
  }

  /** Words of the same length are prefixes of one another only if they are equal. */
  lemma FixedLength(codes: seq<Bits01>, n: nat)
    requires 0 < n && |codes| <= Pow2(n) && forall s :: 0 <= s < |codes| ==> codes[s] == NatBits(s, n)
    ensures PrefixFree(codes)
  {
    hide NatBits, Pow2;
    forall i, j | 0 <= i < |codes| && 0 <= j < |codes| && i != j ensures !(codes[i] <= codes[j]) {
      BitsValueInverts(i, n);
      BitsValueInverts(j, n);
      NoProperPrefix(codes[i], codes[j]);
    }
  }
}
