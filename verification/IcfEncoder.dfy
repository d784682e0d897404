/** The second stage of the higher levels (encode_df.c): writing out records of the intermediate
    compression format with tables that overlap in memory. */
module IcfEncoder {
  import opened Arithmetic
  import opened Bits
  import opened BitStream
  import opened BitBuffer
  import opened DeflateFormat
  import opened HuffmanTables

  // ----- table entries

  /** struct huff_code is a 32-bit word with two readings: a code of 24 bits and its length, or a code
      of 16 bits, the number of extra bits that follow it, and its length. */
  type HuffCode = w: nat | w < 0x1_0000_0000

  function CodeAndExtra(w: HuffCode): nat { w % 0x100_0000 }
  function Length(w: HuffCode): (n: nat) ensures n < 256 { w / 0x100_0000 }
  function CodeOnly(w: HuffCode): nat { w % 0x1_0000 }
  function ExtraBitCount(w: HuffCode): (n: nat) ensures n < 256 { (w / 0x1_0000) % 256 }

  /** Where the fields are. */
  lemma EntryLayout(code: nat, extra: nat, length: nat)
    requires code < 0x1_0000 && extra < 0x100 && length < 0x100
    ensures var w: nat := code + 0x1_0000 * extra + 0x100_0000 * length;
      && w < 0x1_0000_0000
      && CodeOnly(w) == code && ExtraBitCount(w) == extra && Length(w) == length
      && CodeAndExtra(w) == code + 0x1_0000 * extra
  {
  }

  /** A code of at most 16 bits reads the same both ways, with no extra bits. */
  lemma ShortCodeReadsTheSame(w: HuffCode)
    requires CodeAndExtra(w) < 0x1_0000
    ensures CodeOnly(w) == CodeAndExtra(w) && ExtraBitCount(w) == 0
  {
  }

  // ----- the overlapping tables

  const NULL_DIST_SYM: nat := 30
  const LIT_START: nat := NULL_DIST_SYM + 1

  /** struct hufftables_icf: the same 544 entries under two layouts. */
  type IcfTable = t: seq<HuffCode> | |t| == 544 witness seq(544, _ => 0)

  function DistTable(t: IcfTable): (r: seq<HuffCode>) ensures |r| == 31 { t[..31] }
  function LitLenTable(t: IcfTable): (r: seq<HuffCode>) ensures |r| == 513 { t[31..] }
  function DistLitTable(t: IcfTable): (r: seq<HuffCode>) ensures |r| == 288 { t[..288] }
  function LenTable(t: IcfTable): (r: seq<HuffCode>) ensures |r| == 256 { t[288..] }

  /** The literal x has the same code as the first and as the second symbol of a record; and the
      length table is the upper part of the literal and length table. */
  lemma TablesOverlap(t: IcfTable)
    ensures forall x :: 0 <= x < 257 ==> DistLitTable(t)[LIT_START + x] == LitLenTable(t)[x]
    ensures forall d :: 0 <= d < 31 ==> DistLitTable(t)[d] == DistTable(t)[d]
    ensures forall n :: 0 <= n < 256 ==> LenTable(t)[n] == LitLenTable(t)[257 + n]
  {
  }

  /** The tables spell the codes of a block.  The entry of a literal or length symbol that is not used
      is 0 before its extra bits, which spells the empty code; that of a distance symbol is not set. */
  ghost predicate IcfTableFor(t: IcfTable, c: Codes) {
    && |c.lit| == 286 && |c.dist| == 30
    && (forall x :: 0 <= x <= 256 ==> SpellsLiteral(t, c, x))
    && (forall n :: 3 <= n <= 258 ==> SpellsLength(t, c, n))
    && (forall d :: 0 <= d < 30 ==> SpellsDistance(t, c, d))
    && DistTable(t)[NULL_DIST_SYM] == 0
  }

  ghost predicate SpellsLiteral(t: IcfTable, c: Codes, x: nat)
    requires |c.lit| == 286 && x <= 256
  {
    var w := LitLenTable(t)[x];
    |c.lit[x]| <= 15 && Spells(Code(CodeAndExtra(w), Length(w)), c.lit[x])
  }

  ghost predicate SpellsLength(t: IcfTable, c: Codes, n: nat)
    requires |c.lit| == 286 && 3 <= n <= 258
  {
    var w := LitLenTable(t)[n + 254];
    Length(w) <= 20 && Spells(Code(CodeAndExtra(w), Length(w)), LengthBits(c, n))
  }

  ghost predicate SpellsDistance(t: IcfTable, c: Codes, d: nat)
    requires |c.dist| == 30 && d < 30
  {
    var w := DistTable(t)[d];
    c.dist[d] != [] ==>
      Length(w) <= 15 && Spells(Code(CodeOnly(w), Length(w)), c.dist[d]) && ExtraBitCount(w) == DistExtra(d)
  }

  // ----- records

  /** struct deflate_icf: a literal or length, then a distance symbol with its extra bits, nothing, or
      a second literal. */
  datatype Icf = Icf(litLen: nat, litDist: nat, distExtra: nat)

  predicate ValidIcf(r: Icf) {
    && r.litLen <= 512
    && (r.litLen > 256 ==> r.litDist < 30 && r.distExtra < Pow2(DistExtra(r.litDist)))
    && (r.litLen <= 256 ==>
      (r.litDist == NULL_DIST_SYM || LIT_START <= r.litDist < LIT_START + 256) && r.distExtra == 0)
  }

  /** The distance symbol of a match has a code. */
  predicate DistanceCoded(c: Codes, r: Icf) {
    |c.dist| == 30 && (r.litLen > 256 ==> r.litDist < 30 && c.dist[r.litDist] != [])
  }

  function LitToken(x: nat): Token
    requires x <= 256
  {
    if x < 256 then Literal(x) else EndOfBlock
  }

  /** What a record stands for. */
  function IcfTokens(r: Icf): (ts: seq<Token>)
    requires ValidIcf(r)
    ensures forall t :: t in ts ==> ValidToken(t)
  {
    if r.litLen > 256 then
      IcfDistance(r.litDist, r.distExtra);
      [Match(r.litLen - 254, DistBase(r.litDist) + r.distExtra)]
    else if r.litDist == NULL_DIST_SYM then [LitToken(r.litLen)]
    else [LitToken(r.litLen), Literal(r.litDist - LIT_START)]
  }

  /** The ranges of the distance symbols follow on one another. */
  lemma DistBaseNext(s: nat)
    requires s < 29
    ensures DistBase(s) + Pow2(DistExtra(s)) == DistBase(s + 1)
  {
    hide DistBase, DistExtra;
    SmallPowers();
    DistBaseNextTable(s);
    hide Pow2;
  }

  lemma DistBaseNextTable(s: nat)
    requires s < 29
    ensures DistExtra(s) <= 13
    ensures DistBase(s + 1) - DistBase(s)
      == [1, 2, 4, 8, 16, 32, 64, 128, 256, 512, 1024, 2048, 4096, 8192][DistExtra(s)]
  {
    assert s == 0 || s == 1 || s == 2 || s == 3 || s == 4 || s == 5 || s == 6 || s == 7 || s == 8 || s == 9 ||
      s == 10 || s == 11 || s == 12 || s == 13 || s == 14 || s == 15 || s == 16 || s == 17 || s == 18 || s == 19 ||
      s == 20 || s == 21 || s == 22 || s == 23 || s == 24 || s == 25 || s == 26 || s == 27 || s == 28;
  }

  lemma {:induction false} DistRangesOrdered(s: nat, s': nat)
    requires s < s' < 30
    ensures DistBase(s) + Pow2(DistExtra(s)) <= DistBase(s')
    decreases s'
  {
    hide DistBase, DistExtra, Pow2;
    DistBaseNext(s' - 1);
    if s < s' - 1 { DistRangesOrdered(s, s' - 1); }
  }

  /** A distance symbol and its extra bits make a distance, which has that symbol. */
  lemma IcfDistance(s: nat, extra: nat)
    requires s < 30 && extra < Pow2(DistExtra(s))
    ensures 1 <= DistBase(s) + extra <= 32768 && DistSymbol(DistBase(s) + extra) == s
  {
    hide DistBase, DistExtra, Pow2, DistSymbol;
    LastDistances();
    if s < 29 { DistRangesOrdered(s, 29); }
    if s > 0 { DistRangesOrdered(0, s); }
    var s' := DistSymbol(DistBase(s) + extra);
    DistSymbolRange(DistBase(s) + extra);
    if s < s' { DistRangesOrdered(s, s'); }
    if s' < s { DistRangesOrdered(s', s); }
  }

  lemma LastDistances()
    ensures DistBase(0) == 1 && DistBase(29) + Pow2(DistExtra(29)) == 32769
  {
    hide Pow2;
    SmallPowers();
  }

  /** get_dist_icf_code: the symbol of a distance and its extra bits. */
  function GetDistIcfCode(dist: nat): (r: (nat, nat))
    requires 1 <= dist <= 32768
    ensures r.0 < 30
  {
    if dist <= 2 then (dist - 1, 0)
    else
      DistPartsBounds(dist);
      DistSymbolParts(dist);
      var numExtraBits := BitLength(dist - 1) - 2;
      (Shr(dist - 1, numExtraBits) + 2 * numExtraBits, And(dist - 1, Pow2(numExtraBits) - 1))
  }

  lemma GetDistIcfCodeIs(dist: nat)
    requires 1 <= dist <= 32768
    ensures GetDistIcfCode(dist) == (DistSymbol(dist), dist - DistBase(DistSymbol(dist)))
  {
    hide Pow2, And, Shr, BitLength, DistBase, DistExtra;
    DistSymbolParts(dist);
    if dist <= 2 {
      FirstDistances(dist);
    } else {
      DistPartsBounds(dist);
      var (e, q) := DistParts(dist);
      AndLowMask(dist - 1, e);
      DivModUnique(dist - 1, q, dist - 1 - q * Pow2(e), Pow2(e));
      DistTableFormula(q + 2 * e);
      assert (q + 2 * e) / 2 - 1 == e && 2 + (q + 2 * e) % 2 == q;
    }
  }

  /** A record as the first stage makes it from a match stands for that match. */
  lemma MatchRecord(length: nat, dist: nat)
    requires 3 <= length <= 258 && 1 <= dist <= 32768
    ensures var (code, extra) := GetDistIcfCode(dist);
      var r := Icf(length + 254, code, extra);
      ValidIcf(r) && IcfTokens(r) == [Match(length, dist)]
  {
    hide Pow2, GetDistIcfCode, DistSymbol, DistBase, DistExtra;
    GetDistIcfCodeIs(dist);
    DistSymbolRange(dist);
  }

  // ----- writing records

  /** What the three writes of one record append. */
  ghost function RecordBits(t: IcfTable, r: Icf): Bits01
    requires ValidIcf(r)
  {
    var lsym, dsym := LitLenTable(t)[r.litLen], DistLitTable(t)[r.litDist];
    NatBits(CodeAndExtra(lsym), Length(lsym))
    + NatBits(CodeOnly(dsym), Length(dsym)) + NatBits(r.distExtra, ExtraBitCount(dsym))
  }

  /** Codes fit their lengths, and a record has at most 48 bits. */
  ghost predicate Fits(t: IcfTable, r: Icf)
    requires ValidIcf(r)
  {
    var lsym, dsym := LitLenTable(t)[r.litLen], DistLitTable(t)[r.litDist];
    && CodeAndExtra(lsym) < Pow2(Length(lsym)) && CodeOnly(dsym) < Pow2(Length(dsym))
    && r.distExtra < Pow2(ExtraBitCount(dsym))
    && Length(lsym) + Length(dsym) + ExtraBitCount(dsym) <= 48
  }

  /** A literal's entry, through either table. */
  lemma LiteralSpells(t: IcfTable, c: Codes, x: nat)
    requires IcfTableFor(t, c) && x <= 256
    ensures var w := LitLenTable(t)[x];
      && NatBits(CodeAndExtra(w), Length(w)) == c.lit[x] && CodeAndExtra(w) < Pow2(Length(w)) && Length(w) <= 15
      && CodeOnly(w) == CodeAndExtra(w) && ExtraBitCount(w) == 0
      && DistLitTable(t)[LIT_START + x] == w
  {
    hide NatBits, Pow2, CodeAndExtra, CodeOnly, Length, ExtraBitCount, SpellsLength, SpellsDistance;
    assert SpellsLiteral(t, c, x);
    var w := LitLenTable(t)[x];
    Pow2AtMost(Length(w), 15);
    Pow2Fifteen();
    ShortCodeReadsTheSame(w);
  }

  /** The null symbol writes nothing. */
  lemma NullSymbolIsEmpty(t: IcfTable, c: Codes)
    requires IcfTableFor(t, c)
    ensures var w := DistLitTable(t)[NULL_DIST_SYM]; CodeOnly(w) == 0 && Length(w) == 0 && ExtraBitCount(w) == 0
  {
  }

  lemma NothingToWrite()
    ensures NatBits(0, 0) == [] && Pow2(0) == 1
  {
  }

  lemma MatchRecordSpells(t: IcfTable, c: Codes, r: Icf)
    requires IcfTableFor(t, c) && ValidIcf(r) && r.litLen > 256 && DistanceCoded(c, r)
    ensures Fits(t, r) && RecordBits(t, r) == Encode(c, IcfTokens(r))
  {
    hide NatBits, Pow2, DistBase, DistExtra, DistSymbol, LengthBits, DistanceBits, CodeAndExtra, CodeOnly, Length;
    hide ExtraBitCount, SpellsLiteral;
    var n, d := r.litLen - 254, r.litDist;
    assert SpellsLength(t, c, n) && SpellsDistance(t, c, d);
    assert DistLitTable(t)[d] == DistTable(t)[d];
    ExtraBitsFew(d);
    hide IcfTableFor;
    DistanceSpelled(c, d, r.distExtra);
    IcfSized(t, c);
    OneToken(c, IcfTokens(r)[0]);
  }

  lemma ExtraBitsFew(d: nat)
    requires d < 30
    ensures DistExtra(d) <= 13
  {
    if d > 1 { DistTableFormula(d); }
  }

  lemma DistanceSpelled(c: Codes, d: nat, extra: nat)
    requires |c.dist| == 30 && d < 30 && extra < Pow2(DistExtra(d))
    ensures 1 <= DistBase(d) + extra <= 32768
    ensures DistanceBits(c, DistBase(d) + extra) == c.dist[d] + NatBits(extra, DistExtra(d))
  {
    hide NatBits, Pow2, DistBase, DistExtra, DistSymbol;
    IcfDistance(d, extra);
    DistSymbolRange(DistBase(d) + extra);
  }

  /** They are the codes of the tokens that the record stands for. */
  lemma RecordSpells(t: IcfTable, c: Codes, r: Icf)
    requires IcfTableFor(t, c) && ValidIcf(r) && DistanceCoded(c, r)
    ensures r.litLen <= 512 && r.litDist < 288 && Fits(t, r) && RecordBits(t, r) == Encode(c, IcfTokens(r))
  {
    hide NatBits, Pow2, DistBase, DistExtra, DistSymbol, LengthSymbol, CodeAndExtra, CodeOnly, Length, ExtraBitCount;
    hide SpellsLiteral, SpellsLength, SpellsDistance;
    if r.litLen > 256 {
      MatchRecordSpells(t, c, r);
    } else if r.litDist == NULL_DIST_SYM {
      LiteralSpells(t, c, r.litLen);
      NullSymbolIsEmpty(t, c);
      NothingToWrite();
      OneToken(c, LitToken(r.litLen));
    } else {
      LiteralSpells(t, c, r.litLen);
      LiteralSpells(t, c, r.litDist - LIT_START);
      NothingToWrite();
      OneToken(c, LitToken(r.litLen));
      OneToken(c, Literal(r.litDist - LIT_START));
      EncodeAppend(c, [LitToken(r.litLen)], [Literal(r.litDist - LIT_START)]);
    }
  }

  /** The tokens of records in a row. */
  function AllTokens(rs: seq<Icf>): (ts: seq<Token>)
    requires forall r :: r in rs ==> ValidIcf(r)
    ensures forall t :: t in ts ==> ValidToken(t)
  {
    if rs == [] then [] else AllTokens(rs[..|rs| - 1]) + IcfTokens(rs[|rs| - 1])
  }

  lemma IcfSized(t: IcfTable, c: Codes)
    requires IcfTableFor(t, c)
    ensures |c.lit| == 286 && |c.dist| == 30
  {
  }

  lemma NoRecords(c: Codes)
    requires |c.lit| == 286 && |c.dist| == 30
    ensures Encode(c, AllTokens([])) == []
  {
  }

  lemma OneMoreRecord(c: Codes, rs: seq<Icf>, start: nat, next: nat)
    requires |c.lit| == 286 && |c.dist| == 30 && start <= next < |rs| && forall r :: r in rs ==> ValidIcf(r)
    ensures Encode(c, AllTokens(rs[start..next + 1]))
      == Encode(c, AllTokens(rs[start..next])) + Encode(c, IcfTokens(rs[next]))
  {
    hide Encode, IcfTokens, ValidIcf;
    assert rs[start..next + 1][..next - start] == rs[start..next];
    EncodeAppend(c, AllTokens(rs[start..next]), IcfTokens(rs[next]));
  }

  /** One turn of the loop. */
  method WriteRecord(bb: BitBuf2, t: IcfTable, ghost c: Codes, r: Icf)
    requires bb.Settled() && !bb.IsFull() && ValidIcf(r) && IcfTableFor(t, c) && DistanceCoded(c, r)
    modifies bb`mBits, bb`mBitCount, bb`mOutBuf, bb.buf
    ensures bb.Settled() && old(bb.mOutBuf) <= bb.mOutBuf <= old(bb.mOutBuf) + 7
    ensures bb.Stream() == old(bb.Stream()) + Encode(c, IcfTokens(r))
    ensures forall p :: 0 <= p < bb.buf.Length && !(old(bb.mOutBuf) <= p < old(bb.mOutBuf) + 8) ==>
      bb.buf[p] == old(bb.buf[p])
  {
    hide NatBits, Pow2, Encode, IcfTokens, ValidIcf, IcfTableFor, CodeAndExtra, CodeOnly, Length, ExtraBitCount;
    hide DistanceCoded;
    RecordSpells(t, c, r);
    ghost var before := bb.Stream();
    var lsym := LitLenTable(t)[r.litLen];
    var dsym := DistLitTable(t)[r.litDist];
    bb.WriteBitsUnsafe(CodeAndExtra(lsym), Length(lsym));
    bb.WriteBitsUnsafe(CodeOnly(dsym), Length(dsym));
    bb.WriteBitsUnsafe(r.distExtra, ExtraBitCount(dsym));
    assert bb.Stream() == before + RecordBits(t, r);
    bb.FlushBits();
  }

  /** encode_deflate_icf_base: writes records until they or the room end. */
  method EncodeDeflateIcf(records: seq<Icf>, start: nat, end: nat, bb: BitBuf2, t: IcfTable, ghost c: Codes)
    returns (next: nat)
    requires start <= end <= |records| && (forall r :: r in records ==> ValidIcf(r) && DistanceCoded(c, r))
    requires IcfTableFor(t, c) && bb.Settled()
    modifies bb`mBits, bb`mBitCount, bb`mOutBuf, bb.buf
    ensures bb.Settled() && start <= next <= end && (next < end ==> bb.IsFull())
    ensures old(bb.IsFull()) ==> next == start
    ensures |c.lit| == 286 && |c.dist| == 30
    ensures bb.Stream() == old(bb.Stream()) + Encode(c, AllTokens(records[start..next]))
    ensures forall p :: 0 <= p < bb.buf.Length && !(old(bb.mOutBuf) <= p < bb.mOutEnd + 8) ==>
      bb.buf[p] == old(bb.buf[p])
  {
    hide NatBits, Pow2, Encode, AllTokens, IcfTokens, ValidIcf, IcfTableFor, DistanceCoded;
    IcfSized(t, c);
    next := start;
    NoRecords(c);
    assert records[start..start] == [];
    while next < end && !bb.IsFull()
      invariant start <= next <= end && bb.Settled() && bb.mOutBuf >= old(bb.mOutBuf)
      invariant old(bb.IsFull()) ==> next == start
      invariant bb.Stream() == old(bb.Stream()) + Encode(c, AllTokens(records[start..next]))
      invariant forall p :: 0 <= p < bb.buf.Length && !(old(bb.mOutBuf) <= p < bb.mOutEnd + 8) ==>
        bb.buf[p] == old(bb.buf[p])
      decreases end - next
    {
      WriteRecord(bb, t, c, records[next]);
      OneMoreRecord(c, records, start, next);
      next := next + 1;
    }
  }
}
