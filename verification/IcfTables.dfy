/** expand_hufftables_icf: replaces the codes of the length symbols by one entry for each length, in
    place, in the overlapping tables. */
module IcfTables {
  import opened Bits
  import opened BitStream
  import opened BitBuffer
  import opened DeflateFormat
  import opened HuffmanTables
  import opened IcfEncoder

  /** A table entry from its code and its length. */
  function Pack(code: nat, length: nat): (w: HuffCode)
    requires code < 0x100_0000 && length < 256
    ensures CodeAndExtra(w) == code && Length(w) == length
  {
    code + length * 0x100_0000
  }

  ghost predicate SpellsSymbol(w: HuffCode, c: Codes, s: nat)
    requires |c.lit| == 286 && s < 286
  {
    Length(w) <= 15 && Spells(Code(CodeAndExtra(w), Length(w)), c.lit[s])
  }

  ghost predicate SymbolSpelled(t: seq<HuffCode>, c: Codes, s: nat)
    requires |t| == 544 && |c.lit| == 286 && s < 286
  {
    SpellsSymbol(t[LIT_START + s], c, s)
  }

  /** The tables before: one entry for each symbol. */
  ghost predicate Unexpanded(t: seq<HuffCode>, c: Codes) {
    && |t| == 544 && |c.lit| == 286 && |c.dist| == 30
    && (forall s :: 0 <= s < 286 ==> SymbolSpelled(t, c, s))
    && (forall d :: 0 <= d < 30 ==> SpellsDistance(t, c, d))
  }

  /** The entry of a length. */
  function LengthEntry(n: nat): nat {
    LIT_START + n + 254
  }

  /** Lengths from 11 up to n, but not 258, have their entries; the rest is as it was. */
  ghost predicate Expanded(t0: seq<HuffCode>, t: seq<HuffCode>, c: Codes, n: nat) {
    && Unexpanded(t0, c) && |t| == 544 && 11 <= n <= 259
    && (forall l :: 11 <= l < n && l < 258 ==> SpellsLength(t, c, l))
    && (forall p :: 0 <= p < 544 && !(LengthEntry(11) <= p < LengthEntry(n)) ==> t[p] == t0[p])
  }

  /** A symbol's code with j in the extra bits above it. */
  lemma EntryFits(c: Codes, w: HuffCode, s: nat, j: nat)
    requires |c.lit| == 286 && 257 <= s <= 285 && SpellsSymbol(w, c, s) && LenExtra(s) <= 5 && j < Pow2(LenExtra(s))
    ensures var code, n := Or(CodeOnly(w), Shl64(j, Length(w))), Length(w) + LenExtra(s);
      code < 0x10_0000 && n <= 20 && Spells(Code(code, n), c.lit[s] + NatBits(j, LenExtra(s)))
  {
    hide NatBits, Pow2, CodeAndExtra, CodeOnly, Length, LenExtra, Shl64, Or, ExtraBitCount;
    Pow2AtMost(Length(w), 15);
    Pow2Fifteen();
    ShortCodeReadsTheSame(w);
    FieldAppended(CodeAndExtra(w), Length(w), j, LenExtra(s));
    Pow2AtMost(Length(w) + LenExtra(s), 20);
    TwentyBits();
  }

  lemma TwentyBits()
    ensures Pow2(20) == 0x10_0000
  {
    SmallPowers();
    Pow2Add(10, 10);
  }

  /** The lengths of a symbol differ in their extra bits. */
  lemma LengthOfSymbol(c: Codes, s: nat, j: nat)
    requires |c.lit| == 286 && 257 <= s <= 285 && j < Pow2(LenExtra(s))
    requires LenBase(s) + j <= 258 && (s < 285 ==> LenBase(s) + j < 258)
    ensures 3 <= LenBase(s) + j && LengthBits(c, LenBase(s) + j) == c.lit[s] + NatBits(j, LenExtra(s))
  {
    hide NatBits, LenBase, LenExtra, LengthSymbol, Pow2;
    LengthSymbolIs(3, s);
    LengthCountIs(s);
    LengthSymbolIs(LenBase(s) + j, s);
    LengthSymbolRange(LenBase(s) + j);
  }

  lemma LengthCountIs(s: nat)
    requires 257 <= s <= 285
    ensures LengthCount(s) == if s == 284 then 31 else Pow2(LenExtra(s))
    ensures s == 284 ==> LenBase(s) == 227
    ensures s == 285 ==> LenBase(s) == 258 && LenExtra(s) == 0
  {
  }

  /** Writes the entries of the lengths of the symbol s; orig is its own entry, read before. */
  method ExpandSymbol(t: array<HuffCode>, s: nat, eb: nat, orig: HuffCode, ghost c: Codes, ghost t0: seq<HuffCode>)
    requires t.Length == 544 && 265 <= s <= 284 && 1 <= eb == LenExtra(s) <= 5
    requires LenBase(s) >= 11 && LenBase(s) + Pow2(eb) <= 259
    requires Expanded(t0, t[..], c, LenBase(s)) && orig == t0[LIT_START + s]
    modifies t
    ensures Expanded(t0, t[..], c, LenBase(s) + Pow2(eb))
  {
    hide NatBits, CodeAndExtra, CodeOnly, Length, LenBase, LenExtra, Shl64, Or, SpellsLength, SpellsDistance, Pow2;
    hide Expanded, Pack;
    SymbolKept(t0, t[..], c, LenBase(s), s);
    var len, code := Length(orig), CodeOnly(orig);
    var p := LengthEntry(LenBase(s));
    for j := 0 to Pow2(eb)
      invariant p == LengthEntry(LenBase(s) + j) && Expanded(t0, t[..], c, LenBase(s) + j)
    {
      ghost var before := t[..];
      EntryFits(c, orig, s, j);
      t[p] := Pack(Or(code, Shl64(j, len)), len + eb);
      assert t[..] == before[p := Pack(Or(code, Shl64(j, len)), len + eb)];
      NextExpanded(t0, before, c, s, j, t[p]);
      p := p + 1;
    }
  }

  lemma SymbolKept(t0: seq<HuffCode>, t: seq<HuffCode>, c: Codes, n: nat, s: nat)
    requires Expanded(t0, t, c, n) && s < 286
    ensures |c.lit| == 286 && |t0| == 544 && SpellsSymbol(t0[LIT_START + s], c, s)
  {
    assert SymbolSpelled(t0, c, s);
  }

  /** One more length has its entry. */
  lemma NextExpanded(t0: seq<HuffCode>, t: seq<HuffCode>, c: Codes, s: nat, j: nat, w: HuffCode)
    requires 265 <= s <= 284 && j < Pow2(LenExtra(s)) && LenBase(s) + j <= 258
    requires Expanded(t0, t, c, LenBase(s) + j)
    requires |c.lit| == 286
    requires Length(w) <= 20 && Spells(Code(CodeAndExtra(w), Length(w)), c.lit[s] + NatBits(j, LenExtra(s)))
    ensures Expanded(t0, t[LengthEntry(LenBase(s) + j) := w], c, LenBase(s) + j + 1)
  {
    hide NatBits, CodeAndExtra, Length, LenBase, LenExtra, SpellsDistance, SpellsSymbol, Pow2;
    var n := LenBase(s) + j;
    var u := t[LengthEntry(n) := w];
    forall l | 11 <= l < n + 1 && l < 258 ensures SpellsLength(u, c, l) {
      if l == n {
        LengthOfSymbol(c, s, j);
      } else {
        assert SpellsLength(t, c, l);
        assert LitLenTable(u)[l + 254] == u[LengthEntry(l)] == t[LengthEntry(l)] == LitLenTable(t)[l + 254];
      }
    }
  }

  /** All that is left is the entry of length 258, and the entry that writes nothing. */
  lemma LastEntries(t0: seq<HuffCode>, t: seq<HuffCode>, c: Codes)
    requires Expanded(t0, t, c, 259)
    ensures IcfTableFor(t[LengthEntry(258) := t0[LIT_START + 285]][NULL_DIST_SYM := 0], c)
  {
    hide NatBits, CodeAndExtra, CodeOnly, Length, ExtraBitCount, LenBase, LenExtra, DistExtra, Pow2, LengthBits;
    var u := t[LengthEntry(258) := t0[LIT_START + 285]][NULL_DIST_SYM := 0];
    forall x | 0 <= x <= 256 ensures SpellsLiteral(u, c, x) {
      assert LitLenTable(u)[x] == t0[LIT_START + x];
      assert SymbolSpelled(t0, c, x);
    }
    forall n | 3 <= n <= 258 ensures SpellsLength(u, c, n) {
      assert LitLenTable(u)[n + 254] == u[LengthEntry(n)];
      if 11 <= n < 258 {
        assert SpellsLength(t, c, n);
        assert LitLenTable(t)[n + 254] == t[LengthEntry(n)];
      } else {
        PlainLength(c, t0, n);
      }
    }
    forall d | 0 <= d < 30 ensures SpellsDistance(u, c, d) {
      assert DistTable(u)[d] == t0[d] == DistTable(t0)[d];
      assert SpellsDistance(t0, c, d);
    }
  }

  /** A length without extra bits is spelled by its symbol's own entry. */
  lemma PlainLength(c: Codes, t0: seq<HuffCode>, n: nat)
    requires Unexpanded(t0, c) && (3 <= n < 11 || n == 258)
    ensures var w := t0[LIT_START + LengthSymbol(n)];
      Length(w) <= 20 && Spells(Code(CodeAndExtra(w), Length(w)), LengthBits(c, n))
    ensures LengthSymbol(n) == if n == 258 then 285 else n + 254
  {
    hide CodeAndExtra, Length, Pow2, SpellsDistance;
    var s := LengthSymbol(n);
    assert SymbolSpelled(t0, c, s);
    PlainSymbol(n);
    assert NatBits(n - LenBase(s), 0) == [];
  }

  lemma PlainSymbol(n: nat)
    requires 3 <= n < 11 || n == 258
    ensures LenBase(LengthSymbol(n)) == n && LenExtra(LengthSymbol(n)) == 0
  {
    LenTableFormula(LengthSymbol(n));
  }

  /** expand_hufftables_icf */
  method ExpandHufftablesIcf(t: array<HuffCode>, ghost c: Codes)
    requires t.Length == 544 && Unexpanded(t[..], c)
    modifies t
    ensures IcfTableFor(t[..], c)
  {
    hide NatBits, CodeAndExtra, Length, LenBase, LenExtra, SpellsLength, SpellsDistance, SpellsSymbol, Pow2;
    hide IcfTableFor;
    ghost var t0 := t[..];
    var orig := t[LIT_START + 265..LIT_START + 286];
    FirstBase();
    var i := 0;
    for eb := 1 to 6
      invariant i == 4 * (eb - 1)
      invariant eb < 6 ==> Expanded(t0, t[..], c, LenBase(265 + i))
      invariant eb == 6 ==> Expanded(t0, t[..], c, 259)
    {
      for k := 0 to 4
        invariant i == 4 * (eb - 1) + k
        invariant i < 20 ==> Expanded(t0, t[..], c, LenBase(265 + i))
        invariant i == 20 ==> Expanded(t0, t[..], c, 259)
      {
        SymbolRange(265 + i);
        ExpandSymbol(t, 265 + i, eb, orig[i], c, t0);
        i := i + 1;
      }
    }
    // the last entry written was one too many: length 258 has a symbol of its own
    ghost var u := t[..];
    LastEntries(t0, u, c);
    t[LengthEntry(258)] := orig[i];
    t[NULL_DIST_SYM] := 0;
    assert t[..] == u[LengthEntry(258) := t0[LIT_START + 285]][NULL_DIST_SYM := 0];
  }

  lemma FirstBase()
    ensures LenBase(265) == 11
  {
  }

  lemma SymbolRange(s: nat)
    requires 265 <= s <= 284
    ensures LenExtra(s) == 1 + (s - 265) / 4 && LenBase(s) >= 11
    ensures LenBase(s) + Pow2(LenExtra(s)) == if s < 284 then LenBase(s + 1) else 259
    ensures LenBase(s) + Pow2(LenExtra(s)) <= 259
  {
    SmallPowers();
    hide Pow2;
    LenTableFormula(s);
    LenTableFormula(s + 1);
  }
}
