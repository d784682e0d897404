/** flatten_ll: turns counts per match length into counts per length symbol, in place. */
module FlattenLl {
  import opened Bits
  import opened DeflateFormat

  /** The sum of n counts from lo on. */
  function SumFrom(h: seq<nat>, lo: nat, n: nat): nat
    requires lo + n <= |h|
    decreases n
  {
    if n == 0 then 0 else SumFrom(h, lo, n - 1) + h[lo + n - 1]
  }

  /** The counts, kept at index length + 254, of the lengths from length on that have the symbol k. */
  function SymbolTotal(h: seq<nat>, k: nat, length: nat): nat
    requires |h| >= 513 && 3 <= length
    decreases 259 - length
  {
    if length > 258 then 0
    else (if LengthSymbol(length) == k then h[length + 254] else 0) + SymbolTotal(h, k, length + 1)
  }

  /** Before, within and after the range of k. */
  lemma {:induction false} SymbolTotalFrom(h: seq<nat>, k: nat, length: nat, lo: nat, n: nat)
    requires |h| >= 513 && 257 <= k <= 285 && 3 <= length <= 259 && 3 <= lo && lo + n <= 259
    requires forall l :: 3 <= l <= 258 ==> (LengthSymbol(l) == k <==> lo <= l < lo + n)
    ensures SymbolTotal(h, k, length) ==
      if length <= lo then SumFrom(h, lo + 254, n)
      else if length <= lo + n then SumFrom(h, lo + 254, n) - SumFrom(h, lo + 254, length - lo)
      else 0
    decreases 259 - length
  {
    hide LengthSymbol;
    if length <= 258 {
      SymbolTotalFrom(h, k, length + 1, lo, n);
    }
  }

  lemma SymbolTotalIs(h: seq<nat>, k: nat)
    requires |h| >= 513 && 257 <= k <= 285
    ensures LenBase(k) >= 3 && LenBase(k) + LengthCount(k) <= 259
    ensures SymbolTotal(h, k, 3) == SumFrom(h, LenBase(k) + 254, LengthCount(k))
  {
    hide LengthSymbol, LenBase, LengthCount, SymbolTotal, SumFrom;
    LengthSymbolIs(3, k);
    forall l | 3 <= l <= 258 ensures LengthSymbol(l) == k <==> LenBase(k) <= l < LenBase(k) + LengthCount(k) {
      LengthSymbolIs(l, k);
    }
    SymbolTotalFrom(h, k, 3, LenBase(k), LengthCount(k));
  }

  // ----- the totals are conserved

  /** The totals of the symbols from k on. */
  function SymbolTotals(h: seq<nat>, k: nat): nat
    requires |h| >= 513
    decreases 286 - k
  {
    if k > 285 then 0 else SymbolTotal(h, k, 3) + SymbolTotals(h, k + 1)
  }

  lemma {:induction false} SumFromSplit(h: seq<nat>, lo: nat, m: nat, n: nat)
    requires lo + m + n <= |h|
    ensures SumFrom(h, lo, m + n) == SumFrom(h, lo, m) + SumFrom(h, lo + m, n)
    decreases n
  {
    if n > 0 { SumFromSplit(h, lo, m, n - 1); }
  }

  lemma {:induction false} TotalsFrom(h: seq<nat>, k: nat)
    requires |h| >= 513 && 257 <= k <= 285
    ensures LenBase(k) <= 258 && SymbolTotals(h, k) == SumFrom(h, LenBase(k) + 254, 259 - LenBase(k))
    decreases 286 - k
  {
    hide LenBase, LengthCount, SymbolTotal, SumFrom;
    SymbolTotalIs(h, k);
    LenTableFormula(k);
    if k < 285 {
      RangesFollow(k);
      TotalsFrom(h, k + 1);
      SumFromSplit(h, LenBase(k) + 254, LengthCount(k), 259 - LenBase(k + 1));
    } else {
      LastRange();
    }
  }

  lemma LastRange()
    ensures LenBase(285) == 258 && LengthCount(285) == 1
  {
    SmallPowers();
    hide Pow2;
  }

  /** No count is lost and none is counted twice. */
  lemma TotalConserved(h: seq<nat>)
    requires |h| >= 513
    ensures SymbolTotals(h, 257) == SumFrom(h, 257, 256)
  {
    TotalsFrom(h, 257);
    LenTableFormula(257);
  }

  // ----- the loops

  /** Subtraction of uint32_t. */
  function Sub32(a: nat, b: nat): (r: nat)
    ensures r < 0x1_0000_0000
  {
    (a - b) % 0x1_0000_0000
  }

  function Low32(a: nat): (r: nat)
    ensures r < 0x1_0000_0000 && (a < 0x1_0000_0000 ==> r == a)
  {
    a % 0x1_0000_0000
  }

  lemma AddLow(a: nat, b: nat)
    ensures Add32(Low32(a), b) == Low32(a + b)
  {
  }

  lemma SubLow(a: nat, b: nat)
    ensures Sub32(Low32(a + b), b) == Low32(a)
  {
  }

  lemma SumFromNext(h: seq<nat>, lo: nat, n: nat)
    requires lo + n < |h|
    ensures SumFrom(h, lo, 0) == 0 && SumFrom(h, lo, n + 1) == SumFrom(h, lo, n) + h[lo + n]
  {
  }

  /** The sum of n counts from p on, in 32 bits. */
  method SumRun(s: array<nat>, p: nat, n: nat) returns (x: nat)
    requires p + n <= s.Length && n > 0 && s[p] < 0x1_0000_0000
    ensures x == Low32(SumFrom(s[..], p, n))
  {
    hide SumFrom, Add32, Low32;
    SumFromNext(s[..], p, 0);
    x := s[p];
    for j := 1 to n
      invariant x == Low32(SumFrom(s[..], p, j))
    {
      SumFromNext(s[..], p, j);
      AddLow(SumFrom(s[..], p, j), s[p + j]);
      x := Add32(x, s[p + j]);
    }
  }

  /** What is left at the symbol k. */
  function Target(h: seq<nat>, k: nat): nat
    requires |h| >= 513 && 257 <= k <= 285
  {
    Low32(SymbolTotal(h, k, 3))
  }

  ghost predicate IsHistogram(h: seq<nat>) {
    |h| >= 513 && forall j :: 0 <= j < |h| ==> h[j] < 0x1_0000_0000
  }

  /** Symbols up to i are done, and the counts from p on, of which more than i are left, are as before. */
  ghost predicate Flattened(h: seq<nat>, s: seq<nat>, i: nat, p: nat) {
    && IsHistogram(h) && |s| == |h| && 257 <= i <= p && i <= 286
    && (forall k :: 257 <= k < i ==> s[k] == Target(h, k))
    && (forall j :: 0 <= j < 257 || p <= j < |h| || 286 <= j < |h| ==> s[j] == h[j])
  }

  lemma {:induction false} SumFromSame(h: seq<nat>, s: seq<nat>, lo: nat, n: nat)
    requires lo + n <= |h| == |s| && forall j :: lo <= j < lo + n ==> s[j] == h[j]
    ensures SumFrom(h, lo, n) == SumFrom(s, lo, n)
    decreases n
  {
    if n > 0 { SumFromSame(h, s, lo, n - 1); }
  }

  /** Sums n counts from p on into the symbol i; the count at i itself has been read before. */
  method Group(s: array<nat>, i: nat, p: nat, n: nat, ghost h: seq<nat>)
    requires Flattened(h, s[..], i, p) && 265 <= i < 285 && p == LenBase(i) + 254 && n == Pow2(LenExtra(i))
    requires p + n <= 513
    modifies s
    ensures i < 284 ==> Flattened(h, s[..], i + 1, p + n)
    ensures Flattened(h, s[..], i, p + n) && s[i] == Low32(SumFrom(h, p, n))
  {
    hide SumFrom, SymbolTotal, LenBase, LenExtra, Low32;
    SumFromSame(h, s[..], p, n);
    var x := SumRun(s, p, n);
    s[i] := x;
    SymbolTotalIs(h, i);
  }

  /** The symbols below 273, whose groups are written out. */
  lemma FirstTarget(h: seq<nat>, k: nat)
    requires IsHistogram(h) && 257 <= k < 273
    ensures k < 265 ==> Target(h, k) == h[k]
    ensures 265 <= k < 269 ==> Target(h, k) == Low32(h[2 * k - 265] + h[2 * k - 264])
    ensures 269 <= k ==> Target(h, k) == Low32(h[4 * k - 803] + h[4 * k - 802] + h[4 * k - 801] + h[4 * k - 800])
  {
    SmallPowers();
    hide SymbolTotal, LenBase, LenExtra, Pow2, Low32;
    SymbolTotalIs(h, k);
    LenTableFormula(k);
    SumsOfFew(h, LenBase(k) + 254);
    if k < 265 { LowSmall(h[k]); }
  }

  lemma SumsOfFew(h: seq<nat>, lo: nat)
    requires lo + 4 <= |h|
    ensures SumFrom(h, lo, 1) == h[lo] && SumFrom(h, lo, 2) == h[lo] + h[lo + 1]
    ensures SumFrom(h, lo, 4) == h[lo] + h[lo + 1] + h[lo + 2] + h[lo + 3]
  {
    assert SumFrom(h, lo, 2) == SumFrom(h, lo, 1) + h[lo + 1];
    assert SumFrom(h, lo, 3) == SumFrom(h, lo, 2) + h[lo + 2];
  }

  /** The statements before the loops; each reads ahead of what it writes. */
  method FlattenFirst(s: array<nat>)
    requires IsHistogram(s[..])
    modifies s
    ensures Flattened(old(s[..]), s[..], 273, 289)
  {
    hide Low32, Target;
    ghost var h := s[..];
    FlattenPairs(s);
    ghost var g := s[..];
    s[269] := Low32(s[273] + s[274] + s[275] + s[276]);
    s[270] := Low32(s[277] + s[278] + s[279] + s[280]);
    s[271] := Low32(s[281] + s[282] + s[283] + s[284]);
    s[272] := Low32(s[285] + s[286] + s[287] + s[288]);
    assert s[..] == Quads(h, g);
    FirstDone(h, s[..]);
  }

  method FlattenPairs(s: array<nat>)
    requires IsHistogram(s[..])
    modifies s
    ensures s[..] == Pairs(old(s[..]))
  {
    hide Low32;
    s[265] := Low32(s[265] + s[266]);
    s[266] := Low32(s[267] + s[268]);
    s[267] := Low32(s[269] + s[270]);
    s[268] := Low32(s[271] + s[272]);
  }

  function Pairs(h: seq<nat>): seq<nat>
    requires |h| >= 513
  {
    h[265 := Low32(h[265] + h[266])]
      [266 := Low32(h[267] + h[268])]
      [267 := Low32(h[269] + h[270])]
      [268 := Low32(h[271] + h[272])]
  }

  function Quads(h: seq<nat>, g: seq<nat>): seq<nat>
    requires |h| == |g| >= 513
  {
    g[269 := Low32(h[273] + h[274] + h[275] + h[276])]
      [270 := Low32(h[277] + h[278] + h[279] + h[280])]
      [271 := Low32(h[281] + h[282] + h[283] + h[284])]
      [272 := Low32(h[285] + h[286] + h[287] + h[288])]
  }

  lemma FirstDone(h: seq<nat>, s: seq<nat>)
    requires IsHistogram(h) && s == Quads(h, Pairs(h))
    ensures Flattened(h, s, 273, 289)
  {
    hide Low32, Target;
    forall k | 257 <= k < 273 ensures s[k] == Target(h, k) {
      FirstTarget(h, k);
    }
  }

  /** flatten_ll */
  method Flatten(s: array<nat>)
    requires IsHistogram(s[..])
    modifies s
    ensures s[..257] == old(s[..257]) && s[286..] == old(s[286..])
    ensures forall k :: 257 <= k <= 285 ==> s[k] == Target(old(s[..]), k)
  {
    hide SumFrom, SymbolTotal, LenBase, LenExtra, Low32;
    ghost var h := s[..];
    FlattenFirst(s);
    var p := 289;
    for i := 273 to 277
      invariant Flattened(h, s[..], i, p) && p == 289 + 8 * (i - 273)
    {
      GroupSize(i);
      Group(s, i, p, 8, h);
      p := p + 8;
    }
    for i := 277 to 281
      invariant Flattened(h, s[..], i, p) && p == 321 + 16 * (i - 277)
    {
      GroupSize(i);
      Group(s, i, p, 16, h);
      p := p + 16;
    }
    for i := 281 to 284
      invariant Flattened(h, s[..], i, p) && p == 385 + 32 * (i - 281)
    {
      GroupSize(i);
      Group(s, i, p, 32, h);
      p := p + 32;
    }
    GroupSize(284);
    Group(s, 284, p, 32, h);
    LastTwo(h);
    s[284] := Sub32(s[284], s[512]);
    s[285] := s[512];
  }

  lemma GroupSize(i: nat)
    requires 273 <= i < 285
    ensures i < 277 ==> LenBase(i) + 254 == 289 + 8 * (i - 273) && Pow2(LenExtra(i)) == 8
    ensures 277 <= i < 281 ==> LenBase(i) + 254 == 321 + 16 * (i - 277) && Pow2(LenExtra(i)) == 16
    ensures 281 <= i ==> LenBase(i) + 254 == 385 + 32 * (i - 281) && Pow2(LenExtra(i)) == 32
  {
    SmallPowers();
    hide Pow2;
    LenTableFormula(i);
  }

  /** Length 258 has a symbol of its own. */
  lemma LastTwo(h: seq<nat>)
    requires IsHistogram(h)
    ensures Target(h, 284) == Sub32(Low32(SumFrom(h, 481, 32)), h[512])
    ensures Target(h, 285) == h[512]
  {
    SmallPowers();
    hide SymbolTotal, LenBase, LenExtra, Pow2, Add32, Sub32, Low32;
    SymbolTotalIs(h, 284);
    SymbolTotalIs(h, 285);
    LenTableFormula(284);
    LenTableFormula(285);
    SumFromNext(h, 481, 31);
    SumFromNext(h, 512, 0);
    SubLow(SumFrom(h, 481, 31), h[512]);
    LowSmall(h[512]);
  }

  lemma LowSmall(a: nat)
    requires a < 0x1_0000_0000
    ensures Low32(a) == a
  {
  }

  // ----- conservation in the array

  lemma {:induction false} SumOfTargets(h: seq<nat>, s: seq<nat>, n: nat)
    requires IsHistogram(h) && |s| == |h| && n <= 29
    requires forall k :: 257 <= k <= 285 ==> s[k] == Target(h, k)
    ensures Low32(SumFrom(s, 257, n) + SymbolTotals(h, 257 + n)) == Low32(SymbolTotals(h, 257))
    decreases n
  {
    hide SymbolTotal, SumFrom, Low32, SymbolTotals, Target;
    SumFromNext(s, 257, 0);
    if n > 0 {
      SumOfTargets(h, s, n - 1);
      var k := 256 + n;
      SumFromNext(s, 257, n - 1);
      TargetIs(h, k);
      var rest := SumFrom(s, 257, n - 1) + SymbolTotals(h, k + 1);
      assert SumFrom(s, 257, n) + SymbolTotals(h, k + 1) == Low32(SymbolTotal(h, k, 3)) + rest;
      LowOfSum(SymbolTotal(h, k, 3), rest);
    }
  }

  lemma TargetIs(h: seq<nat>, k: nat)
    requires |h| >= 513 && 257 <= k <= 285
    ensures Target(h, k) == Low32(SymbolTotal(h, k, 3))
    ensures SymbolTotals(h, k) == SymbolTotal(h, k, 3) + SymbolTotals(h, k + 1)
  {
  }

  lemma LowOfSum(a: nat, b: nat)
    ensures Low32(Low32(a) + b) == Low32(a + b)
  {
  }

  /** The flattened histogram has the same total, in 32 bits. */
  lemma FlattenedTotal(h: seq<nat>, s: seq<nat>)
    requires IsHistogram(h) && |s| == |h|
    requires forall k :: 257 <= k <= 285 ==> s[k] == Target(h, k)
    ensures Low32(SumFrom(s, 257, 29)) == Low32(SumFrom(h, 257, 256))
  {
    hide SymbolTotal, SumFrom, Low32;
    SumOfTargets(h, s, 29);
    TotalConserved(h);
    assert SymbolTotals(h, 286) == 0;
  }
}
