/** Compressed blocks as RFC 1951 defines them: literals, lengths and distances (section 3.2.5),
    their codes (sections 3.1.1 and 3.2.2), and a decoder (section 3.2.3) that works bit by bit. */
module DeflateFormat {
  import opened Arithmetic
  import opened Bits
  import opened BitStream

  datatype Option<+T> = None | Some(value: T)

  datatype Token =
    | Literal(octet: Octet)
    | Match(length: nat, distance: nat)
    | EndOfBlock

  predicate ValidToken(t: Token) {
    t.Match? ==> 3 <= t.length <= 258 && 1 <= t.distance <= 32768
  }

  // ----- length and distance symbols (the tables of section 3.2.5)

  const LEN_EXTRA: seq<nat> := [0, 0, 0, 0, 0, 0, 0, 0, 1, 1, 1, 1, 2, 2, 2, 2, 3, 3, 3, 3, 4, 4, 4, 4, 5, 5, 5, 5, 0]
  const LEN_BASE: seq<nat> := [3, 4, 5, 6, 7, 8, 9, 10, 11, 13, 15, 17, 19, 23, 27, 31, 35, 43, 51, 59,
                               67, 83, 99, 115, 131, 163, 195, 227, 258]
  const DIST_EXTRA: seq<nat> := [0, 0, 0, 0, 1, 1, 2, 2, 3, 3, 4, 4, 5, 5, 6, 6, 7, 7, 8, 8, 9, 9, 10, 10, 11, 11,
                                 12, 12, 13, 13]
  const DIST_BASE: seq<nat> := [1, 2, 3, 4, 5, 7, 9, 13, 17, 25, 33, 49, 65, 97, 129, 193, 257, 385, 513, 769,
                                1025, 1537, 2049, 3073, 4097, 6145, 8193, 12289, 16385, 24577]

  /** The symbol of a length. */
  function LengthSymbol(length: nat): (s: nat)
    requires 3 <= length <= 258
    ensures 257 <= s <= 285
  {
    if length < 11 then 257 + length - 3
    else if length < 19 then 261 + (length - 3) / 2
    else if length < 35 then 265 + (length - 3) / 4
    else if length < 67 then 269 + (length - 3) / 8
    else if length < 131 then 273 + (length - 3) / 16
    else if length < 258 then 277 + (length - 3) / 32
    else 285
  }

  function LenExtra(s: nat): nat
    requires 257 <= s <= 285
  {
    LEN_EXTRA[s - 257]
  }

  function LenBase(s: nat): nat
    requires 257 <= s <= 285
  {
    LEN_BASE[s - 257]
  }

  function DistExtra(s: nat): nat
    requires s < 30
  {
    DIST_EXTRA[s]
  }

  function DistBase(s: nat): nat
    requires s < 30
  {
    DIST_BASE[s]
  }

  lemma SmallPowers()
    ensures Pow2(0) == 1 && Pow2(1) == 2 && Pow2(2) == 4 && Pow2(3) == 8 && Pow2(4) == 16 && Pow2(5) == 32
    ensures Pow2(6) == 64 && Pow2(7) == 128 && Pow2(8) == 256 && Pow2(9) == 512 && Pow2(10) == 1024
    ensures Pow2(11) == 2048 && Pow2(12) == 4096 && Pow2(13) == 8192
  {
    Pow2Eight();
    assert Pow2(8) == 256 && Pow2(9) == 512; assert Pow2(10) == 1024 && Pow2(11) == 2048;
    assert Pow2(12) == 4096 && Pow2(13) == 8192;
    assert Pow2(4) == 16; assert Pow2(5) == 32 && Pow2(6) == 64; assert Pow2(7) == 128;
  }

  /** The extra bits distinguish exactly the lengths that share a symbol. */
  lemma LengthSymbolRange(length: nat)
    requires 3 <= length <= 258
    ensures var s := LengthSymbol(length);
      LenBase(s) <= length < LenBase(s) + Pow2(LenExtra(s)) && LenExtra(s) <= 5
  {
    SmallPowers();
    hide Pow2;
    var s := LengthSymbol(length) - 257;
    assert s == 0 || s == 1 || s == 2 || s == 3 || s == 4 || s == 5 || s == 6 || s == 7 || s == 8 || s == 9 ||
      s == 10 || s == 11 || s == 12 || s == 13 || s == 14 || s == 15 || s == 16 || s == 17 || s == 18 || s == 19 ||
      s == 20 || s == 21 || s == 22 || s == 23 || s == 24 || s == 25 || s == 26 || s == 27 || s == 28;
  }

  /** How many lengths share the symbol k. */
  function LengthCount(k: nat): nat
    requires 257 <= k <= 285
  {
    if k == 284 then 31 else Pow2(LenExtra(k))
  }

  /** They are consecutive. */
  lemma LengthSymbolIs(length: nat, k: nat)
    requires 3 <= length <= 258 && 257 <= k <= 285
    ensures LengthSymbol(length) == k <==> LenBase(k) <= length < LenBase(k) + LengthCount(k)
    ensures LenBase(k) >= 3 && LenBase(k) + LengthCount(k) <= 259
  {
    SmallPowers();
    hide Pow2;
    LenTableFormula(k);
  }

  lemma LenTableFormula(k: nat)
    requires 257 <= k <= 285
    ensures k <= 264 ==> LenBase(k) == k - 254 && LenExtra(k) == 0
    ensures 265 <= k <= 268 ==> LenBase(k) == 11 + 2 * (k - 265) && LenExtra(k) == 1
    ensures 269 <= k <= 272 ==> LenBase(k) == 19 + 4 * (k - 269) && LenExtra(k) == 2
    ensures 273 <= k <= 276 ==> LenBase(k) == 35 + 8 * (k - 273) && LenExtra(k) == 3
    ensures 277 <= k <= 280 ==> LenBase(k) == 67 + 16 * (k - 277) && LenExtra(k) == 4
    ensures 281 <= k <= 284 ==> LenBase(k) == 131 + 32 * (k - 281) && LenExtra(k) == 5
    ensures k == 285 ==> LenBase(k) == 258 && LenExtra(k) == 0
  {
    var s := k - 257;
    assert s == 0 || s == 1 || s == 2 || s == 3 || s == 4 || s == 5 || s == 6 || s == 7 || s == 8 || s == 9 ||
      s == 10 || s == 11 || s == 12 || s == 13 || s == 14 || s == 15 || s == 16 || s == 17 || s == 18 || s == 19 ||
      s == 20 || s == 21 || s == 22 || s == 23 || s == 24 || s == 25 || s == 26 || s == 27 || s == 28;
  }

  lemma RangesFollow(k: nat)
    requires 257 <= k < 285
    ensures LenBase(k) + LengthCount(k) == LenBase(k + 1)
  {
    SmallPowers();
    hide Pow2;
    LenTableFormula(k);
    LenTableFormula(k + 1);
  }

  /** The number of significant bits. */
  function BitLength(a: nat): (n: nat)
  {
    if a == 0 then 0 else 1 + BitLength(a / 2)
  }

  lemma {:induction false} BitLengthBounds(a: nat)
    ensures a < Pow2(BitLength(a))
    ensures a > 0 ==> BitLength(a) > 0 && Pow2(BitLength(a) - 1) <= a
  {
    if a > 0 { BitLengthBounds(a / 2); }
  }

  lemma {:induction false} BitLengthAtMost(a: nat, n: nat)
    requires a < Pow2(n)
    ensures BitLength(a) <= n
    decreases n
  {
    if a > 0 { BitLengthAtMost(a / 2, n - 1); }
  }

  /** The leading bits of distance - 1 and their number, from which the symbol is made. */
  function DistParts(distance: nat): (p: (nat, nat))
    requires distance >= 3
  {
    BitLengthBounds(distance - 1);
    var n := BitLength(distance - 1);
    if n < 2 then (0, 0) else (n - 2, Shr(distance - 1, n - 2))
  }

  lemma DistPartsBounds(distance: nat)
    requires 3 <= distance <= 32768
    ensures var (e, q) := DistParts(distance);
      2 <= q <= 3 && e <= 13 && q * Pow2(e) <= distance - 1 < q * Pow2(e) + Pow2(e)
      && BitLength(distance - 1) == e + 2
  {
    hide BitLength, Pow2;
    var a, n := distance - 1, BitLength(distance - 1);
    BitLengthBounds(a);
    Pow2Fifteen();
    BitLengthAtMost(a, 15);
    AtLeastTwoBits(a, n);
    FourTimes(n - 2);
    TwoOrThree(a, Pow2(n - 2));
  }

  lemma AtLeastTwoBits(a: nat, n: nat)
    requires 2 <= a < Pow2(n)
    ensures n >= 2
  {
  }

  lemma FourTimes(e: nat)
    ensures Pow2(e + 2) == 4 * Pow2(e) && Pow2(e + 1) == 2 * Pow2(e)
  {
  }

  lemma TwoOrThree(a: nat, p: nat)
    requires p > 0 && 2 * p <= a < 4 * p
    ensures 2 <= Quotient(a, p) <= 3 && Quotient(a, p) * p <= a < Quotient(a, p) * p + p
  {
    if a < 3 * p {
      DivModUnique(a, 2, a - 2 * p, p);
    } else {
      DivModUnique(a, 3, a - 3 * p, p);
    }
  }

  lemma Pow2Fifteen()
    ensures Pow2(15) == 32768
  {
    SmallPowers();
    assert Pow2(14) == 16384;
  }

  /** The symbol of a distance. */
  function DistSymbol(distance: nat): (s: nat)
    requires 1 <= distance <= 32768
    ensures s < 30
  {
    if distance <= 2 then distance - 1
    else
      DistPartsBounds(distance);
      var (e, q) := DistParts(distance);
      q + 2 * e
  }

  lemma DistTableFormula(s: nat)
    requires 2 <= s < 30
    ensures DistExtra(s) == s / 2 - 1 && DistBase(s) == 1 + (2 + s % 2) * Pow2(s / 2 - 1)
  {
    SmallPowers();
    hide Pow2;
    assert s == 2 || s == 3 || s == 4 || s == 5 || s == 6 || s == 7 || s == 8 || s == 9 || s == 10 ||
      s == 11 || s == 12 || s == 13 || s == 14 || s == 15 || s == 16 || s == 17 || s == 18 || s == 19 || s == 20 ||
      s == 21 || s == 22 || s == 23 || s == 24 || s == 25 || s == 26 || s == 27 || s == 28 || s == 29;
  }

  lemma RangeFromParts(distance: nat, e: nat, q: nat)
    requires 2 <= q <= 3 && e <= 13 && q * Pow2(e) <= distance - 1 < q * Pow2(e) + Pow2(e)
    ensures var s := q + 2 * e;
      DistBase(s) <= distance < DistBase(s) + Pow2(DistExtra(s)) && DistExtra(s) == e
  {
    hide Pow2, DistBase, DistExtra;
    DistTableFormula(q + 2 * e);
    assert (q + 2 * e) / 2 - 1 == e;
    assert 2 + (q + 2 * e) % 2 == q;
  }

  /** The extra bits distinguish exactly the distances that share a symbol. */
  lemma DistSymbolRange(distance: nat)
    requires 1 <= distance <= 32768
    ensures var s := DistSymbol(distance);
      DistBase(s) <= distance < DistBase(s) + Pow2(DistExtra(s)) && DistExtra(s) <= 13
  {
    hide *;
    DistSymbolParts(distance);
    if distance <= 2 {
      FirstDistances(distance);
    } else {
      DistPartsBounds(distance);
      RangeFromParts(distance, DistParts(distance).0, DistParts(distance).1);
    }
  }

  lemma DistSymbolParts(distance: nat)
    requires 1 <= distance <= 32768
    ensures DistSymbol(distance) ==
      if distance <= 2 then distance - 1 else DistParts(distance).1 + 2 * DistParts(distance).0
  {
  }

  lemma FirstDistances(distance: nat)
    requires 1 <= distance <= 2
    ensures DistBase(distance - 1) == distance && DistExtra(distance - 1) == 0 && Pow2(0) == 1
  {
  }

  // ----- codes

  type Bits01 = seq<bool>

  /** No code is a prefix of another.  A symbol that is not used has no code, which is written []. */
  ghost predicate PrefixFree(codes: seq<Bits01>) {
    forall i, j :: 0 <= i < |codes| && 0 <= j < |codes| && i != j && codes[i] != [] && codes[j] != [] ==>
      !(codes[i] <= codes[j])
  }

  /** The codes of one block: 286 literal and length symbols, 30 distance symbols. */
  datatype Codes = Codes(lit: seq<Bits01>, dist: seq<Bits01>)

  ghost predicate ValidCodes(c: Codes) {
    |c.lit| == 286 && |c.dist| == 30 && PrefixFree(c.lit) && PrefixFree(c.dist)
  }

  /** The symbols of a token have codes. */
  predicate HasCode(c: Codes, t: Token) {
    && |c.lit| == 286 && |c.dist| == 30 && ValidToken(t)
    && match t
       case Literal(b) => c.lit[b] != []
       case EndOfBlock => c.lit[256] != []
       case Match(length, distance) => c.lit[LengthSymbol(length)] != [] && c.dist[DistSymbol(distance)] != []
  }

  ghost predicate AllCoded(c: Codes, ts: seq<Token>) {
    |c.lit| == 286 && |c.dist| == 30 && forall t :: t in ts ==> HasCode(c, t)
  }

  function LengthBits(c: Codes, length: nat): Bits01
    requires |c.lit| == 286 && 3 <= length <= 258
  {
    LengthSymbolRange(length);
    var s := LengthSymbol(length);
    c.lit[s] + NatBits(length - LenBase(s), LenExtra(s))
  }

  function DistanceBits(c: Codes, distance: nat): Bits01
    requires |c.dist| == 30 && 1 <= distance <= 32768
  {
    DistSymbolRange(distance);
    var s := DistSymbol(distance);
    c.dist[s] + NatBits(distance - DistBase(s), DistExtra(s))
  }

  function TokenBits(c: Codes, t: Token): Bits01
    requires |c.lit| == 286 && |c.dist| == 30 && ValidToken(t)
  {
    match t
    case Literal(b) => c.lit[b]
    case EndOfBlock => c.lit[256]
    case Match(length, distance) => LengthBits(c, length) + DistanceBits(c, distance)
  }

  function Encode(c: Codes, ts: seq<Token>): Bits01
    requires |c.lit| == 286 && |c.dist| == 30 && forall t :: t in ts ==> ValidToken(t)
  {
    if ts == [] then [] else TokenBits(c, ts[0]) + Encode(c, ts[1..])
  }

  lemma OneToken(c: Codes, t: Token)
    requires |c.lit| == 286 && |c.dist| == 30 && ValidToken(t)
    ensures Encode(c, [t]) == TokenBits(c, t)
  {
    assert Encode(c, [t]) == TokenBits(c, t) + Encode(c, [t][1..]);
  }

  // ----- the decoder

  /** The first symbol from i on whose code is a prefix of the bits. */
  function FindSymbol(codes: seq<Bits01>, bits: Bits01, i: nat): (r: Option<nat>)
    ensures r.Some? ==> i <= r.value < |codes| && codes[r.value] != [] && codes[r.value] <= bits
    decreases |codes| - i
  {
    if i >= |codes| then None
    else if codes[i] != [] && codes[i] <= bits then Some(i)
    else FindSymbol(codes, bits, i + 1)
  }

  /** Splits off a field of n bits. */
  function TakeField(bits: Bits01, n: nat): (r: Option<(nat, Bits01)>)
    ensures r.Some? ==> |r.value.1| <= |bits|
  {
    if n <= |bits| then Some((BitsValue(bits[..n]), bits[n..])) else None
  }

  function DecodeLength(sym: nat, bits: Bits01): (r: Option<(nat, Bits01)>)
    requires 257 <= sym <= 285
    ensures r.Some? ==> |r.value.1| <= |bits|
  {
    match TakeField(bits, LenExtra(sym))
    case None => None
    case Some((v, rest)) => Some((LenBase(sym) + v, rest))
  }

  function DecodeDistance(c: Codes, bits: Bits01): (r: Option<(nat, Bits01)>)
    requires |c.dist| == 30
    ensures r.Some? ==> |r.value.1| <= |bits|
  {
    match FindSymbol(c.dist, bits, 0)
    case None => None
    case Some(sym) =>
      match TakeField(bits[|c.dist[sym]|..], DistExtra(sym))
      case None => None
      case Some((v, rest)) => Some((DistBase(sym) + v, rest))
  }

  /** One token and the bits after it. */
  function DecodeToken(c: Codes, bits: Bits01): (r: Option<(Token, Bits01)>)
    requires |c.lit| == 286 && |c.dist| == 30
    ensures r.Some? ==> |r.value.1| < |bits|
  {
    match FindSymbol(c.lit, bits, 0)
    case None => None
    case Some(sym) =>
      var rest := bits[|c.lit[sym]|..];
      if sym < 256 then Some((Literal(sym), rest))
      else if sym == 256 then Some((EndOfBlock, rest))
      else
        match DecodeLength(sym, rest)
        case None => None
        case Some((length, rest1)) =>
          match DecodeDistance(c, rest1)
          case None => None
          case Some((distance, rest2)) => Some((Match(length, distance), rest2))
  }

  /** Copies length bytes from distance back, one at a time, so that the copy may overlap itself. */
  function CopyMatch(out: seq<Octet>, distance: nat, length: nat): (r: seq<Octet>)
    requires 1 <= distance <= |out|
    ensures |r| == |out| + length
    decreases length
  {
    if length == 0 then out else CopyMatch(out + [out[|out| - distance]], distance, length - 1)
  }

  /** What decoding a block yields: its output, and whether the end-of-block code was reached, in
      which case the bits after it are left over. */
  datatype Decoded =
    | Ended(out: seq<Octet>, rest: Bits01)
    | Unfinished(out: seq<Octet>)
    | Invalid

  /** Decodes from bits, after the output out; stops cleanly if the bits end between two tokens. */
  function Decode(c: Codes, bits: Bits01, out: seq<Octet>): Decoded
    requires |c.lit| == 286 && |c.dist| == 30
    decreases |bits|
  {
    if bits == [] then Unfinished(out)
    else
      match DecodeToken(c, bits)
      case None => Invalid
      case Some((EndOfBlock, rest)) => Ended(out, rest)
      case Some((Literal(b), rest)) => Decode(c, rest, out + [b])
      case Some((Match(length, distance), rest)) =>
        if 1 <= distance <= |out| then Decode(c, rest, CopyMatch(out, distance, length)) else Invalid
  }

  // ----- what tokens stand for

  /** The tokens can be expanded after out: every match stays within what precedes it. */
  predicate Expandable(ts: seq<Token>, out: seq<Octet>)
    decreases |ts|
  {
    ts == [] ||
    match ts[0]
    case EndOfBlock => false
    case Literal(b) => Expandable(ts[1..], out + [b])
    case Match(length, distance) =>
      ValidToken(ts[0]) && distance <= |out| && Expandable(ts[1..], CopyMatch(out, distance, length))
  }

  /** out followed by what the tokens stand for. */
  function Expand(ts: seq<Token>, out: seq<Octet>): seq<Octet>
    requires Expandable(ts, out)
    decreases |ts|
  {
    if ts == [] then out else
    match ts[0]
    case Literal(b) => Expand(ts[1..], out + [b])
    case Match(length, distance) => Expand(ts[1..], CopyMatch(out, distance, length))
  }

  // ----- decoding undoes encoding

  lemma {:induction false} FindSymbolFrom(codes: seq<Bits01>, s: nat, rest: Bits01, i: nat)
    requires PrefixFree(codes) && i <= s < |codes| && codes[s] != []
    ensures FindSymbol(codes, codes[s] + rest, i) == Some(s)
    decreases s - i
  {
    var bits := codes[s] + rest;
    assert codes[s] <= bits;
    if i < s {
      if codes[i] != [] && codes[i] <= bits { PrefixesOrdered(codes[i], codes[s], rest); }
      FindSymbolFrom(codes, s, rest, i + 1);
    }
  }

  /** Two prefixes of the same bits are prefixes of one another. */
  lemma PrefixesOrdered(a: Bits01, b: Bits01, rest: Bits01)
    requires a <= b + rest
    ensures a <= b || b <= a
  {
    if |a| <= |b| {
      assert forall i :: 0 <= i < |a| ==> a[i] == (b + rest)[i] == b[i];
    } else {
      assert forall i :: 0 <= i < |b| ==> a[i] == (b + rest)[i] == b[i];
    }
  }

  lemma TakeFieldBack(v: nat, n: nat, rest: Bits01)
    requires v < Pow2(n)
    ensures TakeField(NatBits(v, n) + rest, n) == Some((v, rest))
  {
    var bits := NatBits(v, n) + rest;
    assert bits[..n] == NatBits(v, n) && bits[n..] == rest;
    BitsValueInverts(v, n);
  }

  /** A token decodes to itself, whatever follows. */
  lemma DecodeTokenBack(c: Codes, t: Token, rest: Bits01)
    requires ValidCodes(c) && HasCode(c, t)
    ensures DecodeToken(c, TokenBits(c, t) + rest) == Some((t, rest))
  {
    hide NatBits, Pow2, PrefixFree, LenBase, LenExtra, DistBase, DistExtra, LengthSymbol, DistSymbol, FindSymbol;
    hide TakeField;
    match t {
      case Literal(b) =>
        FindSymbolFrom(c.lit, b, rest, 0);
        assert (c.lit[b] + rest)[|c.lit[b]|..] == rest;
      case EndOfBlock =>
        FindSymbolFrom(c.lit, 256, rest, 0);
        assert (c.lit[256] + rest)[|c.lit[256]|..] == rest;
      case Match(length, distance) =>
        var s, d := LengthSymbol(length), DistSymbol(distance);
        LengthSymbolRange(length);
        DistSymbolRange(distance);
        var extra, code := NatBits(length - LenBase(s), LenExtra(s)), c.dist[d];
        var extra' := NatBits(distance - DistBase(d), DistExtra(d));
        var after := code + (extra' + rest);
        assert TokenBits(c, t) + rest == c.lit[s] + (extra + after);
        FindSymbolFrom(c.lit, s, extra + after, 0);
        assert (c.lit[s] + (extra + after))[|c.lit[s]|..] == extra + after;
        TakeFieldBack(length - LenBase(s), LenExtra(s), after);
        FindSymbolFrom(c.dist, d, extra' + rest, 0);
        assert after[|code|..] == extra' + rest;
        TakeFieldBack(distance - DistBase(d), DistExtra(d), rest);
    }
  }

  lemma AllValid(c: Codes, ts: seq<Token>)
    requires AllCoded(c, ts)
    ensures |c.lit| == 286 && |c.dist| == 30 && forall t :: t in ts ==> ValidToken(t)
  {
    hide ValidToken;
  }

  lemma FirstCoded(c: Codes, ts: seq<Token>)
    requires AllCoded(c, ts) && ts != []
    ensures HasCode(c, ts[0]) && ValidToken(ts[0]) && AllCoded(c, ts[1..])
  {
    hide ValidToken;
    assert ts[0] in ts;
  }

  /** Tokens decode to what they stand for, and decoding goes on after them. */
  lemma {:induction false} DecodeTokens(c: Codes, ts: seq<Token>, rest: Bits01, out: seq<Octet>)
    requires ValidCodes(c) && AllCoded(c, ts) && Expandable(ts, out)
    ensures Decode(c, Encode(c, ts) + rest, out) == Decode(c, rest, Expand(ts, out))
    decreases |ts|
  {
    hide DecodeToken, TokenBits, ValidCodes, ValidToken, CopyMatch, HasCode, AllCoded;
    CodesSized(c);
    AllValid(c, ts);
    if ts == [] {
      assert Encode(c, ts) + rest == rest;
    } else {
      FirstCoded(c, ts);
      AllValid(c, ts[1..]);
      var tail := Encode(c, ts[1..]) + rest;
      assert Encode(c, ts) + rest == TokenBits(c, ts[0]) + tail;
      DecodeTokenBack(c, ts[0], tail);
      match ts[0] {
        case Literal(b) => DecodeTokens(c, ts[1..], rest, out + [b]);
        case Match(length, distance) =>
          assert ValidToken(ts[0]);
          MatchValid(ts[0]);
          DecodeTokens(c, ts[1..], rest, CopyMatch(out, distance, length));
        case EndOfBlock =>
      }
    }
  }

  lemma CodesSized(c: Codes)
    requires ValidCodes(c)
    ensures |c.lit| == 286 && |c.dist| == 30
  {
  }

  lemma MatchValid(t: Token)
    requires ValidToken(t) && t.Match?
    ensures 3 <= t.length <= 258 && 1 <= t.distance <= 32768
  {
  }

  lemma EndBits(c: Codes)
    requires |c.lit| == 286 && |c.dist| == 30 && c.lit[256] != []
    ensures HasCode(c, EndOfBlock) && TokenBits(c, EndOfBlock) != []
  {
  }

  /** A complete block decodes to its output and leaves what follows it. */
  lemma DecodeBlock(c: Codes, ts: seq<Token>, rest: Bits01, out: seq<Octet>)
    requires ValidCodes(c) && AllCoded(c, ts) && c.lit[256] != [] && Expandable(ts, out)
    ensures forall t :: t in ts ==> ValidToken(t)
    ensures Decode(c, Encode(c, ts) + TokenBits(c, EndOfBlock) + rest, out) == Ended(Expand(ts, out), rest)
  {
    hide AllCoded, PrefixFree, TokenBits, DecodeToken;
    AllValid(c, ts);
    EndBits(c);
    var eob := TokenBits(c, EndOfBlock) + rest;
    assert Encode(c, ts) + TokenBits(c, EndOfBlock) + rest == Encode(c, ts) + eob;
    DecodeTokens(c, ts, eob, out);
    DecodeTokenBack(c, EndOfBlock, rest);
    assert eob != [];
  }

  // ----- appending tokens

  lemma {:induction false} EncodeAppend(c: Codes, ts: seq<Token>, us: seq<Token>)
    requires |c.lit| == 286 && |c.dist| == 30 && forall t :: t in ts + us ==> ValidToken(t)
    ensures Encode(c, ts + us) == Encode(c, ts) + Encode(c, us)
    decreases |ts|
  {
    hide TokenBits;
    if ts == [] {
      assert ts + us == us;
    } else {
      assert (ts + us)[1..] == ts[1..] + us;
      EncodeAppend(c, ts[1..], us);
    }
  }

  lemma {:induction false} ExpandAppend(ts: seq<Token>, us: seq<Token>, out: seq<Octet>)
    requires Expandable(ts, out) && Expandable(us, Expand(ts, out))
    ensures Expandable(ts + us, out) && Expand(ts + us, out) == Expand(us, Expand(ts, out))
    decreases |ts|
  {
    hide CopyMatch;
    if ts == [] {
      assert ts + us == us;
    } else {
      assert (ts + us)[1..] == ts[1..] + us;
      match ts[0] {
        case Literal(b) => ExpandAppend(ts[1..], us, out + [b]);
        case Match(length, distance) => ExpandAppend(ts[1..], us, CopyMatch(out, distance, length));
        case EndOfBlock =>
      }
    }
  }

  /** The data from pos on repeats what is distance before it. */
  ghost predicate Repeats(data: seq<Octet>, pos: nat, distance: nat, length: nat) {
    && distance <= pos && pos + length <= |data|
    && forall i :: pos <= i < pos + length ==> data[i] == data[i - distance]
  }

  /** If the data repeats itself at a distance, copying reproduces it, overlapping or not. */
  lemma {:induction false} CopyReproduces(data: seq<Octet>, pos: nat, distance: nat, length: nat)
    requires 1 <= distance && Repeats(data, pos, distance, length)
    ensures CopyMatch(data[..pos], distance, length) == data[..pos + length]
    decreases length
  {
    if length > 0 {
      var out := data[..pos];
      assert data[pos] == data[pos - distance];
      assert out + [out[|out| - distance]] == data[..pos + 1];
      CopyReproduces(data, pos + 1, distance, length - 1);
    }
  }
}
