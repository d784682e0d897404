/** isal_update_histogram_dict: counts the symbols that encoding a stream after a dictionary would use. */
module Histogram {
  import opened Arithmetic
  import opened Bits
  import opened BitStream
  import opened DeflateFormat
  import opened Matcher
  import opened Phases
  import opened Tokenizer

  // ----- tallies

  datatype Tally = Tally(lit: seq<nat>, dist: seq<nat>)

  predicate ValidTally(h: Tally) {
    |h.lit| == 286 && |h.dist| == 30
  }

  function LitSymbol(t: Token): (s: nat)
    requires ValidToken(t)
    ensures s < 286
  {
    match t
    case Literal(b) => b
    case EndOfBlock => 256
    case Match(length, _) => LengthSymbol(length)
  }

  /** Counts one token: its literal or length symbol, and the distance symbol of a match. */
  function Count(h: Tally, t: Token): (h': Tally)
    requires ValidTally(h) && ValidToken(t)
    ensures ValidTally(h')
  {
    var s := LitSymbol(t);
    var lit := h.lit[s := h.lit[s] + 1];
    if t.Match? then
      var d := DistSymbol(t.distance);
      Tally(lit, h.dist[d := h.dist[d] + 1])
    else Tally(lit, h.dist)
  }

  function CountAll(h: Tally, ts: seq<Token>): (h': Tally)
    requires ValidTally(h) && forall t :: t in ts ==> ValidToken(t)
    ensures ValidTally(h')
    decreases |ts|
  {
    if ts == [] then h else CountAll(Count(h, ts[0]), ts[1..])
  }

  // ----- what a tally tells

  /** The sum of n counts, each times its weight. */
  function Cost(weights: seq<nat>, counts: seq<nat>, n: nat): nat
    requires n <= |weights| && n <= |counts|
    decreases n
  {
    if n == 0 then 0 else Cost(weights, counts, n - 1) + weights[n - 1] * counts[n - 1]
  }

  lemma {:induction false} CostOfOneMore(weights: seq<nat>, counts: seq<nat>, n: nat, s: nat)
    requires n <= |weights| && n <= |counts| && s < |counts|
    ensures Cost(weights, counts[s := counts[s] + 1], n) == Cost(weights, counts, n) + if s < n then weights[s] else 0
    decreases n
  {
    if n > 0 {
      CostOfOneMore(weights, counts, n - 1, s);
      if s == n - 1 { Distribute(counts[s], 1, weights[s]); }
    }
  }

  /** The bits that a literal or length symbol takes, with its extra bits. */
  function LitWeights(c: Codes): (w: seq<nat>)
    requires |c.lit| == 286
    ensures |w| == 286
  {
    seq(286, s requires 0 <= s < 286 => |c.lit[s]| + if s > 256 then LenExtra(s) else 0)
  }

  function DistWeights(c: Codes): (w: seq<nat>)
    requires |c.dist| == 30
    ensures |w| == 30
  {
    seq(30, d requires 0 <= d < 30 => |c.dist[d]| + DistExtra(d))
  }

  function TallyCost(c: Codes, h: Tally): nat
    requires |c.lit| == 286 && |c.dist| == 30 && ValidTally(h)
  {
    Cost(LitWeights(c), h.lit, 286) + Cost(DistWeights(c), h.dist, 30)
  }

  lemma CountCost(c: Codes, h: Tally, t: Token)
    requires |c.lit| == 286 && |c.dist| == 30 && ValidTally(h) && ValidToken(t)
    ensures TallyCost(c, Count(h, t)) == TallyCost(c, h) + |TokenBits(c, t)|
  {
    hide LengthSymbol, DistSymbol, LenExtra, DistExtra, LenBase, DistBase, Cost, NatBits;
    CostOfOneMore(LitWeights(c), h.lit, 286, LitSymbol(t));
    if t.Match? {
      CostOfOneMore(DistWeights(c), h.dist, 30, DistSymbol(t.distance));
      LengthSymbolRange(t.length);
      DistSymbolRange(t.distance);
    }
  }

  /** Whatever codes are chosen afterwards, the tally tells exactly how many bits the tokens will take. */
  lemma {:induction false} CountAllCost(c: Codes, h: Tally, ts: seq<Token>)
    requires |c.lit| == 286 && |c.dist| == 30 && ValidTally(h) && forall t :: t in ts ==> ValidToken(t)
    ensures TallyCost(c, CountAll(h, ts)) == TallyCost(c, h) + |Encode(c, ts)|
    decreases |ts|
  {
    hide TallyCost, Count, TokenBits, ValidToken;
    if ts != [] {
      CountCost(c, h, ts[0]);
      CountAllCost(c, Count(h, ts[0]), ts[1..]);
    }
  }

  // ----- the tokens

  /** The hash table after the dictionary. */
  function DictHead(cfg: Config, stream: seq<Octet>, dictLength: nat): (head: seq<nat>)
    requires dictLength <= |stream|
    ensures |head| == cfg.hashMask + 1
  {
    RememberUpTo(cfg, stream, seq(cfg.hashMask + 1, _ => 0), 0, dictLength - 4)
  }

  /** The loops over the data: finishing, with all positions of a match entered into the table. */
  const COUNTING: Phase := InFinish(0)

  ghost predicate ForHistogram(cfg: Config) {
    cfg.distMask == 32767 && cfg.origin == 0
  }

  lemma DictHeadOk(cfg: Config, stream: seq<Octet>, dictLength: nat)
    requires ForHistogram(cfg) && dictLength <= |stream|
    ensures CursorOk(cfg, stream, Cursor(dictLength, DictHead(cfg, stream, dictLength)))
  {
    hide RememberUpTo;
    ZeroesOk(cfg, dictLength);
    RememberUpToKeeps(cfg, stream, seq(cfg.hashMask + 1, _ => 0), 0, dictLength - 4, dictLength, cfg.distMask);
  }

  /** It holds the last position for each hash, of all but the last four bytes, and 0 elsewhere. */
  lemma DictHeadEnters(cfg: Config, stream: seq<Octet>, dictLength: nat)
    requires cfg.origin == 0 && dictLength <= |stream|
    ensures Entered(cfg, stream, seq(cfg.hashMask + 1, _ => 0), DictHead(cfg, stream, dictLength), 0, dictLength - 4, 0)
  {
    hide Entered, RememberUpTo;
    RememberUpToEnters(cfg, stream, seq(cfg.hashMask + 1, _ => 0), 0, dictLength - 4);
  }

  lemma ZeroesOk(cfg: Config, pos: nat)
    requires ForHistogram(cfg)
    ensures HashOk(cfg, seq(cfg.hashMask + 1, _ => 0), pos)
  {
    assert Behind(cfg, pos, 0) <= pos;
  }

  /** The tokens that are counted. */
  ghost function StreamTokens(cfg: Config, stream: seq<Octet>, dictLength: nat): (ts: seq<Token>)
    requires ForHistogram(cfg) && dictLength <= |stream|
    ensures forall t :: t in ts ==> ValidToken(t)
  {
    DictHeadOk(cfg, stream, dictLength);
    FinishedExpand(cfg, stream, Cursor(dictLength, DictHead(cfg, stream, dictLength)), 0);
    TokensOf(COUNTING, cfg, stream, Cursor(dictLength, DictHead(cfg, stream, dictLength)))
  }

  /** What is counted is an encoding of the stream, given the dictionary. */
  lemma StreamTokensExpand(cfg: Config, stream: seq<Octet>, dictLength: nat)
    requires ForHistogram(cfg) && dictLength <= |stream|
    ensures var ts := StreamTokens(cfg, stream, dictLength);
      && (forall t :: t in ts ==> ValidToken(t))
      && Expandable(ts, stream[..dictLength]) && Expand(ts, stream[..dictLength]) == stream
  {
    DictHeadOk(cfg, stream, dictLength);
    FinishedExpand(cfg, stream, Cursor(dictLength, DictHead(cfg, stream, dictLength)), 0);
  }

  // ----- symbols

  /** convert_dist_to_dist_sym */
  function ConvertDistToDistSym(dist: nat): nat
    requires 1 <= dist <= 32768
  {
    var msb: int := if dist > 4 then BitLength(dist - 1) - 2 else 0;
    if msb < 0 then 0 else msb * 2 + Shr(dist - 1, msb)
  }

  lemma ConvertDistIs(dist: nat)
    requires 1 <= dist <= 32768
    ensures ConvertDistToDistSym(dist) == DistSymbol(dist)
  {
    hide BitLength, Shr, Pow2;
    DistSymbolParts(dist);
    if dist > 4 {
      DistPartsBounds(dist);
    } else {
      SmallDistances(dist);
    }
  }

  lemma SmallDistances(dist: nat)
    requires 1 <= dist <= 4
    ensures Shr(dist - 1, 0) == dist - 1 && DistSymbol(dist) == dist - 1
  {
    assert BitLength(2) == 2 && BitLength(3) == 2;
  }

  // ----- the loops

  /** struct isal_huff_histogram */
  class HuffHistogram {
    const litLenHistogram: array<nat>
    const distHistogram: array<nat>
    const hashTable: array<nat>

    constructor (hashMask: nat)
      ensures fresh(litLenHistogram) && fresh(distHistogram) && fresh(hashTable)
      ensures Valid() && hashTable.Length == hashMask + 1
      ensures Counts() == Tally(seq(286, _ => 0), seq(30, _ => 0))
    {
      litLenHistogram := new nat[286](_ => 0);
      distHistogram := new nat[30](_ => 0);
      hashTable := new nat[hashMask + 1](_ => 0);
    }

    ghost predicate Valid()
      reads this
    {
      && litLenHistogram.Length == 286 && distHistogram.Length == 30
      && litLenHistogram != distHistogram && distHistogram != hashTable && hashTable != litLenHistogram
    }

    ghost function Counts(): (h: Tally)
      requires Valid()
      reads this, litLenHistogram, distHistogram
      ensures ValidTally(h)
    {
      Tally(litLenHistogram[..], distHistogram[..])
    }

    method CountMatch(length: nat, dist: nat)
      requires Valid() && ValidToken(Match(length, dist))
      modifies litLenHistogram, distHistogram
      ensures Counts() == Count(old(Counts()), Match(length, dist))
    {
      hide LengthSymbol, DistSymbol, ConvertDistToDistSym;
      ConvertDistIs(dist);
      var d, s := ConvertDistToDistSym(dist), LengthSymbol(length);
      distHistogram[d] := distHistogram[d] + 1;
      litLenHistogram[s] := litLenHistogram[s] + 1;
    }

    method CountLiteral(x: nat)
      requires Valid() && x <= 256
      modifies litLenHistogram
      ensures Counts() == Count(old(Counts()), if x < 256 then Literal(x) else EndOfBlock)
    {
      litLenHistogram[x] := litLenHistogram[x] + 1;
    }

    /** Enters the positions from p up to limit. */
    method Remember(cfg: Config, stream: seq<Octet>, p: nat, limit: int)
      requires hashTable.Length > cfg.hashMask && limit + 3 <= |stream| && ForHistogram(cfg)
      modifies hashTable
      ensures hashTable[..] == RememberUpTo(cfg, stream, old(hashTable[..]), p, limit)
      ensures Entered(cfg, stream, old(hashTable[..]), hashTable[..], p, limit, 0)
    {
      hide HashAt, Entered;
      RememberUpToEnters(cfg, stream, hashTable[..], p, limit);
      ghost var all := RememberUpTo(cfg, stream, hashTable[..], p, limit);
      var nextHash := p;
      while nextHash < limit
        invariant RememberUpTo(cfg, stream, hashTable[..], nextHash, limit) == all
        decreases limit - nextHash
      {
        var hash := HashAt(cfg, stream, nextHash);
        ghost var before := hashTable[..];
        hashTable[hash] := nextHash % 65536;
        assert hashTable[..] == before[hash := Low16(cfg, nextHash)];
        nextHash := nextHash + 1;
      }
    }

    /** Asks the hash table for a distance, and enters the position. */
    method LookUp(cfg: Config, stream: seq<Octet>, current: nat) returns (dist: nat)
      requires ForHistogram(cfg) && hashTable.Length > cfg.hashMask && current + 4 <= |stream|
      modifies hashTable
      ensures dist == Proposed(cfg, stream, old(hashTable[..]), current)
      ensures hashTable[..] == Tokenizer.Remember(cfg, stream, old(hashTable[..]), current)
    {
      hide HashAt;
      var hash := HashAt(cfg, stream, current);
      var seen := hashTable[hash];
      hashTable[hash] := current % 65536;
      dist := (current - seen) % 65536;
    }

    /** Finds the token at current and brings the hash table up to date. */
    method FindToken(cfg: Config, stream: seq<Octet>, current: nat) returns (length: nat, dist: nat)
      requires ForHistogram(cfg) && HashOk(cfg, hashTable[..], current) && current + 4 <= |stream|
      modifies hashTable
      ensures length == 0 || (SHORTEST_MATCH <= length <= 258 && 1 <= dist <= 32768)
      ensures HashOk(cfg, old(hashTable[..]), current)
      ensures NextStep(cfg, stream, old(hashTable[..]), current, AtMost258(|stream| - current), 0)
        == if length > 0 then Step(Match(length, dist), current + length, hashTable[..])
           else Step(Literal(stream[current]), current + 1, hashTable[..])
      ensures TokenByRule(cfg, stream, current, (current - old(hashTable[..])[HashAt(cfg, stream, current)]) % 65536,
                          AtMost258(|stream| - current),
                          if length > 0 then Match(length, dist) else Literal(stream[current]))
    {
      hide HashWithin, HashAt, RememberUpTo, MatchLength, Tokenizer.Remember, Proposed, TokenByRule;
      HashOkSize(cfg, hashTable[..], current);
      NextStepTakes(cfg, stream, hashTable[..], current, AtMost258(|stream| - current), 0);
      ghost var before := hashTable[..];
      dist := LookUp(cfg, stream, current);
      length := 0;
      if 1 <= dist <= 32767 {
        ProposedWithinInput(cfg, stream, before, current);
        var matchLength := Compare258(stream, current - dist, current, |stream| - current);
        MatchLengthUnique(stream, current - dist, current, AtMost258(|stream| - current), matchLength);
        if matchLength >= SHORTEST_MATCH {
          length := matchLength;
          var end := current + (if cfg.limitHash then 3 else matchLength);
          if end > |stream| - 3 {
            end := |stream| - 3;
          }
          Remember(cfg, stream, current + 1, end);
        }
      }
    }

    /** The tokens from current on, counted into what is counted already. */
    ghost function Remaining(cfg: Config, stream: seq<Octet>, current: nat): Tally
      requires Valid() && CursorOk(cfg, stream, Cursor(current, hashTable[..]))
      reads this, litLenHistogram, distHistogram, hashTable
    {
      FinishedExpand(cfg, stream, Cursor(current, hashTable[..]), 0);
      CountAll(Counts(), TokensOf(COUNTING, cfg, stream, Cursor(current, hashTable[..])))
    }

    /** One turn of the loop over the data. */
    method CountOne(cfg: Config, stream: seq<Octet>, current: nat) returns (next: nat)
      requires Valid() && ForHistogram(cfg) && CursorOk(cfg, stream, Cursor(current, hashTable[..]))
      requires FinishMatches(current, |stream|)
      modifies litLenHistogram, distHistogram, hashTable
      ensures current < next <= |stream| && CursorOk(cfg, stream, Cursor(next, hashTable[..]))
      ensures Remaining(cfg, stream, next) == old(Remaining(cfg, stream, current))
    {
      hide HashWithin, NextStep, Count, ValidToken, Expandable;
      ghost var c := Cursor(current, hashTable[..]);
      TurnMovesOn(COUNTING, cfg, stream, c);
      FinishedExpand(cfg, stream, c, 0);
      var length, dist := FindToken(cfg, stream, current);
      if length > 0 {
        ShortMatchValid(length, dist);
        CountMatch(length, dist);
        next := current + length;
      } else {
        CountLiteral(stream[current]);
        next := current + 1;
      }
      FinishedExpand(cfg, stream, Cursor(next, hashTable[..]), 0);
    }

    /** isal_update_histogram_dict */
    method UpdateHistogramDict(cfg: Config, stream: seq<Octet>, dictLength: nat, length: int)
      requires Valid() && ForHistogram(cfg) && hashTable.Length == cfg.hashMask + 1
      requires length > 0 ==> |stream| == dictLength + length
      modifies litLenHistogram, distHistogram, hashTable
      ensures length <= 0 ==> Counts() == old(Counts())
      ensures length > 0 ==>
        Counts() == Count(CountAll(old(Counts()), StreamTokens(cfg, stream, dictLength)), EndOfBlock)
    {
      hide HashWithin, TokensOf, Count, CountAll, RememberUpTo;
      if length <= 0 { return; }
      forall i | 0 <= i < hashTable.Length {
        hashTable[i] := 0;
      }
      assert hashTable[..] == seq(cfg.hashMask + 1, _ => 0);
      Remember(cfg, stream, 0, dictLength - 4);
      DictHeadOk(cfg, stream, dictLength);
      ghost var all := Remaining(cfg, stream, dictLength);
      assert all == CountAll(old(Counts()), StreamTokens(cfg, stream, dictLength));
      var current := dictLength;
      while FinishMatches(current, |stream|)
        invariant dictLength <= current <= |stream| && CursorOk(cfg, stream, Cursor(current, hashTable[..]))
        invariant Remaining(cfg, stream, current) == all
        decreases |stream| - current
      {
        current := CountOne(cfg, stream, current);
      }
      while current < |stream|
        invariant dictLength <= current <= |stream| && CursorOk(cfg, stream, Cursor(current, hashTable[..]))
        invariant !FinishMatches(current, |stream|)
        invariant Remaining(cfg, stream, current) == all
      {
        RemainingLiteral(cfg, stream, current);
        CountLiteral(stream[current]);
        current := current + 1;
      }
      RemainingNone(cfg, stream, current);
      CountLiteral(256);
    }

    lemma RemainingLiteral(cfg: Config, stream: seq<Octet>, current: nat)
      requires Valid() && CursorOk(cfg, stream, Cursor(current, hashTable[..]))
      requires current < |stream| && !FinishMatches(current, |stream|)
      ensures CursorOk(cfg, stream, Cursor(current + 1, hashTable[..]))
      ensures forall t :: t in TokensOf(COUNTING, cfg, stream, Cursor(current + 1, hashTable[..])) ==> ValidToken(t)
      ensures Remaining(cfg, stream, current) == CountAll(Count(Counts(), Literal(stream[current])),
        TokensOf(COUNTING, cfg, stream, Cursor(current + 1, hashTable[..])))
    {
      hide HashWithin, Count, ValidToken, Expandable;
      TurnMovesOn(COUNTING, cfg, stream, Cursor(current, hashTable[..]));
      FinishedExpand(cfg, stream, Cursor(current, hashTable[..]), 0);
      FinishedExpand(cfg, stream, Cursor(current + 1, hashTable[..]), 0);
    }

    lemma RemainingNone(cfg: Config, stream: seq<Octet>, current: nat)
      requires Valid() && CursorOk(cfg, stream, Cursor(current, hashTable[..])) && current == |stream|
      ensures Remaining(cfg, stream, current) == Counts()
    {
    }
  }

  lemma ShortMatchValid(length: nat, dist: nat)
    requires SHORTEST_MATCH <= length <= 258 && 1 <= dist <= 32768
    ensures ValidToken(Match(length, dist))
  {
  }

  /** A histogram that starts empty tells the size of the whole block, end included. */
  lemma HistogramTellsSize(c: Codes, cfg: Config, stream: seq<Octet>, dictLength: nat)
    requires |c.lit| == 286 && |c.dist| == 30 && ForHistogram(cfg) && dictLength <= |stream|
    ensures var none := Tally(seq(286, _ => 0), seq(30, _ => 0));
      var ts := StreamTokens(cfg, stream, dictLength);
      TallyCost(c, Count(CountAll(none, ts), EndOfBlock)) == |Encode(c, ts)| + |TokenBits(c, EndOfBlock)|
  {
    hide TallyCost, Count, CountAll, StreamTokens, Encode;
    var none := Tally(seq(286, _ => 0), seq(30, _ => 0));
    var ts := StreamTokens(cfg, stream, dictLength);
    CountAllCost(c, none, ts);
    CountCost(c, CountAll(none, ts), EndOfBlock);
    NoCost(c);
  }

  lemma NoCost(c: Codes)
    requires |c.lit| == 286 && |c.dist| == 30
    ensures TallyCost(c, Tally(seq(286, _ => 0), seq(30, _ => 0))) == 0
  {
    CostOfZeros(LitWeights(c), 286);
    CostOfZeros(DistWeights(c), 30);
  }

  lemma {:induction false} CostOfZeros(weights: seq<nat>, n: nat)
    requires n <= |weights|
    ensures Cost(weights, seq(|weights|, _ => 0), n) == 0
    decreases n
  {
    if n > 0 { CostOfZeros(weights, n - 1); }
  }
}
