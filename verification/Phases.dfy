/** The two loops of the level-0 encoder as functions of where they start: the body, which stops when
    less than a full look-ahead is left, and finishing, which goes on to the end of the input. */
module Phases {
  import opened Bits
  import opened BitStream
  import opened DeflateFormat
  import opened Matcher
  import opened Tokenizer

  /** Where the encoder stands: a position and the hash table there. */
  datatype Cursor = Cursor(pos: nat, head: seq<nat>)

  ghost predicate CursorOk(cfg: Config, input: seq<Octet>, c: Cursor) {
    ValidConfig(cfg) && HashOk(cfg, c.head, c.pos) && c.pos <= |input|
  }

  /** Which loop; slack is how many positions at the end of a match finishing leaves out of the table. */
  datatype Phase = InBody | InFinish(slack: nat)

  /** The finishing of isal_deflate_finish_base. */
  const FINISHING: Phase := InFinish(3)

  predicate BodyGoesOn(pos: nat, end: nat) {
    pos + LOOK_AHEAD < end
  }

  /** Finishing looks for matches while four bytes are left. */
  predicate FinishMatches(pos: nat, end: nat) {
    pos + 3 < end
  }

  function AtMost258(n: nat): nat {
    if n > 258 then 258 else n
  }

  predicate GoesOn(phase: Phase, pos: nat, end: nat) {
    if phase.InBody? then BodyGoesOn(pos, end) else pos < end
  }

  /** One turn of a loop. */
  function TurnOf(phase: Phase, cfg: Config, input: seq<Octet>, c: Cursor): Step
    requires CursorOk(cfg, input, c) && GoesOn(phase, c.pos, |input|)
  {
    if phase.InBody? then
      NextStep(cfg, input, c.head, c.pos, 258, 0)
    else if FinishMatches(c.pos, |input|) then
      NextStep(cfg, input, c.head, c.pos, AtMost258(|input| - c.pos), phase.slack)
    else
      Step(Literal(input[c.pos]), c.pos + 1, c.head)
  }

  lemma TurnKeeps(phase: Phase, cfg: Config, input: seq<Octet>, c: Cursor, window: nat)
    requires CursorOk(cfg, input, c) && GoesOn(phase, c.pos, |input|) && HashWithin(cfg, c.head, c.pos, window)
    ensures var s := TurnOf(phase, cfg, input, c); HashWithin(cfg, s.head, s.pos, window)
  {
    hide HashWithin, NextStep;
    if phase.InBody? {
      NextStepKeeps(cfg, input, c.head, c.pos, 258, 0, window);
    } else if FinishMatches(c.pos, |input|) {
      NextStepKeeps(cfg, input, c.head, c.pos, AtMost258(|input| - c.pos), phase.slack, window);
    } else {
      HashLater(cfg, c.head, c.pos, c.pos + 1, window);
    }
  }

  lemma TurnMovesOn(phase: Phase, cfg: Config, input: seq<Octet>, c: Cursor)
    requires CursorOk(cfg, input, c) && GoesOn(phase, c.pos, |input|)
    ensures var s := TurnOf(phase, cfg, input, c);
      c.pos < s.pos <= |input| && CursorOk(cfg, input, Cursor(s.pos, s.head))
  {
    hide HashWithin, NextStep;
    TurnKeeps(phase, cfg, input, c, cfg.distMask);
  }

  /** The token of a turn stands for the input that is stepped over. */
  lemma TurnSound(phase: Phase, cfg: Config, input: seq<Octet>, c: Cursor)
    requires CursorOk(cfg, input, c) && GoesOn(phase, c.pos, |input|)
    ensures var s := TurnOf(phase, cfg, input, c);
      && s.pos <= |input| && ValidToken(s.token) && !s.token.EndOfBlock?
      && Expandable([s.token], input[..c.pos]) && Expand([s.token], input[..c.pos]) == input[..s.pos]
  {
    hide HashOk, NextStep, CopyMatch;
    if phase.InBody? {
      NextStepSound(cfg, input, c.head, c.pos, 258, 0);
    } else if FinishMatches(c.pos, |input|) {
      NextStepSound(cfg, input, c.head, c.pos, AtMost258(|input| - c.pos), phase.slack);
    } else {
      assert input[..c.pos] + [input[c.pos]] == input[..c.pos + 1];
    }
  }

  /** When a turn takes a match, and how long it may be: in the body, where more than 288 bytes are left,
      up to 258 bytes, and in finishing up to the end of the input, if four bytes are left. */
  lemma TurnTakes(phase: Phase, cfg: Config, input: seq<Octet>, c: Cursor)
    requires CursorOk(cfg, input, c) && GoesOn(phase, c.pos, |input|)
    ensures phase.InBody? ==> c.pos + 288 < |input|
    ensures var s, left := TurnOf(phase, cfg, input, c), |input| - c.pos;
      && (left >= 4 ==> |c.head| > cfg.hashMask && TokenByRule(cfg, input, c.pos,
        (c.pos - cfg.origin - c.head[HashAt(cfg, input, c.pos)]) % 65536, if left > 258 then 258 else left, s.token))
      && (left < 4 ==> s.token == Literal(input[c.pos]))
      && s.pos == c.pos + (if s.token.Match? then s.token.length else 1)
  {
    hide HashAt, NextStep, HashWithin, TokenByRule;
    HashOkSize(cfg, c.head, c.pos);
    if phase.InBody? {
      NextStepTakes(cfg, input, c.head, c.pos, 258, 0);
    } else if FinishMatches(c.pos, |input|) {
      NextStepTakes(cfg, input, c.head, c.pos, AtMost258(|input| - c.pos), phase.slack);
    }
  }

  // ----- all turns of a loop

  /** The tokens that a loop makes from c on. */
  ghost function TokensOf(phase: Phase, cfg: Config, input: seq<Octet>, c: Cursor): seq<Token>
    requires CursorOk(cfg, input, c)
    decreases |input| - c.pos
  {
    if GoesOn(phase, c.pos, |input|) then
      var s := TurnOf(phase, cfg, input, c);
      TurnMovesOn(phase, cfg, input, c);
      [s.token] + TokensOf(phase, cfg, input, Cursor(s.pos, s.head))
    else []
  }

  /** Where it ends. */
  ghost function EndOf(phase: Phase, cfg: Config, input: seq<Octet>, c: Cursor): (e: Cursor)
    requires CursorOk(cfg, input, c)
    ensures CursorOk(cfg, input, e) && c.pos <= e.pos && !GoesOn(phase, e.pos, |input|)
    decreases |input| - c.pos
  {
    if GoesOn(phase, c.pos, |input|) then
      var s := TurnOf(phase, cfg, input, c);
      TurnMovesOn(phase, cfg, input, c);
      EndOf(phase, cfg, input, Cursor(s.pos, s.head))
    else c
  }

  /** The tokens of the rest of a block that ends with the input: those of the body, then those of
      finishing. */
  ghost function BlockTokens(cfg: Config, input: seq<Octet>, c: Cursor): seq<Token>
    requires CursorOk(cfg, input, c)
  {
    TokensOf(InBody, cfg, input, c) + TokensOf(FINISHING, cfg, input, EndOf(InBody, cfg, input, c))
  }

  /** Some turns of a loop lead from c to c', making ts. */
  ghost predicate Reaches(phase: Phase, cfg: Config, input: seq<Octet>, c: Cursor, ts: seq<Token>, c': Cursor)
    decreases |ts|
  {
    && CursorOk(cfg, input, c)
    && if ts == [] then c' == c
       else
         && GoesOn(phase, c.pos, |input|)
         && var s := TurnOf(phase, cfg, input, c);
         && ts[0] == s.token && Reaches(phase, cfg, input, Cursor(s.pos, s.head), ts[1..], c')
  }

  /** One more turn. */
  lemma {:induction false} ReachesMore(phase: Phase, cfg: Config, input: seq<Octet>, c: Cursor, ts: seq<Token>,
                                       c': Cursor)
    requires Reaches(phase, cfg, input, c, ts, c') && CursorOk(cfg, input, c') && GoesOn(phase, c'.pos, |input|)
    ensures var s := TurnOf(phase, cfg, input, c');
      Reaches(phase, cfg, input, c, ts + [s.token], Cursor(s.pos, s.head))
    decreases |ts|
  {
    hide CursorOk, TurnOf, GoesOn;
    var s := TurnOf(phase, cfg, input, c');
    if ts == [] {
      TurnMovesOn(phase, cfg, input, c);
      assert [s.token][1..] == [];
    } else {
      var t := TurnOf(phase, cfg, input, c);
      ReachesMore(phase, cfg, input, Cursor(t.pos, t.head), ts[1..], c');
      assert (ts + [s.token])[1..] == ts[1..] + [s.token];
    }
  }

  /** What a loop makes does not depend on where it is interrupted. */
  lemma {:induction false} ReachedTokens(phase: Phase, cfg: Config, input: seq<Octet>, c: Cursor, ts: seq<Token>,
                                         c': Cursor)
    requires Reaches(phase, cfg, input, c, ts, c')
    ensures CursorOk(cfg, input, c) && CursorOk(cfg, input, c') && c.pos <= c'.pos
    ensures TokensOf(phase, cfg, input, c) == ts + TokensOf(phase, cfg, input, c')
    ensures EndOf(phase, cfg, input, c) == EndOf(phase, cfg, input, c')
    decreases |ts|
  {
    hide CursorOk, TurnOf, GoesOn;
    if ts != [] {
      var s := TurnOf(phase, cfg, input, c);
      TurnMovesOn(phase, cfg, input, c);
      ReachedTokens(phase, cfg, input, Cursor(s.pos, s.head), ts[1..], c');
      assert ts == [s.token] + ts[1..];
    }
  }

  lemma ReachedBlock(cfg: Config, input: seq<Octet>, c: Cursor, ts: seq<Token>, c': Cursor)
    requires Reaches(InBody, cfg, input, c, ts, c')
    ensures CursorOk(cfg, input, c) && CursorOk(cfg, input, c')
    ensures BlockTokens(cfg, input, c) == ts + BlockTokens(cfg, input, c')
  {
    hide CursorOk, TokensOf, EndOf;
    ReachedTokens(InBody, cfg, input, c, ts, c');
  }

  /** Turns that lead from c to c', the tokens growing from ts to ts'. */
  ghost predicate Runs(phase: Phase, cfg: Config, input: seq<Octet>, c: Cursor, ts: seq<Token>, c': Cursor,
                       ts': seq<Token>) {
    ts <= ts' && Reaches(phase, cfg, input, c, ts'[|ts|..], c')
  }

  lemma RunsNone(phase: Phase, cfg: Config, input: seq<Octet>, c: Cursor, ts: seq<Token>)
    requires CursorOk(cfg, input, c)
    ensures Runs(phase, cfg, input, c, ts, c, ts)
  {
    hide CursorOk;
    assert ts[|ts|..] == [];
  }

  lemma RunsMore(phase: Phase, cfg: Config, input: seq<Octet>, c: Cursor, ts: seq<Token>, c': Cursor, ts': seq<Token>)
    requires Runs(phase, cfg, input, c, ts, c', ts') && CursorOk(cfg, input, c') && GoesOn(phase, c'.pos, |input|)
    ensures var s := TurnOf(phase, cfg, input, c');
      Runs(phase, cfg, input, c, ts, Cursor(s.pos, s.head), ts' + [s.token])
  {
    hide CursorOk, TurnOf, GoesOn, Reaches;
    var s := TurnOf(phase, cfg, input, c');
    ReachesMore(phase, cfg, input, c, ts'[|ts|..], c');
    assert (ts' + [s.token])[|ts|..] == ts'[|ts|..] + [s.token];
  }

  /** Such a run leaves the tokens up to the end of the loop as they are, wherever it is interrupted. */
  lemma RunsTokens(phase: Phase, cfg: Config, input: seq<Octet>, c: Cursor, ts: seq<Token>, c': Cursor, ts': seq<Token>)
    requires Runs(phase, cfg, input, c, ts, c', ts')
    ensures CursorOk(cfg, input, c) && CursorOk(cfg, input, c') && c.pos <= c'.pos
    ensures ts' + TokensOf(phase, cfg, input, c') == ts + TokensOf(phase, cfg, input, c)
    ensures EndOf(phase, cfg, input, c') == EndOf(phase, cfg, input, c)
  {
    hide CursorOk, TokensOf, EndOf, Reaches;
    ReachedTokens(phase, cfg, input, c, ts'[|ts|..], c');
    assert ts' == ts + ts'[|ts|..];
  }

  /** A run of the body leaves the tokens of the whole block as they are. */
  lemma RunsBlock(cfg: Config, input: seq<Octet>, c: Cursor, ts: seq<Token>, c': Cursor, ts': seq<Token>)
    requires Runs(InBody, cfg, input, c, ts, c', ts')
    ensures CursorOk(cfg, input, c) && CursorOk(cfg, input, c')
    ensures ts' + BlockTokens(cfg, input, c') == ts + BlockTokens(cfg, input, c)
  {
    hide CursorOk, TokensOf, EndOf, Reaches;
    ReachedBlock(cfg, input, c, ts'[|ts|..], c');
    assert ts' == ts + ts'[|ts|..];
  }

  /** After the body, finishing makes the rest of the block. */
  lemma BodyOver(cfg: Config, input: seq<Octet>, c: Cursor)
    requires CursorOk(cfg, input, c) && !BodyGoesOn(c.pos, |input|)
    ensures BlockTokens(cfg, input, c) == TokensOf(FINISHING, cfg, input, c)
    ensures TokensOf(InBody, cfg, input, c) == []
  {
    hide CursorOk, TurnOf;
  }

  /** If the tokens to come have codes, so have the next and those after it. */
  lemma NextCoded(phase: Phase, cfg: Config, input: seq<Octet>, c: Cursor, codes: Codes)
    requires CursorOk(cfg, input, c) && GoesOn(phase, c.pos, |input|)
    requires AllCoded(codes, TokensOf(phase, cfg, input, c))
    ensures var s := TurnOf(phase, cfg, input, c);
      && HasCode(codes, s.token) && CursorOk(cfg, input, Cursor(s.pos, s.head))
      && AllCoded(codes, TokensOf(phase, cfg, input, Cursor(s.pos, s.head)))
  {
    hide CursorOk, TurnOf, GoesOn, AllCoded, HasCode;
    TurnMovesOn(phase, cfg, input, c);
    FirstCoded(codes, TokensOf(phase, cfg, input, c));
  }

  lemma {:induction false} ReachesAll(phase: Phase, cfg: Config, input: seq<Octet>, c: Cursor)
    requires CursorOk(cfg, input, c)
    ensures Reaches(phase, cfg, input, c, TokensOf(phase, cfg, input, c), EndOf(phase, cfg, input, c))
    decreases |input| - c.pos
  {
    hide CursorOk, TurnOf, GoesOn;
    CursorBounded(cfg, input, c);
    if GoesOn(phase, c.pos, |input|) {
      var s := TurnOf(phase, cfg, input, c);
      TurnMovesOn(phase, cfg, input, c);
      ReachesAll(phase, cfg, input, Cursor(s.pos, s.head));
      assert TokensOf(phase, cfg, input, c)[1..] == TokensOf(phase, cfg, input, Cursor(s.pos, s.head));
    }
  }

  lemma {:induction false} ReachesTwice(phase: Phase, cfg: Config, input: seq<Octet>, c: Cursor, ts: seq<Token>,
                                        c': Cursor, ts': seq<Token>, c'': Cursor)
    requires Reaches(phase, cfg, input, c, ts, c') && Reaches(phase, cfg, input, c', ts', c'')
    ensures Reaches(phase, cfg, input, c, ts + ts', c'')
    decreases |ts|
  {
    hide CursorOk, TurnOf, GoesOn;
    if ts == [] {
      assert ts + ts' == ts';
    } else {
      var s := TurnOf(phase, cfg, input, c);
      ReachesTwice(phase, cfg, input, Cursor(s.pos, s.head), ts[1..], c', ts', c'');
      assert (ts + ts')[1..] == ts[1..] + ts';
    }
  }

  /** If every entry is that of a position in memory, this stays so. */
  lemma {:induction false} ReachedKeeps(phase: Phase, cfg: Config, input: seq<Octet>, c: Cursor, ts: seq<Token>,
                                        c': Cursor, window: nat)
    requires Reaches(phase, cfg, input, c, ts, c') && HashWithin(cfg, c.head, c.pos, window)
    ensures HashWithin(cfg, c'.head, c'.pos, window)
    decreases |ts|
  {
    hide CursorOk, TurnOf, GoesOn, HashWithin;
    if ts != [] {
      var s := TurnOf(phase, cfg, input, c);
      TurnKeeps(phase, cfg, input, c, window);
      ReachedKeeps(phase, cfg, input, Cursor(s.pos, s.head), ts[1..], c', window);
    }
  }

  /** Tokens made up to the end of the input stand for the rest of it. */
  lemma {:induction false} FinishedExpand(cfg: Config, input: seq<Octet>, c: Cursor, slack: nat)
    requires CursorOk(cfg, input, c)
    ensures var ts := TokensOf(InFinish(slack), cfg, input, c);
      && (forall t :: t in ts ==> ValidToken(t))
      && Expandable(ts, input[..c.pos]) && Expand(ts, input[..c.pos]) == input
    decreases |input| - c.pos
  {
    hide CursorOk, TurnOf, ValidToken, CopyMatch;
    var phase := InFinish(slack);
    if c.pos < |input| {
      var s := TurnOf(phase, cfg, input, c);
      TurnMovesOn(phase, cfg, input, c);
      TurnSound(phase, cfg, input, c);
      FinishedExpand(cfg, input, Cursor(s.pos, s.head), slack);
      ExpandAppend([s.token], TokensOf(phase, cfg, input, Cursor(s.pos, s.head)), input[..c.pos]);
    } else {
      CursorBounded(cfg, input, c);
      assert input[..c.pos] == input;
    }
  }

  lemma CursorBounded(cfg: Config, input: seq<Octet>, c: Cursor)
    requires CursorOk(cfg, input, c)
    ensures c.pos <= |input|
  {
  }

  // ----- which codes the tokens need

  /** There are codes for what can be made of the input from pos on: its bytes, the lengths from four
      on, and the distances within the window. */
  ghost predicate CodesFor(codes: Codes, cfg: Config, input: seq<Octet>, pos: nat) {
    && |codes.lit| == 286 && |codes.dist| == 30
    && (forall p :: pos <= p < |input| ==> codes.lit[input[p]] != [])
    && (forall n :: SHORTEST_MATCH <= n <= 258 ==> codes.lit[LengthSymbol(n)] != [])
    && (forall d :: 1 <= d <= cfg.distMask && d <= 32768 ==> codes.dist[DistSymbol(d)] != [])
  }

  lemma TurnCoded(phase: Phase, cfg: Config, input: seq<Octet>, c: Cursor, codes: Codes)
    requires CursorOk(cfg, input, c) && GoesOn(phase, c.pos, |input|) && CodesFor(codes, cfg, input, c.pos)
    ensures HasCode(codes, TurnOf(phase, cfg, input, c).token)
  {
    hide HashWithin, LengthSymbol, DistSymbol, Remember, RememberUpTo, Proposed, MatchLength, EntryLimit;
    TurnSound(phase, cfg, input, c);
  }

  /** Such codes are enough for every loop. */
  lemma {:induction false} TokensCoded(phase: Phase, cfg: Config, input: seq<Octet>, c: Cursor, codes: Codes)
    requires CursorOk(cfg, input, c) && CodesFor(codes, cfg, input, c.pos)
    ensures AllCoded(codes, TokensOf(phase, cfg, input, c))
    ensures CodesFor(codes, cfg, input, EndOf(phase, cfg, input, c).pos)
    decreases |input| - c.pos
  {
    hide CursorOk, TurnOf, GoesOn, HasCode;
    CursorBounded(cfg, input, c);
    if GoesOn(phase, c.pos, |input|) {
      var s := TurnOf(phase, cfg, input, c);
      TurnMovesOn(phase, cfg, input, c);
      TurnCoded(phase, cfg, input, c, codes);
      CodesForLater(codes, cfg, input, c.pos, s.pos);
      hide CodesFor;
      TokensCoded(phase, cfg, input, Cursor(s.pos, s.head), codes);
    }
  }

  lemma CodesForLater(codes: Codes, cfg: Config, input: seq<Octet>, pos: nat, pos': nat)
    requires CodesFor(codes, cfg, input, pos) && pos <= pos'
    ensures CodesFor(codes, cfg, input, pos')
  {
  }

  // ----- the body does not look at the end of the input

  lemma {:induction false} LoadPrefix(input: seq<Octet>, more: seq<Octet>, p: nat, n: nat)
    requires p + n <= |input|
    ensures LoadLe(input + more, p, n) == LoadLe(input, p, n)
    decreases n
  {
    if n > 0 { LoadPrefix(input, more, p + 1, n - 1); }
  }

  lemma HashPrefix(cfg: Config, input: seq<Octet>, more: seq<Octet>, p: nat)
    requires p + 4 <= |input|
    ensures HashAt(cfg, input + more, p) == HashAt(cfg, input, p)
  {
    hide And;
    LoadPrefix(input, more, p, 4);
  }

  lemma {:induction false} RememberPrefix(cfg: Config, input: seq<Octet>, more: seq<Octet>, head: seq<nat>, p: nat,
                                          limit: int)
    requires limit + 3 <= |input| && |head| > cfg.hashMask
    ensures RememberUpTo(cfg, input + more, head, p, limit) == RememberUpTo(cfg, input, head, p, limit)
    decreases limit - p
  {
    hide HashAt;
    if p < limit {
      HashPrefix(cfg, input, more, p);
      RememberPrefix(cfg, input, more, Remember(cfg, input, head, p), p + 1, limit);
    }
  }

  lemma {:induction false} MatchPrefix(input: seq<Octet>, more: seq<Octet>, p: nat, q: nat, max: nat)
    requires p + max <= |input| && q + max <= |input|
    ensures MatchLength(input + more, p, q, max) == MatchLength(input, p, q, max)
    decreases max
  {
    if max > 0 { MatchPrefix(input, more, p + 1, q + 1, max - 1); }
  }

  /** A turn of the body is the same if more input follows. */
  lemma TurnPrefix(cfg: Config, input: seq<Octet>, more: seq<Octet>, c: Cursor)
    requires CursorOk(cfg, input, c) && BodyGoesOn(c.pos, |input|)
    ensures CursorOk(cfg, input + more, c) && BodyGoesOn(c.pos, |input + more|)
    ensures TurnOf(InBody, cfg, input + more, c) == TurnOf(InBody, cfg, input, c)
  {
    hide HashAt, Behind, RememberUpTo, MatchLength, HashWithin;
    HashOkSize(cfg, c.head, c.pos);
    HashPrefix(cfg, input, more, c.pos);
    var d := Proposed(cfg, input, c.head, c.pos);
    if 1 <= d <= cfg.distMask {
      ProposedWithinInput(cfg, input, c.head, c.pos);
      MatchPrefix(input, more, c.pos - d, c.pos, 258);
    }
    var n := TakenLength(cfg, input, c.head, c.pos, 258);
    var limit := EntryLimit(cfg, input, c.pos, n, 0);
    RememberPrefix(cfg, input, more, Remember(cfg, input, c.head, c.pos), c.pos + 1, limit);
  }

  lemma {:induction false} ReachesPrefix(cfg: Config, input: seq<Octet>, more: seq<Octet>, c: Cursor, ts: seq<Token>,
                                         c': Cursor)
    requires Reaches(InBody, cfg, input, c, ts, c')
    ensures Reaches(InBody, cfg, input + more, c, ts, c')
    decreases |ts|
  {
    hide TurnOf, HashOk;
    if ts != [] {
      var s := TurnOf(InBody, cfg, input, c);
      TurnPrefix(cfg, input, more, c);
      ReachesPrefix(cfg, input, more, Cursor(s.pos, s.head), ts[1..], c');
    }
  }
}
