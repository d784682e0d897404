/** What the encoder makes of a run of equal bytes: one literal, then matches that are as long as they
    may be, whatever the hash function is. */
module EqualRuns {
  import opened BitStream
  import opened DeflateFormat
  import opened Matcher
  import opened Phases
  import opened Tokenizer

  /** From start on, all bytes are b. */
  ghost predicate AllEqual(input: seq<Octet>, start: nat, b: Octet) {
    forall p: nat :: start <= p < |input| ==> input[p] == b
  }

  /** Inside a run, with the table proposing the distance dist; 0 is the proposal after a reset. */
  ghost predicate InRun(cfg: Config, input: seq<Octet>, start: nat, b: Octet, c: Cursor, dist: nat) {
    && CursorOk(cfg, input, c) && AllEqual(input, start, b)
    && dist < 65536 && start + dist <= c.pos && |c.head| > cfg.hashMask
    && (c.pos + 4 <= |input| ==> c.head[HashAt(cfg, input, c.pos)] == (c.pos - dist - cfg.origin) % 65536)
  }

  lemma {:induction false} SameWord(input: seq<Octet>, start: nat, b: Octet, p: nat, q: nat, n: nat)
    requires AllEqual(input, start, b) && start <= p && start <= q && p + n <= |input| && q + n <= |input|
    ensures LoadLe(input, p, n) == LoadLe(input, q, n)
    decreases n
  {
    if n > 0 {
      assert input[p] == b && input[q] == b;
      SameWord(input, start, b, p + 1, q + 1, n - 1);
    }
  }

  /** All positions of a run hash to the same entry. */
  lemma SameEntry(cfg: Config, input: seq<Octet>, start: nat, b: Octet, p: nat, q: nat)
    requires AllEqual(input, start, b) && start <= p && start <= q && p + 4 <= |input| && q + 4 <= |input|
    ensures HashAt(cfg, input, p) == HashAt(cfg, input, q)
  {
    hide AllEqual, LoadLe;
    SameWord(input, start, b, p, q, 4);
  }

  /** After a match of 258 bytes in a run, the distance to the last position that was entered for it. */
  function NextDistance(slack: nat, limitHash: bool): (d: nat)
    ensures 1 <= d <= 258
  {
    if limitHash then (if slack < 3 then 256 + slack else 258)
    else (if slack < 258 then 1 + slack else 258)
  }

  function SlackOf(phase: Phase): nat {
    if phase.InBody? then 0 else phase.slack
  }

  lemma ModuloBack(p: nat, dist: nat, origin: int, h: nat)
    requires dist < 65536 && h == (p - dist - origin) % 65536
    ensures (p - origin - h) % 65536 == dist
  {
  }

  lemma RunRepeats(input: seq<Octet>, start: nat, b: Octet, pos: nat, dist: nat, n: nat)
    requires AllEqual(input, start, b) && start + dist <= pos && pos + n <= |input|
    ensures Repeats(input, pos, dist, n)
  {
    forall i | pos <= i < pos + n ensures input[i] == input[i - dist] {
      assert input[i - dist] == b && input[i] == b;
    }
  }

  /** A turn inside a run takes the longest match that is allowed, if the distance is. */
  lemma TurnInRun(phase: Phase, cfg: Config, input: seq<Octet>, start: nat, b: Octet, c: Cursor, dist: nat)
    requires InRun(cfg, input, start, b, c, dist) && GoesOn(phase, c.pos, |input|) && c.pos + 4 <= |input|
    requires 1 <= dist <= cfg.distMask
    ensures var n := AtMost258(|input| - c.pos); var s := TurnOf(phase, cfg, input, c);
      s.token == Match(n, dist) && s.pos == c.pos + n
  {
    hide HashAt, HashWithin, NextStep, Repeats, AllEqual;
    var n := AtMost258(|input| - c.pos);
    var h := c.head[HashAt(cfg, input, c.pos)];
    ModuloBack(c.pos, dist, cfg.origin, h);
    RunRepeats(input, start, b, c.pos, dist, n);
    NextStepTakes(cfg, input, c.head, c.pos, n, SlackOf(phase));
    var s := NextStep(cfg, input, c.head, c.pos, n, SlackOf(phase));
    assert s.token.Match? && s.token.distance == dist && s.token.length == n;
    assert TurnOf(phase, cfg, input, c) == s;
  }

  /** After 258 bytes, the run goes on. */
  lemma RunGoesOn(phase: Phase, cfg: Config, input: seq<Octet>, start: nat, b: Octet, c: Cursor, dist: nat)
    requires InRun(cfg, input, start, b, c, dist) && GoesOn(phase, c.pos, |input|) && c.pos + 258 <= |input|
    requires 1 <= dist <= cfg.distMask
    ensures var s := TurnOf(phase, cfg, input, c);
      InRun(cfg, input, start, b, Cursor(s.pos, s.head), NextDistance(SlackOf(phase), cfg.limitHash))
  {
    hide HashAt, HashWithin, NextStep, AllEqual, Entered;
    TurnInRun(phase, cfg, input, start, b, c, dist);
    TurnMovesOn(phase, cfg, input, c);
    var s := TurnOf(phase, cfg, input, c);
    HashOkSize(cfg, s.head, s.pos);
    if s.pos + 4 <= |input| {
      NextStepEnters(cfg, input, c.head, c.pos, 258, SlackOf(phase));
      var end := c.pos + (if cfg.limitHash then 3 else 258) - SlackOf(phase);
      var limit := if end <= c.pos then c.pos + 1 else end;
      EntryInRun(cfg, input, start, b, c.head, s.head, c.pos, limit, s.pos);
    }
  }

  /** When positions of a run have been entered, its entry is that of the last. */
  lemma EntryInRun(cfg: Config, input: seq<Octet>, start: nat, b: Octet, before: seq<nat>, after: seq<nat>, p: nat,
                   limit: nat, pos: nat)
    requires AllEqual(input, start, b) && start <= p < limit && start <= pos && pos + 4 <= |input|
    requires Entered(cfg, input, before, after, p, limit, cfg.origin)
    ensures |after| > cfg.hashMask && after[HashAt(cfg, input, pos)] == (limit - 1 - cfg.origin) % 65536
  {
    hide HashAt, AllEqual;
    SameEntry(cfg, input, start, b, limit - 1, pos);
    assert NoneAt(cfg, input, HashAt(cfg, input, limit - 1), limit, limit);
  }

  /** If the distance is not allowed, the turn makes a literal, and the next proposal is 1. */
  lemma TurnOutside(phase: Phase, cfg: Config, input: seq<Octet>, start: nat, b: Octet, c: Cursor, dist: nat)
    requires InRun(cfg, input, start, b, c, dist) && GoesOn(phase, c.pos, |input|)
    requires dist == 0 || dist > cfg.distMask || c.pos + 4 > |input|
    ensures var s := TurnOf(phase, cfg, input, c);
      s.token == Literal(b) && s.pos == c.pos + 1 && InRun(cfg, input, start, b, Cursor(s.pos, s.head), 1)
  {
    hide HashAt, HashWithin, NextStep, AllEqual, Entered;
    assert input[c.pos] == b by { AtRun(input, start, b, c.pos); }
    TurnMovesOn(phase, cfg, input, c);
    var s := TurnOf(phase, cfg, input, c);
    HashOkSize(cfg, s.head, s.pos);
    if c.pos + 4 <= |input| {
      var max := if phase.InBody? then 258 else AtMost258(|input| - c.pos);
      ModuloBack(c.pos, dist, cfg.origin, c.head[HashAt(cfg, input, c.pos)]);
      NextStepTakes(cfg, input, c.head, c.pos, max, SlackOf(phase));
      NextStepEnters(cfg, input, c.head, c.pos, max, SlackOf(phase));
      if c.pos + 5 <= |input| {
        EntryInRun(cfg, input, start, b, c.head, s.head, c.pos, c.pos + 1, c.pos + 1);
      }
    }
  }

  lemma AtRun(input: seq<Octet>, start: nat, b: Octet, p: nat)
    requires AllEqual(input, start, b) && start <= p < |input|
    ensures input[p] == b
  {
  }

  lemma ResetInRun(cfg: Config, input: seq<Octet>, start: nat, b: Octet, total: nat)
    requires ValidConfig(cfg) && AllEqual(input, start, b) && start <= |input| && cfg.origin + total == start
    ensures InRun(cfg, input, start, b, Cursor(start, ResetHead(cfg, total)), 0)
  {
    hide HashAt, HashWithin, AllEqual;
    ResetOk(cfg, start, total, cfg.distMask);
  }

  // ----- the tokens

  function Literals(b: Octet, n: nat): seq<Token> {
    if n == 0 then [] else [Literal(b)] + Literals(b, n - 1)
  }

  /** Matches of 258 bytes, the first at dist and the others at next; then one for what is left, or
      literals if that is less than four bytes.  Where the distance is beyond the window there is a
      literal first, and then distance 1. */
  function RunRest(b: Octet, n: nat, dist: nat, next: nat, window: nat): seq<Token> {
    if n < 4 then Literals(b, n)
    else if dist == 0 || dist > window then [Literal(b)] + RunRest(b, n - 1, 1, next, window)
    else if n < 258 then [Match(n, dist)]
    else [Match(258, dist)] + RunRest(b, n - 258, next, next, window)
  }

  /** The same with the body of the block before it, which stops when 288 bytes are left. */
  function RunBlock(b: Octet, n: nat, dist: nat, window: nat, limitHash: bool): seq<Token> {
    if n <= 288 then RunRest(b, n, dist, if limitHash then 258 else 4, window)
    else if dist == 0 || dist > window then [Literal(b)] + RunBlock(b, n - 1, 1, window, limitHash)
    else [Match(258, dist)] + RunBlock(b, n - 258, if limitHash then 256 else 1, window, limitHash)
  }

  lemma {:induction false} LastLiterals(cfg: Config, input: seq<Octet>, start: nat, b: Octet, c: Cursor, slack: nat)
    requires CursorOk(cfg, input, c) && AllEqual(input, start, b) && start <= c.pos && c.pos + 4 > |input|
    ensures TokensOf(InFinish(slack), cfg, input, c) == Literals(b, |input| - c.pos)
    decreases |input| - c.pos
  {
    hide HashWithin;
    var phase := InFinish(slack);
    if c.pos < |input| {
      TurnMovesOn(phase, cfg, input, c);
      var s := TurnOf(phase, cfg, input, c);
      assert s == Step(Literal(b), c.pos + 1, c.head);
      LastLiterals(cfg, input, start, b, Cursor(s.pos, s.head), slack);
    }
  }

  lemma {:induction false} FinishInRun(cfg: Config, input: seq<Octet>, start: nat, b: Octet, c: Cursor, dist: nat,
                                       slack: nat)
    requires InRun(cfg, input, start, b, c, dist)
    ensures TokensOf(InFinish(slack), cfg, input, c)
      == RunRest(b, |input| - c.pos, dist, NextDistance(slack, cfg.limitHash), cfg.distMask)
    decreases |input| - c.pos
  {
    hide HashAt, HashWithin, NextStep, AllEqual, TurnOf, NextDistance;
    var phase := InFinish(slack);
    if c.pos + 4 > |input| {
      LastLiterals(cfg, input, start, b, c, slack);
    } else {
      TurnMovesOn(phase, cfg, input, c);
      var s := TurnOf(phase, cfg, input, c);
      if dist == 0 || dist > cfg.distMask {
        TurnOutside(phase, cfg, input, start, b, c, dist);
        FinishInRun(cfg, input, start, b, Cursor(s.pos, s.head), 1, slack);
      } else {
        TurnInRun(phase, cfg, input, start, b, c, dist);
        if |input| - c.pos >= 258 {
          RunGoesOn(phase, cfg, input, start, b, c, dist);
          FinishInRun(cfg, input, start, b, Cursor(s.pos, s.head), NextDistance(slack, cfg.limitHash), slack);
        } else {
          assert TokensOf(phase, cfg, input, Cursor(s.pos, s.head)) == [];
        }
      }
    }
  }

  lemma {:induction false} BlockInRun(cfg: Config, input: seq<Octet>, start: nat, b: Octet, c: Cursor, dist: nat)
    requires InRun(cfg, input, start, b, c, dist)
    ensures BlockTokens(cfg, input, c) == RunBlock(b, |input| - c.pos, dist, cfg.distMask, cfg.limitHash)
    decreases |input| - c.pos
  {
    hide HashAt, HashWithin, NextStep, AllEqual, TurnOf;
    if |input| - c.pos <= 288 {
      BodyOver(cfg, input, c);
      FinishInRun(cfg, input, start, b, c, dist, 3);
    } else {
      BlockStep(cfg, input, c);
      TurnMovesOn(InBody, cfg, input, c);
      var s := TurnOf(InBody, cfg, input, c);
      if dist == 0 || dist > cfg.distMask {
        TurnOutside(InBody, cfg, input, start, b, c, dist);
        BlockInRun(cfg, input, start, b, Cursor(s.pos, s.head), 1);
      } else {
        TurnInRun(InBody, cfg, input, start, b, c, dist);
        RunGoesOn(InBody, cfg, input, start, b, c, dist);
        BlockInRun(cfg, input, start, b, Cursor(s.pos, s.head), NextDistance(0, cfg.limitHash));
      }
    }
  }

  lemma BlockStep(cfg: Config, input: seq<Octet>, c: Cursor)
    requires CursorOk(cfg, input, c) && BodyGoesOn(c.pos, |input|)
    ensures var s := TurnOf(InBody, cfg, input, c);
      && CursorOk(cfg, input, Cursor(s.pos, s.head))
      && BlockTokens(cfg, input, c) == [s.token] + BlockTokens(cfg, input, Cursor(s.pos, s.head))
  {
    hide CursorOk, TurnOf;
    TurnMovesOn(InBody, cfg, input, c);
  }

  /** A block of equal bytes after a reset, for every hash function and window: one literal, then matches
      of 258 bytes while at least 258 are left, the first of them at distance 1. */
  lemma EqualBytes(cfg: Config, input: seq<Octet>, start: nat, b: Octet, total: nat)
    requires ValidConfig(cfg) && cfg.origin + total == start
    requires AllEqual(input, start, b) && start < |input|
    ensures CursorOk(cfg, input, Cursor(start, ResetHead(cfg, total)))
    ensures BlockTokens(cfg, input, Cursor(start, ResetHead(cfg, total)))
      == [Literal(b)] + RunBlock(b, |input| - start - 1, 1, cfg.distMask, cfg.limitHash)
  {
    hide HashAt, HashWithin, AllEqual, ResetHead;
    ResetInRun(cfg, input, start, b, total);
    BlockInRun(cfg, input, start, b, Cursor(start, ResetHead(cfg, total)), 0);
    RunStarts(b, |input| - start, cfg.distMask, cfg.limitHash);
  }

  lemma RunStarts(b: Octet, n: nat, window: nat, limitHash: bool)
    requires n > 0
    ensures RunBlock(b, n, 0, window, limitHash) == [Literal(b)] + RunBlock(b, n - 1, 1, window, limitHash)
  {
  }

  /** The first n / 258 tokens are matches of 258 bytes, the first of them at dist. */
  ghost predicate LongMatches(ts: seq<Token>, n: nat, dist: nat) {
    && n / 258 <= |ts| && (n >= 258 ==> ts[0] == Match(258, dist))
    && forall i :: 0 <= i < n / 258 ==> ts[i].Match? && ts[i].length == 258
  }

  lemma OneMore(ts: seq<Token>, n: nat, dist: nat, next: nat)
    requires n >= 258 && LongMatches(ts, n - 258, next)
    ensures LongMatches([Match(258, dist)] + ts, n, dist)
  {
    assert n / 258 == (n - 258) / 258 + 1;
  }

  lemma {:induction false} RestMatches(b: Octet, n: nat, dist: nat, next: nat, window: nat)
    requires 1 <= dist <= window && 1 <= next <= window
    ensures LongMatches(RunRest(b, n, dist, next, window), n, dist)
    decreases n
  {
    hide LongMatches;
    if n >= 258 {
      RestMatches(b, n - 258, next, next, window);
      OneMore(RunRest(b, n - 258, next, next, window), n, dist, next);
    } else {
      NoLongMatch(RunRest(b, n, dist, next, window), n, dist);
    }
  }

  lemma NoLongMatch(ts: seq<Token>, n: nat, dist: nat)
    requires n < 258
    ensures LongMatches(ts, n, dist)
  {
  }

  /** If the window has room for the distances that come up, 258 bytes at a time make one match. */
  lemma {:induction false} BlockMatches(b: Octet, n: nat, dist: nat, window: nat, limitHash: bool)
    requires 1 <= dist <= window && window >= if limitHash then 258 else 4
    ensures LongMatches(RunBlock(b, n, dist, window, limitHash), n, dist)
    decreases n
  {
    hide LongMatches, RunRest;
    var next := if limitHash then 256 else 1;
    if n > 288 {
      BlockMatches(b, n - 258, next, window, limitHash);
      OneMore(RunBlock(b, n - 258, next, window, limitHash), n, dist, next);
    } else {
      RestMatches(b, n, dist, if limitHash then 258 else 4, window);
    }
  }
}
