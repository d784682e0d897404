/** What the level-0 encoder of igzip_base.c makes of its input, token by token: the hash table
    proposes a distance, and a match is taken if at least four bytes agree. */
module Tokenizer {
  import opened Bits
  import opened BitStream
  import opened DeflateFormat
  import opened Matcher

  const SHORTEST_MATCH: nat := 4
  const LOOK_AHEAD: nat := 288

  /** The parameters of a stream.  The hash function is arbitrary, as correctness does not depend on
      it; limitHash is the build option that enters only three positions of a match; origin is where
      in memory the whole input starts, which may be before the part that is still there. */
  datatype Config = Config(distMask: nat, hashMask: nat, limitHash: bool, origin: int, hash: nat -> nat)

  ghost predicate ValidConfig(cfg: Config) {
    cfg.distMask <= 32767
  }

  // ----- the hash table

  function HashAt(cfg: Config, input: seq<Octet>, p: nat): (h: nat)
    requires p + 4 <= |input|
    ensures h <= cfg.hashMask
  {
    AndAtMost(cfg.hash(LoadLe32(input, p)), cfg.hashMask);
    And(cfg.hash(LoadLe32(input, p)), cfg.hashMask)
  }

  /** On a mask of k bits this is the hash of the four bytes, the first of them lowest, cut to k bits. */
  lemma HashAtIs(cfg: Config, input: seq<Octet>, p: nat, k: nat)
    requires p + 4 <= |input| && cfg.hashMask == Pow2(k) - 1
    ensures HashAt(cfg, input, p)
      == cfg.hash(FourBytes(input[p], input[p + 1], input[p + 2], input[p + 3])) % Pow2(k)
  {
    hide Pow2, And, LoadLe;
    WordLoaded(input, p);
    AndLowMask(cfg.hash(LoadLe32(input, p)), k);
  }

  function FourBytes(a: nat, b: nat, c: nat, d: nat): nat {
    a + 0x100 * b + 0x1_0000 * c + 0x100_0000 * d
  }

  lemma WordLoaded(input: seq<Octet>, p: nat)
    requires p + 4 <= |input|
    ensures LoadLe32(input, p) == FourBytes(input[p], input[p + 1], input[p + 2], input[p + 3])
  {
    assert LoadLe(input, p + 4, 0) == 0;
    assert LoadLe(input, p + 2, 2) == input[p + 2] + 256 * LoadLe(input, p + 3, 1);
  }

  /** A position as the table stores it: its offset from the start of the input, in a uint16_t. */
  function Low16(cfg: Config, p: nat): (r: nat)
    ensures r < 65536
  {
    (p - cfg.origin) % 65536
  }

  /** How far the entry h lies behind pos, as a 16-bit difference. */
  function Behind(cfg: Config, pos: nat, h: nat): (d: nat)
    ensures d < 65536
  {
    (pos - cfg.origin - h) % 65536
  }

  /** An entry stands for a position in memory that is not after pos, or else for a distance beyond
      the window. */
  predicate EntryOk(cfg: Config, pos: nat, h: nat, window: nat) {
    h < 65536 && (Behind(cfg, pos, h) <= pos || Behind(cfg, pos, h) > window)
  }

  ghost predicate HashWithin(cfg: Config, head: seq<nat>, pos: nat, window: nat) {
    |head| > cfg.hashMask && forall i :: 0 <= i < |head| ==> EntryOk(cfg, pos, head[i], window)
  }

  /** No entry can propose a distance that is taken and reaches before the start of memory. */
  ghost predicate HashOk(cfg: Config, head: seq<nat>, pos: nat) {
    HashWithin(cfg, head, pos, cfg.distMask)
  }

  /** No 16-bit difference is beyond this window. */
  const ANY_DISTANCE: nat := 65535

  /** Every entry is the low 16 bits of a position in memory, unless it lies beyond the window. */
  lemma HashEntryIsPosition(cfg: Config, head: seq<nat>, pos: nat, i: nat, window: nat) returns (p: nat)
    requires HashWithin(cfg, head, pos, window) && i < |head|
    ensures p <= pos
    ensures head[i] == Low16(cfg, p) || Behind(cfg, pos, head[i]) > window
    ensures window >= ANY_DISTANCE ==> head[i] == Low16(cfg, p)
  {
    var d := Behind(cfg, pos, head[i]);
    BehindModulo(pos - cfg.origin, head[i]);
    p := if d <= pos then pos - d else pos;
  }

  /** What reset_match_history writes everywhere: the position reached, in 16 bits. */
  function ResetHead(cfg: Config, total: nat): (head: seq<nat>)
    ensures |head| == cfg.hashMask + 1
  {
    seq(cfg.hashMask + 1, _ => total % 65536)
  }

  /** So no entry proposes a distance. */
  lemma ResetOk(cfg: Config, pos: nat, total: nat, window: nat)
    requires cfg.origin + total == pos
    ensures HashWithin(cfg, ResetHead(cfg, total), pos, window)
  {
    assert Behind(cfg, pos, total % 65536) == 0;
  }

  lemma BehindModulo(a: int, h: nat)
    requires h < 65536
    ensures (a - (a - h) % 65536) % 65536 == h
  {
  }

  lemma BehindStored(cfg: Config, p: nat, pos: nat)
    requires p <= pos
    ensures Behind(cfg, pos, Low16(cfg, p)) == (pos - p) % 65536 <= pos - p
  {
  }

  /** Entries stay harmless as the position moves on: those beyond the window only come back into it
      when as many positions have passed. */
  lemma EntryLater(cfg: Config, pos: nat, pos': nat, h: nat, window: nat)
    requires EntryOk(cfg, pos, h, window) && pos <= pos'
    ensures EntryOk(cfg, pos', h, window)
  {
    var d, k := Behind(cfg, pos, h), pos' - pos;
    assert Behind(cfg, pos', h) == (d + k) % 65536 by {
      assert (pos' - cfg.origin - h) % 65536 == (d + k) % 65536;
    }
    if d + k < 65536 {
      assert (d + k) % 65536 == d + k;
    } else {
      assert (d + k) % 65536 <= d + k - 65536 < k;
    }
  }

  function Remember(cfg: Config, input: seq<Octet>, head: seq<nat>, p: nat): (head': seq<nat>)
    requires p + 4 <= |input| && |head| > cfg.hashMask
    ensures |head'| == |head|
  {
    head[HashAt(cfg, input, p) := Low16(cfg, p)]
  }

  /** Enters the positions from p up to, not including, limit. */
  function RememberUpTo(cfg: Config, input: seq<Octet>, head: seq<nat>, p: nat, limit: int): (head': seq<nat>)
    requires limit + 3 <= |input| && |head| > cfg.hashMask
    ensures |head'| == |head|
    decreases limit - p
  {
    if p >= limit then head else RememberUpTo(cfg, input, Remember(cfg, input, head, p), p + 1, limit)
  }

  /** None of the positions from p up to limit hashes to entry i. */
  ghost predicate NoneAt(cfg: Config, bytes: seq<Octet>, i: int, p: nat, limit: int)
    requires limit + 3 <= |bytes|
  {
    forall q: nat :: p <= q < limit ==> HashAt(cfg, bytes, q) != i
  }

  /** What a table holds after positions have been entered: at the hash of each the last position with
      that hash, as its offset from base in 16 bits, and elsewhere what it held before. */
  ghost predicate Entered(cfg: Config, bytes: seq<Octet>, before: seq<nat>, after: seq<nat>, p: nat, limit: int,
                          base: int) {
    && limit + 3 <= |bytes| && |after| == |before| > cfg.hashMask
    && (forall i :: 0 <= i < |before| && NoneAt(cfg, bytes, i, p, limit) ==> after[i] == before[i])
    && forall q: nat :: p <= q < limit && NoneAt(cfg, bytes, HashAt(cfg, bytes, q), q + 1, limit) ==>
      after[HashAt(cfg, bytes, q)] == (q - base) % 65536
  }

  /** Every position that is entered has a last one with its hash, which is what the table holds. */
  lemma LastEntered(cfg: Config, bytes: seq<Octet>, before: seq<nat>, after: seq<nat>, p: nat, limit: int, base: int,
                    q: nat) returns (last: nat)
    requires Entered(cfg, bytes, before, after, p, limit, base) && p <= q < limit
    ensures q <= last < limit && HashAt(cfg, bytes, last) == HashAt(cfg, bytes, q)
    ensures forall r: nat :: last < r < limit ==> HashAt(cfg, bytes, r) != HashAt(cfg, bytes, q)
    ensures after[HashAt(cfg, bytes, q)] == (last - base) % 65536
    decreases limit - q
  {
    hide HashAt;
    last := q;
    if !NoneAt(cfg, bytes, HashAt(cfg, bytes, q), q + 1, limit) {
      var r: nat :| q + 1 <= r < limit && HashAt(cfg, bytes, r) == HashAt(cfg, bytes, q);
      last := LastEntered(cfg, bytes, before, after, p, limit, base, r);
    }
  }

  /** Entering positions one after another leaves the last ones. */
  lemma {:induction false} RememberUpToEnters(cfg: Config, input: seq<Octet>, head: seq<nat>, p: nat, limit: int)
    requires limit + 3 <= |input| && |head| > cfg.hashMask
    ensures Entered(cfg, input, head, RememberUpTo(cfg, input, head, p, limit), p, limit, cfg.origin)
    decreases limit - p
  {
    hide HashAt;
    if p < limit {
      RememberUpToEnters(cfg, input, Remember(cfg, input, head, p), p + 1, limit);
      EnteredFirst(cfg, input, head, RememberUpTo(cfg, input, head, p, limit), p, limit);
    }
  }

  lemma EnteredFirst(cfg: Config, input: seq<Octet>, head: seq<nat>, after: seq<nat>, p: nat, limit: int)
    requires limit + 3 <= |input| && |head| > cfg.hashMask && p < limit
    requires Entered(cfg, input, Remember(cfg, input, head, p), after, p + 1, limit, cfg.origin)
    ensures Entered(cfg, input, head, after, p, limit, cfg.origin)
  {
    hide HashAt;
    var h := HashAt(cfg, input, p);
    forall i | 0 <= i < |head| && NoneAt(cfg, input, i, p, limit) ensures after[i] == head[i] {
      assert h != i;
      assert NoneAt(cfg, input, i, p + 1, limit);
    }
  }

  lemma RememberKeeps(cfg: Config, input: seq<Octet>, head: seq<nat>, p: nat, pos: nat, window: nat)
    requires p + 4 <= |input| && HashWithin(cfg, head, pos, window) && p <= pos
    ensures HashWithin(cfg, Remember(cfg, input, head, p), pos, window)
  {
    hide HashAt, Behind, Low16;
    BehindStored(cfg, p, pos);
  }

  lemma {:induction false} RememberUpToKeeps(cfg: Config, input: seq<Octet>, head: seq<nat>, p: nat, limit: int,
                                             pos: nat, window: nat)
    requires limit + 3 <= |input| && HashWithin(cfg, head, pos, window) && limit <= pos + 1
    ensures HashWithin(cfg, RememberUpTo(cfg, input, head, p, limit), pos, window)
    decreases limit - p
  {
    hide Remember, EntryOk;
    if p < limit {
      RememberKeeps(cfg, input, head, p, pos, window);
      RememberUpToKeeps(cfg, input, Remember(cfg, input, head, p), p + 1, limit, pos, window);
    }
  }

  lemma HashOkSize(cfg: Config, head: seq<nat>, pos: nat)
    requires HashOk(cfg, head, pos)
    ensures |head| > cfg.hashMask
  {
  }

  lemma HashLater(cfg: Config, head: seq<nat>, pos: nat, pos': nat, window: nat)
    requires HashWithin(cfg, head, pos, window) && pos <= pos'
    ensures HashWithin(cfg, head, pos', window)
  {
    hide EntryOk;
    forall i | 0 <= i < |head| ensures EntryOk(cfg, pos', head[i], window) {
      EntryLater(cfg, pos, pos', head[i], window);
    }
  }

  // ----- one token

  /** The distance that the table proposes at pos, as a 16-bit difference. */
  function Proposed(cfg: Config, input: seq<Octet>, head: seq<nat>, pos: nat): (d: nat)
    requires pos + 4 <= |input| && |head| > cfg.hashMask
    ensures d < 65536
  {
    Behind(cfg, pos, head[HashAt(cfg, input, pos)])
  }

  /** A proposed distance within the window never reaches before the start of memory. */
  lemma ProposedWithinInput(cfg: Config, input: seq<Octet>, head: seq<nat>, pos: nat)
    requires HashOk(cfg, head, pos) && pos + 4 <= |input| && Proposed(cfg, input, head, pos) <= cfg.distMask
    ensures Proposed(cfg, input, head, pos) <= pos
  {
    hide HashAt, Behind;
  }

  datatype Step = Step(token: Token, pos: nat, head: seq<nat>)

  /** The length of the match that is taken at pos, or 0. */
  function TakenLength(cfg: Config, input: seq<Octet>, head: seq<nat>, pos: nat, max: nat): (n: nat)
    requires ValidConfig(cfg) && HashOk(cfg, head, pos) && pos + 4 <= |input| && pos + max <= |input|
    ensures n == 0 || SHORTEST_MATCH <= n <= max
    ensures n > 0 ==> 1 <= Proposed(cfg, input, head, pos) <= cfg.distMask && Proposed(cfg, input, head, pos) <= pos
  {
    var d := Proposed(cfg, input, head, pos);
    if 1 <= d <= cfg.distMask then
      ProposedWithinInput(cfg, input, head, pos);
      var n := MatchLength(input, pos - d, pos, max);
      if n >= SHORTEST_MATCH then n else 0
    else 0
  }

  /** A match at pos stays within the input. */
  predicate StepFits(input: seq<Octet>, pos: nat, max: nat) {
    pos + 4 <= |input| && pos + max <= |input| && max <= 258
  }

  /** So do the positions that are entered into the table for it, without a check. */
  predicate NextStepFits(input: seq<Octet>, pos: nat, max: nat, slack: nat) {
    StepFits(input, pos, max) && pos + max + 3 - slack <= |input| && pos + 6 - slack <= |input|
  }

  /** Where the positions entered for a match of n bytes end. */
  function EntryLimit(cfg: Config, input: seq<Octet>, pos: nat, n: nat, slack: nat): (limit: int)
    ensures limit + 3 <= |input|
  {
    var limit := pos + (if cfg.limitHash then 3 else n) - slack;
    if limit + 3 <= |input| then limit else |input| - 3
  }

  /** One turn of the encoding loops, at pos, with matches of at most max bytes; slack is how many
      positions at the end of a match are left out of the table. */
  function NextStep(cfg: Config, input: seq<Octet>, head: seq<nat>, pos: nat, max: nat, slack: nat): (s: Step)
    requires ValidConfig(cfg) && HashOk(cfg, head, pos) && StepFits(input, pos, max)
    ensures pos < s.pos <= pos + (if max == 0 then 1 else max)
  {
    var n := TakenLength(cfg, input, head, pos, max);
    var head1 := Remember(cfg, input, head, pos);
    if n > 0 then
      var limit := EntryLimit(cfg, input, pos, n, slack);
      Step(Match(n, Proposed(cfg, input, head, pos)), pos + n, RememberUpTo(cfg, input, head1, pos + 1, limit))
    else
      Step(Literal(input[pos]), pos + 1, head1)
  }

  lemma NextStepKeeps(cfg: Config, input: seq<Octet>, head: seq<nat>, pos: nat, max: nat, slack: nat, window: nat)
    requires ValidConfig(cfg) && HashOk(cfg, head, pos) && StepFits(input, pos, max)
    requires HashWithin(cfg, head, pos, window)
    ensures var s := NextStep(cfg, input, head, pos, max, slack); HashWithin(cfg, s.head, s.pos, window)
  {
    hide Remember, RememberUpTo, HashWithin, Proposed;
    HashOkSize(cfg, head, pos);
    RememberKeeps(cfg, input, head, pos, pos, window);
    var n := TakenLength(cfg, input, head, pos, max);
    var head1 := Remember(cfg, input, head, pos);
    if n > 0 {
      var limit := EntryLimit(cfg, input, pos, n, slack);
      HashLater(cfg, head1, pos, pos + n, window);
      RememberUpToKeeps(cfg, input, head1, pos + 1, limit, pos + n, window);
    } else {
      HashLater(cfg, head1, pos, pos + 1, window);
    }
  }

  lemma NextStepKeepsHash(cfg: Config, input: seq<Octet>, head: seq<nat>, pos: nat, max: nat, slack: nat)
    requires ValidConfig(cfg) && HashOk(cfg, head, pos) && StepFits(input, pos, max)
    ensures var s := NextStep(cfg, input, head, pos, max, slack); HashOk(cfg, s.head, s.pos)
  {
    hide HashWithin, NextStep;
    NextStepKeeps(cfg, input, head, pos, max, slack, cfg.distMask);
  }

  /** The token stands for the input from pos to the next position. */
  lemma NextStepSound(cfg: Config, input: seq<Octet>, head: seq<nat>, pos: nat, max: nat, slack: nat)
    requires ValidConfig(cfg) && HashOk(cfg, head, pos) && StepFits(input, pos, max)
    ensures var s := NextStep(cfg, input, head, pos, max, slack);
      && ValidToken(s.token) && !s.token.EndOfBlock?
      && Expandable([s.token], input[..pos]) && Expand([s.token], input[..pos]) == input[..s.pos]
  {
    hide Remember, RememberUpTo, HashOk, Proposed;
    HashOkSize(cfg, head, pos);
    var n := TakenLength(cfg, input, head, pos, max);
    if n > 0 {
      var d := Proposed(cfg, input, head, pos);
      MatchLengthAgrees(input, pos - d, pos, max);
      AgreeRepeats(input, pos, d, n);
      CopyReproduces(input, pos, d, n);
    } else {
      assert input[..pos] + [input[pos]] == input[..pos + 1];
    }
  }

  /** The token for a proposed distance d: a match at d, at least as long as any stretch of four bytes
      or more that repeats at d and is allowed; if there is none, or d is not within the window, the
      literal. */
  ghost predicate TokenByRule(cfg: Config, input: seq<Octet>, pos: nat, d: nat, max: nat, t: Token)
    requires pos < |input|
  {
    && (forall n: nat :: 1 <= d <= cfg.distMask && 4 <= n <= max && Repeats(input, pos, d, n) ==>
      t.Match? && t.distance == d && n <= t.length <= max)
    && ((forall n: nat :: 4 <= n <= max ==> !(1 <= d <= cfg.distMask && Repeats(input, pos, d, n))) ==>
      t == Literal(input[pos]))
  }

  /** So a match is taken exactly when four bytes agree, and it is as long as it can be. */
  lemma NextStepTakes(cfg: Config, input: seq<Octet>, head: seq<nat>, pos: nat, max: nat, slack: nat)
    requires ValidConfig(cfg) && HashOk(cfg, head, pos) && StepFits(input, pos, max) && |head| > cfg.hashMask
    ensures var s := NextStep(cfg, input, head, pos, max, slack);
      && TokenByRule(cfg, input, pos, (pos - cfg.origin - head[HashAt(cfg, input, pos)]) % 65536, max, s.token)
      && s.pos == pos + (if s.token.Match? then s.token.length else 1)
  {
    hide HashAt, Remember, RememberUpTo, HashWithin, MatchLength, Repeats, EntryLimit;
    var d := Proposed(cfg, input, head, pos);
    if 1 <= d <= cfg.distMask {
      ProposedWithinInput(cfg, input, head, pos);
      forall n: nat | 4 <= n <= max && Repeats(input, pos, d, n) ensures MatchLength(input, pos - d, pos, max) >= n {
        RepeatsMatch(input, pos, d, n, max);
      }
      var n := MatchLength(input, pos - d, pos, max);
      MatchLengthAgrees(input, pos - d, pos, max);
      AgreeRepeats(input, pos, d, n);
    }
  }

  lemma {:induction false} RepeatsMatch(input: seq<Octet>, pos: nat, d: nat, n: nat, max: nat)
    requires d <= pos && n <= max && pos + max <= |input| && Repeats(input, pos, d, n)
    ensures MatchLength(input, pos - d, pos, max) >= n
    decreases n
  {
    if n > 0 { RepeatsMatch(input, pos + 1, d, n - 1, max - 1); }
  }

  /** Which positions a turn enters: its own, and after a match those behind it, up to the third if the
      build limits them and else up to its end, less slack and as far as four bytes are left. */
  lemma NextStepEnters(cfg: Config, input: seq<Octet>, head: seq<nat>, pos: nat, max: nat, slack: nat)
    requires ValidConfig(cfg) && HashOk(cfg, head, pos) && StepFits(input, pos, max)
    ensures var s := NextStep(cfg, input, head, pos, max, slack);
      var end := pos + (if cfg.limitHash then 3 else s.pos - pos) - slack;
      var limit := if s.token.Match? then (if end <= |input| - 3 then end else |input| - 3) else pos;
      Entered(cfg, input, head, s.head, pos, if limit <= pos then pos + 1 else limit, cfg.origin)
  {
    hide HashAt, HashWithin, Entered, Proposed, TakenLength;
    HashOkSize(cfg, head, pos);
    var n := TakenLength(cfg, input, head, pos, max);
    var limit := EntryLimit(cfg, input, pos, n, slack);
    RememberUpToEnters(cfg, input, head, pos, if n == 0 || limit <= pos then pos + 1 else limit);
  }

  lemma AgreeRepeats(input: seq<Octet>, pos: nat, d: nat, n: nat)
    requires d <= pos && Agree(input, pos - d, pos, n)
    ensures Repeats(input, pos, d, n)
  {
    forall i | pos <= i < pos + n ensures input[i] == input[i - d] {
      assert input[pos..pos + n][i - pos] == input[pos - d..pos - d + n][i - pos];
    }
  }
}
