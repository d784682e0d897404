/** Runs of the level-0 encoder: preset dictionaries, input and output in pieces, and what a decoder
    makes of the result. */
module Compression {
  import opened Bits
  import opened BitStream
  import opened DeflateFormat
  import opened Dictionaries
  import opened Encoder
  import opened EqualRuns
  import opened HuffmanTables
  import opened Phases
  import opened Tokenizer

  // ----- decoding

  /** The bits since the last header byte: those delivered, then those pending. */
  ghost function OutputBits(s: DeflateStream): Bits01
    reads s, s.bitbuf
  {
    s.delivered + NatBits(s.bitbuf.mBits, s.bitbuf.mBitCount)
  }

  /** In every state between calls, whatever follows, a decoder that has read the block header and knows
      the memory before the block gets exactly the input consumed; and once the block is ended, it also
      finds its end. */
  lemma OutputDecodes(s: DeflateStream, rest: Bits01)
    requires TablesFor(s.tables, s.codes) && s.Valid()
    ensures s.start <= s.nextIn <= |s.input| && s.before <= OutputBits(s)
    ensures Decode(s.codes, OutputBits(s)[|s.before|..] + rest, s.input[..s.start])
      == if s.hasEob then Ended(s.input[..s.nextIn], rest) else Decode(s.codes, rest, s.input[..s.nextIn])
  {
    hide TablesFor, HashWithin, NatBits, Pow2, Decode;
    SizedTables(s.tables, s.codes);
    ValidFromTables(s.tables, s.codes);
    SpelledDecodes(s.codes, s.before, s.tokens, s.hasEob, OutputBits(s), rest, s.input[..s.start]);
  }

  lemma SpelledDecodes(c: Codes, before: Bits01, ts: seq<Token>, ended: bool, bits: Bits01, rest: Bits01,
                       out: seq<Octet>)
    requires ValidCodes(c) && Spelled(c, before, if ended then ts + [EndOfBlock] else ts, bits)
    requires |c.lit| == 286 && |c.dist| == 30 && Expandable(ts, out)
    ensures before <= bits
    ensures Decode(c, bits[|before|..] + rest, out)
      == if ended then Ended(Expand(ts, out), rest) else Decode(c, rest, Expand(ts, out))
  {
    hide ValidCodes, HasCode, ValidToken, TokenBits, Decode, AllCoded;
    if ended {
      AllValid(c, ts + [EndOfBlock]);
      CodedParts(c, ts, [EndOfBlock]);
      EndCoded(c);
      AllValid(c, ts);
      EncodeAppend(c, ts, [EndOfBlock]);
      OneToken(c, EndOfBlock);
      DecodeBlock(c, ts, rest, out);
    } else {
      AllValid(c, ts);
      DecodeTokens(c, ts, rest, out);
    }
  }

  lemma EndCoded(c: Codes)
    requires AllCoded(c, [EndOfBlock])
    ensures |c.lit| == 286 && |c.dist| == 30 && ValidToken(EndOfBlock) && c.lit[256] != []
  {
    FirstCoded(c, [EndOfBlock]);
  }

  lemma CodedParts(c: Codes, ts: seq<Token>, us: seq<Token>)
    requires AllCoded(c, ts + us)
    ensures AllCoded(c, ts) && AllCoded(c, us)
  {
    hide HasCode;
    forall t | t in ts ensures HasCode(c, t) { assert t in ts + us; }
    forall t | t in us ensures HasCode(c, t) { assert t in ts + us; }
  }

  lemma ValidFromTables(h: Tables, c: Codes)
    requires TablesFor(h, c)
    ensures ValidCodes(c)
  {
  }

  // ----- dictionaries

  /** isal_deflate_hash: forgets all history but the last dictLen bytes before the input.  The result is
      exactly as safe as its entries that are left at -1. */
  method UseDictionary(s: DeflateStream, dictLen: nat)
    requires s.Valid() && s.head.Length == s.cfg.hashMask + 1 && dictLen <= s.nextIn
    modifies s`hasHist, s.head
    ensures s.hasHist && s.nextIn <= |s.input|
    ensures s.head[..] == DictionaryHead(s.cfg, s.input, s.nextIn, dictLen)
    ensures Entered(s.cfg, s.input, seq(s.cfg.hashMask + 1, _ => 65535), s.head[..], s.nextIn - dictLen, s.nextIn - 3,
                    s.cfg.origin)
    ensures s.Valid() <==> ClearedSafe(s.cfg, s.nextIn) || 65535 !in s.head[..]
  {
    hide Covers, Spelled, Pow2, NatBits, RememberUpTo, ClearedSafe, EntryOk, Entered;
    var pos := s.nextIn;
    // memset(head, -1)
    forall i | 0 <= i < s.head.Length {
      s.head[i] := 65535;
    }
    assert s.head[..] == Cleared(s.cfg);
    HashBase(s.cfg, s.head, s.totalIn, s.input[pos - dictLen..pos], s.input, pos);
    s.hasHist := true;
    DictionaryHashOk(s.cfg, s.input, pos, dictLen);
    DictionaryEnters(s.cfg, s.input, pos, dictLen);
  }

  // ----- passes

  /** What a stream will have encoded when its block is ended, without further input. */
  ghost function WholeBlock(s: DeflateStream): seq<Token>
    requires s.Valid()
    reads s, s.bitbuf, s.head
  {
    s.tokens
    + if s.state == ZBody then BlockTokens(s.cfg, s.input, s.Here()) else TokensOf(FINISHING, s.cfg, s.input, s.Here())
  }

  /** In the middle of a block, with codes for all of it. */
  ghost predicate Encoding(s: DeflateStream)
    reads s, s.bitbuf, s.head
  {
    && TablesFor(s.tables, s.codes) && s.Valid() && !s.hasEob && (s.state == ZBody || s.state == ZFlushReadBuffer)
    && HasCode(s.codes, EndOfBlock) && AllCoded(s.codes, WholeBlock(s))
  }

  /** Two calls in a row make the progress of both. */
  lemma ProgressTwice(a: Stand, b: Stand, c: Stand, out1: seq<Octet>, out2: seq<Octet>)
    requires Progress(a, b, out1) && Progress(b, c, out2) && Untouched(out1, out2, b.nextOut, b.nextOut + b.availOut)
    requires a.totalOut < 0x1_0000_0000
    ensures Progress(a, c, out2) && a.totalIn <= b.totalIn <= c.totalIn
  {
    hide Add32, ByteBits;
    var first, second := out2[a.nextOut..b.nextOut], out2[b.nextOut..c.nextOut];
    assert out1[a.nextOut..b.nextOut] == first;
    assert out2[a.nextOut..c.nextOut] == first + second;
    ByteBitsAppend(first, second);
    AddTwice(a.totalOut, b.nextOut - a.nextOut, c.nextOut - b.nextOut);
  }

  lemma AddTwice(a: nat, b: nat, c: nat)
    ensures Add32(Add32(a, b), c) == Add32(a, b + c)
  {
  }

  lemma StandsStill(s: DeflateStream)
    requires s.Valid()
    ensures Progress(s.Now(), s.Now(), s.out[..]) && s.nextIn + s.availIn == |s.input|
    ensures s.Now().totalIn == s.nextIn - s.cfg.origin
    ensures s.Now().nextOut == s.nextOut && s.Now().availOut == s.availOut
    ensures s.Now().totalOut == s.totalOut < 0x1_0000_0000
  {
    assert s.out[..][s.nextOut..s.nextOut] == [];
  }

  lemma Forward(before: Stand, after: Stand, out: seq<Octet>)
    requires Progress(before, after, out)
    ensures after.totalIn >= before.totalIn
  {
  }

  /** The tokens that the next step makes have codes. */
  lemma StepsCoded(s: DeflateStream)
    requires Encoding(s)
    ensures CursorOk(s.cfg, s.input, s.Here())
    ensures s.state == ZBody ==> AllCoded(s.codes, TokensOf(InBody, s.cfg, s.input, s.Here()))
    ensures s.state != ZBody ==> AllCoded(s.codes, TokensOf(FINISHING, s.cfg, s.input, s.Here()))
  {
    hide TablesFor, DeflateStream.Valid, TokensOf, EndOf, CursorOk, AllCoded, HasCode;
    s.HereOk();
    if s.state == ZBody {
      CodedParts(s.codes, s.tokens, BlockTokens(s.cfg, s.input, s.Here()));
      var e := EndOf(InBody, s.cfg, s.input, s.Here());
      CodedParts(s.codes, TokensOf(InBody, s.cfg, s.input, s.Here()), TokensOf(FINISHING, s.cfg, s.input, e));
    } else {
      CodedParts(s.codes, s.tokens, TokensOf(FINISHING, s.cfg, s.input, s.Here()));
    }
  }

  /** isal_deflate_pass, from the body of a block to its end. */
  method Pass(s: DeflateStream)
    requires Encoding(s) && (s.endOfStream != 0 || s.flush != 0)
    modifies s, s.bitbuf, s.out, s.head
    ensures TablesFor(s.tables, s.codes) && s.Valid() && s.out == old(s.out)
    ensures Progress(old(s.Now()), s.Now(), s.out[..])
    ensures s.hasEob ==> s.nextIn == |s.input| && s.tokens == old(WholeBlock(s))
    ensures !s.hasEob ==> Encoding(s) && WholeBlock(s) == old(WholeBlock(s))
    ensures !s.hasEob && old(s.availOut) >= 8 ==> s.nextIn > old(s.nextIn)
  {
    hide TablesFor, DeflateStream.Valid, DeflateStream.Now, Progress, Untouched, Encoding, WholeBlock;
    EncodingIs(s);
    StandsStill(s);
    if s.state == ZBody {
      PassBody(s);
    }
    ghost var between, sofar := s.Now(), s.out[..];
    EncodingIs(s);
    StandsStill(s);
    Forward(old(s.Now()), between, sofar);
    if s.state == ZFlushReadBuffer {
      PassFinish(s);
      ProgressTwice(old(s.Now()), between, s.Now(), sofar, s.out[..]);
    }
    StandsStill(s);
  }

  lemma EncodingIs(s: DeflateStream)
    requires Encoding(s)
    ensures TablesFor(s.tables, s.codes) && s.Valid() && !s.hasEob && (s.state == ZBody || s.state == ZFlushReadBuffer)
  {
    hide TablesFor, DeflateStream.Valid, AllCoded, HasCode;
  }

  method PassBody(s: DeflateStream)
    requires Encoding(s) && (s.endOfStream != 0 || s.flush != 0) && s.state == ZBody
    modifies s, s.bitbuf, s.out, s.head
    ensures Encoding(s) && WholeBlock(s) == old(WholeBlock(s)) && s.out == old(s.out)
    ensures Progress(old(s.Now()), s.Now(), s.out[..])
    ensures s.state == ZBody ==> s.availOut < 8
    ensures s.nextIn == old(s.nextIn) ==> (s.availOut < 8) == (old(s.availOut) < 8)
  {
    hide TablesFor, DeflateStream.Valid, DeflateStream.Now, Progress, Untouched, TokensOf, AllCoded, HasCode, Runs;
    hide BlockTokens, CursorOk;
    StepsCoded(s);
    s.Body();
    RunsBlock(s.cfg, s.input, old(s.Here()), old(s.tokens), s.Here(), s.tokens);
    if !BodyGoesOn(s.nextIn, |s.input|) {
      BodyOver(s.cfg, s.input, s.Here());
    }
  }

  method PassFinish(s: DeflateStream)
    requires Encoding(s) && s.state == ZFlushReadBuffer
    modifies s, s.bitbuf, s.out, s.head
    ensures TablesFor(s.tables, s.codes) && s.Valid() && s.out == old(s.out)
    ensures Progress(old(s.Now()), s.Now(), s.out[..])
    ensures Untouched(old(s.out[..]), s.out[..], old(s.nextOut), old(s.nextOut) + old(s.availOut))
    ensures s.hasEob ==> s.nextIn == |s.input| && s.tokens == old(WholeBlock(s))
    ensures !s.hasEob ==> Encoding(s) && WholeBlock(s) == old(WholeBlock(s))
    ensures !s.hasEob && old(s.availOut) >= 8 ==> s.nextIn > old(s.nextIn)
  {
    hide TablesFor, DeflateStream.Valid, DeflateStream.Now, Progress, Untouched, TokensOf, AllCoded, HasCode, Runs;
    hide CursorOk;
    StepsCoded(s);
    s.Finish();
    RunsTokens(FINISHING, s.cfg, s.input, old(s.Here()), old(s.tokens), s.Here(), s.tokens);
    if s.hasEob {
      NothingLeft(s.cfg, s.input, s.Here());
    }
  }

  lemma NothingLeft(cfg: Config, input: seq<Octet>, c: Cursor)
    requires CursorOk(cfg, input, c) && c.pos == |input|
    ensures TokensOf(FINISHING, cfg, input, c) == []
  {
    hide CursorOk;
  }

  // ----- whole runs

  /** Hands the stream an empty output buffer of its own. */
  method NewRoom(s: DeflateStream, room: nat)
    requires s.Valid()
    modifies s`out, s`nextOut, s`availOut
    ensures fresh(s.out) && s.nextOut == 0 && s.availOut == s.out.Length == room
    ensures s.Valid()
  {
    hide Covers, Spelled, CursorOk, NatBits, Pow2;
    s.out := new Octet[room](_ => 0);
    s.nextOut, s.availOut := 0, room;
  }

  /** The caller may add input between calls: the tokens made from it so far are those that the body
      makes of the longer input too. */
  method MoreInput(s: DeflateStream, more: seq<Octet>, ghost from: Cursor)
    requires s.Valid() && |s.input| + |more| < 0x1_0000_0000
    requires Reaches(InBody, s.cfg, s.input, from, s.tokens, s.Here())
    modifies s`input, s`availIn
    ensures s.Valid() && s.input == old(s.input) + more && s.availIn == old(s.availIn) + |more|
    ensures Reaches(InBody, s.cfg, s.input, from, s.tokens, s.Here())
  {
    hide Spelled, HashWithin, NatBits, Pow2, Covers, Reaches;
    CoversMemory(s.tokens, s.input, more, s.start, s.nextIn);
    ReachesPrefix(s.cfg, s.input, more, from, s.tokens, s.Here());
    s.input := s.input + more;
    s.availIn := s.availIn + |more|;
  }

  lemma CoversMemory(ts: seq<Token>, input: seq<Octet>, more: seq<Octet>, start: nat, pos: nat)
    requires Covers(ts, input, start, pos)
    ensures Covers(ts, input + more, start, pos)
  {
    assert (input + more)[..start] == input[..start] && (input + more)[..pos] == input[..pos];
  }

  /** In the body of a block that began at from, with no end in sight: the input so far is the start of
      all, and the tokens are those of its body. */
  ghost predicate Feeding(s: DeflateStream, from: Cursor, all: seq<Octet>)
    reads s, s.bitbuf, s.head
  {
    && TablesFor(s.tables, s.codes) && s.Valid() && !s.hasEob && s.state == ZBody && s.endOfStream == 0 && s.flush == 0
    && s.input <= all && Reaches(InBody, s.cfg, s.input, from, s.tokens, s.Here())
  }

  /** What the body makes of the input so far is part of the whole block. */
  lemma FeedingPart(s: DeflateStream, from: Cursor, all: seq<Octet>)
    requires Feeding(s, from, all)
    ensures CursorOk(s.cfg, all, from) && CursorOk(s.cfg, s.input, s.Here())
    ensures s.tokens + TokensOf(InBody, s.cfg, s.input, s.Here()) <= BlockTokens(s.cfg, all, from)
    ensures s.input == all ==> s.tokens + BlockTokens(s.cfg, all, s.Here()) == BlockTokens(s.cfg, all, from)
  {
    hide TablesFor, DeflateStream.Valid, TokensOf, EndOf, CursorOk, Reaches, BlockTokens;
    s.HereOk();
    var ts, e := TokensOf(InBody, s.cfg, s.input, s.Here()), EndOf(InBody, s.cfg, s.input, s.Here());
    var rest := all[|s.input|..];
    assert s.input + rest == all;
    ReachesAll(InBody, s.cfg, s.input, s.Here());
    ReachesTwice(InBody, s.cfg, s.input, from, s.tokens, s.Here(), ts, e);
    ReachesPrefix(s.cfg, s.input, rest, from, s.tokens + ts, e);
    ReachedBlock(s.cfg, all, from, s.tokens + ts, e);
    if s.input == all {
      ReachedBlock(s.cfg, all, from, s.tokens, s.Here());
    }
  }

  /** One call without a flush: more input, and a new output buffer. */
  method Feed(s: DeflateStream, piece: seq<Octet>, room: nat, ghost from: Cursor, ghost all: seq<Octet>)
    returns (sent: seq<Octet>)
    requires Feeding(s, from, all) && s.input + piece <= all && |all| < 0x1_0000_0000
    requires AllCoded(s.codes, BlockTokens(s.cfg, all, from))
    modifies s, s.bitbuf, s.head
    ensures Feeding(s, from, all) && s.input == old(s.input) + piece
    ensures s.start == old(s.start) && s.before == old(s.before) && s.delivered == old(s.delivered) + ByteBits(sent)
  {
    hide TablesFor, DeflateStream.Valid, TokensOf, CursorOk, AllCoded, Untouched, ByteBits, BlockTokens, Reaches;
    MoreInput(s, piece, from);
    NewRoom(s, room);
    StandsStill(s);
    FeedBody(s, from, all);
    sent := s.out[..s.nextOut];
    assert sent == s.out[..][0..s.nextOut];
  }

  method FeedBody(s: DeflateStream, ghost from: Cursor, ghost all: seq<Octet>)
    requires Feeding(s, from, all) && AllCoded(s.codes, BlockTokens(s.cfg, all, from))
    modifies s, s.bitbuf, s.out, s.head
    ensures Feeding(s, from, all) && Progress(old(s.Now()), s.Now(), s.out[..]) && s.out == old(s.out)
  {
    hide TablesFor, DeflateStream.Valid, TokensOf, CursorOk, AllCoded, Untouched, BlockTokens, Reaches, BodyGoesOn;
    FeedingPart(s, from, all);
    PrefixCoded(s.codes, s.tokens, TokensOf(InBody, s.cfg, s.input, s.Here()), BlockTokens(s.cfg, all, from));
    ghost var ts, c := s.tokens, s.Here();
    s.Body();
    ReachesTwice(InBody, s.cfg, s.input, from, ts, c, s.tokens[|ts|..], s.Here());
    assert s.tokens == ts + s.tokens[|ts|..];
  }

  lemma PrefixCoded(c: Codes, ts: seq<Token>, us: seq<Token>, all: seq<Token>)
    requires AllCoded(c, all) && ts + us <= all
    ensures AllCoded(c, us)
  {
    hide HasCode;
    assert all == ts + us + all[|ts + us|..];
    CodedParts(c, ts + us, all[|ts + us|..]);
    CodedParts(c, ts, us);
  }

  /** The input that comes in pieces. */
  function Joined(pieces: seq<(seq<Octet>, nat)>): (data: seq<Octet>) {
    if pieces == [] then [] else Joined(pieces[..|pieces| - 1]) + pieces[|pieces| - 1].0
  }

  /** Calls without a flush, each with more input and an output buffer. */
  method FeedAll(s: DeflateStream, pieces: seq<(seq<Octet>, nat)>, ghost from: Cursor, ghost all: seq<Octet>)
    returns (sent: seq<Octet>)
    requires Feeding(s, from, all) && s.input + Joined(pieces) <= all && |all| < 0x1_0000_0000
    requires AllCoded(s.codes, BlockTokens(s.cfg, all, from))
    modifies s, s.bitbuf, s.head
    ensures Feeding(s, from, all) && s.input == old(s.input) + Joined(pieces)
    ensures s.start == old(s.start) && s.before == old(s.before) && s.delivered == old(s.delivered) + ByteBits(sent)
  {
    hide Feeding, AllCoded, BlockTokens, ByteBits;
    sent := [];
    for i := 0 to |pieces|
      invariant Feeding(s, from, all) && s.input == old(s.input) + Joined(pieces[..i])
      invariant s.start == old(s.start) && s.before == old(s.before)
      invariant s.delivered == old(s.delivered) + ByteBits(sent)
    {
      NextPiece(pieces, i);
      var more := Feed(s, pieces[i].0, pieces[i].1, from, all);
      ByteBitsAppend(sent, more);
      sent := sent + more;
    }
    assert pieces[..|pieces|] == pieces;
  }

  lemma NextPiece(pieces: seq<(seq<Octet>, nat)>, i: nat)
    requires i < |pieces|
    ensures Joined(pieces[..i + 1]) == Joined(pieces[..i]) + pieces[i].0
    ensures Joined(pieces[..i + 1]) <= Joined(pieces)
    decreases |pieces| - i
  {
    assert pieces[..i + 1][..i] == pieces[..i];
    if i + 1 == |pieces| {
      assert pieces[..i + 1] == pieces;
    } else {
      NextPiece(pieces, i + 1);
    }
  }

  /** Encodes the rest of a block into output buffers of the given sizes, one pass for each.  The tokens
      do not depend on the sizes, and sizes of at least eight bytes lead to the end. */
  method Run(s: DeflateStream, rooms: seq<nat>) returns (sent: seq<Octet>)
    requires Encoding(s) && (s.endOfStream != 0 || s.flush != 0)
    modifies s, s.bitbuf, s.head
    ensures TablesFor(s.tables, s.codes) && s.Valid()
    ensures s.input == old(s.input) && s.start == old(s.start) && s.before == old(s.before)
    ensures s.delivered == old(s.delivered) + ByteBits(sent)
    ensures s.hasEob ==> s.nextIn == |s.input| && s.tokens == old(WholeBlock(s))
    ensures !s.hasEob ==> Encoding(s) && WholeBlock(s) == old(WholeBlock(s))
    ensures (forall r :: r in rooms ==> r >= 8) && |rooms| > old(s.availIn) ==> s.hasEob
  {
    hide TablesFor, DeflateStream.Valid, WholeBlock, Untouched, ByteBits, AllCoded, HasCode;
    sent := [];
    StandsStill(s);
    for i := 0 to |rooms|
      invariant Encoding(s) && WholeBlock(s) == old(WholeBlock(s)) && (s.endOfStream != 0 || s.flush != 0)
      invariant s.input == old(s.input) && s.start == old(s.start) && s.before == old(s.before)
      invariant s.delivered == old(s.delivered) + ByteBits(sent)
      invariant (forall r :: r in rooms ==> r >= 8) ==> s.nextIn >= old(s.nextIn) + i
    {
      assert rooms[i] in rooms;
      RoomKeepsBlock(s, rooms[i]);
      Pass(s);
      StandsStill(s);
      ByteBitsAppend(sent, s.out[..s.nextOut]);
      sent := sent + s.out[..s.nextOut];
      if s.hasEob { return; }
    }
    StandsStill(s);
  }

  method RoomKeepsBlock(s: DeflateStream, room: nat)
    requires Encoding(s)
    modifies s`out, s`nextOut, s`availOut
    ensures fresh(s.out) && s.nextOut == 0 && s.availOut == s.out.Length == room
    ensures Encoding(s) && WholeBlock(s) == old(WholeBlock(s))
  {
    hide TablesFor, AllCoded, HasCode, DeflateStream.Valid, BlockTokens, TokensOf;
    NewRoom(s, room);
  }

  // ----- a whole stream

  /** The hash table before the first byte of a stream whose memory is dict. */
  function FirstHead(cfg: Config, dict: seq<Octet>): (head: seq<nat>)
    requires cfg.origin <= |dict|
    ensures |head| == cfg.hashMask + 1
  {
    if dict == [] then ResetHead(cfg, |dict| - cfg.origin) else DictionaryHead(cfg, dict, |dict|, |dict|)
  }

  /** Without a dictionary it is as reset; with one it holds the last position for each hash. */
  lemma FirstHeadIs(cfg: Config, dict: seq<Octet>)
    requires cfg.origin <= |dict|
    ensures dict == [] ==> FirstHead(cfg, dict) == seq(cfg.hashMask + 1, _ => (|dict| - cfg.origin) % 65536)
    ensures dict != [] ==>
      Entered(cfg, dict, seq(cfg.hashMask + 1, _ => 65535), FirstHead(cfg, dict), 0, |dict| - 3, cfg.origin)
  {
    hide Entered, RememberUpTo;
    DictionaryEnters(cfg, dict, |dict|, |dict|);
  }

  /** What a caller with a dictionary must see to, if input was consumed before it. */
  predicate DictionarySafe(cfg: Config, dict: seq<Octet>)
    requires cfg.origin <= |dict|
  {
    dict == [] || ClearedSafe(cfg, |dict|) || 65535 !in FirstHead(cfg, dict)
  }

  /** Without input consumed before, there is nothing to see to. */
  lemma FreshDictionarySafe(cfg: Config, dict: seq<Octet>)
    requires cfg.origin == |dict|
    ensures DictionarySafe(cfg, dict)
  {
  }

  /** Exactly then the table is safe to start with. */
  lemma FirstHeadOk(cfg: Config, dict: seq<Octet>, data: seq<Octet>)
    requires ValidConfig(cfg) && cfg.origin <= |dict|
    ensures CursorOk(cfg, dict + data, Cursor(|dict|, FirstHead(cfg, dict))) <==> DictionarySafe(cfg, dict)
  {
    hide HashWithin, ResetHead, RememberUpTo, ClearedSafe;
    if dict == [] {
      ResetOk(cfg, |dict|, |dict| - cfg.origin, cfg.distMask);
    } else {
      DictionaryHashOk(cfg, dict, |dict|, |dict|);
    }
  }

  /** The tokens of a whole stream: a function of its parameters, its dictionary and its data alone. */
  ghost function StreamTokens(cfg: Config, dict: seq<Octet>, data: seq<Octet>): seq<Token>
    requires ValidConfig(cfg) && cfg.origin <= |dict| && DictionarySafe(cfg, dict)
  {
    FirstHeadOk(cfg, dict, data);
    BlockTokens(cfg, dict + data, Cursor(|dict|, FirstHead(cfg, dict)))
  }

  lemma StreamTokensAre(cfg: Config, dict: seq<Octet>, data: seq<Octet>)
    requires ValidConfig(cfg) && cfg.origin <= |dict| && DictionarySafe(cfg, dict)
    ensures CursorOk(cfg, dict + data, Cursor(|dict|, FirstHead(cfg, dict)))
    ensures StreamTokens(cfg, dict, data) == BlockTokens(cfg, dict + data, Cursor(|dict|, FirstHead(cfg, dict)))
  {
    hide BlockTokens, CursorOk, DictionarySafe, FirstHead;
    FirstHeadOk(cfg, dict, data);
  }

  /** A stream of equal bytes, whatever the hash function is: one literal, then matches of 258 bytes while
      at least 258 are left. */
  lemma EqualStream(cfg: Config, data: seq<Octet>, b: Octet)
    requires ValidConfig(cfg) && cfg.origin <= 0
    requires data != [] && forall p :: 0 <= p < |data| ==> data[p] == b
    ensures StreamTokens(cfg, [], data) == [Literal(b)] + RunBlock(b, |data| - 1, 1, cfg.distMask, cfg.limitHash)
    ensures cfg.distMask >= 258 ==> LongMatches(StreamTokens(cfg, [], data)[1..], |data| - 1, 1)
  {
    hide BlockTokens, CursorOk, RunBlock, LongMatches;
    assert [] + data == data;
    StreamTokensAre(cfg, [], data);
    EqualBytes(cfg, data, 0, b, -cfg.origin);
    if cfg.distMask >= 258 { BlockMatches(b, |data| - 1, 1, cfg.distMask, cfg.limitHash); }
  }

  /** Codes for the bytes of the data, the lengths and the distances of the window are enough. */
  lemma StreamCoded(cfg: Config, dict: seq<Octet>, data: seq<Octet>, codes: Codes)
    requires ValidConfig(cfg) && cfg.origin <= |dict| && DictionarySafe(cfg, dict)
    requires CodesFor(codes, cfg, dict + data, |dict|)
    ensures AllCoded(codes, StreamTokens(cfg, dict, data))
  {
    hide CursorOk, DictionarySafe, FirstHead, CodesFor, HasCode, StreamTokens, TokensOf, EndOf;
    StreamTokensAre(cfg, dict, data);
    var input, c := dict + data, Cursor(|dict|, FirstHead(cfg, dict));
    TokensCoded(InBody, cfg, input, c, codes);
    TokensCoded(FINISHING, cfg, input, EndOf(InBody, cfg, input, c), codes);
  }

  /** A stream that has written a block header and holds its dictionary in the hash table. */
  method StartStream(cfg: Config, tables: Tables, ghost codes: Codes, dict: seq<Octet>, hdrBits: nat, hdrCount: nat)
    returns (s: DeflateStream)
    requires TablesFor(tables, codes) && ValidConfig(cfg) && cfg.origin <= |dict| && DictionarySafe(cfg, dict)
    requires hdrBits < Pow2(hdrCount) && hdrCount <= 7 && |dict| < 0x1_0000_0000
    ensures fresh(s) && fresh(s.bitbuf) && fresh(s.head) && s.tables == tables && s.codes == codes && s.cfg == cfg
    ensures s.Valid() && !s.hasEob && s.state == ZBody && s.endOfStream == 0 && s.flush == 0
    ensures s.input == dict && s.start == |dict| && s.tokens == [] && s.delivered == []
    ensures s.before == NatBits(hdrBits, hdrCount) && s.Here() == Cursor(|dict|, FirstHead(cfg, dict))
  {
    hide TablesFor, DeflateStream.Valid, NatBits, Pow2, RememberUpTo, ResetHead, ClearedSafe;
    var out := new Octet[8];
    s := new DeflateStream(cfg, tables, codes, dict, |dict| - cfg.origin, [], out, 0, 8);
    assert dict + [] == dict;
    if dict != [] {
      UseDictionary(s, |dict|);
    }
    var done := s.EndHeader(hdrBits, hdrCount);
  }

  /** After the header bits, the output is that of complete tokens, which stand for the start of data. */
  ghost predicate DecodesToStart(c: Codes, bits: Bits01, dict: seq<Octet>, data: seq<Octet>)
    requires |c.lit| == 286 && |c.dist| == 30
  {
    exists n: nat :: n <= |data| && Decode(c, bits, dict) == Unfinished(dict + data[..n])
  }

  lemma StartFeeding(s: DeflateStream, from: Cursor, all: seq<Octet>)
    requires TablesFor(s.tables, s.codes) && s.Valid() && !s.hasEob && s.state == ZBody
    requires s.endOfStream == 0 && s.flush == 0 && s.input <= all && s.tokens == [] && from == s.Here()
    ensures Feeding(s, from, all)
  {
    hide TablesFor, DeflateStream.Valid, CursorOk;
    s.HereOk();
  }

  /** The last piece comes with the end of the stream. */
  method LastPiece(s: DeflateStream, last: seq<Octet>, ghost from: Cursor, ghost all: seq<Octet>)
    requires Feeding(s, from, all) && s.input + last == all && |all| < 0x1_0000_0000
    requires HasCode(s.codes, EndOfBlock) && AllCoded(s.codes, BlockTokens(s.cfg, all, from))
    modifies s`input, s`availIn, s`endOfStream
    ensures Encoding(s) && s.input == all && s.endOfStream == 1 && s.start + s.availIn <= |all|
    ensures WholeBlock(s) == BlockTokens(s.cfg, all, from)
  {
    hide TablesFor, DeflateStream.Valid, CursorOk, AllCoded, HasCode, BlockTokens, Reaches;
    MoreInput(s, last, from);
    FeedingPart(s, from, all);
    EndStream(s);
    InputLeft(s);
  }

  lemma InputLeft(s: DeflateStream)
    requires s.Valid()
    ensures s.start + s.availIn <= |s.input|
  {
    hide Spelled, CursorOk, NatBits, Pow2;
  }

  method EndStream(s: DeflateStream)
    requires s.Valid()
    modifies s`endOfStream
    ensures s.Valid() && s.endOfStream == 1
  {
    hide Covers, Spelled, CursorOk, NatBits, Pow2;
    s.endOfStream := 1;
  }

  /** Compresses data in one block: first pieces, each in a call without a flush and with its own output
      buffer, then the last piece with the end of the stream, into output buffers of the given sizes.
      After the header bits, what was sent and the few bits left decode to the data; they are the same
      however the input and the output are divided. */
  method Compress(cfg: Config, tables: Tables, ghost codes: Codes, dict: seq<Octet>, hdrBits: nat, hdrCount: nat,
                  pieces: seq<(seq<Octet>, nat)>, last: seq<Octet>, rooms: seq<nat>)
    returns (sent: seq<Octet>, bits: nat, count: nat, done: bool)
    requires TablesFor(tables, codes) && ValidConfig(cfg) && cfg.origin <= |dict| && DictionarySafe(cfg, dict)
    requires hdrBits < Pow2(hdrCount) && hdrCount <= 7 && |dict| + |Joined(pieces) + last| < 0x1_0000_0000
    requires AllCoded(codes, StreamTokens(cfg, dict, Joined(pieces) + last)) && HasCode(codes, EndOfBlock)
    ensures count <= 7
    ensures var data, hdr, output :=
        Joined(pieces) + last, NatBits(hdrBits, hdrCount), ByteBits(sent) + NatBits(bits, count);
      && hdr <= output
      && (done ==> Decode(codes, output[hdrCount..], dict) == Ended(dict + data, []))
      && (done ==> Spelled(codes, hdr, StreamTokens(cfg, dict, data) + [EndOfBlock], output))
      && (!done ==> DecodesToStart(codes, output[hdrCount..], dict, data))
    ensures (forall r :: r in rooms ==> r >= 8) && |rooms| > |Joined(pieces) + last| ==> done
  {
    hide TablesFor, ByteBits, NatBits, Decode, WholeBlock, Spelled, DeflateStream.Valid, StreamTokens, DecodesToStart;
    hide AllCoded, HasCode, Pow2, Feeding, DictionarySafe, Encoding, FirstHead, BlockTokens;
    SizedTables(tables, codes);
    ghost var data := Joined(pieces) + last;
    var s := StartStream(cfg, tables, codes, dict, hdrBits, hdrCount);
    ghost var from, all := s.Here(), dict + data;
    StreamTokensAre(cfg, dict, data);
    StartFeeding(s, from, all);
    var sent1 := FeedAll(s, pieces, from, all);
    LastPiece(s, last, from, all);
    var sent2 := Run(s, rooms);
    ByteBitsAppend(sent1, sent2);
    sent := sent1 + sent2;
    bits, count, done := s.bitbuf.mBits, s.bitbuf.mBitCount, s.hasEob;
    OutputIs(s, dict, data);
    assert OutputBits(s) == ByteBits(sent) + NatBits(bits, count);
  }

  /** The same without anything that follows. */
  lemma OutputDecodesAlone(s: DeflateStream)
    requires TablesFor(s.tables, s.codes) && s.Valid()
    ensures s.start <= s.nextIn <= |s.input| && s.before <= OutputBits(s)
    ensures Decode(s.codes, OutputBits(s)[|s.before|..], s.input[..s.start])
      == if s.hasEob then Ended(s.input[..s.nextIn], []) else Unfinished(s.input[..s.nextIn])
  {
    hide TablesFor, OutputBits, Decode, DeflateStream.Valid;
    SizedTables(s.tables, s.codes);
    OutputDecodes(s, []);
    DecodeNothing(s.codes, s.input[..s.nextIn]);
    assert OutputBits(s)[|s.before|..] + [] == OutputBits(s)[|s.before|..];
  }

  lemma OutputIs(s: DeflateStream, dict: seq<Octet>, data: seq<Octet>)
    requires TablesFor(s.tables, s.codes) && s.Valid() && |s.codes.lit| == 286 && |s.codes.dist| == 30
    requires s.input == dict + data && s.start == |dict| && (s.hasEob ==> s.nextIn == |s.input|)
    ensures s.bitbuf.mBitCount <= 7 && s.before <= OutputBits(s)
    ensures s.hasEob ==> Spelled(s.codes, s.before, s.tokens + [EndOfBlock], OutputBits(s))
    ensures s.hasEob ==> Decode(s.codes, OutputBits(s)[|s.before|..], dict) == Ended(dict + data, [])
    ensures !s.hasEob ==> DecodesToStart(s.codes, OutputBits(s)[|s.before|..], dict, data)
  {
    hide TablesFor, OutputBits, Decode, Spelled, DeflateStream.Valid;
    OutputSpelled(s);
    OutputDecodesAlone(s);
    SplitMemory(dict, data, s.nextIn);
  }

  lemma OutputSpelled(s: DeflateStream)
    requires s.Valid()
    ensures s.bitbuf.mBitCount <= 7 && Spelled(s.codes, s.before, s.Written(), OutputBits(s))
  {
    hide Spelled;
  }

  lemma SplitMemory(dict: seq<Octet>, data: seq<Octet>, n: nat)
    requires |dict| <= n <= |dict + data|
    ensures (dict + data)[..|dict|] == dict && (dict + data)[..n] == dict + data[..n - |dict|]
    ensures n == |dict + data| ==> (dict + data)[..n] == dict + data
  {
  }

  lemma DecodeNothing(c: Codes, out: seq<Octet>)
    requires |c.lit| == 286 && |c.dist| == 30
    ensures Decode(c, [], out) == Unfinished(out)
  {
  }
}
