/** The resumable level-0 encoder of igzip_base.c: isal_deflate_body_base and
    isal_deflate_finish_base on a stream whose output buffer may fill up at any token. */
module Encoder {
  import opened Bits
  import opened BitStream
  import opened BitBuffer
  import opened DeflateFormat
  import opened HuffmanTables
  import opened Matcher
  import opened Phases
  import opened Tokenizer

  datatype ZState = ZBody | ZFlushReadBuffer | ZSyncFlush | ZTrailer

  /** The tokens, expanded after the first start bytes of the input, give its first pos bytes. */
  ghost predicate Covers(ts: seq<Token>, input: seq<Octet>, start: nat, pos: nat) {
    && start <= pos <= |input|
    && (forall t :: t in ts ==> ValidToken(t))
    && Expandable(ts, input[..start]) && Expand(ts, input[..start]) == input[..pos]
  }

  lemma CoversMore(ts: seq<Token>, t: Token, input: seq<Octet>, start: nat, pos: nat, pos': nat)
    requires Covers(ts, input, start, pos) && pos <= pos' <= |input|
    requires ValidToken(t) && Expandable([t], input[..pos]) && Expand([t], input[..pos]) == input[..pos']
    ensures Covers(ts + [t], input, start, pos')
  {
    ExpandAppend(ts, [t], input[..start]);
  }

  /** A turn of either loop covers what it steps over. */
  lemma StepCovers(ts: seq<Token>, cfg: Config, input: seq<Octet>, start: nat, head: seq<nat>, pos: nat, max: nat,
                   slack: nat)
    requires Covers(ts, input, start, pos) && ValidConfig(cfg) && HashOk(cfg, head, pos) && StepFits(input, pos, max)
    ensures var s := NextStep(cfg, input, head, pos, max, slack);
      Covers(ts + [s.token], input, start, s.pos) && HashOk(cfg, s.head, s.pos) && s.pos <= |input|
  {
    hide NextStep, HashOk;
    NextStepSound(cfg, input, head, pos, max, slack);
    NextStepKeepsHash(cfg, input, head, pos, max, slack);
    var s := NextStep(cfg, input, head, pos, max, slack);
    CoversMore(ts, s.token, input, start, pos, s.pos);
  }

  /** After what was pending when the block began, the bits are those of the tokens. */
  ghost predicate Spelled(c: Codes, before: Bits01, ts: seq<Token>, bits: Bits01) {
    && AllCoded(c, ts)
    && bits == before + Encode(c, ts)
  }

  lemma SpelledMore(c: Codes, before: Bits01, ts: seq<Token>, t: Token, bits: Bits01, more: Bits01)
    requires Spelled(c, before, ts, bits) && HasCode(c, t) && more == TokenBits(c, t)
    ensures Spelled(c, before, ts + [t], bits + more)
  {
    hide TokenBits, HasCode, ValidToken;
    AllValid(c, ts);
    CodedValid(c, t);
    EncodeAppend(c, ts, [t]);
    OneToken(c, t);
    assert before + Encode(c, ts) + more == before + (Encode(c, ts) + more);
  }

  lemma CodedValid(c: Codes, t: Token)
    requires HasCode(c, t)
    ensures |c.lit| == 286 && |c.dist| == 30 && ValidToken(t)
  {
  }

  /** At its start, a block covers nothing. */
  lemma NothingYet(c: Codes, input: seq<Octet>, pos: nat, before: Bits01)
    requires |c.lit| == 286 && |c.dist| == 30 && pos <= |input|
    ensures Covers([], input, pos, pos) && Spelled(c, before, [], before)
    ensures [] + before == before
  {
  }

  /** Memory outside the part from lo up to hi is the same. */
  ghost predicate Untouched(before: seq<Octet>, after: seq<Octet>, lo: nat, hi: nat) {
    |before| == |after| && forall p :: 0 <= p < |before| && !(lo <= p < hi) ==> before[p] == after[p]
  }

  /** The visible state of a stream. */
  datatype Stand = Stand(input: seq<Octet>, start: nat, before: Bits01, endOfStream: nat, flush: nat, totalIn: nat,
                         availIn: nat, hasHist: bool, nextOut: nat, availOut: nat, totalOut: nat, delivered: Bits01)

  /** What a call of the encoder keeps: the parameters of the stream, the end of the input and of the
      output; and what is new in the output memory is what was delivered. */
  ghost predicate Progress(before: Stand, after: Stand, out: seq<Octet>) {
    && after.input == before.input && after.start == before.start && after.before == before.before
    && after.endOfStream == before.endOfStream && after.flush == before.flush
    && after.totalIn >= before.totalIn && after.totalIn + after.availIn == before.totalIn + before.availIn
    && after.hasHist == (before.hasHist || after.totalIn > before.totalIn)
    && before.nextOut <= after.nextOut <= |out|
    && after.nextOut + after.availOut == before.nextOut + before.availOut
    && after.delivered == before.delivered + ByteBits(out[before.nextOut..after.nextOut])
    && after.totalOut == Add32(before.totalOut, after.nextOut - before.nextOut)
  }

  lemma UntouchedSame(a: seq<Octet>, lo: nat, hi: nat)
    ensures Untouched(a, a, lo, hi)
  {
  }

  lemma UntouchedTwice(a: seq<Octet>, b: seq<Octet>, c: seq<Octet>, lo: nat, hi: nat)
    requires Untouched(a, b, lo, hi) && Untouched(b, c, lo, hi)
    ensures Untouched(a, c, lo, hi)
  {
  }

  class DeflateStream {
    // struct isal_zstream: the input, as the memory up to its end
    var input: seq<Octet>
    var nextIn: nat
    var availIn: nat
    var totalIn: nat
    // and the output
    var out: array<Octet>
    var nextOut: nat
    var availOut: nat
    var totalOut: nat
    var endOfStream: nat
    var flush: nat
    const tables: Tables
    // struct isal_zstate
    const cfg: Config
    const head: array<nat>
    const bitbuf: BitBuf2
    var hasHist: bool
    var hasEob: bool
    var state: ZState
    // what has been encoded so far in this block, which began at input position start, with the last
    // bits of its header pending
    ghost const codes: Codes
    ghost var start: nat
    ghost var before: Bits01
    ghost var tokens: seq<Token>
    ghost var delivered: Bits01

    /** A stream that has taken up total bytes of input, with the hash table reset and nothing pending.
        Memory may hold history or a dictionary before the input. */
    constructor (cfg: Config, tables: Tables, ghost codes: Codes, memory: seq<Octet>, total: nat, data: seq<Octet>,
                 out: array<Octet>, nextOut: nat, availOut: nat)
      requires TablesFor(tables, codes) && ValidConfig(cfg) && cfg.origin + total == |memory|
      requires |memory| + |data| < 0x1_0000_0000 && nextOut + availOut <= out.Length
      ensures Valid() && !hasEob && fresh(head) && fresh(bitbuf)
      ensures this.cfg == cfg && this.tables == tables && this.codes == codes && this.out == out
      ensures Now() == Stand(memory + data, |memory|, [], 0, 0, total, |data|, false, nextOut, availOut, 0, [])
      ensures nextIn == |memory| && tokens == [] && state == ZBody
      ensures bitbuf.mBitCount == 0 && head[..] == ResetHead(cfg, total)
    {
      hide TablesFor, HashWithin, Pow2, Covers, Spelled, NatBits;
      this.cfg, this.tables, this.codes := cfg, tables, codes;
      this.input, this.nextIn, this.availIn, this.totalIn := memory + data, |memory|, |data|, total;
      this.out, this.nextOut, this.availOut, this.totalOut := out, nextOut, availOut, 0;
      endOfStream, flush := 0, 0;
      head := new nat[cfg.hashMask + 1](_ => total % 65536);
      bitbuf := new BitBuf2.Init(out);
      hasHist, hasEob, state := false, false, ZBody;
      start, before, tokens, delivered := |memory|, [], [], [];
      new;
      assert head[..] == ResetHead(cfg, total);
      ResetOk(cfg, |memory|, total, cfg.distMask);
      SizedTables(tables, codes);
      NothingYet(codes, memory + data, |memory|, []);
      NoBits(bitbuf.mBits);
    }

    ghost predicate Wired()
      reads this
    {
      && out as object != head && nextOut + availOut <= out.Length && |input| < 0x1_0000_0000
    }

    /** Between calls: everything up to nextIn is encoded, in the bytes delivered and the pending
        bits. */
    ghost predicate Valid()
      reads this, bitbuf, head
    {
      && Wired()
      && nextIn == cfg.origin + totalIn && nextIn + availIn == |input| && totalOut < 0x1_0000_0000
      && bitbuf.mBits < Pow2(bitbuf.mBitCount) && bitbuf.mBitCount <= 7
      && CursorOk(cfg, input, Here())
      && Covers(tokens, input, start, nextIn)
      && Spelled(codes, before, Written(), delivered + NatBits(bitbuf.mBits, bitbuf.mBitCount))
    }

    /** Where in the input the stream stands between calls, and its hash table. */
    ghost function Here(): Cursor
      reads this`nextIn, head
    {
      Cursor(nextIn, head[..])
    }

    /** The tokens written so far, with the end-of-block once it is written. */
    ghost function Written(): seq<Token>
      reads this`hasEob, this`tokens
    {
      if hasEob then tokens + [EndOfBlock] else tokens
    }

    /** Inside a call, output goes where the caller provided room. */
    ghost predicate Open()
      reads this, bitbuf, bitbuf.buf
    {
      && Wired()
      && bitbuf.buf == out && bitbuf.Settled()
      && bitbuf.mOutStart == nextOut && bitbuf.mOutEnd == nextOut + availOut - 8
      && bitbuf.mOutBuf <= nextOut + availOut
    }

    /** The output, delivered and pending, is the encoding of the tokens. */
    ghost predicate Writing()
      reads this, bitbuf, bitbuf.buf
    {
      Open() && Spelled(codes, before, Written(), delivered + bitbuf.Stream())
    }

    /** Inside a call, with everything up to pos encoded. */
    ghost predicate At(pos: nat)
      reads this, bitbuf, bitbuf.buf, head
    {
      && Writing() && pos <= |input|
      && CursorOk(cfg, input, Cursor(pos, head[..]))
      && Covers(tokens, input, start, pos)
    }

    /** Appends one code to the output, as the bits of token t. */
    method Put(code: Code, ghost t: Token)
      requires TablesFor(tables, codes) && Writing() && !hasEob && !bitbuf.IsFull()
      requires HasCode(codes, t) && Spells(code, TokenBits(codes, t)) && code.length <= 48
      modifies bitbuf`mBits, bitbuf`mBitCount, bitbuf`mOutBuf, out
      ensures Open() && Spelled(codes, before, tokens + [t], delivered + bitbuf.Stream())
      ensures Untouched(old(out[..]), out[..], nextOut, nextOut + availOut)
    {
      hide TokenBits, TablesFor, NatBits, Pow2, Spelled, ValidToken, HasCode;
      SizedTables(tables, codes);
      CodedValid(codes, t);
      ghost var bits := bitbuf.Stream();
      bitbuf.WriteBits(code.bits, code.length);
      SpelledMore(codes, before, tokens, t, delivered + bits, TokenBits(codes, t));
      assert delivered + bits + TokenBits(codes, t) == delivered + (bits + TokenBits(codes, t));
    }

    /** Appends a literal. */
    method PutLiteral(p: nat)
      requires TablesFor(tables, codes) && Writing() && !hasEob && !bitbuf.IsFull()
      requires p < |input| && HasCode(codes, Literal(input[p]))
      modifies this`tokens, bitbuf`mBits, bitbuf`mBitCount, bitbuf`mOutBuf, out
      ensures Writing() && tokens == old(tokens) + [Literal(input[p])]
      ensures Untouched(old(out[..]), out[..], nextOut, nextOut + availOut)
    {
      hide TablesFor, NatBits, Pow2, Spelled, Spells;
      SizedTables(tables, codes);
      ghost var t := Literal(input[p]);
      LitCodeSpells(tables, codes, input[p]);
      Put(GetLitCode(tables, input[p]), t);
      tokens := tokens + [t];
    }

    /** Appends a match as one code: length, then distance. */
    method PutMatch(length: nat, dist: nat)
      requires TablesFor(tables, codes) && Writing() && !hasEob && !bitbuf.IsFull()
      requires HasCode(codes, Match(length, dist))
      modifies this`tokens, bitbuf`mBits, bitbuf`mBitCount, bitbuf`mOutBuf, out
      ensures Writing() && tokens == old(tokens) + [Match(length, dist)]
      ensures Untouched(old(out[..]), out[..], nextOut, nextOut + availOut)
    {
      hide TokenBits, TablesFor, NatBits, Pow2, Spelled, Spells, GetLenCode, GetDistCode;
      SizedTables(tables, codes);
      ghost var t := Match(length, dist);
      MatchCodeSpells(tables, codes, length, dist);
      var code, code2 := GetLenCode(tables, length), GetDistCode(tables, dist);
      var joined := Code(Or(code.bits, Shl64(code2.bits, code.length)), code.length + code2.length);
      assert joined == MatchCode(tables, length, dist);
      Put(joined, t);
      tokens := tokens + [t];
    }

    /** Asks the hash table for a distance at p, and enters p. */
    method LookUp(p: nat) returns (dist: nat)
      requires head.Length > cfg.hashMask && p + 4 <= |input|
      modifies head
      ensures dist == Proposed(cfg, input, old(head[..]), p)
      ensures head[..] == Remember(cfg, input, old(head[..]), p)
    {
      hide HashAt;
      var hash := HashAt(cfg, input, p);
      dist := (p - cfg.origin - head[hash]) % 65536;
      ghost var before := head[..];
      head[hash] := Low16(cfg, p);
      assert head[..] == before[hash := Low16(cfg, p)];
    }

    /** Enters the positions from p up to limit into the hash table. */
    method UpdateHash(p: nat, limit: int)
      requires head.Length > cfg.hashMask && limit + 3 <= |input|
      modifies head
      ensures head[..] == RememberUpTo(cfg, input, old(head[..]), p, limit)
      ensures Entered(cfg, input, old(head[..]), head[..], p, limit, cfg.origin)
    {
      hide HashAt, Entered;
      RememberUpToEnters(cfg, input, head[..], p, limit);
      ghost var all := RememberUpTo(cfg, input, head[..], p, limit);
      var nextHash := p;
      while nextHash < limit
        invariant RememberUpTo(cfg, input, head[..], nextHash, limit) == all
        decreases limit - nextHash
      {
        var hash := HashAt(cfg, input, nextHash);
        ghost var before := head[..];
        head[hash] := Low16(cfg, nextHash);
        assert head[..] == before[hash := Low16(cfg, nextHash)];
        nextHash := nextHash + 1;
      }
    }

    /** Finds the token at p and brings the hash table up to date. */
    method FindToken(p: nat, max: nat, slack: nat) returns (length: nat, dist: nat)
      requires Wired() && ValidConfig(cfg) && HashOk(cfg, head[..], p) && NextStepFits(input, p, max, slack)
      modifies head
      ensures length == 0 || (SHORTEST_MATCH <= length <= 258 && 1 <= dist <= 32768)
      ensures HashOk(cfg, old(head[..]), p)
      ensures NextStep(cfg, input, old(head[..]), p, max, slack)
        == if length > 0 then Step(Match(length, dist), p + length, head[..])
           else Step(Literal(input[p]), p + 1, head[..])
      ensures TokenByRule(cfg, input, p, (p - cfg.origin - old(head[..])[HashAt(cfg, input, p)]) % 65536, max,
                          if length > 0 then Match(length, dist) else Literal(input[p]))
    {
      hide TablesFor, HashOk, HashAt, Remember, RememberUpTo, MatchLength, Proposed, TokenByRule;
      HashOkSize(cfg, head[..], p);
      NextStepTakes(cfg, input, head[..], p, max, slack);
      ghost var before := head[..];
      dist := LookUp(p);
      length := 0;
      if 1 <= dist <= cfg.distMask {
        ProposedWithinInput(cfg, input, before, p);
        var matchLength := Compare258(input, p - dist, p, max);
        MatchLengthUnique(input, p - dist, p, max, matchLength);
        if matchLength >= SHORTEST_MATCH {
          length := matchLength;
          var end := p + (if cfg.limitHash then 3 else matchLength);
          UpdateHash(p + 1, end - slack);
        }
      }
    }

    /** One turn of either encoding loop: a match if the hash table proposes one, else a literal. */
    method EncodeOne(p: nat, max: nat, slack: nat) returns (q: nat)
      requires TablesFor(tables, codes) && At(p) && !hasEob && !bitbuf.IsFull() && NextStepFits(input, p, max, slack)
      requires HasCode(codes, NextStep(cfg, input, head[..], p, max, slack).token)
      modifies this`tokens, bitbuf`mBits, bitbuf`mBitCount, bitbuf`mOutBuf, out, head
      ensures At(q) && HashOk(cfg, old(head[..]), p)
      ensures var s := NextStep(cfg, input, old(head[..]), p, max, slack);
        q == s.pos && head[..] == s.head && tokens == old(tokens) + [s.token]
      ensures Untouched(old(out[..]), out[..], nextOut, nextOut + availOut)
    {
      hide TablesFor, HashOk, Covers, Spelled, NextStep, Written, Untouched, ValidToken, Expandable, HasCode;
      ghost var earlier := head[..];
      StepCovers(tokens, cfg, input, start, earlier, p, max, slack);
      var length, dist := FindToken(p, max, slack);
      if length > 0 {
        PutMatch(length, dist);
        q := p + length;
      } else {
        PutLiteral(p);
        q := p + 1;
      }
    }

    /** Where the stream stands. */
    ghost function Now(): Stand
      reads this`input, this`start, this`before, this`endOfStream, this`flush, this`totalIn, this`availIn
      reads this`hasHist, this`nextOut, this`availOut, this`totalOut, this`delivered
    {
      Stand(input, start, before, endOfStream, flush, totalIn, availIn, hasHist, nextOut, availOut, totalOut, delivered)
    }

    /** Moves past the input up to next and past the bytes written. */
    method Advance(startIn: nat, next: nat, endIn: nat, bytesWritten: nat, ghost sent: Bits01)
      requires startIn <= next <= endIn && bytesWritten <= availOut
      modifies this`nextIn, this`availIn, this`totalIn, this`hasHist
      modifies this`nextOut, this`availOut, this`totalOut, this`delivered
      ensures hasHist == (old(hasHist) || next > startIn)
      ensures nextIn == next && totalIn == old(totalIn) + (next - startIn) && availIn == endIn - next
      ensures totalOut == Add32(old(totalOut), bytesWritten)
      ensures nextOut == old(nextOut) + bytesWritten && availOut == old(availOut) - bytesWritten
      ensures delivered == old(delivered) + sent
    {
      if next > startIn {
        hasHist := true;
      }
      nextIn := next;
      totalIn := totalIn + (next - startIn);
      availIn := endIn - next;
      totalOut := Add32(totalOut, bytesWritten);
      nextOut := nextOut + bytesWritten;
      availOut := availOut - bytesWritten;
      delivered := delivered + sent;
    }

    lemma HereOk()
      requires Valid()
      ensures CursorOk(cfg, input, Here()) && nextIn + availIn == |input|
    {
      hide CursorOk;
    }

    /** Takes up progress after a call (update_state), and keeps what was written. */
    method UpdateState(startIn: nat, next: nat, endIn: nat)
      requires At(next) && startIn == nextIn == cfg.origin + totalIn
      requires nextIn <= next <= endIn == nextIn + availIn == |input|
      modifies this`nextIn, this`availIn, this`totalIn, this`hasHist
      modifies this`nextOut, this`availOut, this`totalOut, this`delivered
      ensures Valid() && Progress(old(Now()), Now(), out[..])
      ensures nextIn == next && nextIn + availIn == endIn
      ensures nextOut == bitbuf.mOutBuf && nextOut + availOut == old(nextOut) + old(availOut)
    {
      hide Add32, At, Open, Writing, Written, Covers, CursorOk, Spelled, TablesFor, ValidConfig;
      hide NatBits, ByteBits, Pow2;
      SentAndPending(next);
      assert out[nextOut..bitbuf.mOutBuf] == out[..][nextOut..bitbuf.mOutBuf];
      Advance(startIn, next, endIn, bitbuf.BufferUsed(), ByteBits(out[nextOut..bitbuf.mOutBuf]));
    }

    /** What has been written is in the bytes used and the pending bits. */
    lemma SentAndPending(pos: nat)
      requires At(pos)
      ensures out as object != head && |input| < 0x1_0000_0000
      ensures bitbuf.BufferUsed() == bitbuf.mOutBuf - nextOut && nextOut <= bitbuf.mOutBuf <= nextOut + availOut
      ensures nextOut + availOut <= out.Length
      ensures bitbuf.mBits < Pow2(bitbuf.mBitCount) && bitbuf.mBitCount <= 7
      ensures CursorOk(cfg, input, Cursor(pos, head[..])) && Covers(tokens, input, start, pos)
      ensures Spelled(codes, before, Written(),
        delivered + ByteBits(out[nextOut..bitbuf.mOutBuf]) + NatBits(bitbuf.mBits, bitbuf.mBitCount))
    {
      hide Spelled, Covers, CursorOk, NatBits, ByteBits, Pow2;
      assert delivered + bitbuf.Stream()
        == delivered + ByteBits(out[nextOut..bitbuf.mOutBuf]) + NatBits(bitbuf.mBits, bitbuf.mBitCount);
    }

    lemma NoRoom(pos: nat)
      requires At(pos)
      ensures bitbuf.IsFull() == (nextOut + availOut - bitbuf.mOutBuf < 8)
    {
    }

    /** Directs the bit buffer to the room that the caller provides. */
    method Begin()
      requires Valid()
      modifies bitbuf
      ensures At(nextIn) && CursorOk(cfg, input, Here())
      ensures nextIn + availIn == |input| && nextIn == cfg.origin + totalIn && bitbuf.IsFull() == (availOut < 8)
    {
      hide TablesFor, NatBits, ByteBits, Pow2, Covers, CursorOk, Spelled;
      bitbuf.SetBuf(out, nextOut, availOut);
    }

    /** The end of write_header: the last bits of the block header, fewer than eight, go to the bit
        buffer, and the block begins.  An earlier block has been ended and flushed to a byte. */
    method EndHeader(hdrExtraBits: nat, extraBitsCount: nat) returns (done: bool)
      requires TablesFor(tables, codes) && Valid() && bitbuf.mBitCount == 0
      requires hdrExtraBits < Pow2(extraBitsCount) && extraBitsCount <= 7
      modifies this`state, this`hasEob, this`start, this`before, this`tokens, this`delivered, bitbuf, out
      ensures Valid() && done == (availOut >= 8)
      ensures done ==> tokens == [] && !hasEob && state == ZBody && start == nextIn
      ensures done ==> before == NatBits(bitbuf.mBits, bitbuf.mBitCount) == NatBits(hdrExtraBits, extraBitsCount)
      ensures done ==> delivered == []
      ensures !done ==> Now() == old(Now()) && tokens == old(tokens) && hasEob == old(hasEob) && state == old(state)
      ensures Untouched(old(out[..]), out[..], nextOut, nextOut + availOut)
    {
      hide Valid, TablesFor, NatBits, Pow2, Untouched, Now;
      done := availOut >= 8;
      if done {
        BeginBlock(hdrExtraBits, extraBitsCount);
      } else {
        UntouchedSame(out[..], nextOut, nextOut + availOut);
      }
    }

    method BeginBlock(hdrExtraBits: nat, extraBitsCount: nat)
      requires TablesFor(tables, codes) && Valid() && bitbuf.mBitCount == 0 && availOut >= 8
      requires hdrExtraBits < Pow2(extraBitsCount) && extraBitsCount <= 7
      modifies this`state, this`hasEob, this`start, this`before, this`tokens, this`delivered, bitbuf, out
      ensures Valid() && tokens == [] && !hasEob && state == ZBody && start == nextIn && delivered == []
      ensures before == NatBits(bitbuf.mBits, bitbuf.mBitCount) == NatBits(hdrExtraBits, extraBitsCount)
      ensures Untouched(old(out[..]), out[..], nextOut, nextOut + availOut)
    {
      hide TablesFor, NatBits, ByteBits, Pow2, Covers, HashWithin, Spelled, Untouched;
      ghost var bits := NatBits(hdrExtraBits, extraBitsCount);
      SizedTables(tables, codes);
      NothingYet(codes, input, nextIn, bits);
      PutHeader(hdrExtraBits, extraBitsCount);
      state, hasEob := ZBody, false;
      start, before, tokens, delivered := nextIn, bits, [], [];
    }

    method PutHeader(hdrExtraBits: nat, extraBitsCount: nat)
      requires Wired() && availOut >= 8 && bitbuf.mBitCount == 0 && bitbuf.mBits < Pow2(0)
      requires hdrExtraBits < Pow2(extraBitsCount) && extraBitsCount <= 7
      modifies bitbuf, out
      ensures bitbuf.mBits < Pow2(bitbuf.mBitCount) && bitbuf.mBitCount <= 7
      ensures NatBits(bitbuf.mBits, bitbuf.mBitCount) == NatBits(hdrExtraBits, extraBitsCount)
      ensures Untouched(old(out[..]), out[..], nextOut, nextOut + availOut)
    {
      hide NatBits, ByteBits, Pow2;
      bitbuf.SetBuf(out, nextOut, availOut);
      NoBits(bitbuf.mBits);
      bitbuf.WriteBits(hdrExtraBits, extraBitsCount);
      assert |bitbuf.Stream()| == extraBitsCount;
      assert bitbuf.Stream() == NatBits(bitbuf.mBits, bitbuf.mBitCount);
    }

    method LeaveBody()
      requires Valid()
      modifies this`state
      ensures Valid() && Now() == old(Now())
      ensures state == if endOfStream != 0 || flush != 0 then ZFlushReadBuffer else old(state)
    {
      hide Covers, CursorOk, Spelled, NatBits, Pow2;
      if endOfStream != 0 || flush != 0 {
        state := ZFlushReadBuffer;
      }
    }

    /** The loop of isal_deflate_body_base. */
    method BodyLoop(startIn: nat, endIn: nat) returns (next: nat, full: bool)
      requires TablesFor(tables, codes) && At(startIn) && !hasEob && startIn <= endIn == |input|
      requires CursorOk(cfg, input, Cursor(startIn, head[..]))
      requires AllCoded(codes, TokensOf(InBody, cfg, input, Cursor(startIn, head[..])))
      modifies this`tokens, bitbuf`mBits, bitbuf`mBitCount, bitbuf`mOutBuf, out, head
      ensures At(next) && startIn <= next <= endIn
      ensures Runs(InBody, cfg, input, old(Cursor(startIn, head[..])), old(tokens), Cursor(next, head[..]), tokens)
      ensures full == BodyGoesOn(next, endIn) && (full ==> bitbuf.IsFull())
      ensures bitbuf.IsFull() == (nextOut + availOut - bitbuf.mOutBuf < 8)
      ensures next == startIn ==> bitbuf.IsFull() == old(bitbuf.IsFull())
      ensures Untouched(old(out[..]), out[..], nextOut, nextOut + availOut)
    {
      hide At, CursorOk, TokensOf, BodyGoesOn, Wired, Open, Writing, TablesFor, NextStep, HashWithin, Untouched;
      hide Runs, AllCoded, HasCode;
      next, full := startIn, false;
      UntouchedSame(out[..], nextOut, nextOut + availOut);
      RunsNone(InBody, cfg, input, Cursor(startIn, head[..]), tokens);
      while BodyGoesOn(next, endIn)
        invariant At(next) && startIn <= next <= endIn
        invariant Untouched(old(out[..]), out[..], nextOut, nextOut + availOut)
        invariant CursorOk(cfg, input, Cursor(next, head[..]))
        invariant next == startIn ==> bitbuf.IsFull() == old(bitbuf.IsFull())
        invariant Runs(InBody, cfg, input, old(Cursor(startIn, head[..])), old(tokens), Cursor(next, head[..]), tokens)
        invariant AllCoded(codes, TokensOf(InBody, cfg, input, Cursor(next, head[..])))
        decreases endIn - next
      {
        if bitbuf.IsFull() {
          NoRoom(next);
          return next, true;
        }
        BodyTurn(next);
        NextCoded(InBody, cfg, input, Cursor(next, head[..]), codes);
        RunsMore(InBody, cfg, input, old(Cursor(startIn, head[..])), old(tokens), Cursor(next, head[..]), tokens);
        ghost var between := out[..];
        next := EncodeOne(next, 258, 0);
        UntouchedTwice(old(out[..]), between, out[..], nextOut, nextOut + availOut);
      }
      NoRoom(next);
    }

    lemma BodyTurn(p: nat)
      requires CursorOk(cfg, input, Cursor(p, head[..])) && BodyGoesOn(p, |input|)
      ensures NextStepFits(input, p, 258, 0)
      ensures ValidConfig(cfg) && HashOk(cfg, head[..], p) && GoesOn(InBody, p, |input|)
      ensures TurnOf(InBody, cfg, input, Cursor(p, head[..])) == NextStep(cfg, input, head[..], p, 258, 0)
    {
      hide NextStep, HashWithin;
    }

    /** Encodes into the output, and takes up the progress. */
    method EncodeBody() returns (full: bool)
      requires TablesFor(tables, codes) && Valid() && !hasEob
      requires AllCoded(codes, TokensOf(InBody, cfg, input, Here()))
      modifies this`nextIn, this`availIn, this`totalIn, this`hasHist
      modifies this`nextOut, this`availOut, this`totalOut, this`delivered, this`tokens, bitbuf, out, head
      ensures Valid() && Progress(old(Now()), Now(), out[..])
      ensures Untouched(old(out[..]), out[..], old(nextOut), old(nextOut) + old(availOut))
      ensures Runs(InBody, cfg, input, old(Here()), old(tokens), Here(), tokens)
      ensures full == BodyGoesOn(nextIn, |input|)
      ensures full ==> availOut < 8
      ensures nextIn == old(nextIn) ==> (availOut < 8) == (old(availOut) < 8)
    {
      hide Progress, Now, At, Valid, CursorOk, TokensOf, BodyGoesOn, Wired, Open, Writing, Pow2, NatBits, ByteBits;
      hide TablesFor, Untouched, Runs, AllCoded;
      HereOk();
      Begin();
      var startIn, endIn := nextIn, nextIn + availIn;
      var next;
      next, full := BodyLoop(startIn, endIn);
      UpdateState(startIn, next, endIn);
    }

    /** isal_deflate_body_base: encodes while a full look-ahead is left, or until the output is full,
        in which case the next call goes on with the same tokens. */
    method Body()
      requires TablesFor(tables, codes) && Valid() && !hasEob
      requires AllCoded(codes, TokensOf(InBody, cfg, input, Here()))
      modifies this`nextIn, this`availIn, this`totalIn, this`hasHist
      modifies this`nextOut, this`availOut, this`totalOut, this`delivered, this`tokens, this`state, bitbuf, out, head
      ensures Valid() && Progress(old(Now()), Now(), out[..])
      ensures Untouched(old(out[..]), out[..], old(nextOut), old(nextOut) + old(availOut))
      ensures Runs(InBody, cfg, input, old(Here()), old(tokens), Here(), tokens)
      ensures nextIn + 288 < |input| ==> availOut < 8 && state == old(state)
      ensures nextIn + 288 >= |input| ==>
        state == if endOfStream != 0 || flush != 0 then ZFlushReadBuffer else old(state)
      ensures nextIn == old(nextIn) ==> (availOut < 8) == (old(availOut) < 8)
    {
      hide Progress, Now, At, Valid, CursorOk, TokensOf, Wired, Open, Writing, Pow2, NatBits, ByteBits;
      hide TablesFor, Untouched, Runs, AllCoded;
      if availIn == 0 {
        Idle();
      } else {
        var full := EncodeBody();
        if full { return; }
      }
      LeaveBody();
    }

    lemma Idle()
      requires Valid() && availIn == 0
      ensures Runs(InBody, cfg, input, Here(), tokens, Here(), tokens)
      ensures !BodyGoesOn(nextIn, |input|)
      ensures Progress(Now(), Now(), out[..])
      ensures Untouched(out[..], out[..], nextOut, nextOut + availOut)
    {
      hide Covers, CursorOk, Spelled, Pow2, NatBits, Runs;
      RunsNone(InBody, cfg, input, Here(), tokens);
    }

    /** The loops of isal_deflate_finish_base: with the hash table while four bytes are left, then
        literals. */
    method FinishLoops(startIn: nat, endIn: nat) returns (next: nat, full: bool)
      requires TablesFor(tables, codes) && At(startIn) && !hasEob && startIn <= endIn == |input|
      requires CursorOk(cfg, input, Cursor(startIn, head[..]))
      requires AllCoded(codes, TokensOf(FINISHING, cfg, input, Cursor(startIn, head[..])))
      modifies this`tokens, bitbuf`mBits, bitbuf`mBitCount, bitbuf`mOutBuf, out, head
      ensures At(next) && startIn <= next <= endIn
      ensures Runs(FINISHING, cfg, input, old(Cursor(startIn, head[..])), old(tokens), Cursor(next, head[..]), tokens)
      ensures full == (next < endIn) && (full ==> bitbuf.IsFull())
      ensures next == startIn ==> bitbuf.IsFull() == old(bitbuf.IsFull())
      ensures Untouched(old(out[..]), out[..], nextOut, nextOut + availOut)
    {
      hide At, CursorOk, TokensOf, Wired, Open, Writing, TablesFor, NextStep, HashWithin, Untouched;
      hide Runs, AllCoded, HasCode;
      next, full := startIn, false;
      UntouchedSame(out[..], nextOut, nextOut + availOut);
      ghost var from, made := Cursor(startIn, head[..]), tokens;
      RunsNone(FINISHING, cfg, input, from, tokens);
      while FinishMatches(next, endIn)
        invariant At(next) && startIn <= next <= endIn
        invariant Untouched(old(out[..]), out[..], nextOut, nextOut + availOut)
        invariant CursorOk(cfg, input, Cursor(next, head[..]))
        invariant next == startIn ==> bitbuf.IsFull() == old(bitbuf.IsFull())
        invariant Runs(FINISHING, cfg, input, from, made, Cursor(next, head[..]), tokens)
        invariant AllCoded(codes, TokensOf(FINISHING, cfg, input, Cursor(next, head[..])))
        decreases endIn - next
      {
        if bitbuf.IsFull() { return next, true; }
        FinishTurn(next);
        NextCoded(FINISHING, cfg, input, Cursor(next, head[..]), codes);
        RunsMore(FINISHING, cfg, input, from, made, Cursor(next, head[..]), tokens);
        ghost var between := out[..];
        next := EncodeOne(next, AtMost258(endIn - next), FINISHING.slack);
        UntouchedTwice(old(out[..]), between, out[..], nextOut, nextOut + availOut);
      }
      ghost var between := out[..];
      next, full := FinishLiterals(next, endIn, from, made);
      UntouchedTwice(old(out[..]), between, out[..], nextOut, nextOut + availOut);
    }

    lemma FinishTurn(p: nat)
      requires CursorOk(cfg, input, Cursor(p, head[..])) && FinishMatches(p, |input|)
      ensures var max := AtMost258(|input| - p);
        && NextStepFits(input, p, max, 3)
        && ValidConfig(cfg) && HashOk(cfg, head[..], p) && GoesOn(FINISHING, p, |input|)
        && TurnOf(FINISHING, cfg, input, Cursor(p, head[..])) == NextStep(cfg, input, head[..], p, max, 3)
    {
      hide NextStep, HashWithin;
    }

    method FinishLiterals(startIn: nat, endIn: nat, ghost from: Cursor, ghost made: seq<Token>)
      returns (next: nat, full: bool)
      requires TablesFor(tables, codes) && At(startIn) && !hasEob
      requires startIn <= endIn == |input| && !FinishMatches(startIn, endIn)
      requires CursorOk(cfg, input, Cursor(startIn, head[..]))
      requires Runs(FINISHING, cfg, input, from, made, Cursor(startIn, head[..]), tokens)
      requires AllCoded(codes, TokensOf(FINISHING, cfg, input, Cursor(startIn, head[..])))
      modifies this`tokens, bitbuf`mBits, bitbuf`mBitCount, bitbuf`mOutBuf, out
      ensures At(next) && startIn <= next <= endIn
      ensures Runs(FINISHING, cfg, input, from, made, Cursor(next, head[..]), tokens)
      ensures full == (next < endIn) && (full ==> bitbuf.IsFull())
      ensures next == startIn ==> bitbuf.IsFull() == old(bitbuf.IsFull())
      ensures Untouched(old(out[..]), out[..], nextOut, nextOut + availOut)
    {
      hide At, CursorOk, TokensOf, Wired, Open, Writing, TablesFor, NextStep, HashWithin, Untouched;
      hide Runs, AllCoded, HasCode;
      next, full := startIn, false;
      UntouchedSame(out[..], nextOut, nextOut + availOut);
      while next < endIn
        invariant At(next) && startIn <= next <= endIn
        invariant Untouched(old(out[..]), out[..], nextOut, nextOut + availOut)
        invariant CursorOk(cfg, input, Cursor(next, head[..]))
        invariant next == startIn ==> bitbuf.IsFull() == old(bitbuf.IsFull())
        invariant Runs(FINISHING, cfg, input, from, made, Cursor(next, head[..]), tokens)
        invariant AllCoded(codes, TokensOf(FINISHING, cfg, input, Cursor(next, head[..])))
      {
        if bitbuf.IsFull() { return next, true; }
        NextCoded(FINISHING, cfg, input, Cursor(next, head[..]), codes);
        RunsMore(FINISHING, cfg, input, from, made, Cursor(next, head[..]), tokens);
        ghost var between := out[..];
        EncodeLiteral(next);
        UntouchedTwice(old(out[..]), between, out[..], nextOut, nextOut + availOut);
        next := next + 1;
      }
    }

    method EncodeLiteral(p: nat)
      requires TablesFor(tables, codes) && At(p) && !hasEob && !bitbuf.IsFull()
      requires p < |input| && HasCode(codes, Literal(input[p]))
      modifies this`tokens, bitbuf`mBits, bitbuf`mBitCount, bitbuf`mOutBuf, out
      ensures At(p + 1) && tokens == old(tokens) + [Literal(input[p])] && head[..] == old(head[..])
      ensures Untouched(old(out[..]), out[..], nextOut, nextOut + availOut)
    {
      hide TablesFor, HashWithin, Covers, Spelled, HasCode;
      LiteralStep(tokens, input, start, p);
      HashLater(cfg, head[..], p, p + 1, cfg.distMask);
      PutLiteral(p);
    }

    /** Ends the block. */
    method EndBlock(p: nat)
      requires TablesFor(tables, codes) && At(p) && !hasEob && !bitbuf.IsFull() && HasCode(codes, EndOfBlock)
      modifies this`hasEob, this`state, bitbuf`mBits, bitbuf`mBitCount, bitbuf`mOutBuf, out
      ensures At(p) && hasEob && state == (if endOfStream == 1 then ZTrailer else ZSyncFlush)
      ensures head[..] == old(head[..])
      ensures Untouched(old(out[..]), out[..], nextOut, nextOut + availOut)
    {
      hide TablesFor, HashWithin, Covers, Spelled, Spells;
      SizedTables(tables, codes);
      LitCodeSpells(tables, codes, 256);
      Put(GetLitCode(tables, 256), EndOfBlock);
      hasEob := true;
      if endOfStream == 1 {
        state := ZTrailer;
      } else {
        state := ZSyncFlush;
      }
    }

    /** Encodes the rest, and ends the block if there is room. */
    method FinishBlock(startIn: nat, endIn: nat) returns (next: nat)
      requires TablesFor(tables, codes) && At(startIn) && !hasEob && startIn <= endIn == |input|
      requires CursorOk(cfg, input, Cursor(startIn, head[..])) && HasCode(codes, EndOfBlock)
      requires AllCoded(codes, TokensOf(FINISHING, cfg, input, Cursor(startIn, head[..])))
      modifies this`tokens, this`hasEob, this`state, bitbuf`mBits, bitbuf`mBitCount, bitbuf`mOutBuf, out, head
      ensures At(next) && startIn <= next <= endIn
      ensures Runs(FINISHING, cfg, input, old(Cursor(startIn, head[..])), old(tokens), Cursor(next, head[..]), tokens)
      ensures hasEob ==> next == endIn && state == if endOfStream == 1 then ZTrailer else ZSyncFlush
      ensures !hasEob ==> state == old(state) && nextOut + availOut - bitbuf.mOutBuf < 8
      ensures !hasEob && !old(bitbuf.IsFull()) ==> next > startIn
      ensures Untouched(old(out[..]), out[..], nextOut, nextOut + availOut)
    {
      hide At, CursorOk, TokensOf, Wired, Open, Writing, TablesFor, Untouched, Runs, AllCoded, HasCode;
      var full;
      next, full := FinishLoops(startIn, endIn);
      NoRoom(next);
      if !bitbuf.IsFull() {
        ghost var between := out[..];
        EndBlock(next);
        UntouchedTwice(old(out[..]), between, out[..], nextOut, nextOut + availOut);
      }
    }

    /** isal_deflate_finish_base: encodes all that is left and ends the block, or stops when the
        output is full, in which case the next call goes on with the same tokens. */
    method Finish()
      requires TablesFor(tables, codes) && Valid() && !hasEob && HasCode(codes, EndOfBlock)
      requires AllCoded(codes, TokensOf(FINISHING, cfg, input, Here()))
      modifies this`nextIn, this`availIn, this`totalIn, this`hasHist, this`nextOut, this`availOut, this`totalOut
      modifies this`delivered, this`tokens, this`state, this`hasEob, bitbuf, out, head
      ensures Valid() && Progress(old(Now()), Now(), out[..])
      ensures Untouched(old(out[..]), out[..], old(nextOut), old(nextOut) + old(availOut))
      ensures Runs(FINISHING, cfg, input, old(Here()), old(tokens), Here(), tokens)
      ensures hasEob ==> availIn == 0 && nextIn == |input|
      ensures hasEob ==> state == if endOfStream == 1 then ZTrailer else ZSyncFlush
      ensures !hasEob ==> availOut < 8 && state == old(state)
      ensures !hasEob && old(availOut) >= 8 ==> nextIn > old(nextIn)
    {
      hide Progress, Now, At, Valid, CursorOk, TokensOf, Wired, Open, Writing, Pow2, NatBits, ByteBits;
      hide TablesFor, Untouched, Runs, AllCoded, HasCode;
      HereOk();
      Begin();
      var startIn, endIn := nextIn, nextIn + availIn;
      var next := FinishBlock(startIn, endIn);
      UpdateState(startIn, next, endIn);
    }
  }

  /** A literal covers one more byte. */
  lemma LiteralStep(ts: seq<Token>, input: seq<Octet>, start: nat, p: nat)
    requires Covers(ts, input, start, p) && p < |input|
    ensures Covers(ts + [Literal(input[p])], input, start, p + 1)
  {
    hide Covers;
    var t := Literal(input[p]);
    assert Expandable([t], input[..p]) && Expand([t], input[..p]) == input[..p + 1] by {
      assert input[..p] + [input[p]] == input[..p + 1];
    }
    CoversMore(ts, t, input, start, p, p + 1);
  }
}
