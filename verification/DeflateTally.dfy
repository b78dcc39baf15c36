/**
  The tally macros of lib/zlib/deflate.h and the flush macros of lib/zlib/deflate.c.
 */
module DeflateTally {
  import opened Words
  import opened DeflateDictionary
  import opened DeflateState
  import opened DeflateWindow
  import opened Lz77

  /** How a turn of a compression loop ends: again, out of input, or with an early return. */
  datatype Turn = Again | Drained | Return(state: BlockState)

  /** `fill_window` leaves what the tokens stand for alone. */
  method Refill(s: State, ghost n: nat)
    requires s.Valid() && s.lookahead < MIN_LOOKAHEAD && s.Faithful(n)
    modifies s`nextIn, s`insH, s`blockStart, s`strstart, s`matchStart, s`lookahead, s`insert, s`highWater,
             s`input, s`base, s`dataEnd, s`inserted, s`frontier, s`missed, s`unwritten, s.window, s.head, s.prev
    ensures s.Valid() && (old(s.HashReady()) ==> s.HashReady()) && s.Faithful(n)
    ensures s.base + s.strstart == old(s.base + s.strstart) && s.base + s.blockStart == old(s.base + s.blockStart)
    ensures s.MatchOffset() == old(s.MatchOffset())
    ensures old(s.input) <= s.input && s.input + s.nextIn == old(s.input + s.nextIn)
    ensures s.lookahead >= MIN_LOOKAHEAD || s.nextIn == []
    ensures s.lookahead >= old(s.lookahead) && s.insert <= old(s.insert)
    ensures s.strstart <= s.window.Length - MIN_LOOKAHEAD
    ensures s.strstart == old(s.strstart) || s.strstart >= s.config.MaxDist()
    ensures |s.nextIn| + s.lookahead == old(|s.nextIn| + s.lookahead)
    ensures s.Tokens() == old(s.Tokens())
    ensures s.missed == old(s.missed) + Stranded(s.origin, |old(s.input)|, old(s.Leftover()), |s.input|)
    ensures Gains(old(s.inserted), |old(s.input)|, s.inserted, |s.input|, s.base + s.strstart)
    ensures old(s.TailKept()) ==> s.TailKept()
    ensures old(s.EnteredUpTo(s.base + s.strstart)) ==> s.EnteredUpTo(s.base + s.strstart)
    ensures s.base == old(s.base) || s.strstart >= 2
    ensures old(|s.nextIn| + s.strstart + s.lookahead) <= s.window.Length ==> s.nextIn == []
    ensures s.highWater == Mark(old(s.highWater), s.strstart + s.lookahead, s.window.Length)
    ensures if old(s.strstart) >= s.config.WSize() + s.config.MaxDist()
            then s.base == old(s.base) + s.config.WSize() else s.base == old(s.base)
    ensures old(s.Cleared()) ==>
      && s.Cleared()
      && s.Stale() == StaleAfter(old(s.strstart) >= s.config.WSize() + s.config.MaxDist(), s.config.WSize(), old(s.highWater),
                                 old(s.Stale()), s.dataEnd)
  {
    hide Linked, Pow2, Mirrors, Covered, Restartable, Complete, Stranded, StaleAfter, Gains, State.EnteredUpTo, State.TailKept,
         State.Cleared, State.Stale, Mark;
    InputLength(s);
    ghost var (tokens, flushed, input) := (s.Tokens(), s.flushed, s.input);
    FillWindow(s);
    assert s.dBuf[..] == old(s.dBuf[..]) && s.lBuf[..] == old(s.lBuf[..]);
    CoveredMore(tokens, flushed, input, s.input, n, s.base + s.blockStart, s.config.MaxDist());
    RestartableMore(tokens, s.mark, input, s.input, s.origin, n);
    assert |s.input + s.nextIn| == old(|s.input + s.nextIn|);
    InputLength(s);
  }

  lemma DecodeNext(d: seq<Pos>, l: seq<Byte>, n: nat)
    requires n < |d| && n < |l|
    ensures Decode(d[..n + 1], l[..n + 1])
         == Decode(d[..n], l[..n]) + [if d[n] == 0 then Literal(l[n]) else Match(l[n] + MIN_MATCH, d[n])]
  {
  }

  /** Writes one entry of the tally; a full tally asks for a flush. */
  method Tally(s: State, d: Pos, l: Byte) returns (flush: bool)
    requires s.Shaped() && s.lastLit + 1 < s.config.LitBufsize()
    modifies s`lastLit, s.dBuf, s.lBuf
    ensures s.lastLit == old(s.lastLit) + 1 && flush == (s.lastLit == s.config.LitBufsize() - 1)
    ensures s.Tokens() == old(s.Tokens()) + [if d == 0 then Literal(l) else Match(l + MIN_MATCH, d)]
  {
    s.dBuf[s.lastLit] := d;
    s.lBuf[s.lastLit] := l;
    DecodeNext(s.dBuf[..], s.lBuf[..], s.lastLit);
    assert s.dBuf[..][..s.lastLit] == old(s.dBuf[..s.lastLit]) && s.lBuf[..][..s.lastLit] == old(s.lBuf[..s.lastLit]);
    assert s.dBuf[..][..s.lastLit + 1] == s.dBuf[..s.lastLit + 1] && s.lBuf[..][..s.lastLit + 1] == s.lBuf[..s.lastLit + 1];
    s.lastLit := s.lastLit + 1;
    flush := s.lastLit == s.config.LitBufsize() - 1;
  }

  /** A token written to the tally extends what the tokens stand for. */
  method TallyToken(s: State, d: Pos, l: Byte, ghost t: Token, ghost n: nat) returns (flush: bool)
    requires s.Faithful(n) && t == (if d == 0 then Literal(l) else Match(l + MIN_MATCH, d)) && Describes(t, s.input, n)
    requires t.Match? ==>
      MIN_MATCH <= t.length <= MAX_MATCH && t.distance <= s.config.MaxDist() && s.origin + t.distance <= n
    modifies s`lastLit, s.dBuf, s.lBuf
    ensures s.Covers(n + Length(t)) && (!flush ==> s.Faithful(n + Length(t)))
    ensures s.Tokens() == old(s.Tokens()) + [t] && s.lastLit == old(s.lastLit) + 1
    ensures flush == (s.lastLit == s.config.LitBufsize() - 1)
  {
    hide Pow2, Describes, Length, Covered, Restartable, Decode;
    TallyNext(s.Tokens(), s.flushed, t, s.mark, s.input, s.origin, n, s.base + s.blockStart, s.config.MaxDist());
    flush := Tally(s, d, l);
  }

  /** `_tr_tally_lit`. */
  method TallyLit(s: State, c: Byte, ghost n: nat) returns (flush: bool)
    requires s.Faithful(n) && n < |s.input| && c == s.input[n]
    modifies s`lastLit, s.dBuf, s.lBuf
    ensures s.Covers(n + 1) && (!flush ==> s.Faithful(n + 1))
    ensures s.Tokens() == old(s.Tokens()) + [Literal(c)] && s.lastLit == old(s.lastLit) + 1
    ensures flush == (s.lastLit == s.config.LitBufsize() - 1)
  {
    hide Pow2, Covered, Restartable, Decode, State.Covers, State.Tokens;
    flush := TallyToken(s, 0, c, Literal(c), n);
  }

  lemma DistanceFits(s: State, distance: nat, length: nat, n: nat)
    requires s.Faithful(n) && distance <= s.config.MaxDist() && Repeats(s.input, n, distance, length)
    ensures 1 <= distance < 0x1_0000
  {
    hide Pow2, Covered, Restartable, Decode, Expand, Legal;
    WindowSizes(s.config);
  }

  /** `_tr_tally_dist`; `length` is the match length less `MIN_MATCH`. */
  method TallyDist(s: State, distance: nat, length: nat, ghost n: nat) returns (flush: bool)
    requires s.Faithful(n) && length + MIN_MATCH <= MAX_MATCH && distance <= s.config.MaxDist()
    requires Repeats(s.input, n, distance, length + MIN_MATCH) && s.origin + distance <= n
    modifies s`lastLit, s.dBuf, s.lBuf
    ensures s.Covers(n + length + MIN_MATCH) && (!flush ==> s.Faithful(n + length + MIN_MATCH))
    ensures s.Tokens() == old(s.Tokens()) + [Match(length + MIN_MATCH, distance)] && s.lastLit == old(s.lastLit) + 1
    ensures flush == (s.lastLit == s.config.LitBufsize() - 1)
  {
    hide Pow2, Repeats, Covered, Restartable, Decode, State.Covers, State.Tokens;
    DistanceFits(s, distance, length + MIN_MATCH, n);
    hide State.Faithful;
    flush := TallyToken(s, distance, length, Match(length + MIN_MATCH, distance), n);
  }

  lemma CoveredFlushed(tokens: seq<Token>, flushed: seq<Token>, input: seq<Byte>, n: nat, block: int, maxDistance: int)
    requires Covered(tokens, flushed, input, n, block, maxDistance)
    ensures Covered(tokens, tokens, input, n, n, maxDistance)
  {
  }

  /**
    `FLUSH_BLOCK_ONLY`: the tallied tokens go into a block, and the next block starts at
    `strstart`.  Whether the output is full after the k-th block is up to the caller's buffer.
   */
  method FlushBlockOnly(s: State)
    requires s.Covers(s.base + s.strstart)
    modifies s`flushed, s`lastLit, s`blockStart, s`outputFull, s`blocks
    ensures s.Faithful(s.base + s.strstart) && s.blockStart == s.strstart && s.lastLit == 0
    ensures s.flushed == old(s.Tokens()) && s.Tokens() == old(s.Tokens())
    ensures s.outputFull == s.fills(old(s.blocks)) && s.blocks == old(s.blocks) + 1
  {
    hide Pow2, Covered, Restartable;
    WindowSizes(s.config);
    CoveredFlushed(s.Tokens(), s.flushed, s.input, s.base + s.strstart, s.base + s.blockStart, s.config.MaxDist());
    s.flushed := s.Tokens();
    s.lastLit := 0;
    s.blockStart := s.strstart;
    assert s.Tokens() == s.flushed;
    hide Decode;
    s.outputFull := s.fills(s.blocks);
    s.blocks := s.blocks + 1;
  }

  /** `FLUSH_BLOCK`: also tells whether to return early, and with what. */
  method FlushBlock(s: State, last: bool) returns (early: bool, r: BlockState)
    requires s.Covers(s.base + s.strstart)
    modifies s`flushed, s`lastLit, s`blockStart, s`outputFull, s`blocks
    ensures s.Faithful(s.base + s.strstart) && s.blockStart == s.strstart && s.lastLit == 0
    ensures s.flushed == old(s.Tokens()) && s.Tokens() == old(s.Tokens())
    ensures s.outputFull == s.fills(old(s.blocks)) && s.blocks == old(s.blocks) + 1
    ensures early == s.outputFull && r == if last then FinishStarted else NeedMore
  {
    FlushBlockOnly(s);
    early, r := s.outputFull, if last then FinishStarted else NeedMore;
  }

  /** What one more token, after `lastLit` tallied and `blocks` written, does to the counts: a full tally becomes a block. */
  ghost predicate Tallied(s: State, lastLit: nat, blocks: nat)
    reads s`lastLit, s`blocks, s`outputFull
  {
    if lastLit + 2 == s.config.LitBufsize()
    then s.lastLit == 0 && s.blocks == blocks + 1 && s.outputFull == s.fills(blocks)
    else s.lastLit == lastLit + 1 && s.blocks == blocks && !s.outputFull
  }

  /** At the end of the input at most the last two positions have not been entered. */
  lemma TailNotEntered(s: State)
    requires s.Valid() && s.lookahead == 0
    ensures s.frontier + (if s.strstart < MIN_MATCH - 1 then s.strstart else MIN_MATCH - 1) <= s.base + s.strstart
  {
    hide Pow2;
  }

  /** The end of a compression function: flushes what is tallied and reports how it went. */
  method EndBlock(s: State, flush: Flush) returns (r: BlockState)
    requires !s.outputFull
    requires s.Covers(s.base + s.strstart)
    modifies s`flushed, s`lastLit, s`blockStart, s`outputFull, s`blocks
    ensures s.Faithful(s.base + s.strstart) && s.lastLit == 0
    ensures s.Tokens() == old(s.Tokens())
    ensures flush == Finish ==> r == if s.outputFull then FinishStarted else FinishDone
    ensures flush != Finish ==> r == if s.outputFull then NeedMore else BlockDone
    ensures s.Filled(old(s.blocks)) && s.Sent() >= old(s.Sent()) && (r == NeedMore ==> s.Sent() > old(s.Sent()))
    ensures
      if flush == Finish || old(s.lastLit) != 0
      then s.flushed == s.Tokens() && s.blocks == old(s.blocks) + 1 && s.outputFull == s.fills(old(s.blocks))
      else s.flushed == old(s.flushed) && s.blocks == old(s.blocks) && !s.outputFull
  {
    hide Pow2, Restartable, Decode, Legal, Expand;
    WindowSizes(s.config);
    var early;
    if flush == Finish {
      early, r := FlushBlock(s, true);
      if early { return; }
      return FinishDone;
    }
    if s.lastLit != 0 {
      early, r := FlushBlock(s, false);
      if early { return; }
    }
    return BlockDone;
  }
}
