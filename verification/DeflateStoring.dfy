/**
  `deflate_stored` of lib/zlib/deflate.c: level 0, stored blocks only.
 */
module DeflateStoring {
  import opened Words
  import opened DeflateDictionary
  import opened DeflateState
  import opened DeflateWindow
  import opened DeflateTally

  function Join(blocks: seq<seq<Byte>>): seq<Byte> {
    if blocks == [] then [] else Join(blocks[..|blocks| - 1]) + blocks[|blocks| - 1]
  }

  lemma {:induction false} JoinSnoc(blocks: seq<seq<Byte>>, b: seq<Byte>)
    ensures Join(blocks + [b]) == Join(blocks) + b
  {
    assert (blocks + [b])[..|blocks|] == blocks;
  }

  /** The blocks written are the first `n` bytes of the input, cut up within the size limit. */
  ghost predicate CutUp(blocks: seq<seq<Byte>>, input: seq<Byte>, n: int, maxBlock: int) {
    && 0 <= n <= |input| && Join(blocks) == input[..n]
    && forall b :: b in blocks ==> |b| <= maxBlock <= 0xffff
  }

  lemma CutUpMore(blocks: seq<seq<Byte>>, input: seq<Byte>, input': seq<Byte>, n: int, maxBlock: int)
    requires CutUp(blocks, input, n, maxBlock) && input <= input'
    ensures CutUp(blocks, input', n, maxBlock)
  {
    assert input'[..n] == input[..n];
  }

  lemma CutUpNext(blocks: seq<seq<Byte>>, input: seq<Byte>, n: int, n': int, maxBlock: int)
    requires CutUp(blocks, input, n, maxBlock) && n <= n' <= |input| && n' - n <= maxBlock <= 0xffff
    ensures CutUp(blocks + [input[n..n']], input, n', maxBlock)
  {
    JoinSnoc(blocks, input[n..n']);
    assert input[..n] + input[n..n'] == input[..n'];
  }

  /** All data not yet in a block is still in the window. */
  ghost predicate StoredReady(s: State)
    reads s, s.window, s.head, s.prev
  {
    && s.Valid() && s.config.level == 0 && s.insert == 0 && s.lastLit == 0 && s.Cleared()
    && 0 <= s.blockStart <= s.strstart && s.strstart - s.blockStart < s.config.MaxBlock()
    && s.strstart - s.blockStart < s.config.MaxDist()
    && CutUp(s.stored, s.input, s.base + s.blockStart, s.config.MaxBlock())
  }

  lemma WindowStretch(s: State, from: nat, to: nat)
    requires s.Core() && from <= to <= s.dataEnd
    ensures s.base + to <= |s.input| && s.window[from..to] == s.input[s.base + from..s.base + to]
  {
    hide Linked, Pow2;
    forall i: nat | i < to - from
      ensures s.window[from..to][i] == s.input[s.base + from..s.base + to][i]
    {
      assert s.window[..][from + i] == s.input[s.base + (from + i)];
    }
  }

  /** More blocks, of no less than a size within reach of the limits, save the last if the input was used up. */
  ghost predicate Pieces(c: Config, blocks: seq<seq<Byte>>, blocks': seq<seq<Byte>>, usedUp: bool) {
    && blocks <= blocks'
    && forall i :: |blocks| <= i < |blocks'| ==>
         |blocks'[i]| >= c.MaxBlock() || |blocks'[i]| >= c.MaxDist() || (usedUp && i == |blocks'| - 1)
  }

  lemma PiecesNone(c: Config, a: seq<seq<Byte>>)
    ensures Pieces(c, a, a, false)
  {
  }

  lemma PiecesLast(c: Config, a: seq<seq<Byte>>, b: seq<seq<Byte>>, usedUp: bool)
    requires Pieces(c, a, b, false)
    ensures Pieces(c, a, b, usedUp)
  {
  }

  lemma PiecesMore(c: Config, a: seq<seq<Byte>>, b: seq<seq<Byte>>, d: seq<seq<Byte>>, usedUp: bool)
    requires Pieces(c, a, b, false) && Pieces(c, b, d, usedUp)
    ensures Pieces(c, a, d, usedUp)
  {
    forall i | |a| <= i < |d|
      ensures |d[i]| >= c.MaxBlock() || |d[i]| >= c.MaxDist() || (usedUp && i == |d| - 1)
    {
      if i < |b| {
        assert d[i] == b[i];
      }
    }
  }

  /** `FLUSH_BLOCK` for a stored block, whose bytes are taken from the window. */
  method FlushStored(s: State)
    requires s.Valid() && 0 <= s.blockStart <= s.strstart && s.strstart - s.blockStart <= s.config.MaxBlock()
    requires CutUp(s.stored, s.input, s.base + s.blockStart, s.config.MaxBlock())
    modifies s`stored, s`blockStart, s`outputFull, s`blocks
    ensures s.Valid() && s.blockStart == s.strstart
    ensures 0 <= old(s.Sent()) <= s.Sent() <= |s.input| && s.stored == old(s.stored) + [s.input[old(s.Sent())..s.Sent()]]
    ensures s.outputFull == s.fills(old(s.blocks)) && s.blocks == old(s.blocks) + 1
    ensures CutUp(s.stored, s.input, s.base + s.blockStart, s.config.MaxBlock())
  {
    hide Linked, Pow2, CutUp;
    WindowStretch(s, s.blockStart, s.strstart);
    CutUpNext(s.stored, s.input, s.base + s.blockStart, s.base + s.strstart, s.config.MaxBlock());
    s.stored := s.stored + [s.window[s.blockStart..s.strstart]];
    s.blockStart := s.strstart;
    s.outputFull := s.fills(s.blocks);
    s.blocks := s.blocks + 1;
  }

  /** The window is filled; a slide never reaches data that is not in a block yet. */
  method RefillStored(s: State)
    requires StoredReady(s) && s.lookahead <= 1
    modifies s`nextIn, s`insH, s`blockStart, s`strstart, s`matchStart, s`lookahead, s`insert, s`highWater,
             s`input, s`base, s`dataEnd, s`inserted, s`frontier, s`missed, s`unwritten, s.window, s.head, s.prev
    ensures StoredReady(s)
    ensures old(s.input) <= s.input && s.input + s.nextIn == old(s.input + s.nextIn)
    ensures s.lookahead == 0 ==> s.nextIn == []
    ensures |s.nextIn| + s.lookahead == old(|s.nextIn| + s.lookahead)
    ensures s.Sent() == old(s.Sent())
  {
    hide Linked, Pow2, CutUp, Mirrors, Complete, Stranded, StaleAfter, State.EnteredUpTo, State.TailKept, State.Cleared,
         State.Stale;
    WindowSizes(s.config);
    InputLength(s);
    assert s.strstart < s.config.WSize() + s.config.MaxDist() || s.blockStart >= s.config.WSize();  // not too late
    FillWindow(s);
    CutUpMore(s.stored, old(s.input), s.input, s.base + s.blockStart, s.config.MaxBlock());
    assert |s.input + s.nextIn| == old(|s.input + s.nextIn|);
    InputLength(s);
  }

  lemma StoredSizes(c: Config)
    requires c.Valid()
    ensures 0 < c.MaxBlock() <= 0xffff && 0 < c.MaxDist()
  {
    hide Pow2;
    WindowSizes(c);
  }

  /** The part of the loop after the window is filled: takes what there is and cuts off full blocks. */
  method TakeStored(s: State) returns (full: bool)
    requires !s.outputFull
    requires StoredReady(s) && s.lookahead > 0
    modifies s`strstart, s`lookahead, s`stored, s`blockStart, s`outputFull, s`blocks
    ensures StoredReady(s)
    ensures s.lookahead < old(s.lookahead) && old(s.stored) <= s.stored
    ensures full == s.outputFull && s.Filled(old(s.blocks))
    ensures s.Sent() >= old(s.Sent()) && (full ==> s.Sent() > old(s.Sent()))
    ensures
      var there := old(s.strstart + s.lookahead - s.blockStart);
      var cut := if there >= s.config.MaxBlock() then s.config.MaxBlock() else if there >= s.config.MaxDist() then there else 0;
      && s.Sent() == old(s.Sent()) + cut && 0 <= old(s.Sent()) <= s.Sent() <= |s.input|
      && s.stored == old(s.stored) + (if cut > 0 then [s.input[old(s.Sent())..s.Sent()]] else [])
      && s.lookahead == (if there >= s.config.MaxBlock() then there - cut else 0)
      && s.blocks == old(s.blocks) + (if cut > 0 then 1 else 0)
    ensures Pieces(s.config, old(s.stored), s.stored, false)
  {
    hide Linked, Pow2, CutUp, Mirrors, State.Cleared, State.Core, Config.MaxBlock, Config.MaxDist;
    CoreShaped(s);
    StoredSizes(s.config);
    InputLength(s);
    full := false;
    assert s.blockStart >= 0;  // no block gone
    s.strstart := s.strstart + s.lookahead;
    s.lookahead := 0;
    var maxStart := s.blockStart + s.config.MaxBlock();
    if s.strstart == 0 || s.strstart >= maxStart {
      s.lookahead := s.strstart - maxStart;
      s.strstart := maxStart;
      FlushStored(s);
      if s.outputFull { return true; }
    }
    if s.strstart - s.blockStart >= s.config.MaxDist() {
      FlushStored(s);
      if s.outputFull { return true; }
    }
  }

  /** What follows the loop: the rest goes into a block. */
  method StoredEnd(s: State, flush: Flush) returns (r: BlockState)
    requires !s.outputFull
    requires StoredReady(s) && s.lookahead == 0
    modifies s`insert, s`stored, s`blockStart, s`outputFull, s`blocks
    ensures StoredReady(s) && Pieces(s.config, old(s.stored), s.stored, true) && s.Filled(old(s.blocks))
    ensures 0 <= old(s.Sent()) <= |s.input| && s.Sent() == |s.input|
    ensures s.stored == old(s.stored) +
      (if flush == Finish || old(s.Sent()) < |s.input| then [s.input[old(s.Sent())..]] else [])
    ensures r != NeedMore ==> s.base + s.blockStart == |s.input|
    ensures flush == Finish ==> r == if s.outputFull then FinishStarted else FinishDone
    ensures flush != Finish ==> r == if s.outputFull then NeedMore else BlockDone
    ensures s.Sent() >= old(s.Sent()) && (r == NeedMore ==> s.Sent() > old(s.Sent()))
  {
    hide Linked, Pow2, CutUp, Mirrors, State.Cleared;
    WindowSizes(s.config);
    InputLength(s);
    s.insert := 0;
    if flush == Finish {
      FlushStored(s);
      assert s.input[old(s.Sent())..s.Sent()] == s.input[old(s.Sent())..];
      return if s.outputFull then FinishStarted else FinishDone;
    }
    if s.strstart > s.blockStart {
      FlushStored(s);
      assert s.input[old(s.Sent())..s.Sent()] == s.input[old(s.Sent())..];
      if s.outputFull { return NeedMore; }
    } else {
      assert s.stored == old(s.stored) + [];
    }
    return BlockDone;
  }

  /**
    `deflate_stored`.  The blocks are consecutive pieces of the input within the size limit,
    no byte is lost to a slide, and a block done or finished means all the input is written.
   */
  method DeflateStored(s: State, flush: Flush) returns (r: BlockState)
    requires !s.outputFull
    requires StoredReady(s)
    modifies s, s.window, s.head, s.prev
    ensures StoredReady(s)
    ensures s.origin == old(s.origin) && s.mark == old(s.mark)
    ensures old(s.input) <= s.input && s.input + s.nextIn == old(s.input + s.nextIn)
    ensures Pieces(s.config, old(s.stored), s.stored, s.nextIn == [] && s.lookahead == 0)
    ensures r != NeedMore ==> s.nextIn == [] && s.lookahead == 0 && s.base + s.blockStart == |s.input| && flush != NoFlush
    ensures r == NeedMore ==> s.outputFull || (flush == NoFlush && s.nextIn == [])
    ensures r == FinishDone || r == FinishStarted ==> flush == Finish
    ensures (r == BlockDone ==> flush != Finish) && (r == BlockDone || r == FinishDone ==> !s.outputFull)
    ensures s.Filled(old(s.blocks))
    ensures s.Sent() >= old(s.Sent()) && (r == NeedMore && s.outputFull ==> s.Sent() > old(s.Sent()))
  {
    hide StoredReady, Config.MaxBlock, Config.MaxDist, Pieces;
    PiecesNone(s.config, s.stored);
    while true
      invariant StoredReady(s) && !s.outputFull && s.Filled(old(s.blocks)) && s.Sent() >= old(s.Sent())
      invariant s.origin == old(s.origin) && s.mark == old(s.mark)
      invariant old(s.input) <= s.input && s.input + s.nextIn == old(s.input + s.nextIn)
      invariant Pieces(s.config, old(s.stored), s.stored, false)
      decreases |s.nextIn| + s.lookahead
    {
      if s.lookahead <= 1 {
        RefillStored(s);
        if s.lookahead == 0 && flush == NoFlush {
          PiecesLast(s.config, old(s.stored), s.stored, true);
          return NeedMore;
        }
        if s.lookahead == 0 { break; }
      }
      ghost var before := s.stored;
      var full := TakeStored(s);
      PiecesMore(s.config, old(s.stored), before, s.stored, false);
      if full {
        PiecesLast(s.config, old(s.stored), s.stored, s.nextIn == [] && s.lookahead == 0);
        return NeedMore;
      }
    }
    ghost var before := s.stored;
    r := StoredEnd(s, flush);
    PiecesMore(s.config, old(s.stored), before, s.stored, true);
  }
}
