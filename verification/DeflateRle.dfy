/**
  `deflate_rle` and `deflate_huff` of lib/zlib/deflate.c: runs of one byte only, and literals
  only.  Neither uses the dictionary.
 */
module DeflateRle {
  import opened Words
  import opened DeflateDictionary
  import opened DeflateState
  import opened DeflateWindow
  import opened DeflateMatch
  import opened DeflateRule
  import opened DeflateTally
  import opened Lz77

  /** What holds between the steps of either loop, and between calls. */
  ghost predicate PlainReady(s: State)
    reads s, s.window, s.head, s.prev, s.dBuf, s.lBuf
    ensures PlainReady(s) ==> s.lastLit <= s.dBuf.Length && s.lastLit <= s.lBuf.Length
  {
    s.Valid() && s.Faithful(s.base + s.strstart) && s.insert == 0 && s.Cleared()
  }

  /**
    The scanning loop, once three bytes are known to equal `byte`: eight bytes at a time,
    stopping at the first different byte or after `MAX_MATCH` bytes.
   */
  method ScanRun(window: array<Byte>, start: nat, byte: Byte) returns (length: nat)
    requires start + MAX_MATCH < window.Length
    requires window[start] == window[start + 1] == window[start + 2] == byte
    ensures 3 <= length <= MAX_MATCH && forall i :: start <= i < start + length ==> window[i] == byte
    ensures length < MAX_MATCH ==> window[start + length] != byte
  {
    length := 2;
    while length < MAX_MATCH
      invariant 2 <= length <= MAX_MATCH && length % 8 == 2
      invariant forall i :: start <= i <= start + length ==> window[i] == byte
      decreases MAX_MATCH - length
    {
      ghost var from := length;
      for i := 0 to 8
        invariant length == from + i
        invariant forall j :: start <= j <= start + length ==> window[j] == byte
      {
        length := length + 1;
        if window[start + length] != byte { return; }
      }
    }
  }

  /** The length of the run of the byte before `strstart`, not counting beyond the input. */
  method RunLength(s: State) returns (length: nat)
    requires s.Valid() && s.strstart + MAX_MATCH < s.window.Length
    ensures length == 0 || MIN_MATCH <= length <= MAX_MATCH
    ensures length > 0 ==> s.strstart > 0 && length <= s.lookahead && Repeats(s.input, s.base + s.strstart, 1, length)
    ensures s.base + s.strstart <= |s.input|
    ensures length == if s.strstart > 0 && RunAt(s.input, s.base + s.strstart) >= MIN_MATCH
                      then RunAt(s.input, s.base + s.strstart) else 0
  {
    hide Linked, Pow2, RunAt;
    InputLength(s);
    length := 0;
    if s.strstart > 0 && s.lookahead < MIN_MATCH {
      RunShort(s);
    }
    if s.lookahead >= MIN_MATCH && s.strstart > 0 {
      var byte := s.window[s.strstart - 1];
      if byte == s.window[s.strstart] && byte == s.window[s.strstart + 1] && byte == s.window[s.strstart + 2] {
        length := ScanRun(s.window, s.strstart, byte);
        if length > s.lookahead {
          length := s.lookahead;
        }
        RunRepeats(s, length);
        RunIs(s, length);
      } else {
        RunIs(s, if byte != s.window[s.strstart] then 0 else if byte != s.window[s.strstart + 1] then 1 else 2);
      }
    }
  }

  /** How often the byte before `p` is repeated from there on, 258 times at most. */
  function RunAt(input: seq<Byte>, p: nat): nat
    requires p <= |input|
  {
    if p == 0 then 0 else Equal(input, p - 1, p)
  }

  lemma RunShort(s: State)
    requires s.Valid() && s.strstart > 0 && s.lookahead < MIN_MATCH && |s.input| == s.base + s.strstart + s.lookahead
    ensures RunAt(s.input, s.base + s.strstart) < MIN_MATCH
  {
    hide Common;
  }

  lemma RunIs(s: State, length: nat)
    requires s.Valid() && s.strstart > 0 && length <= s.lookahead && length <= MAX_MATCH
    requires |s.input| == s.base + s.strstart + s.lookahead
    requires forall i :: s.strstart <= i < s.strstart + length ==> s.window[i] == s.window[s.strstart - 1]
    requires length < MAX_MATCH && length < s.lookahead ==> s.window[s.strstart + length] != s.window[s.strstart - 1]
    ensures RunAt(s.input, s.base + s.strstart) == length
  {
    hide Linked, Pow2, Common;
    var at := s.base + s.strstart;
    assert forall i :: 0 <= i < s.dataEnd ==> s.window[..][i] == s.input[s.base + i];
    assert forall k :: at - 1 <= k < at + length ==> s.window[k - s.base] == s.input[k];
    assert s.input[at - 1..at - 1 + length] == s.input[at..at + length];
    CommonIs(s.input, at - 1, at, Least(MAX_MATCH, s.lookahead), length);
  }

  lemma RunRepeats(s: State, length: nat)
    requires s.Valid() && s.strstart > 0 && length <= s.lookahead
    requires forall i :: s.strstart <= i < s.strstart + length ==> s.window[i] == s.window[s.strstart - 1]
    ensures Repeats(s.input, s.base + s.strstart, 1, length)
  {
    hide Linked, Pow2;
    var at := s.base + s.strstart;
    forall k | at <= k < at + length
      ensures s.input[k] == s.input[k - 1]
    {
      assert s.window[..][k - s.base] == s.input[s.base + (k - s.base)];
      assert s.window[..][k - 1 - s.base] == s.input[s.base + (k - 1 - s.base)];
    }
  }

  /** Outputs the run found and moves past it. */
  method EmitRun(s: State) returns (bflush: bool)
    requires PlainReady(s) && s.strstart > 0 && MIN_MATCH <= s.matchLength <= MAX_MATCH && s.matchLength <= s.lookahead
    requires Repeats(s.input, s.base + s.strstart, 1, s.matchLength)
    modifies s`matchLength, s`strstart, s`lookahead, s`lastLit, s.dBuf, s.lBuf
    ensures s.Valid() && s.insert == 0 && s.strstart == old(s.strstart) + old(s.matchLength)
    ensures s.lastLit == old(s.lastLit) + 1 && bflush == (s.lastLit == s.config.LitBufsize() - 1)
    ensures s.Covers(s.base + s.strstart) && (!bflush ==> s.Faithful(s.base + s.strstart))
    ensures s.lookahead < old(s.lookahead) && s.Tokens() == old(s.Tokens()) + [Match(old(s.matchLength), 1)]
  {
    hide Linked, Pow2, Covered, Restartable, Mirrors, Decode, Repeats, State.Cleared;
    WindowSizes(s.config);
    bflush := TallyDist(s, 1, s.matchLength - MIN_MATCH, s.base + s.strstart);
    s.lookahead := s.lookahead - s.matchLength;
    s.strstart := s.strstart + s.matchLength;
    s.matchLength := 0;
  }

  /** Outputs the byte at `strstart`. */
  method EmitByte(s: State) returns (bflush: bool)
    requires PlainReady(s) && s.lookahead > 0
    modifies s`strstart, s`lookahead, s`lastLit, s.dBuf, s.lBuf
    ensures s.Valid() && s.insert == 0 && s.strstart == old(s.strstart) + 1
    ensures s.lastLit == old(s.lastLit) + 1 && bflush == (s.lastLit == s.config.LitBufsize() - 1)
    ensures s.Covers(s.base + s.strstart) && (!bflush ==> s.Faithful(s.base + s.strstart))
    ensures old(s.base + s.strstart) < |s.input|
    ensures s.lookahead < old(s.lookahead) && s.Tokens() == old(s.Tokens()) + [Literal(s.input[old(s.base + s.strstart)])]
  {
    hide Linked, Pow2, Covered, Restartable, Mirrors, Decode, State.Cleared;
    WindowByte(s, s.strstart);
    bflush := TallyLit(s, s.window[s.strstart], s.base + s.strstart);
    s.lookahead := s.lookahead - 1;
    s.strstart := s.strstart + 1;
  }

  /** One turn of the loop of `deflate_rle`, once there is lookahead. */
  method RleStep(s: State) returns (bflush: bool)
    requires PlainReady(s) && s.strstart + MAX_MATCH < s.window.Length && s.lookahead > 0
    modifies s`matchLength, s`strstart, s`lookahead, s`lastLit, s.dBuf, s.lBuf
    ensures s.Valid() && s.insert == 0
    ensures s.lastLit == old(s.lastLit) + 1 && bflush == (s.lastLit == s.config.LitBufsize() - 1)
    ensures s.Covers(s.base + s.strstart) && (!bflush ==> s.Faithful(s.base + s.strstart))
    ensures s.lookahead < old(s.lookahead) && old(s.base + s.strstart) < |s.input|
    ensures
      var run := RunAt(s.input, old(s.base + s.strstart));
      if old(s.strstart) > 0 && run >= MIN_MATCH
      then s.Tokens() == old(s.Tokens()) + [Match(run, 1)] && s.strstart == old(s.strstart) + run
      else s.Tokens() == old(s.Tokens()) + [Literal(s.input[old(s.base + s.strstart)])] && s.strstart == old(s.strstart) + 1
  {
    hide Linked, Pow2, Covered, Restartable, Mirrors, Decode, Repeats, State.Cleared, RunAt;
    InputLength(s);
    s.matchLength := RunLength(s);
    if s.matchLength >= MIN_MATCH {
      bflush := EmitRun(s);
    } else {
      bflush := EmitByte(s);
    }
  }

  /** One turn of the loop of `deflate_huff`, once there is lookahead. */
  method HuffStep(s: State) returns (bflush: bool)
    requires PlainReady(s) && s.lookahead > 0
    modifies s`matchLength, s`strstart, s`lookahead, s`lastLit, s.dBuf, s.lBuf
    ensures s.Valid() && s.insert == 0 && s.strstart == old(s.strstart) + 1
    ensures s.lastLit == old(s.lastLit) + 1 && bflush == (s.lastLit == s.config.LitBufsize() - 1)
    ensures s.Covers(s.base + s.strstart) && (!bflush ==> s.Faithful(s.base + s.strstart))
    ensures s.lookahead < old(s.lookahead) && old(s.base + s.strstart) < |s.input|
    ensures s.Tokens() == old(s.Tokens()) + [Literal(s.input[old(s.base + s.strstart)])]
  {
    hide Linked, Pow2, Covered, Restartable, Mirrors, Decode, State.Cleared;
    s.matchLength := 0;
    bflush := EmitByte(s);
  }

  /** One turn of either loop. */
  method TakeToken(s: State, huffman: bool) returns (bflush: bool)
    requires PlainReady(s) && s.lookahead > 0 && (huffman || s.strstart + MAX_MATCH < s.window.Length)
    modifies s`matchLength, s`strstart, s`lookahead, s`lastLit, s.dBuf, s.lBuf
    ensures s.Valid() && s.insert == 0
    ensures s.lastLit == old(s.lastLit) + 1 && bflush == (s.lastLit == s.config.LitBufsize() - 1)
    ensures s.Covers(s.base + s.strstart) && (!bflush ==> s.Faithful(s.base + s.strstart))
    ensures s.lookahead < old(s.lookahead) && old(s.Tokens()) <= s.Tokens()
    ensures s.nextIn == [] || huffman || old(s.lookahead) > MAX_MATCH ==> PlainMoves(huffman, old(PlaceOf(s)), PlaceOf(s))
  {
    hide Linked, Pow2, Covered, Restartable, Mirrors, Decode, State.Cleared, State.Core, Equal, Expand, Legal;
    InputLength(s);
    if huffman {
      bflush := HuffStep(s);
    } else {
      bflush := RleStep(s);
    }
  }

  /** The same, with a flush when the tally is full; `full` tells that the caller must return. */
  method PlainStep(s: State, huffman: bool) returns (full: bool)
    requires !s.outputFull
    requires PlainReady(s) && s.lookahead > 0 && (huffman || s.strstart + MAX_MATCH < s.window.Length)
    modifies s`matchLength, s`strstart, s`lookahead, s`lastLit, s`flushed, s`blockStart, s`outputFull, s`blocks, s.dBuf, s.lBuf
    ensures PlainReady(s)
    ensures s.lookahead < old(s.lookahead) && old(s.Tokens()) <= s.Tokens()
    ensures s.nextIn == [] || huffman || old(s.lookahead) > MAX_MATCH ==> PlainMoves(huffman, old(PlaceOf(s)), PlaceOf(s))
    ensures full == s.outputFull && Tallied(s, old(s.lastLit), old(s.blocks))
    ensures s.Sent() >= old(s.Sent()) && (full ==> s.Sent() > old(s.Sent()))
  {
    hide Linked, Pow2, Covered, Restartable, Mirrors, Decode, State.Cleared, State.Core, State.Valid, PlainMoves, Expand, Legal;
    full := false;
    var bflush := TakeToken(s, huffman);
    if bflush {
      var r;
      full, r := FlushBlock(s, false);
    }
  }

  /** Filling the window keeps what holds between steps. */
  method RefillPlain(s: State)
    requires PlainReady(s) && s.lookahead < MIN_LOOKAHEAD
    modifies s`nextIn, s`insH, s`blockStart, s`strstart, s`matchStart, s`lookahead, s`insert, s`highWater,
             s`input, s`base, s`dataEnd, s`inserted, s`frontier, s`missed, s`unwritten, s.window, s.head, s.prev
    ensures PlainReady(s)
    ensures old(s.input) <= s.input && s.input + s.nextIn == old(s.input + s.nextIn)
    ensures s.lookahead >= MIN_LOOKAHEAD || s.nextIn == []
    ensures s.strstart <= s.window.Length - MIN_LOOKAHEAD
    ensures |s.nextIn| + s.lookahead == old(|s.nextIn| + s.lookahead)
    ensures s.Tokens() == old(s.Tokens()) && s.Sent() == old(s.Sent())
    ensures Feeds(s.config, old(PlaceOf(s)), PlaceOf(s))
  {
    hide Linked, Pow2, Covered, Restartable, Mirrors, Decode, Stranded, StaleAfter, Complete, State.EnteredUpTo, State.TailKept,
         State.Cleared, State.Stale, Gains;
    InputLength(s);
    Refill(s, s.base + s.strstart);
    InputLength(s);
  }

  lemma PlainFits(s: State)
    requires PlainReady(s)
    ensures s.strstart + s.lookahead <= s.window.Length
  {
    hide Linked, Pow2, Covered, Restartable, Mirrors, Decode, State.Cleared;
  }

  /** The body of either loop; `deflate_huff` asks for input only when it has none left. */
  method PlainTurn(s: State, flush: Flush, huffman: bool) returns (turn: Turn, ghost between: Place)
    requires !s.outputFull
    requires PlainReady(s)
    modifies s, s.window, s.head, s.prev, s.dBuf, s.lBuf
    ensures PlainReady(s)
    ensures s.origin == old(s.origin) && s.mark == old(s.mark)
    ensures old(s.input) <= s.input && s.input + s.nextIn == old(s.input + s.nextIn) && old(s.Tokens()) <= s.Tokens()
    ensures turn == Again ==> |s.nextIn| + s.lookahead < old(|s.nextIn| + s.lookahead)
    ensures turn == Drained ==> s.nextIn == [] && s.lookahead == 0 && flush != NoFlush
    ensures turn.Return? ==> turn.state == NeedMore && (s.outputFull || (flush == NoFlush && s.nextIn == []))
    ensures s.Sent() >= old(s.Sent()) && (s.outputFull ==> s.Sent() > old(s.Sent()))
    ensures s.Filled(old(s.blocks)) && (!turn.Return? ==> !s.outputFull)
    ensures PlainGoes(s.config, huffman, old(PlaceOf(s)), between) && PlainGoes(s.config, huffman, between, PlaceOf(s))
  {
    hide PlainReady, Decode, State.Tokens, State.Sent, Feeds, PlainMoves, PlaceOf, State.Pending, Config.WSize, Config.MaxDist,
         Config.LitBufsize;
    PlainFits(s);
    between := PlaceOf(s);
    var enough := if huffman then 1 else MAX_MATCH + 1;
    if s.lookahead < enough {
      RefillPlain(s);
      between := PlaceOf(s);
      if s.lookahead < enough && flush == NoFlush {
        return Return(NeedMore), between;
      }
      if s.lookahead == 0 { return Drained, between; }
    }
    var full := PlainStep(s, huffman);
    turn := if full then Return(NeedMore) else Again;
  }

  /** What follows either loop. */
  method PlainEnd(s: State, flush: Flush) returns (r: BlockState)
    requires !s.outputFull
    requires PlainReady(s) && s.nextIn == [] && s.lookahead == 0
    modifies s`insert, s`lastLit, s`flushed, s`blockStart, s`outputFull, s`blocks
    ensures PlainReady(s) && s.lastLit == 0 && s.Tokens() == old(s.Tokens()) && PlaceOf(s) == old(PlaceOf(s))
    ensures flush == Finish ==> r == if s.outputFull then FinishStarted else FinishDone
    ensures flush != Finish ==> r == if s.outputFull then NeedMore else BlockDone
    ensures s.Filled(old(s.blocks)) && s.Sent() >= old(s.Sent()) && (r == NeedMore ==> s.Sent() > old(s.Sent()))
  {
    hide Linked, Pow2, Covered, Restartable, Mirrors, Decode, State.Cleared, State.Core;
    s.insert := 0;
    r := EndBlock(s, flush);
  }

  /** `deflate_rle`, and `deflate_huff` when `huffman` is set. */
  method DeflatePlain(s: State, flush: Flush, huffman: bool) returns (r: BlockState, ghost trace: seq<Place>)
    requires !s.outputFull
    requires PlainReady(s)
    modifies s, s.window, s.head, s.prev, s.dBuf, s.lBuf
    ensures PlainReady(s)
    ensures s.origin == old(s.origin) && s.mark == old(s.mark)
    ensures old(s.input) <= s.input && s.input + s.nextIn == old(s.input + s.nextIn)
    ensures old(s.Tokens()) <= s.Tokens()
    ensures r != NeedMore ==> s.nextIn == [] && s.lookahead == 0 && s.lastLit == 0 && flush != NoFlush
    ensures r == NeedMore ==> s.outputFull || (flush == NoFlush && s.nextIn == [])
    ensures r == FinishDone || r == FinishStarted ==> flush == Finish
    ensures (r == BlockDone ==> flush != Finish) && (r == BlockDone || r == FinishDone ==> !s.outputFull)
    ensures s.Filled(old(s.blocks))
    ensures s.Sent() >= old(s.Sent()) && (r == NeedMore && s.outputFull ==> s.Sent() > old(s.Sent()))
    ensures PlainTrace(s.config, huffman, trace, old(PlaceOf(s)), PlaceOf(s))
  {
    hide PlainReady, Decode, PlainGoes, PlainTrace, PlaceOf, State.Tokens;
    trace := [PlaceOf(s)];
    PlainTraceStart(s.config, huffman, PlaceOf(s));
    var turn := Again;
    while turn == Again
      invariant PlainReady(s)
      invariant s.origin == old(s.origin) && s.mark == old(s.mark)
      invariant old(s.input) <= s.input && s.input + s.nextIn == old(s.input + s.nextIn)
      invariant old(s.Tokens()) <= s.Tokens()
      invariant s.Filled(old(s.blocks)) && (!turn.Return? ==> !s.outputFull)
      invariant s.Sent() >= old(s.Sent()) && (s.outputFull ==> s.Sent() > old(s.Sent()))
      invariant turn == Drained ==> s.nextIn == [] && s.lookahead == 0 && flush != NoFlush
      invariant turn.Return? ==> turn.state == NeedMore && (s.outputFull || (flush == NoFlush && s.nextIn == []))
      invariant PlainTrace(s.config, huffman, trace, old(PlaceOf(s)), PlaceOf(s))
      decreases turn == Again, |s.nextIn| + s.lookahead
    {
      ghost var (now, between) := (PlaceOf(s), PlaceOf(s));
      turn, between := PlainTurn(s, flush, huffman);
      PlainTraceNext(s.config, huffman, trace, old(PlaceOf(s)), now, between);
      PlainTraceNext(s.config, huffman, trace + [between], old(PlaceOf(s)), between, PlaceOf(s));
      trace := trace + [between] + [PlaceOf(s)];
    }
    if turn.Return? {
      return turn.state, trace;
    }
    r := PlainEnd(s, flush);
  }
}
