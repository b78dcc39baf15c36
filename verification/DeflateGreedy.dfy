/**
  `deflate_fast` of lib/zlib/deflate.c: greedy matching, levels 1 to 3.
 */
module DeflateGreedy {
  import opened Words
  import opened DeflateHash
  import opened DeflateDictionary
  import opened DeflateState
  import opened DeflateWindow
  import opened DeflateMatch
  import opened DeflateRule
  import opened DeflateTally
  import opened Lz77

  /** What holds between the steps of the loop, and between calls. */
  ghost predicate FastReady(s: State)
    reads s, s.window, s.head, s.prev, s.dBuf, s.lBuf
    ensures FastReady(s) ==> s.lastLit <= s.dBuf.Length && s.lastLit <= s.lBuf.Length
  {
    && s.Valid() && s.HashReady() && s.Faithful(s.base + s.strstart)
    && 1 <= s.config.level <= 3 && s.matchLength < MIN_MATCH && s.prevLength == MIN_MATCH - 1 && s.Cleared()
  }

  /** The match looked for: from the head of the string's chain, if that is within reach. */
  ghost function FastMatch(s: State): Best
    requires s.Valid() && s.config.level >= 1
    reads s, s.window, s.head, s.prev
  {
    var head := ChainHead(s);
    if head != 0 && s.strstart - head <= s.config.MaxDist() then SearchFrom(s, head, s.prevLength)
    else Best(s.matchLength, s.matchStart)
  }

  /** What is output at `strstart`: that match if it is one, or else the byte. */
  ghost function FastToken(s: State): Token
    requires s.Valid() && s.config.level >= 1 && s.lookahead > 0
    reads s, s.window, s.head, s.prev
  {
    var found := FastMatch(s);
    if found.length >= MIN_MATCH then Match(found.length, Offset(s.strstart, found.start)) else Literal(s.window[s.strstart])
  }

  /** What the search gives, cut to the lookahead. */
  ghost function Longest(s: State, hashHead: nat): nat
    requires s.Shaped() && s.config.level >= 1
    reads s`strstart, s`lookahead, s`matchStart, s`prevLength, s.window, s.prev
  {
    SearchIn(s, s.prev[..], hashHead, s.prevLength).length
  }

  /** One string entered and within reach does not begin a longer match, if the search is not cut short. */
  lemma LongestBeats(s: State, hashHead: Pos, a: nat)
    requires StringEntered(s) && Candidate(s, hashHead) && s.lookahead >= MIN_MATCH
    requires NoneBetween(s.config.HashBits(), s.input, s.base, s.inserted, hashHead, s.base + s.strstart)
    requires 1 <= s.config.level <= 9 && s.prevLength == MIN_MATCH - 1
    requires |Chain(s.prev[..], hashHead, Limit(s), ChainLength(s.config, s.prevLength))| < ChainLength(s.config, s.prevLength)
    requires a in s.inserted && s.base + Limit(s) < a < s.base + s.strstart
    ensures
      var found := Longest(s, hashHead);
      && s.base + s.strstart <= |s.input|
      && (found >= s.config.NiceMatch()
          || Equal(s.input, a, s.base + s.strstart) <= if found >= MIN_MATCH then found else MIN_MATCH - 1)
  {
    hide Linked, Pow2, Primed, HashAt, Mirrors, Candidate, NoneBetween, Chain, Pick, Common, Limit, State.Core, StringEntered;
    EntryLength(s);
    CoreShaped(s);
    WindowSizes(s.config);
    EqualInWindow(s, a);
    var n := ChainLength(s.config, s.prevLength);
    hide ChainLength;
    if Common(s.window[..], a - s.base, s.strstart, MAX_MATCH) >= 3 {
      OnChain(s, hashHead, n, a);
      Outdone(s, hashHead, n, NiceLength(s), a - s.base);
      PickIsLongest(s.window[..], s.strstart, Chain(s.prev[..], hashHead, Limit(s), n), NiceLength(s),
                    Best(s.prevLength, s.matchStart));
    }
  }

  /** No string entered and within reach does. */
  lemma NoneBeatsLongest(s: State, hashHead: Pos)
    requires StringEntered(s) && Candidate(s, hashHead) && s.lookahead >= MIN_MATCH
    requires NoneBetween(s.config.HashBits(), s.input, s.base, s.inserted, hashHead, s.base + s.strstart)
    requires 1 <= s.config.level <= 9 && s.prevLength == MIN_MATCH - 1 && s.base + s.strstart + 3 <= |s.input|
    requires Few(s.config, s.input, s.base, s.base + s.strstart, s.prevLength)
    ensures
      var found := Longest(s, hashHead);
      found >= s.config.NiceMatch()
      || NoneLonger(s.config, s.input, s.base, s.inserted, s.base + s.strstart,
                    if found >= MIN_MATCH then found else MIN_MATCH - 1)
  {
    hide Linked, Pow2, Primed, HashAt, Mirrors, Candidate, NoneBetween, Chain, Crowd, Equal, Longest, State.Core, StringEntered;
    EntryLength(s);
    CoreShaped(s);
    ChainInCrowd(s, hashHead, ChainLength(s.config, s.prevLength), Crowd(s.config, s.input, s.base, s.base + s.strstart));
    hide ChainLength;
    var found := Longest(s, hashHead);
    if found < s.config.NiceMatch() {
      forall a: nat | a in s.inserted && s.base < a < s.base + s.strstart && s.base + s.strstart - a < s.config.MaxDist()
        ensures Equal(s.input, a, s.base + s.strstart) <= if found >= MIN_MATCH then found else MIN_MATCH - 1
      {
        LongestBeats(s, hashHead, a);
      }
    }
  }

  /** Nor does any if there is no chain to search, or none within reach. */
  lemma NoChain(s: State, hashHead: Pos)
    requires StringEntered(s) && s.base + s.strstart + 3 <= |s.input| && s.lookahead >= MIN_MATCH
    requires NoneBetween(s.config.HashBits(), s.input, s.base, s.inserted, hashHead, s.base + s.strstart)
    requires hashHead == 0 || s.strstart - hashHead > s.config.MaxDist()
    ensures NoneLonger(s.config, s.input, s.base, s.inserted, s.base + s.strstart, MIN_MATCH - 1)
  {
    hide Linked, Pow2, Primed, HashAt, Mirrors, NoneBetween, Common, State.Core, StringEntered;
    EntryLength(s);
    EnteredInput(s);
    forall a: nat | a in s.inserted && s.base < a < s.base + s.strstart && s.base + s.strstart - a < s.config.MaxDist()
      ensures Equal(s.input, a, s.base + s.strstart) <= MIN_MATCH - 1
    {
      EqualInWindow(s, a);
      if Common(s.window[..], a - s.base, s.strstart, MAX_MATCH) >= 3 {
        CommonHash(s, a);
        NotPast(s, hashHead, a);
      }
    }
  }

  /** Enters the string at `strstart` and looks for a match. */
  method FindMatch(s: State)
    requires s.Valid() && s.HashReady() && 1 <= s.config.level && s.matchLength < MIN_MATCH && s.prevLength == MIN_MATCH - 1
    requires s.strstart <= s.window.Length - MIN_LOOKAHEAD && s.lookahead > 0
    modifies s`insH, s`inserted, s`frontier, s`matchLength, s`matchStart, s.head, s.prev
    ensures StringEntered(s) && s.matchLength <= MAX_MATCH
    ensures s.matchLength >= MIN_MATCH ==> MatchFound(s)
    ensures Best(s.matchLength, s.matchStart) == old(FastMatch(s))
    ensures s.inserted == if s.lookahead >= MIN_MATCH then old(s.inserted) + {s.base + s.strstart} else old(s.inserted)
    ensures s.base + s.strstart <= |s.input|
    ensures FindsFirst(s.config, s.input, s.base, old(s.inserted), s.base + s.strstart, s.matchLength,
                       Offset(s.strstart, s.matchStart))
  {
    hide Linked, Pow2, Primed, Repeats, HashAt, Mirrors, NoneBetween, Candidate, Chain, Pick, NothingLonger, ChainLength,
         NiceLength, Limit, ChainHead, State.Core, StringEntered, FindsFirst, Few, NoneLonger, MatchFound, Offset;
    ghost var (prev, inserted) := (s.prev[..], s.inserted);
    var hashHead := EnterString(s);
    EntryLength(s);
    CoreShaped(s);
    if hashHead != 0 && s.strstart - hashHead <= s.config.MaxDist() {
      ChainKept(s, prev, hashHead, Limit(s), ChainLength(s.config, s.prevLength));
      SearchFirst(s, hashHead);
    } else if s.lookahead >= MIN_MATCH {
      NoChain(s, hashHead);
    }
    FindsIt(s, inserted);
  }

  /** The search. */
  method SearchFirst(s: State, hashHead: Pos)
    requires StringEntered(s) && Candidate(s, hashHead) && s.lookahead >= MIN_MATCH
    requires NoneBetween(s.config.HashBits(), s.input, s.base, s.inserted, hashHead, s.base + s.strstart)
    requires 1 <= s.config.level && s.matchLength < MIN_MATCH && s.prevLength == MIN_MATCH - 1
    requires s.base + s.strstart + 3 <= |s.input| && s.Shaped()
    modifies s`matchLength, s`matchStart
    ensures StringEntered(s) && s.matchLength <= MAX_MATCH && (s.matchLength >= MIN_MATCH ==> MatchFound(s))
    ensures Best(s.matchLength, s.matchStart) == old(SearchIn(s, s.prev[..], hashHead, s.prevLength))
    ensures Few(s.config, s.input, s.base, s.base + s.strstart, MIN_MATCH - 1) ==>
      s.matchLength >= s.config.NiceMatch() ||
      NoneLonger(s.config, s.input, s.base, s.inserted, s.base + s.strstart,
                 if s.matchLength >= MIN_MATCH then s.matchLength else MIN_MATCH - 1)
  {
    hide Linked, Pow2, Primed, Repeats, HashAt, Mirrors, NoneBetween, Candidate, Chain, Pick, NothingLonger, ChainLength,
         NiceLength, Limit, State.Core, StringEntered, Few, NoneLonger;
    EntryLength(s);
    if Few(s.config, s.input, s.base, s.base + s.strstart, MIN_MATCH - 1) {
      NoneBeatsLongest(s, hashHead);
    }
    s.matchLength := LongestMatch(s, hashHead);
  }

  /** The rule, from its parts. */
  lemma FindsIt(s: State, inserted: set<nat>)
    requires StringEntered(s) && s.matchLength <= MAX_MATCH && (s.matchLength >= MIN_MATCH ==> MatchFound(s))
    requires |s.input| == s.base + s.strstart + s.lookahead && inserted <= s.inserted
    requires s.lookahead >= MIN_MATCH && Few(s.config, s.input, s.base, s.base + s.strstart, MIN_MATCH - 1) ==>
      s.matchLength >= s.config.NiceMatch() ||
      NoneLonger(s.config, s.input, s.base, s.inserted, s.base + s.strstart,
                 if s.matchLength >= MIN_MATCH then s.matchLength else MIN_MATCH - 1)
    ensures FindsFirst(s.config, s.input, s.base, inserted, s.base + s.strstart, s.matchLength, Offset(s.strstart, s.matchStart))
  {
    hide Few, NoneLonger, State.Core, Repeats, Pow2, Primed;
    EntryFits(s);
    var length := if s.matchLength >= MIN_MATCH then s.matchLength else MIN_MATCH - 1;
    if NoneLonger(s.config, s.input, s.base, s.inserted, s.base + s.strstart, length) {
      NoneLongerFewer(s.config, s.input, s.base, s.inserted, inserted, s.base + s.strstart, length);
    }
    if s.matchLength >= MIN_MATCH {
      OffsetNear(s.strstart, s.matchStart);
    }
  }

  /** Enters the strings inside the match, which is short and followed by enough input. */
  method InsertMatched(s: State)
    requires s.Core() && s.frontier <= s.base + s.strstart + 1 && s.matchLength >= MIN_MATCH
    requires s.lookahead >= MIN_MATCH && s.dataEnd == s.strstart + s.matchLength + s.lookahead && s.insert == 0
    requires Primed(s.config.HashBits(), s.insH, s.window[s.strstart + 1], s.window[s.strstart + 2])
    modifies s`insH, s`inserted, s`frontier, s`matchLength, s`strstart, s.head, s.prev
    ensures s.Valid() && s.HashReady() && s.matchLength == 0
    ensures s.strstart == old(s.strstart) + old(s.matchLength)
    ensures s.inserted == old(s.inserted) + Span(s.base + old(s.strstart) + 1, s.base + s.strstart)
  {
    hide Linked, Pow2, Primed, Mirrors, HashAt, NoneBetween, State.Core, Span;
    CoreShaped(s);
    WindowSizes(s.config);
    s.matchLength := s.matchLength - 1;
    ghost var first := s.base + s.strstart + 1;
    assert Span(first, first) == {};
    while true
      invariant s.Core() && s.matchLength >= 1 && first <= s.base + s.strstart + 1
      invariant s.inserted == old(s.inserted) + Span(first, s.base + s.strstart + 1)
      invariant s.strstart + s.matchLength == old(s.strstart + s.matchLength) - 1
      invariant s.frontier <= s.base + s.strstart + 1
      invariant Primed(s.config.HashBits(), s.insH, s.window[s.strstart + 1], s.window[s.strstart + 2])
      decreases s.matchLength
    {
      SpanNext(first, s.base + s.strstart + 1);
      s.strstart := s.strstart + 1;
      var _ := InsertString(s, s.strstart);
      s.matchLength := s.matchLength - 1;
      if s.matchLength == 0 { break; }
    }
    s.strstart := s.strstart + 1;
  }

  /** Steps over a match without entering its strings. */
  method SkipMatched(s: State)
    requires s.Core() && s.frontier <= s.base + s.strstart + 1 && MIN_MATCH <= s.matchLength <= MAX_MATCH
    requires s.dataEnd == s.strstart + s.matchLength + s.lookahead && s.insert == 0
    requires s.strstart <= s.window.Length - MIN_LOOKAHEAD
    modifies s`insH, s`matchLength, s`strstart
    ensures s.Valid() && s.HashReady() && s.matchLength == 0
    ensures s.strstart == old(s.strstart) + old(s.matchLength)
  {
    hide Linked, Pow2, Primed, Roll;
    s.strstart := s.strstart + s.matchLength;
    s.matchLength := 0;
    s.insH := s.window[s.strstart];
    PrimedStart(s.config.HashBits(), s.window[s.strstart], s.window[s.strstart + 1]);
    s.insH := Roll(s.config.HashBits(), s.insH, s.window[s.strstart + 1]);
  }

  /** Outputs the match found and moves past it. */
  method EmitMatch(s: State) returns (bflush: bool)
    requires StringEntered(s) && s.Faithful(s.base + s.strstart)
    requires MIN_MATCH <= s.matchLength <= MAX_MATCH && MatchFound(s)
    modifies s`insH, s`inserted, s`frontier, s`matchLength, s`strstart, s`lookahead, s`lastLit, s.head, s.prev, s.dBuf, s.lBuf
    ensures s.Valid() && s.HashReady() && s.matchLength < MIN_MATCH
    ensures s.lastLit == old(s.lastLit) + 1 && bflush == (s.lastLit == s.config.LitBufsize() - 1)
    ensures s.Covers(s.base + s.strstart) && (!bflush ==> s.Faithful(s.base + s.strstart))
    ensures s.lookahead < old(s.lookahead) && s.strstart == old(s.strstart) + old(s.matchLength)
    ensures s.inserted == old(s.inserted) +
      if old(s.matchLength) <= s.config.MaxLazy() && s.base + s.strstart + MIN_MATCH <= |s.input|
      then Span(old(s.base + s.strstart) + 1, s.base + s.strstart) else {}
    ensures s.Tokens() == old(s.Tokens()) + [Match(old(s.matchLength), old(s.strstart - s.matchStart))]
  {
    hide Linked, Pow2, Primed, Repeats, Covered, Restartable, Mirrors, Decode, Span, State.Core, Config.MaxLazy;
    EntryLength(s);
    EntryFits(s);
    CoreShaped(s);
    ghost var n := s.base + s.strstart;
    bflush := TallyDist(s, s.strstart - s.matchStart, s.matchLength - MIN_MATCH, n);
    s.lookahead := s.lookahead - s.matchLength;
    if s.matchLength <= s.config.MaxLazy() && s.lookahead >= MIN_MATCH {
      InsertMatched(s);
    } else {
      SkipMatched(s);
    }
    assert s.base + s.strstart == n + old(s.matchLength);
  }

  /** Outputs a single literal. */
  method EmitLiteral(s: State) returns (bflush: bool)
    requires StringEntered(s) && s.Faithful(s.base + s.strstart)
    modifies s`strstart, s`lookahead, s`lastLit, s.dBuf, s.lBuf
    ensures s.Valid() && s.HashReady() && s.strstart == old(s.strstart) + 1
    ensures s.lastLit == old(s.lastLit) + 1 && bflush == (s.lastLit == s.config.LitBufsize() - 1)
    ensures s.Covers(s.base + s.strstart) && (!bflush ==> s.Faithful(s.base + s.strstart))
    ensures s.lookahead < old(s.lookahead)
    ensures s.Tokens() == old(s.Tokens()) + [Literal(old(s.window[s.strstart]))]
  {
    hide Linked, Pow2, Primed, Covered, Restartable, Mirrors, Decode;
    WindowByte(s, s.strstart);
    bflush := TallyLit(s, s.window[s.strstart], s.base + s.strstart);
    s.lookahead := s.lookahead - 1;
    s.strstart := s.strstart + 1;
  }

  /** One turn of the loop, once there is lookahead: a match or a literal. */
  method FastStep(s: State) returns (bflush: bool)
    requires FastReady(s) && s.strstart <= s.window.Length - MIN_LOOKAHEAD && s.lookahead > 0
    modifies s`insH, s`inserted, s`frontier, s`matchLength, s`matchStart, s`strstart, s`lookahead, s`lastLit,
             s.head, s.prev, s.dBuf, s.lBuf
    ensures s.Valid() && s.HashReady() && s.matchLength < MIN_MATCH
    ensures s.Covers(s.base + s.strstart) && (!bflush ==> s.Faithful(s.base + s.strstart))
    ensures s.lookahead < old(s.lookahead) && s.Tokens() == old(s.Tokens()) + [old(FastToken(s))]
    ensures s.lastLit == old(s.lastLit) + 1 && bflush == (s.lastLit == s.config.LitBufsize() - 1)
    ensures s.nextIn == [] || old(s.lookahead) >= MIN_LOOKAHEAD ==> FastSteps(s.config, old(PlaceOf(s)), PlaceOf(s))
  {
    hide Linked, Pow2, Primed, Repeats, Covered, Restartable, Mirrors, Decode, StringEntered, FastMatch, Offset, FindsFirst, FastSteps,
         State.Valid, State.Core, State.HashReady, State.Cleared, Span, Config.MaxLazy;
    FastLength(s);
    ghost var v := PlaceOf(s);
    FindMatch(s);
    if s.matchLength >= MIN_MATCH {
      OffsetNear(s.strstart, s.matchStart);
    }
    ghost var (found, distance) := (s.matchLength, Offset(s.strstart, s.matchStart));
    assert s.dBuf[..] == old(s.dBuf[..]) && s.lBuf[..] == old(s.lBuf[..]);
    if s.matchLength >= MIN_MATCH {
      bflush := EmitMatch(s);
    } else {
      bflush := EmitLiteral(s);
    }
    if s.nextIn == [] || old(s.lookahead) >= MIN_LOOKAHEAD {
      FastStepsBy(s.config, v, PlaceOf(s), found, distance);
    }
  }

  lemma FastLength(s: State)
    requires FastReady(s)
    ensures |s.input| == s.base + s.strstart + s.lookahead && s.strstart < WORD && s.Shaped()
    ensures s.Valid() && s.HashReady() && s.Faithful(s.base + s.strstart) && 1 <= s.config.level <= 3
    ensures s.matchLength < MIN_MATCH && s.prevLength == MIN_MATCH - 1
    ensures s.lookahead > 0 ==> s.strstart < s.window.Length && s.window[s.strstart] == s.input[s.base + s.strstart]
  {
    hide Linked, Pow2, Covered, Restartable, Decode;
    WindowSizes(s.config);
    InputLength(s);
    if s.lookahead > 0 {
      WindowByte(s, s.strstart);
    }
  }

  /** The same, with a flush when the tally is full; `full` tells that the caller must return. */
  method FastStepFlush(s: State) returns (full: bool)
    requires !s.outputFull
    requires FastReady(s) && s.strstart <= s.window.Length - MIN_LOOKAHEAD && s.lookahead > 0
    modifies s`insH, s`inserted, s`frontier, s`matchLength, s`matchStart, s`strstart, s`lookahead, s`lastLit,
             s`flushed, s`blockStart, s`outputFull, s`blocks, s.head, s.prev, s.dBuf, s.lBuf
    ensures FastReady(s)
    ensures s.lookahead < old(s.lookahead) && s.Tokens() == old(s.Tokens()) + [old(FastToken(s))]
    ensures s.nextIn == [] || old(s.lookahead) >= MIN_LOOKAHEAD ==> FastSteps(s.config, old(PlaceOf(s)), PlaceOf(s))
    ensures full == s.outputFull && Tallied(s, old(s.lastLit), old(s.blocks))
    ensures s.Sent() >= old(s.Sent()) && (full ==> s.Sent() > old(s.Sent()))
  {
    hide Linked, Pow2, Primed, Covered, Restartable, Mirrors, Decode, FastToken, FastMatch, State.Cleared, FastSteps, State.Core,
         State.HashReady, State.Valid, Expand, Legal;
    full := false;
    var bflush := FastStep(s);
    if bflush {
      var r;
      full, r := FlushBlock(s, false);
    }
  }

  /** Filling the window keeps what holds between steps. */
  method RefillFast(s: State)
    requires FastReady(s) && s.lookahead < MIN_LOOKAHEAD
    modifies s`nextIn, s`insH, s`blockStart, s`strstart, s`matchStart, s`lookahead, s`insert, s`highWater,
             s`input, s`base, s`dataEnd, s`inserted, s`frontier, s`missed, s`unwritten, s.window, s.head, s.prev
    ensures FastReady(s)
    ensures old(s.input) <= s.input && s.input + s.nextIn == old(s.input + s.nextIn)
    ensures s.lookahead >= MIN_LOOKAHEAD || s.nextIn == []
    ensures s.strstart <= s.window.Length - MIN_LOOKAHEAD
    ensures |s.nextIn| + s.lookahead == old(|s.nextIn| + s.lookahead)
    ensures s.Tokens() == old(s.Tokens()) && s.Sent() == old(s.Sent())
    ensures Feeds(s.config, old(PlaceOf(s)), PlaceOf(s))
  {
    hide Linked, Pow2, Covered, Restartable, Mirrors, Decode, Stranded, StaleAfter, Complete, State.EnteredUpTo, State.TailKept,
         State.Cleared, State.Stale, Gains;
    FastLength(s);
    Refill(s, s.base + s.strstart);
    FastLength(s);
  }

  lemma FastFits(s: State)
    requires FastReady(s)
    ensures s.strstart + s.lookahead <= s.window.Length
  {
    hide Linked, Pow2, Covered, Restartable, Mirrors, Decode, State.Cleared;
  }

  /** The body of the loop. */
  method FastTurn(s: State, flush: Flush) returns (turn: Turn, ghost between: Place)
    requires !s.outputFull
    requires FastReady(s)
    modifies s, s.window, s.head, s.prev, s.dBuf, s.lBuf
    ensures FastReady(s)
    ensures s.origin == old(s.origin) && s.mark == old(s.mark)
    ensures old(s.input) <= s.input && s.input + s.nextIn == old(s.input + s.nextIn) && old(s.Tokens()) <= s.Tokens()
    ensures turn == Again ==> |s.nextIn| + s.lookahead < old(|s.nextIn| + s.lookahead)
    ensures turn == Drained ==> s.nextIn == [] && s.lookahead == 0 && flush != NoFlush
    ensures turn.Return? ==> turn.state == NeedMore && (s.outputFull || (flush == NoFlush && s.nextIn == []))
    ensures s.Sent() >= old(s.Sent()) && (s.outputFull ==> s.Sent() > old(s.Sent()))
    ensures s.Filled(old(s.blocks)) && (!turn.Return? ==> !s.outputFull)
    ensures FastGoes(s.config, old(PlaceOf(s)), between) && FastGoes(s.config, between, PlaceOf(s))
  {
    hide FastReady, Decode, FastToken, State.Tokens, State.Sent, FastSteps, PlaceOf, Config.WSize, Config.MaxDist, Config.LitBufsize,
         FastMatch, State.Pending, Feeds;
    FastFits(s);
    between := PlaceOf(s);
    if s.lookahead < MIN_LOOKAHEAD {
      RefillFast(s);
      between := PlaceOf(s);
      if s.lookahead < MIN_LOOKAHEAD && flush == NoFlush {
        return Return(NeedMore), between;
      }
      if s.lookahead == 0 { return Drained, between; }
    }
    var full := FastStepFlush(s);
    turn := if full then Return(NeedMore) else Again;
  }

  /** What follows the loop. */
  method FastEnd(s: State, flush: Flush) returns (r: BlockState)
    requires !s.outputFull
    requires FastReady(s) && s.nextIn == [] && s.lookahead == 0
    modifies s`insert, s`lastLit, s`flushed, s`blockStart, s`outputFull, s`blocks
    ensures FastReady(s) && s.lastLit == 0 && s.Tokens() == old(s.Tokens()) && PlaceOf(s) == old(PlaceOf(s))
    ensures flush == Finish ==> r == if s.outputFull then FinishStarted else FinishDone
    ensures flush != Finish ==> r == if s.outputFull then NeedMore else BlockDone
    ensures s.Filled(old(s.blocks)) && s.Sent() >= old(s.Sent()) && (r == NeedMore ==> s.Sent() > old(s.Sent()))
  {
    hide Linked, Pow2, Primed, Covered, Restartable, Mirrors, Decode, State.Cleared;
    TailNotEntered(s);
    s.insert := if s.strstart < MIN_MATCH - 1 then s.strstart else MIN_MATCH - 1;
    r := EndBlock(s, flush);
  }

  lemma Grown(c: Config, trace: seq<Place>, v: Place, w: Place)
    requires FastTrace(c, trace, v, w)
    ensures v.inserted <= w.inserted
  {
    hide FastGoes;
    FastTraceGrows(c, trace, |trace| - 1);
  }

  /**
    `deflate_fast`.  However often it is called, with whatever input and whenever the output
    fills up, the tokens expand to exactly the input before `strstart`; when it reports a
    block done or finished, that is all the input there was and it has all been flushed.
   */
  method DeflateFast(s: State, flush: Flush) returns (r: BlockState, ghost trace: seq<Place>)
    requires !s.outputFull
    requires FastReady(s)
    modifies s, s.window, s.head, s.prev, s.dBuf, s.lBuf
    ensures FastReady(s)
    ensures s.origin == old(s.origin) && s.mark == old(s.mark)
    ensures old(s.input) <= s.input && s.input + s.nextIn == old(s.input + s.nextIn)
    ensures old(s.Tokens()) <= s.Tokens()
    ensures r != NeedMore ==> s.nextIn == [] && s.lookahead == 0 && s.lastLit == 0 && flush != NoFlush
    ensures r == NeedMore ==> s.outputFull || (flush == NoFlush && s.nextIn == [])
    ensures r == FinishDone || r == FinishStarted ==> flush == Finish
    ensures (r == BlockDone ==> flush != Finish) && (r == BlockDone || r == FinishDone ==> !s.outputFull)
    ensures s.Filled(old(s.blocks))
    ensures s.Sent() >= old(s.Sent()) && (r == NeedMore && s.outputFull ==> s.Sent() > old(s.Sent()))
    ensures FastTrace(s.config, trace, old(PlaceOf(s)), PlaceOf(s))
    ensures old(s.inserted) <= s.inserted
  {
    hide FastReady, Decode, FastGoes, FastTrace, PlaceOf, State.Tokens;
    trace := [PlaceOf(s)];
    PlaceInserted(s);
    FastTraceStart(s.config, PlaceOf(s));
    var turn := Again;
    while turn == Again
      invariant FastReady(s)
      invariant s.origin == old(s.origin) && s.mark == old(s.mark)
      invariant old(s.input) <= s.input && s.input + s.nextIn == old(s.input + s.nextIn)
      invariant old(s.Tokens()) <= s.Tokens()
      invariant s.Filled(old(s.blocks)) && (!turn.Return? ==> !s.outputFull)
      invariant s.Sent() >= old(s.Sent()) && (s.outputFull ==> s.Sent() > old(s.Sent()))
      invariant turn == Drained ==> s.nextIn == [] && s.lookahead == 0 && flush != NoFlush
      invariant turn.Return? ==> turn.state == NeedMore && (s.outputFull || (flush == NoFlush && s.nextIn == []))
      invariant FastTrace(s.config, trace, old(PlaceOf(s)), PlaceOf(s))
      decreases turn == Again, |s.nextIn| + s.lookahead
    {
      ghost var (now, between) := (PlaceOf(s), PlaceOf(s));
      turn, between := FastTurn(s, flush);
      FastTraceNext(s.config, trace, old(PlaceOf(s)), now, between);
      FastTraceNext(s.config, trace + [between], old(PlaceOf(s)), between, PlaceOf(s));
      trace := trace + [between] + [PlaceOf(s)];
    }
    Grown(s.config, trace, old(PlaceOf(s)), PlaceOf(s));
    PlaceInserted(s);
    if turn.Return? {
      return turn.state, trace;
    }
    r := FastEnd(s, flush);
  }
}
