/**
  The compression part of `deflate` in lib/zlib/deflate.c, and whole runs of calls to it: any
  level and strategy, any cutting up of the input, any flush requests, any output space.
 */
module DeflateRun {
  import opened Words
  import opened DeflateHash
  import opened DeflateDictionary
  import opened DeflateState
  import opened DeflateWindow
  import opened DeflateRule
  import opened DeflateTally
  import opened DeflateGreedy
  import opened DeflateLazy
  import opened DeflateStoring
  import opened DeflateRle
  import opened Lz77

  datatype Engine = StoredEngine | FastEngine | SlowEngine | RleEngine | HuffEngine

  /** The compression function in use: the strategy decides first, then `configuration_table`. */
  function EngineOf(c: Config): Engine {
    if c.strategy == HuffmanOnly then HuffEngine
    else if c.strategy == Rle then RleEngine
    else if c.level == 0 then StoredEngine
    else if c.level <= 3 then FastEngine
    else SlowEngine
  }

  /** What the chosen function keeps from call to call. */
  ghost predicate Ready(s: State)
    reads s, s.window, s.head, s.prev, s.dBuf, s.lBuf
    ensures Ready(s) ==> s.lastLit <= s.dBuf.Length && s.lastLit <= s.lBuf.Length
  {
    && s.lastLit <= s.dBuf.Length && s.lastLit <= s.lBuf.Length
    && match EngineOf(s.config)
       case StoredEngine => StoredReady(s)
       case FastEngine => FastReady(s)
       case SlowEngine => SlowReady(s)
       case RleEngine => PlainReady(s)
       case HuffEngine => PlainReady(s)
  }

  /** What a decompressor makes of the output so far. */
  ghost function Meaning(s: State): seq<Byte>
    requires s.lastLit <= s.dBuf.Length && s.lastLit <= s.lBuf.Length
    reads s, s.dBuf, s.lBuf
  {
    if EngineOf(s.config) == StoredEngine then Join(s.stored) else Expand(s.Tokens())
  }

  /** The output never says anything but the beginning of the input. */
  lemma MeaningIsPrefix(s: State)
    requires Ready(s)
    ensures Meaning(s) <= s.input
  {
    hide Linked, Pow2, Mirrors, Primed, Decode;
  }

  /** What the blocks written mean. */
  lemma BlocksMean(s: State)
    requires Ready(s)
    ensures 0 <= s.Sent() <= |s.input|
    ensures (if EngineOf(s.config) == StoredEngine then Join(s.stored) else Expand(s.flushed)) == s.input[..s.Sent()]
  {
    hide Linked, Pow2, Mirrors, Primed, Decode, State.Cleared;
  }

  lemma DrainedMeaning(s: State)
    requires Ready(s) && s.lookahead == 0 && s.lastLit == 0
    requires EngineOf(s.config) == StoredEngine ==> s.base + s.blockStart == |s.input|
    requires EngineOf(s.config) == SlowEngine ==> !s.matchAvailable
    ensures Meaning(s) == s.input
  {
    hide Linked, Pow2, Mirrors, Primed, Decode, Legal;
    InputLength(s);
    assert s.input[..|s.input|] == s.input;
  }

  /** `CLEAR_HASH`. */
  method ClearHash(s: State)
    requires s.Valid()
    modifies s`inserted, s`frontier, s.head
    ensures s.Valid() && s.inserted == {} && s.frontier == 0
    ensures forall i :: 0 <= i < s.head.Length ==> s.head[i] == 0
  {
    hide Pow2, Linked;
    WindowSizes(s.config);
    forall i | 0 <= i < s.head.Length {
      s.head[i] := 0;
    }
    s.inserted := {};
    s.frontier := 0;
    LinkedClear(s.config.HashBits(), s.config.WSize(), s.input, s.base, s.head[..], s.prev[..]);
  }

  /** With nothing ahead, renumbers the window from 0 without touching the stream. */
  method RestartWindow(s: State)
    requires s.Valid() && s.lookahead == 0 && s.inserted == {} && s.frontier == 0
    requires forall i :: 0 <= i < s.head.Length ==> s.head[i] == 0
    modifies s`strstart, s`blockStart, s`insert, s`base, s`dataEnd
    ensures s.Valid() && s.HashReady() && s.insert == 0 && (old(s.Cleared()) ==> s.Cleared())
    ensures s.strstart == 0 && s.base == old(s.base + s.strstart) && s.blockStart == 0
  {
    hide Pow2;
    s.base := s.base + s.strstart;
    s.dataEnd := 0;
    s.strstart := 0;
    s.blockStart := 0;
    s.insert := 0;
    LinkedClear(s.config.HashBits(), s.config.WSize(), s.input, s.base, s.head[..], s.prev[..]);
  }

  /** What a drained state keeps when the window starts over: all that was read is in the blocks. */
  ghost predicate Carried(s: State)
    reads s`input, s`stored, s`matchLength, s`prevLength, s`matchAvailable, s`flushed, s`lastLit, s.dBuf, s.lBuf
    reads s`unwritten, s`dataEnd, s`highWater
  {
    && s.Shaped() && s.lastLit == 0 && s.Cleared()
    && match EngineOf(s.config)
       case StoredEngine => s.config.level == 0 && CutUp(s.stored, s.input, |s.input|, s.config.MaxBlock())
       case FastEngine => FlushedIsAll(s) && 1 <= s.config.level <= 3 && s.matchLength < MIN_MATCH && s.prevLength == MIN_MATCH - 1
       case SlowEngine => FlushedIsAll(s) && 4 <= s.config.level && s.matchLength == MIN_MATCH - 1 && !s.matchAvailable
       case _ => FlushedIsAll(s)
  }

  /** The flushed tokens reach as far as all of them, to the end of the input. */
  ghost predicate FlushedIsAll(s: State)
    requires s.Shaped() && s.lastLit == 0
    reads s`input, s`flushed, s`lastLit, s.dBuf, s.lBuf
  {
    Covered(s.Tokens(), s.flushed, s.input, |s.input|, |s.input|, s.config.MaxDist())
  }

  /** The two together change nothing that is carried over. */
  method StartOver(s: State)
    requires s.Valid() && s.lookahead == 0 && Carried(s)
    modifies s`strstart, s`blockStart, s`insert, s`base, s`dataEnd, s`inserted, s`frontier, s.head
    ensures s.Valid() && s.HashReady() && s.insert == 0 && s.inserted == {} && Carried(s)
    ensures s.strstart == 0 && s.base == old(s.base + s.strstart) && s.blockStart == 0
  {
    hide Linked, Pow2, Mirrors, State.Core, State.HashReady, State.Cleared, FlushedIsAll, CutUp;
    CoreShaped(s);
    ClearHash(s);
    RestartWindow(s);
  }

  lemma ReadyCarries(s: State)
    requires Ready(s) && s.lookahead == 0 && s.lastLit == 0
    requires EngineOf(s.config) == StoredEngine ==> s.base + s.blockStart == |s.input|
    requires EngineOf(s.config) == SlowEngine ==> !s.matchAvailable
    ensures Carried(s) && s.Valid() && s.base + s.strstart == |s.input|
  {
    hide Linked, Pow2, Mirrors, Primed, Legal, CutUp, Restartable, Repeats, State.Cleared;
    InputLength(s);
    assert s.Tokens() == s.flushed;
  }

  lemma CarriedReady(s: State)
    requires s.Valid() && s.HashReady() && Carried(s) && s.lookahead == 0
    requires s.insert == 0 && s.strstart == 0 && s.blockStart == 0 && s.base == |s.input|
    requires Restartable(s.Tokens(), s.mark, s.input, s.origin, s.base) && s.origin == s.base && s.missed == {}
    ensures Ready(s) && Meaning(s) == s.input
  {
    hide Linked, Pow2, Mirrors, Primed, Legal, Restartable, Repeats, Decode, State.Cleared;
    WindowSizes(s.config);
    assert s.input[..|s.input|] == s.input;
  }

  /**
    After a full flush the dictionary is forgotten and the window starts over: decompression can
    start afresh from here.
   */
  method ForgetHistory(s: State)
    requires s.Valid() && Carried(s) && s.lookahead == 0 && s.base + s.strstart == |s.input|
    modifies s`strstart, s`blockStart, s`insert, s`base, s`dataEnd, s`inserted, s`frontier, s`origin, s`mark, s`missed, s.head
    ensures Ready(s) && s.inserted == {} && s.missed == {} && s.strstart == 0 && s.TailKept() && s.Sent() == |s.input|
    ensures s.base == |s.input|
    ensures s.origin == |s.input| && s.mark == |s.Tokens()|
    ensures Meaning(s) == s.input
  {
    hide Ready, Meaning, Linked, Mirrors, Pow2, State.HashReady, State.Tokens, Restartable, CutUp, Covered, FlushedIsAll;
    StartOver(s);
    NothingYet(s.Tokens(), s.input, s.base);
    s.origin, s.mark, s.missed := s.base, |s.Tokens()|, {};
    CarriedReady(s);
  }

  lemma NothingYet(tokens: seq<Token>, input: seq<Byte>, origin: nat)
    requires origin <= |input|
    ensures Restartable(tokens, |tokens|, input, origin, origin)
  {
    assert tokens[|tokens|..] == [];
    assert Expand([]) == input[origin..origin];
  }

  /**
    A restart point: from token number `mark` on the output can be decompressed without what
    went before, into the input from `origin` on.
   */
  lemma Restarts(s: State)
    requires Ready(s) && EngineOf(s.config) != StoredEngine
    ensures s.mark <= |s.Tokens()| && s.origin <= |s.input|
    ensures Expand(s.Tokens()[s.mark..]) <= s.input[s.origin..]
  {
    hide Linked, Pow2, Mirrors, Primed, Decode, Covered, Expand;
  }

  lemma EmptyExpansion()
    ensures Expand([]) == []
  {
  }

  lemma DrainedRestarts(s: State)
    requires Ready(s) && s.lookahead == 0 && s.lastLit == 0 && EngineOf(s.config) != StoredEngine
    requires EngineOf(s.config) == SlowEngine ==> !s.matchAvailable
    ensures s.mark <= |s.Tokens()| && s.origin <= |s.input|
    ensures Expand(s.Tokens()[s.mark..]) == s.input[s.origin..]
  {
    hide Linked, Pow2, Mirrors, Primed, Decode, Covered, Expand;
    InputLength(s);
  }

  /** Nothing is left to read or to decide, and everything is in the blocks. */
  ghost predicate Finished(s: State)
    requires Ready(s)
    reads s, s.window, s.head, s.prev, s.dBuf, s.lBuf
  {
    && s.nextIn == [] && Carried(s) && s.lookahead == 0 && s.base + s.strstart == |s.input|
    && Meaning(s) == s.input
    && (EngineOf(s.config) != StoredEngine ==>
          && s.mark <= |s.Tokens()| && s.origin <= |s.input|
          && Expand(s.Tokens()[s.mark..]) == s.input[s.origin..])
  }

  lemma DrainedFinished(s: State)
    requires Ready(s) && s.nextIn == [] && s.lookahead == 0 && s.lastLit == 0
    requires EngineOf(s.config) == StoredEngine ==> s.base + s.blockStart == |s.input|
    requires EngineOf(s.config) == SlowEngine ==> !s.matchAvailable
    ensures Finished(s)
  {
    hide Ready, Meaning, Carried, Expand;
    ReadyCarries(s);
    DrainedMeaning(s);
    if EngineOf(s.config) != StoredEngine {
      DrainedRestarts(s);
    }
  }

  /**
    A call, turn by turn: literals only or runs only if the strategy says so; otherwise greedy
    matching at levels 1 to 3 and lazy matching at levels 4 to 9, which ends with the undecided
    byte when the call has `ended`.
   */
  ghost predicate Went(c: Config, places: seq<Place>, views: seq<View>, v: Place, w: Place, x: View, y: View, ended: bool) {
    match c.strategy
    case HuffmanOnly => PlainTrace(c, true, places, v, w)
    case Rle => PlainTrace(c, false, places, v, w)
    case _ =>
      if c.level == 0 then true
      else if c.level <= 3 then FastTrace(c, places, v, w)
      else
        && views != [] && Trace(c, views, x, views[|views| - 1])
        && (Ends(views[|views| - 1], y) || (!ended && views[|views| - 1] == y))
  }

  /** The compression function in use. */
  method RunEngine(s: State, flush: Flush) returns (r: BlockState, ghost places: seq<Place>, ghost views: seq<View>)
    requires Ready(s) && !s.outputFull
    modifies s, s.window, s.head, s.prev, s.dBuf, s.lBuf
    ensures Ready(s) && s.origin == old(s.origin) && s.mark == old(s.mark)
    ensures old(s.input) <= s.input && s.input + s.nextIn == old(s.input + s.nextIn)
    ensures r != NeedMore ==> Finished(s) && flush != NoFlush
    ensures r == NeedMore ==> s.outputFull || (flush == NoFlush && s.nextIn == [])
    ensures r == FinishDone || r == FinishStarted ==> flush == Finish
    ensures (r == BlockDone ==> flush != Finish) && (r == BlockDone || r == FinishDone ==> !s.outputFull)
    ensures s.Filled(old(s.blocks))
    ensures s.Sent() >= old(s.Sent()) && (r == NeedMore && s.outputFull ==> s.Sent() > old(s.Sent()))
    ensures EngineOf(s.config) == FastEngine ==> old(s.inserted) <= s.inserted
    ensures EngineOf(s.config) == StoredEngine ==> Pieces(s.config, old(s.stored), s.stored, s.nextIn == [] && s.lookahead == 0)
    ensures Went(s.config, places, views, old(PlaceOf(s)), PlaceOf(s), old(ViewOf(s)), ViewOf(s), r != NeedMore)
    ensures EngineOf(s.config) == SlowEngine && old(s.TailKept()) ==>
      && s.missed == old(s.missed)
      && (r != NeedMore || flush == NoFlush ==> s.TailKept())
  {
    hide FastReady, SlowReady, PlainReady, Decode, Expand, Join, CutUp, Linked, Mirrors, Pow2, Finished, Pieces, FastTrace, Trace, Ends,
         PlainTrace, PlaceOf, ViewOf;
    places, views := [], [];
    match EngineOf(s.config) {
      case StoredEngine => r := DeflateStored(s, flush);
      case FastEngine => r, places := DeflateFast(s, flush);
      case SlowEngine =>
        SlowLength(s);
        ghost var (from, left) := (|s.input|, s.Leftover());
        r, views := DeflateSlow(s, flush);
        if old(s.TailKept()) {
          StrandedNone(s.origin, from, left, |s.input|);
        }
      case RleEngine => r, places := DeflatePlain(s, flush, false);
      case HuffEngine => r, places := DeflatePlain(s, flush, true);
    }
    if r != NeedMore {
      DrainedFinished(s);
    }
  }

  /**
    One call's compression: `deflate` picks the function, and forgets the history after a full
    flush.  The output means a prefix of the input, and all of it unless more is needed; from
    the last full flush on it can be decompressed on its own.
   */
  method Deflate(s: State, flush: Flush) returns (r: BlockState, ghost places: seq<Place>, ghost views: seq<View>)
    requires Ready(s) && !s.outputFull
    modifies s, s.window, s.head, s.prev, s.dBuf, s.lBuf
    ensures Ready(s) && Meaning(s) <= s.input
    ensures old(s.input) <= s.input && s.input + s.nextIn == old(s.input + s.nextIn)
    ensures r != NeedMore ==> s.nextIn == [] && Meaning(s) == s.input && flush != NoFlush && s.base + s.strstart == |s.input|
    ensures r == NeedMore ==> s.outputFull || (flush == NoFlush && s.nextIn == [])
    ensures r == FinishDone || r == FinishStarted ==> flush == Finish
    ensures (r == BlockDone ==> flush != Finish) && (r == BlockDone || r == FinishDone ==> !s.outputFull)
    ensures s.Filled(old(s.blocks))
    ensures s.Sent() >= old(s.Sent()) && (r == NeedMore && s.outputFull ==> s.Sent() > old(s.Sent()))
    ensures
      if r == BlockDone && flush == FullFlush
      then s.inserted == {} && s.strstart == 0 && s.origin == |s.input| && s.mark == |s.Tokens()|
      else s.origin == old(s.origin) && s.mark == old(s.mark)
           && (EngineOf(s.config) == FastEngine ==> old(s.inserted) <= s.inserted)
           && Went(s.config, places, views, old(PlaceOf(s)), PlaceOf(s), old(ViewOf(s)), ViewOf(s), r != NeedMore)
    ensures EngineOf(s.config) == StoredEngine ==> Pieces(s.config, old(s.stored), s.stored, s.nextIn == [] && s.lookahead == 0)
    ensures r != NeedMore && EngineOf(s.config) != StoredEngine ==>
      && s.mark <= |s.Tokens()| && s.origin <= |s.input|
      && Expand(s.Tokens()[s.mark..]) == s.input[s.origin..]
    ensures EngineOf(s.config) == SlowEngine && old(s.TailKept()) ==>
      && (s.missed == old(s.missed) || s.missed == {})
      && (r != NeedMore || flush == NoFlush ==> s.TailKept())
  {
    hide Ready, Meaning, Carried, Decode, Expand, Went, PlaceOf, ViewOf, Pieces;
    r, places, views := RunEngine(s, flush);
    BlocksMean(s);
    if r == BlockDone && flush == FullFlush {
      ReadyValid(s);
      ForgetHistory(s);
      assert s.Tokens()[s.mark..] == [] && s.input[s.origin..] == [];
      EmptyExpansion();
    }
    MeaningIsPrefix(s);
  }

  lemma ReadyValid(s: State)
    requires Ready(s)
    ensures s.Valid()
  {
    hide Linked, Pow2, Mirrors, Primed, Decode, Covered, Repeats, CutUp, Restartable, State.Core, State.HashReady;
  }

  /** The limits of sections 3.2.4 and 3.2.5 of RFC 1951, in every state of every run. */
  lemma FormatLimits(s: State)
    requires Ready(s)
    ensures s.config.MaxDist() <= 0x8000
    ensures EngineOf(s.config) != StoredEngine ==> Legal(s.Tokens(), s.config.MaxDist())
    ensures EngineOf(s.config) == StoredEngine ==> forall b :: b in s.stored ==> |b| <= 0xffff && |b| + 5 <= s.config.PendingBufSize()
  {
    hide Linked, Pow2, Mirrors, Primed, Decode, Legal;
    WindowSizes(s.config);
  }

  /** One call of a run: more input, what to do with it, and whether there is room for output. */
  datatype Call = Call(chunk: seq<Byte>, flush: Flush, room: bool)

  function Fed(calls: seq<Call>): seq<Byte> {
    if calls == [] then [] else Fed(calls[..|calls| - 1]) + calls[|calls| - 1].chunk
  }

  /**
    What a call achieves: unless the output is full, all input is read; a flush request also
    brings all of it out, and a finish request finishes the stream.  The output is full only if
    was to begin with, or since a block written after the first `before` ones; and then more than
    `sent` bytes of the input have been sent, unless the stream is finished.
   */
  ghost predicate Progressed(s: State, call: Call, before: nat, sent: int, finished: bool)
    requires Ready(s)
    reads s, s.window, s.head, s.prev, s.dBuf, s.lBuf
  {
    && (finished ==> call.flush == Finish && s.nextIn == [] && Meaning(s) == s.input)
    && (!s.outputFull ==>
          && s.nextIn == [] && (call.flush != NoFlush ==> Meaning(s) == s.input)
          && (finished <==> call.flush == Finish))
    && (s.outputFull ==> !call.room || (before < s.blocks && s.fills(s.blocks - 1) && (finished || s.Sent() > sent)))
    && s.Sent() >= sent
  }

  /** The caller makes more input available, and room for output or none. */
  method Offer(s: State, call: Call)
    requires Ready(s)
    modifies s`nextIn, s`outputFull
    ensures Ready(s) && s.nextIn == old(s.nextIn) + call.chunk && s.outputFull == !call.room
    ensures Meaning(s) == old(Meaning(s)) && s.Sent() == old(s.Sent())
  {
    hide Linked, Pow2, Mirrors, Primed, Decode, Covered, Restartable, CutUp, Repeats, State.Cleared;
    s.nextIn := s.nextIn + call.chunk;
    s.outputFull := !call.room;
  }

  /** A call; without room for output it does nothing. */
  method RunCall(s: State, call: Call) returns (finished: bool)
    requires Ready(s)
    modifies s, s.window, s.head, s.prev, s.dBuf, s.lBuf
    ensures Ready(s) && s.input + s.nextIn == old(s.input + s.nextIn) + call.chunk
    ensures Progressed(s, call, old(s.blocks), old(s.Sent()), finished) && s.blocks >= old(s.blocks)
    ensures EngineOf(s.config) == SlowEngine && old(s.TailKept()) ==>
      && (s.missed == old(s.missed) || s.missed == {})
      && (!s.outputFull ==> s.TailKept())
  {
    hide Ready, Meaning, Went;
    assert s.input + (s.nextIn + call.chunk) == s.input + s.nextIn + call.chunk;
    Offer(s, call);
    finished := false;
    if !s.outputFull {
      var r, _, _ := Deflate(s, call.flush);
      finished := r == FinishStarted || r == FinishDone;
    }
  }

  /** There is room in every call, and no block fills it. */
  ghost predicate Plenty(fills: nat -> bool, calls: seq<Call>) {
    (forall k: nat :: !fills(k)) && forall i :: 0 <= i < |calls| ==> calls[i].room
  }

  /** The calls from number `k` to `n` all ask to finish, and bring room. */
  ghost predicate Insists(calls: seq<Call>, k: nat, n: nat) {
    k <= n <= |calls| && forall i :: k <= i < n ==> calls[i].room && calls[i].flush == Finish
  }

  /** As long as such calls do not finish the stream, each of them sends something. */
  ghost predicate Insisted(calls: seq<Call>, used: nat, finished: bool, sent: int) {
    forall k :: Insists(calls, k, used) ==> finished || sent >= used - k
  }

  lemma InsistedNext(calls: seq<Call>, used: nat, finished: bool, sent: int, sent': int)
    requires Insisted(calls, used, false, sent) && 0 <= sent <= sent' && used < |calls|
    requires calls[used].room && calls[used].flush == Finish ==> finished || sent' > sent
    ensures Insisted(calls, used + 1, finished, sent')
  {
    var n := used + 1;
    forall k: nat | Insists(calls, k, n)
      ensures finished || sent' >= n - k
    {
      if k <= used {
        assert Insists(calls, k, used);
      }
    }
  }

  ghost predicate AsksToFinish(calls: seq<Call>, n: nat)
    requires n <= |calls|
  {
    exists i :: 0 <= i < n && calls[i].flush == Finish
  }

  /** What holds of a run after `used` calls. */
  ghost predicate SoFar(s: State, calls: seq<Call>, used: nat, finished: bool)
    reads s, s.window, s.head, s.prev, s.dBuf, s.lBuf
  {
    && Ready(s) && used <= |calls| && s.input + s.nextIn == Fed(calls[..used])
    && (finished ==> s.nextIn == [] && Meaning(s) == s.input)
    && (used > 0 ==> Progressed(s, calls[used - 1], 0, 0, finished))
    && (Plenty(s.fills, calls) ==>
          && (finished <==> AsksToFinish(calls, used))
          && (EngineOf(s.config) == SlowEngine ==> s.missed == {} && s.TailKept()))
    && Insisted(calls, used, finished, s.Sent())
  }

  /** The next call of a run. */
  method RunNext(s: State, calls: seq<Call>, used: nat) returns (finished: bool)
    requires SoFar(s, calls, used, false) && used < |calls|
    modifies s, s.window, s.head, s.prev, s.dBuf, s.lBuf
    ensures SoFar(s, calls, used + 1, finished)
  {
    hide Ready, Meaning, Fed, Insisted, Insists;
    FedNext(calls, used);
    BlocksMean(s);
    ghost var sent := s.Sent();
    finished := RunCall(s, calls[used]);
    InsistedNext(calls, used, finished, sent, s.Sent());
  }

  /**
    A whole run from `deflateInit2` on, until a call finishes the stream.  After any number of
    calls the output means a prefix of what was fed in, and all of it once the stream is finished;
    every call makes the progress its flush request promises; a caller who insists on finishing
    and brings room gets there after at most one call for each byte, and one more; and if the output
    never fills, the stream is finished exactly when some call asks for it, and lazy matching
    misses no string.
   */
  method Compress(config: Config, fills: nat -> bool, calls: seq<Call>) returns (s: State, used: nat, finished: bool)
    requires config.Valid()
    ensures fresh(s) && s.fills == fills && s.config == config
    ensures SoFar(s, calls, used, finished) && (used == |calls| || finished)
    ensures Meaning(s) <= Fed(calls[..used]) && (finished ==> Meaning(s) == Fed(calls[..used]))
    ensures forall k :: Insists(calls, k, |calls|) && |calls| - k > |Fed(calls)| ==> finished
    ensures Plenty(fills, calls) ==>
      && (finished <==> AsksToFinish(calls, |calls|))
      && (EngineOf(config) == SlowEngine ==> s.missed == {})
  {
    hide Ready, Meaning, Fed, SoFar;
    s := new State(config, fills);
    used, finished := 0, false;
    FedNothing(calls);
    AtStart(s, calls);
    while used < |calls| && !finished
      invariant SoFar(s, calls, used, finished) && used <= |calls|
      invariant fresh(s) && s.fills == fills && s.config == config
      invariant fresh(s.window) && fresh(s.head) && fresh(s.prev) && fresh(s.dBuf) && fresh(s.lBuf)
      decreases |calls| - used
    {
      finished := RunNext(s, calls, used);
      used := used + 1;
    }
    AtEnd(s, calls, used, finished);
  }

  lemma AtStart(s: State, calls: seq<Call>)
    requires s.Cleared() && s.Valid() && s.Faithful(0) && s.input == s.nextIn == [] && s.strstart == 0 && s.lookahead == 0
    requires s.base == 0 && s.insert == 0 && s.matchLength == s.prevLength == MIN_MATCH - 1 && !s.matchAvailable
    requires s.blockStart == 0 && s.lastLit == 0 && s.stored == [] && s.inserted == {} && s.missed == {} && s.origin == 0
    ensures SoFar(s, calls, 0, false)
  {
    hide Ready, Meaning, Fed;
    StartReady(s);
    FedNothing(calls);
  }

  lemma AtEnd(s: State, calls: seq<Call>, used: nat, finished: bool)
    requires SoFar(s, calls, used, finished) && (used == |calls| || finished)
    ensures Meaning(s) <= Fed(calls[..used]) && (finished ==> Meaning(s) == Fed(calls[..used]))
    ensures forall k :: Insists(calls, k, |calls|) && |calls| - k > |Fed(calls)| ==> finished
    ensures Plenty(s.fills, calls) ==>
      && (finished <==> AsksToFinish(calls, |calls|))
      && (EngineOf(s.config) == SlowEngine ==> s.missed == {})
  {
    hide Ready, Meaning, Fed, Insists;
    MeaningIsPrefix(s);
    BlocksMean(s);
    assert calls[..|calls|] == calls;
  }

  lemma FedNothing(calls: seq<Call>)
    ensures Fed(calls[..0]) == []
  {
  }

  lemma FedNext(calls: seq<Call>, n: nat)
    requires n < |calls|
    ensures Fed(calls[..n + 1]) == Fed(calls[..n]) + calls[n].chunk
  {
    assert calls[..n + 1][..n] == calls[..n];
  }

  lemma StartReady(s: State)
    requires s.Cleared() && s.Valid() && s.Faithful(0) && s.input == [] && s.strstart == 0 && s.lookahead == 0 && s.base == 0
    requires s.insert == 0 && s.matchLength == s.prevLength == MIN_MATCH - 1 && !s.matchAvailable
    requires s.blockStart == 0 && s.lastLit == 0 && s.stored == [] && s.inserted == {} && s.missed == {} && s.origin == 0
    ensures Ready(s)
  {
    hide Linked, Pow2, Mirrors, Primed, Decode, State.Cleared;
    WindowSizes(s.config);
    assert s.input[..0] == [];
  }
}
