/**
  Two runs that end in states one might not expect: strings that lazy matching misses, and a
  comparison that reaches a byte never written.
 */
module DeflateExamples {
  import opened Words
  import opened DeflateDictionary
  import opened DeflateState
  import opened DeflateWindow
  import opened DeflateRule
  import opened DeflateTally
  import opened DeflateLazy
  import opened DeflateRle
  import opened DeflateRun
  import opened Lz77

  lemma SmallSizes(c: Config)
    requires c.memLevel == 1 && c.wBits == 9
    ensures c.LitBufsize() == 128 && c.WSize() == 512
  {
    Pow2Values();
    assert Pow2(9) == 2 * Pow2(8);
  }

  // ---------- Strings missed by lazy matching ----------

  ghost predicate Distinct(bytes: seq<Byte>) {
    forall i, j :: 0 <= i < j < |bytes| ==> bytes[i] != bytes[j]
  }

  lemma NoRepeats(input: seq<Byte>, at: nat, distance: nat, length: nat)
    requires Distinct(input) && length > 0
    ensures !Repeats(input, at, distance, length)
  {
    if 1 <= distance <= at < |input| {
      assert input[at - distance] != input[at];
    }
  }

  /** Only the first block fills the output. */
  ghost predicate OnlyFirst(fills: nat -> bool) {
    forall k: nat :: fills(k) <==> k == 0
  }

  const LAZY := Config(4, 1, 9, DefaultStrategy)

  /** `i` of 128 different bytes have been passed; the last one fills the first block, and that the output. */
  ghost predicate Passed(s: State, bytes: seq<Byte>, i: nat)
    reads s, s.window, s.head, s.prev, s.dBuf, s.lBuf
  {
    && SlowReady(s) && s.config == LAZY && |bytes| == 128 && s.input == bytes && s.nextIn == []
    && s.base == s.origin == 0 && s.strstart == i && s.lookahead + i == 128 && s.insert == 0 && s.missed == {}
    && s.matchLength == MIN_MATCH - 1 && (s.matchAvailable <==> i > 0) && OnlyFirst(s.fills)
    && (i < 128 ==> s.blocks == 0 && !s.outputFull && s.lastLit == if i == 0 then 0 else i - 1)
    && (i == 128 ==> s.blocks == 1)
  }

  lemma NoneHeld(s: State)
    requires SlowReady(s) && Distinct(s.input)
    ensures s.matchLength == MIN_MATCH - 1
  {
    SlowParts(s);
    hide SlowReady;
    if s.base + s.strstart >= 1 && s.matchLength > 0 {
      NoRepeats(s.input, s.base + s.strstart - 1, Offset(s.strstart - 1, s.matchStart), s.matchLength);
    }
    hide Distinct, Repeats;
  }

  /** A turn of the loop of `deflate_slow`: one byte on. */
  method PassByte(s: State, bytes: seq<Byte>, i: nat)
    requires Passed(s, bytes, i) && i < 128 && Distinct(bytes)
    modifies s, s.window, s.head, s.prev, s.dBuf, s.lBuf
    ensures Passed(s, bytes, i + 1)
  {
    hide SlowReady, Stranded, Distinct, OnlyFirst, Offset, LazyMatch, Pow2, State.Tokens, State.Sent, State.TailKept;
    SmallSizes(s.config);
    SlowLength(s);
    StrandedNone(s.origin, |s.input|, s.Leftover(), |s.input|);
    RefillHeld(s);
    assert s.input == bytes;
    var _ := SlowStep(s);
    NoneHeld(s);
    SlowLength(s);
  }

  method Begin(first: seq<Byte>) returns (s: State)
    ensures SlowReady(s) && s.config == LAZY && s.nextIn == first && s.input == [] && s.strstart == 0 && s.lookahead == 0
    ensures s.base == s.origin == 0 && s.insert == 0 && s.missed == {} && s.matchLength == MIN_MATCH - 1 && !s.matchAvailable
    ensures OnlyFirst(s.fills) && s.blocks == 0 && !s.outputFull && s.lastLit == 0
    ensures fresh(s) && fresh(s.window) && fresh(s.head) && fresh(s.prev) && fresh(s.dBuf) && fresh(s.lBuf)
  {
    hide SlowReady, Pow2, State.Valid, State.Cleared, State.Faithful;
    s := new State(LAZY, k => k == 0);
    s.nextIn := first;
    StillReady(s);
  }

  /** The beginning of the first call: all its input is read. */
  method ReadFirst(first: seq<Byte>) returns (s: State)
    requires |first| == 128
    ensures Passed(s, first, 0)
    ensures fresh(s) && fresh(s.window) && fresh(s.head) && fresh(s.prev) && fresh(s.dBuf) && fresh(s.lBuf)
  {
    hide SlowReady, Stranded, Pow2, OnlyFirst, State.Tokens, State.Sent, State.Valid;
    s := Begin(first);
    SlowParts(s);
    SmallSizes(s.config);
    StrandedNone(s.origin, 0, s.Leftover(), 128);
    RefillHeld(s);
    assert s.input == s.input + s.nextIn == first;
    SlowLength(s);
  }

  lemma StillReady(s: State)
    requires s.Cleared() && s.Valid() && s.Faithful(0) && s.input == [] && s.strstart == 0 && s.lookahead == 0
    requires s.base == 0 && s.insert == 0 && s.matchLength == s.prevLength == MIN_MATCH - 1 && !s.matchAvailable
    requires s.blockStart == 0 && s.lastLit == 0 && s.stored == [] && s.inserted == {} && s.missed == {} && s.origin == 0
    requires EngineOf(s.config) == SlowEngine
    ensures SlowReady(s)
  {
    StartReady(s);
  }

  /** The second call: the output has room again. */
  method ReadSecond(s: State, first: seq<Byte>, second: seq<Byte>)
    requires Passed(s, first, 128) && |second| == 3
    modifies s, s.window, s.head, s.prev, s.dBuf, s.lBuf
    ensures SlowReady(s) && s.input == first + second && s.missed == {126, 127}
  {
    hide SlowReady, Stranded, Pow2, Trace, Ends, ViewOf;
    Offer(s, Call(second, SyncFlush, true));
    var r, trace := DeflateSlow(s, SyncFlush);
    assert !s.outputFull && s.nextIn == [];
    assert s.input == s.input + s.nextIn == first + second;
    StrandedExample();
  }

  /**
    The last two strings of the first input are missed: its block fills the output just when it is
    used up, so they are not left over for insertion when there is more.
   */
  method MissedStrings(first: seq<Byte>, second: seq<Byte>) returns (s: State)
    requires |first| == 128 && Distinct(first) && |second| == 3
    ensures SlowReady(s) && s.input == first + second && s.missed == {126, 127}
  {
    hide Passed, Distinct, SlowReady;
    s := ReadFirst(first);
    for i := 0 to 128
      invariant Passed(s, first, i)
      invariant fresh(s) && fresh(s.window) && fresh(s.head) && fresh(s.prev) && fresh(s.dBuf) && fresh(s.lBuf)
    {
      PassByte(s, first, i);
    }
    ReadSecond(s, first, second);
  }

  // ---------- A byte never written ----------

  const RUNS := Config(1, 1, 9, Rle)

  /**
    Of 762 bytes read at once, which the 1024 of the window hold, the last `left` are ahead; the
    mark is four bytes before the end of the window.
   */
  ghost predicate Consumed(s: State, left: nat)
    reads s, s.window, s.head, s.prev, s.dBuf, s.lBuf
  {
    && PlainReady(s) && s.config == RUNS && s.nextIn == [] && s.base == 0 && s.dataEnd == 762 && s.lookahead == left
    && s.highWater == 1020 && s.Stale() == {} && !s.outputFull && forall k: nat :: !s.fills(k)
  }

  method ReadMany(first: seq<Byte>) returns (s: State)
    requires |first| == 762
    ensures Consumed(s, 762)
    ensures fresh(s) && fresh(s.window) && fresh(s.head) && fresh(s.prev) && fresh(s.dBuf) && fresh(s.lBuf)
  {
    hide Pow2, Covered, Restartable, Stranded, State.Core, State.Cleared, State.HashReady, State.Stale, State.Tokens;
    s := new State(RUNS, k => false);
    s.nextIn := first;
    SmallSizes(s.config);
    InputLength(s);
    CoreShaped(s);
    Refill(s, 0);
    InputLength(s);
    assert StaleAfter(false, 512, 0, {}, 762) == {};
    assert |s.input + s.nextIn| == 762;
  }

  /** A turn of the loop of `deflate_rle`. */
  method ConsumeSome(s: State, left: nat) returns (less: nat)
    requires Consumed(s, left) && left > 0
    modifies s, s.window, s.head, s.prev, s.dBuf, s.lBuf
    ensures Consumed(s, less) && less < left
  {
    hide Pow2, Covered, Restartable, Stranded, State.Core, State.Cleared, State.HashReady, State.Stale, State.Tokens, PlainMoves,
         Gains;
    SmallSizes(s.config);
    PlainFits(s);
    InputLength(s);
    CoreShaped(s);
    if s.lookahead <= MAX_MATCH {
      Refill(s, s.base + s.strstart);
      assert StaleAfter(false, 512, 1020, {}, 762) == {};
      InputLength(s);
    }
    var _ := PlainStep(s, false);
    less := s.lookahead;
  }

  /**
    When 762 bytes have been consumed before the next three come, the window slides with the mark
    four bytes before its end.  Then the last byte that a scan from `strstart` can reach is a copy
    of one that was never written, although it lies below the mark.
   */
  method UnwrittenByte(first: seq<Byte>, second: seq<Byte>) returns (s: State)
    requires |first| == 762 && |second| == 3
    ensures s.Valid() && s.Cleared() && s.lookahead == MIN_MATCH && s.strstart + MAX_MATCH < s.window.Length
    ensures s.strstart + MAX_MATCH in s.Stale()
  {
    hide Consumed;
    s := ReadMany(first);
    var left := 762;
    while left > 0
      invariant Consumed(s, left)
      invariant fresh(s) && fresh(s.window) && fresh(s.head) && fresh(s.prev) && fresh(s.dBuf) && fresh(s.lBuf)
    {
      left := ConsumeSome(s, left);
    }
    SlideAndRead(s, second);
  }

  /** The refill that finds nothing to read, and the one of the next call. */
  method SlideAndRead(s: State, second: seq<Byte>)
    requires Consumed(s, 0) && |second| == 3
    modifies s, s.window, s.head, s.prev
    ensures s.Valid() && s.Cleared() && s.lookahead == MIN_MATCH && s.strstart + MAX_MATCH < s.window.Length
    ensures s.strstart + MAX_MATCH in s.Stale()
  {
    hide Pow2, Covered, Restartable, Stranded, State.Core, State.Cleared, State.HashReady, State.Stale, State.Tokens;
    SmallSizes(s.config);
    InputLength(s);
    CoreShaped(s);
    Refill(s, s.base + s.strstart);
    InputLength(s);
    assert s.Stale() == Span(508, 512);
    s.nextIn := second;
    Refill(s, s.base + s.strstart);
    InputLength(s);
    assert 508 in StaleAfter(false, 512, 1020, Span(508, 512), 253);
  }
}
