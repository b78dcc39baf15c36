/**
  `deflate_slow` of lib/zlib/deflate.c: lazy matching, levels 4 to 9.  A match is held back for
  one step, in case the next position has a longer one; until it is decided, the byte before
  `strstart` has not been output.
 */
module DeflateLazy {
  import opened Words
  import opened DeflateHash
  import opened DeflateDictionary
  import opened DeflateState
  import opened DeflateWindow
  import opened DeflateMatch
  import opened DeflateRule
  import opened DeflateTally
  import opened Lz77

  /** A match of length `length` from `start` for the string before `strstart`, kept modulo 2^32. */
  ghost predicate Held(s: State, start: U32, length: nat)
    reads s`strstart, s`lookahead, s`input, s`base, s`origin
  {
    Carries(s.input, s.base + s.strstart - 1, s.origin, s.lookahead + 1, Offset(s.strstart - 1, start), s.config.MaxDist(), length)
  }

  /** At stream position `at`, with `ahead` bytes to go, a match within reach and not from before `origin`. */
  predicate Carries(input: seq<Byte>, at: int, origin: nat, ahead: nat, distance: nat, maxDistance: int, length: nat) {
    at >= 0 && length <= ahead && distance <= maxDistance && origin + distance <= at && Repeats(input, at, distance, length)
  }

  lemma CarriesMore(input: seq<Byte>, input': seq<Byte>, at: int, origin: nat, ahead: nat, ahead': nat, distance: nat,
                    maxDistance: int, length: nat)
    requires Carries(input, at, origin, ahead, distance, maxDistance, length) && input <= input' && ahead <= ahead'
    ensures Carries(input', at, origin, ahead', distance, maxDistance, length)
  {
  }

  /** What holds between the steps of the loop, and between calls. */
  ghost predicate SlowReady(s: State)
    reads s, s.window, s.head, s.prev, s.dBuf, s.lBuf
    ensures SlowReady(s) ==> s.lastLit <= s.dBuf.Length && s.lastLit <= s.lBuf.Length
  {
    && s.Valid() && s.HashReady() && (s.matchAvailable ==> s.strstart >= 1)
    && s.Faithful(if s.matchAvailable && s.base + s.strstart >= 1 then s.base + s.strstart - 1 else s.base + s.strstart)
    && 4 <= s.config.level && MIN_MATCH - 1 <= s.matchLength <= MAX_MATCH
    && (s.matchLength >= MIN_MATCH ==> s.matchAvailable && Held(s, s.matchStart, s.matchLength))
    && s.EnteredUpTo(s.base + s.strstart) && (s.base > s.origin ==> s.strstart >= 2) && s.Cleared()
  }

  /**
    Of all strings since the last full flush that have three bytes of input, exactly the missed
    ones are not in the dictionary.
   */
  lemma DictionaryComplete(s: State)
    requires SlowReady(s)
    ensures forall a: nat :: s.origin <= a < s.base + s.strstart && a + 3 <= |s.input| ==> (a in s.inserted <==> a !in s.missed)
  {
    hide Linked, Pow2, Primed, Covered, Restartable, Mirrors, Decode, Repeats;
  }

  /** No position of the window within reach, save the missed ones, begins a match of three bytes or more that is longer. */
  ghost predicate NothingLongerInWindow(s: State, length: nat)
    requires s.config.Valid()
    reads s`base, s`strstart, s`missed, s.window
  {
    forall a: nat :: s.base + Limit(s) < a < s.base + s.strstart && a !in s.missed ==> NotLonger(s, a, length)
  }

  /** With a complete dictionary nothing entered is nothing at all. */
  lemma WholeWindow(s: State, length: nat)
    requires s.Core() && s.EnteredUpTo(s.base + s.strstart + 1) && NothingLonger(s, length)
    requires s.base + s.strstart + 3 <= |s.input|
    ensures NothingLongerInWindow(s, length)
  {
    hide Linked, Pow2, Mirrors, NotLonger;
  }

  /** Whether a match found is worth holding: a short one not when filtering, one of three bytes not from too far. */
  predicate Worth(c: Config, length: nat, distance: int) {
    length > 5 || (c.strategy != Filtered && !(length == MIN_MATCH && distance > TOO_FAR))
  }

  /** What is kept of a match found at `strstart`: its length only if that is worth it. */
  function Keep(c: Config, found: Best, strstart: nat): Best {
    Best(if Worth(c, found.length, Offset(strstart, found.start)) then found.length else MIN_MATCH - 1, found.start)
  }

  lemma WorthIsNotPoor(c: Config, length: nat, distance: int)
    ensures Worth(c, length, distance) <==> !Poor(c, length, distance)
  {
  }

  /** What the search gives, cut to the lookahead and judged. */
  ghost function Judged(s: State, hashHead: nat): Best
    requires s.Shaped() && s.config.level >= 1
    reads s`strstart, s`lookahead, s`matchStart, s`prevLength, s.window, s.prev
  {
    Keep(s.config, SearchIn(s, s.prev[..], hashHead, s.prevLength), s.strstart)
  }

  /** One string within reach is not better than what is kept, if the search is not cut short. */
  lemma KeptBeats(s: State, hashHead: Pos, a: nat)
    requires StringEntered(s) && Candidate(s, hashHead) && s.lookahead >= MIN_MATCH
    requires NoneBetween(s.config.HashBits(), s.input, s.base, s.inserted, hashHead, s.base + s.strstart)
    requires 4 <= s.config.level <= 9 && MIN_MATCH - 1 <= s.prevLength <= MAX_MATCH
    requires |Chain(s.prev[..], hashHead, Limit(s), ChainLength(s.config, s.prevLength))| < ChainLength(s.config, s.prevLength)
    requires a in s.inserted && s.base + Limit(s) < a < s.base + s.strstart
    ensures
      var found := Judged(s, hashHead).length;
      && s.base + s.strstart <= |s.input|
      && (found >= s.config.NiceMatch()
          || !Better(s.config, s.input, a, s.base + s.strstart, if found > s.prevLength then found else s.prevLength))
  {
    hide Linked, Pow2, Primed, HashAt, Mirrors, Candidate, NoneBetween, Chain, Pick, Common, Limit, Offset, Worth, State.Core,
         StringEntered;
    EntryLength(s);
    CoreShaped(s);
    WindowSizes(s.config);
    EqualInWindow(s, a);
    var n := ChainLength(s.config, s.prevLength);
    var k := Common(s.window[..], a - s.base, s.strstart, MAX_MATCH);
    var best := Search(s, hashHead, n, NiceLength(s));
    hide ChainLength;
    if k >= 3 {
      OnChain(s, hashHead, n, a);
      Outdone(s, hashHead, n, NiceLength(s), a - s.base);
    }
    BestBehind(s, hashHead, n);
    WorthIsNotPoor(s.config, Least(best.length, s.lookahead), Offset(s.strstart, best.start));
    hide Search, Poor;
    NotBetter(s.config, k, s.base + s.strstart - a, s.prevLength, best.length, s.strstart - best.start, s.lookahead, NiceLength(s),
              Judged(s, hashHead).length);
  }

  /** No string of the window within reach is, save the missed ones. */
  lemma NoneBeatsKept(s: State, hashHead: Pos)
    requires StringEntered(s) && Candidate(s, hashHead) && s.lookahead >= MIN_MATCH
    requires NoneBetween(s.config.HashBits(), s.input, s.base, s.inserted, hashHead, s.base + s.strstart)
    requires 4 <= s.config.level <= 9 && MIN_MATCH - 1 <= s.prevLength <= MAX_MATCH
    requires s.EnteredUpTo(s.base + s.strstart + 1) && s.base + s.strstart + 3 <= |s.input|
    requires Few(s.config, s.input, s.base, s.base + s.strstart, s.prevLength)
    ensures
      var found := Judged(s, hashHead).length;
      found >= s.config.NiceMatch()
      || NoneBetter(s.config, s.input, s.base, s.missed, s.base + s.strstart, if found > s.prevLength then found else s.prevLength)
  {
    hide Linked, Pow2, Primed, HashAt, Mirrors, Candidate, NoneBetween, Chain, Limit, Crowd, Better, Judged, State.Core,
         StringEntered;
    EntryLength(s);
    CoreShaped(s);
    ChainInCrowd(s, hashHead, ChainLength(s.config, s.prevLength), Crowd(s.config, s.input, s.base, s.base + s.strstart));
    hide ChainLength;
    var found := Judged(s, hashHead).length;
    var length := if found > s.prevLength then found else s.prevLength;
    if found < s.config.NiceMatch() {
      forall a: nat | s.base < a < s.base + s.strstart && s.base + s.strstart - a < s.config.MaxDist() && a !in s.missed
        ensures !Better(s.config, s.input, a, s.base + s.strstart, length)
      {
        InReach(s, a);
        KeptBeats(s, hashHead, a);
      }
    }
  }

  lemma InReach(s: State, a: nat)
    requires s.Core() && s.EnteredUpTo(s.base + s.strstart + 1) && s.base + s.strstart + 3 <= |s.input|
    requires s.base < a < s.base + s.strstart && s.base + s.strstart - a < s.config.MaxDist() && a !in s.missed
    ensures a in s.inserted && s.base + Limit(s) < a
  {
    hide Linked, Pow2, Mirrors;
  }

  /** Nor is any if there is no chain to search, or none within reach. */
  lemma NoneWithoutChain(s: State, hashHead: Pos)
    requires StringEntered(s) && s.base + s.strstart + 3 <= |s.input| && s.lookahead >= MIN_MATCH
    requires NoneBetween(s.config.HashBits(), s.input, s.base, s.inserted, hashHead, s.base + s.strstart)
    requires s.EnteredUpTo(s.base + s.strstart + 1) && (hashHead == 0 || s.strstart - hashHead > s.config.MaxDist())
    ensures NoneBetter(s.config, s.input, s.base, s.missed, s.base + s.strstart, s.prevLength)
  {
    hide Linked, Pow2, Primed, HashAt, Mirrors, NoneBetween, Common, State.Core, StringEntered;
    EntryLength(s);
    forall a: nat | s.base < a < s.base + s.strstart && s.base + s.strstart - a < s.config.MaxDist() && a !in s.missed
      ensures !Better(s.config, s.input, a, s.base + s.strstart, s.prevLength)
    {
      InReach(s, a);
      EqualInWindow(s, a);
      EnteredInput(s);
      if Common(s.window[..], a - s.base, s.strstart, MAX_MATCH) >= 3 {
        CommonHash(s, a);
        NotPast(s, hashHead, a);
      }
    }
  }

  /** A match found lies behind. */
  lemma BestBehind(s: State, hashHead: Pos, n: nat)
    requires StringEntered(s) && Candidate(s, hashHead)
    ensures s.prev.Length > 0 && s.config.Valid()
    ensures
      var best := Search(s, hashHead, n, NiceLength(s));
      && best.length >= s.prevLength
      && (best.length > s.prevLength ==> best.start < s.strstart && Offset(s.strstart, best.start) == s.strstart - best.start)
  {
    hide Linked, Pow2, Primed, HashAt, Mirrors, Candidate, Chain, Pick, Common, Limit, Offset, State.Core, StringEntered;
    EntryLength(s);
    CoreShaped(s);
    WindowSizes(s.config);
    ChainBehind(s, hashHead, Limit(s), n);
    PickIsLongest(s.window[..], s.strstart, Chain(s.prev[..], hashHead, Limit(s), n), NiceLength(s), Best(s.prevLength, s.matchStart));
    var best := Search(s, hashHead, n, NiceLength(s));
    if best.length > s.prevLength {
      OffsetNear(s.strstart, best.start);
    }
  }

  /** Looks for a match longer than the one held; one too short or too far to be worth it is dropped. */
  method TryLonger(s: State, hashHead: Pos, ghost prev: seq<Pos>)
    requires StringEntered(s) && Candidate(s, hashHead) && s.lookahead >= MIN_MATCH
    requires NoneBetween(s.config.HashBits(), s.input, s.base, s.inserted, hashHead, s.base + s.strstart)
    requires 4 <= s.config.level <= 9 && MIN_MATCH - 1 <= s.prevLength <= MAX_MATCH
    requires s.EnteredUpTo(s.base + s.strstart + 1) && |prev| == s.prev.Length > 0
    requires s.prev[..] == prev[s.strstart % s.prev.Length := s.prev[s.strstart % s.prev.Length]]
    modifies s`matchLength, s`matchStart
    ensures StringEntered(s) && MIN_MATCH - 1 <= s.matchLength <= MAX_MATCH
    ensures s.matchLength >= MIN_MATCH && s.matchLength > s.prevLength ==>
      MatchFound(s) && Worth(s.config, s.matchLength, s.strstart - s.matchStart)
    ensures Best(s.matchLength, s.matchStart) == Keep(s.config, old(SearchIn(s, prev, hashHead, s.prevLength)), s.strstart)
    ensures s.base + s.strstart + 3 <= |s.input|
    ensures Few(s.config, s.input, s.base, s.base + s.strstart, s.prevLength) ==>
      s.matchLength >= s.config.NiceMatch() ||
      NoneBetter(s.config, s.input, s.base, s.missed, s.base + s.strstart,
                 if s.matchLength > s.prevLength then s.matchLength else s.prevLength)
    ensures old(Exhaustive(s, hashHead)) ==>
      NothingLongerInWindow(s, old(Search(s, hashHead, ChainLength(s.config, s.prevLength), NiceLength(s))).length)
  {
    hide Linked, Pow2, Primed, Repeats, HashAt, Mirrors, Candidate, NoneBetween, Pick, Chain, NothingLonger, ChainLength,
         NiceLength, Limit, Worth, Exhaustive, Offset, State.Core, StringEntered, NothingLongerInWindow, State.EnteredUpTo,
         Few, NoneBetter;
    EntryLength(s);
    CoreShaped(s);
    WindowSizes(s.config);
    ghost var best := Search(s, hashHead, ChainLength(s.config, s.prevLength), NiceLength(s));
    ghost var exhaustive := Exhaustive(s, hashHead);
    ChainKept(s, prev, hashHead, Limit(s), ChainLength(s.config, s.prevLength));
    if Few(s.config, s.input, s.base, s.base + s.strstart, s.prevLength) {
      NoneBeatsKept(s, hashHead);
    }
    s.matchLength := LongestMatch(s, hashHead);
    if exhaustive {
      WholeWindow(s, best.length);
    }
    if s.matchLength > s.prevLength {
      OffsetNear(s.strstart, s.matchStart);
    }
    DropUnworthy(s);
  }

  /** Forgets a match that is not worth it. */
  method DropUnworthy(s: State)
    modifies s`matchLength
    ensures s.matchLength == if Worth(s.config, old(s.matchLength), s.MatchOffset()) then old(s.matchLength) else MIN_MATCH - 1
  {
    if s.matchLength <= 5
       && (s.config.strategy == Filtered || (s.matchLength == MIN_MATCH && (s.strstart - s.matchStart) % WORD > TOO_FAR))
    {
      s.matchLength := MIN_MATCH - 1;
    }
  }

  /** What is found at `strstart`, if the match held is short enough for a search and the chain within reach. */
  ghost function LazyMatch(s: State): Best
    requires s.Valid() && s.config.level >= 1
    reads s, s.window, s.head, s.prev
  {
    var head := ChainHead(s);
    if head != 0 && s.matchLength < s.config.MaxLazy() && s.strstart - head <= s.config.MaxDist() then
      Keep(s.config, SearchFrom(s, head, s.matchLength), s.strstart)
    else Best(MIN_MATCH - 1, s.matchStart)
  }

  /** Whether the match held is output: nothing longer is found one byte later. */
  ghost predicate TakesHeld(s: State)
    requires s.Valid() && s.config.level >= 1
    reads s, s.window, s.head, s.prev
  {
    s.matchLength >= MIN_MATCH && LazyMatch(s).length <= s.matchLength
  }

  /** What is output at `strstart`: the match held, or the byte before, or nothing yet. */
  ghost function LazyTokens(s: State): seq<Token>
    requires s.Valid() && s.config.level >= 1 && (s.matchAvailable ==> 1 <= s.strstart <= s.window.Length)
    reads s, s.window, s.head, s.prev
  {
    if TakesHeld(s) then [Match(s.matchLength, Offset(s.strstart - 1, s.matchStart))]
    else if s.matchAvailable then [Literal(s.window[s.strstart - 1])]
    else []
  }

  /**
    Enters the string at `strstart` and looks for a match longer than the one held, which
    moves to `prevLength` and `prevMatch`.
   */
  method FindLazy(s: State)
    requires s.Valid() && s.HashReady() && 4 <= s.config.level && MIN_MATCH - 1 <= s.matchLength <= MAX_MATCH
    requires s.strstart <= s.window.Length - MIN_LOOKAHEAD && s.lookahead > 0
    requires s.EnteredUpTo(s.base + s.strstart)
    modifies s`insH, s`inserted, s`frontier, s`prevLength, s`prevMatch, s`matchLength, s`matchStart, s.head, s.prev
    ensures StringEntered(s) && s.EnteredUpTo(s.base + s.strstart + 1)
    ensures s.prevLength == old(s.matchLength) && s.prevMatch == old(s.matchStart)
    ensures MIN_MATCH - 1 <= s.matchLength <= MAX_MATCH
    ensures s.matchLength >= MIN_MATCH && s.matchLength > s.prevLength ==>
      MatchFound(s) && Worth(s.config, s.matchLength, s.strstart - s.matchStart)
    ensures Best(s.matchLength, s.matchStart) == old(LazyMatch(s))
    ensures s.base + s.strstart <= |s.input|
    ensures Finds(s.config, s.input, s.base, s.missed, s.base + s.strstart, s.prevLength, s.matchLength,
                  Offset(s.strstart, s.matchStart))
  {
    hide StringEntered, Candidate, NoneBetween, Config.MaxLazy, State.Core, State.HashReady, Complete, Search,
         SearchIn, Keep, Offset, Chain, Limit, NothingLongerInWindow, ChainLength, NiceLength, Repeats, ChainHead,
         MatchFound, Worth, Finds, Few, NoneBetter;
    ghost var prev := s.prev[..];
    InputLength(s);
    CompleteNext(s.inserted, s.missed, s.origin, s.base + s.strstart, |s.input|);
    CoreShaped(s);
    WindowSizes(s.config);
    var hashHead := EnterString(s);
    EntryLength(s);
    s.prevLength, s.prevMatch := s.matchLength, s.matchStart;
    s.matchLength := MIN_MATCH - 1;
    SearchLazy(s, hashHead, prev);
  }

  /** The search, if there is one. */
  method SearchLazy(s: State, hashHead: Pos, ghost prev: seq<Pos>)
    requires StringEntered(s) && s.lookahead > 0 && (hashHead != 0 ==> s.lookahead >= MIN_MATCH && s.strstart >= hashHead)
    requires hashHead != 0 && s.strstart - hashHead <= s.config.MaxDist() ==> Candidate(s, hashHead)
    requires s.lookahead >= MIN_MATCH ==>
      && s.base + s.strstart + 3 <= |s.input|
      && NoneBetween(s.config.HashBits(), s.input, s.base, s.inserted, hashHead, s.base + s.strstart)
    requires 4 <= s.config.level <= 9 && MIN_MATCH - 1 == s.matchLength <= s.prevLength <= MAX_MATCH
    requires s.EnteredUpTo(s.base + s.strstart + 1) && |prev| == s.prev.Length > 0
    requires s.prev[..] == prev[s.strstart % s.prev.Length := s.prev[s.strstart % s.prev.Length]]
    modifies s`matchLength, s`matchStart
    ensures StringEntered(s) && MIN_MATCH - 1 <= s.matchLength <= MAX_MATCH
    ensures s.matchLength >= MIN_MATCH && s.matchLength > s.prevLength ==>
      MatchFound(s) && Worth(s.config, s.matchLength, s.strstart - s.matchStart)
    ensures Best(s.matchLength, s.matchStart) ==
      if hashHead != 0 && s.prevLength < s.config.MaxLazy() && s.strstart - hashHead <= s.config.MaxDist()
      then Keep(s.config, old(SearchIn(s, prev, hashHead, s.prevLength)), s.strstart)
      else Best(MIN_MATCH - 1, old(s.matchStart))
    ensures s.base + s.strstart <= |s.input|
    ensures Finds(s.config, s.input, s.base, s.missed, s.base + s.strstart, s.prevLength, s.matchLength,
                  Offset(s.strstart, s.matchStart))
  {
    hide StringEntered, Candidate, NoneBetween, Config.MaxLazy, State.Core, Search, SearchIn, Keep, Offset, Chain, Limit,
         NothingLongerInWindow, ChainLength, NiceLength, Repeats, MatchFound, Worth, Finds, Few, NoneBetter, State.EnteredUpTo, Pow2;
    EntryLength(s);
    if hashHead != 0 && s.prevLength < s.config.MaxLazy() && s.strstart - hashHead <= s.config.MaxDist() {
      TryLonger(s, hashHead, prev);
    } else if s.lookahead >= MIN_MATCH && s.prevLength < s.config.MaxLazy() {
      NoneWithoutChain(s, hashHead);
    }
    FindsIt(s);
  }

  /** The rule, from its parts. */
  lemma FindsIt(s: State)
    requires StringEntered(s) && MIN_MATCH - 1 <= s.matchLength <= MAX_MATCH && s.prevLength >= MIN_MATCH - 1
    requires s.matchLength >= MIN_MATCH && s.matchLength > s.prevLength ==>
      MatchFound(s) && Worth(s.config, s.matchLength, s.strstart - s.matchStart)
    requires s.lookahead < MIN_MATCH || s.prevLength >= s.config.MaxLazy() ==> s.matchLength == MIN_MATCH - 1
    requires |s.input| == s.base + s.strstart + s.lookahead
    requires s.lookahead >= MIN_MATCH && s.prevLength < s.config.MaxLazy()
             && Few(s.config, s.input, s.base, s.base + s.strstart, s.prevLength) ==>
      s.matchLength >= s.config.NiceMatch() ||
      NoneBetter(s.config, s.input, s.base, s.missed, s.base + s.strstart,
                 if s.matchLength > s.prevLength then s.matchLength else s.prevLength)
    ensures Finds(s.config, s.input, s.base, s.missed, s.base + s.strstart, s.prevLength, s.matchLength,
                  Offset(s.strstart, s.matchStart))
  {
    hide Few, NoneBetter, State.Core, Repeats, Pow2, Primed;
    EntryFits(s);
    if s.matchLength > s.prevLength {
      OffsetNear(s.strstart, s.matchStart);
      WorthIsNotPoor(s.config, s.matchLength, s.strstart - s.matchStart);
    }
    hide Poor, Worth;
  }

  /** Enters the strings of the match being output, as far as the input allows. */
  method InsertHeld(s: State, maxInsert: nat)
    requires s.Core() && s.frontier <= s.base + s.strstart + 1 && s.prevLength >= 1
    requires maxInsert + MIN_MATCH == s.dataEnd && s.strstart + s.prevLength < s.window.Length
    requires s.strstart + 1 <= maxInsert ==>
      Primed(s.config.HashBits(), s.insH, s.window[s.strstart + 1], s.window[s.strstart + 2])
    modifies s`insH, s`inserted, s`frontier, s`prevLength, s`strstart, s.head, s.prev
    requires s.EnteredUpTo(s.base + s.strstart + 1) && |s.input| == s.base + s.dataEnd
    ensures s.Core() && s.frontier <= s.base + s.strstart + 1 && s.prevLength == 0
    ensures s.EnteredUpTo(s.base + s.strstart + 1)
    ensures s.strstart + 1 <= maxInsert ==>
      Primed(s.config.HashBits(), s.insH, s.window[s.strstart + 1], s.window[s.strstart + 2])
    ensures s.strstart == old(s.strstart) + old(s.prevLength)
  {
    hide Linked, Pow2, Primed, Mirrors, HashAt, NoneBetween, Complete;
    WindowSizes(s.config);
    while true
      invariant s.Core() && s.frontier <= s.base + s.strstart + 1 && s.prevLength >= 1
      invariant s.EnteredUpTo(s.base + s.strstart + 1)
      invariant s.strstart + s.prevLength == old(s.strstart + s.prevLength)
      invariant s.strstart + 1 <= maxInsert ==>
        Primed(s.config.HashBits(), s.insH, s.window[s.strstart + 1], s.window[s.strstart + 2])
      decreases s.prevLength
    {
      s.strstart := s.strstart + 1;
      CompleteNext(s.inserted, s.missed, s.origin, s.base + s.strstart, |s.input|);
      if s.strstart <= maxInsert {
        var _ := InsertString(s, s.strstart);
      }
      s.prevLength := s.prevLength - 1;
      if s.prevLength == 0 { break; }
    }
  }

  /** Outputs the match held and moves past it. */
  method EmitHeld(s: State) returns (bflush: bool)
    requires StringEntered(s) && s.strstart >= 1 && s.matchAvailable && s.Faithful(s.base + s.strstart - 1)
    requires MIN_MATCH <= s.prevLength <= MAX_MATCH && Held(s, s.prevMatch, s.prevLength)
    requires s.EnteredUpTo(s.base + s.strstart + 1)
    modifies s`insH, s`inserted, s`frontier, s`prevLength, s`matchLength, s`matchAvailable, s`strstart, s`lookahead,
             s`lastLit, s.head, s.prev, s.dBuf, s.lBuf
    ensures s.Valid() && s.HashReady() && s.matchLength == MIN_MATCH - 1 && !s.matchAvailable
    ensures s.Covers(s.base + s.strstart) && (!bflush ==> s.Faithful(s.base + s.strstart))
    ensures s.lookahead < old(s.lookahead)
    ensures s.Tokens() == old(s.Tokens()) + [Match(old(s.prevLength), old(Offset(s.strstart - 1, s.prevMatch)))]
    ensures s.EnteredUpTo(s.base + s.strstart)
    ensures s.lookahead >= old(s.lookahead) - MAX_MATCH
    ensures s.strstart == old(s.strstart) + old(s.prevLength) - 1
    ensures s.lastLit == old(s.lastLit) + 1 && bflush == (s.lastLit == s.config.LitBufsize() - 1)
  {
    hide Linked, Pow2, Primed, Repeats, Covered, Restartable, Mirrors, Decode, Complete, Stranded, State.EnteredUpTo;
    ghost var n := s.base + s.strstart - 1;
    bflush := TallyDist(s, (s.strstart - 1 - s.prevMatch) % WORD, s.prevLength - MIN_MATCH, n);
    PassHeld(s);
    assert s.base + s.strstart == n + old(s.prevLength);
  }

  /** Moves past the match held, which begins one byte before `strstart`. */
  method PassHeld(s: State)
    requires StringEntered(s) && s.strstart >= 1 && MIN_MATCH <= s.prevLength <= MAX_MATCH && s.prevLength <= s.lookahead + 1
    requires s.EnteredUpTo(s.base + s.strstart + 1)
    modifies s`insH, s`inserted, s`frontier, s`prevLength, s`matchLength, s`matchAvailable, s`strstart, s`lookahead,
             s.head, s.prev
    ensures s.Valid() && s.HashReady() && s.matchLength == MIN_MATCH - 1 && !s.matchAvailable
    ensures s.strstart == old(s.strstart) + old(s.prevLength) - 1
    ensures s.lookahead == old(s.lookahead) - (old(s.prevLength) - 1)
    ensures s.dBuf[..] == old(s.dBuf[..]) && s.lBuf[..] == old(s.lBuf[..])
    ensures s.EnteredUpTo(s.base + s.strstart)
  {
    hide Linked, Pow2, Primed, Mirrors, Complete, Stranded, State.Core;
    EntryLength(s);
    CoreShaped(s);
    var maxInsert := s.strstart + s.lookahead - MIN_MATCH;
    s.lookahead := s.lookahead - (s.prevLength - 1);
    s.prevLength := s.prevLength - 2;
    InsertHeld(s, maxInsert);
    s.matchAvailable := false;
    s.matchLength := MIN_MATCH - 1;
    s.strstart := s.strstart + 1;
  }

  /** The branch that outputs the match held; `full` tells that the caller must return. */
  method TakeHeld(s: State) returns (full: bool)
    requires !s.outputFull
    requires StringEntered(s) && s.strstart >= 1 && s.matchAvailable && s.Faithful(s.base + s.strstart - 1)
    requires MIN_MATCH <= s.prevLength <= MAX_MATCH && Held(s, s.prevMatch, s.prevLength) && 4 <= s.config.level
    requires s.EnteredUpTo(s.base + s.strstart + 1) && (s.base > s.origin ==> s.strstart >= 2) && s.Cleared()
    modifies s`insH, s`inserted, s`frontier, s`prevLength, s`matchLength, s`matchAvailable, s`strstart, s`lookahead,
             s`lastLit, s`flushed, s`blockStart, s`outputFull, s`blocks, s.head, s.prev, s.dBuf, s.lBuf
    ensures SlowReady(s) && !s.matchAvailable && s.matchLength == MIN_MATCH - 1
    ensures s.strstart == old(s.strstart) + old(s.prevLength) - 1
    ensures s.lookahead < old(s.lookahead)
    ensures s.Tokens() == old(s.Tokens()) + [Match(old(s.prevLength), old(Offset(s.strstart - 1, s.prevMatch)))]
    ensures full == s.outputFull && Tallied(s, old(s.lastLit), old(s.blocks))
    ensures s.Sent() >= old(s.Sent()) && (full ==> s.Sent() > old(s.Sent()))
    ensures s.lookahead >= old(s.lookahead) - MAX_MATCH
  {
    hide Linked, Pow2, Primed, Repeats, Covered, Restartable, Mirrors, Decode, StringEntered, Held, Offset,
         Complete, Stranded, State.EnteredUpTo, State.Cleared, State.Core, State.HashReady, SlowReady;
    full := false;
    var bflush := EmitHeld(s);
    if bflush {
      var r;
      full, r := FlushBlock(s, false);
    }
    SlowWhole(s);
  }

  /** Outputs the byte before `strstart`, and flushes a full tally. */
  method EmitPrevious(s: State)
    requires !s.outputFull
    requires StringEntered(s) && s.strstart >= 1 && s.Faithful(s.base + s.strstart - 1)
    modifies s`lastLit, s`flushed, s`blockStart, s`outputFull, s`blocks, s.dBuf, s.lBuf
    ensures StringEntered(s) && s.Faithful(s.base + s.strstart) && Tallied(s, old(s.lastLit), old(s.blocks))
    ensures s.Tokens() == old(s.Tokens()) + [Literal(old(s.window[s.strstart - 1]))]
    ensures s.Sent() >= old(s.Sent()) && (s.outputFull ==> s.Sent() > old(s.Sent()))
  {
    hide Linked, Pow2, Primed, Covered, Restartable, Mirrors, Decode;
    WindowByte(s, s.strstart - 1);
    var bflush := TallyLit(s, s.window[s.strstart - 1], s.base + s.strstart - 1);
    if bflush {
      FlushBlockOnly(s);
    }
  }

  /** The branch that outputs the byte before `strstart`, because the match at `strstart` is longer or there is none. */
  method TakeByte(s: State) returns (full: bool)
    requires !s.outputFull
    requires StringEntered(s) && s.strstart >= 1 && s.matchAvailable && s.Faithful(s.base + s.strstart - 1)
    requires 4 <= s.config.level && MIN_MATCH - 1 <= s.matchLength <= MAX_MATCH
    requires s.matchLength >= MIN_MATCH ==> MatchFound(s)
    requires s.EnteredUpTo(s.base + s.strstart + 1) && (s.base > s.origin ==> s.strstart >= 2) && s.Cleared()
    modifies s`strstart, s`lookahead, s`lastLit, s`flushed, s`blockStart, s`outputFull, s`blocks, s.dBuf, s.lBuf
    ensures SlowReady(s) && s.strstart == old(s.strstart) + 1
    ensures s.lookahead < old(s.lookahead)
    ensures s.Tokens() == old(s.Tokens()) + [Literal(old(s.window[s.strstart - 1]))]
    ensures full == s.outputFull && Tallied(s, old(s.lastLit), old(s.blocks))
    ensures s.Sent() >= old(s.Sent()) && (full ==> s.Sent() > old(s.Sent()))
    ensures s.lookahead >= old(s.lookahead) - MAX_MATCH
  {
    hide Linked, Pow2, Primed, Repeats, Covered, Restartable, Mirrors, Decode, Complete, Stranded, State.EnteredUpTo,
         StringEntered, MatchFound, Held, State.Cleared, State.Core, State.HashReady, SlowReady;
    EmitPrevious(s);
    Advance(s);
    full := s.outputFull;
    SlowWhole(s);
  }

  /** The branch at the start of a stretch: there is no previous byte to decide on. */
  method HoldFirst(s: State)
    requires StringEntered(s) && !s.matchAvailable && s.Faithful(s.base + s.strstart)
    requires 4 <= s.config.level && MIN_MATCH - 1 <= s.matchLength <= MAX_MATCH
    requires s.matchLength >= MIN_MATCH ==> MatchFound(s)
    requires s.EnteredUpTo(s.base + s.strstart + 1) && (s.base > s.origin ==> s.strstart >= 2) && s.Cleared()
    modifies s`strstart, s`lookahead, s`matchAvailable
    ensures SlowReady(s) && s.matchAvailable && s.strstart == old(s.strstart) + 1
    ensures s.lookahead < old(s.lookahead) && old(s.Tokens()) == s.Tokens()
    ensures s.lookahead >= old(s.lookahead) - MAX_MATCH
  {
    hide Linked, Pow2, Primed, Repeats, Covered, Restartable, Mirrors, Decode, Complete, Stranded, State.EnteredUpTo, State.Cleared;
    s.matchAvailable := true;
    Advance(s);
    SlowWhole(s);
  }

  ghost function ViewOf(s: State): View
    requires s.lastLit <= s.dBuf.Length && s.lastLit <= s.lBuf.Length
    reads s, s.dBuf, s.lBuf
  {
    View(s.input, s.nextIn, s.base, s.base + s.strstart, s.matchLength,
         if s.matchLength >= MIN_MATCH then Offset(s.strstart - 1, s.matchStart) else 0, s.matchAvailable, s.Tokens(), s.missed)
  }

  lemma SlowParts(s: State)
    requires SlowReady(s)
    ensures s.Shaped() && s.Valid() && s.HashReady() && s.Cleared() && s.EnteredUpTo(s.base + s.strstart)
    ensures 4 <= s.config.level && MIN_MATCH - 1 <= s.matchLength <= MAX_MATCH && (s.base > s.origin ==> s.strstart >= 2)
    ensures if s.matchAvailable then s.strstart >= 1 && s.Faithful(s.base + s.strstart - 1) else s.Faithful(s.base + s.strstart)
    ensures s.matchLength >= MIN_MATCH ==> s.matchAvailable && Held(s, s.matchStart, s.matchLength)
  {
    hide Linked, Pow2, Mirrors, State.HashReady, Covered, Restartable, Decode, State.EnteredUpTo, State.Cleared, Held;
  }

  lemma SlowWhole(s: State)
    requires s.Valid() && s.HashReady() && s.Cleared() && s.EnteredUpTo(s.base + s.strstart)
    requires 4 <= s.config.level && MIN_MATCH - 1 <= s.matchLength <= MAX_MATCH && (s.base > s.origin ==> s.strstart >= 2)
    requires if s.matchAvailable then s.strstart >= 1 && s.Faithful(s.base + s.strstart - 1) else s.Faithful(s.base + s.strstart)
    requires s.matchLength >= MIN_MATCH ==> s.matchAvailable && Held(s, s.matchStart, s.matchLength)
    ensures SlowReady(s)
  {
    hide State.Core, State.HashReady, Covered, Restartable, Decode, State.EnteredUpTo, State.Cleared, Held;
  }

  /** The view of a state whose match held has moved to `prevLength` and `prevMatch`. */
  ghost function Before(s: State): View
    requires s.lastLit <= s.dBuf.Length && s.lastLit <= s.lBuf.Length
    reads s, s.dBuf, s.lBuf
  {
    View(s.input, s.nextIn, s.base, s.base + s.strstart, s.prevLength,
         if s.prevLength >= MIN_MATCH then Offset(s.strstart - 1, s.prevMatch) else 0, s.matchAvailable, s.Tokens(), s.missed)
  }

  /** The next byte can be decided on, and what is found there keeps the rule. */
  ghost predicate Found(s: State)
    reads s, s.window
  {
    && s.base + s.strstart < |s.input| && (s.nextIn == [] || s.base + s.strstart + MIN_LOOKAHEAD <= |s.input|)
    && (s.matchAvailable ==> 1 <= s.strstart <= s.window.Length && s.window[s.strstart - 1] == s.input[s.base + s.strstart - 1])
    && Finds(s.config, s.input, s.base, s.missed, s.base + s.strstart, s.prevLength, s.matchLength, Offset(s.strstart, s.matchStart))
  }

  /** The three branches, once it is known what is found at `strstart`. */
  method Settle(s: State) returns (full: bool)
    requires !s.outputFull
    requires StringEntered(s) && s.EnteredUpTo(s.base + s.strstart + 1) && s.Cleared() && 4 <= s.config.level
    requires MIN_MATCH - 1 <= s.matchLength <= MAX_MATCH && MIN_MATCH - 1 <= s.prevLength <= MAX_MATCH
    requires (s.base > s.origin ==> s.strstart >= 2) && s.lastLit <= s.dBuf.Length && s.lastLit <= s.lBuf.Length
    requires if s.matchAvailable then s.strstart >= 1 && s.Faithful(s.base + s.strstart - 1) else s.Faithful(s.base + s.strstart)
    requires s.prevLength >= MIN_MATCH ==> s.matchAvailable && Held(s, s.prevMatch, s.prevLength)
    requires s.matchLength >= MIN_MATCH && s.matchLength > s.prevLength ==> MatchFound(s)
    modifies s`insH, s`inserted, s`frontier, s`prevLength, s`matchLength, s`matchAvailable,
             s`strstart, s`lookahead, s`lastLit, s`flushed, s`blockStart, s`outputFull, s`blocks, s.head, s.prev, s.dBuf, s.lBuf
    ensures SlowReady(s) && (s.matchAvailable ==> s.strstart >= 1)
    ensures s.lookahead < old(s.lookahead) && s.lookahead >= old(s.lookahead) - MAX_MATCH
    ensures
      if old(s.prevLength >= MIN_MATCH && s.matchLength <= s.prevLength)
      then !s.matchAvailable && s.matchLength == MIN_MATCH - 1 && s.strstart == old(s.strstart) + old(s.prevLength) - 1
      else s.matchAvailable && s.matchLength == old(s.matchLength) && s.strstart == old(s.strstart) + 1
    ensures s.Tokens() == old(s.Tokens()) +
      if old(s.prevLength >= MIN_MATCH && s.matchLength <= s.prevLength)
      then [Match(old(s.prevLength), old(Offset(s.strstart - 1, s.prevMatch)))]
      else if old(s.matchAvailable) then [Literal(old(s.window[s.strstart - 1]))]
      else []
    ensures full == s.outputFull && s.Filled(old(s.blocks))
    ensures if old(s.matchAvailable) then Tallied(s, old(s.lastLit), old(s.blocks))
            else s.lastLit == old(s.lastLit) && s.blocks == old(s.blocks) && !s.outputFull
    ensures s.Sent() >= old(s.Sent()) && (full ==> s.Sent() > old(s.Sent()))
    ensures old(Found(s)) ==> Steps(s.config, old(Before(s)), ViewOf(s))
  {
    hide Linked, Pow2, Primed, Repeats, Covered, Restartable, Mirrors, Decode, StringEntered, MatchFound, Complete, Stranded,
         State.EnteredUpTo, State.Cleared, State.Core, State.HashReady, State.Valid, State.Faithful, Held, Offset, SlowReady,
         Finds, Steps;
    ghost var (v, found, distance) := (Before(s), s.matchLength, Offset(s.strstart, s.matchStart));
    ghost var ready := Found(s);
    full := false;
    if s.prevLength >= MIN_MATCH && s.matchLength <= s.prevLength {
      full := TakeHeld(s);
    } else if s.matchAvailable {
      full := TakeByte(s);
    } else {
      HoldFirst(s);
    }
    if ready {
      StepMoves(s.config, v, ViewOf(s), found, distance);
    }
  }

  /**
    One turn of the loop, once there is lookahead: outputs the match held, or the byte before
    `strstart`, or nothing yet.
   */
  method SlowStep(s: State) returns (full: bool)
    requires !s.outputFull
    requires SlowReady(s) && s.strstart <= s.window.Length - MIN_LOOKAHEAD && s.lookahead > 0
    modifies s`insH, s`inserted, s`frontier, s`prevLength, s`prevMatch, s`matchLength, s`matchStart, s`matchAvailable,
             s`strstart, s`lookahead, s`lastLit, s`flushed, s`blockStart, s`outputFull, s`blocks, s.head, s.prev, s.dBuf, s.lBuf
    ensures SlowReady(s)
    ensures s.lookahead < old(s.lookahead) && s.Tokens() == old(s.Tokens()) + old(LazyTokens(s))
    ensures s.nextIn == [] || old(s.lookahead) >= MIN_LOOKAHEAD ==> Steps(s.config, old(ViewOf(s)), ViewOf(s))
    ensures s.strstart == old(s.strstart) + (if old(TakesHeld(s)) then old(s.matchLength) - 1 else 1)
    ensures s.matchAvailable == !old(TakesHeld(s))
    ensures full == s.outputFull && s.Filled(old(s.blocks))
    ensures if old(LazyTokens(s)) == [] then s.lastLit == old(s.lastLit) && s.blocks == old(s.blocks) && !s.outputFull
            else Tallied(s, old(s.lastLit), old(s.blocks))
    ensures s.Sent() >= old(s.Sent()) && (full ==> s.Sent() > old(s.Sent()))
    ensures s.lookahead >= old(s.lookahead) - MAX_MATCH && s.insert == old(s.insert)
  {
    hide Linked, Pow2, Primed, Repeats, Covered, Restartable, Mirrors, Decode, StringEntered, MatchFound, Complete, Stranded,
         State.EnteredUpTo, State.Cleared, State.Core, State.HashReady, State.Valid, State.Faithful, Held, Offset, SlowReady, LazyMatch,
         Worth, Finds, Steps, Tallied;
    SlowParts(s);
    SlowLength(s);
    if s.matchAvailable {
      PreviousByte(s);
    }
    FindLazy(s);
    assert s.dBuf[..] == old(s.dBuf[..]) && s.lBuf[..] == old(s.lBuf[..]);
    full := Settle(s);
  }

  lemma StepMoves(c: Config, v: View, w: View, found: nat, distance: nat)
    requires Moves(c, v, w, found, distance)
    ensures Steps(c, v, w)
  {
    hide Moves;
  }

  lemma PreviousByte(s: State)
    requires s.Valid() && s.strstart >= 1
    ensures s.strstart <= s.window.Length && s.window[s.strstart - 1] == s.input[s.base + s.strstart - 1]
  {
    hide Linked, Pow2;
    WindowByte(s, s.strstart - 1);
  }

  /** Moves one byte on; a match found at `strstart` is now held for the byte before it. */
  method Advance(s: State)
    requires StringEntered(s)
    requires s.matchLength >= MIN_MATCH ==> MatchFound(s)
    modifies s`strstart, s`lookahead
    ensures s.Valid() && s.HashReady()
    ensures s.strstart == old(s.strstart) + 1 && s.lookahead == old(s.lookahead) - 1
    ensures s.matchLength >= MIN_MATCH ==> Held(s, s.matchStart, s.matchLength)
  {
    hide Linked, Pow2, Primed, Repeats, Mirrors;
    WindowSizes(s.config);
    s.strstart := s.strstart + 1;
    s.lookahead := s.lookahead - 1;
  }

  /** The beginning of the body of the loop: enough lookahead, if there is enough input. */
  method LookAhead(s: State)
    requires SlowReady(s)
    modifies s`nextIn, s`insH, s`blockStart, s`strstart, s`matchStart, s`lookahead, s`insert, s`highWater,
             s`input, s`base, s`dataEnd, s`inserted, s`frontier, s`missed, s`unwritten, s.window, s.head, s.prev
    ensures SlowReady(s)
    ensures old(s.input) <= s.input && s.input + s.nextIn == old(s.input + s.nextIn)
    ensures s.lookahead >= MIN_LOOKAHEAD || s.nextIn == []
    ensures s.strstart <= s.window.Length - MIN_LOOKAHEAD
    ensures |s.nextIn| + s.lookahead == old(|s.nextIn| + s.lookahead)
    ensures s.Tokens() == old(s.Tokens()) && s.Sent() == old(s.Sent())
    ensures s.missed == old(s.missed) + Stranded(s.origin, |old(s.input)|, old(s.Leftover()), |s.input|)
    ensures old(s.TailKept()) ==> s.TailKept()
    ensures Goes(s.config, old(ViewOf(s)), ViewOf(s))
  {
    hide SlowReady, Decode, Stranded, State.Tokens, State.Sent, State.TailKept, State.Leftover, Fills, Steps, ViewOf;
    SlowLength(s);
    StrandedNone(s.origin, |s.input|, s.Leftover(), |s.input|);
    if s.lookahead < MIN_LOOKAHEAD {
      RefillHeld(s);
    }
  }

  /** The body of the loop. */
  method SlowTurn(s: State, flush: Flush) returns (turn: Turn, ghost mid: View)
    requires !s.outputFull
    requires SlowReady(s)
    modifies s, s.window, s.head, s.prev, s.dBuf, s.lBuf
    ensures SlowReady(s)
    ensures s.origin == old(s.origin) && s.mark == old(s.mark)
    ensures old(s.input) <= s.input && s.input + s.nextIn == old(s.input + s.nextIn) && old(s.Tokens()) <= s.Tokens()
    ensures turn == Again ==> |s.nextIn| + s.lookahead < old(|s.nextIn| + s.lookahead)
    ensures turn == Drained ==> s.nextIn == [] && s.lookahead == 0 && flush != NoFlush
    ensures turn.Return? ==> turn.state == NeedMore && (s.outputFull || (flush == NoFlush && s.nextIn == []))
    ensures s.Sent() >= old(s.Sent()) && (s.outputFull ==> s.Sent() > old(s.Sent()))
    ensures s.Filled(old(s.blocks)) && (!turn.Return? ==> !s.outputFull)
    ensures s.missed == old(s.missed) + Stranded(s.origin, |old(s.input)|, old(s.Leftover()), |s.input|)
    ensures turn == Again ==> s.nextIn == [] || s.lookahead >= 2
    ensures flush == NoFlush && old(s.TailKept()) ==> s.TailKept()
    ensures Goes(s.config, old(ViewOf(s)), mid) && Goes(s.config, mid, ViewOf(s))
  {
    hide SlowReady, Decode, Stranded, LazyTokens, TakesHeld, Tallied, State.Tokens, State.Sent, Goes, Steps, ViewOf, LazyMatch,
         Config.WSize, Config.MaxDist, Config.LitBufsize, State.Pending, State.TailKept, State.Leftover;
    SlowLength(s);
    LookAhead(s);
    mid := ViewOf(s);
    GoesNowhere(s.config, mid);
    if s.lookahead < MIN_LOOKAHEAD && flush == NoFlush {
      return Return(NeedMore), mid;
    }
    if s.lookahead == 0 { return Drained, mid; }
    var full := SlowStep(s);
    StepGoes(s.config, mid, ViewOf(s));
    SlowLength(s);
    if flush == NoFlush {
      NoTail(s);
    }
    turn := if full then Return(NeedMore) else Again;
  }

  lemma GoesNowhere(c: Config, v: View)
    ensures Goes(c, v, v)
  {
  }

  lemma StepGoes(c: Config, v: View, w: View)
    requires Steps(c, v, w)
    ensures Goes(c, v, w)
  {
  }

  lemma NoTail(s: State)
    requires SlowReady(s) && s.lookahead >= 2
    ensures s.TailKept()
  {
    hide SlowReady;
    SlowLength(s);
  }

  /** After the loop: the byte still undecided goes out as a literal. */
  method EmitLast(s: State)
    requires SlowReady(s) && s.nextIn == [] && s.lookahead == 0
    modifies s`matchAvailable, s`lastLit, s.dBuf, s.lBuf
    ensures s.Valid() && s.Covers(s.base + s.strstart) && !s.matchAvailable && s.matchLength == MIN_MATCH - 1
    ensures s.lastLit <= s.dBuf.Length && s.lastLit <= s.lBuf.Length
    ensures Ends(old(ViewOf(s)), ViewOf(s)) && old(s.Tokens()) <= s.Tokens()
  {
    hide Linked, Pow2, Primed, Covered, Restartable, Mirrors, Decode, Repeats;
    SlowLength(s);
    if s.matchAvailable {
      WindowByte(s, s.strstart - 1);
      var _ := TallyLit(s, s.window[s.strstart - 1], s.base + s.strstart - 1);
      s.matchAvailable := false;
    }
  }

  /** The strings that may still want for bytes are left over. */
  method LeaveTail(s: State)
    requires s.Valid() && s.lookahead == 0 && (s.base > s.origin ==> s.strstart >= 2)
    modifies s`insert
    ensures s.Valid() && s.TailKept()
  {
    hide Linked, Pow2, Mirrors;
    InputLength(s);
    TailNotEntered(s);
    s.insert := if s.strstart < MIN_MATCH - 1 then s.strstart else MIN_MATCH - 1;
  }

  /** What is left when the input is used up: the byte still undecided, and the strings that want for bytes. */
  method SettleTail(s: State)
    requires SlowReady(s) && s.nextIn == [] && s.lookahead == 0
    modifies s`insert, s`matchAvailable, s`lastLit, s.dBuf, s.lBuf
    ensures s.Valid() && s.HashReady() && s.Cleared() && s.EnteredUpTo(s.base + s.strstart) && s.Covers(s.base + s.strstart)
    ensures 4 <= s.config.level && s.matchLength == MIN_MATCH - 1 && !s.matchAvailable && (s.base > s.origin ==> s.strstart >= 2)
    ensures s.lastLit <= s.dBuf.Length && s.lastLit <= s.lBuf.Length && s.TailKept()
    ensures Ends(old(ViewOf(s)), ViewOf(s)) && old(s.Tokens()) <= s.Tokens()
  {
    hide Linked, Pow2, Primed, Covered, Restartable, Mirrors, Decode, Complete, Stranded, State.EnteredUpTo, Held, Repeats,
         State.Cleared, State.Valid, State.HashReady, State.Faithful, State.Covers, State.Tokens, State.Pending, State.TailKept,
         SlowReady, Ends, Offset;
    SlowParts(s);
    EmitLast(s);
    ghost var view := ViewOf(s);
    LeaveTail(s);
    assert ViewOf(s) == view;
  }

  /** What follows the loop. */
  method SlowEnd(s: State, flush: Flush) returns (r: BlockState)
    requires !s.outputFull
    requires SlowReady(s) && s.nextIn == [] && s.lookahead == 0
    modifies s`insert, s`matchAvailable, s`lastLit, s`flushed, s`blockStart, s`outputFull, s`blocks, s.dBuf, s.lBuf
    ensures SlowReady(s) && s.lastLit == 0 && !s.matchAvailable
    ensures old(s.Tokens()) <= s.Tokens()
    ensures flush == Finish ==> r == if s.outputFull then FinishStarted else FinishDone
    ensures flush != Finish ==> r == if s.outputFull then NeedMore else BlockDone
    ensures s.Filled(old(s.blocks)) && s.Sent() >= old(s.Sent()) && (r == NeedMore ==> s.Sent() > old(s.Sent()))
    ensures s.TailKept()
    ensures Ends(old(ViewOf(s)), ViewOf(s))
  {
    hide Linked, Pow2, Primed, Covered, Restartable, Mirrors, Decode, Complete, Stranded, State.EnteredUpTo, Held, Repeats,
         State.Cleared, State.Valid, State.HashReady, State.Faithful, State.Covers, State.Tokens, State.Pending, State.TailKept,
         SlowReady, Ends, Offset, Config.WSize, Config.MaxDist, Config.LitBufsize;
    SettleTail(s);
    ghost var view := ViewOf(s);
    r := EndBlock(s, flush);
    SlowWhole(s);
  }

  /**
    `deflate_slow`.  However often it is called, with whatever input and whenever the output
    fills up, the tokens expand to exactly the input before `strstart`, less the byte still
    undecided; when it reports a block done or finished, that is all the input there was and
    it has all been flushed.
   */
  method DeflateSlow(s: State, flush: Flush) returns (r: BlockState, ghost trace: seq<View>)
    requires !s.outputFull
    requires SlowReady(s)
    modifies s, s.window, s.head, s.prev, s.dBuf, s.lBuf
    ensures SlowReady(s)
    ensures s.origin == old(s.origin) && s.mark == old(s.mark)
    ensures old(s.input) <= s.input && s.input + s.nextIn == old(s.input + s.nextIn)
    ensures old(s.Tokens()) <= s.Tokens()
    ensures r != NeedMore ==> s.nextIn == [] && s.lookahead == 0 && s.lastLit == 0 && !s.matchAvailable && flush != NoFlush
    ensures r == NeedMore ==> s.outputFull || (flush == NoFlush && s.nextIn == [])
    ensures r == FinishDone || r == FinishStarted ==> flush == Finish
    ensures (r == BlockDone ==> flush != Finish) && (r == BlockDone || r == FinishDone ==> !s.outputFull)
    ensures s.Filled(old(s.blocks))
    ensures s.Sent() >= old(s.Sent()) && (r == NeedMore && s.outputFull ==> s.Sent() > old(s.Sent()))
    ensures s.missed == old(s.missed) + Stranded(s.origin, |old(s.input)|, old(s.Leftover()), |s.input|)
    ensures r != NeedMore || (flush == NoFlush && old(s.TailKept())) ==> s.TailKept()
    ensures trace != [] && Trace(s.config, trace, old(ViewOf(s)), trace[|trace| - 1])
    ensures Ends(trace[|trace| - 1], ViewOf(s)) || (r == NeedMore && trace[|trace| - 1] == ViewOf(s))
  {
    hide SlowReady, Decode, Stranded, State.TailKept, State.Leftover, State.Tokens, Goes, Trace, ViewOf, Ends;
    trace := [ViewOf(s)];
    TraceStart(s.config, ViewOf(s));
    SlowLength(s);
    StrandedNone(s.origin, |s.input|, s.Leftover(), |s.input|);
    var turn := Again;
    ghost var first := true;
    while turn == Again
      invariant SlowReady(s)
      invariant s.missed == old(s.missed) + Stranded(s.origin, |old(s.input)|, old(s.Leftover()), |s.input|)
      invariant flush == NoFlush && old(s.TailKept()) ==> s.TailKept()
      invariant first ==> s.input == old(s.input) && s.Leftover() == old(s.Leftover())
      invariant turn == Again && !first ==> s.nextIn == [] || s.lookahead >= 2
      invariant turn == Again ==> |s.nextIn| + s.lookahead <= old(|s.nextIn| + s.lookahead)
      invariant s.origin == old(s.origin) && s.mark == old(s.mark)
      invariant old(s.input) <= s.input && s.input + s.nextIn == old(s.input + s.nextIn)
      invariant old(s.Tokens()) <= s.Tokens()
      invariant s.Filled(old(s.blocks)) && (!turn.Return? ==> !s.outputFull)
      invariant s.Sent() >= old(s.Sent()) && (s.outputFull ==> s.Sent() > old(s.Sent()))
      invariant turn == Drained ==> s.nextIn == [] && s.lookahead == 0 && flush != NoFlush
      invariant turn.Return? ==> turn.state == NeedMore && (s.outputFull || (flush == NoFlush && s.nextIn == []))
      invariant trace != [] && trace[|trace| - 1] == ViewOf(s) && Trace(s.config, trace, old(ViewOf(s)), ViewOf(s))
      decreases turn == Again, |s.nextIn| + s.lookahead
    {
      SlowLength(s);
      ghost var (mid, left, drained) := (|s.input|, s.Leftover(), s.nextIn == []);
      assert |s.input + s.nextIn| == old(|s.input + s.nextIn|);
      ghost var (now, between) := (ViewOf(s), ViewOf(s));
      turn, between := SlowTurn(s, flush);
      TraceNext(s.config, trace, old(ViewOf(s)), now, between);
      TraceNext(s.config, trace + [between], old(ViewOf(s)), between, ViewOf(s));
      trace := trace + [between] + [ViewOf(s)];
      if drained {
        assert |s.input| == mid;
        StrandedNone(s.origin, mid, left, |s.input|);
      } else {
        StrandedTwice(s.origin, |old(s.input)|, old(s.Leftover()), mid, left, |s.input|);
      }
      first := false;
    }
    if turn.Return? {
      return turn.state, trace;
    }
    r := SlowEnd(s, flush);
  }

  lemma SlowLength(s: State)
    requires SlowReady(s)
    ensures |s.input| == s.base + s.strstart + s.lookahead && 0 <= s.Leftover() <= s.base + s.strstart
    ensures s.strstart + s.lookahead <= s.window.Length
  {
    hide Linked, Pow2, Primed, Covered, Restartable, Mirrors, Decode, Repeats;
    InputLength(s);
  }

  /** A match held keeps its distance while the window is filled, even when its start wraps. */
  method RefillHeld(s: State)
    requires SlowReady(s) && s.lookahead < MIN_LOOKAHEAD
    modifies s`nextIn, s`insH, s`blockStart, s`strstart, s`matchStart, s`lookahead, s`insert, s`highWater,
             s`input, s`base, s`dataEnd, s`inserted, s`frontier, s`missed, s`unwritten, s.window, s.head, s.prev
    ensures SlowReady(s)
    ensures old(s.input) <= s.input && s.input + s.nextIn == old(s.input + s.nextIn)
    ensures s.lookahead >= MIN_LOOKAHEAD || s.nextIn == []
    ensures s.strstart <= s.window.Length - MIN_LOOKAHEAD
    ensures |s.nextIn| + s.lookahead == old(|s.nextIn| + s.lookahead)
    ensures s.Tokens() == old(s.Tokens()) && s.Sent() == old(s.Sent()) && s.insert <= old(s.insert)
    ensures s.base + s.strstart == old(s.base + s.strstart)
    ensures old(s.strstart) < s.config.WSize() + s.config.MaxDist() ==> s.base == old(s.base)
    ensures old(|s.nextIn| + s.strstart + s.lookahead) <= s.window.Length ==> s.nextIn == []
    ensures s.missed == old(s.missed) + Stranded(s.origin, |old(s.input)|, old(s.Leftover()), |s.input|)
    ensures old(s.TailKept()) ==> s.TailKept()
    ensures Fills(s.config, old(ViewOf(s)), ViewOf(s))
  {
    hide Linked, Pow2, Primed, Covered, Restartable, Mirrors, Decode, Complete, Stranded, StaleAfter, State.EnteredUpTo,
         State.TailKept, State.Cleared, State.Stale, Mark, SlowReady, State.Core, State.HashReady, State.Faithful, State.Valid,
         State.Leftover, State.Shaped, Config.LitBufsize, Config.WSize, Config.MaxDist, Expand, Legal;
    SlowParts(s);
    SlowLength(s);
    ghost var (input, ahead, distance) := (s.input, s.lookahead + 1, Offset(s.strstart - 1, s.matchStart));
    hide Carries, Offset, Fills, State.Tokens, Held;
    ghost var v := ViewOf(s);
    ghost var n := if s.matchAvailable then s.base + s.strstart - 1 else s.base + s.strstart;
    Refill(s, n);
    OffsetBefore(s.strstart, s.matchStart, old(s.strstart), old(s.matchStart));
    if s.matchLength >= MIN_MATCH {
      CarriesMore(input, s.input, s.base + s.strstart - 1, s.origin, ahead, s.lookahead + 1, distance, s.config.MaxDist(),
                  s.matchLength);
    }
    SlowWhole(s);
    SlowLength(s);
    FillsWindow(s.config, v, ViewOf(s));
  }

  lemma FillsWindow(c: Config, v: View, w: View)
    requires |v.input| < v.p + MIN_LOOKAHEAD && (w.rest == [] || w.p + MIN_LOOKAHEAD <= |w.input|)
    requires w.p == v.p && w.held == v.held && w.distance == v.distance && w.available == v.available && w.tokens == v.tokens
    requires v.input <= w.input && w.input + w.rest == v.input + v.rest && v.missed <= w.missed
    requires w.base == v.base || v.p - v.base >= c.WSize() + c.MaxDist()
    ensures Fills(c, v, w)
  {
  }

  lemma OffsetBefore(a: int, b: int, c: int, d: int)
    requires Offset(a, b) == Offset(c, d)
    ensures Offset(a - 1, b) == Offset(c - 1, d)
  {
    ModPredecessor(a - b);
    ModPredecessor(c - d);
  }

  lemma ModPredecessor(x: int)
    ensures (x - 1) % WORD == if x % WORD == 0 then WORD - 1 else x % WORD - 1
  {
  }
}
