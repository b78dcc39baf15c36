/**
  The state of a compressor (lib/zlib/deflate.h) and what always holds of it.

  Ghost fields record what the fields stand for: the input read so far, the stream position
  of window[0], the positions in the dictionary, the tokens of the blocks already flushed, and
  where decompression can start afresh: at stream position `origin`, with token number `mark`.
  `missed` are the positions whose strings got their last bytes too late to be entered, and
  `unwritten` the places of the window that hold nothing written there or copied from there.
 */
module DeflateState {
  import opened Words
  import opened Remainders
  import opened DeflateHash
  import opened DeflateDictionary
  import opened Lz77

  const MIN_LOOKAHEAD: nat := MAX_MATCH + MIN_MATCH + 1
  const WIN_INIT: nat := MAX_MATCH
  const TOO_FAR: nat := 4096

  datatype Flush = NoFlush | PartialFlush | SyncFlush | FullFlush | Finish | BlockFlush

  datatype BlockState = NeedMore | BlockDone | FinishStarted | FinishDone

  datatype Strategy = DefaultStrategy | Filtered | HuffmanOnly | Rle | Fixed

  /** What is fixed for a run: the compression level and the arguments of `deflateInit2`. */
  datatype Config = Config(level: nat, memLevel: nat, wBits: nat, strategy: Strategy) {
    predicate Valid() {
      level <= 9 && 1 <= memLevel <= 9 && 9 <= wBits <= 15
    }

    function WSize(): nat { Pow2(wBits) }

    function MaxDist(): int { WSize() - MIN_LOOKAHEAD }

    function HashBits(): nat { memLevel + 7 }

    function LitBufsize(): nat { Pow2(memLevel + 6) }

    function PendingBufSize(): nat { 4 * LitBufsize() }

    /** The limit of a stored block: 16 bits of length, and room for a five-byte header. */
    function MaxBlock(): int {
      if 0xffff > PendingBufSize() - 5 then PendingBufSize() - 5 else 0xffff
    }

    // The columns of `configuration_table`.
    function GoodMatch(): nat { [0, 4, 4, 4, 4, 8, 8, 8, 32, 32][if level <= 9 then level else 0] }

    function MaxLazy(): nat { [0, 4, 5, 6, 4, 16, 16, 32, 128, 258][if level <= 9 then level else 0] }

    function NiceMatch(): nat { [0, 8, 16, 32, 16, 32, 128, 128, 258, 258][if level <= 9 then level else 0] }

    function MaxChain(): (n: nat)
      ensures 1 <= level <= 9 ==> n >= 4
    {
      [0, 4, 8, 32, 16, 32, 128, 256, 1024, 4096][if level <= 9 then level else 0]
    }
  }

  /** The rows of `configuration_table`: good, lazy, nice and chain. */
  lemma ConfigurationTable(c: Config)
    requires c.level <= 9
    ensures [c.GoodMatch(), c.MaxLazy(), c.NiceMatch(), c.MaxChain()] ==
      match c.level
      case 0 => [0, 0, 0, 0]
      case 1 => [4, 4, 8, 4]
      case 2 => [4, 5, 16, 8]
      case 3 => [4, 6, 32, 32]
      case 4 => [4, 4, 16, 16]
      case 5 => [8, 16, 32, 32]
      case 6 => [8, 16, 128, 128]
      case 7 => [8, 32, 128, 256]
      case 8 => [32, 128, 258, 1024]
      case _ => [32, 258, 258, 4096]
  {
  }

  /** The sizes and limits for the default arguments of `deflateInit`: memory level 8, a window of 15 bits. */
  lemma DefaultSizes(c: Config)
    requires c.memLevel == 8 && c.wBits == 15
    ensures c.WSize() == 32768 && c.MaxDist() == 32768 - 262 && c.HashBits() == 15
    ensures c.LitBufsize() == 16384 && c.PendingBufSize() == 65536 && c.MaxBlock() == 65531
  {
    Pow2Values();
    assert Pow2(16) == 2 * Pow2(15) && Pow2(15) == 2 * Pow2(14);
  }

  lemma {:induction false} WindowSizes(c: Config)
    requires c.Valid()
    ensures 512 <= c.WSize() <= 0x8000 && 128 <= c.LitBufsize() <= 0x8000
  {
    Pow2Values();
    Pow2Monotone(9, c.wBits);
    Pow2Monotone(c.wBits, 15);
    Pow2Monotone(7, c.memLevel + 6);
    Pow2Monotone(c.memLevel + 6, 15);
    assert Pow2(9) == 2 * Pow2(8) && Pow2(8) == 2 * Pow2(7) && Pow2(16) == 2 * Pow2(15);
  }

  lemma {:induction false} Pow2Monotone(m: nat, n: nat)
    requires m <= n
    ensures Pow2(m) <= Pow2(n)
  {
    Pow2Add(m, n - m);
    AtLeast(Pow2(m), Pow2(n - m));
  }

  /** The window holds the stretch of the input that starts at `base`. */
  ghost predicate Mirrors(window: seq<Byte>, input: seq<Byte>, base: nat, end: nat) {
    && end <= |window| && |input| == base + end
    && forall i :: 0 <= i < end ==> window[i] == input[base + i]
  }

  /** The tokens in the tally buffers: distance 0 marks a literal. */
  function Decode(d: seq<Pos>, l: seq<Byte>): (ts: seq<Token>)
    requires |d| == |l|
    ensures |ts| == |d|
  {
    seq(|d|, i requires 0 <= i < |d| => if d[i] == 0 then Literal(l[i]) else Match(l[i] + MIN_MATCH, d[i]))
  }

  /**
    The tokens expand to the first `n` bytes of the input and respect the format's limits;
    those of the flushed blocks expand to the first `block` bytes.
   */
  ghost predicate Covered(tokens: seq<Token>, flushed: seq<Token>, input: seq<Byte>, n: nat, block: int, maxDistance: int) {
    && n <= |input| && Expand(tokens) == input[..n] && Legal(tokens, maxDistance)
    && 0 <= block <= n && Expand(flushed) == input[..block]
  }

  /** The tokens from number `mark` on can be expanded on their own, into the input from `origin` on. */
  ghost predicate Restartable(tokens: seq<Token>, mark: nat, input: seq<Byte>, origin: nat, n: nat) {
    mark <= |tokens| && origin <= n <= |input| && Expand(tokens[mark..]) == input[origin..n]
  }

  lemma RestartableMore(tokens: seq<Token>, mark: nat, input: seq<Byte>, input': seq<Byte>, origin: nat, n: nat)
    requires Restartable(tokens, mark, input, origin, n) && input <= input'
    ensures Restartable(tokens, mark, input', origin, n)
  {
    assert input'[origin..n] == input[origin..n];
  }

  lemma RestartableNext(tokens: seq<Token>, t: Token, mark: nat, input: seq<Byte>, origin: nat, n: nat)
    requires Restartable(tokens, mark, input, origin, n) && Describes(t, input, n)
    requires t.Match? ==> origin + t.distance <= n
    ensures Restartable(tokens + [t], mark, input, origin, n + Length(t))
  {
    hide Expand;
    ExpandTokenFrom(tokens[mark..], t, input, origin, n);
    assert (tokens + [t])[mark..] == tokens[mark..] + [t];
  }

  lemma CoveredMore(tokens: seq<Token>, flushed: seq<Token>, input: seq<Byte>, input': seq<Byte>, n: nat, block: int,
                    maxDistance: int)
    requires Covered(tokens, flushed, input, n, block, maxDistance) && input <= input'
    ensures Covered(tokens, flushed, input', n, block, maxDistance)
  {
    assert input'[..n] == input[..n] && input'[..block] == input[..block];
  }

  /** Both at once, for a token within the limits. */
  lemma TallyNext(tokens: seq<Token>, flushed: seq<Token>, t: Token, mark: nat, input: seq<Byte>, origin: nat, n: nat, block: int,
                  maxDistance: int)
    requires Covered(tokens, flushed, input, n, block, maxDistance) && Restartable(tokens, mark, input, origin, n)
    requires Describes(t, input, n)
    requires t.Match? ==> MIN_MATCH <= t.length <= MAX_MATCH && t.distance <= maxDistance && origin + t.distance <= n
    ensures Covered(tokens + [t], flushed, input, n + Length(t), block, maxDistance)
    ensures Restartable(tokens + [t], mark, input, origin, n + Length(t)) && block < n + Length(t)
  {
    assert Length(t) >= 1;
    RestartableNext(tokens, t, mark, input, origin, n);
    hide Expand, Legal, Describes, Restartable;
    ExpandNext(tokens, t, input, n, maxDistance);
  }

  /**
    Places in a window of twice `wSize` bytes that have not been written: none hold data; beyond
    the data and the high-water mark all, and below the mark at most the last four of the lower half.
   */
  ghost predicate WrittenBelow(unwritten: set<nat>, dataEnd: nat, highWater: nat, wSize: nat) {
    && (forall i :: i in unwritten ==> dataEnd <= i < 2 * wSize && (i < highWater ==> wSize - 4 <= i < wSize))
    && (forall i :: highWater <= i < 2 * wSize && dataEnd <= i ==> i in unwritten)
  }

  ghost function Below(unwritten: set<nat>, highWater: nat): set<nat> {
    set i | i in unwritten && i < highWater
  }

  /** How far `from` lies behind `to`, modulo 2^32. */
  function Offset(to: int, from: int): nat {
    (to - from) % WORD
  }

  lemma OffsetNear(to: int, from: int)
    requires 0 <= to - from < WORD
    ensures Offset(to, from) == to - from
  {
  }

  class State {
    const config: Config
    const window: array<Byte>
    const head: array<Pos>
    const prev: array<Pos>
    const dBuf: array<Pos>
    const lBuf: array<Byte>

    var nextIn: seq<Byte>
    var outputFull: bool
    var blocks: nat
    /** Whether the output buffer is full after the k-th block. */
    const fills: nat -> bool

    var insH: nat
    var blockStart: int
    var matchLength: nat
    var prevMatch: U32
    var matchAvailable: bool
    var strstart: nat
    var matchStart: U32
    var lookahead: nat
    var prevLength: nat
    var lastLit: nat
    var insert: nat
    var highWater: nat

    ghost var input: seq<Byte>
    ghost var base: nat
    ghost var dataEnd: nat
    ghost var inserted: set<nat>
    ghost var frontier: nat
    ghost var flushed: seq<Token>
    ghost var stored: seq<seq<Byte>>
    ghost var origin: nat
    ghost var mark: nat
    ghost var missed: set<nat>
    ghost var unwritten: set<nat>

    /** The buffers have their sizes and do not overlap. */
    ghost predicate Shaped() {
      && config.Valid()
      && window.Length == 2 * config.WSize() && head.Length == Pow2(config.HashBits()) && prev.Length == config.WSize()
      && dBuf.Length == config.LitBufsize() && lBuf.Length == config.LitBufsize()
      && window != lBuf && head != prev && head != dBuf && prev != dBuf
      && window as object != head && window as object != prev && window as object != dBuf
      && lBuf as object != head && lBuf as object != prev && lBuf as object != dBuf
    }

    /** Window and dictionary agree with the input read so far. */
    ghost predicate Core()
      reads `input, `base, `dataEnd, `inserted, `frontier, `highWater, `origin, window, head, prev
    {
      && Shaped()
      && dataEnd <= window.Length && Mirrors(window[..], input, base, dataEnd)
      && Linked(config.HashBits(), config.WSize(), input, base, head[..], prev[..], inserted, frontier)
      && highWater <= window.Length && origin <= base
    }

    /**
      Between the steps of a compression function: nothing at or after `strstart` is in the
      dictionary, and strings are left over for insertion only while there is too little input.
     */
    ghost predicate Valid()
      reads `input, `base, `dataEnd, `inserted, `frontier, `highWater, `origin, `strstart, `lookahead, `insert, window, head, prev
    {
      && Core() && dataEnd == strstart + lookahead
      && frontier <= base + strstart
      && (insert > 0 ==> insert <= strstart && lookahead + insert < MIN_MATCH && frontier + insert <= base + strstart)
    }

    /** The hash is ready for the string at `strstart`, if there are enough bytes for one. */
    ghost predicate HashReady()
      reads `lookahead, `strstart, `insH, window
    {
      lookahead >= MIN_MATCH && strstart + 1 < window.Length ==>
        Primed(config.HashBits(), insH, window[strstart], window[strstart + 1])
    }

    ghost function Pending(): seq<Token>
      reads `lastLit, dBuf, lBuf
      requires lastLit <= dBuf.Length && lastLit <= lBuf.Length
    {
      Decode(dBuf[..lastLit], lBuf[..lastLit])
    }

    /** All tokens produced so far. */
    ghost function Tokens(): seq<Token>
      reads `flushed, `lastLit, dBuf, lBuf
      requires lastLit <= dBuf.Length && lastLit <= lBuf.Length
    {
      flushed + Pending()
    }

    /** The tokens so far stand for the first `n` bytes of the input. */
    ghost predicate Covers(n: nat)
      reads `flushed, `lastLit, `input, `base, `blockStart, `origin, `mark, dBuf, lBuf
    {
      && Shaped() && lastLit < config.LitBufsize() && (lastLit > 0 ==> base + blockStart < n)
      && Covered(Tokens(), flushed, input, n, base + blockStart, config.MaxDist())
      && Restartable(Tokens(), mark, input, origin, n)
    }

    /** The tally also has room for one more token. */
    ghost predicate Faithful(n: nat)
      reads `flushed, `lastLit, `input, `base, `blockStart, `origin, `mark, dBuf, lBuf
    {
      Covers(n) && lastLit + 1 < config.LitBufsize()
    }

    /** Since the last full flush every string before stream position `n` is entered, save the missed ones. */
    ghost predicate EnteredUpTo(n: nat)
      reads `inserted, `missed, `origin, `input
    {
      Complete(inserted, missed, origin, n, |input|)
    }

    /** How far back the match start lies, modulo 2^32, to which it is kept. */
    ghost function MatchOffset(): int
      reads `strstart, `matchStart
    {
      Offset(strstart, matchStart)
    }

    /** The first position whose string is left over for want of input. */
    ghost function Leftover(): int
      reads `base, `strstart, `insert
    {
      base + strstart - insert
    }

    /** What more input would strand: the strings before the left-over ones are not all complete. */
    ghost predicate TailKept()
      reads `base, `strstart, `insert, `origin, `input
    {
      Leftover() + 2 <= |input| || Leftover() <= origin
    }

    /** How many bytes of the input the blocks written stand for. */
    ghost function Sent(): int
      reads `base, `blockStart
    {
      base + blockStart
    }

    /** All data has been written, and the rest of the window below the high-water mark, four bytes excepted. */
    ghost predicate Tracked()
      reads `unwritten, `dataEnd, `highWater
    {
      WrittenBelow(unwritten, dataEnd, highWater, config.WSize())
    }

    /** The high-water mark is far enough ahead of the data. */
    ghost predicate Cleared()
      reads `unwritten, `dataEnd, `highWater
    {
      Tracked() && highWater <= window.Length && (dataEnd == 0 || highWater >= dataEnd + WIN_INIT || highWater == window.Length)
    }

    /** What is not written below the high-water mark. */
    ghost function Stale(): set<nat>
      reads `unwritten, `highWater
    {
      Below(unwritten, highWater)
    }

    /** If the output is full now, it is so since a block written after the first `before` ones. */
    ghost predicate Filled(before: nat)
      reads `outputFull, `blocks
    {
      before <= blocks && (outputFull ==> before < blocks && fills(blocks - 1))
    }

    /** `deflateInit2` followed by `lm_init`. */
    constructor (config: Config, fills: nat -> bool)
      requires config.Valid()
      ensures this.fills == fills && blocks == 0 && !outputFull
      ensures this.config == config && Valid() && Faithful(0) && input == [] && nextIn == [] && strstart == 0
      ensures insert == 0 && lookahead == 0 && matchLength == prevLength == MIN_MATCH - 1 && !matchAvailable
      ensures base == 0 && blockStart == 0 && lastLit == 0 && flushed == [] && stored == [] && origin == 0 && mark == 0
      ensures inserted == {} && missed == {} && Cleared() && Stale() == {} && highWater == 0
      ensures fresh(window) && fresh(head) && fresh(prev) && fresh(dBuf) && fresh(lBuf)
    {
      WindowSizes(config);
      this.config := config;
      window := new Byte[2 * config.WSize()];
      head := new Pos[Pow2(config.HashBits())](_ => 0);
      prev := new Pos[config.WSize()];
      dBuf := new Pos[config.LitBufsize()];
      lBuf := new Byte[config.LitBufsize()];
      nextIn, outputFull, blocks, this.fills := [], false, 0, fills;
      insH, blockStart, prevMatch, strstart, matchStart, lookahead, lastLit, insert, highWater := 0, 0, 0, 0, 0, 0, 0, 0, 0;
      matchLength, prevLength, matchAvailable := MIN_MATCH - 1, MIN_MATCH - 1, false;
      input, base, dataEnd, inserted, frontier, flushed, stored, origin, mark := [], 0, 0, {}, 0, [], [], 0, 0;
      missed, unwritten := {}, Span(0, 2 * config.WSize());
      new;
      LinkedClear(config.HashBits(), config.WSize(), [], 0, head[..], prev[..]);
    }
  }

  lemma WindowByte(s: State, i: nat)
    requires s.Core() && i < s.dataEnd
    ensures s.base + i < |s.input| && s.window[i] == s.input[s.base + i]
  {
    hide Linked, Pow2;
  }

  lemma CoreShaped(s: State)
    requires s.Core()
    ensures s.Shaped() && s.dataEnd <= s.window.Length
  {
  }
}
