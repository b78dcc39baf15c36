/**
  `fill_window` of lib/zlib/deflate.c: sliding, reading, restarting the hash and clearing the
  bytes ahead of the input.
 */
module DeflateWindow {
  import opened Words
  import opened DeflateHash
  import opened DeflateDictionary
  import opened DeflateState
  import opened Lz77

  /** Rebases a table of positions, scanning it downwards. */
  method SlideTable(t: array<Pos>, wSize: nat)
    requires wSize <= 0x8000
    modifies t
    ensures forall i :: 0 <= i < t.Length ==> t[i] == Slid(wSize, old(t[i]))
  {
    var n := t.Length;
    while n != 0
      invariant 0 <= n <= t.Length
      invariant forall i :: 0 <= i < n ==> t[i] == old(t[i])
      invariant forall i :: n <= i < t.Length ==> t[i] == Slid(wSize, old(t[i]))
    {
      n := n - 1;
      var m := t[n];
      t[n] := if m >= wSize then m - wSize else 0;
    }
  }

  /** What has not been written after the upper half is copied over the lower: copies of unwritten bytes are none. */
  ghost function Copied(wSize: nat, unwritten: set<nat>): set<nat> {
    (set i | i in unwritten && wSize <= i) + set i | i in unwritten && wSize <= i :: i - wSize
  }

  /** What a slide, if there is one, and a read up to `end` leave unwritten below the mark. */
  ghost function StaleAfter(slides: bool, wSize: nat, highWater: nat, stale: set<nat>, end: nat): set<nat> {
    if slides then Span(if highWater < end + wSize then end else highWater - wSize, wSize) else set i | i in stale && end <= i
  }

  /** A slide leaves something unwritten below the mark exactly if that is short of the end, and the data of the middle. */
  lemma StaleNone(wSize: nat, highWater: nat, stale: set<nat>, end: nat)
    ensures StaleAfter(true, wSize, highWater, stale, end) == {} <==> end >= wSize || highWater >= 2 * wSize
    ensures stale == {} ==> StaleAfter(false, wSize, highWater, stale, end) == {}
  {
    var s := StaleAfter(true, wSize, highWater, stale, end);
    hide Span;
    if end < wSize && highWater < 2 * wSize {
      assert wSize - 1 in s;
    } else {
      assert forall i :: i !in s;
    }
  }

  lemma CopiedTracked(unwritten: set<nat>, dataEnd: nat, highWater: nat, wSize: nat)
    requires WrittenBelow(unwritten, dataEnd, highWater, wSize) && wSize >= MIN_LOOKAHEAD && 2 * wSize <= dataEnd + MIN_LOOKAHEAD
    requires highWater >= dataEnd + WIN_INIT || highWater == 2 * wSize
    ensures WrittenBelow(Copied(wSize, unwritten), dataEnd - wSize, highWater, wSize)
    ensures Below(Copied(wSize, unwritten), highWater) == StaleAfter(true, wSize, highWater, Below(unwritten, highWater), dataEnd - wSize)
  {
    hide Span;
    var c := Copied(wSize, unwritten);
    forall i | i in StaleAfter(true, wSize, highWater, Below(unwritten, highWater), dataEnd - wSize)
      ensures i in c && i < highWater
    {
      assert i + wSize in unwritten;
    }
  }

  lemma ReadTracked(unwritten: set<nat>, dataEnd: nat, end: nat, highWater: nat, wSize: nat)
    requires WrittenBelow(unwritten, dataEnd, highWater, wSize) && dataEnd <= end
    ensures WrittenBelow(unwritten - Span(dataEnd, end), end, highWater, wSize)
    ensures Below(unwritten - Span(dataEnd, end), highWater)
         == StaleAfter(false, wSize, highWater, Below(unwritten, highWater), end)
  {
    hide Span;
  }

  lemma ClearTracked(unwritten: set<nat>, dataEnd: nat, highWater: nat, wSize: nat)
    requires WrittenBelow(unwritten, dataEnd, highWater, wSize) && dataEnd <= 2 * wSize && highWater <= 2 * wSize
    ensures
      var mark := Mark(highWater, dataEnd, 2 * wSize);
      var cleared := unwritten - Span(if highWater < dataEnd then dataEnd else highWater, mark);
      && WrittenBelow(cleared, dataEnd, mark, wSize) && Below(cleared, mark) == Below(unwritten, highWater)
      && (mark >= dataEnd + WIN_INIT || mark == 2 * wSize) && (mark == highWater ==> cleared == unwritten)
  {
    hide Span;
  }

  lemma TurnTracked(slides: bool, unwritten: set<nat>, dataEnd: nat, dataEnd': nat, highWater: nat, wSize: nat)
    requires WrittenBelow(unwritten, dataEnd, highWater, wSize) && wSize >= MIN_LOOKAHEAD
    requires if slides then dataEnd' == dataEnd - wSize else dataEnd' == dataEnd
    requires slides ==>
      2 * wSize <= dataEnd + MIN_LOOKAHEAD && (highWater >= dataEnd + WIN_INIT || highWater == 2 * wSize)
    ensures
      var unwritten' := if slides then Copied(wSize, unwritten) else unwritten;
      && WrittenBelow(unwritten', dataEnd', highWater, wSize)
      && Below(unwritten', highWater) == StaleAfter(slides, wSize, highWater, Below(unwritten, highWater), dataEnd')
  {
    hide Span, Copied;
    if slides {
      CopiedTracked(unwritten, dataEnd, highWater, wSize);
    }
  }

  /** A read after a read, or after a slide and a read. */
  lemma StaleTwice(slides: bool, wSize: nat, highWater: nat, stale: set<nat>, mid: nat, end: nat)
    requires mid <= end
    ensures StaleAfter(false, wSize, highWater, StaleAfter(slides, wSize, highWater, stale, mid), end)
         == StaleAfter(slides, wSize, highWater, stale, end)
  {
  }

  /** Moves the upper half of the window down; every position keeps its place in the stream. */
  method Slide(s: State)
    requires s.Core() && s.dataEnd == s.strstart + s.lookahead && s.strstart >= s.config.WSize() + s.config.MaxDist()
    modifies s`matchStart, s`strstart, s`blockStart, s`base, s`dataEnd, s`unwritten, s.window, s.head, s.prev
    ensures s.Core() && s.dataEnd == s.strstart + s.lookahead && s.unwritten == Copied(s.config.WSize(), old(s.unwritten))
    ensures s.base == old(s.base) + s.config.WSize() && s.strstart == old(s.strstart) - s.config.WSize()
    ensures s.blockStart == old(s.blockStart) - s.config.WSize()
    ensures s.matchStart == (old(s.matchStart) - s.config.WSize()) % WORD
    ensures forall i :: 0 <= i < s.head.Length ==> s.head[i] == Slid(s.config.WSize(), old(s.head[i]))
    ensures forall i :: 0 <= i < s.prev.Length ==> s.prev[i] == Slid(s.config.WSize(), old(s.prev[i]))
    ensures old(s.HashReady()) ==> s.HashReady()
  {
    hide Linked, Primed, Pow2, Copied, Slid;
    var wSize := s.config.WSize();
    WindowSizes(s.config);
    forall i | 0 <= i < wSize {
      s.window[i] := s.window[wSize + i];
    }
    s.matchStart := (s.matchStart - wSize) % WORD;
    s.strstart := s.strstart - wSize;
    s.blockStart := s.blockStart - wSize;
    SlideTable(s.head, wSize);
    SlideTable(s.prev, wSize);
    s.base := s.base + wSize;
    s.dataEnd := s.dataEnd - wSize;
    s.unwritten := Copied(wSize, s.unwritten);
    assert Mirrors(s.window[..], s.input, s.base, s.dataEnd);
    hide Mirrors;
    LinkedSlide(s.config.HashBits(), wSize, s.input, old(s.base), old(s.head[..]), old(s.prev[..]),
                s.head[..], s.prev[..], s.inserted, s.frontier);
  }

  /** `read_buf` at the end of the data in the window. */
  method ReadBuf(s: State, size: nat) returns (n: nat)
    requires s.Core() && s.dataEnd == s.strstart + s.lookahead && s.dataEnd + size <= s.window.Length
    modifies s`nextIn, s`lookahead, s`input, s`dataEnd, s`unwritten, s.window
    ensures s.Core() && s.dataEnd == s.strstart + s.lookahead
    ensures s.unwritten == old(s.unwritten) - Span(old(s.dataEnd), s.dataEnd)
    ensures n == if |old(s.nextIn)| <= size then |old(s.nextIn)| else size
    ensures s.lookahead == old(s.lookahead) + n
    ensures s.input == old(s.input) + old(s.nextIn)[..n] && s.nextIn == old(s.nextIn)[n..]
    ensures forall i :: 0 <= i < old(s.strstart + s.lookahead) ==> s.window[i] == old(s.window[i])
  {
    hide Linked, Pow2, Span;
    n := |s.nextIn|;
    if n > size {
      n := size;
    }
    var end := s.strstart + s.lookahead;
    forall i | 0 <= i < n {
      s.window[end + i] := s.nextIn[i];
    }
    ghost var more := s.nextIn[..n];
    s.input := s.input + more;
    s.nextIn := s.nextIn[n..];
    s.lookahead := s.lookahead + n;
    s.dataEnd := s.dataEnd + n;
    s.unwritten := s.unwritten - Span(end, end + n);
    assert Mirrors(s.window[..], s.input, s.base, s.dataEnd);
    assert s.head[..] == old(s.head[..]) && s.prev[..] == old(s.prev[..]);
    LinkedMore(s.config.HashBits(), s.config.WSize(), old(s.input), more, s.base, s.head[..], s.prev[..], s.inserted, s.frontier);
    assert s.window[..][..end] == old(s.window[..])[..end];
  }

  /** `INSERT_STRING`: enters the string at `str` and hands back the previous head of its chain. */
  method InsertString(s: State, str: Pos) returns (matchHead: Pos)
    requires s.Core() && s.frontier <= s.base + str && str + MIN_MATCH <= s.dataEnd
    requires Primed(s.config.HashBits(), s.insH, s.window[str], s.window[str + 1])
    modifies s`insH, s`inserted, s`frontier, s.head, s.prev
    ensures s.Core() && s.frontier == s.base + str + 1 && s.inserted == old(s.inserted) + {s.base + str}
    ensures Primed(s.config.HashBits(), s.insH, s.window[str + 1], s.window[str + 2])
    ensures matchHead != 0 ==>
      && s.base + matchHead in old(s.inserted) && matchHead < str
      && s.base + matchHead + 3 <= |s.input|
      && HashAt(s.config.HashBits(), s.input, s.base + matchHead) == HashAt(s.config.HashBits(), s.input, s.base + str)
    ensures s.base + str + 3 <= |s.input|
    ensures matchHead == old(s.head[HashAt(s.config.HashBits(), s.input, s.base + str)])
    ensures s.prev[..] == old(s.prev[..])[str % s.config.WSize() := matchHead]
    ensures NoneBetween(s.config.HashBits(), s.input, s.base, s.inserted, matchHead, s.base + str)
  {
    hide Roll, Hash3, Pow2, Linked, Mirrors, Primed;
    ghost var bits := s.config.HashBits();
    WindowByte(s, str);
    WindowByte(s, str + 1);
    WindowByte(s, str + 2);
    PrimedRoll(bits, s.insH, s.window[str], s.window[str + 1], s.window[str + 2]);
    s.insH := Roll(s.config.HashBits(), s.insH, s.window[str + (MIN_MATCH - 1)]);
    assert s.insH == HashAt(bits, s.input, s.base + str);
    LinkedInsert(bits, s.config.WSize(), s.input, s.base, s.head[..], s.prev[..], s.inserted, s.frontier, str);
    matchHead := s.head[s.insH];
    if matchHead != 0 {
      LinkedHead(bits, s.config.WSize(), s.input, s.base, s.head[..], s.prev[..], s.inserted, s.frontier, s.insH);
    }
    s.prev[str % s.config.WSize()] := matchHead;
    s.head[s.insH] := str;
    s.inserted := s.inserted + {s.base + str};
    s.frontier := s.base + str + 1;
    hide HashAt, NoneBetween, Entered;
    LinkedLink(bits, s.config.WSize(), s.input, s.base, s.head[..], s.prev[..], s.inserted, s.frontier, s.base + str);
    assert s.base + str - s.base == str;
  }

  lemma SpanNext(lo: nat, hi: nat)
    requires lo <= hi
    ensures Span(lo, hi + 1) == Span(lo, hi) + {hi}
  {
  }

  /** Enters the left-over strings, as far as they are complete now. */
  method InsertLeft(s: State)
    requires s.Core() && s.dataEnd == s.strstart + s.lookahead && s.strstart <= s.window.Length - MIN_LOOKAHEAD
    requires s.insert <= s.strstart && s.frontier + s.insert <= s.base + s.strstart && s.lookahead + s.insert >= MIN_MATCH
    requires Primed(s.config.HashBits(), s.insH, s.window[s.strstart - s.insert], s.window[s.strstart - s.insert + 1])
    modifies s`insH, s`insert, s`inserted, s`frontier, s.head, s.prev
    ensures s.Valid() && s.HashReady() && s.insert <= old(s.insert) && s.lookahead + s.insert >= MIN_MATCH - 1
    ensures s.inserted == old(s.inserted) + Span(old(s.Leftover()), s.Leftover())
  {
    hide Linked, Primed, Roll, Pow2, Mirrors, HashAt, NoneBetween, Span, State.Core;
    CoreShaped(s);
    WindowSizes(s.config);
    var str := s.strstart - s.insert;
    assert Span(s.base + str, s.base + str) == {};
    while s.insert != 0
      invariant s.Core() && s.insert <= s.strstart && s.insert <= old(s.insert) && str == s.strstart - s.insert
      invariant s.lookahead + s.insert >= MIN_MATCH
      invariant s.frontier <= s.base + str
      invariant s.inserted == old(s.inserted) + Span(old(s.Leftover()), s.base + str)
      invariant Primed(s.config.HashBits(), s.insH, s.window[str], s.window[str + 1])
      decreases s.insert
    {
      SpanNext(old(s.Leftover()), s.base + str);
      var _ := InsertString(s, str);
      str := str + 1;
      s.insert := s.insert - 1;
      if s.lookahead + s.insert < MIN_MATCH { break; }
    }
  }

  /**
    After a read: recomputes the hash from the window and enters the strings that were left
    over for want of input.
   */
  method RestartHash(s: State)
    requires s.Core() && s.dataEnd == s.strstart + s.lookahead && s.strstart <= s.window.Length - MIN_LOOKAHEAD
    requires s.insert <= s.strstart && s.frontier + s.insert <= s.base + s.strstart
    modifies s`insH, s`insert, s`inserted, s`frontier, s.head, s.prev
    ensures s.Valid() && s.HashReady() && s.insert <= old(s.insert)
    ensures s.inserted == old(s.inserted) + Span(old(s.Leftover()), s.Leftover())
    ensures s.insert == old(s.insert) || s.lookahead + s.insert >= MIN_MATCH - 1
  {
    hide Linked, Primed, Roll, Pow2, Mirrors, Span, State.Core;
    CoreShaped(s);
    assert Span(s.Leftover(), s.Leftover()) == {};
    if s.lookahead + s.insert >= MIN_MATCH {
      WindowSizes(s.config);
      var str := s.strstart - s.insert;
      s.insH := s.window[str];
      PrimedStart(s.config.HashBits(), s.window[str], s.window[str + 1]);
      s.insH := Roll(s.config.HashBits(), s.insH, s.window[str + 1]);
      InsertLeft(s);
    }
  }

  /** Where the high-water mark is after a fill: `WIN_INIT` bytes ahead of the data, if it is not farther or at the end. */
  function Mark(highWater: nat, dataEnd: nat, length: nat): nat {
    var ahead := if dataEnd + WIN_INIT < length then dataEnd + WIN_INIT else length;
    if highWater >= ahead then highWater else ahead
  }

  /** Clears some bytes behind the data. */
  method ClearBytes(s: State, from: nat, to: nat)
    requires s.Core() && s.dataEnd <= from <= to <= s.window.Length
    modifies s.window
    ensures s.Core()
    ensures forall i :: 0 <= i < from ==> s.window[i] == old(s.window[i])
  {
    hide Linked, Pow2;
    forall i | from <= i < to {
      s.window[i] := 0;
    }
    assert s.head[..] == old(s.head[..]) && s.prev[..] == old(s.prev[..]);
  }

  /** Clears up to `WIN_INIT` never written bytes beyond the data, and moves the high-water mark. */
  method ClearAhead(s: State)
    requires s.Core() && s.dataEnd == s.strstart + s.lookahead
    modifies s`highWater, s`unwritten, s.window
    ensures s.Core() && s.highWater == Mark(old(s.highWater), s.dataEnd, s.window.Length)
    ensures old(s.Tracked()) ==> s.Cleared() && s.Stale() == old(s.Stale())
    ensures forall i :: 0 <= i < s.strstart + s.lookahead ==> s.window[i] == old(s.window[i])
  {
    hide Linked, Pow2, Mirrors, Span, WrittenBelow, Below;
    ghost var from := if s.highWater < s.dataEnd then s.dataEnd else s.highWater;
    if old(s.Tracked()) {
      ClearTracked(s.unwritten, s.dataEnd, s.highWater, s.config.WSize());
    }
    if s.highWater < s.window.Length {
      var curr := s.strstart + s.lookahead;
      if s.highWater < curr {
        var init := s.window.Length - curr;
        if init > WIN_INIT { init := WIN_INIT; }
        ClearBytes(s, curr, curr + init);
        s.highWater := curr + init;
      } else if s.highWater < curr + WIN_INIT {
        var init := curr + WIN_INIT - s.highWater;
        if init > s.window.Length - s.highWater { init := s.window.Length - s.highWater; }
        ClearBytes(s, s.highWater, s.highWater + init);
        s.highWater := s.highWater + init;
      }
    }
    s.unwritten := s.unwritten - Span(from, s.highWater);
  }

  lemma InputLength(s: State)
    requires s.Valid()
    ensures |s.input| == s.base + s.strstart + s.lookahead && 0 <= s.Leftover() <= s.base + s.strstart
  {
    hide Linked, Pow2;
  }

  /** What two turns strand: the second nothing, unless the first read nothing. */
  lemma StrandedTwice(origin: nat, from: nat, hi: nat, mid: nat, hi': nat, to: nat)
    requires from <= mid <= to && ((mid == from && hi' == hi) || (hi + 2 <= mid && hi' + 2 <= mid))
    ensures Stranded(origin, from, hi, mid) + Stranded(origin, mid, hi', to) == Stranded(origin, from, hi, to)
  {
    hide Span;
  }

  /** What a fill works on, at one moment. */
  datatype Moment = Moment(wSize: nat, base: nat, strstart: nat, blockStart: int, matchStart: nat, lookahead: nat, insert: nat,
                           nextIn: seq<Byte>, input: seq<Byte>, inserted: set<nat>, origin: nat, missed: set<nat>,
                           unwritten: set<nat>, highWater: nat)
  {
    predicate Slides() {
      strstart + MIN_LOOKAHEAD >= 2 * wSize
    }

    function Leftover(): nat {
      if insert <= base + strstart then base + strstart - insert else 0
    }

    function End(): nat {
      strstart + lookahead
    }

    predicate Consistent() {
      && wSize >= 512 && |input| == base + End() && insert <= base + strstart
      && (insert > 0 ==> lookahead + insert < MIN_MATCH) && End() <= 2 * wSize
    }

    /** The high-water mark is as it is between fills. */
    predicate Settled() {
      highWater <= 2 * wSize && (End() == 0 || highWater >= End() + WIN_INIT || highWater == 2 * wSize)
    }
  }

  ghost function Now(s: State): Moment
    requires s.config.Valid()
    reads s
  {
    Moment(s.config.WSize(), s.base, s.strstart, s.blockStart, s.matchStart, s.lookahead, s.insert, s.nextIn, s.input,
           s.inserted, s.origin, s.missed, s.unwritten, s.highWater)
  }

  /** Nothing has moved in the stream; what was read is more input. */
  predicate Refilled(a: Moment, b: Moment) {
    && b.base + b.strstart == a.base + a.strstart && b.base + b.blockStart == a.base + a.blockStart
    && Offset(b.strstart, b.matchStart) == Offset(a.strstart, a.matchStart)
    && a.input <= b.input && b.input + b.nextIn == a.input + a.nextIn
    && b.lookahead >= a.lookahead && b.insert <= a.insert
  }

  /** A slide happens if `strstart` was far enough. */
  predicate Slidden(a: Moment, b: Moment) {
    && b.wSize == a.wSize && b.strstart + MIN_LOOKAHEAD <= 2 * a.wSize
    && (if a.Slides() then b.base == a.base + a.wSize && 2 <= b.strstart <= a.wSize else b.base == a.base)
  }

  /** The strings stranded are missed, and the others that are complete now entered. */
  ghost predicate Completed(a: Moment, b: Moment) {
    && b.origin == a.origin && Gains(a.inserted, |a.input|, b.inserted, |b.input|, b.base + b.strstart)
    && b.missed == a.missed + Stranded(a.origin, |a.input|, a.Leftover(), |b.input|)
    && (Complete(a.inserted, a.missed, a.origin, a.base + a.strstart, |a.input|) ==>
          Complete(b.inserted, b.missed, b.origin, b.base + b.strstart, |b.input|))
    && (a.Leftover() + 2 <= |a.input| || a.Leftover() <= a.origin ==>
          b.Leftover() + 2 <= |b.input| || b.Leftover() <= b.origin)
  }

  /** What is written and what is not stays known. */
  ghost predicate Accounted(a: Moment, b: Moment) {
    && b.highWater == a.highWater
    && (WrittenBelow(a.unwritten, a.End(), a.highWater, a.wSize) && (a.Slides() ==> a.Settled()) ==>
          && WrittenBelow(b.unwritten, b.End(), a.highWater, a.wSize)
          && Below(b.unwritten, a.highWater)
          == StaleAfter(a.Slides(), a.wSize, a.highWater, Below(a.unwritten, a.highWater), b.End()))
  }

  ghost predicate Moved(a: Moment, b: Moment) {
    Refilled(a, b) && Slidden(a, b) && Completed(a, b) && Accounted(a, b)
  }

  /** As long as there is input, as much is read as there is room for. */
  ghost predicate Turned(a: Moment, b: Moment) {
    Moved(a, b) && (b.nextIn != [] ==> b.lookahead >= 2) && (|a.nextIn| + a.End() <= 2 * a.wSize ==> b.nextIn == [])
  }

  lemma CompletedTwice(a: Moment, b: Moment, c: Moment)
    requires a.Consistent() && b.Consistent() && c.Consistent()
    requires (b.input == a.input && b.Leftover() == a.Leftover()) || b.lookahead >= 2
    requires Refilled(a, b) && Refilled(b, c) && Completed(a, b) && Completed(b, c)
    ensures Completed(a, c)
  {
    hide Complete, Stranded;
    StrandedTwice(a.origin, |a.input|, a.Leftover(), |b.input|, b.Leftover(), |c.input|);
  }

  lemma AccountedTwice(a: Moment, b: Moment, c: Moment)
    requires a.Consistent() && Refilled(a, b) && Slidden(a, b) && Slidden(b, c) && Accounted(a, b) && Accounted(b, c) && b.End() <= c.End()
    ensures Accounted(a, c)
  {
    hide WrittenBelow, Below, StaleAfter;
    StaleTwice(a.Slides(), a.wSize, a.highWater, Below(a.unwritten, a.highWater), b.End(), c.End());
  }

  lemma MovedTwice(a: Moment, b: Moment, c: Moment)
    requires a.Consistent() && b.Consistent() && c.Consistent() && Moved(a, b) && Moved(b, c)
    requires (b.input == a.input && b.Leftover() == a.Leftover()) || b.lookahead >= 2
    ensures Moved(a, c)
  {
    CompletedTwice(a, b, c);
    AccountedTwice(a, b, c);
    hide Completed, Accounted;
  }

  lemma NowConsistent(s: State)
    requires s.Valid()
    ensures Now(s).Consistent()
  {
    hide Linked, Pow2;
    InputLength(s);
    WindowSizes(s.config);
  }

  /** The slide at the top of the loop of `fill_window`; `more` is the room left in the window. */
  method MakeRoom(s: State) returns (more: nat)
    requires s.Valid() && s.lookahead < MIN_LOOKAHEAD
    modifies s`matchStart, s`strstart, s`blockStart, s`base, s`dataEnd, s`unwritten, s.window, s.head, s.prev
    ensures s.Valid() && (old(s.HashReady()) ==> s.HashReady())
    ensures Moved(old(Now(s)), Now(s)) && !Now(s).Slides() && s.Leftover() == old(s.Leftover())
    ensures more == s.window.Length - s.lookahead - s.strstart && more >= 2
  {
    hide Linked, Primed, Pow2, Mirrors, Complete, Stranded, StaleAfter, WrittenBelow, Below, Copied, Offset, State.Core, State.HashReady;
    CoreShaped(s);
    WindowSizes(s.config);
    InputLength(s);
    StrandedNone(s.origin, |s.input|, s.Leftover(), |s.input|);
    ghost var a := Now(s);
    var wSize := s.config.WSize();
    more := s.window.Length - s.lookahead - s.strstart;
    if s.strstart >= wSize + s.config.MaxDist() {
      SlideDistance(s.strstart, s.matchStart, wSize);
      Slide(s);
      more := more + wSize;
    }
    assert more >= 2;
    if WrittenBelow(a.unwritten, a.End(), a.highWater, a.wSize) && (a.Slides() ==> a.Settled()) {
      TurnTracked(a.Slides(), a.unwritten, a.End(), s.dataEnd, a.highWater, a.wSize);
    }
  }

  /** The read at the bottom of the loop. */
  method ReadMore(s: State, more: nat)
    requires s.Valid() && s.nextIn != [] && more >= 2 && s.strstart + s.lookahead + more <= s.window.Length
    requires !Now(s).Slides()
    modifies s`nextIn, s`insH, s`lookahead, s`insert, s`input, s`dataEnd, s`inserted, s`frontier, s`missed, s`unwritten,
             s.window, s.head, s.prev
    ensures s.Valid() && s.HashReady()
    ensures Moved(old(Now(s)), Now(s)) && |s.nextIn| < |old(s.nextIn)|
    ensures (s.nextIn != [] ==> s.lookahead >= 2) && (|old(s.nextIn)| <= more ==> s.nextIn == [])
  {
    hide Linked, Mirrors, Primed, Pow2, Span, Stranded, State.Core, State.HashReady, Moved, Moment.Consistent;
    CoreShaped(s);
    NowConsistent(s);
    EnteredInput(s);
    ghost var a := Now(s);
    var n := ReadBuf(s, more);
    s.missed := s.missed + Stranded(s.origin, |a.input|, a.Leftover(), |s.input|);
    RestartHash(s);
    NowConsistent(s);
    EnteredInput(s);
    ReadMoved(a, Now(s), n);
  }

  /** A read of `n` bytes, with what follows it. */
  lemma ReadMoved(a: Moment, b: Moment, n: nat)
    requires a.Consistent() && b.Consistent() && !a.Slides() && n <= |a.nextIn|
    requires b == a.(lookahead := a.lookahead + n, nextIn := a.nextIn[n..], input := a.input + a.nextIn[..n],
                     insert := b.insert, inserted := b.inserted, missed := b.missed, unwritten := b.unwritten)
    requires forall i: nat :: i in a.inserted ==> i + 3 <= |a.input|
    requires b.missed == a.missed + Stranded(a.origin, |a.input|, a.Leftover(), |b.input|)
    requires b.inserted == a.inserted + Span(a.Leftover(), b.Leftover()) && b.insert <= a.insert
    requires b.insert == a.insert || b.lookahead + b.insert >= MIN_MATCH - 1
    requires forall i: nat :: i in b.inserted ==> i + 3 <= |b.input|
    requires b.unwritten == a.unwritten - Span(a.End(), b.End())
    ensures Moved(a, b)
  {
    hide WrittenBelow, Below, StaleAfter, Span, Stranded, Completed;
    assert b.input + b.nextIn == a.input + a.nextIn;
    ReadCompletes(a, b);
    if WrittenBelow(a.unwritten, a.End(), a.highWater, a.wSize) {
      ReadTracked(a.unwritten, a.End(), b.End(), a.highWater, a.wSize);
    }
  }

  lemma ReadGains(a: Moment, b: Moment)
    requires a.Consistent() && b.base + b.strstart == a.base + a.strstart && b.insert <= b.base + b.strstart
    requires b.inserted == a.inserted + Span(a.Leftover(), b.Leftover())
    requires forall i: nat :: i in b.inserted ==> i + 3 <= |b.input|
    ensures Gains(a.inserted, |a.input|, b.inserted, |b.input|, b.base + b.strstart)
  {
  }

  lemma ReadCompletes(a: Moment, b: Moment)
    requires a.Consistent() && b.Consistent() && Refilled(a, b) && b.origin == a.origin && b.base == a.base
    requires forall i: nat :: i in a.inserted ==> i + 3 <= |a.input|
    requires b.missed == a.missed + Stranded(a.origin, |a.input|, a.Leftover(), |b.input|)
    requires b.inserted == a.inserted + Span(a.Leftover(), b.Leftover())
    requires b.insert == a.insert || b.lookahead + b.insert >= MIN_MATCH - 1
    requires forall i: nat :: i in b.inserted ==> i + 3 <= |b.input|
    ensures Completed(a, b)
  {
    hide Complete, Span, Stranded, Gains;
    ReadGains(a, b);
    if Complete(a.inserted, a.missed, a.origin, a.base + a.strstart, |a.input|) {
      CompleteRead(a.inserted, a.missed, a.origin, a.base + a.strstart, |a.input|, |b.input|, a.insert, b.insert);
    }
  }

  lemma EnteredInput(s: State)
    requires s.Core()
    ensures forall a: nat :: a in s.inserted ==> a + 3 <= |s.input|
  {
    hide LinkOk, Reached, Entered, Pow2;
  }

  /** One turn of the loop of `fill_window`: makes room, and reads if there is input. */
  method FillTurn(s: State)
    requires s.Valid() && s.lookahead < MIN_LOOKAHEAD
    modifies s`nextIn, s`insH, s`blockStart, s`strstart, s`matchStart, s`lookahead, s`insert,
             s`input, s`base, s`dataEnd, s`inserted, s`frontier, s`missed, s`unwritten, s.window, s.head, s.prev
    ensures s.Valid() && (old(s.HashReady()) ==> s.HashReady())
    ensures Turned(old(Now(s)), Now(s)) && (|s.nextIn| < |old(s.nextIn)| || s.nextIn == [])
  {
    NowConsistent(s);
    CoreShaped(s);
    hide State.Valid, State.Core, State.HashReady, Completed, Accounted, Moment.Consistent;
    ghost var a := Now(s);
    var more := MakeRoom(s);
    NowConsistent(s);
    ghost var b := Now(s);
    if s.nextIn != [] {
      ReadMore(s, more);
      NowConsistent(s);
      MovedTwice(a, b, Now(s));
    }
  }

  /** The loop of `fill_window`: until there is enough lookahead or no input. */
  method FillLoop(s: State)
    requires s.Valid() && s.lookahead < MIN_LOOKAHEAD
    modifies s`nextIn, s`insH, s`blockStart, s`strstart, s`matchStart, s`lookahead, s`insert,
             s`input, s`base, s`dataEnd, s`inserted, s`frontier, s`missed, s`unwritten, s.window, s.head, s.prev
    ensures s.Valid() && (old(s.HashReady()) ==> s.HashReady())
    ensures Turned(old(Now(s)), Now(s)) && (s.lookahead >= MIN_LOOKAHEAD || s.nextIn == [])
  {
    NowConsistent(s);
    ghost var a := Now(s);
    FillTurn(s);
    hide Moved, State.Valid, State.HashReady, Moment.Consistent;
    while s.lookahead < MIN_LOOKAHEAD && s.nextIn != []
      invariant s.Valid() && (old(s.HashReady()) ==> s.HashReady())
      invariant Turned(a, Now(s))
      decreases |s.nextIn|
    {
      NowConsistent(s);
      ghost var b := Now(s);
      FillTurn(s);
      NowConsistent(s);
      MovedTwice(a, b, Now(s));
    }
  }

  /**
    `fill_window`: reads until there is enough lookahead or no input, sliding at most once, and
    leaves the stream position of everything as it was.
   */
  method FillWindow(s: State)
    requires s.Valid() && s.lookahead < MIN_LOOKAHEAD
    modifies s`nextIn, s`insH, s`blockStart, s`strstart, s`matchStart, s`lookahead, s`insert, s`highWater,
             s`input, s`base, s`dataEnd, s`inserted, s`frontier, s`missed, s`unwritten, s.window, s.head, s.prev
    ensures s.Valid() && (old(s.HashReady()) ==> s.HashReady())
    ensures s.base + s.strstart == old(s.base + s.strstart) && s.base + s.blockStart == old(s.base + s.blockStart)
    ensures s.MatchOffset() == old(s.MatchOffset())
    ensures old(s.input) <= s.input && s.input + s.nextIn == old(s.input + s.nextIn)
    ensures s.lookahead >= MIN_LOOKAHEAD || s.nextIn == []
    ensures s.lookahead >= old(s.lookahead) && s.insert <= old(s.insert)
    ensures s.strstart <= s.window.Length - MIN_LOOKAHEAD
    ensures old(|s.nextIn| + s.strstart + s.lookahead) <= s.window.Length ==> s.nextIn == []
    ensures if old(s.strstart) >= s.config.WSize() + s.config.MaxDist()
            then s.base == old(s.base) + s.config.WSize() else s.base == old(s.base)
    ensures s.highWater == Mark(old(s.highWater), s.strstart + s.lookahead, s.window.Length)
    ensures old(s.Cleared()) ==>
      && s.Cleared()
      && s.Stale() == StaleAfter(old(s.strstart) >= s.config.WSize() + s.config.MaxDist(), s.config.WSize(), old(s.highWater),
                                 old(s.Stale()), s.dataEnd)
    ensures s.missed == old(s.missed) + Stranded(s.origin, |old(s.input)|, old(s.Leftover()), |s.input|)
    ensures old(s.EnteredUpTo(s.base + s.strstart)) ==> s.EnteredUpTo(s.base + s.strstart)
    ensures Gains(old(s.inserted), |old(s.input)|, s.inserted, |s.input|, s.base + s.strstart)
    ensures old(s.TailKept()) ==> s.TailKept()
    ensures s.base == old(s.base) || s.strstart >= 2
  {
    hide Linked, Primed, Pow2, Mirrors, Gains, Complete, Stranded, StaleAfter, WrittenBelow, Below, Offset, State.Core;
    CoreShaped(s);
    WindowSizes(s.config);
    FillLoop(s);
    ClearAhead(s);
  }

  /** Rebasing both ends of a distance leaves it the same modulo 2^32, even when one end wraps. */
  lemma SlideDistance(to: int, from: int, shift: int)
    ensures Offset(to - shift, (from - shift) % WORD) == Offset(to, from)
  {
  }
}
