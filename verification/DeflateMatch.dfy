/**
  `longest_match` of lib/zlib/deflate.c.
 */
module DeflateMatch {
  import opened Words
  import opened Remainders
  import opened DeflateHash
  import opened DeflateDictionary
  import opened DeflateState
  import opened DeflateWindow
  import opened Lz77

  /** The strings at `a` and `b` agree on `length` bytes. */
  ghost predicate Agree(window: seq<Byte>, a: nat, b: nat, length: nat) {
    a + length <= |window| && b + length <= |window| && window[a..a + length] == window[b..b + length]
  }

  lemma AgreeNext(window: seq<Byte>, a: nat, b: nat, length: nat)
    requires Agree(window, a, b, length) && a + length < |window| && b + length < |window|
    requires window[a + length] == window[b + length]
    ensures Agree(window, a, b, length + 1)
  {
    assert window[a..a + length + 1] == window[a..a + length] + [window[a + length]];
    assert window[b..b + length + 1] == window[b..b + length] + [window[b + length]];
  }

  lemma AgreeLess(window: seq<Byte>, a: nat, b: nat, length: nat, length': nat)
    requires Agree(window, a, b, length) && length' <= length
    ensures Agree(window, a, b, length')
  {
    assert window[a..a + length'] == window[a..a + length][..length'];
    assert window[b..b + length'] == window[b..b + length][..length'];
  }

  /** How many bytes agree from `a` and from `b` on, counting to `n`. */
  function Common(window: seq<Byte>, a: nat, b: nat, n: nat): (k: nat)
    ensures k <= n
    decreases n
  {
    if n == 0 || a >= |window| || b >= |window| || window[a] != window[b] then 0
    else 1 + Common(window, a + 1, b + 1, n - 1)
  }

  lemma {:induction false} CommonIs(window: seq<Byte>, a: nat, b: nat, n: nat, k: nat)
    requires Agree(window, a, b, k) && k <= n
    requires k < n ==> a + k < |window| && b + k < |window| && window[a + k] != window[b + k]
    ensures Common(window, a, b, n) == k
    decreases k
  {
    if k > 0 {
      assert window[a] == window[a..a + k][0] == window[b..b + k][0] == window[b];
      assert window[a + 1..a + k] == window[a..a + k][1..] == window[b..b + k][1..] == window[b + 1..b + k];
      CommonIs(window, a + 1, b + 1, n - 1, k - 1);
    }
  }

  /** A difference at offset `k` bounds the agreement. */
  lemma {:induction false} CommonAtMost(window: seq<Byte>, a: nat, b: nat, n: nat, k: nat)
    requires a + k < |window| && b + k < |window| && window[a + k] != window[b + k]
    ensures Common(window, a, b, n) <= k
    decreases k
  {
    if k > 0 && n > 0 {
      CommonAtMost(window, a + 1, b + 1, n - 1, k - 1);
    }
  }

  lemma {:induction false} CommonAgrees(window: seq<Byte>, a: nat, b: nat, n: nat, i: nat)
    requires i < Common(window, a, b, n)
    ensures a + i < |window| && b + i < |window| && window[a + i] == window[b + i]
    decreases i
  {
    if i > 0 {
      CommonAgrees(window, a + 1, b + 1, n - 1, i - 1);
    }
  }

  /**
    The comparison loop, once three bytes are known to agree: eight bytes at a time, stopping
    at the first difference or after `MAX_MATCH` bytes.
   */
  method CompareStrings(window: array<Byte>, scan: nat, found: nat) returns (len: nat)
    requires found < scan && scan + MAX_MATCH < window.Length
    requires Agree(window[..], found, scan, 3)
    ensures len == Common(window[..], found, scan, MAX_MATCH) && Agree(window[..], found, scan, len)
  {
    hide Common, Agree;
    len := 2;
    while len < MAX_MATCH
      invariant 2 <= len <= MAX_MATCH && len % 8 == 2 && Agree(window[..], found, scan, len + 1)
      decreases MAX_MATCH - len
    {
      ghost var start := len;
      for i := 0 to 8
        invariant len == start + i && Agree(window[..], found, scan, len + 1)
      {
        len := len + 1;
        if window[scan + len] != window[found + len] {
          CommonIs(window[..], found, scan, MAX_MATCH, len);
          return;
        }
        AgreeNext(window[..], found, scan, len);
      }
    }
    AgreeLess(window[..], found, scan, len + 1, len);
    CommonIs(window[..], found, scan, MAX_MATCH, len);
  }

  /**
    The comparisons reach at most `MAX_MATCH` bytes beyond `strstart`, where all is written, four
    bytes before the middle of the window excepted.
   */
  lemma ReadsWritten(s: State, i: nat)
    requires s.Core() && s.dataEnd == s.strstart + s.lookahead && s.lookahead > 0 && s.Cleared()
    requires i <= s.strstart + MAX_MATCH && i < s.window.Length && i in s.unwritten
    ensures i in s.Stale() && s.config.WSize() - 4 <= i < s.config.WSize()
  {
    hide Linked, Pow2, Mirrors;
  }

  /** `cur` is on the chain of the string at `strstart`, and near enough. */
  ghost predicate Candidate(s: State, cur: nat)
    reads s`strstart, s`base, s`input, s`inserted
  {
    && 0 < cur < s.strstart && s.strstart - cur <= s.config.MaxDist()
    && s.base + s.strstart + 3 <= |s.input|
    && Entered(s.config.HashBits(), s.input, s.inserted, s.base + cur,
               HashAt(s.config.HashBits(), s.input, s.base + s.strstart))
  }

  lemma CandidateBehind(s: State, cur: nat)
    requires Candidate(s, cur)
    ensures 0 < cur < s.strstart && s.strstart - cur <= s.config.MaxDist()
  {
  }

  /** A candidate that agrees on two bytes agrees on the third, which is therefore not compared. */
  lemma ThirdByteAgrees(s: State, cur: nat)
    requires s.Core() && Candidate(s, cur)
    requires s.window[cur] == s.window[s.strstart] && s.window[cur + 1] == s.window[s.strstart + 1]
    ensures Agree(s.window[..], cur, s.strstart, 3)
  {
    hide Hash3, Roll, Linked, Pow2;
    var (i, b, t) := (s.input, s.base, s.strstart);
    assert s.window[cur] == i[b + cur] && s.window[cur + 1] == i[b + cur + 1] && s.window[cur + 2] == i[b + cur + 2];
    assert s.window[t] == i[b + t] && s.window[t + 1] == i[b + t + 1] && s.window[t + 2] == i[b + t + 2];
    ThirdByte(s.config.HashBits(), i[b + t], i[b + t + 1], i[b + cur + 2], i[b + t + 2]);
  }

  /** Following a link from a candidate leads to a candidate, as long as it stays above the limit. */
  lemma NextCandidate(s: State, cur: nat, limit: nat)
    requires s.Core() && Candidate(s, cur) && s.frontier <= s.base + s.strstart + 1
    requires s.strstart - limit <= s.config.MaxDist()
    requires s.prev[cur % s.config.WSize()] > limit
    ensures Candidate(s, s.prev[cur % s.config.WSize()]) && s.prev[cur % s.config.WSize()] < cur
  {
    hide HashAt, Pow2, Linked, Mirrors;
    WindowSizes(s.config);
    LinkedLink(s.config.HashBits(), s.config.WSize(), s.input, s.base, s.head[..], s.prev[..], s.inserted, s.frontier, s.base + cur);
    hide NoneBetween;
    assert s.base + cur - s.base == cur;
  }

  lemma AgreeRepeats(s: State, found: nat, length: nat)
    requires s.Core() && 0 < found < s.strstart && s.strstart + length <= s.dataEnd
    requires Agree(s.window[..], found, s.strstart, length)
    ensures Repeats(s.input, s.base + s.strstart, s.strstart - found, length)
  {
    hide Linked, Pow2;
    var at := s.base + s.strstart;
    forall k | at <= k < at + length
      ensures s.input[k] == s.input[k - (s.strstart - found)]
    {
      var j: nat := k - at;
      assert s.window[..][found..found + length][j] == s.window[..][s.strstart..s.strstart + length][j];
      assert s.window[..][s.strstart + j] == s.input[s.base + (s.strstart + j)];
      assert s.window[..][found + j] == s.input[s.base + (found + j)];
    }
  }

  /**
    One turn of the loop: 0 if the candidate cannot improve on `bestLen`, as the bytes compared
    first show, and otherwise the number of bytes on which it agrees.
   */
  method CompareCandidate(s: State, cur: nat, bestLen: nat, scanEnd1: Byte, scanEnd: Byte) returns (len: nat)
    requires s.Core() && Candidate(s, cur)
    requires s.strstart <= s.window.Length - MIN_LOOKAHEAD && 1 <= bestLen <= MAX_MATCH
    requires scanEnd1 == s.window[s.strstart + bestLen - 1] && scanEnd == s.window[s.strstart + bestLen]
    ensures Agree(s.window[..], cur, s.strstart, len)
    ensures len == Common(s.window[..], cur, s.strstart, MAX_MATCH) ||
            (len == 0 && Common(s.window[..], cur, s.strstart, MAX_MATCH) <= bestLen)
  {
    hide Linked, Pow2, HashAt, Mirrors, Common;
    if s.window[cur + bestLen] != scanEnd {
      CommonAtMost(s.window[..], cur, s.strstart, MAX_MATCH, bestLen);
      len := 0;
    } else if s.window[cur + bestLen - 1] != scanEnd1 {
      CommonAtMost(s.window[..], cur, s.strstart, MAX_MATCH, bestLen - 1);
      len := 0;
    } else if s.window[cur] != s.window[s.strstart] {
      CommonAtMost(s.window[..], cur, s.strstart, MAX_MATCH, 0);
      len := 0;
    } else if s.window[cur + 1] != s.window[s.strstart + 1] {
      CommonAtMost(s.window[..], cur, s.strstart, MAX_MATCH, 1);
      len := 0;
    } else {
      ThirdByteAgrees(s, cur);
      len := CompareStrings(s.window, s.strstart, cur);
    }
  }

  /** The index below which candidates are out of reach. */
  function Limit(s: State): (limit: nat)
    requires s.config.Valid()
    reads s`strstart
    ensures s.strstart - limit <= s.config.MaxDist()
  {
    if s.strstart > s.config.MaxDist() then WindowSizes(s.config); s.strstart - s.config.MaxDist() else 0
  }

  // ---------- The search, plainly ----------

  /** The positions on a chain from `cur` on, as long as they are above the limit, and `n` at most. */
  ghost function Chain(prev: seq<Pos>, cur: nat, limit: nat, n: nat): (c: seq<nat>)
    requires |prev| > 0
    ensures |c| <= n
    decreases n
  {
    if n == 0 then []
    else
      var next := prev[cur % |prev|];
      [cur] + (if next <= limit then [] else Chain(prev, next, limit, n - 1))
  }

  datatype Best = Best(length: nat, start: nat)

  /** Compares every candidate in full, keeps the first of the longest, and stops at one that is long enough. */
  ghost function Pick(window: seq<Byte>, scan: nat, candidates: seq<nat>, nice: nat, best: Best): Best
    decreases |candidates|
  {
    if candidates == [] then best
    else
      var len := Common(window, candidates[0], scan, MAX_MATCH);
      if len <= best.length then Pick(window, scan, candidates[1..], nice, best)
      else if len >= nice then Best(len, candidates[0])
      else Pick(window, scan, candidates[1..], nice, Best(len, candidates[0]))
  }

  /** What is picked is no shorter than any candidate, unless it is long enough. */
  lemma {:induction false} PickIsLongest(window: seq<Byte>, scan: nat, candidates: seq<nat>, nice: nat, best: Best)
    ensures
      var r := Pick(window, scan, candidates, nice, best);
      && r.length >= best.length && (r.length == best.length ==> r == best)
      && (r.length > best.length ==> r.start in candidates && r.length == Common(window, r.start, scan, MAX_MATCH))
      && (r.length < nice || r == best ==>
            forall c :: c in candidates ==> Common(window, c, scan, MAX_MATCH) <= r.length)
    decreases |candidates|
  {
    hide Common;
    if candidates != [] {
      var c := candidates[0];
      var len := Common(window, c, scan, MAX_MATCH);
      assert candidates == [c] + candidates[1..];
      PickIsLongest(window, scan, candidates[1..], nice, if len <= best.length then best else Best(len, c));
    }
  }

  /** The plain search `longest_match` amounts to. */
  ghost function Search(s: State, curMatch: nat, chainLength: nat, nice: nat): Best
    requires s.config.Valid() && s.prev.Length > 0
    reads s`strstart, s`prevLength, s`matchStart, s.window, s.prev
  {
    Pick(s.window[..], s.strstart, Chain(s.prev[..], curMatch, Limit(s), chainLength), nice, Best(s.prevLength, s.matchStart))
  }

  lemma ChainNext(prev: seq<Pos>, cur: nat, limit: nat, n: nat)
    requires |prev| > 0 && n > 0
    ensures
      var next := prev[cur % |prev|];
      && Chain(prev, cur, limit, n) != [] && Chain(prev, cur, limit, n)[0] == cur
      && Chain(prev, cur, limit, n)[1..] == if next <= limit || n == 1 then [] else Chain(prev, next, limit, n - 1)
  {
  }

  /** The loop over the chain. */
  method SearchChain(s: State, curMatch: Pos, maxChain: nat, niceMatch: nat, limit: nat) returns (bestLen: nat)
    requires s.Core() && s.frontier <= s.base + s.strstart + 1 && maxChain >= 1
    requires s.strstart <= s.window.Length - MIN_LOOKAHEAD && 1 <= s.prevLength <= MAX_MATCH
    requires Candidate(s, curMatch) && limit == Limit(s)
    modifies s`matchStart
    ensures s.prevLength <= bestLen <= MAX_MATCH
    ensures Best(bestLen, s.matchStart) == old(Search(s, curMatch, maxChain, niceMatch))
    ensures bestLen > s.prevLength ==>
      && 0 < s.matchStart < s.strstart && s.strstart - s.matchStart <= s.config.MaxDist()
      && Agree(s.window[..], s.matchStart, s.strstart, bestLen)
  {
    hide Linked, Pow2, HashAt, Mirrors, Agree, Candidate, State.Core, Common, Chain;
    CoreShaped(s);
    WindowSizes(s.config);
    CandidateBehind(s, curMatch);
    var chainLength, cur: nat := maxChain, curMatch;
    bestLen := s.prevLength;
    var scanEnd1, scanEnd := s.window[s.strstart + bestLen - 1], s.window[s.strstart + bestLen];
    while true
      invariant s.Core() && Candidate(s, cur) && 0 < cur < s.strstart && s.strstart - cur <= s.config.MaxDist() && chainLength >= 1
      invariant s.prevLength <= bestLen <= MAX_MATCH
      invariant scanEnd1 == s.window[s.strstart + bestLen - 1] && scanEnd == s.window[s.strstart + bestLen]
      invariant Pick(s.window[..], s.strstart, Chain(s.prev[..], cur, limit, chainLength), niceMatch, Best(bestLen, s.matchStart))
             == old(Search(s, curMatch, maxChain, niceMatch))
      invariant bestLen > s.prevLength ==>
        && 0 < s.matchStart < s.strstart && s.strstart - s.matchStart <= s.config.MaxDist()
        && Agree(s.window[..], s.matchStart, s.strstart, bestLen)
      decreases cur
    {
      ChainNext(s.prev[..], cur, limit, chainLength);
      var len := CompareCandidate(s, cur, bestLen, scanEnd1, scanEnd);
      if len > bestLen {
        s.matchStart := cur;
        bestLen := len;
        if len >= niceMatch { break; }
        scanEnd1, scanEnd := s.window[s.strstart + bestLen - 1], s.window[s.strstart + bestLen];
      }
      var next := s.prev[cur % s.config.WSize()];
      if next <= limit { break; }
      chainLength := chainLength - 1;
      if chainLength == 0 { break; }
      NextCandidate(s, cur, limit);
      cur := next;
    }
  }

  /** Entering a string at `strstart` leaves the chains of earlier positions within reach as they are. */
  lemma {:induction false} ChainKept(s: State, prev: seq<Pos>, cur: nat, limit: nat, n: nat)
    requires s.Core() && Candidate(s, cur) && s.frontier <= s.base + s.strstart + 1
    requires s.strstart - limit <= s.config.MaxDist() && s.prev.Length > 0
    requires |prev| == s.prev.Length && s.prev[..] == prev[s.strstart % s.prev.Length := s.prev[s.strstart % s.prev.Length]]
    ensures Chain(s.prev[..], cur, limit, n) == Chain(prev, cur, limit, n)
    decreases n
  {
    hide HashAt, State.Core, Linked;
    CoreShaped(s);
    WindowSizes(s.config);
    if n > 0 {
      CandidateBehind(s, cur);
      SlotsDiffer(s.prev.Length, cur, s.strstart);
      var next := prev[cur % |prev|];
      assert next == s.prev[cur % s.prev.Length];
      if next > limit {
        NextCandidate(s, cur, limit);
        hide Candidate;
        ChainKept(s, prev, next, limit, n - 1);
      }
    }
  }

  // ---------- What lies beyond the lookahead does not matter ----------

  function Least(a: nat, b: nat): nat {
    if a <= b then a else b
  }

  /** Two windows that agree before `end` agree on common lengths, as far as those stay before it. */
  lemma {:induction false} CommonBefore(w: seq<Byte>, w': seq<Byte>, a: nat, b: nat, n: nat, end: nat)
    requires |w| == |w'| && end <= |w| && w[..end] == w'[..end] && a <= b <= end
    ensures Least(Common(w, a, b, n), end - b) == Least(Common(w', a, b, n), end - b)
    decreases n
  {
    if n > 0 && b < end {
      assert w[a] == w[..end][a] == w'[a] && w[b] == w[..end][b] == w'[b];
      if w[a] == w[b] {
        CommonBefore(w, w', a + 1, b + 1, n - 1, end);
      }
    }
  }

  /**
    The bytes after the lookahead, which the comparisons read, do not affect what is found: cut
    to the lookahead, the length is the same, and unless the match held is as long as that, so is
    the start.
   */
  lemma {:induction false} PickBefore(w: seq<Byte>, w': seq<Byte>, scan: nat, candidates: seq<nat>, nice: nat, best: Best, end: nat)
    requires |w| == |w'| && scan <= end <= |w| && w[..end] == w'[..end] && nice <= end - scan
    requires forall c :: c in candidates ==> c <= scan
    ensures
      var (r, r') := (Pick(w, scan, candidates, nice, best), Pick(w', scan, candidates, nice, best));
      Least(r.length, end - scan) == Least(r'.length, end - scan) && (best.length < end - scan ==> r.start == r'.start)
    decreases |candidates|
  {
    hide Common;
    if candidates != [] {
      var (c, rest) := (candidates[0], candidates[1..]);
      assert c in candidates && forall d :: d in rest ==> d in candidates;
      CommonBefore(w, w', c, scan, MAX_MATCH, end);
      var len := Common(w, c, scan, MAX_MATCH);
      if best.length >= end - scan {
        PickIsLongest(w, scan, candidates, nice, best);
        PickIsLongest(w', scan, candidates, nice, best);
      } else if len <= best.length {
        PickBefore(w, w', scan, rest, nice, best, end);
      } else if len < nice {
        PickBefore(w, w', scan, rest, nice, Best(len, c), end);
      }
    }
  }

  lemma {:induction false} ChainBehind(s: State, cur: nat, limit: nat, n: nat)
    requires s.Core() && Candidate(s, cur) && s.frontier <= s.base + s.strstart + 1
    requires s.strstart - limit <= s.config.MaxDist() && s.prev.Length > 0
    ensures forall c :: c in Chain(s.prev[..], cur, limit, n) ==> c < s.strstart
    decreases n
  {
    hide HashAt, State.Core, Candidate;
    CoreShaped(s);
    WindowSizes(s.config);
    if n > 0 {
      CandidateBehind(s, cur);
      var next := s.prev[cur % s.config.WSize()];
      if next > limit {
        NextCandidate(s, cur, limit);
        ChainBehind(s, next, limit, n - 1);
      }
    }
  }

  /** So `longest_match` finds the same on any window that holds the same data. */
  lemma SameBeyond(s: State, window: seq<Byte>, curMatch: Pos, chainLength: nat)
    requires s.Core() && Candidate(s, curMatch) && s.frontier <= s.base + s.strstart + 1 && s.prev.Length > 0
    requires s.dataEnd == s.strstart + s.lookahead
    requires |window| == s.window.Length && window[..s.dataEnd] == s.window[..s.dataEnd]
    ensures
      var found := Search(s, curMatch, chainLength, NiceLength(s));
      var found' := Pick(window, s.strstart, Chain(s.prev[..], curMatch, Limit(s), chainLength), NiceLength(s),
                         Best(s.prevLength, s.matchStart));
      && Least(found.length, s.lookahead) == Least(found'.length, s.lookahead)
      && (s.prevLength < s.lookahead ==> found.start == found'.start)
  {
    hide State.Core, Candidate, Chain, Pick;
    CoreShaped(s);
    ChainBehind(s, curMatch, Limit(s), chainLength);
    assert s.window[..][..s.dataEnd] == s.window[..s.dataEnd];
    PickBefore(s.window[..], window, s.strstart, Chain(s.prev[..], curMatch, Limit(s), chainLength), NiceLength(s),
               Best(s.prevLength, s.matchStart), s.dataEnd);
  }

  /** How many candidates a search may look at: fewer if the match held, of length `held`, is good already. */
  function ChainLength(c: Config, held: nat): (n: nat)
    requires c.Valid() && c.level >= 1
    ensures n >= 1
  {
    if held >= c.GoodMatch() then c.MaxChain() / 4 else c.MaxChain()
  }

  /** The length at which a search stops, which never exceeds the lookahead. */
  function NiceLength(s: State): nat
    reads s`lookahead
  {
    if s.config.NiceMatch() > s.lookahead then s.lookahead else s.config.NiceMatch()
  }

  /** A position entered with the hash of the current string, between the limit and a candidate, is on the chain. */
  lemma {:induction false} ChainComplete(s: State, cur: nat, limit: nat, n: nat, a: nat)
    requires s.Core() && Candidate(s, cur) && s.frontier <= s.base + s.strstart + 1
    requires s.strstart - limit <= s.config.MaxDist() && s.prev.Length > 0
    requires a in s.inserted && s.base + limit < a <= s.base + cur && a + 3 <= |s.input|
    requires HashAt(s.config.HashBits(), s.input, a) == HashAt(s.config.HashBits(), s.input, s.base + s.strstart)
    ensures a - s.base in Chain(s.prev[..], cur, limit, n) || |Chain(s.prev[..], cur, limit, n)| == n
    decreases n
  {
    hide HashAt, State.Core, Linked;
    CoreShaped(s);
    WindowSizes(s.config);
    if n > 0 && a < s.base + cur {
      var next := s.prev[cur % s.config.WSize()];
      SkipsNone(s, cur, a);
      NextCandidate(s, cur, limit);
      ChainComplete(s, next, limit, n - 1, a);
    }
  }

  lemma SkipsNone(s: State, cur: nat, a: nat)
    requires s.Core() && Candidate(s, cur) && s.frontier <= s.base + s.strstart + 1
    requires a in s.inserted && s.base < a < s.base + cur && a + 3 <= |s.input|
    requires HashAt(s.config.HashBits(), s.input, a) == HashAt(s.config.HashBits(), s.input, s.base + s.strstart)
    ensures s.prev.Length == s.config.WSize() > 0 && a <= s.base + s.prev[cur % s.config.WSize()]
  {
    hide HashAt, Pow2, Linked, Mirrors;
    WindowSizes(s.config);
    LinkedLink(s.config.HashBits(), s.config.WSize(), s.input, s.base, s.head[..], s.prev[..], s.inserted, s.frontier, s.base + cur);
    assert s.base + cur - s.base == cur;
  }

  lemma CommonHash(s: State, a: nat)
    requires s.Core() && s.base < a < s.base + s.strstart && s.base + s.strstart + 3 <= |s.input|
    requires Common(s.window[..], a - s.base, s.strstart, MAX_MATCH) >= 3
    ensures HashAt(s.config.HashBits(), s.input, a) == HashAt(s.config.HashBits(), s.input, s.base + s.strstart)
  {
    hide Hash3, Linked, Pow2, Common;
    var (c, t) := (a - s.base, s.strstart);
    CommonAgrees(s.window[..], c, t, MAX_MATCH, 0);
    CommonAgrees(s.window[..], c, t, MAX_MATCH, 1);
    CommonAgrees(s.window[..], c, t, MAX_MATCH, 2);
    WindowByte(s, c);
    WindowByte(s, c + 1);
    WindowByte(s, c + 2);
    WindowByte(s, t);
    WindowByte(s, t + 1);
    WindowByte(s, t + 2);
  }

  lemma NotPast(s: State, q: nat, a: nat)
    requires s.base + s.strstart + 3 <= |s.input| && a + 3 <= |s.input|
    requires NoneBetween(s.config.HashBits(), s.input, s.base, s.inserted, q, s.base + s.strstart)
    requires a in s.inserted && s.base < a < s.base + s.strstart
    requires HashAt(s.config.HashBits(), s.input, a) == HashAt(s.config.HashBits(), s.input, s.base + s.strstart)
    ensures a <= s.base + q
  {
    hide HashAt;
  }

  /** No position in the dictionary within reach begins a match of three bytes or more that is longer. */
  ghost predicate NothingLonger(s: State, length: nat)
    requires s.config.Valid()
    reads s`inserted, s`base, s`strstart, s.window
  {
    forall a :: a in s.inserted && s.base + Limit(s) < a < s.base + s.strstart ==> NotLonger(s, a, length)
  }

  ghost predicate NotLonger(s: State, a: nat, length: nat)
    reads s`base, s`strstart, s.window
  {
    s.base <= a ==>
      var k := Common(s.window[..], a - s.base, s.strstart, MAX_MATCH);
      k < MIN_MATCH || k <= length
  }

  /**
    `longest_match` earns its name: when the search ends neither for want of chain length nor
    at a match that is long enough, no position in the dictionary within reach begins a longer
    match than it found, nor one of three bytes if it found none.
   */
  lemma LongestIsLongest(s: State, curMatch: Pos, chainLength: nat, nice: nat, a: nat)
    requires s.Core() && Candidate(s, curMatch) && s.frontier <= s.base + s.strstart + 1 && s.prev.Length > 0
    requires NoneBetween(s.config.HashBits(), s.input, s.base, s.inserted, curMatch, s.base + s.strstart)
    requires |Chain(s.prev[..], curMatch, Limit(s), chainLength)| < chainLength
    requires Search(s, curMatch, chainLength, nice).length < nice
    requires a in s.inserted && s.base + Limit(s) < a < s.base + s.strstart
    ensures NotLonger(s, a, Search(s, curMatch, chainLength, nice).length)
  {
    hide Common, HashAt, State.Core, Chain, Pick, Limit, NoneBetween;
    CoreShaped(s);
    if Common(s.window[..], a - s.base, s.strstart, MAX_MATCH) >= MIN_MATCH {
      var chain := Chain(s.prev[..], curMatch, Limit(s), chainLength);
      CommonHash(s, a);
      EnteredInput(s);
      NotPast(s, curMatch, a);
      ChainComplete(s, curMatch, Limit(s), chainLength, a);
      PickIsLongest(s.window[..], s.strstart, chain, nice, Best(s.prevLength, s.matchStart));
    }
  }

  lemma AllNotLonger(s: State, curMatch: Pos, chainLength: nat, nice: nat)
    requires s.Core() && Candidate(s, curMatch) && s.frontier <= s.base + s.strstart + 1 && s.prev.Length > 0
    requires NoneBetween(s.config.HashBits(), s.input, s.base, s.inserted, curMatch, s.base + s.strstart)
    requires |Chain(s.prev[..], curMatch, Limit(s), chainLength)| < chainLength
    requires Search(s, curMatch, chainLength, nice).length < nice
    ensures NothingLonger(s, Search(s, curMatch, chainLength, nice).length)
  {
    CoreShaped(s);
    hide State.Core, Candidate, NoneBetween, Chain, Search, NotLonger, Limit;
    forall a | a in s.inserted && s.base + Limit(s) < a < s.base + s.strstart
      ensures NotLonger(s, a, Search(s, curMatch, chainLength, nice).length)
    {
      LongestIsLongest(s, curMatch, chainLength, nice, a);
    }
  }

  /** Neither the chain limit nor the nice length ends the search from `curMatch`. */
  ghost predicate Exhaustive(s: State, curMatch: nat)
    requires s.config.Valid() && s.config.level >= 1 && s.prev.Length > 0
    reads s`strstart, s`lookahead, s`prevLength, s`matchStart, s.window, s.prev
  {
    var n := ChainLength(s.config, s.prevLength);
    |Chain(s.prev[..], curMatch, Limit(s), n)| < n && Search(s, curMatch, n, NiceLength(s)).length < NiceLength(s)
  }

  /**
    `longest_match`, called with the head of the current string's chain.  It finds what the plain
    search finds, cut to the lookahead; unless the chain limit or the nice length ended the
    search, nothing in reach is longer; and a result above `prevLength` is the length of a true
    match at `matchStart`, no farther than the window allows.
   */
  method LongestMatch(s: State, curMatch: Pos) returns (r: nat)
    requires s.Core() && s.dataEnd == s.strstart + s.lookahead
    requires s.config.level >= 1 && s.frontier <= s.base + s.strstart + 1
    requires s.strstart <= s.window.Length - MIN_LOOKAHEAD && 1 <= s.prevLength <= MAX_MATCH
    requires Candidate(s, curMatch)
    requires NoneBetween(s.config.HashBits(), s.input, s.base, s.inserted, curMatch, s.base + s.strstart)
    modifies s`matchStart
    ensures r <= s.lookahead && r <= MAX_MATCH && (r >= s.prevLength || r == s.lookahead)
    ensures
      var best := old(Search(s, curMatch, ChainLength(s.config, s.prevLength), NiceLength(s)));
      && s.matchStart == best.start && r == (if best.length <= s.lookahead then best.length else s.lookahead)
      && (old(Exhaustive(s, curMatch)) ==> NothingLonger(s, best.length))
    ensures r > s.prevLength ==>
      && 0 < s.matchStart < s.strstart && s.strstart - s.matchStart <= s.config.MaxDist()
      && Repeats(s.input, s.base + s.strstart, s.strstart - s.matchStart, r)
  {
    hide Linked, Pow2, HashAt, Mirrors, Agree, Candidate, State.Core, Config.NiceMatch, Config.GoodMatch, Config.MaxChain,
         Search, Chain, Pick, NoneBetween, NothingLonger;
    CoreShaped(s);
    if Exhaustive(s, curMatch) {
      AllNotLonger(s, curMatch, ChainLength(s.config, s.prevLength), NiceLength(s));
    }
    var chainLength, niceMatch := s.config.MaxChain(), s.config.NiceMatch();
    if s.prevLength >= s.config.GoodMatch() {
      chainLength := chainLength / 4;
    }
    if niceMatch > s.lookahead {
      niceMatch := s.lookahead;
    }
    var bestLen := SearchChain(s, curMatch, chainLength, niceMatch, Limit(s));
    r := if bestLen <= s.lookahead then bestLen else s.lookahead;
    if r > s.prevLength {
      AgreeLess(s.window[..], s.matchStart, s.strstart, bestLen, r);
      AgreeRepeats(s, s.matchStart, r);
    }
  }

  /** The head of the chain of the string at `strstart`, if there are enough bytes for one; 0 ends the chains. */
  ghost function ChainHead(s: State): Pos
    requires s.Valid()
    reads s, s.window, s.head, s.prev
  {
    if s.lookahead >= MIN_MATCH then s.head[HashAt(s.config.HashBits(), s.input, s.base + s.strstart)] else 0
  }

  /**
    What the search from `curMatch` along `prev` finds at `strstart`, cut to the lookahead, when a
    match of length `held` is held.
   */
  ghost function SearchIn(s: State, prev: seq<Pos>, curMatch: nat, held: nat): Best
    requires s.Shaped() && s.config.level >= 1 && |prev| == s.prev.Length
    reads s`strstart, s`lookahead, s`matchStart, s.window
  {
    WindowSizes(s.config);
    var best := Pick(s.window[..], s.strstart, Chain(prev, curMatch, Limit(s), ChainLength(s.config, held)), NiceLength(s),
                     Best(held, s.matchStart));
    Best(Least(best.length, s.lookahead), best.start)
  }

  ghost function SearchFrom(s: State, curMatch: nat, held: nat): Best
    requires s.Valid() && s.config.level >= 1
    reads s, s.window, s.head, s.prev
  {
    SearchIn(s, s.prev[..], curMatch, held)
  }

  lemma EntryLength(s: State)
    requires StringEntered(s)
    ensures |s.input| == s.base + s.strstart + s.lookahead
    ensures s.Core() && s.dataEnd == s.strstart + s.lookahead && s.frontier <= s.base + s.strstart + 1
    ensures s.strstart <= s.window.Length - MIN_LOOKAHEAD
  {
    hide Linked, Pow2, Primed;
  }

  /** A match of length `matchLength` for the string at `strstart` has been found at `matchStart`. */
  ghost predicate MatchFound(s: State)
    reads s`strstart, s`base, s`input, s`lookahead, s`matchStart, s`matchLength
  {
    && s.matchLength <= s.lookahead && 0 < s.matchStart < s.strstart
    && s.strstart - s.matchStart <= s.config.MaxDist()
    && Repeats(s.input, s.base + s.strstart, s.strstart - s.matchStart, s.matchLength)
  }

  /** The string at `strstart` is in the dictionary, if there are enough bytes for one, and `strstart` has yet to move on. */
  ghost predicate StringEntered(s: State)
    reads s`input, s`base, s`dataEnd, s`inserted, s`frontier, s`highWater, s`origin, s`strstart, s`lookahead, s`insert, s`insH
    reads s.window, s.head, s.prev
  {
    && s.Core() && s.frontier <= s.base + s.strstart + 1 && s.dataEnd == s.strstart + s.lookahead && s.lookahead > 0
    && s.strstart <= s.window.Length - MIN_LOOKAHEAD
    && (s.insert > 0 ==>
          s.insert <= s.strstart && s.lookahead + s.insert < MIN_MATCH && s.frontier + s.insert <= s.base + s.strstart)
    && (s.lookahead > MIN_MATCH ==>
          Primed(s.config.HashBits(), s.insH, s.window[s.strstart + 1], s.window[s.strstart + 2]))
  }

  /**
    Enters the string at `strstart`, if it has three bytes; `hashHead` is the nearest earlier
    position with its hash, or 0 if there is none in the window.
   */
  method EnterString(s: State) returns (hashHead: Pos)
    requires s.Valid() && s.HashReady() && s.strstart <= s.window.Length - MIN_LOOKAHEAD && s.lookahead > 0
    modifies s`insH, s`inserted, s`frontier, s.head, s.prev
    ensures StringEntered(s)
    ensures hashHead != 0 ==> s.strstart >= hashHead && s.lookahead >= MIN_MATCH
    ensures hashHead != 0 && s.strstart - hashHead <= s.config.MaxDist() ==> Candidate(s, hashHead)
    ensures s.inserted == if s.lookahead >= MIN_MATCH then old(s.inserted) + {s.base + s.strstart} else old(s.inserted)
    ensures hashHead == old(ChainHead(s)) && s.prev.Length > 0
    ensures s.prev[..] == old(s.prev[..])[s.strstart % s.prev.Length := s.prev[s.strstart % s.prev.Length]]
    ensures s.lookahead >= MIN_MATCH ==>
      && s.base + s.strstart + 3 <= |s.input|
      && NoneBetween(s.config.HashBits(), s.input, s.base, s.inserted, hashHead, s.base + s.strstart)
  {
    hide Linked, Pow2, Primed, HashAt;
    WindowSizes(s.config);
    hashHead := 0;
    if s.lookahead >= MIN_MATCH {
      assert s.insert == 0 && s.strstart < 0x1_0000;
      hashHead := InsertString(s, s.strstart);
    }
  }
}
