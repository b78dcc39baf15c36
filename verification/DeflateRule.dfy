/**
  What a match search has to find, said of the input alone: the rule of `deflate_fast` and
  `deflate_slow` in lib/zlib/deflate.c without window, hash tables or loops, and the traces of
  lazy matching.
 */
module DeflateRule {
  import opened Words
  import opened DeflateHash
  import opened DeflateDictionary
  import opened DeflateState
  import opened DeflateWindow
  import opened DeflateMatch
  import opened Lz77

  /** How many bytes are equal from `a` and from `p` on, 258 at most, and none beyond the input. */
  function Equal(input: seq<Byte>, a: nat, p: nat): nat
    requires p <= |input|
  {
    Common(input, a, p, Least(258, |input| - p))
  }

  /** The earlier strings within reach that have the hash of the string at `p`. */
  ghost function Crowd(c: Config, input: seq<Byte>, base: nat, p: nat): set<nat>
    requires p + 3 <= |input|
  {
    set a | base < a < p && p - a <= c.MaxDist() && HashAt(c.HashBits(), input, a) == HashAt(c.HashBits(), input, p)
  }

  /** Fewer than a search may look at, when a match of length `held` is held. */
  ghost predicate Few(c: Config, input: seq<Byte>, base: nat, p: nat, held: nat)
    requires p + 3 <= |input|
  {
    |Crowd(c, input, base, p)| < (if held >= c.GoodMatch() then c.MaxChain() / 4 else c.MaxChain())
  }

  /** A match not worth having: a short one when filtering, one of three bytes from far away. */
  predicate Poor(c: Config, length: nat, distance: int) {
    length <= 5 && (c.strategy == Filtered || (length == 3 && distance > 4096))
  }

  /** A match at `p` for the string at `a` that is longer than `length`, and worth having. */
  predicate Better(c: Config, input: seq<Byte>, a: nat, p: nat, length: nat)
    requires a < p <= |input|
  {
    var k := Equal(input, a, p);
    k >= 3 && k > length && !Poor(c, k, p - a)
  }

  /** No string in the window and within reach, save the missed ones, begins a better match. */
  ghost predicate NoneBetter(c: Config, input: seq<Byte>, base: nat, missed: set<nat>, p: nat, length: nat)
    requires p <= |input|
  {
    forall a: nat :: base < a < p && p - a < c.MaxDist() && a !in missed ==> !Better(c, input, a, p, length)
  }

  /** A match of the format at `p`, from inside the window. */
  predicate True(c: Config, input: seq<Byte>, base: nat, p: nat, length: nat, distance: nat) {
    && 3 <= length <= 258 && p + length <= |input| && distance <= c.MaxDist() && base + distance < p
    && Repeats(input, p, distance, length)
  }

  /**
    The length a lazy search may find at `p`, 2 if it finds none, when a match of length `held` is
    held.  It searches if and only if that is below `max_lazy` and there are three bytes.  Beyond
    `held` it finds only true matches worth having; and unless more strings share the hash than it
    may look at, or it is satisfied with the length, none is better.
   */
  ghost predicate Finds(c: Config, input: seq<Byte>, base: nat, missed: set<nat>, p: nat, held: nat, found: nat, distance: nat)
    requires p <= |input|
  {
    && found >= 2 && (found > held ==> True(c, input, base, p, found, distance) && !Poor(c, found, distance))
    && (p + 3 > |input| || held >= c.MaxLazy() ==> found == 2)
    && (p + 3 <= |input| && held < c.MaxLazy() && Few(c, input, base, p, held) ==>
          found >= c.NiceMatch() || NoneBetter(c, input, base, missed, p, if found > held then found else held))
  }

  // ---------- Lazy matching, turn by turn ----------

  /**
    Where a compression stands: the input read, the input not yet read, the stream position of the
    window and that of the next byte to look at, the match held for the byte before it, whether
    that byte is still to be output, the tokens so far, and the missed strings.
   */
  datatype View = View(input: seq<Byte>, rest: seq<Byte>, base: nat, p: nat, held: nat, distance: nat, available: bool,
                       tokens: seq<Token>, missed: set<nat>)

  /**
    One turn, with enough lookahead or no more input: the match held is output if nothing longer is
    found one byte later; otherwise the byte before is, if there is one, and what was found is held.
   */
  ghost predicate Moves(c: Config, v: View, w: View, found: nat, distance: nat) {
    && v.p < |v.input| && (v.rest == [] || v.p + MIN_LOOKAHEAD <= |v.input|)
    && (v.available ==> v.p > 0)
    && Finds(c, v.input, v.base, v.missed, v.p, v.held, found, distance)
    && w == if v.held >= 3 && found <= v.held
            then v.(p := v.p + v.held - 1, held := 2, distance := 0, available := false,
                    tokens := v.tokens + [Match(v.held, v.distance)])
            else v.(p := v.p + 1, held := found, distance := if found >= 3 then distance else 0, available := true,
                    tokens := v.tokens + (if v.available then [Literal(v.input[v.p - 1])] else []))
  }

  /** More input is read, when there is too little, until there is enough or no more; the window may slide. */
  predicate Fills(c: Config, v: View, w: View) {
    && |v.input| < v.p + MIN_LOOKAHEAD && (w.rest == [] || w.p + MIN_LOOKAHEAD <= |w.input|)
    && w == v.(input := w.input, rest := w.rest, base := w.base, missed := w.missed)
    && v.input <= w.input && w.input + w.rest == v.input + v.rest && v.missed <= w.missed
    && (w.base == v.base || v.p - v.base >= c.WSize() + c.MaxDist())
  }

  ghost predicate Steps(c: Config, v: View, w: View) {
    exists found: nat, distance: nat :: Moves(c, v, w, found, distance)
  }

  ghost predicate Goes(c: Config, v: View, w: View) {
    v == w || Fills(c, v, w) || Steps(c, v, w)
  }

  /** At the end of the input the byte still to be output is. */
  predicate Ends(v: View, w: View) {
    && v.rest == [] && v.p == |v.input| && (v.available ==> v.p > 0)
    && w == v.(available := false, tokens := v.tokens + (if v.available then [Literal(v.input[v.p - 1])] else []))
  }

  /** A compression from one view to another. */
  ghost predicate Trace(c: Config, trace: seq<View>, v: View, w: View) {
    && trace != [] && trace[0] == v && trace[|trace| - 1] == w
    && forall i :: 0 <= i < |trace| - 1 ==> Goes(c, trace[i], trace[i + 1])
  }

  lemma TraceStart(c: Config, v: View)
    ensures Trace(c, [v], v, v)
  {
  }

  lemma TraceNext(c: Config, trace: seq<View>, v: View, w: View, x: View)
    requires Trace(c, trace, v, w) && Goes(c, w, x)
    ensures Trace(c, trace + [x], v, x)
  {
    hide Goes;
    var t := trace + [x];
    forall i | 0 <= i < |t| - 1
      ensures Goes(c, t[i], t[i + 1])
    {
      if i < |trace| - 1 {
        assert t[i] == trace[i] && t[i + 1] == trace[i + 1];
      }
    }
  }

  // ---------- Greedy matching, turn by turn ----------

  /** No string entered and within reach begins a longer match. */
  ghost predicate NoneLonger(c: Config, input: seq<Byte>, base: nat, inserted: set<nat>, p: nat, length: nat)
    requires p <= |input|
  {
    forall a: nat :: a in inserted && base < a < p && p - a < c.MaxDist() ==> Equal(input, a, p) <= length
  }

  lemma NoneLongerFewer(c: Config, input: seq<Byte>, base: nat, inserted: set<nat>, fewer: set<nat>, p: nat, length: nat)
    requires p <= |input| && NoneLonger(c, input, base, inserted, p, length) && fewer <= inserted
    ensures NoneLonger(c, input, base, fewer, p, length)
  {
    hide Equal;
  }

  /**
    The length a greedy search may find at `p`, less than 3 if it finds none: only true matches, and
    none longer among the strings entered unless more share the hash than it may look at, or it is
    satisfied with the length.
   */
  ghost predicate FindsFirst(c: Config, input: seq<Byte>, base: nat, inserted: set<nat>, p: nat, found: nat, distance: nat)
    requires p <= |input|
  {
    && (found >= 3 ==> True(c, input, base, p, found, distance))
    && (p + 3 <= |input| && Few(c, input, base, p, 2) ==>
          found >= c.NiceMatch() || NoneLonger(c, input, base, inserted, p, if found >= 3 then found else 2))
  }

  /** Where a compression that holds nothing back stands, with the strings entered. */
  datatype Place = Place(input: seq<Byte>, rest: seq<Byte>, base: nat, p: nat, tokens: seq<Token>, inserted: set<nat>)

  ghost function PlaceOf(s: State): Place
    requires s.lastLit <= s.dBuf.Length && s.lastLit <= s.lBuf.Length
    reads s, s.dBuf, s.lBuf
  {
    Place(s.input, s.nextIn, s.base, s.base + s.strstart, s.Tokens(), s.inserted)
  }

  lemma PlaceInserted(s: State)
    requires s.lastLit <= s.dBuf.Length && s.lastLit <= s.lBuf.Length
    ensures PlaceOf(s).inserted == s.inserted
  {
  }

  /**
    One turn: the match found is output and passed over, or else the byte is.  The strings inside a
    match are entered only if it is no longer than `max_lazy` and three bytes follow.
   */
  ghost predicate FastMoves(c: Config, v: Place, w: Place, found: nat, distance: nat) {
    && v.p < |v.input| && (v.rest == [] || v.p + MIN_LOOKAHEAD <= |v.input|)
    && FindsFirst(c, v.input, v.base, v.inserted, v.p, found, distance)
    && w == if found >= 3
            then v.(p := v.p + found, tokens := v.tokens + [Match(found, distance)],
                    inserted := v.inserted + {v.p} +
                      (if found <= c.MaxLazy() && v.p + found + 3 <= |v.input| then Span(v.p + 1, v.p + found) else {}))
            else v.(p := v.p + 1, tokens := v.tokens + [Literal(v.input[v.p])],
                    inserted := if v.p + 3 <= |v.input| then v.inserted + {v.p} else v.inserted)
  }

  ghost predicate FastSteps(c: Config, v: Place, w: Place) {
    exists found: nat, distance: nat :: FastMoves(c, v, w, found, distance)
  }

  lemma FastStepsBy(c: Config, v: Place, w: Place, found: nat, distance: nat)
    requires FastMoves(c, v, w, found, distance)
    ensures FastSteps(c, v, w)
  {
    hide FastMoves;
  }

  /** More input is read, and strings left over for want of it are entered. */
  ghost predicate Feeds(c: Config, v: Place, w: Place) {
    && |v.input| < v.p + MIN_LOOKAHEAD && (w.rest == [] || w.p + MIN_LOOKAHEAD <= |w.input|)
    && w == v.(input := w.input, rest := w.rest, base := w.base, inserted := w.inserted)
    && v.input <= w.input && w.input + w.rest == v.input + v.rest
    && Gains(v.inserted, |v.input|, w.inserted, |w.input|, v.p)
    && (w.base == v.base || (v.p - v.base >= c.WSize() + c.MaxDist() && w.base + 2 <= v.p))
  }

  ghost predicate FastGoes(c: Config, v: Place, w: Place) {
    v == w || Feeds(c, v, w) || FastSteps(c, v, w)
  }

  ghost predicate FastTrace(c: Config, trace: seq<Place>, v: Place, w: Place) {
    && trace != [] && trace[0] == v && trace[|trace| - 1] == w
    && forall i :: 0 <= i < |trace| - 1 ==> FastGoes(c, trace[i], trace[i + 1])
  }

  lemma FastTraceStart(c: Config, v: Place)
    ensures FastTrace(c, [v], v, v)
  {
  }

  lemma FastTraceNext(c: Config, trace: seq<Place>, v: Place, w: Place, x: Place)
    requires FastTrace(c, trace, v, w) && FastGoes(c, w, x)
    ensures FastTrace(c, trace + [x], v, x)
  {
    hide FastGoes;
    var t := trace + [x];
    forall i | 0 <= i < |t| - 1
      ensures FastGoes(c, t[i], t[i + 1])
    {
      if i < |trace| - 1 {
        assert t[i] == trace[i] && t[i + 1] == trace[i + 1];
      }
    }
  }

  /** Nothing that was entered is forgotten. */
  lemma {:induction false} FastTraceGrows(c: Config, trace: seq<Place>, i: nat)
    requires i < |trace| && forall j :: 0 <= j < |trace| - 1 ==> FastGoes(c, trace[j], trace[j + 1])
    ensures trace[0].inserted <= trace[i].inserted
  {
    if i > 0 {
      FastTraceGrows(c, trace, i - 1);
      FastGrows(c, trace[i - 1], trace[i]);
    }
  }

  lemma FastGrows(c: Config, v: Place, w: Place)
    requires FastGoes(c, v, w)
    ensures v.inserted <= w.inserted
  {
    hide FindsFirst;
  }

  // ---------- Runs and literals, turn by turn ----------

  /** The token at `p`: the run of the byte before, if it has three bytes, or else the byte. */
  function PlainToken(huffman: bool, input: seq<Byte>, p: nat, first: bool): (t: Token)
    requires p < |input|
    ensures Length(t) >= 1
  {
    if !huffman && !first && p > 0 && Equal(input, p - 1, p) >= 3 then Match(Equal(input, p - 1, p), 1) else Literal(input[p])
  }

  /** One turn; at the beginning of the window there is no byte before. */
  predicate PlainMoves(huffman: bool, v: Place, w: Place) {
    && v.p < |v.input| && (v.rest == [] || v.p + (if huffman then 1 else 259) <= |v.input|)
    && var t := PlainToken(huffman, v.input, v.p, v.p == v.base);
       w == v.(p := v.p + Length(t), tokens := v.tokens + [t])
  }

  ghost predicate PlainGoes(c: Config, huffman: bool, v: Place, w: Place) {
    v == w || Feeds(c, v, w) || PlainMoves(huffman, v, w)
  }

  ghost predicate PlainTrace(c: Config, huffman: bool, trace: seq<Place>, v: Place, w: Place) {
    && trace != [] && trace[0] == v && trace[|trace| - 1] == w
    && forall i :: 0 <= i < |trace| - 1 ==> PlainGoes(c, huffman, trace[i], trace[i + 1])
  }

  lemma PlainTraceStart(c: Config, huffman: bool, v: Place)
    ensures PlainTrace(c, huffman, [v], v, v)
  {
  }

  lemma PlainTraceNext(c: Config, huffman: bool, trace: seq<Place>, v: Place, w: Place, x: Place)
    requires PlainTrace(c, huffman, trace, v, w) && PlainGoes(c, huffman, w, x)
    ensures PlainTrace(c, huffman, trace + [x], v, x)
  {
    hide PlainGoes;
    var t := trace + [x];
    forall i | 0 <= i < |t| - 1
      ensures PlainGoes(c, huffman, t[i], t[i + 1])
    {
      if i < |trace| - 1 {
        assert t[i] == trace[i] && t[i + 1] == trace[i + 1];
      }
    }
  }

  /** All tokens for the input from `p` on, the beginning of the input having no byte before it. */
  function PlainTokens(huffman: bool, input: seq<Byte>, p: nat): seq<Token>
    decreases |input| - p
  {
    if p >= |input| then []
    else
      var t := PlainToken(huffman, input, p, p == 0);
      [t] + PlainTokens(huffman, input, p + Length(t))
  }

  /** With 258 bytes there, more do not matter. */
  lemma EqualMore(input: seq<Byte>, rest: seq<Byte>, a: nat, p: nat)
    requires a < p && (rest == [] || p + 258 <= |input|) && p <= |input|
    ensures Equal(input + rest, a, p) == Equal(input, a, p)
  {
    if rest == [] {
      assert input + rest == input;
    } else {
      CommonExtends(input, rest, a, p, 258);
    }
  }

  lemma {:induction false} CommonExtends(input: seq<Byte>, rest: seq<Byte>, a: nat, b: nat, n: nat)
    requires a <= b && b + n <= |input|
    ensures Common(input + rest, a, b, n) == Common(input, a, b, n)
    decreases n
  {
    if n > 0 {
      CommonExtends(input, rest, a + 1, b + 1, n - 1);
    }
  }

  /** What is output and what is still to come make up the tokens of the whole input. */
  ghost predicate OnCourse(huffman: bool, whole: seq<Byte>, v: Place) {
    && v.input + v.rest == whole && v.base <= v.p <= |v.input| && (v.p == v.base ==> v.base == 0)
    && v.tokens + PlainTokens(huffman, whole, v.p) == PlainTokens(huffman, whole, 0)
  }

  lemma PlainTokenMore(huffman: bool, v: Place, whole: seq<Byte>)
    requires v.p < |v.input| && v.input + v.rest == whole && v.base <= v.p && (v.p == v.base ==> v.base == 0)
    requires v.rest == [] || v.p + (if huffman then 1 else 259) <= |v.input|
    ensures PlainToken(huffman, v.input, v.p, v.p == v.base) == PlainToken(huffman, whole, v.p, v.p == 0)
  {
    hide Equal;
    if !huffman && v.p > 0 {
      EqualMore(v.input, v.rest, v.p - 1, v.p);
    }
  }

  lemma CourseNext(c: Config, huffman: bool, whole: seq<Byte>, v: Place, w: Place)
    requires OnCourse(huffman, whole, v) && PlainGoes(c, huffman, v, w)
    ensures OnCourse(huffman, whole, w)
  {
    hide Gains, Common;
    if v != w && !Feeds(c, v, w) {
      PlainTokenMore(huffman, v, whole);
      var t := PlainToken(huffman, v.input, v.p, v.p == v.base);
      assert v.p + Length(t) <= |v.input|;
      hide PlainToken;
      assert v.tokens + PlainTokens(huffman, whole, v.p) == v.tokens + [t] + PlainTokens(huffman, whole, v.p + Length(t));
    }
  }

  /** Over a whole compression. */
  lemma {:induction false} CourseKept(c: Config, huffman: bool, trace: seq<Place>, i: nat)
    requires i < |trace| && forall j :: 0 <= j < |trace| - 1 ==> PlainGoes(c, huffman, trace[j], trace[j + 1])
    requires OnCourse(huffman, trace[0].input + trace[0].rest, trace[0])
    ensures OnCourse(huffman, trace[0].input + trace[0].rest, trace[i])
  {
    hide PlainGoes, OnCourse;
    if i > 0 {
      CourseKept(c, huffman, trace, i - 1);
      assert PlainGoes(c, huffman, trace[i - 1], trace[i - 1 + 1]);
      CourseNext(c, huffman, trace[0].input + trace[0].rest, trace[i - 1], trace[i]);
    }
  }

  /** Without matches the tokens are the bytes. */
  lemma {:induction false} OnlyLiterals(input: seq<Byte>, p: nat)
    requires p <= |input|
    ensures |PlainTokens(true, input, p)| == |input| - p
    ensures forall i :: 0 <= i < |input| - p ==> PlainTokens(true, input, p)[i] == Literal(input[p + i])
    decreases |input| - p
  {
    if p < |input| {
      OnlyLiterals(input, p + 1);
    }
  }

  // ---------- From the window to the input ----------

  lemma EntryFits(s: State)
    requires StringEntered(s)
    ensures s.strstart < WORD && s.origin <= s.base
  {
    hide Linked, Pow2, Primed, Mirrors;
    WindowSizes(s.config);
  }

  lemma {:induction false} CommonCut(w: seq<Byte>, a: nat, b: nat, m: nat, n: nat)
    ensures Common(w, a, b, Least(m, n)) == Least(Common(w, a, b, m), n)
    decreases n
  {
    if m > 0 && n > 0 {
      CommonCut(w, a + 1, b + 1, m - 1, n - 1);
    }
  }

  lemma {:induction false} CommonMoves(w: seq<Byte>, input: seq<Byte>, base: nat, a: nat, b: nat, n: nat)
    requires b + n <= |w| && a <= b && base + b + n <= |input|
    requires forall i :: a <= i < b + n ==> w[i] == input[base + i]
    ensures Common(w, a, b, n) == Common(input, base + a, base + b, n)
    decreases n
  {
    if n > 0 {
      CommonMoves(w, input, base, a + 1, b + 1, n - 1);
    }
  }

  /** The common length in the window, cut to the lookahead, is that in the input. */
  lemma EqualInWindow(s: State, a: nat)
    requires s.Core() && s.dataEnd == s.strstart + s.lookahead && s.base <= a < s.base + s.strstart
    ensures s.base + s.strstart <= |s.input|
    ensures Equal(s.input, a, s.base + s.strstart) == Least(Common(s.window[..], a - s.base, s.strstart, MAX_MATCH), s.lookahead)
  {
    hide Linked, Pow2, Common;
    CommonCut(s.window[..], a - s.base, s.strstart, MAX_MATCH, s.lookahead);
    CommonMoves(s.window[..], s.input, s.base, a - s.base, s.strstart, Least(MAX_MATCH, s.lookahead));
  }

  /** The positions on a chain, no nearer than `cur`. */
  lemma {:induction false} ChainInCrowd(s: State, cur: nat, n: nat, crowd: set<nat>)
    requires s.Core() && Candidate(s, cur) && s.frontier <= s.base + s.strstart + 1 && s.prev.Length > 0
    requires forall a :: a in Crowd(s.config, s.input, s.base, s.base + s.strstart) && a <= s.base + cur ==> a in crowd
    ensures |Chain(s.prev[..], cur, Limit(s), n)| <= |crowd|
    decreases n
  {
    hide HashAt, State.Core, Crowd;
    CoreShaped(s);
    WindowSizes(s.config);
    CandidateInCrowd(s, cur);
    if n > 0 {
      var next := s.prev[cur % s.config.WSize()];
      var rest := crowd - {s.base + cur};
      assert |rest| == |crowd| - 1;
      if next > Limit(s) {
        NextCandidate(s, cur, Limit(s));
        hide Candidate;
        ChainInCrowd(s, next, n - 1, rest);
      }
    }
  }

  lemma CandidateInCrowd(s: State, cur: nat)
    requires s.Core() && Candidate(s, cur)
    ensures s.base + cur in Crowd(s.config, s.input, s.base, s.base + s.strstart)
  {
    hide Linked, Pow2, HashAt;
  }

  /** Each is less than the one before it, and none more than `top`. */
  ghost predicate Descending(c: seq<nat>, top: nat) {
    (forall i :: 0 <= i < |c| ==> c[i] <= top) && forall i, j :: 0 <= i < j < |c| ==> c[i] > c[j]
  }

  lemma DescendingFrom(x: nat, rest: seq<nat>, y: nat)
    requires Descending(rest, y) && y < x
    ensures Descending([x] + rest, x)
  {
  }

  /** Chains lead down. */
  lemma {:induction false} ChainDown(s: State, cur: nat, limit: nat, n: nat)
    requires s.Core() && Candidate(s, cur) && s.frontier <= s.base + s.strstart + 1
    requires s.strstart - limit <= s.config.MaxDist() && s.prev.Length > 0
    ensures Descending(Chain(s.prev[..], cur, limit, n), cur)
    decreases n
  {
    hide HashAt, State.Core, Candidate, Config.WSize, Config.MaxDist;
    CoreShaped(s);
    if n > 0 {
      var next := s.prev[cur % s.prev.Length];
      if next > limit {
        NextCandidate(s, cur, limit);
        ChainDown(s, next, limit, n - 1);
        hide Descending;
        DescendingFrom(cur, Chain(s.prev[..], next, limit, n - 1), next);
      }
    }
  }

  /** Before the one that is picked there was none as long, nor any that was long enough. */
  lemma {:induction false} PickIsFirst(window: seq<Byte>, scan: nat, candidates: seq<nat>, nice: nat, best: Best)
    ensures
      var r := Pick(window, scan, candidates, nice, best);
      r.length > best.length ==>
        exists i :: 0 <= i < |candidates| && candidates[i] == r.start &&
          forall j :: 0 <= j < i ==>
            var k := Common(window, candidates[j], scan, MAX_MATCH);
            k < r.length && (k <= best.length || k < nice)
    decreases |candidates|
  {
    hide Common;
    if candidates != [] {
      var (c, rest) := (candidates[0], candidates[1..]);
      var len := Common(window, c, scan, MAX_MATCH);
      var r := Pick(window, scan, candidates, nice, best);
      if r.length > best.length {
        if len > best.length && (len >= nice || r == Best(len, c)) {
          assert candidates[0] == r.start;
        } else {
          var best' := if len > best.length then Best(len, c) else best;
          PickIsFirst(window, scan, rest, nice, best');
          PickIsLongest(window, scan, rest, nice, best');
          var i :| 0 <= i < |rest| && rest[i] == r.start &&
            forall j :: 0 <= j < i ==>
              var k := Common(window, rest[j], scan, MAX_MATCH);
              k < r.length && (k <= best'.length || k < nice);
          assert candidates[i + 1] == r.start;
          forall j | 0 <= j < i + 1
            ensures
              var k := Common(window, candidates[j], scan, MAX_MATCH);
              k < r.length && (k <= best.length || k < nice)
          {
            if j > 0 {
              assert candidates[j] == rest[j - 1];
            }
          }
        }
      }
    }
  }

  /** With a chain short enough to be followed to its end, every string that could matter is on it. */
  lemma OnChain(s: State, curMatch: Pos, n: nat, a: nat)
    requires s.Core() && Candidate(s, curMatch) && s.frontier <= s.base + s.strstart + 1 && s.prev.Length > 0
    requires NoneBetween(s.config.HashBits(), s.input, s.base, s.inserted, curMatch, s.base + s.strstart)
    requires |Chain(s.prev[..], curMatch, Limit(s), n)| < n
    requires a in s.inserted && s.base + Limit(s) < a < s.base + s.strstart
    requires Common(s.window[..], a - s.base, s.strstart, MAX_MATCH) >= 3
    ensures a - s.base in Chain(s.prev[..], curMatch, Limit(s), n)
  {
    hide Common, HashAt, State.Core, Chain, Limit, NoneBetween;
    CoreShaped(s);
    CommonHash(s, a);
    EnteredInput(s);
    NotPast(s, curMatch, a);
    ChainComplete(s, curMatch, Limit(s), n, a);
  }

  /** What the search found against any string on the chain. */
  lemma Outdone(s: State, curMatch: Pos, n: nat, nice: nat, c: nat)
    requires s.Core() && Candidate(s, curMatch) && s.frontier <= s.base + s.strstart + 1 && s.prev.Length > 0
    requires c in Chain(s.prev[..], curMatch, Limit(s), n)
    ensures
      var best := Search(s, curMatch, n, nice);
      var k := Common(s.window[..], c, s.strstart, MAX_MATCH);
      && (best.length < nice || best.length == s.prevLength ==> k <= best.length)
      && (best.length > s.prevLength && c > best.start ==> k < best.length && (k <= s.prevLength || k < nice))
  {
    hide Common, Candidate, State.Core, Chain, Pick, Limit;
    CoreShaped(s);
    var chain := Chain(s.prev[..], curMatch, Limit(s), n);
    var best := Search(s, curMatch, n, nice);
    var start := Best(s.prevLength, s.matchStart);
    PickIsLongest(s.window[..], s.strstart, chain, nice, start);
    PickIsFirst(s.window[..], s.strstart, chain, nice, start);
    ChainDown(s, curMatch, Limit(s), n);
    if best.length > s.prevLength && c > best.start {
      var i :| 0 <= i < |chain| && chain[i] == best.start &&
        forall j :: 0 <= j < i ==>
          var k := Common(s.window[..], chain[j], s.strstart, MAX_MATCH);
          k < best.length && (k <= s.prevLength || k < nice);
      var j :| 0 <= j < |chain| && chain[j] == c;
      assert j < i;
    }
  }

  /**
    The last step, in numbers: `k` bytes from distance `d` against the best length, `best` from
    distance `e`, both cut to the lookahead, when the search stops at `nice` bytes.
   */
  lemma NotBetter(c: Config, k: nat, d: int, held: nat, best: nat, e: int, ahead: nat, nice: nat, found: nat)
    requires held >= 2 && best >= held && ahead >= 3 && c.NiceMatch() > 5
    requires nice == if c.NiceMatch() > ahead then ahead else c.NiceMatch()
    requires k >= 3 ==> best < nice || best == held ==> k <= best
    requires k >= 3 && best > held && d < e ==> k < best && (k <= held || k < nice)
    requires best > held ==> found == if Poor(c, Least(best, ahead), e) then 2 else Least(best, ahead)
    ensures
      var cut := Least(k, ahead);
      var length := if found > held then found else held;
      found >= c.NiceMatch() || !(cut >= 3 && cut > length && !Poor(c, cut, d))
  {
  }
}
