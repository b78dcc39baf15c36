/**
  The tokens that compression outputs: for "abcabcabcabc" with lazy and with greedy matching, and for
  any input with runs or literals only.
 */
module DeflateTokens {
  import opened Words
  import opened DeflateHash
  import opened DeflateDictionary
  import opened DeflateState
  import opened DeflateMatch
  import opened DeflateRule
  import opened DeflateGreedy
  import opened DeflateRle
  import opened DeflateStoring
  import opened DeflateWindow
  import opened DeflateLazy
  import opened DeflateRun
  import opened Lz77

  const TEXT: seq<Byte> := [97, 98, 99, 97, 98, 99, 97, 98, 99, 97, 98, 99]
  const TOKENS: seq<Token> := [Literal(97), Literal(98), Literal(99), Literal(97), Match(8, 3)]

  lemma LazyLimits(c: Config)
    requires c.Valid() && c.level >= 4
    ensures c.WSize() + c.MaxDist() > 12 && c.MaxDist() > 12
    ensures c.GoodMatch() > 2 && c.MaxLazy() > 2 && c.NiceMatch() > 8 && c.MaxChain() > 3
  {
    WindowSizes(c);
  }

  /** No match of three bytes before position 4, and none at all but that with the string at 1 there. */
  lemma OnlyMatch(p: nat, length: nat, distance: nat)
    requires 1 <= p <= 4 && length >= 3 && distance < p && Repeats(TEXT, p, distance, length)
    ensures p == 4 && distance == 3
  {
    assert TEXT[p] == TEXT[p - distance];
  }

  lemma EightEqual()
    ensures Equal(TEXT, 1, 4) == 8
  {
    CommonIs(TEXT, 1, 4, 8, 8);
  }

  /** The crowd is bounded by the positions there are. */
  lemma SmallCrowd(c: Config)
    ensures |Crowd(c, TEXT, 0, 4)| <= 3
  {
    hide HashAt;
    Subset(Crowd(c, TEXT, 0, 4), {1, 2, 3});
  }

  lemma {:induction false} Subset(a: set<nat>, b: set<nat>)
    requires a <= b
    ensures |a| <= |b|
    decreases b
  {
    if b != {} {
      var x :| x in b;
      Subset(a - {x}, b - {x});
      if x !in a {
        assert a - {x} == a;
      }
    }
  }

  // ---------- Lazily, at levels 4 to 9 ----------

  /** Before the input is read, then after each turn. */
  function Stage(k: nat): View {
    if k == 0 then View([], TEXT, 0, 0, 2, 0, false, [], {})
    else if k == 1 then View(TEXT, [], 0, 0, 2, 0, false, [], {})
    else if k <= 5 then View(TEXT, [], 0, k - 1, 2, 0, true, TOKENS[..k - 2], {})
    else if k == 6 then View(TEXT, [], 0, 5, 8, 3, true, TOKENS[..4], {})
    else View(TEXT, [], 0, 12, 2, 0, false, TOKENS, {})
  }

  /** What is found at the next byte. */
  lemma FindsEight(c: Config, p: nat, found: nat, distance: nat)
    requires c.Valid() && c.level >= 4 && p <= 4 && Finds(c, TEXT, 0, {}, p, 2, found, distance)
    ensures if p == 4 then found == 8 && distance == 3 else found == 2
  {
    hide Repeats, Crowd, Equal;
    LazyLimits(c);
    if found > 2 {
      OnlyMatch(p, found, distance);
    }
    if p == 4 {
      SmallCrowd(c);
      EightEqual();
      assert !Better(c, TEXT, 1, 4, found);
    }
  }

  lemma NextStage(c: Config, k: nat, w: View)
    requires c.Valid() && c.level >= 4 && k <= 7 && Goes(c, Stage(k), w) && w.missed == {}
    ensures exists j :: k <= j <= k + 1 && j <= 7 && w == Stage(j)
  {
    hide Finds;
    LazyLimits(c);
    var v := Stage(k);
    if w != v {
      if Fills(c, v, w) {
        assert |w.input + w.rest| == 12;
        assert w.rest == [] && w.input == w.input + w.rest;
        assert w == Stage(1);
      } else {
        var found: nat, distance: nat :| Moves(c, v, w, found, distance);
        if k <= 5 {
          FindsEight(c, v.p, found, distance);
          assert w == Stage(k + 1);
        } else {
          NoNine(c, found, distance);
          assert w == Stage(7);
        }
      }
    }
  }

  lemma NoNine(c: Config, found: nat, distance: nat)
    requires Finds(c, TEXT, 0, {}, 5, 8, found, distance)
    ensures found <= 8
  {
  }

  lemma {:induction false} MissedGrows(c: Config, trace: seq<View>, i: nat)
    requires i < |trace| && forall j :: 0 <= j < |trace| - 1 ==> Goes(c, trace[j], trace[j + 1])
    ensures trace[i].missed <= trace[|trace| - 1].missed
    decreases |trace| - i
  {
    if i + 1 < |trace| {
      MissedGrows(c, trace, i + 1);
      MissedNext(c, trace[i], trace[i + 1]);
    }
  }

  lemma MissedNext(c: Config, v: View, w: View)
    requires Goes(c, v, w)
    ensures v.missed <= w.missed
  {
    hide Finds;
  }

  lemma {:induction false} Stages(c: Config, trace: seq<View>, i: nat)
    requires c.Valid() && c.level >= 4 && i < |trace| && trace[0] == Stage(0) && trace[|trace| - 1].missed == {}
    requires forall j :: 0 <= j < |trace| - 1 ==> Goes(c, trace[j], trace[j + 1])
    ensures exists k :: 0 <= k <= 7 && trace[i] == Stage(k)
  {
    hide Goes;
    if i > 0 {
      Stages(c, trace, i - 1);
      var k :| 0 <= k <= 7 && trace[i - 1] == Stage(k);
      assert Goes(c, trace[i - 1], trace[i - 1 + 1]);
      MissedGrows(c, trace, i);
      NextStage(c, k, trace[i]);
    } else {
      assert trace[0] == Stage(0);
    }
  }

  /** At levels 4 to 9 the output is a, b, c, a and then a match of eight bytes from three bytes back. */
  method LazyTokensOf(c: Config) returns (s: State)
    requires c.Valid() && c.level >= 4 && c.strategy != HuffmanOnly && c.strategy != Rle
    ensures SlowReady(s) && s.config == c && s.input == TEXT && s.Tokens() == TOKENS
  {
    hide Ready, SlowReady, Meaning, Pow2, FastTrace, PlainTrace, Trace, State.Valid, State.Faithful, State.Cleared, Expand, Pieces,
         Stranded;
    s := new State(c, _ => false);
    s.nextIn := TEXT;
    StartReady(s);
    assert ViewOf(s) == Stage(0);
    var r, _, views := Deflate(s, Finish);
    assert !s.outputFull && r != NeedMore;
    assert s.input == s.input + s.nextIn == TEXT;
    LastStage(c, views, ViewOf(s));
    ReadyParts(s);
  }

  lemma LastStage(c: Config, trace: seq<View>, end: View)
    requires c.Valid() && c.level >= 4
    requires trace != [] && Trace(c, trace, Stage(0), trace[|trace| - 1]) && Ends(trace[|trace| - 1], end) && end.missed == {}
    ensures end.tokens == TOKENS
  {
    hide Goes;
    Stages(c, trace, |trace| - 1);
  }

  // ---------- Greedily, at levels 1 to 3 ----------

  /** Before the input is read, then after each turn; the strings inside the match are not entered. */
  function FastStage(k: nat): Place {
    if k == 0 then Place([], TEXT, 0, 0, [], {})
    else if k == 1 then Place(TEXT, [], 0, 0, [], {})
    else if k == 2 then Place(TEXT, [], 0, 1, TOKENS[..1], {0})
    else if k == 3 then Place(TEXT, [], 0, 2, TOKENS[..2], {0, 1})
    else if k == 4 then Place(TEXT, [], 0, 3, TOKENS[..3], {0, 1, 2})
    else if k == 5 then Place(TEXT, [], 0, 4, TOKENS[..4], {0, 1, 2, 3})
    else Place(TEXT, [], 0, 12, TOKENS, {0, 1, 2, 3, 4})
  }

  lemma FastLimits(c: Config)
    requires c.Valid() && 1 <= c.level <= 3
    ensures c.WSize() + c.MaxDist() > 12 && c.MaxDist() > 12
    ensures c.GoodMatch() > 2 && c.MaxLazy() < 8 && c.NiceMatch() >= 8 && c.MaxChain() > 3
  {
    WindowSizes(c);
  }

  /** What is found at the next byte. */
  lemma FindsEightFirst(c: Config, p: nat, inserted: set<nat>, found: nat, distance: nat)
    requires c.Valid() && 1 <= c.level <= 3 && p <= 4 && FindsFirst(c, TEXT, 0, inserted, p, found, distance)
    requires p == 4 ==> 1 in inserted
    ensures if p == 4 then found == 8 && distance == 3 else found < 3
  {
    hide Repeats, Crowd, Equal;
    FastLimits(c);
    if found >= 3 {
      OnlyMatch(p, found, distance);
    }
    if p == 4 {
      SmallCrowd(c);
      EightEqual();
      assert Few(c, TEXT, 0, 4, 2);
    }
  }

  lemma FastNextStage(c: Config, k: nat, w: Place)
    requires c.Valid() && 1 <= c.level <= 3 && k <= 6 && FastGoes(c, FastStage(k), w)
    ensures exists j :: k <= j <= k + 1 && j <= 6 && w == FastStage(j)
  {
    hide FindsFirst;
    FastLimits(c);
    var v := FastStage(k);
    if w != v {
      if Feeds(c, v, w) {
        assert |w.input + w.rest| == 12;
        assert w.rest == [] && w.input == w.input + w.rest;
        assert w.inserted == v.inserted;
        assert w == FastStage(1);
      } else {
        var found: nat, distance: nat :| FastMoves(c, v, w, found, distance);
        FindsEightFirst(c, v.p, v.inserted, found, distance);
        assert w.inserted == FastStage(k + 1).inserted;
        assert w == FastStage(k + 1);
      }
    }
  }

  lemma {:induction false} FastStages(c: Config, trace: seq<Place>, i: nat)
    requires c.Valid() && 1 <= c.level <= 3 && i < |trace| && trace[0] == FastStage(0)
    requires forall j :: 0 <= j < |trace| - 1 ==> FastGoes(c, trace[j], trace[j + 1])
    ensures exists k :: 0 <= k <= 6 && trace[i] == FastStage(k)
  {
    hide FastGoes;
    if i > 0 {
      FastStages(c, trace, i - 1);
      var k :| 0 <= k <= 6 && trace[i - 1] == FastStage(k);
      assert FastGoes(c, trace[i - 1], trace[i - 1 + 1]);
      FastNextStage(c, k, trace[i]);
    } else {
      assert trace[0] == FastStage(0);
    }
  }

  lemma FastLastStage(c: Config, trace: seq<Place>, end: Place)
    requires c.Valid() && 1 <= c.level <= 3
    requires FastTrace(c, trace, FastStage(0), end) && end.rest == [] && end.p == |end.input|
    ensures end == FastStage(6)
  {
    hide FastGoes;
    FastStages(c, trace, |trace| - 1);
  }

  /** At levels 1 to 3 it is the same, and the strings up to the match only are entered. */
  method FastTokensOf(c: Config) returns (s: State)
    requires c.Valid() && 1 <= c.level <= 3 && c.strategy != HuffmanOnly && c.strategy != Rle
    ensures FastReady(s) && s.config == c && s.input == TEXT && s.Tokens() == TOKENS && s.inserted == {0, 1, 2, 3, 4}
  {
    hide Ready, FastReady, Meaning, Pow2, FastTrace, PlainTrace, Trace, State.Valid, State.Faithful, State.Cleared, Expand, Pieces;
    s := new State(c, _ => false);
    s.nextIn := TEXT;
    StartReady(s);
    assert PlaceOf(s) == FastStage(0);
    var r, places, _ := Deflate(s, Finish);
    assert !s.outputFull && r != NeedMore;
    assert s.input == s.input + s.nextIn == TEXT;
    FastLastStage(c, places, PlaceOf(s));
    ReadyParts(s);
  }

  lemma ReadyParts(s: State)
    requires Ready(s)
    ensures EngineOf(s.config) == FastEngine ==> FastReady(s)
    ensures EngineOf(s.config) == SlowEngine ==> SlowReady(s)
    ensures EngineOf(s.config) == RleEngine || EngineOf(s.config) == HuffEngine ==> PlainReady(s)
  {
    hide FastReady, SlowReady, PlainReady;
  }

  // ---------- Runs and literals ----------

  /**
    A whole input at once, with runs only or literals only: the output is exactly the tokens that
    the input determines.
   */
  method PlainTokensOf(c: Config, input: seq<Byte>) returns (s: State)
    requires c.Valid() && (c.strategy == Rle || c.strategy == HuffmanOnly)
    ensures PlainReady(s) && s.config == c && s.input == input
    ensures s.Tokens() == PlainTokens(c.strategy == HuffmanOnly, input, 0)
  {
    hide Ready, PlainReady, Meaning, Pow2, FastTrace, PlainTrace, Trace, State.Valid, State.Faithful, State.Cleared, Expand, Pieces,
         PlainTokens;
    s := new State(c, _ => false);
    s.nextIn := input;
    StartReady(s);
    assert PlaceOf(s) == Place([], input, 0, 0, [], {});
    var r, places, _ := Deflate(s, Finish);
    assert !s.outputFull && r != NeedMore;
    assert s.input == s.input + s.nextIn == input;
    LastCourse(c, c.strategy == HuffmanOnly, places, input, PlaceOf(s));
    ReadyParts(s);
  }

  lemma LastCourse(c: Config, huffman: bool, trace: seq<Place>, input: seq<Byte>, end: Place)
    requires PlainTrace(c, huffman, trace, Place([], input, 0, 0, [], {}), end)
    requires end.p == |end.input| && end.rest == []
    ensures end.tokens == PlainTokens(huffman, input, 0)
  {
    hide PlainGoes;
    assert [] + input == input;
    assert OnCourse(huffman, input, trace[0]);
    CourseKept(c, huffman, trace, |trace| - 1);
    assert end.input + end.rest == end.input;
  }

  /** A run is a literal and a match at distance 1. */
  lemma RunExample()
    ensures PlainTokens(false, [7, 7, 7, 7, 7, 9], 0) == [Literal(7), Match(4, 1), Literal(9)]
  {
    var run := [7, 7, 7, 7, 7, 9];
    CommonIs(run, 0, 1, 5, 4);
    CommonIs(run, 4, 5, 1, 0);
    assert PlainTokens(false, run, 6) == [];
    assert PlainTokens(false, run, 5) == [Literal(9)];
    assert PlainTokens(false, run, 1) == [Match(4, 1)] + PlainTokens(false, run, 5);
  }
}
