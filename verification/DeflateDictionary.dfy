/**
  The hash chains of lib/zlib/deflate.c as values: `head` maps a hash to the window position
  inserted last under it, `prev` maps a position, modulo the window size, to the one before it
  on its chain, and 0 ends a chain.

  Positions here are absolute: window position i is stream position base + i.  `inserted` are
  the stream positions entered so far, all below `frontier`.  A slot of `prev` belongs to the
  youngest position that maps to it, so only positions less than a window behind the frontier
  still own theirs.
 */
module DeflateDictionary {
  import opened Words
  import opened Remainders
  import opened DeflateHash

  /** A window position, stored in 16 bits. */
  type Pos = p: nat | p < 0x1_0000

  ghost function HashAt(bits: nat, input: seq<Byte>, a: nat): (h: nat)
    requires a + 3 <= |input|
    ensures h < Pow2(bits)
  {
    Hash3(bits, input[a], input[a + 1], input[a + 2])
  }

  /** The strings entered while the input grew from `n` to `n'` bytes: earlier ones that it only now completes. */
  ghost predicate Gains(inserted: set<nat>, n: nat, inserted': set<nat>, n': nat, before: int) {
    inserted <= inserted' && forall a: nat :: a in inserted' && a !in inserted ==> n < a + 3 <= n' && a < before
  }

  /** Position `a` was inserted, under hash `h`. */
  ghost predicate Entered(bits: nat, input: seq<Byte>, inserted: set<nat>, a: nat, h: nat) {
    a in inserted && a + 3 <= |input| && HashAt(bits, input, a) == h
  }

  /** No entered position after base + q and before `b` has the hash of `b`; with q = 0, none in the window has. */
  ghost predicate NoneBetween(bits: nat, input: seq<Byte>, base: nat, inserted: set<nat>, q: nat, b: nat)
    requires b + 3 <= |input|
  {
    forall a :: a in inserted && base < a < b && a + 3 <= |input| && HashAt(bits, input, a) == HashAt(bits, input, b) ==>
      a <= base + q
  }

  /** The head of its chain is at `a` or after it. */
  ghost predicate Reached(bits: nat, input: seq<Byte>, base: nat, head: seq<Pos>, a: nat) {
    a + 3 <= |input| && HashAt(bits, input, a) < |head| && a <= base + head[HashAt(bits, input, a)]
  }

  /**
    Every chain is true and complete: a link leads to an earlier position with the same hash
    or ends the chain, and it skips no position with that hash.
   */
  ghost predicate Linked(bits: nat, wSize: nat, input: seq<Byte>, base: nat, head: seq<Pos>, prev: seq<Pos>,
                         inserted: set<nat>, frontier: nat)
  {
    && wSize > 0 && |head| == Pow2(bits) && |prev| == wSize
    && (frontier == 0 || frontier + 2 <= |input|)
    && (forall a :: a in inserted ==> a < frontier)
    && (forall h :: 0 <= h < |head| && head[h] != 0 ==> Entered(bits, input, inserted, base + head[h], h))
    && (forall a :: a in inserted && base < a ==> Reached(bits, input, base, head, a))
    && (forall a :: a in inserted && base <= a && frontier <= a + wSize ==> LinkOk(bits, wSize, input, base, prev, inserted, a))
  }

  ghost predicate LinkOk(bits: nat, wSize: nat, input: seq<Byte>, base: nat, prev: seq<Pos>, inserted: set<nat>, a: nat)
    requires wSize > 0 && |prev| == wSize && base <= a
  {
    var q := prev[(a - base) % wSize];
    && a + 3 <= |input| && NoneBetween(bits, input, base, inserted, q, a)
    && (q != 0 ==> q < a - base && Entered(bits, input, inserted, base + q, HashAt(bits, input, a)))
  }

  /** The head of a chain is an earlier position with that hash. */
  lemma LinkedHead(bits: nat, wSize: nat, input: seq<Byte>, base: nat, head: seq<Pos>, prev: seq<Pos>,
                   inserted: set<nat>, frontier: nat, h: nat)
    requires Linked(bits, wSize, input, base, head, prev, inserted, frontier) && h < |head| && head[h] != 0
    ensures Entered(bits, input, inserted, base + head[h], h) && base + head[h] < frontier
  {
  }

  /** The link of a position that still owns its slot. */
  lemma LinkedLink(bits: nat, wSize: nat, input: seq<Byte>, base: nat, head: seq<Pos>, prev: seq<Pos>,
                   inserted: set<nat>, frontier: nat, a: nat)
    requires Linked(bits, wSize, input, base, head, prev, inserted, frontier)
    requires a in inserted && base <= a && frontier <= a + wSize
    ensures LinkOk(bits, wSize, input, base, prev, inserted, a)
  {
    hide LinkOk, Reached, Entered, Pow2;
  }

  /** A link stays good when a later position is entered. */
  lemma LinkKept(bits: nat, wSize: nat, input: seq<Byte>, base: nat, prev: seq<Pos>, prev': seq<Pos>,
                 inserted: set<nat>, a: nat, b: nat)
    requires 0 < wSize == |prev| == |prev'| && base <= b < a && LinkOk(bits, wSize, input, base, prev, inserted, b)
    requires prev'[(b - base) % wSize] == prev[(b - base) % wSize]
    ensures LinkOk(bits, wSize, input, base, prev', inserted + {a}, b)
  {
    hide HashAt;
  }

  /** The new link leads from `a` to the former head of its chain. */
  lemma LinkNew(bits: nat, wSize: nat, input: seq<Byte>, base: nat, head: seq<Pos>, prev: seq<Pos>, prev': seq<Pos>,
                inserted: set<nat>, frontier: nat, a: nat)
    requires Linked(bits, wSize, input, base, head, prev, inserted, frontier)
    requires base <= a && frontier <= a && a + 3 <= |input| && |prev'| == wSize
    requires HashAt(bits, input, a) < |head| && prev'[(a - base) % wSize] == head[HashAt(bits, input, a)]
    ensures LinkOk(bits, wSize, input, base, prev', inserted + {a}, a)
  {
    hide HashAt, Pow2;
    var h := HashAt(bits, input, a);
    assert head[h] != 0 ==> Entered(bits, input, inserted, base + head[h], h);
    forall c | c in inserted + {a} && base < c < a && c + 3 <= |input| && HashAt(bits, input, c) == h
      ensures c <= base + head[h]
    {
      assert Reached(bits, input, base, head, c);
    }
  }

  lemma ReachedKept(bits: nat, input: seq<Byte>, base: nat, head: seq<Pos>, h: nat, str: Pos, b: nat)
    requires h < |head| && Reached(bits, input, base, head, b) && b <= base + str
    ensures Reached(bits, input, base, head[h := str], b)
  {
    hide HashAt;
  }

  lemma HeadsAfterInsert(bits: nat, wSize: nat, input: seq<Byte>, base: nat, head: seq<Pos>, head': seq<Pos>, prev: seq<Pos>,
                         inserted: set<nat>, inserted': set<nat>, frontier: nat, str: Pos, h: nat)
    requires Linked(bits, wSize, input, base, head, prev, inserted, frontier)
    requires frontier <= base + str && base + str + 3 <= |input| && h == HashAt(bits, input, base + str)
    requires h < |head| && head' == head[h := str] && inserted' == inserted + {base + str}
    ensures forall g :: 0 <= g < |head'| && head'[g] != 0 ==> Entered(bits, input, inserted', base + head'[g], g)
  {
    hide HashAt, Pow2, LinkOk, Reached;
    forall g | 0 <= g < |head'| && head'[g] != 0
      ensures Entered(bits, input, inserted', base + head'[g], g)
    {
      if g != h {
        assert Entered(bits, input, inserted, base + head[g], g);
      }
    }
  }

  lemma ReachedSelf(bits: nat, input: seq<Byte>, base: nat, head: seq<Pos>, h: nat, str: Pos)
    requires base + str + 3 <= |input| && h == HashAt(bits, input, base + str) && h < |head|
    ensures Reached(bits, input, base, head[h := str], base + str)
  {
    hide HashAt;
  }

  lemma ReachAfterInsert(bits: nat, wSize: nat, input: seq<Byte>, base: nat, head: seq<Pos>, head': seq<Pos>, prev: seq<Pos>,
                         inserted: set<nat>, inserted': set<nat>, frontier: nat, str: Pos, h: nat)
    requires Linked(bits, wSize, input, base, head, prev, inserted, frontier)
    requires frontier <= base + str && base + str + 3 <= |input| && h == HashAt(bits, input, base + str)
    requires h < |head| && head' == head[h := str] && inserted' == inserted + {base + str}
    ensures forall b :: b in inserted' && base < b ==> Reached(bits, input, base, head', b)
  {
    hide HashAt, Pow2, LinkOk, Reached, Entered;
    forall b | b in inserted' && base < b
      ensures Reached(bits, input, base, head', b)
    {
      if b in inserted {
        assert Reached(bits, input, base, head, b);
        ReachedKept(bits, input, base, head, h, str, b);
      } else {
        ReachedSelf(bits, input, base, head, h, str);
      }
    }
  }

  lemma LinksAfterInsert(bits: nat, wSize: nat, input: seq<Byte>, base: nat, head: seq<Pos>, prev: seq<Pos>,
                         inserted: set<nat>, frontier: nat, str: Pos, h: nat, b: nat)
    requires Linked(bits, wSize, input, base, head, prev, inserted, frontier)
    requires frontier <= base + str && base + str + 3 <= |input| && h == HashAt(bits, input, base + str)
    requires b in inserted + {base + str} && base <= b && base + str + 1 <= b + wSize
    ensures LinkOk(bits, wSize, input, base, prev[str % wSize := head[h]], inserted + {base + str}, b)
  {
    hide HashAt, Pow2, LinkOk, Reached, Entered;
    var a := base + str;
    var prev' := prev[str % wSize := head[h]];
    assert (a - base) % wSize == str % wSize;
    if b in inserted {
      assert LinkOk(bits, wSize, input, base, prev, inserted, b) && b < a;
      SlotsDiffer(wSize, b - base, str);
      LinkKept(bits, wSize, input, base, prev, prev', inserted, a, b);
    } else {
      LinkNew(bits, wSize, input, base, head, prev, prev', inserted, frontier, a);
    }
  }

  /** `INSERT_STRING`. */
  lemma LinkedInsert(bits: nat, wSize: nat, input: seq<Byte>, base: nat, head: seq<Pos>, prev: seq<Pos>,
                     inserted: set<nat>, frontier: nat, str: Pos)
    requires Linked(bits, wSize, input, base, head, prev, inserted, frontier)
    requires frontier <= base + str && base + str + 3 <= |input|
    ensures
      var a := base + str;
      var h := HashAt(bits, input, a);
      Linked(bits, wSize, input, base, head[h := str], prev[str % wSize := head[h]], inserted + {a}, a + 1)
  {
    hide HashAt, Pow2, LinkOk, Reached, Entered;
    var a := base + str;
    var h := HashAt(bits, input, a);
    HeadsAfterInsert(bits, wSize, input, base, head, head[h := str], prev, inserted, inserted + {a}, frontier, str, h);
    ReachAfterInsert(bits, wSize, input, base, head, head[h := str], prev, inserted, inserted + {a}, frontier, str, h);
    var (prev', inserted') := (prev[str % wSize := head[h]], inserted + {a});
    forall b | b in inserted' && base <= b && a + 1 <= b + wSize
      ensures LinkOk(bits, wSize, input, base, prev', inserted', b)
    {
      LinksAfterInsert(bits, wSize, input, base, head, prev, inserted, frontier, str, h, b);
    }
  }

  lemma LinkMore(bits: nat, wSize: nat, input: seq<Byte>, more: seq<Byte>, base: nat, prev: seq<Pos>,
                 inserted: set<nat>, a: nat)
    requires 0 < wSize == |prev| && base <= a && LinkOk(bits, wSize, input, base, prev, inserted, a)
    requires forall c :: c in inserted ==> c + 3 <= |input|
    ensures LinkOk(bits, wSize, input + more, base, prev, inserted, a)
  {
    hide Hash3;
  }

  lemma ReachedMore(bits: nat, input: seq<Byte>, more: seq<Byte>, base: nat, head: seq<Pos>, a: nat)
    requires Reached(bits, input, base, head, a)
    ensures Reached(bits, input + more, base, head, a)
  {
    hide Hash3;
  }

  /** Reading more input changes nothing on the chains. */
  lemma LinkedMore(bits: nat, wSize: nat, input: seq<Byte>, more: seq<Byte>, base: nat, head: seq<Pos>, prev: seq<Pos>,
                   inserted: set<nat>, frontier: nat)
    requires Linked(bits, wSize, input, base, head, prev, inserted, frontier)
    ensures Linked(bits, wSize, input + more, base, head, prev, inserted, frontier)
  {
    hide LinkOk, Reached, Hash3, Pow2;
    forall a | a in inserted && base <= a && frontier <= a + wSize
      ensures LinkOk(bits, wSize, input + more, base, prev, inserted, a)
    {
      assert LinkOk(bits, wSize, input, base, prev, inserted, a);
      LinkMore(bits, wSize, input, more, base, prev, inserted, a);
    }
    forall a | a in inserted && base < a
      ensures Reached(bits, input + more, base, head, a)
    {
      assert Reached(bits, input, base, head, a);
      ReachedMore(bits, input, more, base, head, a);
    }
  }

  /** What a slide of the window by `wSize` does to a stored position. */
  function Slid(wSize: nat, p: Pos): Pos {
    if p >= wSize then p - wSize else 0
  }

  lemma LinkSlid(bits: nat, wSize: nat, input: seq<Byte>, base: nat, prev: seq<Pos>, prev': seq<Pos>,
                 inserted: set<nat>, a: nat)
    requires 0 < wSize == |prev| == |prev'| && base + wSize <= a && LinkOk(bits, wSize, input, base, prev, inserted, a)
    requires prev'[(a - base) % wSize] == Slid(wSize, prev[(a - base) % wSize])
    ensures LinkOk(bits, wSize, input, base + wSize, prev', inserted, a)
  {
    hide HashAt;
    SameSlot(wSize, a - base);
  }

  lemma ReachedSlid(bits: nat, wSize: nat, input: seq<Byte>, base: nat, head: seq<Pos>, head': seq<Pos>, a: nat)
    requires base + wSize < a && Reached(bits, input, base, head, a)
    requires |head'| == |head| && forall i :: 0 <= i < |head| ==> head'[i] == Slid(wSize, head[i])
    ensures Reached(bits, input, base + wSize, head', a)
  {
    hide HashAt;
  }

  /** Rebasing every entry keeps each at its stream position or ends its chain there. */
  lemma LinkedSlide(bits: nat, wSize: nat, input: seq<Byte>, base: nat, head: seq<Pos>, prev: seq<Pos>,
                    head': seq<Pos>, prev': seq<Pos>, inserted: set<nat>, frontier: nat)
    requires Linked(bits, wSize, input, base, head, prev, inserted, frontier)
    requires |head'| == |head| && forall i :: 0 <= i < |head| ==> head'[i] == Slid(wSize, head[i])
    requires |prev'| == |prev| && forall i :: 0 <= i < |prev| ==> prev'[i] == Slid(wSize, prev[i])
    ensures Linked(bits, wSize, input, base + wSize, head', prev', inserted, frontier)
  {
    hide HashAt, Pow2, LinkOk, Reached;
    forall h | 0 <= h < |head'| && head'[h] != 0
      ensures Entered(bits, input, inserted, base + wSize + head'[h], h)
    {
      assert Entered(bits, input, inserted, base + head[h], h);
    }
    forall a | a in inserted && base + wSize <= a && frontier <= a + wSize
      ensures LinkOk(bits, wSize, input, base + wSize, prev', inserted, a)
    {
      assert LinkOk(bits, wSize, input, base, prev, inserted, a);
      LinkSlid(bits, wSize, input, base, prev, prev', inserted, a);
    }
    forall a | a in inserted && base + wSize < a
      ensures Reached(bits, input, base + wSize, head', a)
    {
      assert Reached(bits, input, base, head, a);
      ReachedSlid(bits, wSize, input, base, head, head', a);
    }
  }

  /** `CLEAR_HASH` forgets every position, so the window may then be renumbered at will. */
  lemma LinkedClear(bits: nat, wSize: nat, input: seq<Byte>, base: nat, head: seq<Pos>, prev: seq<Pos>)
    requires wSize > 0 && |head| == Pow2(bits) && |prev| == wSize
    requires forall h :: 0 <= h < |head| ==> head[h] == 0
    ensures Linked(bits, wSize, input, base, head, prev, {}, 0)
  {
  }

  // ---------- Which positions are entered ----------

  ghost function Span(lo: nat, hi: nat): (r: set<nat>)
    ensures forall a: nat :: a in r <==> lo <= a < hi
    decreases hi
  {
    if lo >= hi then {} else Span(lo, hi - 1) + {hi - 1}
  }

  /** The positions from `origin` to `hi` whose string is completed by the input from `from` to `to`. */
  ghost function Stranded(origin: nat, from: nat, hi: nat, to: nat): set<nat> {
    set a | a in Span(origin, hi) && from < a + 3 <= to
  }

  /**
    Of the positions from `origin` to `n` with three bytes of input, exactly the missed ones are not
    entered.
   */
  ghost predicate Complete(inserted: set<nat>, missed: set<nat>, origin: nat, n: nat, end: nat) {
    && (forall a: nat :: origin <= a < n && a + 3 <= end ==> (a in inserted <==> a !in missed))
    && (forall a: nat :: a in missed ==> a < n && a + 3 <= end)
  }

  /** Entering the next string, if there are enough bytes for one. */
  lemma CompleteNext(inserted: set<nat>, missed: set<nat>, origin: nat, n: nat, end: nat)
    requires Complete(inserted, missed, origin, n, end)
    ensures Complete(if n + 3 <= end then inserted + {n} else inserted, missed, origin, n + 1, end)
  {
  }

  /**
    More input: the strings left over are entered as far as they are complete now; those before
    them that become complete are missed.
   */
  lemma CompleteRead(inserted: set<nat>, missed: set<nat>, origin: nat, n: nat, end: nat, end': nat, left: nat, left': nat)
    requires Complete(inserted, missed, origin, n, end) && n <= end <= end' && left' <= left <= n
    requires forall a: nat :: a in inserted ==> a + 3 <= end
    requires left > 0 ==> end + left < n + 3
    requires left' > 0 ==> end' + left' < n + 3
    ensures Complete(inserted + Span(n - left, n - left'), missed + Stranded(origin, end, n - left, end'), origin, n, end')
  {
  }

  /**
    Nothing is stranded exactly if the positions before the left-over ones have all their bytes,
    or there are none, or the input does not complete any.
   */
  lemma StrandedNone(origin: nat, from: nat, hi: nat, to: nat)
    ensures Stranded(origin, from, hi, to) == {} <==> hi + 2 <= from || hi <= origin || to <= from || to < origin + 3
  {
    if from < hi + 2 && origin < hi && from < to && origin + 3 <= to {
      assert (if from < origin + 3 then origin else from - 2) in Stranded(origin, from, hi, to);
    }
  }

  /** With 128 bytes read, none left over, and three more: the last two strings are missed. */
  lemma StrandedExample()
    ensures Stranded(0, 128, 128, 131) == {126, 127}
  {
    hide Span;
    var r := Stranded(0, 128, 128, 131);
    assert 126 in r && 127 in r;
    assert forall a :: a in r ==> a == 126 || a == 127;
  }
}
