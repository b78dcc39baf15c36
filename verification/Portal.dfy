/**
  The upload queues of src/CPortal.cpp: records are put into a log queue as they arrive and
  drained to the server with front, send, and dequeue only after a successful send.

  A run is any sequence of insertions, drains and restarts.  Which writes fail, how each send
  ends, and after how many sends and dequeues a drain is cut off by a crash is arbitrary, and
  given beforehand, so that a run has one outcome.  The protocol is first a function on records;
  the class at the end runs it on the files.
 */
module Portal {
  import opened Options
  import opened Words
  import opened LogFile
  import opened LogQueue

  /** How a send ends: confirmed, arrived without the answer coming back, or lost. */
  datatype Sending = Confirmed | AnswerLost | Lost

  /** What the program has no influence on; `link(k)` is the fate of the k-th send. */
  datatype World = World(datFails: nat -> bool, idxFails: nat -> bool, ptrFails: nat -> bool, link: nat -> Sending)

  // ---------- The protocol on records ----------

  /**
    What has happened so far: the records accepted into the queue and how many of them have been
    dequeued; the size of the data file and the writes and sends attempted; the numbers of the
    records that reached the server, in order of arrival, with their bytes, and of those
    confirmed; and of the records whose confirmed send was not followed by a successful dequeue.
   */
  datatype Ledger = Ledger(accepted: seq<seq<Byte>>, done: nat, datSize: nat, datWrites: nat, idxWrites: nat,
                           ptrWrites: nat, sends: nat, delivered: seq<nat>, received: seq<seq<Byte>>,
                           acknowledged: seq<nat>, losts: seq<nat>)

  datatype Outcome = Emptied | SendFailed | Crashed

  datatype Event = Insertion(data: seq<Byte>) | Draining(steps: nat) | Restarting

  const START := Ledger([], 0, 0, 0, 0, 0, 0, [], [], [], [])

  function AfterInsert(w: World, l: Ledger, data: seq<Byte>): (r: Ledger)
    ensures r.done == l.done && l.accepted <= r.accepted
  {
    if w.datFails(l.datWrites) then l.(datWrites := l.datWrites + 1)
    else
      var m := l.(datWrites := l.datWrites + 1, datSize := l.datSize + |data|, idxWrites := l.idxWrites + 1);
      if w.idxFails(l.idxWrites) then m else m.(accepted := l.accepted + [data])
  }

  function AfterSend(w: World, l: Ledger): (r: Ledger)
    requires l.done < |l.accepted|
    ensures r.done == l.done && r.accepted == l.accepted
  {
    var m := if w.link(l.sends) == Lost then l
             else l.(delivered := l.delivered + [l.done], received := l.received + [l.accepted[l.done]]);
    if w.link(l.sends) == Confirmed
    then m.(sends := l.sends + 1, acknowledged := l.acknowledged + [l.done])
    else m.(sends := l.sends + 1)
  }

  /** The record at the head was confirmed, and stays there. */
  function Lose(l: Ledger): Ledger {
    l.(losts := l.losts + [l.done])
  }

  function AfterDequeue(w: World, l: Ledger): Ledger {
    if w.ptrFails(l.ptrWrites) then Lose(l.(ptrWrites := l.ptrWrites + 1))
    else l.(ptrWrites := l.ptrWrites + 1, done := l.done + 1)
  }

  /** A drain that crashes after `steps` sends and dequeues, if it gets that far. */
  function AfterDrain(w: World, l: Ledger, steps: nat): (r: (Ledger, Outcome))
    requires l.done <= |l.accepted|
    ensures r.0.accepted == l.accepted && l.done <= r.0.done <= |l.accepted|
    decreases steps
  {
    if l.done == |l.accepted| then (l, Emptied)
    else if steps == 0 then (l, Crashed)
    else
      var m := AfterSend(w, l);
      if w.link(l.sends) != Confirmed then (m, SendFailed)
      else if steps == 1 then (Lose(m), Crashed)
      else AfterDrain(w, AfterDequeue(w, m), steps - 2)
  }

  function AfterEvent(w: World, l: Ledger, e: Event): (r: Ledger)
    requires l.done <= |l.accepted|
    ensures r.done <= |r.accepted|
  {
    match e
    case Insertion(data) => AfterInsert(w, l, data)
    case Draining(steps) => AfterDrain(w, l, steps).0
    case Restarting => l
  }

  /** Any run from an empty queue. */
  function AfterEvents(w: World, es: seq<Event>): (l: Ledger)
    ensures l.done <= |l.accepted|
  {
    if es == [] then START else AfterEvent(w, AfterEvents(w, es[..|es| - 1]), es[|es| - 1])
  }

  /** The files stay below 2^32 bytes, where the 32-bit offsets end. */
  predicate Fits(l: Ledger, e: Event) {
    e.Insertion? ==> l.datSize + |e.data| < WORD && RECORD * (|l.accepted| + 1) < WORD
  }

  predicate AllFit(w: World, es: seq<Event>) {
    es == [] || (AllFit(w, es[..|es| - 1]) && Fits(AfterEvents(w, es[..|es| - 1]), es[|es| - 1]))
  }

  // ---------- What is accepted ----------

  /** An insertion is accepted if and only if neither of its writes fails, in any state. */
  lemma InsertAccepts(w: World, l: Ledger, data: seq<Byte>)
    ensures
      var r := AfterInsert(w, l, data);
      && r.accepted == (if !w.datFails(l.datWrites) && !w.idxFails(l.idxWrites) then l.accepted + [data] else l.accepted)
      && r.datWrites == l.datWrites + 1 && r.idxWrites == l.idxWrites + (if w.datFails(l.datWrites) then 0 else 1)
      && r == l.(accepted := r.accepted, datWrites := r.datWrites, idxWrites := r.idxWrites, datSize := r.datSize)
  {
  }

  /** The data of the insertions, in order. */
  function Inserted(es: seq<Event>): seq<seq<Byte>> {
    if es == [] then []
    else Inserted(es[..|es| - 1]) + (if es[|es| - 1].Insertion? then [es[|es| - 1].data] else [])
  }

  /** The data of the insertions that go through, when so many writes were made to the two files before. */
  function GoingThrough(w: World, records: seq<seq<Byte>>, datWrites: nat, idxWrites: nat): seq<seq<Byte>> {
    if records == [] then []
    else if w.datFails(datWrites) then GoingThrough(w, records[1..], datWrites + 1, idxWrites)
    else if w.idxFails(idxWrites) then GoingThrough(w, records[1..], datWrites + 1, idxWrites + 1)
    else [records[0]] + GoingThrough(w, records[1..], datWrites + 1, idxWrites + 1)
  }

  lemma {:induction false} DrainWritesNone(w: World, l: Ledger, steps: nat)
    requires l.done <= |l.accepted|
    ensures
      var r := AfterDrain(w, l, steps).0;
      r.accepted == l.accepted && r.datWrites == l.datWrites && r.idxWrites == l.idxWrites && r.datSize == l.datSize
    decreases steps
  {
    if l.done < |l.accepted| && steps > 1 && w.link(l.sends) == Confirmed {
      DrainWritesNone(w, AfterDequeue(w, AfterSend(w, l)), steps - 2);
    }
  }

  lemma {:induction false} GoingThroughMore(w: World, records: seq<seq<Byte>>, data: seq<Byte>, datWrites: nat, idxWrites: nat, i: nat)
    requires i == idxWrites + Indexed(w, |records|, datWrites)
    ensures
      GoingThrough(w, records + [data], datWrites, idxWrites)
      == GoingThrough(w, records, datWrites, idxWrites)
         + (if !w.datFails(datWrites + |records|) && !w.idxFails(i) then [data] else [])
    decreases |records|
  {
    if records == [] {
      assert GoingThrough(w, ([data])[1..], datWrites + 1, idxWrites) == [];
      assert GoingThrough(w, ([data])[1..], datWrites + 1, idxWrites + 1) == [];
      assert records + [data] == [data];
    } else {
      assert (records + [data])[1..] == records[1..] + [data];
      var next := if w.datFails(datWrites) then idxWrites else idxWrites + 1;
      GoingThroughMore(w, records[1..], data, datWrites + 1, next, i);
    }
  }

  /** Of `n` writes from number `first` on, how many do not fail: each is followed by a write to the index. */
  function Indexed(w: World, n: nat, first: nat): nat {
    if n == 0 then 0 else (if w.datFails(first) then 0 else 1) + Indexed(w, n - 1, first + 1)
  }

  lemma {:induction false} IndexedMore(w: World, n: nat, first: nat)
    ensures Indexed(w, n + 1, first) == Indexed(w, n, first) + (if w.datFails(first + n) then 0 else 1)
    decreases n
  {
    if n > 0 {
      IndexedMore(w, n - 1, first + 1);
    }
  }

  /**
    Exactly the insertions whose two writes go through are accepted, in order, in every run,
    whatever else happens in it: the k-th insertion makes the k-th write to the data file, and
    those that succeed there the next one to the index.
   */
  lemma {:induction false} AcceptedExactly(w: World, es: seq<Event>)
    ensures
      var l := AfterEvents(w, es);
      && l.accepted == GoingThrough(w, Inserted(es), 0, 0)
      && l.datWrites == |Inserted(es)| && l.idxWrites == Indexed(w, |Inserted(es)|, 0)
  {
    if es != [] {
      var (init, e) := (es[..|es| - 1], es[|es| - 1]);
      AcceptedExactly(w, init);
      var l := AfterEvents(w, init);
      match e {
        case Insertion(data) =>
          InsertAccepts(w, l, data);
          IndexedMore(w, |Inserted(init)|, 0);
          GoingThroughMore(w, Inserted(init), data, 0, 0, l.idxWrites);
        case Draining(steps) =>
          DrainWritesNone(w, l, steps);
          assert Inserted(es) == Inserted(init);
        case Restarting =>
          assert Inserted(es) == Inserted(init);
      }
    }
  }

  /** If no write to the data or index file fails, every record is accepted. */
  lemma {:induction false} AllAccepted(w: World, es: seq<Event>)
    requires forall k: nat :: !w.datFails(k) && !w.idxFails(k)
    ensures AfterEvents(w, es).accepted == Inserted(es)
  {
    AcceptedExactly(w, es);
    AllGoThrough(w, Inserted(es), 0, 0);
  }

  lemma {:induction false} AllGoThrough(w: World, records: seq<seq<Byte>>, datWrites: nat, idxWrites: nat)
    requires forall k: nat :: !w.datFails(k) && !w.idxFails(k)
    ensures GoingThrough(w, records, datWrites, idxWrites) == records
    decreases |records|
  {
    if records != [] {
      AllGoThrough(w, records[1..], datWrites + 1, idxWrites + 1);
    }
  }

  // ---------- What arrives, and in which order ----------

  /** Consecutive repetitions taken as one. */
  function Collapse(s: seq<nat>): (r: seq<nat>)
    ensures |r| <= |s| && (|r| == |s| ==> r == s)
  {
    if |s| < 2 then s
    else if s[|s| - 1] == s[|s| - 2] then Collapse(s[..|s| - 1])
    else Collapse(s[..|s| - 1]) + [s[|s| - 1]]
  }

  /** The numbers below `n`, in order. */
  function Upto(n: nat): (s: seq<nat>)
    ensures |s| == n && forall i :: 0 <= i < n ==> s[i] == i
  {
    seq(n, i => i)
  }

  lemma {:induction false} CollapseLast(s: seq<nat>)
    requires s != []
    ensures Collapse(s) != [] && Collapse(s)[|Collapse(s)| - 1] == s[|s| - 1]
  {
    if |s| >= 2 {
      CollapseLast(s[..|s| - 1]);
    }
  }

  /** Distinct neighbours stay. */
  lemma {:induction false} CollapseUpto(n: nat)
    ensures Collapse(Upto(n)) == Upto(n)
  {
    if n >= 2 {
      assert Upto(n)[..n - 1] == Upto(n - 1);
      CollapseUpto(n - 1);
    }
  }

  /** What `k` delivered after a history that collapses to 0, ..., n - 1 makes of it. */
  lemma {:induction false} Deliver(s: seq<nat>, n: nat, k: nat)
    requires Collapse(s) == Upto(n) && (k == n || k + 1 == n)
    ensures Collapse(s + [k]) == Upto(if k == n then n + 1 else n)
  {
    var t := s + [k];
    assert t[..|s|] == s;
    if s == [] {
      assert n == 0;
      assert t == [0];
    } else {
      CollapseLast(s);
      assert s[|s| - 1] == n - 1;
      if k == n {
        assert Collapse(t) == Collapse(s) + [k];
        assert Upto(n + 1) == Upto(n) + [n];
      }
    }
  }

  /** The bytes that arrived are those of the records with the numbers that arrived. */
  ghost predicate Authentic(l: Ledger) {
    |l.received| == |l.delivered| &&
    forall i :: 0 <= i < |l.delivered| ==> l.delivered[i] < |l.accepted| && l.received[i] == l.accepted[l.delivered[i]]
  }

  /**
    The server has seen the accepted records in order without a gap, each possibly several times
    in a row; only the record at the head of the queue can be among them early.  The same holds
    of the confirmed arrivals.
   */
  ghost predicate Gapless(l: Ledger) {
    var (n, m) := (|Collapse(l.delivered)|, |Collapse(l.acknowledged)|);
    && l.done <= m <= n <= l.done + 1 && n <= |l.accepted|
    && Collapse(l.delivered) == Upto(n) && Collapse(l.acknowledged) == Upto(m)
  }

  /**
    Each record dequeued was confirmed once for that, and each record once more for every time its
    dequeue was lost.
   */
  ghost predicate Counted(l: Ledger) {
    multiset(l.acknowledged) == multiset(Upto(l.done)) + multiset(l.losts)
  }

  ghost predicate InOrder(l: Ledger) {
    l.done <= |l.accepted| && Gapless(l) && Counted(l) && Authentic(l)
  }

  lemma SendGapless(w: World, l: Ledger)
    requires Gapless(l) && l.done < |l.accepted|
    ensures
      var m := AfterSend(w, l);
      if w.link(l.sends) == Confirmed then Gapless(Lose(m)) && Gapless(AfterDequeue(w, m)) else Gapless(m)
  {
    hide Collapse, Upto;
    Deliver(l.delivered, |Collapse(l.delivered)|, l.done);
    Deliver(l.acknowledged, |Collapse(l.acknowledged)|, l.done);
  }

  lemma SendCounted(w: World, l: Ledger)
    requires Counted(l) && l.done < |l.accepted|
    ensures
      var m := AfterSend(w, l);
      if w.link(l.sends) == Confirmed then Counted(Lose(m)) && Counted(AfterDequeue(w, m)) else Counted(m)
  {
    assert Upto(l.done + 1) == Upto(l.done) + [l.done];
    hide Upto;
    CountMore(l.acknowledged, Upto(l.done), l.losts, l.done);
  }

  lemma CountMore(a: seq<nat>, b: seq<nat>, c: seq<nat>, x: nat)
    requires multiset(a) == multiset(b) + multiset(c)
    ensures multiset(a + [x]) == multiset(b + [x]) + multiset(c) == multiset(b) + multiset(c + [x])
  {
  }

  lemma MultisetSnoc(s: seq<nat>, x: nat)
    ensures multiset(s + [x]) == multiset(s) + multiset{x}
  {
  }

  lemma SendAuthentic(w: World, l: Ledger)
    requires Authentic(l) && l.done < |l.accepted|
    ensures
      var m := AfterSend(w, l);
      if w.link(l.sends) == Confirmed then Authentic(Lose(m)) && Authentic(AfterDequeue(w, m)) else Authentic(m)
  {
  }

  lemma SendInOrder(w: World, l: Ledger)
    requires InOrder(l) && l.done < |l.accepted|
    ensures
      var m := AfterSend(w, l);
      if w.link(l.sends) == Confirmed then InOrder(Lose(m)) && InOrder(AfterDequeue(w, m)) else InOrder(m)
  {
    SendGapless(w, l);
    SendCounted(w, l);
    SendAuthentic(w, l);
    hide Gapless, Counted, Authentic;
  }

  lemma InsertInOrder(w: World, l: Ledger, data: seq<Byte>)
    requires InOrder(l)
    ensures InOrder(AfterInsert(w, l, data))
  {
    hide Collapse, Upto;
  }

  lemma {:induction false} DrainInOrder(w: World, l: Ledger, steps: nat)
    requires InOrder(l)
    ensures InOrder(AfterDrain(w, l, steps).0)
    decreases steps
  {
    hide InOrder, AfterSend, AfterDequeue, Lose;
    InOrderBounds(l);
    if l.done < |l.accepted| && steps > 0 {
      SendInOrder(w, l);
      if w.link(l.sends) == Confirmed && steps > 1 {
        DrainInOrder(w, AfterDequeue(w, AfterSend(w, l)), steps - 2);
      }
    }
  }

  lemma InOrderBounds(l: Ledger)
    requires InOrder(l)
    ensures l.done <= |l.accepted|
  {
  }

  /** In every state of every run. */
  lemma {:induction false} AlwaysInOrder(w: World, es: seq<Event>)
    ensures InOrder(AfterEvents(w, es))
  {
    if es != [] {
      AlwaysInOrder(w, es[..|es| - 1]);
      var (l, e) := (AfterEvents(w, es[..|es| - 1]), es[|es| - 1]);
      hide InOrder, AfterInsert, AfterDrain;
      InOrderBounds(l);
      if e.Draining? {
        DrainInOrder(w, l, e.steps);
      } else if e.Insertion? {
        InsertInOrder(w, l, e.data);
      }
    }
  }

  /** The records with the given numbers. */
  function Pick(records: seq<seq<Byte>>, numbers: seq<nat>): (r: seq<seq<Byte>>)
    requires forall i :: 0 <= i < |numbers| ==> numbers[i] < |records|
  {
    seq(|numbers|, i requires 0 <= i < |numbers| => records[numbers[i]])
  }

  /**
    What reached the server in any run, repetitions aside, is the accepted records from the
    first on, in order, none left out; and so is what was acknowledged.
   */
  lemma {:induction false} DeliveredInOrder(w: World, es: seq<Event>)
    ensures
      var l := AfterEvents(w, es);
      && (forall i :: 0 <= i < |Collapse(l.delivered)| ==> Collapse(l.delivered)[i] < |l.accepted|)
      && (forall i :: 0 <= i < |Collapse(l.acknowledged)| ==> Collapse(l.acknowledged)[i] < |l.accepted|)
      && Pick(l.accepted, Collapse(l.delivered)) <= l.accepted
      && Pick(l.accepted, Collapse(l.acknowledged)) <= l.accepted
      && Authentic(l)
  {
    AlwaysInOrder(w, es);
  }

  lemma {:induction false} CollapseKeeps(s: seq<nat>, x: nat)
    requires x in s
    ensures x in Collapse(s)
  {
    if |s| >= 2 {
      CollapseLast(s);
      if x in s[..|s| - 1] {
        CollapseKeeps(s[..|s| - 1], x);
      }
    }
  }

  /**
    Which records are acknowledged how often: each record dequeued once, and each record once more
    for every lost dequeue.  There is no repetition if and only if no dequeue was lost, or only
    the one of the record now at the head, which has not been confirmed again.
   */
  lemma {:induction false} Repetitions(w: World, es: seq<Event>)
    ensures
      var l := AfterEvents(w, es);
      && multiset(l.acknowledged) == multiset(Upto(l.done)) + multiset(l.losts)
      && (l.acknowledged == Upto(|l.acknowledged|) <==> l.losts == [] || l.losts == [l.done])
  {
    AlwaysInOrder(w, es);
    var l := AfterEvents(w, es);
    RepetitionsOf(l);
  }

  lemma RepetitionsOf(l: Ledger)
    requires Gapless(l) && Counted(l)
    ensures l.acknowledged == Upto(|l.acknowledged|) <==> l.losts == [] || l.losts == [l.done]
  {
    hide Upto, Collapse;
    assert |multiset(l.acknowledged)| == |multiset(Upto(l.done))| + |multiset(l.losts)|;
    if l.acknowledged == Upto(|l.acknowledged|) {
      CollapseUpto(|l.acknowledged|);
      if l.losts != [] {
        OnlyLoss(l);
      }
    } else if l.losts == [l.done] {
      assert l.done in multiset(l.losts);
      assert l.done in multiset(l.acknowledged);
      CollapseKeeps(l.acknowledged, l.done);
    }
  }

  lemma OnlyLoss(l: Ledger)
    requires Counted(l) && |l.losts| == 1 && l.acknowledged == Upto(l.done + 1)
    ensures l.losts == [l.done]
  {
    assert Upto(l.done + 1) == Upto(l.done) + [l.done];
    hide Upto;
    MultisetSnoc(Upto(l.done), l.done);
    var u := multiset(Upto(l.done));
    assert multiset(l.losts) == (u + multiset(l.losts)) - u == (u + multiset{l.done}) - u == multiset{l.done};
    assert l.losts[0] in multiset(l.losts);
  }

  /** A confirmed send and its dequeue, taken off a drain. */
  lemma DrainStep(w: World, l: Ledger, steps: nat)
    requires l.done < |l.accepted| && w.link(l.sends) == Confirmed && steps >= 2
    ensures AfterDrain(w, l, steps) == AfterDrain(w, AfterDequeue(w, AfterSend(w, l)), steps - 2)
  {
  }

  /** A repetition at an input: one record, drained while the first write to the third file fails. */
  lemma RepeatedExample(data: seq<Byte>)
    ensures
      var w := World(k => false, k => false, k => k == 0, k => Confirmed);
      var l := AfterEvents(w, [Insertion(data), Draining(4)]);
      l.accepted == [data] && l.done == 1 && l.acknowledged == [0, 0] && l.losts == [0]
  {
    var w := World(k => false, k => false, k => k == 0, k => Confirmed);
    var (one, two) := ([Insertion(data)], [Insertion(data), Draining(4)]);
    assert two[..1] == one && one[..0] == [];
    assert AfterEvents(w, one[..0]) == START && AfterEvents(w, one) == AfterInsert(w, START, data);
    hide AfterEvents, AfterDrain;
    var l := AfterInsert(w, START, data);
    var m := AfterDequeue(w, AfterSend(w, l));
    DrainStep(w, l, 4);
    DrainStep(w, m, 2);
    var n := AfterDequeue(w, AfterSend(w, m));
    assert n.accepted == [data] && n.done == 1 && n.acknowledged == [0, 0] && n.losts == [0];
    assert AfterDrain(w, n, 0) == (n, Emptied) by {
      DrainNothing(w, n);
    }
    assert AfterEvents(w, two) == AfterDrain(w, l, 4).0 by {
      LastEvent(w, two);
    }
  }

  lemma DrainNothing(w: World, l: Ledger)
    requires l.done == |l.accepted|
    ensures AfterDrain(w, l, 0) == (l, Emptied)
  {
  }

  lemma LastEvent(w: World, es: seq<Event>)
    requires es != []
    ensures AfterEvents(w, es) == AfterEvent(w, AfterEvents(w, es[..|es| - 1]), es[|es| - 1])
  {
  }

  /**
    A drain that is given the steps empties the queue if no send and no dequeue fails; one that
    empties the queue leaves every accepted record confirmed.
   */
  lemma {:induction false} DrainEmpties(w: World, l: Ledger, steps: nat)
    requires l.done <= |l.accepted| && steps >= 2 * (|l.accepted| - l.done)
    requires forall k :: l.sends <= k < l.sends + (|l.accepted| - l.done) ==> w.link(k) == Confirmed
    requires forall k :: l.ptrWrites <= k < l.ptrWrites + (|l.accepted| - l.done) ==> !w.ptrFails(k)
    ensures AfterDrain(w, l, steps).1 == Emptied
    decreases steps
  {
    if l.done < |l.accepted| {
      assert w.link(l.sends) == Confirmed && !w.ptrFails(l.ptrWrites);
      DrainEmpties(w, AfterDequeue(w, AfterSend(w, l)), steps - 2);
    }
  }

  lemma {:induction false} DrainEnds(w: World, l: Ledger, steps: nat)
    requires l.done <= |l.accepted|
    ensures
      var (m, outcome) := AfterDrain(w, l, steps);
      && (outcome == Emptied <==> m.done == |m.accepted|)
      && (outcome == SendFailed ==> m.sends > l.sends && w.link(m.sends - 1) != Confirmed)
      && (InOrder(l) && outcome == Emptied ==> Collapse(m.acknowledged) == Upto(|m.accepted|))
    decreases steps
  {
    hide InOrder;
    if InOrder(l) {
      DrainInOrder(w, l, steps);
      InOrderConfirmed(AfterDrain(w, l, steps).0);
    }
    if l.done < |l.accepted| && steps > 1 && w.link(l.sends) == Confirmed {
      DrainEnds(w, AfterDequeue(w, AfterSend(w, l)), steps - 2);
    }
  }

  /** What a send does: it arrives unless it is lost, and is acknowledged if and only if it is confirmed. */
  lemma SendDoes(w: World, l: Ledger)
    requires l.done < |l.accepted|
    ensures
      var m := AfterSend(w, l);
      && m.delivered == (if w.link(l.sends) == Lost then l.delivered else l.delivered + [l.done])
      && m.received == (if w.link(l.sends) == Lost then l.received else l.received + [l.accepted[l.done]])
      && m.acknowledged == (if w.link(l.sends) == Confirmed then l.acknowledged + [l.done] else l.acknowledged)
      && m == l.(sends := l.sends + 1, delivered := m.delivered, received := m.received, acknowledged := m.acknowledged)
  {
  }

  /** A send that is not confirmed ends the drain, and leaves its record at the head. */
  lemma FailedSendEnds(w: World, l: Ledger, steps: nat)
    requires l.done < |l.accepted| && steps > 0 && w.link(l.sends) != Confirmed
    ensures
      var (m, outcome) := AfterDrain(w, l, steps);
      outcome == SendFailed && m.sends == l.sends + 1 && m.done == l.done && m.ptrWrites == l.ptrWrites && m.losts == l.losts
  {
  }

  /**
    The sends of a drain: all but the last are confirmed, each confirmed one is followed by a
    dequeue unless the crash comes between, and it reports a failed send if and only if the last
    one was not confirmed.  It crashes only after the steps it was given.
   */
  lemma {:induction false} DrainSends(w: World, l: Ledger, steps: nat)
    requires l.done <= |l.accepted|
    ensures
      var (m, outcome) := AfterDrain(w, l, steps);
      var (sends, dequeues) := (m.sends - l.sends, m.ptrWrites - l.ptrWrites);
      && 0 <= dequeues <= sends <= dequeues + 1
      && (forall k :: l.sends <= k < m.sends - 1 ==> w.link(k) == Confirmed)
      && (outcome == SendFailed <==> sends > 0 && w.link(m.sends - 1) != Confirmed)
      && (outcome == Emptied ==> sends == dequeues) && (outcome == SendFailed ==> sends == dequeues + 1)
      && (outcome == Crashed ==> sends + dequeues == steps)
    decreases steps
  {
    hide AfterSend;
    if l.done < |l.accepted| && steps > 0 {
      SendDoes(w, l);
      if w.link(l.sends) == Confirmed && steps > 1 {
        var n := AfterDequeue(w, AfterSend(w, l));
        DrainSends(w, n, steps - 2);
      }
    }
  }

  /** A failed send at an input: the record stays, although the next send would have gone through. */
  lemma FailedSendExample(data: seq<Byte>)
    ensures
      var w := World(k => false, k => false, k => false, k => if k == 0 then Lost else Confirmed);
      var l := AfterEvents(w, [Insertion(data)]);
      var (m, outcome) := AfterDrain(w, l, 4);
      outcome == SendFailed && m.sends == 1 && m.done == 0 && m.accepted == [data] && m.delivered == []
  {
    var w := World(k => false, k => false, k => false, k => if k == 0 then Lost else Confirmed);
    var one := [Insertion(data)];
    assert one[..0] == [] && AfterEvents(w, one[..0]) == START;
    assert AfterEvents(w, one) == AfterInsert(w, START, data);
  }

  lemma InOrderConfirmed(l: Ledger)
    requires InOrder(l)
    ensures l.done == |l.accepted| ==> Collapse(l.acknowledged) == Upto(|l.accepted|)
  {
  }

  // ---------- The program on its files ----------

  class Portal {
    const world: World
    var queue: Queue
    var sends: nat
    ghost var delivered: seq<nat>
    ghost var received: seq<seq<Byte>>
    ghost var acknowledged: seq<nat>
    ghost var losts: seq<nat>

    ghost predicate Valid()
      reads this, queue, queue.dfd, queue.ifd, queue.pfd
    {
      && queue.Valid() && |queue.ifd.bytes| == RECORD * |queue.History()|
      && queue.dfd.fails == world.datFails && queue.ifd.fails == world.idxFails && queue.pfd.fails == world.ptrFails
    }

    /** What has happened so far, as the files and the counters have it. */
    ghost function State(): (l: Ledger)
      requires Valid()
      reads this, queue, queue.dfd, queue.ifd, queue.pfd
      ensures l.done <= |l.accepted|
    {
      Ledger(queue.History(), queue.Done(), |queue.dfd.bytes|, queue.dfd.writes, queue.ifd.writes, queue.pfd.writes,
             sends, delivered, received, acknowledged, losts)
    }

    constructor (world: World)
      ensures Valid() && State() == START && this.world == world
      ensures fresh(queue) && fresh(queue.dfd) && fresh(queue.ifd) && fresh(queue.pfd)
    {
      assert HeadOffset([]) == 0;
      this.world := world;
      queue := new Queue(Files(Image([], world.datFails, 0), Image([], world.idxFails, 0), Image([], world.ptrFails, 0)));
      sends, delivered, received, acknowledged, losts := 0, [], [], [], [];
    }

    /** `InsertChargeData`; whether the record was accepted is not reported there. */
    method Insert(data: seq<Byte>)
      requires Valid() && Fits(State(), Insertion(data))
      modifies queue.dfd, queue.ifd
      ensures Valid() && queue == old(queue) && State() == AfterInsert(world, old(State()), data)
      ensures queue.History() ==
        if !world.datFails(old(queue.dfd.writes)) && !world.idxFails(old(queue.ifd.writes)) then old(queue.History()) + [data]
        else old(queue.History())
    {
      hide WellFormed, Log, Queued, HeadOffset;
      var _ := queue.Enqueue(data);
    }

    /** `GPRS_Send` with the bytes at the head of the queue. */
    method Send(data: seq<Byte>) returns (ok: bool)
      requires Valid() && State().done < |State().accepted| && data == State().accepted[State().done]
      modifies this`sends, this`delivered, this`received, this`acknowledged
      ensures Valid() && State() == AfterSend(world, old(State())) && ok == (world.link(old(sends)) == Confirmed)
    {
      ghost var record := queue.Done();
      var fate := world.link(sends);
      sends := sends + 1;
      ok := fate == Confirmed;
      if fate != Lost {
        delivered := delivered + [record];
        received := received + [data];
      }
      if ok {
        acknowledged := acknowledged + [record];
      }
    }

    /** `lqdequeue` as the drain loops call it: its result is ignored. */
    method Discard()
      requires Valid() && State().done < |State().accepted|
      modifies this`losts, queue.dfd`pos, queue.ifd`pos, queue.pfd
      ensures Valid() && State() == AfterDequeue(world, old(State()))
    {
      hide WellFormed, Log, Queued, HeadOffset;
      ghost var record := queue.Done();
      var ok, _ := queue.Dequeue();
      if !ok {
        losts := losts + [record];
      }
    }

    /** One turn of `SendChargeData`'s loop, with `left` sends and dequeues to go before a crash. */
    method DrainOne(left: nat) returns (outcome: Option<Outcome>)
      requires Valid()
      modifies this`sends, this`delivered, this`received, this`acknowledged, this`losts, queue.dfd, queue.ifd, queue.pfd
      ensures Valid() && queue == old(queue)
      ensures
        match outcome
        case Some(o) => (State(), o) == AfterDrain(world, old(State()), left)
        case None => left >= 2 && AfterDrain(world, old(State()), left) == AfterDrain(world, State(), left - 2)
    {
      hide AfterSend, AfterDequeue, WellFormed, Log, Queued, HeadOffset;
      var empty := queue.IsEmpty();
      if empty { return Some(Emptied); }
      var ok, data := queue.Front();
      if !ok { return Some(SendFailed); }
      if left == 0 { return Some(Crashed); }
      ok := Send(data);
      if !ok { return Some(SendFailed); }
      if left == 1 {
        losts := losts + [queue.Done()];
        return Some(Crashed);
      }
      Discard();
      outcome := None;
    }

    /**
      `SendChargeData`: drains until the queue is empty or a send fails, unless it crashes after
      `steps` sends and dequeues.
     */
    method Drain(steps: nat) returns (outcome: Outcome)
      requires Valid()
      modifies this`sends, this`delivered, this`received, this`acknowledged, this`losts, queue.dfd, queue.ifd, queue.pfd
      ensures Valid() && queue == old(queue) && (State(), outcome) == AfterDrain(world, old(State()), steps)
    {
      hide AfterDrain, State, Valid;
      var left := steps;
      while true
        invariant Valid() && queue == old(queue)
        invariant AfterDrain(world, State(), left) == AfterDrain(world, old(State()), steps)
        decreases left
      {
        var ended := DrainOne(left);
        if ended.Some? { return ended.value; }
        left := left - 2;
      }
    }

    /** After a crash the program starts again on the files as they are. */
    method Restart()
      requires Valid()
      modifies this`queue
      ensures Valid() && State() == old(State())
      ensures fresh(queue) && fresh(queue.dfd) && fresh(queue.ifd) && fresh(queue.pfd)
    {
      queue := new Queue(queue.Disk());
    }
  }

  lemma {:induction false} FitsSoFar(w: World, es: seq<Event>, n: nat)
    requires AllFit(w, es) && n < |es|
    ensures Fits(AfterEvents(w, es[..n]), es[n])
    ensures AfterEvents(w, es[..n + 1]) == AfterEvent(w, AfterEvents(w, es[..n]), es[n])
  {
    assert es[..n + 1][..n] == es[..n];
    var init := es[..|es| - 1];
    if n + 1 < |es| {
      FitsSoFar(w, init, n);
      assert init[..n] == es[..n];
    } else {
      assert es[..n] == init;
    }
  }

  /** Any run of the program goes as the protocol says. */
  method Run(world: World, events: seq<Event>) returns (p: Portal)
    requires AllFit(world, events)
    ensures fresh(p) && p.Valid() && p.State() == AfterEvents(world, events)
    ensures InOrder(p.State())
  {
    hide AfterEvents, AfterInsert, AfterDrain, InOrder, AllFit;
    p := new Portal(world);
    Nothing(world);
    var done := 0;
    assert events[..0] == [];
    while done < |events|
      invariant done <= |events| && p.world == world && p.Valid() && fresh(p)
      invariant fresh(p.queue) && fresh(p.queue.dfd) && fresh(p.queue.ifd) && fresh(p.queue.pfd)
      invariant p.State() == AfterEvents(world, events[..done])
    {
      FitsSoFar(world, events, done);
      match events[done] {
        case Insertion(data) => p.Insert(data);
        case Draining(steps) => var _ := p.Drain(steps);
        case Restarting => p.Restart();
      }
      done := done + 1;
    }
    assert events[..done] == events;
    AlwaysInOrder(world, events);
  }

  lemma Nothing(w: World)
    ensures AfterEvents(w, []) == START
  {
  }
}
