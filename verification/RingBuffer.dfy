/**
  src/cbuffer.c and src/cbuffer.h: a ring of 2^bitsize cells that one side fills in place and
  the other reads in place.  The counters `w` and `r` only ever go up, modulo 2^32.
 */
module RingBuffer {
  import opened Words
  import opened Remainders
  import opened Options

  /** `cbuffer_count`, in 32-bit arithmetic. */
  function Count(w: U32, r: U32): (n: nat)
    ensures n < WORD && (r + n == w || r + n == w + WORD)
  {
    if w >= r then w - r else w + WORD - r
  }

  function Next(x: U32): U32 {
    if x + 1 == WORD then 0 else x + 1
  }

  function And(a: nat, b: nat): nat
    decreases a
  {
    if a == 0 || b == 0 then 0 else (a % 2) * (b % 2) + 2 * And(a / 2, b / 2)
  }

  lemma {:induction false} AndOdd(x: nat, p: nat)
    requires p > 0
    ensures And(x, 2 * p - 1) == x % 2 + 2 * And(x / 2, p - 1)
  {
    assert (2 * p - 1) / 2 == p - 1 && (2 * p - 1) % 2 == 1;
  }

  lemma ModDouble(p: nat, q: nat, x: nat)
    requires p > 0 && q == 2 * p
    ensures x % q == x % 2 + 2 * (x / 2 % p)
  {
    DivMod(p, x / 2);
    var (s, k) := (x / 2 % p, x / 2 / p);
    Twice(p, k);
    ModOf(q, x, x % 2 + 2 * s, k);
  }

  lemma Twice(p: nat, q: nat)
    ensures 2 * (p * q) == (2 * p) * q
  {
  }

  /** Masking with 2^k - 1 leaves the remainder modulo 2^k. */
  lemma {:induction false} AndMask(k: nat, x: nat)
    ensures And(x, Pow2(k) - 1) == x % Pow2(k)
  {
    if k == 0 {
      assert And(x, 0) == 0 && x % 1 == 0;
    } else {
      var (p, q) := (Pow2(k - 1), Pow2(k));
      assert q == 2 * p && p > 0;
      hide *;
      AndMask(k - 1, x / 2);
      AndMaskNext(p, q, x);
    }
  }

  lemma AndMaskNext(p: nat, q: nat, x: nat)
    requires q == 2 * p && p > 0 && And(x / 2, p - 1) == x / 2 % p
    ensures And(x, q - 1) == x % q
  {
    hide And;
    AndOdd(x, p);
    ModDouble(p, q, x);
  }

  /** The sizes `cbuffer_create` can ask for: `2 << (bitsize - 1)` has to be a positive `int`. */
  predicate Capacity(cap: nat, bits: nat) {
    1 <= bits <= 30 && cap == Pow2(bits)
  }

  /** Going around 2^32 leaves the cell unchanged, because the capacity divides 2^32. */
  lemma {:induction false} WrapKeepsCell(cap: nat, bits: nat, x: nat)
    requires Capacity(cap, bits)
    ensures 0 < cap < WORD && (x + WORD) % cap == x % cap
  {
    assert Pow2(32 - bits) == 2 * Pow2(31 - bits);
    hide Pow2;
    Pow2Add(bits, 32 - bits);
    Pow2Values();
    var m := Pow2(32 - bits);
    assert cap * m == WORD;
    AtLeast(cap, m - 1);
    Distribute(cap, m - 1, 1);
    DivMod(cap, x);
    Distribute(cap, x / cap, m);
    ModOf(cap, x + WORD, x % cap, x / cap + m);
  }

  lemma NextCell(cap: nat, x: nat, y: nat)
    requires cap > 0 && x % cap == y % cap
    ensures (x + 1) % cap == (y + 1) % cap
  {
    StepCell(cap, x);
    StepCell(cap, y);
  }

  lemma StepCell(cap: nat, x: nat)
    requires cap > 0
    ensures (x + 1) % cap == if x % cap + 1 == cap then 0 else x % cap + 1
  {
    DivMod(cap, x);
    var (s, q) := (x % cap, x / cap);
    if s + 1 == cap {
      Distribute(cap, q, 1);
      ModOf(cap, x + 1, 0, q + 1);
    } else {
      ModOf(cap, x + 1, s + 1, q);
    }
  }

  // ---------- The queue the ring holds ----------

  /** The `n` cells from counter `r` on. */
  ghost function Held<T>(cells: seq<T>, r: nat, n: nat): (s: seq<T>)
    requires |cells| > 0
    ensures |s| == n
    decreases n
  {
    if n == 0 then [] else [cells[r % |cells|]] + Held(cells, r + 1, n - 1)
  }

  lemma {:induction false} HeldSame<T>(cells: seq<T>, r: nat, r': nat, n: nat)
    requires |cells| > 0 && r % |cells| == r' % |cells|
    ensures Held(cells, r, n) == Held(cells, r', n)
    decreases n
  {
    if n > 0 {
      NextCell(|cells|, r, r');
      HeldSame(cells, r + 1, r' + 1, n - 1);
    }
  }

  lemma {:induction false} HeldPush<T>(cells: seq<T>, r: nat, n: nat)
    requires |cells| > 0
    ensures Held(cells, r, n + 1) == Held(cells, r, n) + [cells[(r + n) % |cells|]]
    decreases n
  {
    if n > 0 {
      HeldPush(cells, r + 1, n - 1);
    }
  }

  /** Writing into the cell after the last one touches nothing that is held. */
  lemma {:induction false} HeldFill<T>(cells: seq<T>, r: nat, n: nat, x: T)
    requires n < |cells|
    ensures Held(cells[(r + n) % |cells| := x], r, n) == Held(cells, r, n)
    decreases n
  {
    if n > 0 {
      SlotsDiffer(|cells|, r, r + n);
      HeldFill(cells, r + 1, n - 1, x);
    }
  }

  /** The reader's counter steps past the oldest cell, around 2^32 if need be. */
  lemma {:induction false} HeldPop<T>(cells: seq<T>, bits: nat, w: U32, r: U32)
    requires Capacity(|cells|, bits) && |cells| > 0 && w != r
    ensures Count(w, Next(r)) == Count(w, r) - 1
    ensures Held(cells, r, Count(w, r)) == [cells[r % |cells|]] + Held(cells, Next(r), Count(w, r) - 1)
  {
    if r + 1 == WORD {
      WrapKeepsCell(|cells|, bits, 0);
      HeldSame(cells, r + 1, 0, Count(w, r) - 1);
    }
  }

  lemma {:induction false} WriteCell(cap: nat, bits: nat, w: U32, r: U32)
    requires Capacity(cap, bits) && cap > 0
    ensures (r + Count(w, r)) % cap == w % cap
  {
    WrapKeepsCell(cap, bits, w);
  }

  // ---------- The buffer ----------

  class Ring<T> {
    const cells: array<T>
    ghost const bits: nat
    const mask: nat
    var w: U32
    var r: U32

    ghost predicate Valid()
      reads this
    {
      Capacity(cells.Length, bits) && mask + 1 == cells.Length && Count(w, r) <= cells.Length
    }

    /** The queued cells, oldest first. */
    ghost function Contents(): (s: seq<T>)
      requires Valid()
      reads this, cells
      ensures |s| == Count(w, r)
    {
      Held(cells[..], r, Count(w, r))
    }

    /** `cbuffer_create`; the cells start out cleared. */
    constructor (bitsize: nat, zero: T)
      requires 1 <= bitsize <= 30
      ensures Valid() && Contents() == [] && cells.Length == Pow2(bitsize) && bits == bitsize && w == r && fresh(cells)
    {
      cells := new T[Pow2(bitsize)](_ => zero);
      bits, mask := bitsize, Pow2(bitsize) - 1;
      w, r := 0, 0;
    }

    /** `cbuffer_read`: the cell to read next, unless the buffer is empty. */
    method Read() returns (cell: Option<nat>)
      requires Valid()
      ensures cell.None? <==> Contents() == []
      ensures cell.Some? ==>
        cell.value == r % cells.Length && cell.value < cells.Length && cells[cell.value] == Contents()[0]
    {
      if r == w {
        return None;
      }
      AndMask(bits, r);
      cell := Some(And(r, mask));
    }

    /** `cbuffer_read_done`, after a successful `cbuffer_read`. */
    method ReadDone()
      requires Valid() && Contents() != []
      modifies this`r
      ensures Valid() && Contents() == old(Contents())[1..]
    {
      HeldPop(cells[..], bits, w, r);
      r := Next(r);
    }

    /** `cbuffer_write`: the cell to fill next, unless the buffer is full. */
    method Write() returns (cell: Option<nat>)
      requires Valid()
      ensures cell.None? <==> |Contents()| == cells.Length
      ensures cell.Some? ==> cell.value < cells.Length && cell.value == w % cells.Length
    {
      if Count(w, r) == mask + 1 {
        return None;
      }
      AndMask(bits, w);
      cell := Some(And(w, mask));
    }

    /** The caller fills the cell it was given; nothing queued is touched. */
    method Fill(cell: nat, x: T)
      requires Valid() && |Contents()| < cells.Length && cell == w % cells.Length
      modifies cells
      ensures Valid() && Contents() == old(Contents())
      ensures cell < cells.Length && cells[..] == old(cells[..])[cell := x]
    {
      WriteCell(cells.Length, bits, w, r);
      HeldFill(cells[..], r, Count(w, r), x);
      cells[cell] := x;
      assert cells[..] == old(cells[..])[cell := x];
    }

    /** `cbuffer_write_done`, after a successful `cbuffer_write`. */
    method WriteDone()
      requires Valid() && |Contents()| < cells.Length
      modifies this`w
      ensures Valid() && Contents() == old(Contents()) + [cells[old(w) % cells.Length]]
    {
      WriteCell(cells.Length, bits, w, r);
      HeldPush(cells[..], r, Count(w, r));
      WrapKeepsCell(cells.Length, bits, 0);
      w := Next(w);
    }

    /** `cbuffer_clear`. */
    method Clear()
      requires Valid()
      modifies this`w, this`r
      ensures Valid() && Contents() == []
    {
      w, r := 0, 0;
    }
  }

  // ---------- One producer and one consumer ----------

  /**
    Both sides at once.  Each holds the cell it was given from its call until it reports done;
    `filled` and `taken` record what went in and what came out.
   */
  datatype Machine<T> = Machine(cells: seq<T>, w: U32, r: U32, filling: Option<nat>, reading: Option<nat>,
                                filled: seq<T>, taken: seq<T>)

  datatype Step<T> = AskWrite | Fill(x: T) | DoneWrite | AskRead | DoneRead

  /** One step of either side; a step that its state does not allow changes nothing. */
  function Advance<T>(m: Machine<T>, s: Step<T>): Machine<T>
    requires |m.cells| > 0
  {
    var cap := |m.cells|;
    match s
    case AskWrite =>
      if m.filling.None? && Count(m.w, m.r) != cap then m.(filling := Some(m.w % cap)) else m
    case Fill(x) =>
      if m.filling.Some? && m.filling.value < cap then m.(cells := m.cells[m.filling.value := x]) else m
    case DoneWrite =>
      if m.filling.Some? && m.filling.value < cap
      then m.(w := Next(m.w), filling := None, filled := m.filled + [m.cells[m.filling.value]])
      else m
    case AskRead =>
      if m.reading.None? && m.r != m.w then m.(reading := Some(m.r % cap)) else m
    case DoneRead =>
      if m.reading.Some? && m.reading.value < cap
      then m.(r := Next(m.r), reading := None, taken := m.taken + [m.cells[m.reading.value]])
      else m
  }

  function RunSteps<T>(m: Machine<T>, steps: seq<Step<T>>): (k: Machine<T>)
    requires |m.cells| > 0
    ensures |k.cells| == |m.cells|
  {
    if steps == [] then m else Advance(RunSteps(m, steps[..|steps| - 1]), steps[|steps| - 1])
  }

  /** An empty buffer that nobody holds a cell of; its counters may stand anywhere. */
  ghost predicate Idle<T>(m: Machine<T>, bits: nat) {
    Capacity(|m.cells|, bits) && m.w == m.r && m.filling.None? && m.reading.None? && m.filled == m.taken
  }

  ghost predicate Sound<T>(m: Machine<T>, bits: nat) {
    var (cap, n) := (|m.cells|, Count(m.w, m.r));
    && Capacity(cap, bits) && n <= cap && cap > 0
    && (m.filling.Some? ==> m.filling.value == m.w % cap && n < cap)
    && (m.reading.Some? ==> m.reading.value == m.r % cap && n > 0)
    && m.filled == m.taken + Held(m.cells, m.r, n)
  }

  lemma {:induction false} AdvanceSound<T>(m: Machine<T>, s: Step<T>, bits: nat)
    requires |m.cells| > 0 && Sound(m, bits)
    ensures Sound(Advance(m, s), bits)
  {
    hide Pow2;
    var (cap, n) := (|m.cells|, Count(m.w, m.r));
    WriteCell(cap, bits, m.w, m.r);
    WrapKeepsCell(cap, bits, 0);
    match s {
      case AskWrite =>
      case AskRead =>
      case Fill(x) =>
        if m.filling.Some? {
          HeldFill(m.cells, m.r, n, x);
        }
      case DoneWrite =>
        if m.filling.Some? {
          HeldPush(m.cells, m.r, n);
          assert Count(Next(m.w), m.r) == n + 1;
        }
      case DoneRead =>
        if m.reading.Some? {
          HeldPop(m.cells, bits, m.w, m.r);
        }
    }
  }

  lemma {:induction false} RunsKeepSound<T>(m: Machine<T>, steps: seq<Step<T>>, bits: nat)
    requires |m.cells| > 0 && Sound(m, bits)
    ensures Sound(RunSteps(m, steps), bits)
  {
    hide Sound, Advance;
    if steps != [] {
      RunsKeepSound(m, steps[..|steps| - 1], bits);
      AdvanceSound(RunSteps(m, steps[..|steps| - 1]), steps[|steps| - 1], bits);
    }
  }

  /**
    In every interleaving of one producer and one consumer, through any number of wraps of the
    counters: what came out is a prefix of what went in, at most one capacity behind; the cell
    being filled is never the cell being read; and the cell being read holds what was put into
    it until it is given back.
   */
  lemma {:induction false} RunsAreSound<T>(m: Machine<T>, steps: seq<Step<T>>, bits: nat)
    requires |m.cells| > 0 && Idle(m, bits)
    ensures
      var k := RunSteps(m, steps);
      && k.taken <= k.filled && |k.filled| <= |k.taken| + |k.cells|
      && (k.filling.Some? && k.reading.Some? ==> k.filling.value != k.reading.value)
      && (k.reading.Some? ==>
            |k.taken| < |k.filled| && k.reading.value < |k.cells| && k.cells[k.reading.value] == k.filled[|k.taken|])
  {
    hide Pow2, Advance, RunSteps;
    RunsKeepSound(m, steps, bits);
    var k := RunSteps(m, steps);
    var (cap, n) := (|k.cells|, Count(k.w, k.r));
    WriteCell(cap, bits, k.w, k.r);
    if k.filling.Some? && k.reading.Some? {
      SlotsDiffer(cap, k.r, k.r + n);
    }
  }

  // ---------- The same on the buffer itself ----------

  /** A buffer between its two sides, each with the cell it holds. */
  class Shared<T> {
    const ring: Ring<T>
    var filling: Option<nat>
    var reading: Option<nat>
    ghost var filled: seq<T>
    ghost var taken: seq<T>

    ghost function State(): Machine<T>
      reads this, ring, ring.cells
    {
      Machine(ring.cells[..], ring.w, ring.r, filling, reading, filled, taken)
    }

    ghost predicate Valid()
      reads this, ring, ring.cells
    {
      ring.Valid() && ring.cells.Length > 0 && Sound(State(), ring.bits)
    }

    constructor (bitsize: nat, zero: T)
      requires 1 <= bitsize <= 30
      ensures Valid() && Idle(State(), ring.bits) && ring.bits == bitsize && filled == []
      ensures fresh(ring) && fresh(ring.cells)
    {
      ring := new Ring(bitsize, zero);
      filling, reading, filled, taken := None, None, [], [];
    }

    /** The producer asks for a cell to fill. */
    method BeginWrite()
      requires Valid()
      modifies `filling
      ensures Valid() && State() == Advance(old(State()), AskWrite)
    {
      hide Pow2, Held, Capacity, And;
      AdvanceSound(State(), AskWrite, ring.bits);
      if filling.None? {
        filling := ring.Write();
      }
    }

    /** The producer writes into the cell it holds. */
    method PutCell(x: T)
      requires Valid()
      modifies ring.cells
      ensures Valid() && State() == Advance(old(State()), Fill(x))
    {
      hide Pow2, Held, Capacity, And;
      AdvanceSound(State(), Fill(x), ring.bits);
      if filling.Some? {
        ring.Fill(filling.value, x);
      }
    }

    /** The producer gives the cell back, filled. */
    method EndWrite()
      requires Valid()
      modifies `filling, `filled, ring`w
      ensures Valid() && State() == Advance(old(State()), DoneWrite)
    {
      hide Pow2, Held, Capacity, And;
      AdvanceSound(State(), DoneWrite, ring.bits);
      if filling.Some? {
        filled := filled + [ring.cells[filling.value]];
        ring.WriteDone();
        filling := None;
      }
    }

    /** The consumer asks for a cell to read. */
    method BeginRead()
      requires Valid()
      modifies `reading
      ensures Valid() && State() == Advance(old(State()), AskRead)
    {
      hide Pow2, Held, Capacity, And, Sound;
      AdvanceSound(State(), AskRead, ring.bits);
      if reading.None? {
        reading := ring.Read();
      }
    }

    /** The consumer gives the cell back, read. */
    method EndRead()
      requires Valid()
      modifies `reading, `taken, ring`r
      ensures Valid() && State() == Advance(old(State()), DoneRead)
    {
      hide Pow2, Held, Capacity, And;
      AdvanceSound(State(), DoneRead, ring.bits);
      if reading.Some? {
        taken := taken + [ring.cells[reading.value]];
        ring.ReadDone();
        reading := None;
      }
    }

    /** A call of either side on the buffer is a step of the machine. */
    method Take(s: Step<T>)
      requires Valid()
      modifies this, ring, ring.cells
      ensures Valid() && State() == Advance(old(State()), s)
    {
      hide Advance, Sound;
      match s {
        case AskWrite => BeginWrite();
        case Fill(x) => PutCell(x);
        case DoneWrite => EndWrite();
        case AskRead => BeginRead();
        case DoneRead => EndRead();
      }
    }
  }

  /** Any interleaving on a new buffer goes as the machine says, and so is sound. */
  method Interleave<T>(bitsize: nat, zero: T, steps: seq<Step<T>>) returns (b: Shared<T>, ghost start: Machine<T>)
    requires 1 <= bitsize <= 30
    ensures fresh(b) && b.Valid() && |start.cells| > 0 && Idle(start, bitsize) && b.State() == RunSteps(start, steps)
    ensures b.taken <= b.filled
    ensures b.filling.Some? && b.reading.Some? ==> b.filling.value != b.reading.value
  {
    hide Advance, Sound;
    b := new Shared(bitsize, zero);
    start := b.State();
    var i := 0;
    while i < |steps|
      invariant i <= |steps| && fresh(b) && fresh(b.ring) && fresh(b.ring.cells)
      invariant b.Valid() && b.State() == RunSteps(start, steps[..i])
    {
      assert steps[..i + 1][..i] == steps[..i];
      b.Take(steps[i]);
      i := i + 1;
    }
    assert steps[..i] == steps;
    RunsAreSound(start, steps, bitsize);
  }
}
