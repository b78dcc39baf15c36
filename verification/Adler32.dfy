/**
  lib/zlib/adler32.c: the Adler-32 checksum with deferred reduction, its combination law, and
  the forms of the reduction that avoid division.
 */
module Adler32 {
  import opened Words

  /** The largest prime below 2^16. */
  const BASE: nat := 65521
  /** The longest block whose sums fit 32 bits without reduction. */
  const NMAX: nat := 5552

  // ---------- Reduction without division ----------

  lemma ModMultiple(b: nat, a: nat, k: nat)
    requires a == b + BASE * k
    ensures a % BASE == b % BASE
  {
  }

  /** `CHOP`: uses that 2^16 leaves 15. */
  function Chop(a: nat): (r: nat)
    ensures r % BASE == a % BASE
  {
    var high := a / 0x1_0000;
    assert a == a % 0x1_0000 + 0x1_0000 * high;
    ModMultiple(a % 0x1_0000 + 15 * high, a, high);
    a % 0x1_0000 + (16 * high - high)
  }

  function Subtract(a: nat): (r: nat)
    requires a < 2 * BASE
    ensures r == a % BASE
  {
    if a >= BASE then a - BASE else a
  }

  function Mod28(a: nat): (r: nat)
    requires a < 0x1000_0000
    ensures r == a % BASE
  {
    Subtract(Chop(a))
  }

  function Mod32(a: U32): (r: nat)
    ensures r == a % BASE
  {
    Mod28(Chop(a))
  }

  /** `MOD63`: first uses that 2^32 leaves 225. */
  function Mod63(a: nat): (r: nat)
    requires a < 0x8000_0000_0000_0000
    ensures r == a % BASE
  {
    var high := a / WORD;
    var b := a % WORD + (256 * high - 32 * high + high);
    assert WORD == 225 + BASE * 65551;
    ModMultiple(b, a, 65551 * high);
    assert Chop(b) < 0x1000_0000;
    Subtract(Chop(Chop(b)))
  }

  // ---------- The sums ----------

  /** Both sums after the bytes of `s`, unreduced. */
  function Sums(a: nat, b: nat, s: seq<Byte>): (nat, nat)
    decreases |s|
  {
    if s == [] then (a, b) else Sums(a + s[0], b + (a + s[0]), s[1..])
  }

  /** Section 8.2 of RFC 1950, byte by byte: each sum is reduced as it goes. */
  function PerByte(a: nat, b: nat, s: seq<Byte>): (nat, nat)
    decreases |s|
  {
    if s == [] then (a, b) else PerByte((a + s[0]) % BASE, (b + (a + s[0]) % BASE) % BASE, s[1..])
  }

  function Pack(a: nat, b: nat): nat {
    a + 0x1_0000 * b
  }

  /** The checksum of `s` continuing from `adler`. */
  function Adler(adler: U32, s: seq<Byte>): U32 {
    var (a, b) := Sums(adler % 0x1_0000, adler / 0x1_0000, s);
    Pack(a % BASE, b % BASE)
  }

  lemma OneMore(a: nat, b: nat, s: seq<Byte>, i: nat)
    requires i < |s|
    ensures Sums(a, b, s[i..]) == Sums(a + s[i], b + (a + s[i]), s[i + 1..])
  {
    assert s[i..][1..] == s[i + 1..];
  }

  lemma DigitSums(s: seq<Byte>)
    requires |s| == 9 && forall i :: 0 <= i < 9 ==> s[i] == 49 + i
    ensures Sums(1, 0, s) == (478, 2334)
  {
    assert s[0..] == s && Sums(478, 2334, s[9..]) == (478, 2334);
    hide Sums;
    OneMore(1, 0, s, 0);
    OneMore(50, 50, s, 1);
    OneMore(100, 150, s, 2);
    OneMore(151, 301, s, 3);
    OneMore(203, 504, s, 4);
    OneMore(256, 760, s, 5);
    OneMore(310, 1070, s, 6);
    OneMore(365, 1435, s, 7);
    OneMore(421, 1856, s, 8);
  }

  /** The check value: of the nine digits "123456789". */
  lemma CheckValue()
    ensures Adler(1, [49, 50, 51, 52, 53, 54, 55, 56, 57]) == 0x091e_01de
  {
    hide Sums;
    DigitSums([49, 50, 51, 52, 53, 54, 55, 56, 57]);
  }

  lemma ModStep(x: nat, y: nat, d: nat)
    requires x % BASE == y % BASE
    ensures (x + d) % BASE == (y + d) % BASE
  {
  }

  /** Reducing along the way does not change what the sums leave. */
  lemma {:induction false} SumsMod(a: nat, b: nat, a': nat, b': nat, s: seq<Byte>)
    requires a % BASE == a' % BASE && b % BASE == b' % BASE
    ensures Sums(a, b, s).0 % BASE == Sums(a', b', s).0 % BASE
    ensures Sums(a, b, s).1 % BASE == Sums(a', b', s).1 % BASE
    decreases |s|
  {
    if s != [] {
      ModStep(a, a', s[0]);
      ModStep(b, b', a + s[0]);
      ModSum(b', a + s[0], a' + s[0]);
      SumsMod(a + s[0], b + (a + s[0]), a' + s[0], b' + (a' + s[0]), s[1..]);
    }
  }

  lemma ModSum(b: nat, x: nat, y: nat)
    requires x % BASE == y % BASE
    ensures (b + x) % BASE == (b + y) % BASE
  {
    ModStep(x, y, b);
  }

  lemma ModMod(x: nat)
    ensures x % BASE % BASE == x % BASE
  {
  }

  /** The deferred sums agree with the definition that reduces at every byte. */
  lemma {:induction false} AdlerIsPerByte(a: nat, b: nat, s: seq<Byte>)
    requires a < BASE && b < BASE
    ensures PerByte(a, b, s) == (Sums(a, b, s).0 % BASE, Sums(a, b, s).1 % BASE)
    decreases |s|
  {
    if s != [] {
      var (c, d) := ((a + s[0]) % BASE, (b + (a + s[0]) % BASE) % BASE);
      assert PerByte(a, b, s) == PerByte(c, d, s[1..]) && Sums(a, b, s) == Sums(a + s[0], b + (a + s[0]), s[1..]);
      hide PerByte, Sums;
      AdlerIsPerByte(c, d, s[1..]);
      ModMod(a + s[0]);
      ModSum(b, a + s[0], c);
      ModMod(b + c);
      SumsMod(a + s[0], b + (a + s[0]), c, d, s[1..]);
    }
  }

  lemma {:induction false} SumsAppend(a: nat, b: nat, s: seq<Byte>, t: seq<Byte>)
    ensures Sums(a, b, s + t) == Sums(Sums(a, b, s).0, Sums(a, b, s).1, t)
    decreases |s|
  {
    if s == [] {
      assert s + t == t;
    } else {
      SumsAppend(a + s[0], b + (a + s[0]), s[1..], t);
      assert (s + t)[1..] == s[1..] + t;
    }
  }

  lemma {:induction false} AdlerSmall(adler: U32, s: seq<Byte>)
    ensures Adler(adler, s) % 0x1_0000 < BASE && Adler(adler, s) / 0x1_0000 < BASE
    ensures Adler(adler, s) % 0x1_0000 == Sums(adler % 0x1_0000, adler / 0x1_0000, s).0 % BASE
    ensures Adler(adler, s) / 0x1_0000 == Sums(adler % 0x1_0000, adler / 0x1_0000, s).1 % BASE
  {
  }

  /** Checksumming in two pieces is checksumming the whole. */
  lemma {:induction false} AdlerAppend(adler: U32, s: seq<Byte>, t: seq<Byte>)
    ensures Adler(Adler(adler, s), t) == Adler(adler, s + t)
  {
    hide Sums;
    AdlerSmall(adler, s);
    var (a, b) := (adler % 0x1_0000, adler / 0x1_0000);
    var (c, d) := Sums(a, b, s);
    SumsAppend(a, b, s, t);
    SumsMod(c % BASE, d % BASE, c, d, t);
  }

  // ---------- Bounds ----------

  /** The sum of 1 to n. */
  function Triangle(n: nat): (r: nat)
    ensures 2 * r == n * (n + 1)
  {
    if n == 0 then 0 else Triangle(n - 1) + n
  }

  /** Largest possible sums after `n` unreduced bytes. */
  predicate Within(a: nat, b: nat, n: nat) {
    a <= 0xffff + 255 * n && b <= 0xffff + 0xffff * n + 255 * Triangle(n)
  }

  lemma WithinNext(a: nat, b: nat, n: nat, c: Byte)
    requires Within(a, b, n)
    ensures Within(a + c, b + (a + c), n + 1)
  {
  }

  lemma {:induction false} TriangleMonotone(m: nat, n: nat)
    requires m <= n
    ensures Triangle(m) <= Triangle(n)
    decreases n - m
  {
    if m < n {
      TriangleMonotone(m + 1, n);
    }
  }

  /** Nothing overflows 32 bits within a block, even from a start that is not reduced. */
  lemma {:induction false} NoOverflow(a: nat, b: nat, n: nat)
    requires Within(a, b, n) && n <= NMAX
    ensures a < WORD && b < WORD
  {
    TriangleMonotone(n, NMAX);
    assert NMAX * (NMAX + 1) == 30830256;
    hide Triangle;
    assert Triangle(NMAX) == 15415128;
  }

  function Largest(n: nat): (s: seq<Byte>)
    ensures |s| == n
  {
    if n == 0 then [] else [0xff] + Largest(n - 1)
  }

  /** What `n` bytes of 255 add up to. */
  lemma {:induction false} LargestSums(n: nat)
    ensures Sums(0, 0, Largest(n)) == (255 * n, 255 * Triangle(n))
  {
    if n > 0 {
      LargestSums(n - 1);
      assert Largest(n)[1..] == Largest(n - 1);
      assert Sums(0, 0, Largest(n)) == Sums(255, 255, Largest(n - 1));
      hide Sums, Largest;
      SumsSplit(255, 255, Largest(n - 1));
    }
  }

  /** A block longer by one byte can overflow, even from reduced sums: `NMAX` is the largest. */
  lemma {:induction false} LongerOverflows()
    ensures Sums(BASE - 1, BASE - 1, Largest(NMAX + 1)).1 >= WORD
  {
    hide Sums, Largest;
    LargestSums(NMAX + 1);
    SumsSplit(BASE - 1, BASE - 1, Largest(NMAX + 1));
    assert (NMAX + 1) * (NMAX + 2) == 30841362;
    hide Triangle;
    assert Triangle(NMAX + 1) == 15420681;
  }

  // ---------- The checksum as computed ----------

  /** `count` turns of "add a byte to the first sum and the first sum to the second". */
  method AddBytes(buf: seq<Byte>, p: nat, count: nat, adler: U32, sum2: U32, ghost n: nat) returns (adler': U32, sum2': U32)
    requires p + count <= |buf| && Within(adler, sum2, n) && n + count <= NMAX
    ensures Within(adler', sum2', n + count)
    ensures (adler', sum2') == Sums(adler, sum2, buf[p..p + count])
  {
    hide Within;
    adler', sum2' := adler, sum2;
    for i := 0 to count
      invariant Within(adler', sum2', n + i)
      invariant (adler', sum2') == Sums(adler, sum2, buf[p..p + i])
    {
      WithinNext(adler', sum2', n + i, buf[p + i]);
      NoOverflow(adler' + buf[p + i], sum2' + (adler' + buf[p + i]), n + i + 1);
      SumsAppend(adler, sum2, buf[p..p + i], [buf[p + i]]);
      assert buf[p..p + i] + [buf[p + i]] == buf[p..p + i + 1];
      SumsOne(adler', sum2', buf[p + i]);
      adler' := adler' + buf[p + i];
      sum2' := sum2' + adler';
    }
  }

  lemma SumsOne(a: nat, b: nat, c: Byte)
    ensures Sums(a, b, [c]) == (a + c, b + (a + c))
  {
    assert [c][1..] == [];
  }

  /** The sums kept are congruent to the sums of everything read so far. */
  ghost predicate Tracks(adler: nat, sum2: nat, a: nat, b: nat, s: seq<Byte>) {
    adler % BASE == Sums(a, b, s).0 % BASE && sum2 % BASE == Sums(a, b, s).1 % BASE
  }

  lemma {:induction false} TracksMore(x: nat, y: nat, a: nat, b: nat, s: seq<Byte>, t: seq<Byte>)
    requires Tracks(x, y, a, b, s)
    ensures Tracks(Sums(x, y, t).0, Sums(x, y, t).1, a, b, s + t)
  {
    SumsAppend(a, b, s, t);
    SumsMod(x, y, Sums(a, b, s).0, Sums(a, b, s).1, t);
  }

  /** `DO16`, `count` times. */
  method AddSixteens(buf: seq<Byte>, p: nat, count: nat, adler: U32, sum2: U32, ghost n: nat, ghost a: nat, ghost b: nat)
    returns (adler': U32, sum2': U32)
    requires p + 16 * count <= |buf| && Within(adler, sum2, n) && n + 16 * count <= NMAX
    requires Tracks(adler, sum2, a, b, buf[..p])
    ensures Within(adler', sum2', n + 16 * count)
    ensures Tracks(adler', sum2', a, b, buf[..p + 16 * count])
  {
    hide Within, Sums, Tracks;
    adler', sum2' := adler, sum2;
    var i := 0;
    while i < count
      invariant i <= count && Within(adler', sum2', n + 16 * i)
      invariant Tracks(adler', sum2', a, b, buf[..p + 16 * i])
    {
      ghost var q := p + 16 * i;
      TracksMore(adler', sum2', a, b, buf[..q], buf[q..q + 16]);
      assert buf[..q] + buf[q..q + 16] == buf[..q + 16];
      adler', sum2' := AddBytes(buf, p + 16 * i, 16, adler', sum2', n + 16 * i);
      i := i + 1;
    }
  }

  /** The path for fewer than 16 bytes, which subtracts once from the first sum. */
  method ShortSums(buf: seq<Byte>, a: U32, b: U32) returns (sum1: U32, sum2: U32)
    requires |buf| < 16 && a <= 0xffff && b <= 0xffff
    ensures (sum1, sum2) == (Sums(a, b, buf).0 % BASE, Sums(a, b, buf).1 % BASE)
  {
    hide Sums, Within;
    StartWithin(a, b);
    assert buf[0..|buf|] == buf;
    sum1, sum2 := AddBytes(buf, 0, |buf|, a, b, 0);
    SmallSums(sum1, sum2, |buf|);
    sum1, sum2 := Subtract(sum1), Mod28(sum2);
  }

  /** The blocks of `NMAX` bytes, each reduced at its end. */
  method Blocks(buf: seq<Byte>, a: U32, b: U32) returns (sum1: U32, sum2: U32, p: nat)
    requires a <= 0xffff && b <= 0xffff
    ensures p <= |buf| < p + NMAX && sum1 <= 0xffff && sum2 <= 0xffff && Tracks(sum1, sum2, a, b, buf[..p])
    ensures p > 0 ==> sum1 < BASE && sum2 < BASE
  {
    hide Sums, Within, Tracks;
    StartTracks(a, b, buf);
    sum1, sum2, p := a, b, 0;
    var len: nat := |buf|;
    while len >= NMAX
      invariant p + len == |buf| && sum1 <= 0xffff && sum2 <= 0xffff && Tracks(sum1, sum2, a, b, buf[..p])
      invariant p > 0 ==> sum1 < BASE && sum2 < BASE
    {
      len := len - NMAX;
      StartWithin(sum1, sum2);
      sum1, sum2 := AddSixteens(buf, p, NMAX / 16, sum1, sum2, 0, a, b);
      p := p + NMAX;
      TracksReduced(sum1, sum2, a, b, buf[..p]);
      sum1, sum2 := sum1 % BASE, sum2 % BASE;
    }
  }

  /** What is left after the blocks, less than one, and at least a byte. */
  method LastBlock(buf: seq<Byte>, start: nat, sum1: U32, sum2: U32, ghost a: nat, ghost b: nat)
    returns (sum1': U32, sum2': U32)
    requires start < |buf| < start + NMAX && sum1 <= 0xffff && sum2 <= 0xffff && Tracks(sum1, sum2, a, b, buf[..start])
    ensures sum1' < BASE && sum2' < BASE && Tracks(sum1', sum2', a, b, buf)
  {
    hide Sums, Within, Tracks;
    var len: nat, p: nat := |buf| - start, start;
    StartWithin(sum1, sum2);
    ghost var n := 16 * (len / 16);
    sum1', sum2' := AddSixteens(buf, p, len / 16, sum1, sum2, 0, a, b);
    p := p + 16 * (len / 16);
    len := len % 16;
    TracksMore(sum1', sum2', a, b, buf[..p], buf[p..p + len]);
    assert buf[..p] + buf[p..p + len] == buf;
    sum1', sum2' := AddBytes(buf, p, len, sum1', sum2', n);
    TracksReduced(sum1', sum2', a, b, buf);
    sum1', sum2' := sum1' % BASE, sum2' % BASE;
  }

  /**
    `adler32`.  The result is the checksum for every starting value and every buffer, with one
    exception: the one-byte path reduces the second sum by a single subtraction, which is not
    enough when the second half of the starting value was not reduced to begin with.
   */
  method Adler32(adler: U32, buf: seq<Byte>) returns (r: U32)
    ensures (r == Adler(adler, buf)) <==>
      !(|buf| == 1 && adler / 0x1_0000 + (adler % 0x1_0000 + buf[0]) % BASE >= 2 * BASE)
  {
    hide Sums, Tracks, OneByte, Adler;
    var sum1: U32, sum2: U32 := adler % 0x1_0000, adler / 0x1_0000;
    if |buf| == 1 {
      assert buf == [buf[0]];
      OneByteExact(adler, buf[0]);
      return OneByte(sum1, sum2, buf[0]);
    }
    AdlerPacked(adler, buf);
    hide Pack;
    if |buf| < 16 {
      sum1, sum2 := ShortSums(buf, sum1, sum2);
      return Pack(sum1, sum2);
    }
    sum1, sum2 := LongSums(buf, sum1, sum2);
    r := Pack(sum1, sum2);
  }

  /** Both sums of a long buffer: the full blocks, and what is left. */
  method LongSums(buf: seq<Byte>, a: U32, b: U32) returns (sum1: U32, sum2: U32)
    requires |buf| >= 16 && a <= 0xffff && b <= 0xffff
    ensures sum1 < BASE && sum2 < BASE && (sum1, sum2) == (Sums(a, b, buf).0 % BASE, Sums(a, b, buf).1 % BASE)
  {
    hide Sums, Tracks;
    var p;
    sum1, sum2, p := Blocks(buf, a, b);
    if p < |buf| {
      sum1, sum2 := LastBlock(buf, p, sum1, sum2, a, b);
    } else {
      assert buf[..p] == buf;
    }
    TracksExact(sum1, sum2, a, b, buf);
  }

  /** `adler32` with its test for a null buffer, which asks for the initial value. */
  method Adler32Any(adler: U32, buf: Buffer) returns (r: U32)
    ensures buf.Null? ==> r == 1
    ensures buf.Bytes? ==> (r == Adler(adler, buf.bytes) <==>
      !(|buf.bytes| == 1 && adler / 0x1_0000 + (adler % 0x1_0000 + buf.bytes[0]) % BASE >= 2 * BASE))
  {
    if buf.Null? {
      return 1;
    }
    r := Adler32(adler, buf.bytes);
  }

  /** The path for a single byte. */
  function OneByte(sum1: nat, sum2: nat, c: Byte): (r: U32)
    requires sum1 <= 0xffff && sum2 <= 0xffff
  {
    var s1 := if sum1 + c >= BASE then sum1 + c - BASE else sum1 + c;
    var s2 := if sum2 + s1 >= BASE then sum2 + s1 - BASE else sum2 + s1;
    Pack(s1, s2)
  }

  lemma OneByteExact(adler: U32, c: Byte)
    ensures
      var (a, b) := (adler % 0x1_0000, adler / 0x1_0000);
      (OneByte(a, b, c) == Adler(adler, [c])) <==> b + (a + c) % BASE < 2 * BASE
  {
    var (a, b) := (adler % 0x1_0000, adler / 0x1_0000);
    SumsOne(a, b, c);
    AdlerPacked(adler, [c]);
    hide Adler, Sums;
    ModSum(b, a + c, (a + c) % BASE);
  }

  /** The exception at an input: from 0xffff_fff0 one zero byte leaves the second sum unreduced. */
  lemma OneByteExample()
    ensures OneByte(0xfff0, 0xffff, 0) == Pack(65520, 65534) && Adler(0xffff_fff0, [0]) == Pack(65520, 13)
  {
    SumsOne(0xfff0, 0xffff, 0);
    AdlerPacked(0xffff_fff0, [0]);
  }

  lemma AdlerPacked(adler: U32, s: seq<Byte>)
    ensures
      var (a, b) := Sums(adler % 0x1_0000, adler / 0x1_0000, s);
      Adler(adler, s) == Pack(a % BASE, b % BASE)
  {
  }

  lemma StartTracks(a: nat, b: nat, buf: seq<Byte>)
    requires a <= 0xffff && b <= 0xffff
    ensures Tracks(a, b, a, b, buf[..0]) && Within(a, b, 0)
  {
  }

  lemma StartWithin(a: nat, b: nat)
    requires a <= 0xffff && b <= 0xffff
    ensures Within(a, b, 0)
  {
  }

  lemma SmallSums(a: nat, b: nat, n: nat)
    requires Within(a, b, n) && n < 16
    ensures a < 2 * BASE && b < 0x1000_0000
  {
    TriangleMonotone(n, 16);
  }

  lemma TracksReduced(x: nat, y: nat, a: nat, b: nat, s: seq<Byte>)
    requires Tracks(x, y, a, b, s)
    ensures Tracks(x % BASE, y % BASE, a, b, s)
  {
    hide Sums;
  }

  lemma TracksExact(x: nat, y: nat, a: nat, b: nat, s: seq<Byte>)
    requires Tracks(x, y, a, b, s)
    ensures x % BASE == Sums(a, b, s).0 % BASE && y % BASE == Sums(a, b, s).1 % BASE
  {
    hide Sums;
  }

  // ---------- Combination ----------

  /** How the sums depend on where they start. */
  lemma {:induction false} SumsSplit(a: nat, b: nat, s: seq<Byte>)
    ensures Sums(a, b, s).0 == a + Sums(0, 0, s).0
    ensures Sums(a, b, s).1 == b + |s| * a + Sums(0, 0, s).1
    decreases |s|
  {
    if s != [] {
      var c := s[0];
      SumsSplit(a + c, b + (a + c), s[1..]);
      SumsSplit(c, c, s[1..]);
      var n := |s[1..]|;
      assert n * (a + c) == n * a + n * c;
      assert |s| * a == n * a + a;
    }
  }

  /** Both halves are below the modulus, as in every checksum. */
  predicate Reduced(adler: U32) {
    adler % 0x1_0000 < BASE && adler / 0x1_0000 < BASE
  }

  /** `adler32_combine_`. */
  method Combine(adler1: U32, adler2: U32, length: int) returns (r: U32)
    requires length < 0x8000_0000_0000_0000
    ensures length < 0 ==> r == 0xffff_ffff
    ensures length >= 0 && Reduced(adler1) && Reduced(adler2) ==>
      r == Pack((adler1 % 0x1_0000 + adler2 % 0x1_0000 + BASE - 1) % BASE,
                (length % BASE * (adler1 % 0x1_0000) + adler1 / 0x1_0000 + adler2 / 0x1_0000 + BASE - length % BASE) % BASE)
  {
    hide Mod63;
    if length < 0 {
      return 0xffff_ffff;
    }
    var rem := Mod63(length);
    var sum1: U32 := adler1 % 0x1_0000;
    ProductFits(rem, sum1);
    r := CombineSums(rem * sum1, rem, adler1, adler2);
  }

  /** The rest of it, once the length has been multiplied in. */
  method CombineSums(product: U32, rem: nat, adler1: U32, adler2: U32) returns (r: U32)
    requires rem < BASE
    ensures Reduced(adler1) && Reduced(adler2) ==>
      r == Pack((adler1 % 0x1_0000 + adler2 % 0x1_0000 + BASE - 1) % BASE,
                (product + adler1 / 0x1_0000 + adler2 / 0x1_0000 + BASE - rem) % BASE)
  {
    hide Mod32, PackFolded, Pack;
    var sum1: U32, sum2: U32 := adler1 % 0x1_0000, Mod32(product);
    ghost var rest: nat := adler1 / 0x1_0000 + adler2 / 0x1_0000 + BASE - rem;
    ModStep(product % BASE, product, rest);
    sum1 := sum1 + adler2 % 0x1_0000 + BASE - 1;
    sum2 := sum2 + adler1 / 0x1_0000 + adler2 / 0x1_0000 + BASE - rem;
    assert sum2 == product % BASE + rest;
    r := PackFolded(sum1, sum2);
  }

  /** The final subtractions and the packing. */
  function PackFolded(sum1: nat, sum2: nat): (r: U32)
    ensures sum1 < 3 * BASE && sum2 < 4 * BASE ==> r == Pack(sum1 % BASE, sum2 % BASE)
  {
    Pack(Fold1(sum1), Fold2(sum2)) % WORD
  }

  /** Up to two subtractions. */
  function Fold1(x: nat): (r: nat)
    ensures x < 3 * BASE ==> r == x % BASE
  {
    var y := if x >= BASE then x - BASE else x;
    if y >= BASE then y - BASE else y
  }

  /** A subtraction of twice the modulus, then one of the modulus. */
  function Fold2(x: nat): (r: nat)
    ensures x < 4 * BASE ==> r == x % BASE
  {
    var y := if x >= 2 * BASE then x - 2 * BASE else x;
    if y >= BASE then y - BASE else y
  }

  lemma ProductFits(rem: nat, sum1: nat)
    requires rem < BASE && sum1 <= 0xffff
    ensures 0 <= rem * sum1 < WORD
  {
    MulMonotone(rem, 65520, sum1);
  }

  lemma {:induction false} MulMonotone(x: nat, y: nat, z: nat)
    requires x <= y
    ensures x * z <= y * z
    decreases z
  {
    if z > 0 {
      MulMonotone(x, y, z - 1);
      assert x * z == x * (z - 1) + x && y * z == y * (z - 1) + y;
    }
  }

  /** The law `adler32_combine` is for. */
  method CombineChecksums(adler: U32, s: seq<Byte>, t: seq<Byte>) returns (r: U32)
    requires |t| < 0x8000_0000_0000_0000
    ensures r == Adler(adler, s + t)
  {
    hide Sums;
    r := Combine(Adler(adler, s), Adler(1, t), |t|);
    AdlerSmall(adler, s);
    AdlerSmall(1, t);
    CombinedSums(adler % 0x1_0000, adler / 0x1_0000, s, t);
  }

  lemma {:induction false} CombinedSums(a: nat, b: nat, s: seq<Byte>, t: seq<Byte>)
    ensures
      var ((a1, b1), (a2, b2), (a3, b3)) := (Sums(a, b, s), Sums(1, 0, t), Sums(a, b, s + t));
      && a3 % BASE == (a1 % BASE + a2 % BASE + BASE - 1) % BASE
      && b3 % BASE == (|t| % BASE * (a1 % BASE) + b1 % BASE + b2 % BASE + BASE - |t| % BASE) % BASE
  {
    hide Sums;
    var ((a1, b1), (a2, b2), (a3, b3)) := (Sums(a, b, s), Sums(1, 0, t), Sums(a, b, s + t));
    var n := |t|;
    SumsAppend(a, b, s, t);
    SumsSplit(a1, b1, t);
    SumsSplit(1, 0, t);
    assert a3 == a1 + a2 - 1 && b3 + n == b1 + n * a1 + b2;
    FirstSum(a1, a2, a3);
    ProductMod(n, a1);
    SecondSum(n * a1, n % BASE * (a1 % BASE), b1, b2, b3, n);
  }

  lemma FirstSum(a1: nat, a2: nat, a3: nat)
    requires a3 + 1 == a1 + a2
    ensures a3 % BASE == (a1 % BASE + a2 % BASE + BASE - 1) % BASE
  {
  }

  lemma SecondSum(x: nat, y: nat, b1: nat, b2: nat, b3: nat, n: nat)
    requires x % BASE == y % BASE && b3 + n == b1 + x + b2
    ensures b3 % BASE == (y + b1 % BASE + b2 % BASE + BASE - n % BASE) % BASE
  {
  }

  lemma ProductParts(r: nat, k: nat, s: nat, l: nat)
    ensures (r + BASE * k) * (s + BASE * l) == r * s + BASE * (k * (s + BASE * l) + r * l)
  {
  }

  lemma ProductMod(x: nat, y: nat)
    ensures (x * y) % BASE == (x % BASE * (y % BASE)) % BASE
  {
    var (r, k) := (x % BASE, x / BASE);
    var (s, l) := (y % BASE, y / BASE);
    ProductParts(r, k, s, l);
  }
}
