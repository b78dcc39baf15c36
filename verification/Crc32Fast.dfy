/**
  lib/zlib/crc32.c as it runs: the tables of `make_crc_table`, the byte-wise loop, and the
  word-wise loops for both byte orders.
 */
module Crc32Fast {
  import opened Words
  import opened Crc32

  /** `ZSWAP32`. */
  function Swap(q: U32): U32 {
    Word(q / 0x100_0000, q / 0x1_0000 % 0x100, q / 0x100 % 0x100, q % 0x100)
  }

  lemma {:induction false} WordBytes(b0: Byte, b1: Byte, b2: Byte, b3: Byte)
    ensures
      var q := Word(b0, b1, b2, b3);
      && q % 0x100 == b0 && q / 0x100 % 0x100 == b1 && q / 0x1_0000 % 0x100 == b2 && q / 0x100_0000 == b3
  {
    var q := Word(b0, b1, b2, b3);
    assert q % 0x100 == b0 && q / 0x100 == b1 + 0x100 * (b2 + 0x100 * b3);
    assert q / 0x1_0000 == b2 + 0x100 * b3 && q / 0x100_0000 == b3;
  }

  lemma {:induction false} SwapWord(b0: Byte, b1: Byte, b2: Byte, b3: Byte)
    ensures Swap(Word(b0, b1, b2, b3)) == Word(b3, b2, b1, b0)
  {
    WordBytes(b0, b1, b2, b3);
  }

  lemma {:induction false} SwapSwap(q: U32)
    ensures Swap(Swap(q)) == q
  {
    WordParts(q);
    SwapWord(q / 0x100_0000, q / 0x1_0000 % 0x100, q / 0x100 % 0x100, q % 0x100);
  }

  lemma {:induction false} SwapXor(a: U32, b: U32)
    ensures Swap(Xor32(a, b)) == Xor32(Swap(a), Swap(b))
  {
    hide Xor, Swap;
    var (a0, a1, a2, a3) := (a % 0x100, a / 0x100 % 0x100, a / 0x1_0000 % 0x100, a / 0x100_0000);
    var (b0, b1, b2, b3) := (b % 0x100, b / 0x100 % 0x100, b / 0x1_0000 % 0x100, b / 0x100_0000);
    WordParts(a);
    WordParts(b);
    hide Word;
    XorWord(a0, a1, a2, a3, b0, b1, b2, b3);
    XorWord(a3, a2, a1, a0, b3, b2, b1, b0);
    SwapWord(a0, a1, a2, a3);
    SwapWord(b0, b1, b2, b3);
    SwapWord(Xor(a0, b0), Xor(a1, b1), Xor(a2, b2), Xor(a3, b3));
  }

  lemma SwapOnes()
    ensures Swap(ONES) == ONES
  {
    assert ONES == Word(0xff, 0xff, 0xff, 0xff);
    SwapWord(0xff, 0xff, 0xff, 0xff);
  }

  // ---------- Tables ----------

  /** Rows 0 to 3 advance a byte by 1 to 4 zero bytes; rows 4 to 7 are rows 0 to 3 byte-swapped. */
  ghost predicate Ready(t: array2<U32>)
    reads t
  {
    && t.Length0 == 8 && t.Length1 == 256
    && (forall k: nat, n: nat :: k < 4 && n < 256 ==> t[k, n] == Bits(8 * k + 8, n))
    && (forall k: nat, n: nat :: 4 <= k < 8 && n < 256 ==> t[k, n] == Swap(Bits(8 * k - 24, n)))
  }

  const POWERS: seq<nat> := [0, 1, 2, 4, 5, 7, 8, 10, 11, 12, 16, 22, 23, 26]

  /** The pattern whose bit 31 - e stands for the power e; the powers are distinct. */
  function Pattern(powers: seq<nat>): nat {
    if powers == [] then 0
    else Pattern(powers[..|powers| - 1]) + (if powers[|powers| - 1] < 32 then Pow2(31 - powers[|powers| - 1]) else 0)
  }

  lemma SmallPower(i: nat)
    requires i < |POWERS|
    ensures POWERS[i] < 32
  {
  }

  lemma PatternNext(powers: seq<nat>, i: nat)
    requires i < |powers| && powers[i] < 32
    ensures Pattern(powers[..i + 1]) == Pattern(powers[..i]) + Pow2(31 - powers[i])
  {
    assert powers[..i + 1][..i] == powers[..i];
    hide Pow2;
  }

  lemma {:induction false} PatternStep(i: nat)
    requires i < |POWERS|
    ensures POWERS[i] < 32 && Pattern(POWERS[..i + 1]) == Pattern(POWERS[..i]) + Pow2(31 - POWERS[i])
  {
    SmallPower(i);
    hide *;
    PatternNext(POWERS, i);
  }

  lemma {:induction false} HighPowers()
    ensures Pow2(31) == 0x8000_0000 && Pow2(30) == 0x4000_0000 && Pow2(29) == 0x2000_0000
    ensures Pow2(27) == 0x800_0000 && Pow2(26) == 0x400_0000 && Pow2(24) == 0x100_0000
    ensures Pow2(23) == 0x80_0000 && Pow2(21) == 0x20_0000 && Pow2(20) == 0x10_0000
    ensures Pow2(19) == 0x8_0000 && Pow2(15) == 0x8000 && Pow2(9) == 0x200 && Pow2(8) == 0x100 && Pow2(5) == 0x20
  {
    assert Pow2(4) == 16;
    assert Pow2(5) == 32;
    assert Pow2(8) == 2 * (2 * (2 * Pow2(5)));
    assert Pow2(12) == 2 * (2 * (2 * (2 * Pow2(8))));
    assert Pow2(15) == 2 * (2 * (2 * Pow2(12)));
    assert Pow2(19) == 2 * (2 * (2 * (2 * Pow2(15))));
    assert Pow2(23) == 2 * (2 * (2 * (2 * Pow2(19))));
    assert Pow2(27) == 2 * (2 * (2 * (2 * Pow2(23))));
    assert Pow2(31) == 2 * (2 * (2 * (2 * Pow2(27))));
  }

  lemma {:induction false} PatternValue()
    ensures Pattern(POWERS) == POLY
  {
    HighPowers();
    hide Pow2, Pattern;
    PatternStep(0); PatternStep(1); PatternStep(2); PatternStep(3); PatternStep(4); PatternStep(5); PatternStep(6);
    PatternStep(7); PatternStep(8); PatternStep(9); PatternStep(10); PatternStep(11); PatternStep(12); PatternStep(13);
    assert POWERS[..14] == POWERS && POWERS[..0] == [];
    EmptyPattern();
  }

  lemma EmptyPattern()
    ensures Pattern([]) == 0
  {
  }

  /** `make_crc_table` with the rows for word-wise use. */
  method MakeCrcTable(t: array2<U32>)
    requires t.Length0 == 8 && t.Length1 == 256
    modifies t
    ensures Ready(t)
  {
    hide Xor, Bit, Swap, Pow2;
    var poly: nat := 0;
    for i := 0 to |POWERS|
      invariant poly == Pattern(POWERS[..i])
    {
      PatternStep(i);
      poly := poly + Pow2(31 - POWERS[i]);
    }
    assert POWERS[..|POWERS|] == POWERS;
    PatternValue();

    for n := 0 to 256
      invariant forall m: nat :: m < n ==> t[0, m] == Bits(8, m)
    {
      var c: U32 := n;
      for k := 0 to 8
        invariant c == Bits(k, n)
        invariant forall m: nat :: m < n ==> t[0, m] == Bits(8, m)
      {
        BitsAdd(k, 1, n);
        assert Bits(1, c) == Bit(c);
        c := ShiftBit(poly, c);
      }
      t[0, n] := c;
    }
    FillRows(t);
  }

  /** One turn of the inner loop. */
  function ShiftBit(poly: U32, c: U32): (r: U32)
    requires poly == POLY
    ensures r == Bit(c)
  {
    if c % 2 == 1 then Xor32(poly, c / 2) else c / 2
  }

  method FillRows(t: array2<U32>)
    requires t.Length0 == 8 && t.Length1 == 256
    requires forall m: nat :: m < 256 ==> t[0, m] == Bits(8, m)
    modifies t
    ensures Ready(t)
  {
    hide Xor, Bits, Bit, Swap;
    for n := 0 to 256
      invariant forall m: nat :: m < 256 ==> t[0, m] == Bits(8, m)
      invariant forall k: nat, m: nat :: k < 4 && m < n ==> t[k, m] == Bits(8 * k + 8, m)
      invariant forall k: nat, m: nat :: 4 <= k < 8 && m < n ==> t[k, m] == Swap(Bits(8 * k - 24, m))
    {
      var c := t[0, n];
      t[4, n] := Swap(c);
      for k := 1 to 4
        invariant c == Bits(8 * k, n)
        invariant forall m: nat :: m < 256 ==> t[0, m] == Bits(8, m)
        invariant forall j: nat, m: nat :: j < 4 && (m < n || (m == n && j < k)) ==> t[j, m] == Bits(8 * j + 8, m)
        invariant forall j: nat, m: nat :: 4 <= j < 8 && (m < n || (m == n && j < k + 4)) ==> t[j, m] == Swap(Bits(8 * j - 24, m))
      {
        TableStep(c);
        BitsAdd(8 * k, 8, n);
        c := Xor32(t[0, c % 0x100], c / 0x100);
        t[k, n] := c;
        t[k + 4, n] := Swap(c);
      }
    }
  }

  // ---------- The byte-wise loop ----------

  lemma {:induction false} LowByteOfXor(c: U32, b: Byte)
    ensures Xor32(c, b) % 0x100 == Xor(c % 0x100, b) && Xor32(c, b) / 0x100 == c / 0x100
  {
    hide Xor;
    XorLowByte(c % 0x100, c / 0x100, b, 0);
    XorByte(c % 0x100, b);
    XorCancel(c / 0x100, 0);
  }

  /** `DO1`. */
  function Do1(t: array2<U32>, c: U32, b: Byte): (r: U32)
    requires Ready(t)
    reads t
    ensures r == Bits(8, Xor32(c, b))
  {
    LowByteOfXor(c, b);
    TableStep(Xor32(c, b));
    XorByte(c % 0x100, b);
    Xor32(t[0, Xor(c % 0x100, b)], c / 0x100)
  }

  lemma {:induction false} RegisterNext(c: U32, s: seq<Byte>, i: nat)
    requires i < |s|
    ensures Register(c, s[..i + 1]) == Bits(8, Xor32(Register(c, s[..i]), s[i]))
  {
    hide Bits;
    assert s[..i + 1][..i] == s[..i];
  }

  /** `crc32` compiled without word-wise code. */
  method Crc32Bytes(t: array2<U32>, crc: U32, buf: seq<Byte>) returns (r: U32)
    requires Ready(t)
    ensures r == Crc(crc, buf)
  {
    hide Xor, Bits;
    var c := Xor32(crc, ONES);
    var p: nat, len: nat := 0, |buf|;
    while len >= 8
      invariant p + len == |buf| && c == Register(Xor32(crc, ONES), buf[..p])
    {
      for i := 0 to 8
        invariant p + i <= |buf| && c == Register(Xor32(crc, ONES), buf[..p + i])
      {
        RegisterNext(Xor32(crc, ONES), buf, p + i);
        c := Do1(t, c, buf[p + i]);
      }
      p, len := p + 8, len - 8;
    }
    while len != 0
      invariant p + len == |buf| && c == Register(Xor32(crc, ONES), buf[..p])
    {
      RegisterNext(Xor32(crc, ONES), buf, p);
      c := Do1(t, c, buf[p]);
      p, len := p + 1, len - 1;
    }
    assert buf[..p] == buf;
    r := Xor32(c, ONES);
  }

  // ---------- The word-wise loops ----------

  lemma {:induction false} RegisterWord(c: U32, s: seq<Byte>, i: nat)
    requires i + 4 <= |s|
    ensures Register(c, s[..i + 4]) == Bits(32, Xor32(Register(c, s[..i]), Word(s[i], s[i + 1], s[i + 2], s[i + 3])))
  {
    hide Bits, Word, Xor;
    RegisterAppend(c, s[..i], s[i..i + 4]);
    assert s[..i] + s[i..i + 4] == s[..i + 4];
    assert s[i..i + 4] == [s[i], s[i + 1], s[i + 2], s[i + 3]];
    WordAbsorb(Register(c, s[..i]), s[i], s[i + 1], s[i + 2], s[i + 3]);
  }

  /** `DOLIT4`. */
  function DoLit4(t: array2<U32>, c: U32, word: U32): (r: U32)
    requires Ready(t)
    reads t
    ensures r == Bits(32, Xor32(c, word))
  {
    var d := Xor32(c, word);
    WordStep(d);
    Xor32(Xor32(Xor32(t[3, d % 0x100], t[2, d / 0x100 % 0x100]), t[1, d / 0x1_0000 % 0x100]), t[0, d / 0x100_0000])
  }

  /** The word a little-endian machine loads from `buf` at `p`. */
  function LoadLittle(buf: seq<Byte>, p: nat): U32
    requires p + 4 <= |buf|
  {
    Word(buf[p], buf[p + 1], buf[p + 2], buf[p + 3])
  }

  /** The word a big-endian machine loads from `buf` at `p`. */
  function LoadBig(buf: seq<Byte>, p: nat): U32
    requires p + 4 <= |buf|
  {
    Word(buf[p + 3], buf[p + 2], buf[p + 1], buf[p])
  }

  /** `crc32`: a null buffer asks for the initial value; otherwise the byte order picks the loop. */
  method Crc32Any(t: array2<U32>, crc: U32, buf: Buffer, address: nat, byFour: bool, littleEndian: bool) returns (r: U32)
    requires Ready(t)
    ensures r == if buf.Null? then 0 else Crc(crc, buf.bytes)
  {
    if buf.Null? {
      return 0;
    }
    if byFour {
      if littleEndian {
        r := Crc32Little(t, crc, buf.bytes, address);
      } else {
        r := Crc32Big(t, crc, buf.bytes, address);
      }
    } else {
      r := Crc32Bytes(t, crc, buf.bytes);
    }
  }

  /** `DOLIT32`: eight words. */
  method LittleEight(t: array2<U32>, c: U32, buf: seq<Byte>, p: nat, ghost start: U32) returns (c': U32)
    requires Ready(t) && p + 32 <= |buf| && c == Register(start, buf[..p])
    ensures c' == Register(start, buf[..p + 32])
  {
    hide Xor, Bits, Swap, Word;
    c' := c;
    for i := 0 to 8
      invariant c' == Register(start, buf[..p + 4 * i])
    {
      RegisterWord(start, buf, p + 4 * i);
      c' := DoLit4(t, c', LoadLittle(buf, p + 4 * i));
    }
  }

  /** `crc32_little`, for a buffer at any address. */
  method Crc32Little(t: array2<U32>, crc: U32, buf: seq<Byte>, address: nat) returns (r: U32)
    requires Ready(t)
    ensures r == Crc(crc, buf)
  {
    hide Xor, Bits, Word;
    ghost var start := Xor32(crc, ONES);
    var c := Xor32(crc, ONES);
    var p: nat, len: nat := 0, |buf|;
    while len != 0 && (address + p) % 4 != 0
      invariant p + len == |buf| && c == Register(start, buf[..p])
    {
      RegisterNext(start, buf, p);
      c := Do1(t, c, buf[p]);
      p, len := p + 1, len - 1;
    }
    while len >= 32
      invariant p + len == |buf| && c == Register(start, buf[..p])
    {
      c := LittleEight(t, c, buf, p, start);
      p, len := p + 32, len - 32;
    }
    while len >= 4
      invariant p + len == |buf| && c == Register(start, buf[..p])
    {
      RegisterWord(start, buf, p);
      c := DoLit4(t, c, LoadLittle(buf, p));
      p, len := p + 4, len - 4;
    }
    while len != 0
      invariant p + len == |buf| && c == Register(start, buf[..p])
    {
      RegisterNext(start, buf, p);
      c := Do1(t, c, buf[p]);
      p, len := p + 1, len - 1;
    }
    assert buf[..p] == buf;
    r := Xor32(c, ONES);
  }

  /** The byte step of `crc32_big`, on the byte-swapped register. */
  function DoBig1(t: array2<U32>, c: U32, b: Byte): (r: U32)
    requires Ready(t)
    reads t
    ensures r == Swap(Bits(8, Xor32(Swap(c), b)))
  {
    var l := Swap(c);
    BigByteStep(c, b);
    XorByte(c / 0x100_0000, b);
    Xor32(t[4, Xor(c / 0x100_0000, b)], 0x100 * c % WORD)
  }

  lemma {:induction false} BigByteStep(c: U32, b: Byte)
    ensures Xor(c / 0x100_0000, b) < 0x100
    ensures Swap(Bits(8, Xor32(Swap(c), b))) == Xor32(Swap(Bits(8, Xor(c / 0x100_0000, b))), 0x100 * c % WORD)
  {
    var l := Swap(c);
    SwapTop(c);
    XorByte(c / 0x100_0000, b);
    hide Xor, Bits, Swap;
    LowByteOfXor(l, b);
    TableStep(Xor32(l, b));
    SwapXor(Bits(8, Xor(l % 0x100, b)), l / 0x100);
  }

  lemma ShiftedWord(b0: Byte, b1: Byte, b2: Byte, b3: Byte)
    ensures Word(b0, b1, b2, b3) / 0x100 == Word(b1, b2, b3, 0)
  {
  }

  lemma TopDropped(b0: Byte, b1: Byte, b2: Byte, b3: Byte)
    ensures 0x100 * Word(b0, b1, b2, b3) % WORD == Word(0, b0, b1, b2)
  {
    assert 0x100 * Word(b0, b1, b2, b3) == Word(0, b0, b1, b2) + WORD * b3;
  }

  lemma {:induction false} SwapTop(c: U32)
    ensures Swap(c) % 0x100 == c / 0x100_0000 && Swap(Swap(c) / 0x100) == 0x100 * c % WORD
  {
    var (c0, c1, c2, c3) := (c % 0x100, c / 0x100 % 0x100, c / 0x1_0000 % 0x100, c / 0x100_0000);
    WordParts(c);
    WordBytes(c3, c2, c1, c0);
    ShiftedWord(c3, c2, c1, c0);
    SwapWord(c2, c1, c0, 0);
    hide Swap;
    TopDropped(c0, c1, c2, c3);
  }

  /** `DOBIG4`. */
  function DoBig4(t: array2<U32>, c: U32, word: U32): (r: U32)
    requires Ready(t)
    reads t
    ensures r == Swap(Bits(32, Xor32(Swap(c), Swap(word))))
  {
    var d := Xor32(c, word);
    BigWordStep(c, word);
    Xor32(Xor32(Xor32(t[4, d % 0x100], t[5, d / 0x100 % 0x100]), t[6, d / 0x1_0000 % 0x100]), t[7, d / 0x100_0000])
  }

  lemma {:induction false} BigWordStep(c: U32, word: U32)
    ensures
      var d := Xor32(c, word);
      Swap(Bits(32, Xor32(Swap(c), Swap(word))))
      == Xor32(Xor32(Xor32(Swap(Bits(8, d % 0x100)), Swap(Bits(16, d / 0x100 % 0x100))), Swap(Bits(24, d / 0x1_0000 % 0x100))),
               Swap(Bits(32, d / 0x100_0000)))
  {
    var d := Xor32(c, word);
    var e := Swap(d);
    SwapParts(d);
    hide Xor, Bits, Swap;
    SwapXor(c, word);
    WordStep(e);
    var (p, q, r, s) := (Bits(32, e % 0x100), Bits(24, e / 0x100 % 0x100), Bits(16, e / 0x1_0000 % 0x100), Bits(8, e / 0x100_0000));
    SwapXor(Xor32(Xor32(p, q), r), s);
    SwapXor(Xor32(p, q), r);
    SwapXor(p, q);
    ReverseSum(Swap(p), Swap(q), Swap(r), Swap(s));
  }

  lemma {:induction false} SwapParts(d: U32)
    ensures
      var e := Swap(d);
      && e % 0x100 == d / 0x100_0000 && e / 0x100 % 0x100 == d / 0x1_0000 % 0x100
      && e / 0x1_0000 % 0x100 == d / 0x100 % 0x100 && e / 0x100_0000 == d % 0x100
  {
    WordBytes(d / 0x100_0000, d / 0x1_0000 % 0x100, d / 0x100 % 0x100, d % 0x100);
  }

  lemma {:induction false} ReverseSum(p: U32, q: U32, r: U32, s: U32)
    ensures Xor32(Xor32(Xor32(p, q), r), s) == Xor32(Xor32(Xor32(s, r), q), p)
  {
    hide Xor;
    XorCommutes(p, q);
    XorCommutes(Xor(q, p), r);
    XorAssociates(r, q, p);
    XorCommutes(Xor(Xor(r, q), p), s);
    XorAssociates(s, Xor(r, q), p);
    XorAssociates(s, r, q);
  }

  /** `DOBIG32`: eight words. */
  method BigEight(t: array2<U32>, c: U32, buf: seq<Byte>, p: nat, ghost start: U32) returns (c': U32)
    requires Ready(t) && p + 32 <= |buf| && c == Swap(Register(start, buf[..p]))
    ensures c' == Swap(Register(start, buf[..p + 32]))
  {
    hide Xor, Bits, Swap, Word;
    c' := c;
    for i := 0 to 8
      invariant c' == Swap(Register(start, buf[..p + 4 * i]))
    {
      BigWordNext(start, buf, p + 4 * i);
      c' := DoBig4(t, c', LoadBig(buf, p + 4 * i));
    }
  }

  /** `crc32_big`: the register is kept byte-swapped throughout. */
  method Crc32Big(t: array2<U32>, crc: U32, buf: seq<Byte>, address: nat) returns (r: U32)
    requires Ready(t)
    ensures r == Crc(crc, buf)
  {
    hide Xor, Bits, Swap, Word;
    ghost var start := Xor32(crc, ONES);
    SwapXor(crc, ONES);
    SwapOnes();
    var c := Xor32(Swap(crc), ONES);
    var p: nat, len: nat := 0, |buf|;
    while len != 0 && (address + p) % 4 != 0
      invariant p + len == |buf| && c == Swap(Register(start, buf[..p]))
    {
      RegisterNext(start, buf, p);
      SwapSwap(Register(start, buf[..p]));
      c := DoBig1(t, c, buf[p]);
      p, len := p + 1, len - 1;
    }
    while len >= 32
      invariant p + len == |buf| && c == Swap(Register(start, buf[..p]))
    {
      c := BigEight(t, c, buf, p, start);
      p, len := p + 32, len - 32;
    }
    while len >= 4
      invariant p + len == |buf| && c == Swap(Register(start, buf[..p]))
    {
      BigWordNext(start, buf, p);
      c := DoBig4(t, c, LoadBig(buf, p));
      p, len := p + 4, len - 4;
    }
    while len != 0
      invariant p + len == |buf| && c == Swap(Register(start, buf[..p]))
    {
      RegisterNext(start, buf, p);
      SwapSwap(Register(start, buf[..p]));
      c := DoBig1(t, c, buf[p]);
      p, len := p + 1, len - 1;
    }
    assert buf[..p] == buf;
    SwapXor(c, ONES);
    SwapSwap(Register(start, buf));
    r := Swap(Xor32(c, ONES));
  }

  lemma {:induction false} BigWordNext(start: U32, buf: seq<Byte>, p: nat)
    requires p + 4 <= |buf|
    ensures Register(start, buf[..p + 4])
         == Bits(32, Xor32(Swap(Swap(Register(start, buf[..p]))), Swap(LoadBig(buf, p))))
  {
    hide Xor, Bits, Swap;
    RegisterWord(start, buf, p);
    SwapSwap(Register(start, buf[..p]));
    SwapWord(buf[p + 3], buf[p + 2], buf[p + 1], buf[p]);
  }
}
