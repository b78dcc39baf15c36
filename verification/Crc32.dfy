/**
  lib/zlib/crc32.c: the reference CRC-32 and the algebra the fast forms rest on.

  The reference is the shift register of section 8 of RFC 1952: a message byte is added to the
  low end of the register, which is then shifted right eight times, adding the polynomial
  whenever a one bit falls out.
 */
module Crc32 {
  import opened Words

  /** x^26 + x^23 + ... + 1, the lowest power in the most significant bit. */
  const POLY: U32 := 0xedb8_8320

  const ONES: U32 := 0xffff_ffff

  function Bit(c: U32): (r: U32) {
    if c % 2 == 1 then XorU32(POLY, c / 2); Xor(POLY, c / 2) else c / 2
  }

  /** The register after `n` zero bits. */
  function Bits(n: nat, c: U32): U32 {
    if n == 0 then c else Bits(n - 1, Bit(c))
  }

  function Xor32(a: U32, b: U32): (r: U32)
    ensures r == Xor(a, b)
  {
    XorU32(a, b);
    Xor(a, b)
  }

  /** The register after the bytes of `s`. */
  function Register(c: U32, s: seq<Byte>): U32 {
    if s == [] then c else Bits(8, Xor32(Register(c, s[..|s| - 1]), s[|s| - 1]))
  }

  /** The CRC of `s` continuing from `crc`: the register is complemented before and after. */
  function Crc(crc: U32, s: seq<Byte>): U32 {
    Xor32(Register(Xor32(crc, ONES), s), ONES)
  }

  // ---------- Shifting zeros is linear ----------

  lemma {:induction false} BitLinear(a: U32, b: U32)
    ensures Bit(Xor32(a, b)) == Xor32(Bit(a), Bit(b))
  {
    hide Xor;
    var (x, y) := (a / 2, b / 2);
    XorStep(a, b);
    if a % 2 == 1 && b % 2 == 1 {
      XorMiddle(POLY, x, POLY, y);
      XorSelf(POLY);
      XorCancel(Xor(x, y), 0);
      assert Bit(Xor32(a, b)) == Xor(x, y);
    } else if a % 2 == 1 {
      XorAssociates(POLY, x, y);
      assert Bit(Xor32(a, b)) == Xor(POLY, Xor(x, y));
    } else if b % 2 == 1 {
      XorAssociates(x, POLY, y);
      XorCommutes(x, POLY);
      XorAssociates(POLY, x, y);
      assert Bit(Xor32(a, b)) == Xor(POLY, Xor(x, y));
    } else {
      assert Bit(Xor32(a, b)) == Xor(x, y);
    }
  }

  lemma {:induction false} BitsLinear(n: nat, a: U32, b: U32)
    ensures Bits(n, Xor32(a, b)) == Xor32(Bits(n, a), Bits(n, b))
  {
    hide Xor, Bit;
    if n > 0 {
      BitLinear(a, b);
      BitsLinear(n - 1, Bit(a), Bit(b));
    }
  }

  lemma {:induction false} BitsAdd(m: nat, n: nat, c: U32)
    ensures Bits(m + n, c) == Bits(n, Bits(m, c))
  {
    hide Bit;
    if m > 0 {
      BitsAdd(m - 1, n, Bit(c));
    }
  }

  lemma {:induction false} BitsZero(n: nat)
    ensures Bits(n, 0) == 0
  {
    if n > 0 {
      BitsZero(n - 1);
    }
  }

  // ---------- Bytes ----------

  lemma {:induction false} Even1(k: nat)
    requires 2 * k < WORD
    ensures Bit(2 * k) == k
  {
    hide Xor;
  }

  lemma {:induction false} Even2(k: nat)
    requires 4 * k < WORD
    ensures Bits(2, 4 * k) == k
  {
    hide Bit;
    Even1(2 * k);
    Even1(k);
    assert Bits(2, 4 * k) == Bits(1, 2 * k) == Bits(0, k);
  }

  lemma {:induction false} Even4(k: nat)
    requires 16 * k < WORD
    ensures Bits(4, 16 * k) == k
  {
    hide Bit, Bits;
    Even2(4 * k);
    Even2(k);
    BitsAdd(2, 2, 16 * k);
  }

  /** A clear low byte is simply shifted out. */
  lemma {:induction false} Even8(k: nat)
    requires 0x100 * k < WORD
    ensures Bits(8, 0x100 * k) == k
  {
    hide Bit, Bits;
    Even4(16 * k);
    Even4(k);
    BitsAdd(4, 4, 0x100 * k);
  }

  /** The table step: the low byte selects what it contributes, the rest moves down. */
  lemma {:induction false} TableStep(c: U32)
    ensures Bits(8, c) == Xor32(Bits(8, c % 0x100), c / 0x100)
  {
    hide Xor, Bits, Bit;
    var (low, high) := (c % 0x100, c / 0x100);
    assert c == low + 0x100 * high;
    XorLowByte(low, 0, 0, high);
    XorCancel(low, 0);
    XorCancel(high, 0);
    BitsLinear(8, low, 0x100 * high);
    Even8(high);
  }

  lemma {:induction false} Peel(n: nat, c: U32)
    ensures Bits(8 + n, c) == Xor32(Bits(8 + n, c % 0x100), Bits(n, c / 0x100))
  {
    hide Xor, Bits, Bit;
    TableStep(c);
    BitsAdd(8, n, c);
    BitsAdd(8, n, c % 0x100);
    BitsLinear(n, Bits(8, c % 0x100), c / 0x100);
  }

  /** A whole word in one step: four table entries. */
  lemma {:induction false} WordStep(c: U32)
    ensures
      Bits(32, c) == Xor32(Xor32(Xor32(Bits(32, c % 0x100), Bits(24, c / 0x100 % 0x100)),
                                 Bits(16, c / 0x1_0000 % 0x100)),
                           Bits(8, c / 0x100_0000))
  {
    hide Xor, Bits, Bit;
    assert c / 0x100 / 0x100 == c / 0x1_0000 && c / 0x1_0000 / 0x100 == c / 0x100_0000;
    Peel(24, c);
    Peel(16, c / 0x100);
    Peel(8, c / 0x1_0000);
    var (p, q, r, s) := (Bits(32, c % 0x100), Bits(24, c / 0x100 % 0x100), Bits(16, c / 0x1_0000 % 0x100), Bits(8, c / 0x100_0000));
    XorAssociates(q, r, s);
    XorAssociates(p, Xor(q, r), s);
    XorAssociates(p, q, r);
  }

  /** A byte that still has 8, 16 or 24 bits to go arrives at the low end after as many steps. */
  lemma {:induction false} ByteArrives(b: Byte)
    ensures Bits(8, 0x100 * b) == b && Bits(16, 0x1_0000 * b) == b && Bits(24, 0x100_0000 * b) == b
  {
    hide Bits, Bit;
    Even8(b);
    Even8(0x100 * b);
    Even8(0x1_0000 * b);
    BitsAdd(8, 8, 0x1_0000 * b);
    BitsAdd(8, 16, 0x100_0000 * b);
  }

  lemma {:induction false} WordSum(b0: Byte, b1: Byte, b2: Byte, b3: Byte)
    ensures Word(b0, b1, b2, b3) == Xor32(Xor32(Xor32(b0, 0x100 * b1), 0x1_0000 * b2), 0x100_0000 * b3)
  {
    hide Xor;
    XorCancel(b0, 0);
    XorCancel(b1, 0);
    XorCancel(b2, 0);
    XorCancel(b3, 0);
    XorWord(b0, 0, 0, 0, 0, b1, 0, 0);
    XorWord(b0, b1, 0, 0, 0, 0, b2, 0);
    XorWord(b0, b1, b2, 0, 0, 0, 0, b3);
    XorCancel(0, 0);
  }

  /** Adding four bytes as one word and shifting 32 bits is adding them one at a time. */
  lemma {:induction false} WordAbsorb(c: U32, b0: Byte, b1: Byte, b2: Byte, b3: Byte)
    ensures Bits(32, Xor32(c, Word(b0, b1, b2, b3))) == Register(c, [b0, b1, b2, b3])
  {
    RegisterFour(c, b0, b1, b2, b3);
    hide Xor, Bits, Bit;
    ByteArrives(b1);
    ByteArrives(b2);
    ByteArrives(b3);
    var (s1, s2, s3) := (0x100 * b1, 0x1_0000 * b2, 0x100_0000 * b3);
    var r0 := Xor32(c, b0);
    var r1 := Xor32(r0, s1);
    var r2 := Xor32(r1, s2);
    var r3 := Xor32(r2, s3);
    BitsLinear(8, r0, s1);
    BitsAdd(8, 8, r1);
    BitsLinear(16, r1, s2);
    BitsAdd(16, 8, r2);
    BitsLinear(24, r2, s3);
    BitsAdd(24, 8, r3);
    WordSum(b0, b1, b2, b3);
    XorAssociates(c, b0, s1);
    XorAssociates(c, Xor(b0, s1), s2);
    XorAssociates(c, Xor(Xor(b0, s1), s2), s3);
  }

  lemma {:induction false} RegisterAppend(c: U32, s: seq<Byte>, t: seq<Byte>)
    ensures Register(c, s + t) == Register(Register(c, s), t)
  {
    hide Bits;
    if t == [] {
      assert s + t == s;
    } else {
      RegisterAppend(c, s, t[..|t| - 1]);
      assert (s + t)[..|s + t| - 1] == s + t[..|t| - 1];
    }
  }

  lemma {:induction false} RegisterFour(c: U32, b0: Byte, b1: Byte, b2: Byte, b3: Byte)
    ensures Register(c, [b0, b1, b2, b3])
         == Bits(8, Xor32(Bits(8, Xor32(Bits(8, Xor32(Bits(8, Xor32(c, b0)), b1)), b2)), b3))
  {
    hide Bits;
    RegisterAppend(c, [b0, b1, b2], [b3]);
    RegisterAppend(c, [b0, b1], [b2]);
    RegisterAppend(c, [b0], [b1]);
    assert [b0, b1, b2] + [b3] == [b0, b1, b2, b3] && [b0, b1] + [b2] == [b0, b1, b2] && [b0] + [b1] == [b0, b1];
    RegisterOne(c, b0);
    RegisterOne(Register(c, [b0]), b1);
    RegisterOne(Register(c, [b0, b1]), b2);
    RegisterOne(Register(c, [b0, b1, b2]), b3);
  }

  lemma {:induction false} RegisterOne(c: U32, b: Byte)
    ensures Register(c, [b]) == Bits(8, Xor32(c, b))
  {
    hide Bits;
    assert [b][..0] == [];
    assert Register(c, [b][..0]) == c;
  }

  /** The register depends on its start by a linear part, which only the length determines. */
  lemma {:induction false} RegisterSplits(a: U32, b: U32, s: seq<Byte>)
    ensures Register(Xor32(a, b), s) == Xor32(Bits(8 * |s|, a), Register(b, s))
  {
    hide Xor, Bit;
    if s != [] {
      var (init, last) := (s[..|s| - 1], s[|s| - 1]);
      RegisterSplits(a, b, init);
      XorAssociates(Bits(8 * |init|, a), Register(b, init), last);
      BitsLinear(8, Bits(8 * |init|, a), Xor32(Register(b, init), last));
      BitsAdd(8 * |init|, 8, a);
    }
  }

  /** Checksumming in two pieces is checksumming the whole. */
  lemma {:induction false} CrcAppend(crc: U32, s: seq<Byte>, t: seq<Byte>)
    ensures Crc(Crc(crc, s), t) == Crc(crc, s + t)
  {
    hide Xor, Bits;
    RegisterAppend(Xor32(crc, ONES), s, t);
    XorCancel(Register(Xor32(crc, ONES), s), ONES);
  }

  /** What `crc32_combine` computes: the first checksum moved past |t| zero bytes, plus the second. */
  lemma {:induction false} CrcCombines(crc: U32, s: seq<Byte>, t: seq<Byte>)
    ensures Xor32(Bits(8 * |t|, Crc(crc, s)), Crc(0, t)) == Crc(crc, s + t)
  {
    hide Xor, Bits;
    var a := Register(Xor32(crc, ONES), s);
    RegisterAppend(Xor32(crc, ONES), s, t);
    XorCancel(a, ONES);
    assert Xor32(Crc(crc, s), ONES) == a;
    RegisterSplits(Crc(crc, s), ONES, t);
    XorCancel(ONES, 0);
    assert Xor32(0, ONES) == ONES;
    XorAssociates(Bits(8 * |t|, Crc(crc, s)), Register(ONES, t), ONES);
  }

  // ---------- What a checksum detects ----------

  lemma BitNotZero(c: U32)
    requires c != 0
    ensures Bit(c) != 0
  {
    hide Xor;
    if c % 2 == 1 {
      XorDiffers(POLY, c / 2);
    }
  }

  lemma {:induction false} BitsNotZero(n: nat, c: U32)
    requires c != 0
    ensures Bits(n, c) != 0
  {
    hide Bit;
    if n > 0 {
      BitNotZero(c);
      BitsNotZero(n - 1, Bit(c));
    }
  }

  lemma XorDiffers(a: nat, b: nat)
    requires a != b
    ensures Xor(a, b) != 0
  {
    hide Xor;
    XorCancel(a, b);
    XorZero(b);
  }

  lemma XorZero(b: nat)
    ensures Xor(0, b) == b
  {
  }

  /** Shifting zero bits through the register loses nothing. */
  lemma {:induction false} BitsInjective(n: nat, a: U32, b: U32)
    requires a != b
    ensures Bits(n, a) != Bits(n, b)
  {
    hide Xor, Bits;
    XorDiffers(a, b);
    BitsNotZero(n, Xor32(a, b));
    BitsLinear(n, a, b);
    if Bits(n, a) == Bits(n, b) {
      XorSelf(Bits(n, a));
    }
  }

  /** Nor does a message. */
  lemma {:induction false} RegisterInjective(a: U32, b: U32, s: seq<Byte>)
    requires a != b
    ensures Register(a, s) != Register(b, s)
  {
    hide Xor, Bits;
    if s != [] {
      var (init, last) := (s[..|s| - 1], s[|s| - 1]);
      RegisterInjective(a, b, init);
      AddedInjective(Register(a, init), Register(b, init), last);
      BitsInjective(8, Xor32(Register(a, init), last), Xor32(Register(b, init), last));
    }
  }

  lemma AddedInjective(a: nat, b: nat, c: nat)
    requires a != b
    ensures Xor(a, c) != Xor(b, c) && Xor(c, a) != Xor(c, b)
  {
    hide Xor;
    XorCancel(a, c);
    XorCancel(b, c);
    XorCommutes(a, c);
    XorCommutes(b, c);
  }

  /** Any change within four consecutive bytes changes the checksum, whatever stands before and after. */
  lemma {:induction false} DetectsBurst(crc: U32, s: seq<Byte>, a: (Byte, Byte, Byte, Byte), b: (Byte, Byte, Byte, Byte),
                                        t: seq<Byte>)
    requires a != b
    ensures Crc(crc, s + [a.0, a.1, a.2, a.3] + t) != Crc(crc, s + [b.0, b.1, b.2, b.3] + t)
  {
    hide Xor, Bits, Register, Word;
    var c := Register(Xor32(crc, ONES), s);
    BurstRegister(c, a);
    BurstRegister(c, b);
    WordsDiffer(a, b);
    AddedInjective(Word(a.0, a.1, a.2, a.3), Word(b.0, b.1, b.2, b.3), c);
    BitsInjective(32, Xor32(c, Word(a.0, a.1, a.2, a.3)), Xor32(c, Word(b.0, b.1, b.2, b.3)));
    RegisterAppend(Xor32(crc, ONES), s, [a.0, a.1, a.2, a.3]);
    RegisterAppend(Xor32(crc, ONES), s, [b.0, b.1, b.2, b.3]);
    RegisterAppend(Xor32(crc, ONES), s + [a.0, a.1, a.2, a.3], t);
    RegisterAppend(Xor32(crc, ONES), s + [b.0, b.1, b.2, b.3], t);
    RegisterInjective(Register(c, [a.0, a.1, a.2, a.3]), Register(c, [b.0, b.1, b.2, b.3]), t);
    AddedInjective(Register(Xor32(crc, ONES), s + [a.0, a.1, a.2, a.3] + t),
                   Register(Xor32(crc, ONES), s + [b.0, b.1, b.2, b.3] + t), ONES);
  }

  lemma BurstRegister(c: U32, a: (Byte, Byte, Byte, Byte))
    ensures Register(c, [a.0, a.1, a.2, a.3]) == Bits(32, Xor32(c, Word(a.0, a.1, a.2, a.3)))
  {
    hide Xor, Bits, Register, Word;
    RegisterFour(c, a.0, a.1, a.2, a.3);
    WordAbsorb(c, a.0, a.1, a.2, a.3);
  }

  lemma FirstDigit(a: Byte, x: nat, b: Byte, y: nat)
    requires a + 0x100 * x == b + 0x100 * y
    ensures a == b && x == y
  {
  }

  lemma WordsDiffer(a: (Byte, Byte, Byte, Byte), b: (Byte, Byte, Byte, Byte))
    requires a != b
    ensures Word(a.0, a.1, a.2, a.3) != Word(b.0, b.1, b.2, b.3)
  {
    if Word(a.0, a.1, a.2, a.3) == Word(b.0, b.1, b.2, b.3) {
      FirstDigit(a.0, a.1 + 0x100 * (a.2 + 0x100 * a.3), b.0, b.1 + 0x100 * (b.2 + 0x100 * b.3));
      FirstDigit(a.1, a.2 + 0x100 * a.3, b.1, b.2 + 0x100 * b.3);
      FirstDigit(a.2, a.3, b.2, b.3);
    }
  }
}
