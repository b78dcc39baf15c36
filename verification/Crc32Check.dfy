/**
  Values of the reference CRC, computed on registers of four bytes.
 */
module Crc32Check {
  import opened Words
  import opened Crc32

  /** A register as its bytes, the lowest first. */
  datatype Quad = Quad(b0: bv8, b1: bv8, b2: bv8, b3: bv8)

  function Number(x: bv8): Byte {
    x as nat
  }

  function Value(q: Quad): U32 {
    Word(Number(q.b0), Number(q.b1), Number(q.b2), Number(q.b3))
  }

  const POLYNOMIAL := Quad(0x20, 0x83, 0xb8, 0xed)

  function Plus(p: Quad, q: Quad): Quad {
    Quad(p.b0 ^ q.b0, p.b1 ^ q.b1, p.b2 ^ q.b2, p.b3 ^ q.b3)
  }

  function Halve(q: Quad): Quad {
    Quad((q.b0 >> 1) | (q.b1 << 7), (q.b1 >> 1) | (q.b2 << 7), (q.b2 >> 1) | (q.b3 << 7), q.b3 >> 1)
  }

  function Shift(q: Quad): Quad {
    if q.b0 & 1 == 1 then Plus(POLYNOMIAL, Halve(q)) else Halve(q)
  }

  /** The register after a byte. */
  function Arrive(q: Quad, b: bv8): Quad {
    Shift(Shift(Shift(Shift(Shift(Shift(Shift(Shift(q.(b0 := q.b0 ^ b)))))))))
  }

  lemma HalfByte(x: bv8)
    ensures Number(x) / 2 == Number(x >> 1) && Number(x) % 2 == Number(x & 1)
    ensures Number(x) == 2 * Number(x >> 1) + Number(x & 1) && (Number(x) == 0 <==> x == 0)
  {
  }

  lemma HalfXor(x: bv8, y: bv8)
    ensures (x ^ y) >> 1 == (x >> 1) ^ (y >> 1) && Number((x ^ y) & 1) == (Number(x & 1) + Number(y & 1)) % 2
    ensures x == 0 ==> x ^ y == y
  {
  }

  lemma {:induction false} XorNumbers(x: bv8, y: bv8)
    ensures Xor(Number(x), Number(y)) == Number(x ^ y)
    decreases Number(x)
  {
    hide Xor, Number;
    HalfByte(x);
    HalfByte(y);
    HalfByte(x ^ y);
    HalfXor(x, y);
    if x == 0 {
      XorZero(Number(y));
    } else {
      SumParity(Number(x >> 1), Number(x & 1), Number(y >> 1), Number(y & 1));
      XorNumbers(x >> 1, y >> 1);
      XorStep(Number(x), Number(y));
    }
  }

  lemma SumParity(a: nat, b: nat, c: nat, d: nat)
    ensures (2 * a + b + (2 * c + d)) % 2 == (b + d) % 2
  {
  }

  lemma PlusIs(p: Quad, q: Quad)
    ensures Xor(Value(p), Value(q)) == Value(Plus(p, q))
  {
    hide Xor, Number, Word;
    XorWord(Number(p.b0), Number(p.b1), Number(p.b2), Number(p.b3), Number(q.b0), Number(q.b1), Number(q.b2), Number(q.b3));
    XorNumbers(p.b0, q.b0);
    XorNumbers(p.b1, q.b1);
    XorNumbers(p.b2, q.b2);
    XorNumbers(p.b3, q.b3);
  }

  lemma Borrow(x: bv8, y: bv8)
    ensures Number((x >> 1) | (y << 7)) == Number(x >> 1) + 128 * Number(y & 1)
  {
  }

  lemma HalveIs(q: Quad)
    ensures Value(q) / 2 == Value(Halve(q)) && Value(q) % 2 == Number(q.b0 & 1)
  {
    hide Number, Word;
    HalfByte(q.b0);
    HalfByte(q.b1);
    HalfByte(q.b2);
    HalfByte(q.b3);
    Borrow(q.b0, q.b1);
    Borrow(q.b1, q.b2);
    Borrow(q.b2, q.b3);
    HalfWord(Number(q.b0 >> 1), Number(q.b0 & 1), Number(q.b1 >> 1), Number(q.b1 & 1), Number(q.b2 >> 1), Number(q.b2 & 1),
             Number(q.b3 >> 1), Number(q.b3 & 1));
  }

  /** Half of a word, from the halves of its bytes and their low bits. */
  lemma HalfWord(h0: nat, l0: nat, h1: nat, l1: nat, h2: nat, l2: nat, h3: nat, l3: nat)
    requires h0 < 128 && h1 < 128 && h2 < 128 && h3 < 128 && l0 < 2 && l1 < 2 && l2 < 2 && l3 < 2
    ensures
      var w := Word(2 * h0 + l0, 2 * h1 + l1, 2 * h2 + l2, 2 * h3 + l3);
      w / 2 == Word(h0 + 128 * l1, h1 + 128 * l2, h2 + 128 * l3, h3) && w % 2 == l0
  {
    var w := Word(2 * h0 + l0, 2 * h1 + l1, 2 * h2 + l2, 2 * h3 + l3);
    assert w == 2 * Word(h0 + 128 * l1, h1 + 128 * l2, h2 + 128 * l3, h3) + l0;
  }

  lemma PolynomialIs()
    ensures Value(POLYNOMIAL) == POLY
  {
  }

  lemma LowBit(x: bv8)
    ensures x & 1 == 1 <==> Number(x & 1) == 1
  {
  }

  lemma ShiftIs(q: Quad)
    ensures Bit(Value(q)) == Value(Shift(q))
  {
    hide Xor, Halve, Plus, Value, Number;
    HalveIs(q);
    PlusIs(POLYNOMIAL, Halve(q));
    PolynomialIs();
    LowBit(q.b0);
  }

  lemma {:induction false} ShiftsIs(n: nat, q: Quad)
    ensures Bits(n + 1, Value(q)) == Bits(n, Value(Shift(q)))
  {
    ShiftIs(q);
    hide Bit, Shift, Value;
  }

  lemma Added(q: Quad, b: bv8)
    ensures Xor(Value(q), Number(b)) == Value(q.(b0 := q.b0 ^ b))
  {
    hide Xor, Number;
    XorNumbers(q.b0, b);
    XorLowByte(Number(q.b0), Word(Number(q.b1), Number(q.b2), Number(q.b3), 0), Number(b), 0);
    XorCancel(Word(Number(q.b1), Number(q.b2), Number(q.b3), 0), 0);
  }

  lemma ArriveIs(q: Quad, b: bv8)
    ensures Bits(8, Xor32(Value(q), Number(b))) == Value(Arrive(q, b))
  {
    var p := q.(b0 := q.b0 ^ b);
    Added(q, b);
    hide Xor, Bit, Bits, Shift, Value, Number;
    ShiftsIs(7, p);
    ShiftsIs(6, Shift(p));
    ShiftsIs(5, Shift(Shift(p)));
    ShiftsIs(4, Shift(Shift(Shift(p))));
    ShiftsIs(3, Shift(Shift(Shift(Shift(p)))));
    ShiftsIs(2, Shift(Shift(Shift(Shift(Shift(p))))));
    ShiftsIs(1, Shift(Shift(Shift(Shift(Shift(Shift(p)))))));
    ShiftsIs(0, Shift(Shift(Shift(Shift(Shift(Shift(Shift(p))))))));
    NoBits(Value(Arrive(q, b)));
  }

  lemma NoBits(c: U32)
    ensures Bits(0, c) == c
  {
  }

  lemma Next(s: seq<Byte>, q: Quad, b: bv8)
    requires Register(ONES, s) == Value(q)
    ensures Register(ONES, s + [Number(b)]) == Value(Arrive(q, b))
  {
    hide Bits, Xor, Value, Number, Arrive, Register;
    RegisterAppend(ONES, s, [Number(b)]);
    RegisterOne(Value(q), Number(b));
    ArriveIs(q, b);
  }

  /** The digits from 1 to 9. */
  function Digits(n: nat): (s: seq<Byte>)
    requires n <= 9
  {
    if n == 0 then [] else Digits(n - 1) + [0x30 + n]
  }

  lemma DigitStep(n: nat, q: Quad, b: bv8, r: Quad)
    requires n < 9 && Register(ONES, Digits(n)) == Value(q) && r == Arrive(q, b) && Number(b) == 0x31 + n
    ensures Register(ONES, Digits(n + 1)) == Value(r)
  {
    hide Bits, Xor, Value, Number, Arrive, Register;
    Next(Digits(n), q, b);
  }

  lemma Arrivals1()
    ensures Arrive(Quad(0xff, 0xff, 0xff, 0xff), 0x31) == Quad(0x48, 0x10, 0x23, 0x7c)
    ensures Arrive(Quad(0x48, 0x10, 0x23, 0x7c), 0x32) == Quad(0x32, 0xbb, 0xac, 0xb0)
    ensures Arrive(Quad(0x32, 0xbb, 0xac, 0xb0), 0x33) == Quad(0x2d, 0x9c, 0xb7, 0x77)
  {
  }

  lemma Arrivals2()
    ensures Arrive(Quad(0x2d, 0x9c, 0xb7, 0x77), 0x34) == Quad(0x5c, 0x1f, 0x1c, 0x64)
    ensures Arrive(Quad(0x5c, 0x1f, 0x1c, 0x64), 0x35) == Quad(0xe3, 0xc5, 0x0a, 0x34)
    ensures Arrive(Quad(0xe3, 0xc5, 0x0a, 0x34), 0x36) == Quad(0x9e, 0x2c, 0x8d, 0xf6)
  {
  }

  lemma Arrivals3()
    ensures Arrive(Quad(0x9e, 0x2c, 0x8d, 0xf6), 0x37) == Quad(0x60, 0x96, 0xfc, 0xaf)
    ensures Arrive(Quad(0x60, 0x96, 0xfc, 0xaf), 0x38) == Quad(0x50, 0x25, 0x1f, 0x65)
    ensures Arrive(Quad(0x50, 0x25, 0x1f, 0x65), 0x39) == Quad(0xd9, 0xc6, 0x0b, 0x34)
  {
  }

  /** The check value of the CRC: that of the digits from 1 to 9. */
  lemma CheckValue()
    ensures Crc(0, [0x31, 0x32, 0x33, 0x34, 0x35, 0x36, 0x37, 0x38, 0x39]) == 0xcbf4_3926
  {
    StartIs();
    hide Arrive, Shift, Value, Register, Number, Xor, Digits;
    DigitNumbers();
    Arrivals1();
    Arrivals2();
    Arrivals3();
    DigitStep(0, Quad(0xff, 0xff, 0xff, 0xff), 0x31, Quad(0x48, 0x10, 0x23, 0x7c));
    DigitStep(1, Quad(0x48, 0x10, 0x23, 0x7c), 0x32, Quad(0x32, 0xbb, 0xac, 0xb0));
    DigitStep(2, Quad(0x32, 0xbb, 0xac, 0xb0), 0x33, Quad(0x2d, 0x9c, 0xb7, 0x77));
    DigitStep(3, Quad(0x2d, 0x9c, 0xb7, 0x77), 0x34, Quad(0x5c, 0x1f, 0x1c, 0x64));
    DigitStep(4, Quad(0x5c, 0x1f, 0x1c, 0x64), 0x35, Quad(0xe3, 0xc5, 0x0a, 0x34));
    DigitStep(5, Quad(0xe3, 0xc5, 0x0a, 0x34), 0x36, Quad(0x9e, 0x2c, 0x8d, 0xf6));
    DigitStep(6, Quad(0x9e, 0x2c, 0x8d, 0xf6), 0x37, Quad(0x60, 0x96, 0xfc, 0xaf));
    DigitStep(7, Quad(0x60, 0x96, 0xfc, 0xaf), 0x38, Quad(0x50, 0x25, 0x1f, 0x65));
    DigitStep(8, Quad(0x50, 0x25, 0x1f, 0x65), 0x39, Quad(0xd9, 0xc6, 0x0b, 0x34));
    Complemented(Quad(0xd9, 0xc6, 0x0b, 0x34), Quad(0x26, 0x39, 0xf4, 0xcb));
    XorZero(ONES);
    NineDigits();
    CheckIs();
  }

  lemma DigitNumbers()
    ensures Number(0x31) == 0x31 && Number(0x32) == 0x32 && Number(0x33) == 0x33 && Number(0x34) == 0x34
    ensures Number(0x35) == 0x35 && Number(0x36) == 0x36 && Number(0x37) == 0x37 && Number(0x38) == 0x38 && Number(0x39) == 0x39
  {
  }

  lemma StartIs()
    ensures Value(Quad(0xff, 0xff, 0xff, 0xff)) == ONES && Register(ONES, Digits(0)) == ONES
  {
  }

  lemma CheckIs()
    ensures Value(Quad(0x26, 0x39, 0xf4, 0xcb)) == 0xcbf4_3926
  {
  }

  lemma NineDigits()
    ensures Digits(9) == [0x31, 0x32, 0x33, 0x34, 0x35, 0x36, 0x37, 0x38, 0x39]
  {
  }

  lemma Complemented(q: Quad, r: Quad)
    requires r == Plus(q, Quad(0xff, 0xff, 0xff, 0xff))
    ensures Xor(Value(q), ONES) == Value(r)
  {
    PlusIs(q, Quad(0xff, 0xff, 0xff, 0xff));
    assert Value(Quad(0xff, 0xff, 0xff, 0xff)) == ONES;
  }

  /** Because of the complement before the message, a zero byte in front of it is detected too. */
  lemma {:induction false} DetectsLeadingZero(s: seq<Byte>)
    ensures Crc(0, [0] + s) != Crc(0, s)
  {
    var ones := Quad(0xff, 0xff, 0xff, 0xff);
    assert Value(ones) == ONES;
    ArriveIs(ones, 0);
    assert Arrive(ones, 0) == Quad(0x72, 0x10, 0xfd, 0x2d);
    assert Value(Arrive(ones, 0)) != ONES;
    hide Xor, Bits, Register, Arrive, Value;
    XorZero(ONES);
    RegisterOne(ONES, 0);
    RegisterAppend(ONES, [0], s);
    RegisterInjective(Register(ONES, [0]), ONES, s);
    AddedInjective(Register(ONES, [0] + s), Register(ONES, s), ONES);
  }
}
