/**
  Unsigned machine words as natural numbers, with exclusive or.

  A shift right by k is a division by 2^k, a shift left a multiplication followed by a
  remainder, and a mask of the low k bits a remainder.  Exclusive or is defined bit by bit;
  what the checksums need is that it is an abelian group and works on bits, bytes and words alike.
 */
module Words {

  const BYTE: nat := 0x100
  const WORD: nat := 0x1_0000_0000

  type Byte = x: nat | x < 0x100

  type U32 = x: nat | x < 0x1_0000_0000

  /** A buffer argument, which may be a null pointer. */
  datatype Buffer = Null | Bytes(bytes: seq<Byte>)

  function Pow2(n: nat): (r: nat)
    ensures r > 0
  {
    if n == 0 then 1 else 2 * Pow2(n - 1)
  }

  lemma {:induction false} Pow2Values()
    ensures Pow2(8) == 0x100 && Pow2(16) == 0x1_0000 && Pow2(32) == 0x1_0000_0000
  {
    assert Pow2(4) == 16;
    Pow2Add(4, 4);
    assert Pow2(8) == 16 * 16;
    Pow2Add(8, 8);
    assert Pow2(16) == 0x100 * 0x100;
    Pow2Add(16, 16);
    assert Pow2(32) == 0x1_0000 * 0x1_0000;
  }

  lemma {:induction false} Pow2Add(m: nat, n: nat)
    ensures Pow2(m + n) == Pow2(m) * Pow2(n)
  {
    if m > 0 {
      Pow2Add(m - 1, n);
    }
  }

  function Xor(a: nat, b: nat): nat
    decreases a
  {
    if a == 0 then b else if b == 0 then a else (a + b) % 2 + 2 * Xor(a / 2, b / 2)
  }

  lemma {:induction false} XorStep(a: nat, b: nat)
    ensures Xor(a, b) == (a + b) % 2 + 2 * Xor(a / 2, b / 2)
    ensures Xor(a, b) % 2 == (a + b) % 2 && Xor(a, b) / 2 == Xor(a / 2, b / 2)
  {
    if a == 0 || b == 0 {
      assert Xor(a / 2, b / 2) == (a + b) / 2;
    }
    hide Xor;
    LowBit((a + b) % 2, Xor(a / 2, b / 2));
  }

  lemma LowBit(r: nat, x: nat)
    requires r < 2
    ensures (r + 2 * x) % 2 == r && (r + 2 * x) / 2 == x
  {
  }

  lemma {:induction false} XorCommutes(a: nat, b: nat)
    ensures Xor(a, b) == Xor(b, a)
    decreases a
  {
    if a > 0 {
      XorCommutes(a / 2, b / 2);
      XorStep(a, b);
      XorStep(b, a);
    }
  }

  lemma {:induction false} XorAssociates(a: nat, b: nat, c: nat)
    ensures Xor(Xor(a, b), c) == Xor(a, Xor(b, c))
    decreases a + b + c
  {
    if a > 0 && b > 0 && c > 0 {
      var (x, y) := (Xor(a, b), Xor(b, c));
      XorAssociates(a / 2, b / 2, c / 2);
      XorStep(a, b);
      XorStep(b, c);
      XorStep(x, c);
      XorStep(a, y);
      Parity(x, a + b, c);
      Parity(y, b + c, a);
    }
  }

  lemma Parity(x: nat, s: nat, c: nat)
    requires x % 2 == s % 2
    ensures (x + c) % 2 == (s + c) % 2
  {
  }

  lemma {:induction false} XorSelf(a: nat)
    ensures Xor(a, a) == 0
  {
    if a > 0 {
      XorSelf(a / 2);
    }
  }

  /** Regroups a sum of four terms. */
  lemma {:induction false} XorMiddle(a: nat, b: nat, c: nat, d: nat)
    ensures Xor(Xor(a, b), Xor(c, d)) == Xor(Xor(a, c), Xor(b, d))
  {
    hide Xor;
    XorAssociates(a, b, Xor(c, d));
    XorAssociates(b, c, d);
    XorCommutes(b, c);
    XorAssociates(c, b, d);
    XorAssociates(a, c, Xor(b, d));
  }

  /** Adding the same term twice cancels. */
  lemma {:induction false} XorCancel(a: nat, b: nat)
    ensures Xor(Xor(a, b), b) == a && Xor(b, Xor(b, a)) == a && Xor(0, a) == a && Xor(a, 0) == a
  {
    XorAssociates(a, b, b);
    XorAssociates(b, b, a);
    XorSelf(b);
    XorCommutes(0, a);
  }

  lemma {:induction false} XorBound(k: nat, a: nat, b: nat)
    requires a < Pow2(k) && b < Pow2(k)
    ensures Xor(a, b) < Pow2(k)
  {
    if k > 0 {
      XorBound(k - 1, a / 2, b / 2);
      XorStep(a, b);
    }
  }

  lemma {:induction false} XorU32(a: U32, b: U32)
    ensures Xor(a, b) < WORD
  {
    Pow2Values();
    XorBound(32, a, b);
  }

  lemma {:induction false} XorByte(a: Byte, b: Byte)
    ensures Xor(a, b) < BYTE
  {
    Pow2Values();
    XorBound(8, a, b);
  }

  lemma Halves(a: nat, b: nat)
    ensures (a + 2 * b) / 2 == a / 2 + b
  {
  }

  lemma SumParity(a: nat, b: nat, c: nat, d: nat)
    ensures (a + 2 * b + (c + 2 * d)) % 2 == (a + c) % 2
  {
  }

  lemma {:induction false} XorPartsStep(a: nat, b: nat, c: nat, d: nat, high: nat)
    requires Xor(a / 2 + b, c / 2 + d) == Xor(a / 2, c / 2) + high
    ensures Xor(a + 2 * b, c + 2 * d) == Xor(a, c) + 2 * high
  {
    hide Xor;
    Halves(a, b);
    Halves(c, d);
    SumParity(a, b, c, d);
    XorStep(a, c);
    XorStep(a + 2 * b, c + 2 * d);
  }

  /** A product, to be hidden. */
  function Times(p: nat, b: nat): nat {
    p * b
  }

  lemma Double(p: nat, q: nat, b: nat)
    requires q == 2 * p
    ensures Times(q, b) == 2 * Times(p, b)
  {
  }

  lemma One(b: nat)
    ensures Times(1, b) == b
  {
  }

  lemma ZeroXor()
    ensures Xor(0, 0) == 0
  {
  }

  lemma {:induction false} XorPartsTimes(k: nat, q: nat, a: nat, b: nat, c: nat, d: nat)
    requires q == Pow2(k) && a < q && c < q
    ensures Xor(a + Times(q, b), c + Times(q, d)) == Xor(a, c) + Times(q, Xor(b, d))
  {
    hide Xor, Times;
    if k == 0 {
      assert q == 1 && a == 0 && c == 0;
      hide *;
      ZeroXor();
      One(b);
      One(d);
      One(Xor(b, d));
    } else {
      var p := Pow2(k - 1);
      assert q == 2 * p;
      hide *;
      XorPartsTimes(k - 1, p, a / 2, b, c / 2, d);
      Double(p, q, b);
      Double(p, q, d);
      Double(p, q, Xor(b, d));
      XorPartsStep(a, Times(p, b), c, Times(p, d), Times(p, Xor(b, d)));
    }
  }

  /** Values are added bit by bit, so their low and their high parts can be added apart. */
  lemma {:induction false} XorParts(k: nat, q: nat, a: nat, b: nat, c: nat, d: nat)
    requires q == Pow2(k) && a < q && c < q
    ensures Xor(a + q * b, c + q * d) == Xor(a, c) + q * Xor(b, d)
  {
    hide Xor, Pow2;
    XorPartsTimes(k, q, a, b, c, d);
  }

  lemma {:induction false} XorLowByte(a: Byte, b: nat, c: Byte, d: nat)
    ensures Xor(a + 0x100 * b, c + 0x100 * d) == Xor(a, c) + 0x100 * Xor(b, d)
  {
    hide Xor, Pow2;
    Pow2Values();
    XorParts(8, 0x100, a, b, c, d);
  }

  /** The word made of four bytes, the lowest first. */
  function Word(b0: Byte, b1: Byte, b2: Byte, b3: Byte): U32 {
    b0 + 0x100 * (b1 + 0x100 * (b2 + 0x100 * b3))
  }

  lemma {:induction false} XorWord(a0: Byte, a1: Byte, a2: Byte, a3: Byte, b0: Byte, b1: Byte, b2: Byte, b3: Byte)
    ensures Xor(a0, b0) < BYTE && Xor(a1, b1) < BYTE && Xor(a2, b2) < BYTE && Xor(a3, b3) < BYTE
    ensures Xor(Word(a0, a1, a2, a3), Word(b0, b1, b2, b3)) == Word(Xor(a0, b0), Xor(a1, b1), Xor(a2, b2), Xor(a3, b3))
  {
    hide Xor;
    XorBytes(a0, a1, a2, a3, b0, b1, b2, b3);
    var (a23, b23) := (a2 + 0x100 * a3, b2 + 0x100 * b3);
    var (a123, b123) := (a1 + 0x100 * a23, b1 + 0x100 * b23);
    XorLowByte(a2, a3, b2, b3);
    XorLowByte(a1, a23, b1, b23);
    XorLowByte(a0, a123, b0, b123);
  }

  lemma {:induction false} XorBytes(a0: Byte, a1: Byte, a2: Byte, a3: Byte, b0: Byte, b1: Byte, b2: Byte, b3: Byte)
    ensures Xor(a0, b0) < BYTE && Xor(a1, b1) < BYTE && Xor(a2, b2) < BYTE && Xor(a3, b3) < BYTE
  {
    XorByte(a0, b0);
    XorByte(a1, b1);
    XorByte(a2, b2);
    XorByte(a3, b3);
  }

  lemma {:induction false} WordParts(c: U32)
    ensures c == Word(c % 0x100, c / 0x100 % 0x100, c / 0x1_0000 % 0x100, c / 0x100_0000)
  {
    assert c / 0x100 / 0x100 == c / 0x1_0000;
    assert c / 0x1_0000 / 0x100 == c / 0x100_0000;
  }
}
