/**
  The rolling hash of lib/zlib/deflate.c (`UPDATE_HASH`), which indexes the dictionary of
  three-byte strings.
 */
module DeflateHash {
  import opened Words
  import opened Remainders

  /** `hash_bits` is `memLevel + 7`, from 8 to 16; `hash_shift` is a third of it, rounded up. */
  predicate HashBits(bits: nat) {
    8 <= bits <= 16
  }

  function HashShift(bits: nat): nat {
    (bits + 2) / 3
  }

  /** `UPDATE_HASH`: shift, add the byte, keep the low `bits` bits. */
  function Roll(bits: nat, h: nat, c: Byte): (r: nat)
    ensures r < Pow2(bits)
  {
    Xor(h * Pow2(HashShift(bits)), c) % Pow2(bits)
  }

  /** The hash of a three-byte string. */
  function Hash3(bits: nat, a: Byte, b: Byte, c: Byte): (r: nat)
    ensures r < Pow2(bits)
  {
    Roll(bits, Roll(bits, Roll(bits, 0, a), b), c)
  }

  /** The low `k` bits of a sum depend on the low `k` bits of the terms only. */
  lemma {:induction false} XorMod(k: nat, q: nat, a: nat, b: nat)
    requires q == Pow2(k)
    ensures Xor(a, b) % q == Xor(a % q, b % q)
  {
    hide Xor;
    DivMod(q, a);
    DivMod(q, b);
    XorParts(k, q, a % q, a / q, b % q, b / q);
    XorBound(k, a % q, b % q);
    ModOf(q, Xor(a, b), Xor(a % q, b % q), Xor(a / q, b / q));
  }

  lemma {:induction false} ModMod(m: nat, n: nat, x: nat)
    requires m <= n
    ensures x % Pow2(n) % Pow2(m) == x % Pow2(m)
  {
    Pow2Add(m, n - m);
    ModModProduct(Pow2(m), Pow2(n - m), x);
  }

  /** Agreeing on `k` low bits, shifted left by `n`, is agreeing on `k + n`. */
  lemma {:induction false} ShiftAgrees(k: nat, n: nat, g: nat, h: nat)
    requires g % Pow2(k) == h % Pow2(k)
    ensures g * Pow2(n) % Pow2(k + n) == h * Pow2(n) % Pow2(k + n)
  {
    ShiftedMod(k, n, g);
    ShiftedMod(k, n, h);
  }

  lemma {:induction false} ShiftedMod(k: nat, n: nat, h: nat)
    ensures h * Pow2(n) % Pow2(k + n) == (h % Pow2(k)) * Pow2(n)
  {
    Pow2Add(k, n);
    ScaledMod(Pow2(k), Pow2(n), h);
  }

  /** One step of the hash carries agreement on the low bits up by the shift. */
  lemma {:induction false} RollAgrees(bits: nat, k: nat, j: nat, g: nat, h: nat, c: Byte)
    requires g % Pow2(k) == h % Pow2(k) && j <= k + HashShift(bits) && j <= bits
    ensures Roll(bits, g, c) % Pow2(j) == Roll(bits, h, c) % Pow2(j)
  {
    hide Xor;
    var s := HashShift(bits);
    var (x, y) := (g * Pow2(s), h * Pow2(s));
    ShiftAgrees(k, s, g, h);
    ModMod(j, k + s, x);
    ModMod(j, k + s, y);
    XorMod(j, Pow2(j), x, c);
    XorMod(j, Pow2(j), y, c);
    ModMod(j, bits, Xor(x, c));
    ModMod(j, bits, Xor(y, c));
  }

  /** After three bytes nothing is left of where the hash started. */
  lemma {:induction false} RollForgets(bits: nat, h: nat, a: Byte, b: Byte, c: Byte)
    requires HashBits(bits)
    ensures Roll(bits, Roll(bits, Roll(bits, h, a), b), c) == Hash3(bits, a, b, c)
  {
    hide Roll, Pow2;
    var s := HashShift(bits);
    PowZero();
    assert s <= bits && 2 * s <= bits <= 3 * s;
    hide HashShift;
    RollAgrees(bits, 0, s, h, 0, a);
    RollAgrees(bits, s, 2 * s, Roll(bits, h, a), Roll(bits, 0, a), b);
    var (g, g') := (Roll(bits, Roll(bits, h, a), b), Roll(bits, Roll(bits, 0, a), b));
    RollAgrees(bits, 2 * s, bits, g, g', c);
    ModOf(Pow2(bits), Roll(bits, g, c), Roll(bits, g, c), 0);
    ModOf(Pow2(bits), Roll(bits, g', c), Roll(bits, g', c), 0);
  }

  lemma PowZero()
    ensures Pow2(0) == 1
  {
  }

  lemma {:induction false} RollLowByte(bits: nat, h: nat, c: Byte)
    requires 8 <= bits
    ensures Roll(bits, h, c) % 0x100 == Xor(h * Pow2(HashShift(bits)) % 0x100, c)
  {
    Pow2Values();
    hide Xor, Pow2, HashShift;
    var x := h * Pow2(HashShift(bits));
    ModMod(8, bits, Xor(x, c));
    XorMod(8, 0x100, x, c);
  }

  lemma {:induction false} XorInjective(y: nat, c: nat, c': nat)
    requires Xor(y, c) == Xor(y, c')
    ensures c == c'
  {
    hide Xor;
    XorCommutes(y, c);
    XorCommutes(y, c');
    XorCancel(c, y);
    XorCancel(c', y);
  }

  /** Strings that agree on two bytes and on the hash agree on the third byte. */
  lemma {:induction false} ThirdByte(bits: nat, a: Byte, b: Byte, c: Byte, c': Byte)
    requires HashBits(bits) && Hash3(bits, a, b, c) == Hash3(bits, a, b, c')
    ensures c == c'
  {
    hide Xor, Roll, Pow2, HashShift;
    var h := Roll(bits, Roll(bits, 0, a), b);
    RollLowByte(bits, h, c);
    RollLowByte(bits, h, c');
    XorInjective(h * Pow2(HashShift(bits)) % 0x100, c, c');
  }

  /** `h` is a hash into which `a` and `b` were the last two bytes rolled. */
  ghost predicate Primed(bits: nat, h: nat, a: Byte, b: Byte) {
    exists g: nat :: h == Roll(bits, Roll(bits, g, a), b)
  }

  lemma {:induction false} PrimedRoll(bits: nat, h: nat, a: Byte, b: Byte, c: Byte)
    requires HashBits(bits) && Primed(bits, h, a, b)
    ensures Roll(bits, h, c) == Hash3(bits, a, b, c) && Primed(bits, Roll(bits, h, c), b, c)
  {
    hide Roll;
    var g: nat :| h == Roll(bits, Roll(bits, g, a), b);
    RollForgets(bits, g, a, b, c);
    assert Roll(bits, h, c) == Roll(bits, Roll(bits, Roll(bits, g, a), b), c);
  }

  /** Starting from the first byte itself, as `fill_window` does, primes the hash. */
  lemma {:induction false} PrimedStart(bits: nat, a: Byte, b: Byte)
    requires HashBits(bits)
    ensures Primed(bits, Roll(bits, a, b), a, b)
  {
    hide Xor, Pow2;
    XorCancel(a, 0);
    Pow2Values();
    Pow2Add(8, bits - 8);
    AtLeast(Pow2(8), Pow2(bits - 8));
    ModOf(Pow2(bits), a, a, 0);
    assert 0 * Pow2(HashShift(bits)) == 0;
    assert Roll(bits, 0, a) == a;
    assert Roll(bits, a, b) == Roll(bits, Roll(bits, 0, a), b);
  }
}
