/**
  `crc32_combine` of lib/zlib/crc32.c: operators on the CRC register as 32 by 32 matrices
  over GF(2), one word a column, squared to move past a number of zero bytes in
  logarithmically many steps.
 */
module Crc32Combine {
  import opened Words
  import opened Crc32

  const DIM: nat := 32

  /** The product of the matrix with columns `mat` and the vector `vec`. */
  function Times(mat: seq<U32>, vec: nat): U32 {
    if mat == [] || vec == 0 then 0
    else Xor32(if vec % 2 == 1 then mat[0] else 0, Times(mat[1..], vec / 2))
  }

  /** `mat` is the operator that shifts `n` zero bits: column i is what it makes of bit i. */
  ghost predicate Operator(mat: seq<U32>, n: nat) {
    |mat| == DIM && forall i :: 0 <= i < DIM ==> Pow2(i) < WORD && mat[i] == Bits(n, Pow2(i))
  }

  lemma {:induction false} UnitFits(i: nat)
    requires i < DIM
    ensures Pow2(i) * Pow2(31 - i) == 0x8000_0000 && Pow2(i) <= 0x8000_0000
  {
    Pow2Add(i, 31 - i);
    Pow2Values();
    assert Pow2(32) == 2 * Pow2(31);
    assert Pow2(31 - i) >= 1;
    AtMostProduct(Pow2(i), Pow2(31 - i));
  }

  lemma AtMostProduct(a: nat, b: nat)
    requires b >= 1
    ensures a <= a * b
  {
  }

  lemma OperatorColumn(mat: seq<U32>, n: nat, i: nat)
    requires Operator(mat, n) && i < DIM
    ensures |mat| == DIM && Pow2(i) < WORD && mat[i] == Bits(n, Pow2(i))
  {
  }

  lemma TimesZero(mat: seq<U32>, p: nat)
    ensures Times(mat, 0) == 0 && p * 0 == 0
  {
  }

  lemma TimesStep(mat: seq<U32>, i: nat, v: nat)
    requires i < |mat| && v > 0
    ensures Times(mat[i..], v) == Xor32(if v % 2 == 1 then mat[i] else 0, Times(mat[i + 1..], v / 2))
  {
    hide Xor;
    assert mat[i..][1..] == mat[i + 1..];
  }

  /** The matrix of an operator applies it: a vector is the sum of its bits. */
  lemma {:induction false} TimesApplies(mat: seq<U32>, n: nat, i: nat, v: nat)
    requires Operator(mat, n) && i <= DIM && v < Pow2(DIM - i) && Pow2(i) * v < WORD
    ensures Times(mat[i..], v) == Bits(n, Pow2(i) * v)
    decreases DIM - i
  {
    assert |mat| == DIM;
    hide Xor, Bits, Operator;
    if i == DIM || v == 0 {
      BitsZero(n);
      assert v == 0;
      TimesZero(mat[i..], Pow2(i));
    } else {
      UnitFits(i);
      OperatorColumn(mat, n, i);
      assert Pow2(i + 1) == 2 * Pow2(i) && Pow2(DIM - i) == 2 * Pow2(DIM - (i + 1));
      hide Pow2;
      SplitVector(Pow2(i), v);
      TimesApplies(mat, n, i + 1, v / 2);
      BitsOfVector(n, i, v);
      TimesStep(mat, i, v);
    }
  }

  /** Bits that do not overlap can be shifted apart. */
  lemma {:induction false} BitsApart(n: nat, x: nat, y: nat)
    requires x + y < WORD && Xor(x, y) == x + y
    ensures Bits(n, x + y) == Xor32(Bits(n, x), Bits(n, y))
  {
    hide Xor, Bits;
    BitsLinear(n, x, y);
  }

  /** The lowest bit of a vector contributes apart from the others. */
  lemma {:induction false} BitsOfVector(n: nat, i: nat, v: nat)
    requires i < DIM && Pow2(i) * v < WORD && Pow2(i) < WORD && Pow2(i + 1) * (v / 2) < WORD
    ensures Bits(n, Pow2(i) * v) == Xor32(if v % 2 == 1 then Bits(n, Pow2(i)) else 0, Bits(n, Pow2(i + 1) * (v / 2)))
  {
    hide Xor, Bits;
    var (p, low, high) := (Pow2(i), v % 2, v / 2);
    assert Pow2(i + 1) == 2 * p;
    hide Pow2;
    SplitVector(p, v);
    SplitProduct(i, low, high);
    BitsZero(n);
    BitsApart(n, p * low, 2 * p * high);
    OneOrNothing(p, low);
  }

  lemma OneOrNothing(p: nat, low: nat)
    requires low < 2
    ensures p * low == if low == 1 then p else 0
  {
  }

  lemma SplitVector(p: nat, v: nat)
    ensures p * v == p * (v % 2) + 2 * p * (v / 2) && p * (v % 2) <= p * v && 2 * p * (v / 2) <= p * v
  {
    var (low, high) := (v % 2, v / 2);
    assert v == low + 2 * high;
    assert p * v == p * low + p * (2 * high);
    assert 2 * p * high == p * (2 * high);
  }

  lemma {:induction false} SplitProduct(i: nat, low: nat, high: nat)
    requires low < 2
    ensures Xor(Pow2(i) * low, 2 * Pow2(i) * high) == Pow2(i) * low + 2 * Pow2(i) * high
  {
    var p := Pow2(i + 1);
    assert p == 2 * Pow2(i) && Pow2(i) * low < p;
    XorParts(i + 1, p, Pow2(i) * low, 0, 0, high);
    XorCancel(high, 0);
    XorCancel(Pow2(i) * low, 0);
  }

  /** `gf2_matrix_times`: the product, scanning the bits of the vector from the low end. */
  method MatrixTimes(mat: array<U32>, vec: U32) returns (sum: U32)
    requires mat.Length == DIM
    ensures sum == Times(mat[..], vec)
  {
    hide Xor;
    Pow2Values();
    sum := 0;
    var v: nat := vec;
    var i := 0;
    assert mat[..][0..] == mat[..];
    XorCancel(Times(mat[..], vec), 0);
    while v != 0
      invariant i <= DIM && v < Pow2(DIM - i)
      invariant Xor32(sum, Times(mat[..][i..], v)) == Times(mat[..], vec)
    {
      assert i < DIM;
      assert mat[..][i..][1..] == mat[..][i + 1..];
      var rest := Times(mat[..][i + 1..], v / 2);
      XorCancel(rest, 0);
      if v % 2 == 1 {
        XorAssociates(sum, mat[i], rest);
        sum := Xor32(sum, mat[i]);
      }
      v := v / 2;
      i := i + 1;
    }
    XorCancel(sum, 0);
  }

  /** An operator's matrix times a vector is the operator applied to it. */
  lemma {:induction false} OperatorTimes(mat: seq<U32>, n: nat, v: U32)
    requires Operator(mat, n)
    ensures Times(mat, v) == Bits(n, v)
  {
    Pow2Values();
    assert mat[0..] == mat && Pow2(0) * v == v;
    TimesApplies(mat, n, 0, v);
  }

  /** `gf2_matrix_square`: the square of an operator shifts twice as many bits. */
  method MatrixSquare(square: array<U32>, mat: array<U32>, ghost n: nat)
    requires square != mat && square.Length == DIM && mat.Length == DIM
    requires Operator(mat[..], n)
    modifies square
    ensures Operator(square[..], 2 * n)
  {
    hide Bits;
    for i := 0 to DIM
      invariant mat[..] == old(mat[..])
      invariant forall j :: 0 <= j < i ==> Pow2(j) < WORD && square[j] == Bits(2 * n, Pow2(j))
    {
      OperatorTimes(mat[..], n, mat[i]);
      assert mat[i] == mat[..][i] == Bits(n, Pow2(i));
      BitsAdd(n, n, Pow2(i));
      square[i] := MatrixTimes(mat, mat[i]);
    }
  }

  lemma EvenBit(row: nat)
    requires 2 * row < WORD
    ensures Bits(1, 2 * row) == row
  {
    hide Xor;
    Even1(row);
    assert Bits(0, row) == row;
  }

  lemma PolyBit()
    ensures Bits(1, Pow2(0)) == POLY
  {
    XorCancel(POLY, 0);
    assert Bit(1) == POLY;
    assert Bits(0, POLY) == POLY;
  }

  /** The operator for one zero bit. */
  method OneBit(odd: array<U32>)
    requires odd.Length == DIM
    modifies odd
    ensures Operator(odd[..], 1)
  {
    hide Bits;
    odd[0] := POLY;
    PolyBit();
    var row: nat := 1;
    for i := 1 to DIM
      invariant row == Pow2(i - 1)
      invariant forall j :: 0 <= j < i ==> Pow2(j) < WORD && odd[j] == Bits(1, Pow2(j))
    {
      UnitFits(i);
      EvenBit(row);
      odd[i] := row;
      row := 2 * row;
    }
  }

  /** What remains after one more bit of the length is used up. */
  lemma {:induction false} LengthBit(crc: U32, done: nat, len: nat, unit: nat, total: nat)
    requires done + len * unit == total && len > 0
    ensures (done + (len % 2) * unit) + (len / 2) * (2 * unit) == total
    ensures Bits(8 * (done + (len % 2) * unit), crc)
         == if len % 2 == 1 then Bits(8 * unit, Bits(8 * done, crc)) else Bits(8 * done, crc)
  {
    var (low, high) := (len % 2, len / 2);
    assert len * unit == (low + 2 * high) * unit == low * unit + high * (2 * unit);
    assert low * unit == if low == 1 then unit else 0;
    BitsAdd(8 * done, 8 * unit, crc);
  }

  /** `crc32_combine_`.  A length that is not positive leaves the first checksum as it is. */
  method Combine(crc1: U32, crc2: U32, length: int) returns (r: U32)
    ensures r == if length <= 0 then crc1 else Xor32(Bits(8 * length, crc1), crc2)
  {
    hide Xor, Bits, Pow2;
    if length <= 0 {
      return crc1;
    }
    var even, odd := new U32[DIM], new U32[DIM];
    OneBit(odd);
    MatrixSquare(even, odd, 1);
    MatrixSquare(odd, even, 2);

    var crc, len: nat := crc1, length;
    ghost var done: nat, unit: nat := 0, 1;
    assert Bits(8 * done, crc1) == crc1 by { NoBits(crc1); }
    while true
      invariant len > 0 && Operator(odd[..], 4 * unit)
      invariant done + len * unit == length && crc == Bits(8 * done, crc1)
      decreases len
    {
      MatrixSquare(even, odd, 4 * unit);
      LengthBit(crc1, done, len, unit, length);
      if len % 2 == 1 {
        OperatorTimes(even[..], 8 * unit, crc);
        crc := MatrixTimes(even, crc);
      }
      done, unit := done + (len % 2) * unit, 2 * unit;
      len := len / 2;
      if len == 0 { break; }

      MatrixSquare(odd, even, 4 * unit);
      LengthBit(crc1, done, len, unit, length);
      if len % 2 == 1 {
        OperatorTimes(odd[..], 8 * unit, crc);
        crc := MatrixTimes(odd, crc);
      }
      done, unit := done + (len % 2) * unit, 2 * unit;
      len := len / 2;
      if len == 0 { break; }
    }
    r := Xor32(crc, crc2);
  }

  lemma NoBits(c: U32)
    ensures Bits(0, c) == c
  {
  }

  /**
    The law `crc32_combine` is for: from the checksums of two pieces and the length of the
    second it makes the checksum of the two pieces together.
   */
  method CombineChecksums(crc: U32, s: seq<Byte>, t: seq<Byte>) returns (r: U32)
    ensures r == Crc(crc, s + t)
  {
    r := Combine(Crc(crc, s), Crc(0, t), |t|);
    if t == [] {
      assert s + t == s;
    } else {
      CrcCombines(crc, s, t);
    }
  }
}
