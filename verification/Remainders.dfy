/**
  Division with remainder, in the small steps the nonlinear facts need.
 */
module Remainders {

  lemma DivMod(q: nat, x: nat)
    requires q > 0
    ensures x == x % q + q * (x / q) && x % q < q && x / q >= 0
  {
  }

  lemma AtLeast(a: nat, b: nat)
    requires b >= 1
    ensures a * b >= a && b * a >= a
  {
  }

  lemma Distribute(q: nat, a: nat, b: nat)
    ensures q * (a + b) == q * a + q * b
  {
  }

  lemma SameQuotient(q: nat, r: nat, k: nat, r': nat, k': nat)
    requires r < q && r' < q && r + q * k == r' + q * k'
    ensures r == r'
  {
    if k < k' {
      Distribute(q, k, k' - k);
      AtLeast(q, k' - k);
    } else if k' < k {
      Distribute(q, k', k - k');
      AtLeast(q, k - k');
    }
  }

  /** The remainder is the only number below the divisor that leaves a multiple. */
  lemma ModOf(q: nat, x: nat, r: nat, k: nat)
    requires r < q && x == r + q * k
    ensures x % q == r
  {
    DivMod(q, x);
    SameQuotient(q, r, k, x % q, x / q);
  }

  lemma ModModProduct(p: nat, d: nat, x: nat)
    requires p > 0 && d > 0 && p * d > 0
    ensures x % (p * d) % p == x % p
  {
    var q := p * d;
    DivMod(q, x);
    var (r, k) := (x % q, x / q);
    DivMod(p, r);
    var (s, j) := (r % p, r / p);
    assert q * k == p * (d * k);
    Distribute(p, j, d * k);
    ModOf(p, x, s, j + d * k);
  }

  lemma ScaledMod(p: nat, s: nat, h: nat)
    requires p > 0 && s > 0 && p * s > 0
    ensures h * s % (p * s) == (h % p) * s
  {
    DivMod(p, h);
    var (r, d) := (h % p, h / p);
    assert h * s == s * h && r * s == s * r && p * s == s * p;
    Distribute(s, r, p * d);
    assert s * (p * d) == (p * s) * d;
    Distribute(s, r, p - r);
    AtLeast(s, p - r);
    ModOf(p * s, h * s, r * s, d);
  }

  lemma SlotsDiffer(wSize: nat, i: nat, j: nat)
    requires wSize > 0 && i < j < i + wSize
    ensures i % wSize != j % wSize
  {
    DivMod(wSize, i);
    DivMod(wSize, j);
    if i % wSize == j % wSize {
      var (k, l) := (i / wSize, j / wSize);
      assert wSize * l == wSize * k + (j - i);
      if k < l {
        Distribute(wSize, k, l - k);
        AtLeast(wSize, l - k);
      } else {
        Distribute(wSize, l, k - l);
      }
    }
  }

  lemma SameSlot(wSize: nat, i: nat)
    requires 0 < wSize <= i
    ensures (i - wSize) % wSize == i % wSize
  {
    DivMod(wSize, i - wSize);
    Distribute(wSize, (i - wSize) / wSize, 1);
    ModOf(wSize, i, (i - wSize) % wSize, (i - wSize) / wSize + 1);
  }
}
