/** Powers of two, shifts and masks of unsigned values, and the little there is
    to say about / and %. */
module Arithmetic {

  /** The number of values of a 32-bit unsigned. */
  const UINT_RANGE := 0x1_0000_0000

  function Pow2(n: nat): (p: nat)
    ensures p >= 1
  {
    if n == 0 then 1 else 2 * Pow2(n - 1)
  }

  /** x >> n */
  function Shr(x: nat, n: nat): nat {
    if n == 0 then x else Shr(x / 2, n - 1)
  }

  /** x & (2^n - 1), the n low bits of x */
  function Low(x: nat, n: nat): nat {
    if n == 0 then 0 else x % 2 + 2 * Low(x / 2, n - 1)
  }

  /** x << n on an unbounded number */
  function Shl(x: nat, n: nat): nat { x * Pow2(n) }

  /** The width in bits of n digits of L bits each. */
  function Width(L: nat, n: nat): nat {
    if n == 0 then 0 else L + Width(L, n - 1)
  }

  lemma {:induction false} WidthIsProduct(L: nat, n: nat)
    ensures Width(L, n) == L * n
  {
    if n > 0 {
      WidthIsProduct(L, n - 1);
      Distribute(1, n - 1, L);
    }
  }

  lemma {:induction false} WidthAdd(L: nat, m: nat, n: nat)
    ensures Width(L, m + n) == Width(L, m) + Width(L, n)
  {
    if m > 0 { WidthAdd(L, m - 1, n); }
  }

  lemma WidthMonotone(L: nat, m: nat, n: nat)
    requires m <= n
    ensures Width(L, m) <= Width(L, n)
  {
    WidthAdd(L, n - m, m);
  }

  // ---- products ----

  lemma Double(a: nat, b: nat)
    ensures (2 * a) * b == 2 * (a * b) && a * (2 * b) == 2 * (a * b)
  {}

  lemma Twice(a: nat, b: nat, c: nat)
    requires c == 2 * b
    ensures a * c == 2 * (a * b) && a * b >= 0
  {}

  lemma Distribute(a: nat, b: nat, c: nat)
    ensures (a + b) * c == a * c + b * c && c * (a + b) == c * a + c * b
  {}

  lemma OneMore(m: nat, a: nat)
    ensures m * (a + 1) == m * a + m
  {}

  lemma Associate(a: nat, b: nat, c: nat)
    ensures (a * b) * c == a * (b * c)
  {}

  lemma MulMonotone(a: nat, b: nat, c: nat)
    requires a <= b
    ensures a * c <= b * c
  {}

  lemma MulStrict(a: nat, b: nat, c: nat)
    requires a < b
    ensures a * c + c <= b * c
  {
    MulMonotone(a + 1, b, c);
    Distribute(a, 1, c);
  }

  function Quotient(x: nat, d: nat): nat
    requires d > 0
  {
    x / d
  }

  /** The quotient and the remainder are the only pair that recombines. */
  lemma DivModUnique(x: nat, d: nat, q: nat, r: nat)
    requires d > 0 && r < d && x == q * d + r
    ensures x / d == q && x % d == r
  {
    var q', r' := x / d, x % d;
    assert x == q' * d + r' && 0 <= r' < d;
    if q < q' {
      MulStrict(q, q', d);
      assert false;
    } else if q' < q {
      MulStrict(q', q, d);
      assert false;
    }
  }

  // ---- powers of two ----

  lemma {:induction false} Pow2Add(m: nat, n: nat)
    ensures Pow2(m + n) == Pow2(m) * Pow2(n)
  {
    if m > 0 {
      Pow2Add(m - 1, n);
      Double(Pow2(m - 1), Pow2(n));
    }
  }

  lemma {:induction false} Pow2Monotone(m: nat, n: nat)
    requires m <= n
    ensures Pow2(m) <= Pow2(n)
  {
    if m < n { Pow2Monotone(m, n - 1); }
  }

  lemma Pow2Known()
    ensures Pow2(4) == 16 && Pow2(7) == 128 && Pow2(8) == 256 && Pow2(16) == 0x1_0000
    ensures Pow2(15) == 0x8000 && Pow2(23) == 0x80_0000
    ensures Pow2(24) == 0x100_0000 && Pow2(32) == 0x1_0000_0000
  {
    assert Pow2(4) == 16;
    assert Pow2(8) == 256;
    Pow2Add(8, 8);
    Pow2Add(16, 8);
    Pow2Add(16, 16);
    assert Pow2(16) == 2 * Pow2(15);
    assert Pow2(24) == 2 * Pow2(23);
  }

  lemma EvenPower(n: nat)
    ensures Pow2(n) == if n == 0 then 1 else 2 * Pow2(n - 1)
  {}

  lemma TimesOne(a: nat, b: nat)
    requires b == 1
    ensures a * b == a
  {}

  lemma PowPositive(n: nat)
    ensures 0 < Pow2(n)
  {}

  // ---- shifts and masks ----

  lemma NoShift(x: nat)
    ensures Shr(x, 0) == x && Low(x, 0) == 0 && Pow2(0) == 1
  {}

  lemma {:induction false} ShrLow(x: nat, n: nat)
    ensures x == Shr(x, n) * Pow2(n) + Low(x, n) && Low(x, n) < Pow2(n)
  {
    if n > 0 {
      ShrLow(x / 2, n - 1);
      Double(Shr(x, n), Pow2(n - 1));
    }
  }

  /** A shift is a division, a mask a remainder. */
  lemma ShrIsDiv(x: nat, n: nat)
    ensures Shr(x, n) == x / Pow2(n) && Low(x, n) == x % Pow2(n)
  {
    ShrLow(x, n);
    DivModUnique(x, Pow2(n), Shr(x, n), Low(x, n));
  }

  lemma {:induction false} Fields(hi: nat, n: nat, lo: nat)
    requires lo < Pow2(n)
    ensures Shr(hi * Pow2(n) + lo, n) == hi && Low(hi * Pow2(n) + lo, n) == lo
    decreases n
  {
    if n > 0 {
      var y := hi * Pow2(n - 1);
      Double(hi, Pow2(n - 1));
      Fields(hi, n - 1, lo / 2);
      assert (2 * y + lo) / 2 == y + lo / 2 && (2 * y + lo) % 2 == lo % 2;
    }
  }

  /** What shifting and masking do to a value cut into fields. */
  lemma ShrShr(x: nat, a: nat, b: nat)
    ensures Shr(Shr(x, a), b) == Shr(x, a + b)
    ensures Low(x, a + b) == Low(Shr(x, a), b) * Pow2(a) + Low(x, a)
    ensures Low(Low(x, a + b), a) == Low(x, a)
    ensures Shr(Low(x, a + b), a) == Low(Shr(x, a), b)
  {
    hide *;
    ShrOfShr(x, a, b);
    ShrOfLow(x, a, b);
    ShrLow(Low(x, a + b), a);
  }

  lemma {:induction false} ShrOfShr(x: nat, a: nat, b: nat)
    ensures Shr(Shr(x, a), b) == Shr(x, a + b)
    decreases a
  {
    if a > 0 { ShrOfShr(x / 2, a - 1, b); }
  }

  lemma {:induction false} ShrOfLow(x: nat, a: nat, b: nat)
    ensures Low(Low(x, a + b), a) == Low(x, a)
    ensures Shr(Low(x, a + b), a) == Low(Shr(x, a), b)
    decreases a
  {
    if a > 0 { ShrOfLow(x / 2, a - 1, b); }
  }

  lemma {:induction false} ShrMonotone(x: nat, y: nat, n: nat)
    requires x <= y
    ensures Shr(x, n) <= Shr(y, n)
    decreases n
  {
    if n > 0 { ShrMonotone(x / 2, y / 2, n - 1); }
  }

  /** x >> n is below 2^m exactly when x is below 2^(n+m). */
  lemma {:induction false} ShrBelow(x: nat, n: nat, m: nat)
    ensures Shr(x, n) < Pow2(m) <==> x < Pow2(n + m)
  {
    if n > 0 { ShrBelow(x / 2, n - 1, m); }
  }

  lemma {:induction false} LowOfSmall(x: nat, n: nat)
    requires x < Pow2(n)
    ensures Low(x, n) == x && Shr(x, n) == 0
  {
    if n > 0 { LowOfSmall(x / 2, n - 1); }
  }

  lemma LowOfSum(k: nat, n: nat, x: nat)
    ensures Low(k * Pow2(n) + x, n) == Low(x, n)
    ensures Shr(k * Pow2(n) + x, n) == k + Shr(x, n)
  {
    hide *;
    ShrLow(x, n);
    Distribute(k, Shr(x, n), Pow2(n));
    Fields(k + Shr(x, n), n, Low(x, n));
  }

  lemma FieldsBelow(hi: nat, m: nat, lo: nat, n: nat)
    requires hi < Pow2(m) && lo < Pow2(n)
    ensures hi * Pow2(n) + lo < Pow2(n + m)
  {
    Fields(hi, n, lo);
    ShrBelow(hi * Pow2(n) + lo, n, m);
  }

  /** Shifting left and then truncating to n + m bits truncates to m bits first. */
  lemma LowOfShl(x: nat, n: nat, m: nat)
    ensures Low(x * Pow2(n), n + m) == Low(x, m) * Pow2(n)
  {
    hide *;
    Fields(x, n, 0);
    ShrShr(x * Pow2(n), n, m);
  }

  /** A byte split off the bottom of a shifted value. */
  lemma SplitField(d: nat, q: nat)
    ensures Shr(d, q) * Pow2(q) == Shr(d, q + 8) * Pow2(q + 8) + Low(Shr(d, q), 8) * Pow2(q)
  {
    hide Low, Shr, Pow2;
    ShrShr(d, q, 8);
    ShrLow(Shr(d, q), 8);
    var h, c := Shr(d, q + 8), Low(Shr(d, q), 8);
    Pow2Add(8, q);
    Associate(h, Pow2(8), Pow2(q));
    Distribute(h * Pow2(8), c, Pow2(q));
  }
}
