/** The C operators &, | and ^ on unsigned values, bit by bit, and what they
    compute on masks and on disjoint fields. */
module Bitwise {
  import opened Arithmetic

  function And(x: nat, y: nat): nat {
    if x == 0 || y == 0 then 0 else 2 * And(x / 2, y / 2) + x % 2 * (y % 2)
  }

  function Or(x: nat, y: nat): nat
    decreases x + y
  {
    if x == 0 && y == 0 then 0
    else 2 * Or(x / 2, y / 2) + (if x % 2 + y % 2 > 0 then 1 else 0)
  }

  function Xor(x: nat, y: nat): nat
    decreases x + y
  {
    if x == 0 && y == 0 then 0 else 2 * Xor(x / 2, y / 2) + (x % 2 + y % 2) % 2
  }

  /** x & (2^m - 1) keeps the m low bits. */
  lemma {:induction false} AndMask(x: nat, m: nat)
    ensures And(x, Pow2(m) - 1) == Low(x, m)
    decreases m
  {
    if m > 0 {
      AndMask(x / 2, m - 1);
      assert (Pow2(m) - 1) / 2 == Pow2(m - 1) - 1 && (Pow2(m) - 1) % 2 == 1;
      if x == 0 { LowOfSmall(0, m); }
    }
  }

  lemma {:induction false} OrZero(x: nat)
    ensures Or(x, 0) == x && Or(0, x) == x
  {
    if x > 0 { OrZero(x / 2); }
  }

  /** OR of two fields that share no bit is their sum. */
  lemma {:induction false} OrDisjoint(hi: nat, m: nat, lo: nat)
    requires lo < Pow2(m)
    ensures Or(hi * Pow2(m), lo) == hi * Pow2(m) + lo
    decreases m
  {
    hide *;
    EvenPower(m);
    Halves(lo);
    if m == 0 {
      OrZero(hi);
      TimesOne(hi, Pow2(m));
    } else {
      Twice(hi, Pow2(m - 1), Pow2(m));
      OrDisjoint(hi, m - 1, lo / 2);
      OrStep(hi * Pow2(m - 1), lo);
    }
  }

  lemma OrStep(x: nat, y: nat)
    ensures Or(2 * x, y) == 2 * Or(x, y / 2) + y % 2
  {
    if x == 0 && y == 0 { OrZero(0); }
  }

  lemma {:induction false} OrDisjointSwap(hi: nat, m: nat, lo: nat)
    requires lo < Pow2(m)
    ensures Or(lo, hi * Pow2(m)) == hi * Pow2(m) + lo
  {
    OrSymmetric(lo, hi * Pow2(m));
    OrDisjoint(hi, m, lo);
  }

  lemma {:induction false} OrSymmetric(x: nat, y: nat)
    ensures Or(x, y) == Or(y, x)
    decreases x + y
  {
    if x != 0 || y != 0 { OrSymmetric(x / 2, y / 2); }
  }

  /** OR works field by field. */
  lemma {:induction false} OrFields(a: nat, b: nat, c: nat, d: nat, m: nat)
    requires b < Pow2(m) && d < Pow2(m)
    ensures Or(a * Pow2(m) + b, c * Pow2(m) + d) == Or(a, c) * Pow2(m) + Or(b, d)
    decreases m
  {
    hide *;
    EvenPower(m);
    Halves(b);
    Halves(d);
    if m == 0 {
      OrZero(0);
      TimesOne(a, Pow2(m));
      TimesOne(c, Pow2(m));
      TimesOne(Or(a, c), Pow2(m));
    } else {
      OrFields(a, b / 2, c, d / 2, m - 1);
      OrFieldsStep(a, b / 2, b % 2, c, d / 2, d % 2, Pow2(m - 1), Pow2(m));
    }
  }

  lemma OrFieldsStep(a: nat, b: nat, p: nat, c: nat, d: nat, q: nat, n: nat, N: nat)
    requires p < 2 && q < 2 && N == 2 * n && a * n >= 0 && c * n >= 0
    requires Or(a * n + b, c * n + d) == Or(a, c) * n + Or(b, d)
    ensures a * N >= 0 && c * N >= 0
    ensures Or(a * N + (2 * b + p), c * N + (2 * d + q)) == Or(a, c) * N + Or(2 * b + p, 2 * d + q)
  {
    hide *;
    Twice(a, n, N);
    Twice(c, n, N);
    Twice(Or(a, c), n, N);
    OrDoubled(a * n, b, p, c * n, d, q, Or(a, c) * n);
  }

  lemma OrDoubled(u: nat, b: nat, p: nat, v: nat, d: nat, q: nat, w: nat)
    requires p < 2 && q < 2 && Or(u + b, v + d) == w + Or(b, d)
    ensures Or(2 * u + (2 * b + p), 2 * v + (2 * d + q)) == 2 * w + Or(2 * b + p, 2 * d + q)
  {
    hide *;
    OrBit(b, p, d, q);
    OrBit(u + b, p, v + d, q);
    assert 2 * u + (2 * b + p) == 2 * (u + b) + p && 2 * v + (2 * d + q) == 2 * (v + d) + q;
  }

  lemma OrBit(x: nat, p: nat, y: nat, q: nat)
    requires p < 2 && q < 2
    ensures Or(2 * x + p, 2 * y + q) == 2 * Or(x, y) + (if p + q > 0 then 1 else 0)
  {
    var u, v := 2 * x + p, 2 * y + q;
    assert u / 2 == x && u % 2 == p && v / 2 == y && v % 2 == q;
  }

  /** x & (h << m) is zero for x below 2^m. */
  lemma {:induction false} AndDisjoint(x: nat, h: nat, m: nat)
    requires x < Pow2(m)
    ensures And(x, h * Pow2(m)) == 0
    decreases m
  {
    if m > 0 {
      Double(h, Pow2(m - 1));
      AndDisjoint(x / 2, h, m - 1);
    }
  }

  /** Testing the top bit of an (m + 1)-bit value. */
  lemma {:induction false} AndTopBit(x: nat, m: nat)
    requires x < Pow2(m + 1)
    ensures And(x, Pow2(m)) != 0 <==> x >= Pow2(m)
    decreases m
  {
    if m > 0 {
      AndTopBit(x / 2, m - 1);
    } else {
      assert x < 2;
    }
  }

  lemma {:induction false} XorZero(x: nat)
    ensures Xor(x, 0) == x && Xor(0, x) == x
  {
    if x > 0 { XorZero(x / 2); }
  }

  /** One bit at a time: XOR of the low bits is their sum modulo 2. */
  lemma {:induction false} XorStep(x: nat, p: nat, y: nat, q: nat)
    requires p < 2 && q < 2
    ensures Xor(2 * x + p, 2 * y + q) == 2 * Xor(x, y) + (p + q) % 2
  {
    var u, v := 2 * x + p, 2 * y + q;
    assert u / 2 == x && u % 2 == p && v / 2 == y && v % 2 == q;
  }

  lemma XorAssociativeStep(x: nat, p: nat, y: nat, q: nat, z: nat, r: nat)
    requires p < 2 && q < 2 && r < 2
    requires Xor(Xor(x, y), z) == Xor(x, Xor(y, z))
    ensures Xor(Xor(2 * x + p, 2 * y + q), 2 * z + r) == Xor(2 * x + p, Xor(2 * y + q, 2 * z + r))
  {
    hide Xor;
    XorStep(x, p, y, q);
    XorStep(y, q, z, r);
    XorStep(Xor(x, y), (p + q) % 2, z, r);
    XorStep(x, p, Xor(y, z), (q + r) % 2);
  }

  lemma {:induction false} XorAssociative(x: nat, y: nat, z: nat)
    ensures Xor(Xor(x, y), z) == Xor(x, Xor(y, z))
    decreases x + y + z
  {
    if x != 0 || y != 0 || z != 0 {
      hide Xor;
      XorAssociative(x / 2, y / 2, z / 2);
      XorAssociativeStep(x / 2, x % 2, y / 2, y % 2, z / 2, z % 2);
    }
  }

  /** x ^ y == 0 says x == y: a byte-wise collision test is a test on the XOR. */
  lemma {:induction false} XorIsZero(x: nat, y: nat)
    ensures Xor(x, y) == 0 <==> x == y
    decreases x + y
  {
    if x != 0 || y != 0 { XorIsZero(x / 2, y / 2); }
  }

  lemma XorFieldsStep(a: nat, b: nat, p: nat, c: nat, d: nat, q: nat, n: nat, N: nat)
    requires p < 2 && q < 2 && N == 2 * n && a * n >= 0 && c * n >= 0
    requires Xor(a * n + b, c * n + d) == Xor(a, c) * n + Xor(b, d)
    ensures a * N >= 0 && c * N >= 0
    ensures Xor(a * N + (2 * b + p), c * N + (2 * d + q)) == Xor(a, c) * N + Xor(2 * b + p, 2 * d + q)
  {
    hide *;
    Twice(a, n, N);
    Twice(c, n, N);
    Twice(Xor(a, c), n, N);
    XorDoubled(a * n, b, p, c * n, d, q, Xor(a, c) * n);
  }

  lemma XorDoubled(u: nat, b: nat, p: nat, v: nat, d: nat, q: nat, w: nat)
    requires p < 2 && q < 2 && Xor(u + b, v + d) == w + Xor(b, d)
    ensures Xor(2 * u + (2 * b + p), 2 * v + (2 * d + q)) == 2 * w + Xor(2 * b + p, 2 * d + q)
  {
    hide *;
    XorStep(b, p, d, q);
    XorStep(u + b, p, v + d, q);
    assert 2 * u + (2 * b + p) == 2 * (u + b) + p && 2 * v + (2 * d + q) == 2 * (v + d) + q;
  }

  /** XOR works field by field. */
  lemma {:induction false} XorFields(a: nat, b: nat, c: nat, d: nat, m: nat)
    requires b < Pow2(m) && d < Pow2(m)
    ensures Xor(b, d) < Pow2(m)
    ensures Xor(a * Pow2(m) + b, c * Pow2(m) + d) == Xor(a, c) * Pow2(m) + Xor(b, d)
    decreases m
  {
    hide *;
    EvenPower(m);
    Halves(b);
    Halves(d);
    if m == 0 {
      XorZero(0);
      TimesOne(a, Pow2(m));
      TimesOne(c, Pow2(m));
      TimesOne(Xor(a, c), Pow2(m));
    } else {
      XorFields(a, b / 2, c, d / 2, m - 1);
      XorFieldsStep(a, b / 2, b % 2, c, d / 2, d % 2, Pow2(m - 1), Pow2(m));
      XorStep(b / 2, b % 2, d / 2, d % 2);
    }
  }

  lemma XorBelow(x: nat, y: nat, m: nat)
    requires x < Pow2(m) && y < Pow2(m)
    ensures Xor(x, y) < Pow2(m)
  {
    XorFields(0, x, 0, y, m);
  }

  /** Shifting and truncating commute with XOR. */
  lemma XorShrLow(x: nat, y: nat, m: nat)
    ensures Shr(Xor(x, y), m) == Xor(Shr(x, m), Shr(y, m))
    ensures Low(Xor(x, y), m) == Xor(Low(x, m), Low(y, m))
  {
    hide *;
    ShrLow(x, m);
    ShrLow(y, m);
    XorFields(Shr(x, m), Low(x, m), Shr(y, m), Low(y, m), m);
    Fields(Xor(Shr(x, m), Shr(y, m)), m, Xor(Low(x, m), Low(y, m)));
  }

  lemma Halves(x: nat)
    ensures 2 * (x / 2) + x % 2 == x
  {}
}
