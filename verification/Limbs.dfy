/** Little-endian strings of 32-bit limbs and the numbers they denote. */
module Limbs {
  import opened Arithmetic

  type limb = x: nat | x < 0x1_0000_0000

  function LimbValue(s: seq<limb>): nat {
    if s == [] then 0 else s[0] + 0x1_0000_0000 * LimbValue(s[1..])
  }

  /** 2^(32 n), the modulus of n limbs. */
  function Modulus(n: nat): (m: nat)
    ensures m >= 1
  {
    if n == 0 then 1 else 0x1_0000_0000 * Modulus(n - 1)
  }

  lemma {:induction false} ModulusIsPow2(n: nat)
    ensures Modulus(n) == Pow2(32 * n)
  {
    if n > 0 {
      ModulusIsPow2(n - 1);
      Pow2Known();
      Pow2Add(32, 32 * (n - 1));
    }
  }

  lemma {:induction false} ModulusAdd(m: nat, n: nat)
    ensures Modulus(m + n) == Modulus(m) * Modulus(n)
  {
    if m > 0 {
      ModulusAdd(m - 1, n);
      Associate(0x1_0000_0000, Modulus(m - 1), Modulus(n));
    }
  }

  lemma {:induction false} LimbBound(s: seq<limb>)
    ensures LimbValue(s) < Modulus(|s|)
  {
    if s != [] { LimbBound(s[1..]); }
  }

  lemma {:induction false} LimbConcat(s: seq<limb>, t: seq<limb>)
    ensures LimbValue(s + t) == LimbValue(s) + Modulus(|s|) * LimbValue(t)
  {
    if s == [] {
      assert s + t == t;
    } else {
      assert (s + t)[1..] == s[1..] + t;
      LimbConcat(s[1..], t);
      Associate(0x1_0000_0000, Modulus(|s| - 1), LimbValue(t));
    }
  }

  lemma LimbSnoc(s: seq<limb>, i: nat)
    requires i < |s|
    ensures LimbValue(s[..i + 1]) == LimbValue(s[..i]) + Modulus(i) * s[i]
    ensures Modulus(i + 1) == 0x1_0000_0000 * Modulus(i)
  {
    assert s[..i + 1] == s[..i] + [s[i]];
    LimbConcat(s[..i], [s[i]]);
    assert LimbValue([s[i]]) == s[i] + 0x1_0000_0000 * LimbValue([]);
  }

  lemma LimbSplit(s: seq<limb>, i: nat)
    requires i <= |s|
    ensures LimbValue(s) == LimbValue(s[..i]) + Modulus(i) * LimbValue(s[i..])
  {
    assert s == s[..i] + s[i..];
    LimbConcat(s[..i], s[i..]);
  }

  function Repeat(x: limb, n: nat): (s: seq<limb>)
    ensures |s| == n && forall i :: 0 <= i < n ==> s[i] == x
  {
    seq(n, _ => x)
  }

  lemma {:induction false} RepeatValue(n: nat)
    ensures LimbValue(Repeat(0, n)) == 0
    ensures LimbValue(Repeat(0xFFFF_FFFF, n)) == Modulus(n) - 1
  {
    if n > 0 {
      RepeatValue(n - 1);
      assert Repeat(0, n)[1..] == Repeat(0, n - 1);
      assert Repeat(0xFFFF_FFFF, n)[1..] == Repeat(0xFFFF_FFFF, n - 1);
    }
  }

  /** Limb strings of one length are equal exactly when their numbers are. */
  lemma {:induction false} LimbEqual(s: seq<limb>, t: seq<limb>)
    requires |s| == |t|
    ensures s == t <==> LimbValue(s) == LimbValue(t)
  {
    if s != [] {
      LimbEqual(s[1..], t[1..]);
      assert s == [s[0]] + s[1..] && t == [t[0]] + t[1..];
    }
  }

  /** The highest limb in which two numbers differ decides their order. */
  lemma LimbOrder(s: seq<limb>, t: seq<limb>, i: nat)
    requires |s| == |t| && i < |s| && s[i] < t[i] && s[i + 1..] == t[i + 1..]
    ensures LimbValue(s) < LimbValue(t)
  {
    hide LimbValue, Modulus;
    LimbSplit(s, i + 1);
    LimbSplit(t, i + 1);
    LimbSnoc(s, i);
    LimbSnoc(t, i);
    LimbBound(s[..i]);
    FieldBelow(LimbValue(s[..i]), Modulus(i), s[i], t[i]);
  }

  lemma FieldBelow(low: nat, m: nat, a: nat, b: nat)
    requires low < m && a < b
    ensures low + m * a < m * b
  {
    MulStrict(a, b, m);
  }

  /** x reduced modulo 2^(32 n), told from how much it exceeds the limbs. */
  lemma Reduced(x: nat, n: nat, q: nat, s: seq<limb>)
    requires |s| == n && x == q * Modulus(n) + LimbValue(s)
    ensures LimbValue(s) == x % Modulus(n)
  {
    LimbBound(s);
    DivModUnique(x, Modulus(n), q, LimbValue(s));
  }

  // ---- shifting by less than a limb ----

  /** The limbs of s * 2^b, the overflow of the top limb dropped. */
  function ShlLimbs(s: seq<limb>, b: nat): (t: seq<limb>)
    requires b < 32
    ensures |t| == |s|
  {
    if s == [] then []
    else
      ShlLimbInRange(s, |s| - 1, b);
      ShlLimbs(s[..|s| - 1], b) + [ShlLimb(s, |s| - 1, b)]
  }

  /** What limb i contributes in place, and what limb i - 1 spills into it. */
  function ShlLimb(s: seq<limb>, i: nat, b: nat): nat
    requires b < 32 && i < |s|
  {
    Low(s[i], 32 - b) * Pow2(b) + (if i > 0 then Shr(s[i - 1], 32 - b) else 0)
  }

  lemma SpillBound(x: limb, b: nat)
    requires b <= 32
    ensures Shr(x, 32 - b) < Pow2(b) && x < Pow2(32)
  {
    Pow2Known();
    ShrBelow(x, 32 - b, b);
  }

  lemma ShlLimbInRange(s: seq<limb>, i: nat, b: nat)
    requires b < 32 && i < |s|
    ensures ShlLimb(s, i, b) < 0x1_0000_0000
  {
    hide Low, Shr, Pow2;
    ShrLow(s[i], 32 - b);
    if i > 0 { SpillBound(s[i - 1], b); }
    FieldsBelow(Low(s[i], 32 - b), 32 - b, if i > 0 then Shr(s[i - 1], 32 - b) else 0, b);
    Pow2Known();
  }

  /** The limbs, with the spill of the top one on top, are exactly s * 2^b. */
  lemma {:induction false} ShlValue(s: seq<limb>, b: nat)
    requires b < 32
    ensures LimbValue(ShlLimbs(s, b)) + Modulus(|s|) * (if s == [] then 0 else Shr(s[|s| - 1], 32 - b))
         == LimbValue(s) * Pow2(b)
  {
    hide Low, Shr, Pow2;
    if s != [] {
      var n := |s| - 1;
      var r := ShlLimbs(s, b);
      ShlLimbInRange(s, n, b);
      ShlValue(s[..n], b);
      LimbSnoc(s, n);
      LimbSnoc(r, n);
      assert s[..n + 1] == s && r[..n + 1] == r && r[..n] == ShlLimbs(s[..n], b);
      ShrLow(s[n], 32 - b);
      assert Pow2(32 - b) * Pow2(b) == 0x1_0000_0000 by { Pow2Add(32 - b, b); Pow2Known(); }
      ShlTop(Modulus(n), Shr(s[n], 32 - b), Low(s[n], 32 - b), Pow2(32 - b), Pow2(b),
             if n > 0 then Shr(s[n - 1], 32 - b) else 0, LimbValue(s[..n]), LimbValue(r[..n]));
    }
  }

  lemma ShlTop(m: nat, h: nat, l: nat, p: nat, q: nat, spill: nat, v: nat, w: nat)
    requires p * q == 0x1_0000_0000 && w + m * spill == v * q
    ensures w + m * (l * q + spill) + 0x1_0000_0000 * m * h == (v + m * (h * p + l)) * q
  {
    Distribute(l * q, spill, m);
    Distribute(h * p, l, q);
    Associate(h, p, q);
    assert (h * p + l) * q == h * 0x1_0000_0000 + l * q;
    Distribute(v, m * (h * p + l), q);
    Associate(m, h * p + l, q);
    Distribute(h * 0x1_0000_0000, l * q, m);
    Associate(m, h, 0x1_0000_0000);
  }

  /** The limbs of s >> b. */
  function ShrLimbs(s: seq<limb>, b: nat): (t: seq<limb>)
    requires b < 32
    ensures |t| == |s|
  {
    if s == [] then []
    else
      ShrLimbInRange(s, b);
      [ShrLimb(s, b)] + ShrLimbs(s[1..], b)
  }

  function ShrLimb(s: seq<limb>, b: nat): nat
    requires b < 32 && s != []
  {
    (if |s| > 1 then Low(s[1], b) * Pow2(32 - b) else 0) + Shr(s[0], b)
  }

  lemma ShrLimbInRange(s: seq<limb>, b: nat)
    requires b < 32 && s != []
    ensures ShrLimb(s, b) < 0x1_0000_0000
  {
    hide Low, Shr, Pow2;
    SpillBound(s[0], 32 - b);
    var l := if |s| > 1 then Low(s[1], b) else 0;
    if |s| > 1 { ShrLow(s[1], b); }
    FieldsBelow(l, b, Shr(s[0], b), 32 - b);
    Pow2Known();
  }

  lemma {:induction false} ShrValue(s: seq<limb>, b: nat)
    requires b < 32
    ensures LimbValue(ShrLimbs(s, b)) == Shr(LimbValue(s), b)
  {
    hide Low, Shr, Pow2;
    if s == [] {
      LowOfSmall(0, b);
    } else {
      ShrLimbInRange(s, b);
      ShrValue(s[1..], b);
      assert ShrLimbs(s, b)[1..] == ShrLimbs(s[1..], b);
      LowOfRest(s[1..], b);
      ShrOnto(s[0], LimbValue(s[1..]), b);
    }
  }

  /** Shifting a number with one more limb x at the bottom. */
  lemma ShrOnto(x: limb, rest: nat, b: nat)
    requires b < 32
    ensures Shr(x + 0x1_0000_0000 * rest, b)
         == Low(rest, b) * Pow2(32 - b) + Shr(x, b) + 0x1_0000_0000 * Shr(rest, b)
  {
    hide Low, Shr, Pow2;
    assert 0x1_0000_0000 == Pow2(b) * Pow2(32 - b) by { Pow2Add(32 - b, b); Pow2Known(); }
    Associate(rest, Pow2(32 - b), Pow2(b));
    LowOfSum(rest * Pow2(32 - b), b, x);
    ShrLow(rest, b);
    Distribute(Shr(rest, b) * Pow2(b), Low(rest, b), Pow2(32 - b));
    Associate(Shr(rest, b), Pow2(b), Pow2(32 - b));
  }

  lemma LowOfRest(s: seq<limb>, b: nat)
    requires b < 32
    ensures Low(LimbValue(s), b) == if s == [] then 0 else Low(s[0], b)
  {
    hide Low, Shr, Pow2;
    if s == [] {
      LowOfSmall(0, b);
    } else {
      var rest := LimbValue(s[1..]);
      assert 0x1_0000_0000 == Pow2(32 - b) * Pow2(b) by { Pow2Add(32 - b, b); Pow2Known(); }
      Associate(rest, Pow2(32 - b), Pow2(b));
      LowOfSum(rest * Pow2(32 - b), b, s[0]);
    }
  }
}
