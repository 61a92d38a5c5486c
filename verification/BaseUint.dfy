/** base_uint<BITS>: in-place arithmetic on an array of 32-bit limbs, for any
    number of limbs (src/uint256.h:27-296). */
module BaseUint {
  import opened Arithmetic
  import opened Bitwise
  import opened Limbs
  import opened Digits
  import opened Hex

  // ---- steps of the loops ----

  lemma AddLimb(x: seq<limb>, y: seq<limb>, low: seq<limb>, i: nat, carry: nat)
    requires i < |x| && i < |y| && |low| == i
    requires LimbValue(low) + Modulus(i) * carry == LimbValue(x[..i]) + LimbValue(y[..i])
    ensures var n := carry + x[i] + y[i];
            LimbValue(low + [n % 0x1_0000_0000]) + Modulus(i + 1) * (n / 0x1_0000_0000)
            == LimbValue(x[..i + 1]) + LimbValue(y[..i + 1])
  {
    hide LimbValue, Modulus;
    var n := carry + x[i] + y[i];
    var d, c := n % 0x1_0000_0000, n / 0x1_0000_0000;
    LimbSnoc(x, i);
    LimbSnoc(y, i);
    LimbConcat(low, [d]);
    OneLimb(d);
    AddAlgebra(Modulus(i), carry, x[i], y[i], d, c);
  }

  lemma OneLimb(d: limb) ensures LimbValue([d]) == d {}

  lemma AddAlgebra(m: nat, carry: nat, x: nat, y: nat, d: nat, c: nat)
    requires carry + x + y == d + 0x1_0000_0000 * c
    ensures m * d + 0x1_0000_0000 * m * c == m * carry + m * x + m * y
  {
    Distribute(d, 0x1_0000_0000 * c, m);
    Distribute(carry + x, y, m);
    Distribute(carry, x, m);
    Associate(0x1_0000_0000, m, c);
    Associate(0x1_0000_0000, c, m);
  }

  lemma {:induction false} ComplementValue(s: seq<limb>, t: seq<limb>)
    requires |s| == |t| && forall i :: 0 <= i < |s| ==> t[i] == 0xFFFF_FFFF - s[i]
    ensures LimbValue(s) + LimbValue(t) == Modulus(|s|) - 1
  {
    if s != [] {
      assert forall i :: 0 <= i < |s[1..]| ==> t[1..][i] == 0xFFFF_FFFF - s[1..][i];
      ComplementValue(s[1..], t[1..]);
    }
  }

  /** t is s with its i low limbs, all equal to from, replaced by to, and limb i by d. */
  ghost predicate Rippled(s: seq<limb>, t: seq<limb>, i: nat, from: limb, to: limb, d: limb) {
    && |s| == |t| && i < |s|
    && s[..i] == Repeat(from, i) && t == Repeat(to, i) + [d] + s[i + 1..]
  }

  /** The numbers before and after differ in the low limbs and in limb i only. */
  lemma RippleValue(s: seq<limb>, t: seq<limb>, i: nat, from: limb, to: limb, d: limb) returns (rest: nat, m: nat)
    requires Rippled(s, t, i, from, to, d)
    ensures m == Modulus(i)
    ensures LimbValue(s) == LimbValue(Repeat(from, i)) + m * s[i] + rest
    ensures LimbValue(t) == LimbValue(Repeat(to, i)) + m * d + rest
    ensures i == |s| - 1 ==> rest == 0 && Modulus(|s|) == 0x1_0000_0000 * m
  {
    hide LimbValue, Modulus;
    var tail := s[i + 1..];
    rest, m := Modulus(i + 1) * LimbValue(tail), Modulus(i);
    LimbSplit(s, i + 1);
    LimbSnoc(s, i);
    assert t[..i] == Repeat(to, i) && t[i + 1..] == tail;
    LimbSplit(t, i + 1);
    LimbSnoc(t, i);
    if i == |s| - 1 {
      assert tail == [];
      NoLimbs();
    }
  }

  lemma RippleLength(s: seq<limb>, t: seq<limb>, i: nat, from: limb, to: limb, d: limb)
    requires Rippled(s, t, i, from, to, d)
    ensures |s| == |t|
  {}

  lemma NoLimbs() ensures LimbValue([]) == 0 {}

  /** ++ and -- on a uint32_t */
  function Inc32(x: limb): limb { if x == 0xFFFF_FFFF then 0 else x + 1 }
  function Dec32(x: limb): limb { if x == 0 then 0xFFFF_FFFF else x - 1 }

  lemma IncrementValue(s: seq<limb>, t: seq<limb>, i: nat)
    requires i < |s| && Rippled(s, t, i, 0xFFFF_FFFF, 0, Inc32(s[i]))
    requires s[i] != 0xFFFF_FFFF || i == |s| - 1
    ensures LimbValue(t) == (LimbValue(s) + 1) % Modulus(|s|)
  {
    hide LimbValue, Modulus;
    var rest, m := RippleValue(s, t, i, 0xFFFF_FFFF, 0, Inc32(s[i]));
    RepeatValue(i);
    OneMore(m, s[i]);
    Reduced(LimbValue(s) + 1, |s|, if s[i] < 0xFFFF_FFFF then 0 else 1, t);
  }

  lemma DecrementValue(s: seq<limb>, t: seq<limb>, i: nat)
    requires i < |s| && Rippled(s, t, i, 0, 0xFFFF_FFFF, Dec32(s[i]))
    requires s[i] != 0 || i == |s| - 1
    ensures LimbValue(t) == (LimbValue(s) + Modulus(|s|) - 1) % Modulus(|s|)
  {
    hide LimbValue, Modulus, Rippled;
    var rest, m := RippleValue(s, t, i, 0, 0xFFFF_FFFF, Dec32(s[i]));
    RepeatValue(i);
    OneMore(m, Dec32(s[i]));
    ZeroLimbs(m);
    RippleLength(s, t, i, 0, 0xFFFF_FFFF, Dec32(s[i]));
    Reduced(LimbValue(s) + Modulus(|s|) - 1, |s|, if s[i] > 0 then 1 else 0, t);
  }

  // ---- shifts ----

  /** Limb j while <<= has handled the limbs below i of a. */
  function ShlState(a: seq<limb>, k: nat, b: nat, i: nat, j: nat): nat
    requires b < 32 && i <= |a| && j < |a|
  {
    if j < k || j > i + k then 0
    else if j < i + k then ShlLimb(a, j - k, b)
    else if i > 0 then Shr(a[i - 1], 32 - b) else 0
  }

  /** The two ORs of turn i complete limb i + k and start limb i + k + 1. */
  lemma ShlTurn(a: seq<limb>, k: nat, b: nat, i: nat)
    requires b < 32 && i < |a|
    ensures i + k < |a| ==>
      Or(ShlState(a, k, b, i, i + k), Low(a[i] * Pow2(b), 32)) == ShlState(a, k, b, i + 1, i + k) < 0x1_0000_0000
    ensures i + k + 1 < |a| ==>
      Or(ShlState(a, k, b, i, i + k + 1), Shr(a[i], 32 - b)) == ShlState(a, k, b, i + 1, i + k + 1) < 0x1_0000_0000
    ensures b == 0 ==> Shr(a[i], 32 - b) == 0
  {
    hide Low, Shr, Pow2, Or;
    SpillBound(a[i], b);
    OrZero(Shr(a[i], 32 - b));
    assert Pow2(0) == 1 by { NoShift(0); }
    Pow2Monotone(b, 32);
    Pow2Known();
    LowOfShl(a[i], b, 32 - b);
    ShlLimbInRange(a, i, b);
    if i > 0 { SpillBound(a[i - 1], b); }
    OrDisjointSwap(Low(a[i], 32 - b), b, if i > 0 then Shr(a[i - 1], 32 - b) else 0);
  }

  lemma {:induction false} ShlLimbsAt(s: seq<limb>, b: nat, m: nat)
    requires b < 32 && m <= |s|
    ensures ShlLimbs(s, b)[..m] == ShlLimbs(s[..m], b)
    ensures forall i :: 0 <= i < m ==> ShlLimbs(s, b)[i] == ShlLimb(s, i, b)
  {
    hide Low, Shr, Pow2;
    if s != [] {
      var n := |s| - 1;
      ShlLimbInRange(s, n, b);
      if m <= n {
        ShlLimbsAt(s[..n], b, m);
        assert s[..n][..m] == s[..m];
        assert forall i :: 0 <= i < m ==> ShlLimb(s[..n], i, b) == ShlLimb(s, i, b);
      } else {
        ShlLimbsAt(s[..n], b, n);
        assert s[..m] == s;
        assert forall i :: 0 <= i < n ==> ShlLimb(s[..n], i, b) == ShlLimb(s, i, b);
      }
    }
  }

  /** The limbs after <<= are the value times 2^(32 k + b), reduced. */
  lemma ShlTotal(a: seq<limb>, t: seq<limb>, k: nat, b: nat)
    requires b < 32 && |t| == |a| && forall j :: 0 <= j < |a| ==> t[j] == ShlState(a, k, b, |a|, j)
    ensures LimbValue(t) == LimbValue(a) * Pow2(32 * k + b) % Modulus(|a|)
  {
    hide Low, Shr, Pow2, LimbValue, Modulus, ShlLimb;
    if k >= |a| {
      assert t == Repeat(0, |a|);
      ShlAllOut(a, k, b);
    } else {
      var m := |a| - k;
      ShlLimbsAt(a, b, m);
      assert t == Repeat(0, k) + ShlLimbs(a[..m], b);
      ShlPartly(a, k, b);
    }
  }

  lemma ShlAllOut(a: seq<limb>, k: nat, b: nat)
    requires k >= |a|
    ensures LimbValue(Repeat(0, |a|)) == LimbValue(a) * Pow2(32 * k + b) % Modulus(|a|)
  {
    hide Pow2, LimbValue, Modulus;
    RepeatValue(|a|);
    ModulusIsPow2(|a|);
    Pow2Add(32 * |a|, 32 * (k - |a|) + b);
    Associate(LimbValue(a), Pow2(32 * (k - |a|) + b), Modulus(|a|));
    Reduced(LimbValue(a) * Pow2(32 * k + b), |a|, LimbValue(a) * Pow2(32 * (k - |a|) + b), Repeat(0, |a|));
  }

  lemma ShlPartly(a: seq<limb>, k: nat, b: nat)
    requires b < 32 && k < |a|
    ensures LimbValue(Repeat(0, k) + ShlLimbs(a[..|a| - k], b)) == LimbValue(a) * Pow2(32 * k + b) % Modulus(|a|)
  {
    hide Low, Shr, Pow2, LimbValue, Modulus, ShlLimbs;
    var m := |a| - k;
    var u := ShlLimbs(a[..m], b);
    RepeatValue(k);
    LimbConcat(Repeat(0, k), u);
    ShlValue(a[..m], b);
    LimbSplit(a, m);
    ModulusAdd(m, k);
    ModulusIsPow2(k);
    Pow2Add(32 * k, b);
    var spill := Shr(a[m - 1], 32 - b);
    ShlAlgebra(LimbValue(a[..m]), LimbValue(a[m..]), LimbValue(u), spill, Modulus(m), Modulus(k), Pow2(b));
    Reduced(LimbValue(a) * Pow2(32 * k + b), |a|, spill + LimbValue(a[m..]) * Pow2(b), Repeat(0, k) + u);
  }

  lemma ShlAlgebra(low: nat, rest: nat, u: nat, spill: nat, M: nat, K: nat, P: nat)
    requires u + M * spill == low * P
    ensures (low + M * rest) * (K * P) == (spill + rest * P) * (M * K) + K * u
  {
    Distribute(low, M * rest, P);
    Associate(M, rest, P);
    Distribute(spill, rest * P, M);
    assert (low + M * rest) * P == u + M * (spill + rest * P);
    Associate(low + M * rest, P, K);
    Distribute(u, M * (spill + rest * P), K);
    Associate(spill + rest * P, M, K);
  }

  /** Limb j while >>= has handled the limbs below i of a. */
  function ShrState(a: seq<limb>, k: nat, b: nat, i: nat, j: nat): nat
    requires b < 32 && i <= |a| && j < |a|
  {
    if j + k + 1 < i then ShrLimb(a[j + k..], b)
    else if j + k + 1 == i then Shr(a[i - 1], b)
    else 0
  }

  lemma ShrTurn(a: seq<limb>, k: nat, b: nat, i: nat)
    requires b < 32 && i < |a|
    ensures i >= k + 1 ==>
      Or(ShrState(a, k, b, i, i - k - 1), Low(a[i] * Pow2(32 - b), 32))
      == ShrState(a, k, b, i + 1, i - k - 1) < 0x1_0000_0000
    ensures i >= k ==>
      Or(ShrState(a, k, b, i, i - k), Shr(a[i], b)) == ShrState(a, k, b, i + 1, i - k) < 0x1_0000_0000
    ensures i >= k + 1 && b == 0 ==> ShrState(a, k, b, i + 1, i - k - 1) == ShrState(a, k, b, i, i - k - 1)
  {
    hide Low, Shr, Pow2, Or;
    SpillBound(a[i], 32 - b);
    OrZero(Shr(a[i], b));
    Pow2Monotone(32 - b, 32);
    Pow2Known();
    if i >= k + 1 {
      LowOfShl(a[i], 32 - b, b);
      SpillBound(a[i - 1], 32 - b);
      OrDisjointSwap(Low(a[i], b), 32 - b, Shr(a[i - 1], b));
      var s := a[i - 1..];
      ShrLimbInRange(s, b);
      assert ShrLimb(s, b) == Low(a[i], b) * Pow2(32 - b) + Shr(a[i - 1], b);
      assert Low(a[i], 0) == 0 by { NoShift(a[i]); }
    }
  }

  lemma {:induction false} ShrLimbsAt(s: seq<limb>, b: nat, j: nat)
    requires b < 32 && j < |s|
    ensures ShrLimbs(s, b)[j] == ShrLimb(s[j..], b)
  {
    hide Low, Shr, Pow2;
    if j > 0 {
      ShrLimbsAt(s[1..], b, j - 1);
      assert s[1..][j - 1..] == s[j..];
    }
  }

  /** The limbs after >>= are the value shifted right by 32 k + b. */
  lemma ShrTotal(a: seq<limb>, t: seq<limb>, k: nat, b: nat)
    requires b < 32 && |t| == |a| && forall j :: 0 <= j < |a| ==> t[j] == ShrState(a, k, b, |a|, j)
    ensures LimbValue(t) == Shr(LimbValue(a), 32 * k + b)
  {
    hide *;
    if k >= |a| {
      forall j | 0 <= j < |a|
        ensures t[j] == 0
      {
        ShrStateIs(a, k, b, j);
      }
      assert t == Repeat(0, |a|);
      RepeatValue(|a|);
      ModulusIsPow2(|a|);
      LimbBound(a);
      Pow2Monotone(32 * |a|, 32 * k + b);
      LowOfSmall(LimbValue(a), 32 * k + b);
    } else {
      var u := ShrLimbs(a[k..], b);
      forall j | 0 <= j < |a|
        ensures t[j] == (u + Repeat(0, k))[j]
      {
        ShrStateIs(a, k, b, j);
        if j < |a| - k {
          ShrLimbsAt(a[k..], b, j);
          assert a[k..][j..] == a[j + k..];
        }
      }
      assert t == u + Repeat(0, k);
      LimbConcat(u, Repeat(0, k));
      RepeatValue(k);
      ZeroLimbs(Modulus(|u|));
      ShrValue(a[k..], b);
      LimbsFrom(a, k);
      ShrOfShr(LimbValue(a), 32 * k, b);
    }
  }

  lemma ZeroLimbs(m: nat) ensures m * 0 == 0 {}

  /** When all limbs have been handled. */
  lemma ShrStateIs(a: seq<limb>, k: nat, b: nat, j: nat)
    requires b < 32 && j < |a|
    ensures ShrState(a, k, b, |a|, j) == if j + k < |a| then ShrLimb(a[j + k..], b) else 0
  {
    LastLimb(a, b);
  }

  lemma LastLimb(a: seq<limb>, b: nat)
    requires b < 32 && a != []
    ensures ShrLimb(a[|a| - 1..], b) == Shr(a[|a| - 1], b)
  {}

  class BaseUint {
    const pn: array<limb>

    constructor (width: nat)
      ensures fresh(pn) && pn.Length == width && Value() == 0
    {
      pn := new limb[width](i => 0);
      new;
      RepeatValue(width);
      assert pn[..] == Repeat(0, width);
    }

    /** The number the limbs denote. */
    function Value(): (v: nat)
      reads pn
      ensures v < Modulus(pn.Length)
    {
      LimbBound(pn[..]);
      LimbValue(pn[..])
    }

    // ---- addition, negation, subtraction ----

    /** x += b, also when b is x itself. */
    method AddAssign(b: BaseUint)
      requires b.pn.Length == pn.Length
      modifies pn
      ensures Value() == (old(Value()) + old(b.Value())) % Modulus(pn.Length)
    {
      hide LimbValue, Modulus;
      ghost var x, y := pn[..], b.pn[..];
      var carry: nat := 0;
      AddStart(x, y);
      for i := 0 to pn.Length
        invariant pn[i..] == x[i..] && b.pn[i..] == y[i..]
        invariant LimbValue(pn[..i]) + Modulus(i) * carry == LimbValue(x[..i]) + LimbValue(y[..i])
      {
        assert pn[i] == pn[i..][0] == x[i] && b.pn[i] == b.pn[i..][0] == y[i];
        var n := carry + pn[i] + b.pn[i];
        AddLimb(x, y, pn[..i], i, carry);
        ghost var low := pn[..i];
        pn[i] := n % 0x1_0000_0000;
        assert pn[..i + 1] == low + [n % 0x1_0000_0000];
        carry := n / 0x1_0000_0000;
      }
      assert pn[..pn.Length] == pn[..] && x[..pn.Length] == x && y[..pn.Length] == y;
      Reduced(LimbValue(x) + LimbValue(y), pn.Length, carry, pn[..]);
    }

    /** ~x */
    method Complement() returns (ret: BaseUint)
      ensures fresh(ret.pn) && ret.pn.Length == pn.Length
      ensures ret.Value() == Modulus(pn.Length) - 1 - Value()
    {
      ret := new BaseUint(pn.Length);
      for i := 0 to pn.Length
        invariant forall k :: 0 <= k < i ==> ret.pn[k] == 0xFFFF_FFFF - pn[k]
      {
        ret.pn[i] := 0xFFFF_FFFF - pn[i];
      }
      ComplementValue(pn[..], ret.pn[..]);
    }

    /** ++x */
    method Increment()
      requires pn.Length > 0
      modifies pn
      ensures Value() == (old(Value()) + 1) % Modulus(pn.Length)
    {
      ghost var x := pn[..];
      var i := 0;
      pn[i] := Inc32(pn[i]);
      while pn[i] == 0 && i < pn.Length - 1
        invariant i < pn.Length
        invariant Rippled(x, pn[..], i, 0xFFFF_FFFF, 0, Inc32(x[i]))
        decreases pn.Length - i
      {
        RippleNext(x, pn[..], i, 0xFFFF_FFFF, 0, 0, Inc32(x[i + 1]));
        i := i + 1;
        pn[i] := Inc32(pn[i]);
      }
      IncrementValue(x, pn[..], i);
    }

    /** --x */
    method Decrement()
      requires pn.Length > 0
      modifies pn
      ensures Value() == (old(Value()) + Modulus(pn.Length) - 1) % Modulus(pn.Length)
    {
      ghost var x := pn[..];
      var i := 0;
      pn[i] := Dec32(pn[i]);
      while pn[i] == 0xFFFF_FFFF && i < pn.Length - 1
        invariant i < pn.Length
        invariant Rippled(x, pn[..], i, 0, 0xFFFF_FFFF, Dec32(x[i]))
        decreases pn.Length - i
      {
        RippleNext(x, pn[..], i, 0, 0xFFFF_FFFF, 0xFFFF_FFFF, Dec32(x[i + 1]));
        i := i + 1;
        pn[i] := Dec32(pn[i]);
      }
      DecrementValue(x, pn[..], i);
    }

    /** -x */
    method Negate() returns (ret: BaseUint)
      requires pn.Length > 0
      ensures fresh(ret.pn) && ret.pn.Length == pn.Length
      ensures ret.Value() == (Modulus(pn.Length) - Value()) % Modulus(pn.Length)
    {
      ret := Complement();
      ret.Increment();
    }

    /** x -= b, also when b is x itself. */
    method SubAssign(b: BaseUint)
      requires b.pn.Length == pn.Length > 0
      modifies pn
      ensures Value() == (old(Value()) + Modulus(pn.Length) - old(b.Value())) % Modulus(pn.Length)
    {
      hide LimbValue, Modulus;
      var minus := b.Negate();
      SubtractMod(Value(), b.Value(), Modulus(pn.Length));
      AddAssign(minus);
    }

    // ---- comparisons ----

    method Less(b: BaseUint) returns (r: bool)
      requires b.pn.Length == pn.Length
      ensures r <==> Value() < b.Value()
    {
      hide LimbValue;
      for i := pn.Length downto 0
        invariant pn[i..] == b.pn[i..]
      {
        if pn[i] < b.pn[i] {
          LimbOrder(pn[..], b.pn[..], i);
          return true;
        } else if pn[i] > b.pn[i] {
          LimbOrder(b.pn[..], pn[..], i);
          return false;
        }
      }
      LimbEqual(pn[..], b.pn[..]);
      return false;
    }

    method LessOrEqual(b: BaseUint) returns (r: bool)
      requires b.pn.Length == pn.Length
      ensures r <==> Value() <= b.Value()
    {
      hide LimbValue;
      for i := pn.Length downto 0
        invariant pn[i..] == b.pn[i..]
      {
        if pn[i] < b.pn[i] {
          LimbOrder(pn[..], b.pn[..], i);
          return true;
        } else if pn[i] > b.pn[i] {
          LimbOrder(b.pn[..], pn[..], i);
          return false;
        }
      }
      LimbEqual(pn[..], b.pn[..]);
      return true;
    }

    method Greater(b: BaseUint) returns (r: bool)
      requires b.pn.Length == pn.Length
      ensures r <==> Value() > b.Value()
    {
      hide LimbValue;
      for i := pn.Length downto 0
        invariant pn[i..] == b.pn[i..]
      {
        if pn[i] > b.pn[i] {
          LimbOrder(b.pn[..], pn[..], i);
          return true;
        } else if pn[i] < b.pn[i] {
          LimbOrder(pn[..], b.pn[..], i);
          return false;
        }
      }
      LimbEqual(pn[..], b.pn[..]);
      return false;
    }

    method GreaterOrEqual(b: BaseUint) returns (r: bool)
      requires b.pn.Length == pn.Length
      ensures r <==> Value() >= b.Value()
    {
      hide LimbValue;
      for i := pn.Length downto 0
        invariant pn[i..] == b.pn[i..]
      {
        if pn[i] > b.pn[i] {
          LimbOrder(b.pn[..], pn[..], i);
          return true;
        } else if pn[i] < b.pn[i] {
          LimbOrder(pn[..], b.pn[..], i);
          return false;
        }
      }
      LimbEqual(pn[..], b.pn[..]);
      return true;
    }

    method Equal(b: BaseUint) returns (r: bool)
      requires b.pn.Length == pn.Length
      ensures r <==> Value() == b.Value()
    {
      hide LimbValue;
      LimbEqual(pn[..], b.pn[..]);
      for i := 0 to pn.Length
        invariant pn[..i] == b.pn[..i]
      {
        if pn[i] != b.pn[i] {
          assert pn[..][i] != b.pn[..][i];
          return false;
        }
      }
      assert pn[..] == pn[..pn.Length] && b.pn[..] == b.pn[..pn.Length];
      return true;
    }

    method NotEqual(b: BaseUint) returns (r: bool)
      requires b.pn.Length == pn.Length
      ensures r <==> Value() != b.Value()
    {
      var same := Equal(b);
      r := !same;
    }

    // ---- 64-bit words ----

    /** x = b, for a 64-bit b. */
    method AssignWord(b: nat)
      requires pn.Length >= 2 && b < 0x1_0000_0000_0000_0000
      modifies pn
      ensures Value() == b
    {
      pn[0] := b % 0x1_0000_0000;
      pn[1] := b / 0x1_0000_0000;
      for i := 2 to pn.Length
        invariant pn[0] == b % 0x1_0000_0000 && pn[1] == b / 0x1_0000_0000
        invariant forall k :: 2 <= k < i ==> pn[k] == 0
      {
        pn[i] := 0;
      }
      WordValue(pn[..]);
    }

    /** Get64(0) */
    method GetWord() returns (w: nat)
      requires pn.Length >= 2
      ensures w == Value() % 0x1_0000_0000_0000_0000
    {
      WordOfLimbs(pn[..]);
      w := Or(pn[0], (pn[1] as int) * 0x1_0000_0000);
    }

    // ---- text ----

    method GetByte(p: nat) returns (b: byte)
      requires p < 4 * pn.Length
      ensures b == Low(Shr(Value(), 8 * p), 8)
      ensures b == ByteOf(pn[..], p)
    {
      ByteOfValue(pn[..], p);
      b := ByteOf(pn[..], p);
    }

    method SetByte(p: nat, b: byte)
      requires p < 4 * pn.Length
      modifies pn
      ensures Value() + old(ByteOf(pn[..], p)) * Pow2(8 * p) == old(Value()) + b * Pow2(8 * p)
    {
      hide LimbValue, Pow2, WithByte, ByteOf;
      PatchLimbs(pn[..], p, b);
      ghost var next := pn[..][p / 4 := WithByte(pn[p / 4], p % 4, b)];
      pn[p / 4] := WithByte(pn[p / 4], p % 4, b);
      assert pn[..] == next;
    }

    /** All digits, most significant first. */
    method GetHex() returns (s: string)
      ensures s == HexOf(Value(), 8 * pn.Length)
    {
      hide LimbValue, Low, Shr, Modulus, HexOf, LowerDigit;
      s := [];
      var size := 4 * pn.Length;
      NoDigits(Value(), 8 * size);
      for i := 0 to size
        invariant s == HexOf(Shr(Value(), 8 * (size - i)), 2 * i)
      {
        var b := GetByte(size - i - 1);
        ghost var v := Shr(Value(), 8 * (size - i - 1));
        HexOfByte(v, 2 * i, b);
        ShrOfShr(Value(), 8 * (size - i - 1), 8);
        s := s + [LowerDigit(Low(Shr(b, 4), 4)), LowerDigit(Low(b, 4))];
      }
      NoShift(Value());
    }

    /** *p1 = d, where the bytes from p1 on are still zero. */
    method SetLowDigit(p1: nat, d: nat)
      requires p1 < 4 * pn.Length && d < 16 && Value() < Pow2(8 * p1)
      modifies pn
      ensures Value() == old(Value()) + Placed(d, 2 * p1)
    {
      hide LimbValue, Pow2, ByteOf;
      ByteHigh(pn[..], p1);
      SetByte(p1, d);
    }

    /** *p1 |= d << 4, where the bits above the low digit of byte p1 are still zero. */
    method SetHighDigit(p1: nat, d: nat)
      requires p1 < 4 * pn.Length && d < 16 && Value() < Pow2(8 * p1 + 4)
      modifies pn
      ensures Value() == old(Value()) + Placed(d, 2 * p1 + 1)
    {
      hide LimbValue, Pow2, ByteOf, Low, Shr;
      HighDigitFree(Value(), p1, d);
      var b := GetByte(p1);
      SetByte(p1, Nibbles(b, d));
    }

    method AddLowDigit(p1: nat, c: char, ghost D: string, ghost m: nat)
      requires m == 2 * p1 < |D| && c == D[|D| - 1 - m] && p1 < 4 * pn.Length
      requires Value() == BodyTail(D, m)
      modifies pn
      ensures Value() == BodyTail(D, m + 1)
    {
      hide *;
      BodyTurn(D, m);
      assert 4 * m == 8 * p1;
      SetLowDigit(p1, DigitValue(c));
    }

    method AddHighDigit(p1: nat, c: char, ghost D: string, ghost m: nat)
      requires m == 2 * p1 + 1 < |D| && c == D[|D| - 1 - m] && p1 < 4 * pn.Length
      requires Value() == BodyTail(D, m)
      modifies pn
      ensures Value() == BodyTail(D, m + 1)
    {
      hide *;
      BodyTurn(D, m);
      assert 4 * m == 8 * p1 + 4;
      SetHighDigit(p1, DigitValue(c));
    }

    /** Spaces and a prefix 0x are skipped; of the run of hex digits that follows the
        lowest 8 * width digits count. */
    method SetHex(str: string)
      modifies pn
      ensures Value() == HexValue(HexBody(str)) % Modulus(pn.Length)
    {
      hide *;
      SetZero();
      ValueIs();
      AllZero(pn[..]);
      var start := FindNonSpace(str, 0);
      var pbegin := SkipPrefix(str, start);
      ghost var D := HexBody(str);
      BodyIsRun(str);
      var end := FindNonDigit(str, pbegin);
      var psz := (end as int) - 1;
      var p1, pend := 0, 4 * pn.Length;
      ghost var m := 0;
      NoHex(D);
      while psz >= pbegin && p1 < pend
        invariant psz == pbegin + |D| - 1 - m && m <= |D|
        invariant p1 <= pend && (m == 2 * p1 || (m == |D| && m == 2 * p1 + 1 && p1 < pend))
        invariant Value() == BodyTail(D, m)
        decreases |D| - m
      {
        BodyChar(str, pbegin, D, m);
        AddLowDigit(p1, str[psz], D, m);
        psz := psz - 1;
        m := m + 1;
        if psz >= pbegin {
          BodyChar(str, pbegin, D, m);
          AddHighDigit(p1, str[psz], D, m);
          psz := psz - 1;
          m := m + 1;
          p1 := p1 + 1;
        }
      }
      BodyEnds(D, m, pn.Length);
    }

    lemma ValueIs()
      ensures Value() == LimbValue(pn[..])
    {}

    // ---- shifts ----

    /** x <<= shift: multiplication by 2^shift modulo 2^BITS. */
    method ShlAssign(shift: nat)
      modifies pn
      ensures Value() == old(Value()) * Pow2(shift) % Modulus(pn.Length)
    {
      hide LimbValue, Modulus, ShlState, Low, Shr, Pow2, Or;
      var a := pn[..];
      SetZero();
      var k, b := shift / 32, shift % 32;
      ShlStart(a, k, b);
      for i := 0 to pn.Length
        invariant forall j :: 0 <= j < pn.Length ==> pn[j] == ShlState(a, k, b, i, j)
      {
        ShlTurn(a, k, b, i);
        ShlUntouched(a, k, b, i);
        if i + k + 1 < pn.Length && b != 0 {
          pn[i + k + 1] := Or(pn[i + k + 1], Shr(a[i], 32 - b));
        }
        if i + k < pn.Length {
          pn[i + k] := Or(pn[i + k], Low(a[i] * Pow2(b), 32));
        }
      }
      ShlTotal(a, pn[..], k, b);
    }

    /** x >>= shift: division by 2^shift, rounded down. */
    method ShrAssign(shift: nat)
      modifies pn
      ensures Value() == Shr(old(Value()), shift)
    {
      hide LimbValue, Modulus, ShrState, Low, Shr, Pow2, Or;
      var a := pn[..];
      SetZero();
      var k, b := shift / 32, shift % 32;
      ShrStart(a, k, b);
      for i := 0 to pn.Length
        invariant forall j :: 0 <= j < pn.Length ==> pn[j] == ShrState(a, k, b, i, j)
      {
        ShrTurn(a, k, b, i);
        ShrUntouched(a, k, b, i);
        if i - k - 1 >= 0 && b != 0 {
          pn[i - k - 1] := Or(pn[i - k - 1], Low(a[i] * Pow2(32 - b), 32));
        }
        if i - k >= 0 {
          pn[i - k] := Or(pn[i - k], Shr(a[i], b));
        }
      }
      ShrTotal(a, pn[..], k, b);
    }

    method SetZero()
      modifies pn
      ensures forall j :: 0 <= j < pn.Length ==> pn[j] == 0
    {
      for i := 0 to pn.Length
        invariant forall j :: 0 <= j < i ==> pn[j] == 0
      {
        pn[i] := 0;
      }
    }
  }

  lemma ShlStart(a: seq<limb>, k: nat, b: nat)
    requires b < 32
    ensures forall j :: 0 <= j < |a| ==> ShlState(a, k, b, 0, j) == 0
  {}

  lemma ShrStart(a: seq<limb>, k: nat, b: nat)
    requires b < 32
    ensures forall j :: 0 <= j < |a| ==> ShrState(a, k, b, 0, j) == 0
  {}

  lemma ShlUntouched(a: seq<limb>, k: nat, b: nat, i: nat)
    requires b < 32 && i < |a|
    ensures forall j :: 0 <= j < |a| && j != i + k && j != i + k + 1 ==>
      ShlState(a, k, b, i + 1, j) == ShlState(a, k, b, i, j)
    ensures i + k + 1 < |a| ==> ShlState(a, k, b, i, i + k + 1) == 0
    ensures i + k + 1 < |a| ==> ShlState(a, k, b, i + 1, i + k + 1) == Shr(a[i], 32 - b)
  {}

  lemma ShrUntouched(a: seq<limb>, k: nat, b: nat, i: nat)
    requires b < 32 && i < |a|
    ensures forall j :: 0 <= j < |a| && j != i - k && j != i - k - 1 ==>
      ShrState(a, k, b, i + 1, j) == ShrState(a, k, b, i, j)
  {}

  lemma AddStart(x: seq<limb>, y: seq<limb>)
    ensures LimbValue(x[..0]) == 0 && LimbValue(y[..0]) == 0 && Modulus(0) == 1 && LimbValue([]) == 0
  {}

  lemma RippleNext(s: seq<limb>, t: seq<limb>, i: nat, from: limb, to: limb, d: limb, e: limb)
    requires Rippled(s, t, i, from, to, d) && i + 1 < |s| && d == to && s[i] == from
    ensures t[i + 1] == s[i + 1] && Rippled(s, t[i + 1 := e], i + 1, from, to, e)
  {
    assert s[..i + 1] == Repeat(from, i + 1);
    assert Repeat(to, i + 1) == Repeat(to, i) + [to];
  }

  lemma SubtractMod(x: nat, y: nat, m: nat)
    requires x < m && y < m
    ensures (x + (m - y) % m) % m == (x + m - y) % m
  {
    if y == 0 {
      DivModUnique(m, m, 1, 0);
      DivModUnique(x, m, 0, x);
      DivModUnique(x + m, m, 1, x);
    } else {
      DivModUnique(m - y, m, 0, m - y);
    }
  }

  /** Subtracting what was added restores the value. */
  lemma AddThenSubtract(x: nat, y: nat, m: nat)
    requires x < m && y < m
    ensures ((x + y) % m + m - y) % m == x
  {
    if x + y < m {
      DivModUnique(x + y, m, 0, x + y);
      DivModUnique(x + m, m, 1, x);
    } else {
      DivModUnique(x + y, m, 1, x + y - m);
      DivModUnique(x, m, 0, x);
    }
  }

  lemma WordValue(s: seq<limb>)
    requires |s| >= 2 && forall k :: 2 <= k < |s| ==> s[k] == 0
    ensures LimbValue(s) == s[0] as int + 0x1_0000_0000 * (s[1] as int)
  {
    assert s[2..] == Repeat(0, |s| - 2);
    RepeatValue(|s| - 2);
    assert s[1..][1..] == s[2..];
  }

  lemma WordOfLimbs(s: seq<limb>)
    requires |s| >= 2
    ensures Or(s[0], (s[1] as int) * 0x1_0000_0000) == LimbValue(s) % 0x1_0000_0000_0000_0000
  {
    Pow2Known();
    OrDisjointSwap(s[1], 32, s[0]);
    assert s[1..][1..] == s[2..] && s[1..][0] == s[1];
    assert LimbValue(s[1..]) == s[1] as int + 0x1_0000_0000 * LimbValue(s[2..]);
    DivModUnique(LimbValue(s), 0x1_0000_0000_0000_0000, LimbValue(s[2..]),
            s[0] as int + 0x1_0000_0000 * (s[1] as int));
  }

  // ---- bytes of the limbs ----

  /** The byte at address p of the limb array. */
  function ByteOf(s: seq<limb>, p: nat): (b: byte)
    requires p < 4 * |s|
  {
    LowByte(Shr(s[p / 4], 8 * (p % 4)));
    Low(Shr(s[p / 4], 8 * (p % 4)), 8)
  }

  /** It is byte p of the memory image of the number. */
  lemma ByteOfValue(s: seq<limb>, p: nat)
    requires p < 4 * |s|
    ensures ByteOf(s, p) == Low(Shr(LimbValue(s), 8 * p), 8)
  {
    hide *;
    var q, t := p / 4, p % 4;
    LimbsFrom(s, q);
    LimbHead(s[q..]);
    ByteOfWord(LimbValue(s[q..]), t);
    ShrOfShr(LimbValue(s), 32 * q, 8 * t);
    assert 32 * q + 8 * t == 8 * p;
    ByteOfLimb(s, p);
  }

  lemma ByteOfLimb(s: seq<limb>, p: nat)
    requires p < 4 * |s|
    ensures ByteOf(s, p) == Low(Shr(s[p / 4], 8 * (p % 4)), 8)
  {}

  lemma LimbsFrom(s: seq<limb>, q: nat)
    requires q <= |s|
    ensures Shr(LimbValue(s), 32 * q) == LimbValue(s[q..])
  {
    hide *;
    LimbSplit(s, q);
    ModulusIsPow2(q);
    LimbBound(s[..q]);
    Fields(LimbValue(s[q..]), 32 * q, LimbValue(s[..q]));
  }

  /** A byte of the low word is a byte of the whole number. */
  lemma ByteOfWord(v: nat, t: nat)
    requires t < 4
    ensures Low(Shr(Low(v, 32), 8 * t), 8) == Low(Shr(v, 8 * t), 8)
  {
    hide *;
    ShrOfLow(v, 8 * t, 32 - 8 * t);
    ShrOfLow(Shr(v, 8 * t), 8, 24 - 8 * t);
    ShrOfLow(Low(Shr(v, 8 * t), 32 - 8 * t), 0, 8);
  }

  lemma LimbHead(s: seq<limb>)
    requires s != []
    ensures Low(LimbValue(s), 32) == s[0]
  {
    hide Low, Shr, Pow2;
    Pow2Known();
    LowOfSum(LimbValue(s[1..]), 32, s[0]);
    LowOfSmall(s[0], 32);
  }

  /** x with its 8 bits from bit q on replaced by b. */
  function Patched(x: nat, q: nat, b: nat): nat {
    Shr(x, q + 8) * Pow2(q + 8) + b * Pow2(q) + Low(x, q)
  }

  lemma PatchedValue(x: nat, q: nat, b: nat)
    requires x < Pow2(32) && q <= 24 && b < Pow2(8)
    ensures Patched(x, q, b) < Pow2(32)
    ensures Patched(x, q, b) + Low(Shr(x, q), 8) * Pow2(q) == x + b * Pow2(q)
  {
    hide Low, Shr, Pow2;
    ShrLow(x, q);
    SplitField(x, q);
    ShrBelow(x, q + 8, 24 - q);
    FieldsBelow(b, 8, Low(x, q), q);
    FieldsBelow(Shr(x, q + 8), 24 - q, b * Pow2(q) + Low(x, q), q + 8);
  }

  /** Limb x with its byte t replaced by b. */
  function WithByte(x: limb, t: nat, b: byte): (y: limb)
    requires t < 4
    ensures y == Patched(x, 8 * t, b)
  {
    Pow2Known();
    PatchedValue(x, 8 * t, b);
    Patched(x, 8 * t, b)
  }

  /** Replacing one byte changes the number by that byte. */
  lemma PatchLimbs(s: seq<limb>, p: nat, b: byte)
    requires p < 4 * |s|
    ensures LimbValue(s[p / 4 := WithByte(s[p / 4], p % 4, b)]) + ByteOf(s, p) * Pow2(8 * p)
         == LimbValue(s) + b * Pow2(8 * p)
  {
    hide Low, Shr, Pow2, LimbValue, Modulus, Patched, WithByte;
    var q, t := p / 4, p % 4;
    var x, c := s[q], ByteOf(s, p);
    var y := WithByte(x, t, b);
    var s' := s[q := y];
    Pow2Known();
    PatchedValue(x, 8 * t, b);
    assert s'[..q] == s[..q] && s'[q + 1..] == s[q + 1..];
    LimbSplit(s, q + 1);
    LimbSplit(s', q + 1);
    LimbSnoc(s, q);
    LimbSnoc(s', q);
    ModulusIsPow2(q);
    Pow2Add(32 * q, 8 * t);
    PatchAlgebra(Pow2(32 * q), Pow2(8 * t), x, y, b, c);
  }

  lemma PatchAlgebra(m: nat, k: nat, x: nat, y: nat, b: nat, c: nat)
    requires y + c * k == x + b * k
    ensures m * y + c * (m * k) == m * x + b * (m * k)
  {
    Distribute(y, c * k, m);
    Distribute(x, b * k, m);
    Associate(c, k, m);
    Associate(b, k, m);
  }

  lemma ByteHigh(s: seq<limb>, p: nat)
    requires p < 4 * |s| && LimbValue(s) < Pow2(8 * p)
    ensures ByteOf(s, p) == 0
  {
    hide Low, Shr, Pow2, LimbValue;
    ByteOfValue(s, p);
    LowOfSmall(LimbValue(s), 8 * p);
    LowOfSmall(0, 8);
  }

  lemma NoDigits(v: nat, n: nat)
    ensures HexOf(Shr(v, n), 0) == []
  {}

  lemma AllZero(s: seq<limb>)
    requires forall j :: 0 <= j < |s| ==> s[j] == 0
    ensures LimbValue(s) == 0
  {
    assert s == Repeat(0, |s|);
    RepeatValue(|s|);
  }

  lemma NoHex(D: string)
    ensures BodyTail(D, 0) == 0
  {}

  lemma BodyIsRun(s: string)
    ensures var i := SkipPrefix(s, SkipSpaces(s, 0)); HexBody(s) == s[i..i + HexRun(s, i)]
  {}

  /** The number the m last digits of D denote. */
  ghost function BodyTail(D: string, m: nat): nat
    requires m <= |D|
  {
    HexValue(D[|D| - m..])
  }

  lemma BodyTailIs(D: string, m: nat)
    requires m <= |D|
    ensures BodyTail(D, m) == HexValue(D[|D| - m..])
  {}

  lemma BodyChar(s: string, i: nat, D: string, m: nat)
    requires i + |D| <= |s| && D == s[i..i + |D|] && m < |D|
    ensures s[i + |D| - 1 - m] == D[|D| - 1 - m]
  {}

  /** The digit before the m last ones. */
  lemma BodyTurn(D: string, m: nat)
    requires m < |D|
    ensures BodyTail(D, m + 1) == Placed(DigitValue(D[|D| - m - 1]), m) + BodyTail(D, m)
    ensures BodyTail(D, m) < Pow2(4 * m)
  {
    hide *;
    BodyTailIs(D, m);
    BodyTailIs(D, m + 1);
    HexBound(D[|D| - m..]);
    assert D[|D| - m - 1..] == [D[|D| - m - 1]] + D[|D| - m..];
    HexConcat([D[|D| - m - 1]], D[|D| - m..]);
    HexSingle(D[|D| - m - 1]);
    PlacedIs(DigitValue(D[|D| - m - 1]), m);
  }

  /** The digit d at position m of a hex number, counted from the end. */
  function Placed(d: nat, m: nat): nat { d * Pow2(4 * m) }

  lemma PlacedIs(d: nat, m: nat) ensures Placed(d, m) == d * Pow2(4 * m) {}

  lemma BodyEnds(D: string, m: nat, width: nat)
    requires m <= |D| && (m == 8 * width || (m == |D| && m <= 8 * width))
    ensures BodyTail(D, m) == HexValue(D) % Modulus(width)
  {
    hide *;
    BodyTailIs(D, m);
    HexBound(D[|D| - m..]);
    ModulusIsPow2(width);
    if m == |D| {
      assert D[|D| - m..] == D;
      Pow2Monotone(4 * m, 32 * width);
      DivModUnique(HexValue(D), Modulus(width), 0, HexValue(D));
    } else {
      assert D == D[..|D| - m] + D[|D| - m..];
      HexConcat(D[..|D| - m], D[|D| - m..]);
      DivModUnique(HexValue(D), Modulus(width), HexValue(D[..|D| - m]), BodyTail(D, m));
    }
  }

  /** SetHex reads back what GetHex printed. */
  lemma HexRoundTrip(v: nat, width: nat)
    requires v < Modulus(width)
    ensures HexValue(HexBody(HexOf(v, 8 * width))) % Modulus(width) == v
  {
    hide HexValue, HexOf, Modulus, Pow2, Low, DigitValue;
    var s := HexOf(v, 8 * width);
    HexOfValue(v, 8 * width);
    ModulusIsPow2(width);
    LowOfSmall(v, 32 * width);
    assert width > 0 ==> IsHexDigit(s[0]) && IsHexDigit(s[1]);
    SkipSpacesAt(s, 0, 0);
    RunOfHex(s);
    assert HexBody(s) == s;
    DivModUnique(v, Modulus(width), 0, v);
  }

  /** What ORing d << 4 into byte p adds to a number whose higher bits are zero. */
  lemma HighDigitFree(v: nat, p: nat, d: nat)
    requires v < Pow2(8 * p + 4) && d < 16
    ensures Low(Shr(v, 8 * p), 8) < 16
    ensures var b := Low(Shr(v, 8 * p), 8);
            (16 * d + b) * Pow2(8 * p) == b * Pow2(8 * p) + d * Pow2(8 * p + 4)
  {
    hide Low, Shr, Pow2;
    Pow2Known();
    ShrBelow(v, 8 * p, 4);
    LowOfSmall(Shr(v, 8 * p), 8);
    Pow2Add(4, 8 * p);
    var b := Low(Shr(v, 8 * p), 8);
    Distribute(16 * d, b, Pow2(8 * p));
    Associate(d, 16, Pow2(8 * p));
  }
}
