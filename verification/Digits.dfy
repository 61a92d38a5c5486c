/** Big-endian digit strings in base 2^L, the values they denote and the orders
    on them. Bytes are the digits with L = 8. */
module Digits {
  import opened Arithmetic
  import opened Bitwise

  type byte = x: nat | x < 256

  ghost predicate InBase(s: seq<nat>, L: nat) {
    forall i :: 0 <= i < |s| ==> s[i] < Pow2(L)
  }

  /** The number a big-endian digit string denotes. */
  function Value(s: seq<nat>, L: nat): nat {
    if s == [] then 0 else Value(s[..|s| - 1], L) * Pow2(L) + s[|s| - 1]
  }

  /** The n low digits of v, most significant first. */
  function DigitsOf(v: nat, L: nat, n: nat): (s: seq<nat>)
    ensures |s| == n
    decreases n
  {
    if n == 0 then [] else DigitsOf(Shr(v, L), L, n - 1) + [Low(v, L)]
  }

  lemma {:induction false} DigitAt(v: nat, L: nat, n: nat, i: nat)
    requires i < n
    ensures DigitsOf(v, L, n)[i] == Low(Shr(v, Width(L, n - 1 - i)), L)
    decreases n
  {
    if i == n - 1 {
    } else {
      DigitAt(Shr(v, L), L, n - 1, i);
      hide Shr, Low;
      ShrShr(v, L, Width(L, n - 2 - i));
    }
  }

  lemma {:induction false} DigitsInBase(v: nat, L: nat, n: nat)
    ensures InBase(DigitsOf(v, L, n), L)
    decreases n
  {
    if n > 0 {
      DigitsInBase(Shr(v, L), L, n - 1);
      ShrLow(v, L);
    }
  }

  function Bytes(v: nat, n: nat): (s: seq<byte>)
    ensures |s| == n
    ensures s == DigitsOf(v, 8, n)
  {
    DigitsInBase(v, 8, n);
    Pow2Known();
    DigitsOf(v, 8, n)
  }

  lemma BytesInBase(s: seq<byte>)
    ensures InBase(s, 8)
  {
    Pow2Known();
  }

  lemma ValueSnoc(s: seq<nat>, d: nat, L: nat)
    ensures Value(s + [d], L) == Value(s, L) * Pow2(L) + d
  {
    assert (s + [d])[..|s|] == s;
  }

  /** Reading digits back gives the value modulo 2^(L n). */
  lemma {:induction false} ValueOfDigits(v: nat, L: nat, n: nat)
    ensures Value(DigitsOf(v, L, n), L) == Low(v, Width(L, n))
    decreases n
  {
    if n > 0 {
      ValueOfDigits(Shr(v, L), L, n - 1);
      ValueSnoc(DigitsOf(Shr(v, L), L, n - 1), Low(v, L), L);
      ShrShr(v, L, Width(L, n - 1));
    }
  }

  lemma {:induction false} ValueBound(s: seq<nat>, L: nat)
    requires InBase(s, L)
    ensures Value(s, L) < Pow2(Width(L, |s|))
  {
    if s == [] {
    } else {
      var t, d := s[..|s| - 1], s[|s| - 1];
      ValueBound(t, L);
      hide Pow2, Shr, Low;
      Fields(Value(t, L), L, d);
      ShrBelow(Value(s, L), L, Width(L, |t|));
    }
  }

  /** A digit string is determined by its value and its length. */
  lemma {:induction false} DigitsOfValue(s: seq<nat>, L: nat)
    requires InBase(s, L)
    ensures DigitsOf(Value(s, L), L, |s|) == s
  {
    if s != [] {
      var t, d := s[..|s| - 1], s[|s| - 1];
      Fields(Value(t, L), L, d);
      DigitsOfValue(t, L);
      assert s == t + [d];
    }
  }

  lemma {:induction false} ValueConcat(s: seq<nat>, t: seq<nat>, L: nat)
    ensures Value(s + t, L) == Value(s, L) * Pow2(Width(L, |t|)) + Value(t, L)
    decreases |t|
  {
    hide *;
    if t == [] {
      assert s + t == s;
      EmptyValue(L);
      TimesOne(Value(s, L), Pow2(Width(L, 0)));
    } else {
      var t', d := t[..|t| - 1], t[|t| - 1];
      assert s + t == (s + t') + [d] && t == t' + [d];
      ValueConcat(s, t', L);
      ValueSnoc(s + t', d, L);
      ValueSnoc(t', d, L);
      Pow2Add(Width(L, |t'|), L);
      WidthSnoc(L, |t'|);
      ConcatStep(Value(s, L), Pow2(Width(L, |t'|)), Value(t', L), Pow2(L));
    }
  }

  lemma WidthSnoc(L: nat, n: nat) ensures Width(L, n + 1) == Width(L, n) + L {}

  lemma ConcatStep(a: nat, b: nat, c: nat, e: nat)
    ensures (a * b + c) * e == a * (b * e) + c * e
  {
    Distribute(a * b, c, e);
    Associate(a, b, e);
  }

  lemma EmptyValue(L: nat) ensures Value([], L) == 0 && Pow2(Width(L, 0)) == 1 {}

  lemma {:induction false} DigitsConcat(v: nat, L: nat, m: nat, n: nat)
    ensures DigitsOf(v, L, m + n) == DigitsOf(Shr(v, Width(L, n)), L, m) + DigitsOf(v, L, n)
    decreases n
  {
    if n == 0 {
    } else {
      hide Shr, Low;
      DigitsConcat(Shr(v, L), L, m, n - 1);
      ShrShr(v, L, Width(L, n - 1));
    }
  }

  function Zeros(n: nat): (s: seq<byte>)
    ensures |s| == n && forall i :: 0 <= i < n ==> s[i] == 0
  {
    seq(n, _ => 0)
  }

  // ---- XOR digit by digit ----

  function XorSeq(s: seq<nat>, t: seq<nat>): (r: seq<nat>)
    requires |s| == |t|
    ensures |r| == |s| && forall i :: 0 <= i < |s| ==> r[i] == Xor(s[i], t[i])
  {
    if s == [] then [] else XorSeq(s[..|s| - 1], t[..|t| - 1]) + [Xor(s[|s| - 1], t[|t| - 1])]
  }

  lemma XorSnoc(s: seq<nat>, a: nat, t: seq<nat>, b: nat)
    requires |s| == |t|
    ensures XorSeq(s + [a], t + [b]) == XorSeq(s, t) + [Xor(a, b)]
  {
    hide Xor;
    assert (s + [a])[..|s|] == s && (t + [b])[..|t|] == t;
  }

  lemma {:induction false} XorOfDigits(u: nat, v: nat, L: nat, n: nat)
    ensures DigitsOf(Xor(u, v), L, n) == XorSeq(DigitsOf(u, L, n), DigitsOf(v, L, n))
    decreases n
  {
    hide Xor, XorSeq;
    if n > 0 {
      XorShrLow(u, v, L);
      XorOfDigits(Shr(u, L), Shr(v, L), L, n - 1);
      XorSnoc(DigitsOf(Shr(u, L), L, n - 1), Low(u, L), DigitsOf(Shr(v, L), L, n - 1), Low(v, L));
    } else {
      assert |DigitsOf(Xor(u, v), L, n)| == 0;
    }
  }

  // ---- memcmp(s, t) < 0 ----

  /** The first position where s and t differ decides. */
  predicate Before(s: seq<nat>, t: seq<nat>)
    requires |s| == |t|
  {
    s != [] && (s[0] < t[0] || (s[0] == t[0] && Before(s[1..], t[1..])))
  }

  lemma {:induction false} BeforeConcat(s: seq<nat>, t: seq<nat>, s': seq<nat>, t': seq<nat>)
    requires |s| == |t| && |s'| == |t'|
    ensures Before(s + s', t + t') <==> Before(s, t) || (s == t && Before(s', t'))
  {
    if s == [] {
      assert s + s' == s' && t + t' == t';
    } else {
      assert (s + s')[1..] == s[1..] + s' && (t + t')[1..] == t[1..] + t';
      BeforeConcat(s[1..], t[1..], s', t');
      assert s == [s[0]] + s[1..] && t == [t[0]] + t[1..];
    }
  }

  lemma {:induction false} BeforeIsStrictOrder(s: seq<nat>, t: seq<nat>)
    requires |s| == |t|
    ensures Before(s, t) ==> s != t && !Before(t, s)
    ensures !Before(s, t) && !Before(t, s) ==> s == t
  {
    if s != [] {
      BeforeIsStrictOrder(s[1..], t[1..]);
      assert s == [s[0]] + s[1..] && t == [t[0]] + t[1..];
    }
  }

  /** Big-endian: lexicographic order of the digits is numeric order. */
  lemma {:induction false} BeforeIsLess(u: nat, v: nat, L: nat, n: nat)
    requires u < Pow2(Width(L, n)) && v < Pow2(Width(L, n))
    ensures Before(DigitsOf(u, L, n), DigitsOf(v, L, n)) <==> u < v
    decreases n
  {
    if n > 0 {
      hide Shr, Low, Pow2;
      ShrBelow(u, L, Width(L, n - 1));
      ShrBelow(v, L, Width(L, n - 1));
      var hu, hv, lu, lv := Shr(u, L), Shr(v, L), Low(u, L), Low(v, L);
      BeforeIsLess(hu, hv, L, n - 1);
      BeforeConcat(DigitsOf(hu, L, n - 1), DigitsOf(hv, L, n - 1), [lu], [lv]);
      ShrLow(u, L);
      ShrLow(v, L);
      DigitsAgree(hu, hv, L, n - 1);
      FieldOrder(hu, lu, hv, lv, Pow2(L));
    } else {
    }
  }

  lemma FieldOrder(a: nat, b: nat, c: nat, d: nat, m: nat)
    requires b < m && d < m
    ensures a * m + b < c * m + d <==> a < c || (a == c && b < d)
  {
    if a < c {
      MulStrict(a, c, m);
    } else if c < a {
      MulStrict(c, a, m);
    }
  }

  lemma DigitsAgree(u: nat, v: nat, L: nat, n: nat)
    requires u < Pow2(Width(L, n)) && v < Pow2(Width(L, n))
    ensures DigitsOf(u, L, n) == DigitsOf(v, L, n) <==> u == v
  {
    ValueOfDigits(u, L, n);
    ValueOfDigits(v, L, n);
    LowOfSmall(u, Width(L, n));
    LowOfSmall(v, Width(L, n));
  }

  // ---- writing through a pointer ----

  /** s with the bytes at j.. overwritten by t: one write through a pointer. */
  function Splice<T>(s: seq<T>, j: nat, t: seq<T>): (r: seq<T>)
    requires j + |t| <= |s|
    ensures |r| == |s|
  {
    s[..j] + t + s[j + |t|..]
  }

  lemma SpliceAppend<T>(s: seq<T>, t: seq<T>, e: seq<T>)
    requires |t| + |e| <= |s|
    ensures Splice(Splice(s, 0, t), |t|, e) == Splice(s, 0, t + e)
  {}

  lemma SpliceSnoc<T>(s: seq<T>, j: nat, t: seq<T>, b: T)
    requires j + |t| < |s|
    ensures Splice(Splice(s, j, t), j + |t|, [b]) == Splice(s, j, t + [b])
  {}

  lemma SpliceNothing<T>(s: seq<T>, j: nat)
    requires j <= |s|
    ensures Splice(s, j, []) == s
  {}

  lemma SplicePrefix<T>(s: seq<T>, j: nat, t: seq<T>)
    requires j + |t| <= |s|
    ensures Splice(s, j, t)[..j + |t|] == s[..j] + t
    ensures Splice(s, j, t)[j..j + |t|] == t && Splice(s, j, t)[..j] == s[..j]
  {}

  method Put<T>(out: array<T>, i: nat, b: T)
    requires i < out.Length
    modifies out
    ensures out[..] == Splice(old(out[..]), i, [b])
  {
    out[i] := b;
  }

  method PutPair<T>(out: array<T>, i: nat, a: T, b: T)
    requires i + 1 < out.Length
    modifies out
    ensures out[..] == Splice(old(out[..]), i, [a, b])
  {
    out[i], out[i + 1] := a, b;
  }
}
