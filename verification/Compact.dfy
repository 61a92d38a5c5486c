/** The compact ("nBits") form of targets: what the three decoders compute, and what
    encoding loses (src/main.cpp:68-80,449-456, src/uint256.h:594-614,
    src/bignum.h:289-330; Zcash Protocol Specification, section 7.7.4). */
module Compact {
  import opened Arithmetic
  import opened Bitwise
  import opened Limbs
  import opened BaseUint

  /** mantissa * 256^(size - 3), rounded down for sizes below 3. */
  function Scaled(mantissa: nat, size: nat): nat {
    if size <= 3 then Shr(mantissa, 8 * (3 - size)) else mantissa * Pow2(8 * (size - 3))
  }

  /** The magnitude a compact word denotes: its sign bit does not count. */
  function TargetOf(bits: nat): nat { Scaled(Low(bits, 23), Shr(bits, 24)) }

  /** The words that denote no target: those without mantissa bits, or with none left
      of them by a size below 3. */
  lemma TargetVanishes(bits: nat)
    ensures TargetOf(bits) == 0 <==>
      || Low(bits, 23) == 0
      || (Shr(bits, 24) < 3 && Low(bits, 23) < Pow2(8 * (3 - Shr(bits, 24))))
  {
    hide Low, Shr, Pow2;
    var m, n := Low(bits, 23), Shr(bits, 24);
    NoShift(m);
    if n < 3 {
      ShrBelow(m, 8 * (3 - n), 0);
    } else if n > 3 {
      PowPositive(8 * (n - 3));
    }
  }

  /** BN_num_bytes */
  function NumBytes(v: nat): nat {
    if v == 0 then 0 else 1 + NumBytes(v / 256)
  }

  lemma {:induction false} NumBytesRange(v: nat, n: nat)
    ensures v < Pow2(8 * n) <==> NumBytes(v) <= n
    decreases n
  {
    if v > 0 && n > 0 {
      NumBytesRange(v / 256, n - 1);
      assert Pow2(8 * n) == 256 * Pow2(8 * (n - 1)) by { Pow2Add(8, 8 * (n - 1)); Pow2Known(); }
    }
  }

  lemma NumBytesMonotone(u: nat, v: nat)
    requires u <= v
    ensures NumBytes(u) <= NumBytes(v)
  {
    NumBytesRange(v, NumBytes(v));
    NumBytesRange(u, NumBytes(v));
  }

  /** The size field: the bytes of v and its sign bit. */
  function CompactSize(v: nat): nat { NumBytes(2 * v) }

  /** v without the bits the mantissa has no room for. */
  function Rounded(v: nat): nat {
    var k := if CompactSize(v) <= 3 then 0 else CompactSize(v) - 3;
    Shr(v, 8 * k) * Pow2(8 * k)
  }

  /** The mantissa and the size GetCompact computes before packing them. */
  function Encode(v: nat): (r: (nat, nat)) {
    var n := NumBytes(v);
    var m := if n <= 3 then v * Pow2(8 * (3 - n)) else Shr(v, 8 * (n - 3));
    if m >= 0x80_0000 then (Shr(m, 8), n + 1) else (m, n)
  }

  // ---- encoding ----

  lemma ScaleUp(v: nat, n: nat)
    requires n <= 3
    ensures Shr(v * Pow2(8 * (3 - n)), 8 * (3 - n)) == v
    ensures v * Pow2(8 * (3 - n)) < Pow2(24) <==> v < Pow2(8 * n)
    ensures n > 0 ==> (v * Pow2(8 * (3 - n)) < Pow2(23) <==> v < Pow2(8 * n - 1))
  {
    hide Shr, Low, Pow2;
    var q := 8 * (3 - n);
    PowPositive(q);
    Fields(v, q, 0);
    ShrBelow(v * Pow2(q), q, 8 * n);
    if n > 0 { ShrBelow(v * Pow2(q), q, 8 * n - 1); }
  }

  lemma SizeFacts(v: nat, n: nat)
    requires n == NumBytes(v)
    ensures v < Pow2(8 * n) && n <= CompactSize(v) <= n + 1
    ensures n == 0 ==> v == 0 && CompactSize(v) == 0
    ensures n > 0 ==> (CompactSize(v) == n <==> v < Pow2(8 * n - 1))
  {
    hide NumBytes, Pow2;
    NumBytesRange(v, n);
    NumBytesRange(2 * v, n + 1);
    NumBytesMonotone(v, 2 * v);
    BelowTwice(v, 8 * n);
    Pow2Monotone(8 * n + 1, 8 * (n + 1));
    if n > 0 {
      NumBytesRange(2 * v, n);
      BelowTwice(v, 8 * n - 1);
    } else {
      NoShift(v);
      NumBytesRange(0, 0);
    }
  }

  lemma BelowTwice(v: nat, q: nat)
    ensures v < Pow2(q) <==> 2 * v < Pow2(q + 1)
  {}

  /** The unshifted mantissa has at most 24 bits, and 24 bits exactly when the top
      bit of the number's first byte is set. */
  lemma RawMantissa(v: nat)
    ensures var n := NumBytes(v);
            var m := if n <= 3 then v * Pow2(8 * (3 - n)) else Shr(v, 8 * (n - 3));
            && m < Pow2(24)
            && (m < Pow2(23) <==> CompactSize(v) == n)
            && (m >= Pow2(23) <==> CompactSize(v) == n + 1)
  {
    hide Shr, Low, NumBytes, CompactSize, Pow2;
    var n := NumBytes(v);
    SizeFacts(v, n);
    if n <= 3 {
      ScaleUp(v, n);
      Pow2Known();
    } else {
      ShrBelow(v, 8 * (n - 3), 24);
      ShrBelow(v, 8 * (n - 3), 23);
    }
  }

  /** What GetCompact packs denotes the rounded number. */
  lemma EncodeMeans(v: nat)
    ensures var (m, s) := Encode(v);
            m < 0x80_0000 && s == CompactSize(v) && Scaled(m, s) == Rounded(v)
  {
    hide Shr, Low, NumBytes, CompactSize, Pow2, Scaled, Rounded;
    RawMantissa(v);
    Pow2Known();
    var n := NumBytes(v);
    var m := if n <= 3 then v * Pow2(8 * (3 - n)) else Shr(v, 8 * (n - 3));
    ShrBelow(m, 8, 16);
    if n <= 3 {
      ShortMantissa(v, m, n);
    } else {
      LongMantissa(v, m, n);
    }
  }

  /** A number of up to three bytes keeps all its bits. */
  lemma ShortMantissa(v: nat, m: nat, n: nat)
    requires n <= 3 && m == v * Pow2(8 * (3 - n)) && m < 0x100_0000
    requires CompactSize(v) == if m < 0x80_0000 then n else n + 1
    ensures Scaled(if m < 0x80_0000 then m else Shr(m, 8), CompactSize(v)) == Rounded(v)
  {
    hide Shr, Low, NumBytes, CompactSize, Pow2;
    Pow2Known();
    ScaleUp(v, n);
    NoShift(v);
    NoShift(m);
    if m >= 0x80_0000 && n <= 2 {
      ShrOfShr(m, 8, 8 * (2 - n));
    }
  }

  /** Of a longer number the leading bits are kept. */
  lemma LongMantissa(v: nat, m: nat, n: nat)
    requires n > 3 && m == Shr(v, 8 * (n - 3))
    requires CompactSize(v) == if m < 0x80_0000 then n else n + 1
    ensures Scaled(if m < 0x80_0000 then m else Shr(m, 8), CompactSize(v)) == Rounded(v)
  {
    hide Shr, Low, NumBytes, CompactSize, Pow2;
    ShrOfShr(v, 8 * (n - 3), 8);
  }

  // ---- what rounding keeps ----

  /** A number of compact size c lies between two powers. */
  lemma SizeRange(v: nat, c: nat)
    requires c == CompactSize(v)
    ensures c <= 3 ==> v < Pow2(23)
    ensures c > 3 ==> Pow2(8 * (c - 3) + 15) <= v < Pow2(8 * (c - 3) + 23)
  {
    hide NumBytes, Pow2;
    if c <= 3 {
      NumBytesRange(2 * v, 3);
      BelowTwice(v, 23);
    } else {
      NumBytesRange(2 * v, c);
      NumBytesRange(2 * v, c - 1);
      BelowTwice(v, 8 * c - 1);
      BelowTwice(v, 8 * (c - 1) - 1);
    }
  }

  lemma RoundedParts(v: nat)
    ensures var k := if CompactSize(v) <= 3 then 0 else CompactSize(v) - 3;
            && v == Rounded(v) + Low(v, 8 * k) && Low(v, 8 * k) < Pow2(8 * k)
            && (k > 0 ==> Pow2(8 * k) * Pow2(15) <= v)
            && v < Pow2(23 + 8 * k)
  {
    hide Shr, Low, NumBytes, CompactSize, Pow2;
    var c := CompactSize(v);
    var k := if c <= 3 then 0 else c - 3;
    ShrLow(v, 8 * k);
    SizeRange(v, c);
    Pow2Add(8 * k, 15);
  }

  /** Rounding loses less than one part in 2^15. */
  lemma RoundedClose(v: nat)
    ensures Rounded(v) <= v
    ensures v > 0 ==> (v - Rounded(v)) * 0x8000 < v
  {
    hide Shr, Low, NumBytes, CompactSize, Rounded;
    RoundedParts(v);
    Pow2Known();
    var k := if CompactSize(v) <= 3 then 0 else CompactSize(v) - 3;
    NoShift(v);
  }

  /** Rounding is monotone. */
  lemma RoundedMonotone(u: nat, v: nat)
    requires u <= v
    ensures Rounded(u) <= Rounded(v)
  {
    hide Shr, Low, NumBytes, Pow2;
    NumBytesMonotone(2 * u, 2 * v);
    var c, d := CompactSize(u), CompactSize(v);
    var j, k := if c <= 3 then 0 else c - 3, if d <= 3 then 0 else d - 3;
    if j == k {
      ShrMonotone(u, v, 8 * j);
      MulMonotone(Shr(u, 8 * j), Shr(v, 8 * j), Pow2(8 * j));
    } else {
      RoundedParts(u);
      RoundedParts(v);
      Pow2Add(8 * k, 15);
      Pow2Monotone(23 + 8 * j, 15 + 8 * k);
      MultipleAtLeast(v, 8 * k, 15);
    }
  }

  /** Rounding down to a multiple of 2^q keeps v above 2^(q + p). */
  lemma MultipleAtLeast(v: nat, q: nat, p: nat)
    requires v >= Pow2(q + p)
    ensures Shr(v, q) * Pow2(q) >= Pow2(q + p)
  {
    hide Shr, Low, Pow2;
    ShrBelow(v, q, p);
    MulMonotone(Pow2(p), Shr(v, q), Pow2(q));
    Pow2Add(p, q);
  }

  /** A rounded number has the size and the mantissa of the number it came from. */
  lemma RoundedStable(v: nat)
    ensures CompactSize(Rounded(v)) == CompactSize(v)
    ensures Rounded(Rounded(v)) == Rounded(v)
  {
    hide Shr, Low, NumBytes, Pow2;
    var c := CompactSize(v);
    RoundedParts(v);
    NoShift(v);
    if c > 3 {
      var k, r := c - 3, Rounded(v);
      SizeRange(v, c);
      MultipleAtLeast(v, 8 * k, 15);
      SizeFrom(r, c);
      PowPositive(8 * k);
      Fields(Shr(v, 8 * k), 8 * k, 0);
    }
  }

  lemma SizeFrom(v: nat, c: nat)
    requires c > 3 && Pow2(8 * (c - 3) + 15) <= v < Pow2(8 * (c - 3) + 23)
    ensures CompactSize(v) == c
  {
    hide NumBytes, Pow2;
    NumBytesRange(2 * v, c);
    NumBytesRange(2 * v, c - 1);
    BelowTwice(v, 8 * c - 1);
    BelowTwice(v, 8 * (c - 1) - 1);
  }

  // ---- the 32-bit word ----

  /** size in the top byte (it wraps), sign, 23 bits of mantissa */
  function Word(mantissa: nat, size: nat, negative: bool): nat {
    size % 256 * 0x100_0000 + (if negative then 0x80_0000 else 0) + mantissa
  }

  lemma WordParts(m: nat, size: nat, negative: bool)
    requires m < 0x80_0000
    ensures Low(Word(m, size, negative), 23) == m
    ensures Shr(Word(m, size, negative), 24) == size % 256
    ensures And(Word(m, size, negative), 0x80_0000) != 0 <==> negative
  {
    hide Low, Shr, Pow2, And, Or;
    Pow2Known();
    var b := if negative then 1 else 0;
    var w := Word(m, size, negative);
    Fields(2 * (size % 256) + b, 23, m);
    Fields(size % 256, 24, b * 0x80_0000 + m);
    BitOfWord(size % 256, b * 0x80_0000 + m);
  }

  lemma BitOfWord(h: nat, l: nat)
    requires l < 0x100_0000
    ensures And(h * 0x100_0000 + l, 0x80_0000) != 0 <==> l >= 0x80_0000
  {
    hide And, Pow2;
    Pow2Known();
    AndFieldLow(h, l, 0x80_0000, 24);
    AndTopBit(l, 23);
  }

  /** & with a mask below 2^m looks at the m low bits only. */
  lemma {:induction false} AndFieldLow(h: nat, l: nat, mask: nat, m: nat)
    requires l < Pow2(m) && mask < Pow2(m)
    ensures And(h * Pow2(m) + l, mask) == And(l, mask)
    decreases m
  {
    if m > 0 {
      Double(h, Pow2(m - 1));
      var y := h * Pow2(m - 1);
      assert (2 * y + l) / 2 == y + l / 2 && (2 * y + l) % 2 == l % 2;
      AndFieldLow(h, l / 2, mask / 2, m - 1);
    } else {
      assert mask == 0;
    }
  }

  /** The size and the sign put in front of the mantissa, bit by bit, in a 32-bit word. */
  function PackWord(m: nat, size: nat, negative: bool): (w: nat)
    requires m < 0x80_0000
    ensures w == Word(m, size, negative)
  {
    PackedBits(m, size, negative);
    Or(Or(m, Low(size * 0x100_0000, 32)), if negative then 0x80_0000 else 0)
  }

  lemma PackedBits(m: nat, size: nat, negative: bool)
    requires m < 0x80_0000
    ensures Or(Or(m, Low(size * 0x100_0000, 32)), if negative then 0x80_0000 else 0) == Word(m, size, negative)
  {
    hide Low, Shr, Pow2, Or;
    Pow2Known();
    LowOfShl(size, 24, 8);
    ShrIsDiv(size, 8);
    var s := size % 256;
    OrDisjointSwap(s, 24, m);
    if negative {
      OrFields(s, m, 0, 0x80_0000, 24);
      OrZero(s);
      OrDisjointSwap(1, 23, m);
    } else {
      OrZero(s * 0x100_0000 + m);
    }
  }

  // ---- uint256::GetCompact ----

  /** The size is always 32, whatever the length of the number. */
  function Encode256(v: nat): (nat, nat) {
    var m := Shr(v, 232);
    if m >= 0x80_0000 then (Shr(m, 8), 33) else (m, 32)
  }

  method GetCompact256(x: BaseUint, fNegative: bool) returns (nCompact: nat)
    requires x.pn.Length == 8
    ensures var (m, size) := Encode256(x.Value());
            m < 0x80_0000 && nCompact == Word(m, size, fNegative && m != 0)
  {
    hide Low, Shr, And, Or, Pow2, LimbValue, Word;
    Value256(x);
    var nSize := (256 + 7) / 8;
    var bn := new BaseUint(8);
    CopyLimbs(x, bn);
    bn.ShrAssign(8 * (nSize - 3));
    var word := bn.GetWord();
    nCompact := word % 0x1_0000_0000;
    TopBits(x.Value(), word);
    if And(nCompact, 0x80_0000) != 0 {
      nCompact := Shr(nCompact, 8);
      nSize := nSize + 1;
    }
    assert And(nCompact, 0xFF80_0000) == 0;
    assert nSize < 256;
    nCompact := PackWord(nCompact, nSize, fNegative && Low(nCompact, 23) != 0);
  }

  method CopyLimbs(x: BaseUint, y: BaseUint)
    requires x.pn.Length == y.pn.Length && x.pn != y.pn
    modifies y.pn
    ensures y.Value() == x.Value()
  {
    for i := 0 to x.pn.Length
      invariant y.pn[..i] == x.pn[..i]
    {
      y.pn[i] := x.pn[i];
    }
    assert y.pn[..] == y.pn[..x.pn.Length] && x.pn[..] == x.pn[..x.pn.Length];
  }

  lemma Value256(x: BaseUint)
    requires x.pn.Length == 8
    ensures x.Value() < Pow2(256)
  {
    ModulusIsPow2(8);
  }

  /** The 24 top bits of a 256-bit number, and what the tests on them find. */
  lemma TopBits(v: nat, word: nat)
    requires v < Pow2(256) && word == Shr(v, 232) % 0x1_0000_0000_0000_0000
    ensures var m := word % 0x1_0000_0000;
            && m == Shr(v, 232) && (And(m, 0x80_0000) != 0 <==> m >= 0x80_0000)
            && Shr(m, 8) < 0x80_0000
            && And(if m >= 0x80_0000 then Shr(m, 8) else m, 0xFF80_0000) == 0
            && Low(if m >= 0x80_0000 then Shr(m, 8) else m, 23) == if m >= 0x80_0000 then Shr(m, 8) else m
  {
    hide Low, Shr, And, Pow2;
    Pow2Known();
    var m := Shr(v, 232);
    ShrBelow(v, 232, 24);
    ShrBelow(m, 8, 16);
    AndTopBit(m, 23);
    var k := if m >= 0x80_0000 then Shr(m, 8) else m;
    AndDisjoint(k, 0x1FF, 23);
    LowOfSmall(k, 23);
  }

  /** Decoding uint256::GetCompact rounds down to a multiple of 2^232, or of 2^240
      for numbers from 2^255 on. */
  lemma Compact256RoundsDown(v: nat)
    requires v < Pow2(256)
    ensures var (m, size) := Encode256(v);
            TargetOf(Word(m, size, false))
            == if v < Pow2(255) then Shr(v, 232) * Pow2(232) else Shr(v, 240) * Pow2(240)
  {
    hide Low, Shr, Pow2, And, Word;
    Pow2Known();
    ShrBelow(v, 232, 24);
    ShrBelow(v, 232, 23);
    ShrBelow(Shr(v, 232), 8, 16);
    ShrOfShr(v, 232, 8);
    var (m, size) := Encode256(v);
    WordParts(m, size, false);
  }

  // ---- decoders ----

  /** The uint256 decoder: hashTargetFromBits. */
  method HashTargetFromBits(nBits: nat) returns (target: nat)
    requires nBits < 0x1_0000_0000
    ensures target == TargetOf(nBits) % Modulus(8)
  {
    hide Low, Shr, Pow2, LimbValue, Modulus;
    var hashTarget := new BaseUint(8);
    MantissaBits(nBits);
    hashTarget.AssignWord(And(nBits, 0x007F_FFFF));
    var exponent := Shr(nBits, 24);
    if exponent <= 3 {
      hashTarget.ShrAssign(8 * (3 - exponent));
      ReducedAlready(hashTarget.Value(), 8);
    } else {
      hashTarget.ShlAssign(8 * (exponent - 3));
    }
    target := hashTarget.Value();
  }

  lemma MantissaBits(nBits: nat)
    ensures And(nBits, 0x007F_FFFF) == Low(nBits, 23) < 0x80_0000
  {
    Pow2Known();
    AndMask(nBits, 23);
    ShrLow(nBits, 23);
  }

  lemma ReducedAlready(v: nat, n: nat)
    requires v < Modulus(n)
    ensures v == v % Modulus(n)
  {
    DivModUnique(v, Modulus(n), 0, v);
  }

  /** The decoder of the new-block handlers, over GMP integers. */
  method BlockTargetFromBits(bits: nat) returns (blockTarget: nat)
    ensures blockTarget == TargetOf(bits)
  {
    MantissaBits(bits);
    blockTarget := And(bits, 0x007F_FFFF);
    var exponent := Shr(bits, 24);
    if exponent <= 3 {
      blockTarget := Shr(blockTarget, 8 * (3 - exponent));
    } else {
      blockTarget := blockTarget * Pow2(8 * (exponent - 3));
    }
  }

  /** The two decoders agree exactly when the target fits in 256 bits, which it does
      for every exponent up to 32. */
  lemma DecodersAgree(bits: nat)
    ensures TargetOf(bits) % Modulus(8) == TargetOf(bits) <==> TargetOf(bits) < Pow2(256)
    ensures Shr(bits, 24) <= 32 ==> TargetOf(bits) < Pow2(255)
  {
    hide Low, Shr, Pow2, Modulus;
    ModulusIsPow2(8);
    var t, w, e := TargetOf(bits), Low(bits, 23), Shr(bits, 24);
    PowPositive(256);
    if t < Pow2(256) {
      DivModUnique(t, Pow2(256), 0, t);
    } else {
      ModBelow(t, Pow2(256));
    }
    ShrLow(bits, 23);
    if e <= 3 {
      ShrLow(w, 8 * (3 - e));
      AtMost(Shr(w, 8 * (3 - e)), Pow2(8 * (3 - e)));
      Pow2Monotone(23, 255);
    } else {
      FieldsBelow(w, 23, 0, 8 * (e - 3)) by { PowPositive(8 * (e - 3)); }
      if e <= 32 { Pow2Monotone(8 * (e - 3) + 23, 255); }
    }
  }

  lemma ModBelow(x: nat, m: nat)
    requires m > 0
    ensures x % m < m
  {}

  lemma AtMost(x: nat, m: nat)
    requires m > 0
    ensures x <= x * m
  {
    MulMonotone(1, m, x);
  }
}
