/** ExpandArray and CompressArray: the bit stream of a byte string cut into
    L-bit elements, and back (src/equihash_original.cpp:70-150). */
module BitPacking {
  import opened Arithmetic
  import opened Bitwise
  import opened Digits

  /** x << n on a uint32_t. */
  function Shl32(x: nat, n: nat): nat { Low(x * Pow2(n), 32) }

  /** The bytes an L-bit element needs. */
  function ElementBytes(L: nat): nat { (L + 7) / 8 }

  /** The output length that ExpandArray asserts. */
  function ExpandedLength(inLen: nat, L: nat, pad: nat): nat
    requires L > 0
  {
    Quotient(8 * (pad + ElementBytes(L)) * inLen, L)
  }

  // ---- what the two routines mean ----

  /** One element: pad zero bytes, then its value big-endian in w bytes. */
  function Element(d: nat, w: nat, pad: nat): (s: seq<byte>)
    ensures |s| == pad + w
  {
    Zeros(pad) + Bytes(d, w)
  }

  function Layout(elements: seq<nat>, w: nat, pad: nat): (s: seq<byte>)
    ensures |s| == Width(pad + w, |elements|)
  {
    if elements == [] then []
    else Layout(elements[..|elements| - 1], w, pad) + Element(elements[|elements| - 1], w, pad)
  }

  /** The whole L-bit elements at the front of the bit stream of input: the
      base-2^L digits of the number the bytes denote. */
  function Elements(input: seq<byte>, L: nat): (s: seq<nat>)
    requires L > 0
    ensures |s| == 8 * |input| / L
  {
    DigitsOf(Shr(Value(input, 8), 8 * |input| % L), L, 8 * |input| / L)
  }

  function Expanded(input: seq<byte>, L: nat, pad: nat): seq<byte>
    requires L > 0
  {
    Layout(Elements(input, L), ElementBytes(L), pad)
  }

  /** Element k of a padded layout: pad bytes are skipped and stray bits above
      the L low ones are masked away. */
  function ElementAt(input: seq<byte>, L: nat, pad: nat, k: nat): nat
    requires Width(pad + ElementBytes(L), k + 1) <= |input|
  {
    Low(Value(input[Width(pad + ElementBytes(L), k) + pad..Width(pad + ElementBytes(L), k + 1)], 8), L)
  }

  function ElementValues(input: seq<byte>, L: nat, pad: nat, n: nat): (s: seq<nat>)
    requires Width(pad + ElementBytes(L), n) <= |input|
    ensures |s| == n
  {
    if n == 0 then []
    else ElementValues(input, L, pad, n - 1) + [ElementAt(input, L, pad, n - 1)]
  }

  /** The first outLen bytes of the bit stream that n L-bit elements form. */
  function Packed(elements: seq<nat>, L: nat, outLen: nat): (s: seq<byte>)
    requires 8 * outLen <= Width(L, |elements|)
    ensures |s| == outLen
  {
    Bytes(Shr(Value(elements, L), Width(L, |elements|) - 8 * outLen), outLen)
  }

  /** The L-bit field at bit k of the accumulator, laid out. */
  function Emitted(acc: nat, k: nat, L: nat, pad: nat): (s: seq<byte>)
    ensures |s| == pad + ElementBytes(L)
  {
    Element(Low(Shr(acc, k), L), ElementBytes(L), pad)
  }

  // ---- the accumulator ----

  /** v followed by the L bits of b */
  function Append(v: nat, L: nat, b: nat): nat { v * Pow2(L) + b }

  /** Shifting b in at the bottom of a wrapping 32-bit accumulator drops the L top
      bits and adds b. */
  lemma ShiftOr(A: nat, b: nat, L: nat)
    requires L <= 32 && b < Pow2(L)
    ensures Or(Shl32(A, L), b) == Append(Low(A, 32 - L), L, b) < Pow2(32)
  {
    hide Low, Shr, Pow2, Or;
    LowOfShl(A, L, 32 - L);
    ShrLow(A, 32 - L);
    OrDisjoint(Low(A, 32 - L), L, b);
    FieldsBelow(Low(A, 32 - L), 32 - L, b, L);
  }

  /** If the k low bits of the accumulator agree with V, then its L + k low bits
      agree with V followed by b, although it wraps. */
  lemma ShiftIn(A: nat, V: nat, b: nat, L: nat, k: nat)
    requires L + k <= 32 && b < Pow2(L) && Low(A, k) == Low(V, k)
    ensures Or(Shl32(A, L), b) < Pow2(32)
    ensures Low(Or(Shl32(A, L), b), L + k) == Low(Append(V, L, b), L + k)
    ensures Shr(Append(V, L, b), L + k) == Shr(V, k)
  {
    hide Low, Shr, Pow2, Or, Shl32, Append;
    ShiftOr(A, b, L);
    ShrShr(A, k, 32 - L - k);
    AppendField(Low(A, 32 - L), b, L, k);
    AppendField(V, b, L, k);
  }

  lemma AppendField(V: nat, b: nat, L: nat, k: nat)
    requires b < Pow2(L)
    ensures Low(Append(V, L, b), L + k) == Append(Low(V, k), L, b)
    ensures Shr(Append(V, L, b), L + k) == Shr(V, k)
  {
    hide Low, Shr, Pow2;
    Fields(V, L, b);
    ShrShr(V * Pow2(L) + b, L, k);
  }

  /** Byte t (from the bottom) of the L-bit field at bit s of A, as the masked
      shifts of the inner loops compute it. */
  lemma MaskedByte(A: nat, s: nat, L: nat, t: nat)
    requires 8 * t < L
    ensures And(Shr(A, s + 8 * t), And(Shr(Pow2(L) - 1, 8 * t), 255))
         == Low(Shr(Low(Shr(A, s), L), 8 * t), 8)
  {
    hide Low, Shr, Pow2, And;
    var m := L - 8 * t;
    MaskBits(L, t);
    AndMask(Shr(A, s + 8 * t), if m < 8 then m else 8);
    ShrShr(A, s, 8 * t);
    ShrShr(Shr(A, s), 8 * t, m);
    LowLow(Shr(A, s + 8 * t), m, 8);
  }

  lemma LowLow(x: nat, m: nat, n: nat)
    ensures Low(Low(x, m), n) == Low(x, if m < n then m else n)
  {
    hide Low, Shr, Pow2;
    if m < n {
      ShrLow(x, m);
      Pow2Monotone(m, n);
      LowOfSmall(Low(x, m), n);
    } else {
      ShrShr(x, n, m - n);
    }
  }

  /** mask >> t */
  lemma {:induction false} MaskShr(L: nat, t: nat)
    requires t <= L
    ensures Shr(Pow2(L) - 1, t) == Pow2(L - t) - 1
  {
    if t > 0 {
      assert (Pow2(L) - 1) / 2 == Pow2(L - 1) - 1;
      MaskShr(L - 1, t - 1);
    }
  }

  lemma {:induction false} LowOfMask(m: nat, n: nat)
    ensures Low(Pow2(m) - 1, n) == Pow2(if m < n then m else n) - 1
  {
    if m == 0 {
      LowOfSmall(0, n);
    } else if n > 0 {
      assert (Pow2(m) - 1) / 2 == Pow2(m - 1) - 1 && (Pow2(m) - 1) % 2 == 1;
      LowOfMask(m - 1, n - 1);
    }
  }

  /** (mask >> 8t) & 0xFF */
  lemma MaskBits(L: nat, t: nat)
    requires 8 * t < L
    ensures var m := L - 8 * t;
            And(Shr(Pow2(L) - 1, 8 * t), 255) == Pow2(if m < 8 then m else 8) - 1
  {
    hide Low, Shr, And;
    MaskShr(L, 8 * t);
    AndMask(Pow2(L - 8 * t) - 1, 8);
    Pow2Known();
    LowOfMask(L - 8 * t, 8);
  }

  lemma ByteOfElement(A: nat, s: nat, L: nat, i: nat)
    requires i < ElementBytes(L)
    ensures var t := ElementBytes(L) - 1 - i;
            8 * t < L
            && And(Shr(A, s + 8 * t), And(Shr(Pow2(L) - 1, 8 * t), 255))
            == Bytes(Low(Shr(A, s), L), ElementBytes(L))[i]
  {
    hide Low, Shr, Pow2, And, DigitsOf;
    var w := ElementBytes(L);
    MaskedByte(A, s, L, w - 1 - i);
    WidthIsProduct(8, w - 1 - i);
    DigitAt(Low(Shr(A, s), L), 8, w, i);
  }

  // ---- the routines ----

  /** The two inner loops of ExpandArray: the element in the bits
      accBits..accBits+L of acc is written at out[j..]. */
  method WriteElement(out: array<byte>, j: nat, acc: nat, accBits: nat, L: nat, pad: nat)
    requires 8 <= L <= 25 && accBits < 8
    requires j + pad + ElementBytes(L) <= out.Length
    modifies out
    ensures out[..] == Splice(old(out[..]), j, Emitted(acc, accBits, L, pad))
  {
    hide *;
    ghost var before, e := out[..], Emitted(acc, accBits, L, pad);
    var outWidth := ElementBytes(L) + pad;
    var bitLenMask := Pow2(L) - 1;
    SpliceNothing(before, j);
    assert e[..0] == [];
    for x := 0 to pad
      invariant out[..] == Splice(before, j, e[..x])
    {
      EmittedByte(acc, accBits, L, pad, x);
      SpliceSnoc(before, j, e[..x], 0);
      assert e[..x + 1] == e[..x] + [e[x]];
      Put(out, j + x, 0);
    }
    for x := pad to outWidth
      invariant out[..] == Splice(before, j, e[..x])
    {
      EmittedByte(acc, accBits, L, pad, x);
      ByteOfElement(acc, accBits, L, x - pad);
      SpliceSnoc(before, j, e[..x], e[x]);
      assert e[..x + 1] == e[..x] + [e[x]];
      Put(out, j + x, And(Shr(acc, accBits + 8 * (outWidth - x - 1)),
                          And(Shr(bitLenMask, 8 * (outWidth - x - 1)), 255)));
    }
    assert e[..outWidth] == e;
  }

  lemma EmittedByte(acc: nat, k: nat, L: nat, pad: nat, x: nat)
    requires x < pad + ElementBytes(L)
    ensures Emitted(acc, k, L, pad)[x]
         == if x < pad then 0 else Bytes(Low(Shr(acc, k), L), ElementBytes(L))[x - pad]
  {
    hide Bytes, Low, Shr;
  }

  lemma LayoutSnoc(elements: seq<nat>, d: nat, w: nat, pad: nat)
    ensures Layout(elements + [d], w, pad) == Layout(elements, w, pad) + Element(d, w, pad)
  {
    assert (elements + [d])[..|elements|] == elements;
  }

  lemma ValueOfPrefix(input: seq<byte>, i: nat)
    requires i < |input|
    ensures Value(input[..i + 1], 8) == Append(Value(input[..i], 8), 8, input[i])
    ensures input[i] < Pow2(8)
  {
    Pow2Known();
    assert input[..i + 1] == input[..i] + [input[i]];
    ValueSnoc(input[..i], input[i], 8);
  }

  /** n elements out of 8 * bytes bits, of width bytes each, stay within the
      output length that the assertion of ExpandArray fixes. */
  lemma LayoutFits(n: nat, L: nat, pad: nat, bytes: nat)
    requires L > 0 && Width(L, n) <= 8 * bytes
    ensures Width(pad + ElementBytes(L), n) <= ExpandedLength(bytes, L, pad)
  {
    var width := pad + ElementBytes(L);
    WidthIsProduct(L, n);
    WidthIsProduct(width, n);
    MulMonotone(L * n, 8 * bytes, width);
    QuotientAtLeast(8 * width * bytes, L, width * n) by {
      Associate(L, n, width);
      Associate(8, bytes, width);
      Associate(8, width, bytes);
    }
  }

  lemma QuotientAtLeast(x: nat, d: nat, q: nat)
    requires d > 0 && d * q <= x
    ensures q <= x / d
  {
    if x / d < q {
      MulStrict(x / d, q, d);
      assert false;
    }
  }

  lemma ElementCount(n: nat, L: nat, r: nat, bytes: nat)
    requires r < L && Width(L, n) + r == 8 * bytes
    ensures 8 * bytes / L == n && 8 * bytes % L == r
  {
    WidthIsProduct(L, n);
    DivModUnique(8 * bytes, L, n, r);
  }

  /** One turn of the loop of ExpandArray: byte b arrives when k bits wait. */
  lemma ExpandTurn(acc: nat, V: nat, b: byte, L: nat, k: nat)
    requires L <= 25 && k < L && Low(acc, k) == Low(V, k)
    ensures var acc', V' := Or(Shl32(acc, 8), b), Append(V, 8, b);
            && acc' < Pow2(32)
            && Low(acc', k + 8) == Low(V', k + 8)
            && Shr(V', k + 8) == Shr(V, k)
  {
    hide Low, Shr, Shl32, Or;
    Pow2Known();
    ShiftIn(acc, V, b, 8, k);
  }

  lemma EmitElement(acc: nat, V: nat, L: nat, k: nat, n: nat)
    requires Low(acc, k + L) == Low(V, k + L)
    ensures Low(acc, k) == Low(V, k)
    ensures DigitsOf(Shr(V, k), L, n + 1) == DigitsOf(Shr(V, k + L), L, n) + [Low(Shr(acc, k), L)]
  {
    hide Low, Shr;
    ShrShr(acc, k, L);
    ShrShr(V, k, L);
  }

  /** The state of ExpandArray after i bytes: n elements are written, k bits wait. */
  ghost predicate Expanding(input: seq<byte>, i: nat, L: nat, pad: nat, n: nat, k: nat, acc: nat,
          written: seq<byte>) {
    && i <= |input| && k < L && Width(L, n) + k == 8 * i
    && Low(acc, k) == Low(Value(input[..i], 8), k)
    && written == Layout(DigitsOf(Shr(Value(input[..i], 8), k), L, n), ElementBytes(L), pad)
  }

  lemma ExpandingTurn(input: seq<byte>, i: nat, L: nat, pad: nat, n: nat, k: nat, acc: nat, written: seq<byte>)
    requires 8 <= L <= 25 && i < |input| && Expanding(input, i, L, pad, n, k, acc, written)
    ensures var acc' := Or(Shl32(acc, 8), input[i]);
            if k + 8 < L then Expanding(input, i + 1, L, pad, n, k + 8, acc', written)
            else
              Expanding(input, i + 1, L, pad, n + 1, k + 8 - L, acc', written + Emitted(acc', k + 8 - L, L, pad))
  {
    hide Low, Shr, Or, Shl32, Pow2, Value, DigitsOf, Layout, Element;
    ValueOfPrefix(input, i);
    var V, acc' := Value(input[..i], 8), Or(Shl32(acc, 8), input[i]);
    ExpandTurn(acc, V, input[i], L, k);
    if k + 8 >= L {
      var V', k' := Value(input[..i + 1], 8), k + 8 - L;
      EmitElement(acc', V', L, k', n);
      LayoutSnoc(DigitsOf(Shr(V', k' + L), L, n), Low(Shr(acc', k'), L), ElementBytes(L), pad);
    }
  }

  lemma ExpandingFits(input: seq<byte>, i: nat, L: nat, pad: nat, n: nat, k: nat, acc: nat, written: seq<byte>)
    requires Expanding(input, i, L, pad, n, k, acc, written)
    ensures |written| <= ExpandedLength(|input|, L, pad)
    ensures i == |input| ==> written == Expanded(input, L, pad)
  {
    hide Low, Shr, Value, DigitsOf, Layout, ExpandedLength, ElementBytes;
    LayoutFits(n, L, pad, |input|);
    if i == |input| {
      assert input[..i] == input;
      ElementCount(n, L, k, |input|);
    }
  }

  lemma ExpandingStart(input: seq<byte>, L: nat, pad: nat)
    requires L > 0
    ensures Expanding(input, 0, L, pad, 0, 0, 0, [])
  {
    assert input[..0] == [];
  }

  method ExpandArray(input: seq<byte>, out: array<byte>, outLen: nat, L: nat, pad: nat)
    requires 8 <= L <= 25
    requires outLen == ExpandedLength(|input|, L, pad) <= out.Length
    modifies out
    ensures |Expanded(input, L, pad)| <= outLen
    ensures out[..] == Splice(old(out[..]), 0, Expanded(input, L, pad))
  {
    hide *;
    ghost var before := out[..];
    ExpandingStart(input, L, pad);
    SpliceNothing(before, 0);
    var outWidth := ElementBytes(L) + pad;
    var accBits: nat, accValue: nat, j: nat := 0, 0, 0;
    ghost var n: nat, written: seq<byte> := 0, [];
    for i := 0 to |input|
      invariant accBits < L && Expanding(input, i, L, pad, n, accBits, accValue, written)
      invariant j == |written| <= out.Length
      invariant out[..] == Splice(before, 0, written)
    {
      ExpandingTurn(input, i, L, pad, n, accBits, accValue, written);
      accValue := Or(Shl32(accValue, 8), input[i]);
      accBits := accBits + 8;
      if accBits >= L {
        accBits := accBits - L;
        ghost var e := Emitted(accValue, accBits, L, pad);
        ExpandingFits(input, i + 1, L, pad, n + 1, accBits, accValue, written + e);
        SpliceAppend(before, written, e);
        WriteElement(out, j, accValue, accBits, L, pad);
        j := j + outWidth;
        n, written := n + 1, written + e;
      }
    }
    ExpandingFits(input, |input|, L, pad, n, accBits, accValue, written);
  }

  // ---- CompressArray ----

  /** What the element being read has contributed once the bytes down to number t
      (from the bottom) are in. */
  lemma OrInByte(A: nat, d: nat, L: nat, t: nat)
    requires 8 * t < L && d < Pow2(L)
    ensures Or(Reading(A, d, L, 8 * t + 8), Low(Shr(d, 8 * t), 8) * Pow2(8 * t)) == Reading(A, d, L, 8 * t)
  {
    hide *;
    var q := 8 * t;
    ReadingIs(A, d, L, q);
    ReadingIs(A, d, L, q + 8);
    if q + 8 <= L {
      OrHigherByte(A, d, L, q);
    } else {
      OrTopByte(A, d, L, q);
    }
  }

  lemma OrHigherByte(A: nat, d: nat, L: nat, q: nat)
    requires q + 8 <= L
    ensures Or(A * Pow2(L) + Shr(d, q + 8) * Pow2(q + 8), Low(Shr(d, q), 8) * Pow2(q))
         == A * Pow2(L) + Shr(d, q) * Pow2(q)
  {
    hide *;
    var c := Low(Shr(d, q), 8);
    ShrLow(Shr(d, q), 8);
    SplitField(d, q);
    ZeroFields(c, q);
    PowPositive(q);
    FieldsBelow(c, 8, 0, q);
    OrBelow(A, L, Shr(d, q + 8), q + 8, c * Pow2(q));
  }

  lemma OrTopByte(A: nat, d: nat, L: nat, q: nat)
    requires q < L < q + 8 && d < Pow2(L)
    ensures Or(A * Pow2(L) + Shr(d, q + 8) * Pow2(q + 8), Low(Shr(d, q), 8) * Pow2(q))
         == A * Pow2(L) + Shr(d, q) * Pow2(q)
  {
    hide *;
    Pow2Monotone(L, q + 8);
    LowOfSmall(d, q + 8);
    SplitField(d, q);
    NoFields(q + 8);
    ShrLow(d, q);
    OrDisjoint(A, L, Low(Shr(d, q), 8) * Pow2(q));
  }

  lemma NoFields(q: nat)
    ensures 0 * Pow2(q) == 0
  {}

  lemma OrBelow(A: nat, L: nat, h: nat, q: nat, c: nat)
    requires q <= L && c < Pow2(q)
    ensures Or(A * Pow2(L) + h * Pow2(q), c) == A * Pow2(L) + h * Pow2(q) + c
  {
    hide Low, Shr, Pow2, Or;
    Pow2Add(L - q, q);
    Associate(A, Pow2(L - q), Pow2(q));
    Distribute(A * Pow2(L - q), h, Pow2(q));
    OrDisjoint(A * Pow2(L - q) + h, q, c);
  }

  lemma ZeroFields(c: nat, q: nat)
    ensures c * Pow2(q) + 0 == c * Pow2(q)
  {}

  /** A byte of an element, masked to the L low bits of the element. */
  lemma MaskInput(v: nat, L: nat, t: nat)
    requires 8 * t < L
    ensures And(Low(Shr(v, 8 * t), 8), And(Shr(Pow2(L) - 1, 8 * t), 255))
         == Low(Shr(Low(v, L), 8 * t), 8)
  {
    hide Low, Shr, Pow2, And;
    var m := L - 8 * t;
    MaskBits(L, t);
    AndMask(Low(Shr(v, 8 * t), 8), if m < 8 then m else 8);
    LowLow(Shr(v, 8 * t), 8, if m < 8 then m else 8);
    ShrShr(v, 8 * t, m);
    LowLow(Shr(v, 8 * t), m, 8);
  }

  /** Byte x of the chunk of width bytes at j, as a field of the chunk's value. */
  lemma ByteOfChunk(chunk: seq<byte>, i: nat)
    requires i < |chunk|
    ensures chunk[i] == Low(Shr(Value(chunk, 8), 8 * (|chunk| - 1 - i)), 8)
  {
    hide Low, Shr;
    BytesInBase(chunk);
    DigitsOfValue(chunk, 8);
    DigitAt(Value(chunk, 8), 8, |chunk|, i);
    WidthIsProduct(8, |chunk| - 1 - i);
  }

  /** The accumulator while the bytes of an element d are read: what waits is A,
      the bits of d above bit q are in. */
  function Reading(A: nat, d: nat, L: nat, q: nat): nat {
    A * Pow2(L) + Shr(d, q) * Pow2(q)
  }

  lemma ReadingIs(A: nat, d: nat, L: nat, q: nat)
    ensures Reading(A, d, L, q) == A * Pow2(L) + Shr(d, q) * Pow2(q)
  {}

  lemma ReadingEnds(A: nat, d: nat, L: nat)
    requires L <= 32 && d < Pow2(L)
    ensures Reading(Low(A, 32 - L), d, L, 8 * ElementBytes(L)) == Shl32(A, L)
    ensures Reading(Low(A, 32 - L), d, L, 0) == Or(Shl32(A, L), d)
  {
    hide Low, Pow2, Or, Shl32;
    var w := 8 * ElementBytes(L);
    Pow2Monotone(L, w);
    LowOfSmall(d, w);
    LowOfShl(A, L, 32 - L);
    ShiftOr(A, d, L);
    assert Shl32(A, L) == Low(A, 32 - L) * Pow2(L) by { ShlIsLow(A, L); }
    assert Pow2(0) == 1 by { NoShift(0); }
  }

  lemma ShlIsLow(A: nat, L: nat)
    ensures Shl32(A, L) == Low(A * Pow2(L), 32)
  {}

  /** The masked and shifted byte x of the chunk, OR'ed in. */
  lemma ReadingTurn(A: nat, chunk: seq<byte>, L: nat, i: nat)
    requires 8 <= L <= 25 && |chunk| == ElementBytes(L) && i < |chunk|
    ensures var d, t := Low(Value(chunk, 8), L), |chunk| - 1 - i;
            Or(Reading(A, d, L, 8 * t + 8), Shl32(And(chunk[i], And(Shr(Pow2(L) - 1, 8 * t), 255)), 8 * t))
            == Reading(A, d, L, 8 * t)
  {
    hide *;
    var V, t := Value(chunk, 8), |chunk| - 1 - i;
    ByteInElement(L, t);
    ByteOfChunk(chunk, i);
    MaskInput(V, L, t);
    ShrLow(V, L);
    OrInByte(A, Low(V, L), L, t);
    ByteShifted(Shr(Low(V, L), 8 * t), t);
  }

  lemma ByteInElement(L: nat, t: nat)
    requires t < ElementBytes(L)
    ensures 8 * t < L
  {}

  /** A byte shifted by less than 32 bits is not cut off. */
  lemma ByteShifted(v: nat, t: nat)
    requires t < 4
    ensures Shl32(Low(v, 8), 8 * t) == Low(v, 8) * Pow2(8 * t)
  {
    hide *;
    ShlIsLow(Low(v, 8), 8 * t);
    ShrLow(v, 8);
    ZeroFields(Low(v, 8), 8 * t);
    PowPositive(8 * t);
    FieldsBelow(Low(v, 8), 8, 0, 8 * t);
    Pow2Monotone(8 * t + 8, 32);
    LowOfSmall(Low(v, 8) * Pow2(8 * t), 32);
  }

  /** The inner loop of CompressArray: the next element joins the accumulator. */
  method ReadElement(input: seq<byte>, j: nat, acc: nat, L: nat, pad: nat) returns (r: nat)
    requires 8 <= L <= 25 && j + pad + ElementBytes(L) <= |input|
    ensures r == Or(Shl32(acc, L), Low(Value(input[j + pad..j + pad + ElementBytes(L)], 8), L))
  {
    hide Low, Shr, Pow2, Or, And, Value, Shl32, Reading;
    var inWidth := ElementBytes(L) + pad;
    var bitLenMask := Pow2(L) - 1;
    ghost var chunk := input[j + pad..j + inWidth];
    ghost var d := Low(Value(chunk, 8), L);
    ShrLow(Value(chunk, 8), L);
    ReadingEnds(acc, d, L);
    r := Shl32(acc, L);
    for x := pad to inWidth
      invariant r == Reading(Low(acc, 32 - L), d, L, 8 * (inWidth - x))
    {
      ReadingTurn(Low(acc, 32 - L), chunk, L, x - pad);
      r := Or(r, Shl32(And(input[j + x], And(Shr(bitLenMask, 8 * (inWidth - x - 1)), 255)),
                       8 * (inWidth - x - 1)));
    }
  }

  /** The output length that CompressArray asserts. */
  function CompressedLength(inLen: nat, L: nat, pad: nat): nat
    requires L > 0
  {
    Quotient(L * inLen, 8 * (pad + ElementBytes(L)))
  }

  /** The elements CompressArray reads to fill outLen bytes. */
  function ElementsRead(outLen: nat, L: nat): nat
    requires L > 0
  {
    (8 * outLen + L - 1) / L
  }

  lemma ElementsReadIs(outLen: nat, L: nat, n: nat, k: nat)
    requires L > 0 && k < L && Width(L, n) == 8 * outLen + k
    ensures ElementsRead(outLen, L) == n
  {
    WidthIsProduct(L, n);
    DivModUnique(8 * outLen + L - 1, L, n, L - 1 - k);
  }

  lemma ElementNeeded(outLen: nat, L: nat, n: nat, width: nat)
    requires L > 0 && Width(L, n) < 8 * outLen
    ensures Width(width, n + 1) <= Width(width, ElementsRead(outLen, L))
  {
    WidthIsProduct(L, n);
    Distribute(n, 1, L);
    QuotientAtLeast(8 * outLen + L - 1, L, n + 1);
    WidthMonotone(width, n + 1, ElementsRead(outLen, L));
  }

  /** The state of CompressArray after i output bytes: n elements are read, k bits wait. */
  ghost predicate Compressing(input: seq<byte>, i: nat, L: nat, pad: nat, n: nat, k: nat, acc: nat,
          written: seq<byte>) {
    && k < L && Width(L, n) == 8 * i + k && Width(pad + ElementBytes(L), n) <= |input|
    && var W := Value(ElementValues(input, L, pad, n), L);
       Low(acc, k) == Low(W, k) && written == Bytes(Shr(W, k), i)
  }

  lemma WriteByte(acc: nat, W: nat, k: nat, i: nat)
    requires Low(acc, k + 8) == Low(W, k + 8)
    ensures Low(acc, k) == Low(W, k)
    ensures And(Shr(acc, k), 255) < 256
    ensures Bytes(Shr(W, k), i + 1) == Bytes(Shr(W, k + 8), i) + [And(Shr(acc, k), 255)]
  {
    hide Low, Shr, And;
    Pow2Known();
    AndMask(Shr(acc, k), 8);
    ShrLow(Shr(acc, k), 8);
    ShrShr(acc, k, 8);
    ShrShr(W, k, 8);
  }

  lemma ReadBits(input: seq<byte>, L: nat, pad: nat, n: nat, k: nat, acc: nat)
    requires L <= 25 && k < 8 && Width(pad + ElementBytes(L), n + 1) <= |input|
    requires Width(pad + ElementBytes(L), n) <= |input|
    requires Low(acc, k) == Low(Value(ElementValues(input, L, pad, n), L), k)
    ensures var acc', W, W' := Or(Shl32(acc, L), ElementAt(input, L, pad, n)),
              Value(ElementValues(input, L, pad, n), L), Value(ElementValues(input, L, pad, n + 1), L);
            Low(acc', k + L) == Low(W', k + L) && Shr(W', k + L) == Shr(W, k)
  {
    hide Low, Shr, Or, Shl32, ElementAt, Pow2;
    var W, e := Value(ElementValues(input, L, pad, n), L), ElementAt(input, L, pad, n);
    ElementAtBound(input, L, pad, n);
    ValueSnoc(ElementValues(input, L, pad, n), e, L);
    ShiftIn(acc, W, e, L, k);
  }

  lemma ElementAtBound(input: seq<byte>, L: nat, pad: nat, k: nat)
    requires Width(pad + ElementBytes(L), k + 1) <= |input|
    ensures ElementAt(input, L, pad, k) < Pow2(L)
  {
    ShrLow(Value(input[Width(pad + ElementBytes(L), k) + pad..Width(pad + ElementBytes(L), k + 1)], 8), L);
  }

  /** Fewer than 8 bits wait: an element joins them before output byte i is written. */
  lemma CompressingRead(input: seq<byte>, outLen: nat, i: nat, L: nat, pad: nat, n: nat, k: nat, acc: nat,
          written: seq<byte>)
    requires 8 <= L <= 25 && i < outLen && k < 8
    requires Width(pad + ElementBytes(L), ElementsRead(outLen, L)) <= |input|
    requires Compressing(input, i, L, pad, n, k, acc, written)
    ensures var j := Width(pad + ElementBytes(L), n);
            && j + pad + ElementBytes(L) == Width(pad + ElementBytes(L), n + 1) <= |input|
            && Filled(input, i, L, pad, n + 1, k + L,
                      Or(Shl32(acc, L), Low(Value(input[j + pad..j + pad + ElementBytes(L)], 8), L)), written)
  {
    hide Low, Shr, Or, Shl32, Pow2, Bytes, ElementsRead, ElementBytes, Value;
    ElementNeeded(outLen, L, n, pad + ElementBytes(L));
    ReadBits(input, L, pad, n, k, acc);
  }

  ghost predicate Filled(input: seq<byte>, i: nat, L: nat, pad: nat, n: nat, k: nat, acc: nat, written: seq<byte>) {
    && 8 <= k < L + 8 && Width(L, n) == 8 * i + k && Width(pad + ElementBytes(L), n) <= |input|
    && var W := Value(ElementValues(input, L, pad, n), L);
       Low(acc, k) == Low(W, k) && written == Bytes(Shr(W, k), i)
  }

  lemma CompressingWrite(input: seq<byte>, i: nat, L: nat, pad: nat, n: nat, k: nat, acc: nat, written: seq<byte>)
    requires Filled(input, i, L, pad, n, k, acc, written)
    ensures And(Shr(acc, k - 8), 255) < 256
    ensures Compressing(input, i + 1, L, pad, n, k - 8, acc, written + [And(Shr(acc, k - 8), 255)])
  {
    hide Low, Shr, And, Bytes, Value, ElementValues;
    WriteByte(acc, Value(ElementValues(input, L, pad, n), L), k - 8, i);
  }

  /** The elements CompressArray reads, packed. */
  function Compressed(input: seq<byte>, outLen: nat, L: nat, pad: nat): (s: seq<byte>)
    requires L > 0 && Width(pad + ElementBytes(L), ElementsRead(outLen, L)) <= |input|
    ensures |s| == outLen
  {
    ElementsReadEnough(outLen, L);
    Packed(ElementValues(input, L, pad, ElementsRead(outLen, L)), L, outLen)
  }

  lemma ElementsReadEnough(outLen: nat, L: nat)
    requires L > 0
    ensures 8 * outLen <= Width(L, ElementsRead(outLen, L))
  {
    var q := ElementsRead(outLen, L);
    WidthIsProduct(L, q);
    var r := (8 * outLen + L - 1) % L;
    assert 8 * outLen + L - 1 == q * L + r && r < L;
  }

  lemma CompressingEnds(input: seq<byte>, outLen: nat, L: nat, pad: nat, n: nat, k: nat, acc: nat, written: seq<byte>)
    requires L > 0 && Width(pad + ElementBytes(L), ElementsRead(outLen, L)) <= |input|
    requires Compressing(input, outLen, L, pad, n, k, acc, written)
    ensures written == Compressed(input, outLen, L, pad)
  {
    hide Low, Shr, Bytes, Value, ElementBytes;
    ElementsReadIs(outLen, L, n, k);
  }

  /** The head of the loop of CompressArray. */
  method Refill(input: seq<byte>, outLen: nat, i: nat, L: nat, pad: nat, j: nat, accBits: nat, accValue: nat,
                ghost n: nat, ghost written: seq<byte>)
    returns (j': nat, accBits': nat, accValue': nat, ghost n': nat)
    requires 8 <= L <= 25 && i < outLen && j == Width(pad + ElementBytes(L), n)
    requires Width(pad + ElementBytes(L), ElementsRead(outLen, L)) <= |input|
    requires Compressing(input, i, L, pad, n, accBits, accValue, written)
    ensures 8 <= accBits' && j' == Width(pad + ElementBytes(L), n')
    ensures Filled(input, i, L, pad, n', accBits', accValue', written)
  {
    hide Low, Shr, Or, Shl32, Width, ElementsRead, ElementBytes, Bytes, Value;
    j', accBits', accValue', n' := j, accBits, accValue, n;
    if accBits < 8 {
      CompressingRead(input, outLen, i, L, pad, n, accBits, accValue, written);
      accValue' := ReadElement(input, j, accValue, L, pad);
      j' := j + ElementBytes(L) + pad;
      accBits' := accBits + L;
      n' := n + 1;
    }
  }

  method CompressArray(input: seq<byte>, out: array<byte>, outLen: nat, L: nat, pad: nat)
    requires 8 <= L <= 25
    requires outLen == CompressedLength(|input|, L, pad) <= out.Length
    requires Width(pad + ElementBytes(L), ElementsRead(outLen, L)) <= |input|
    modifies out
    ensures out[..] == Splice(old(out[..]), 0, Compressed(input, outLen, L, pad))
  {
    assert Compressing(input, 0, L, pad, 0, 0, 0, []);
    assert out[..] == Splice(out[..], 0, []);
    assert Width(pad + ElementBytes(L), 0) == 0;
    hide *;
    var accBits: nat, accValue: nat, j: nat := 0, 0, 0;
    ghost var n: nat, written: seq<byte> := 0, [];
    for i := 0 to outLen
      invariant j == Width(pad + ElementBytes(L), n) && |written| == i
      invariant Compressing(input, i, L, pad, n, accBits, accValue, written)
      invariant out[..] == Splice(old(out[..]), 0, written)
    {
      j, accBits, accValue, n := Refill(input, outLen, i, L, pad, j, accBits, accValue, n, written);
      CompressingWrite(input, i, L, pad, n, accBits, accValue, written);
      accBits := accBits - 8;
      SpliceAppend(old(out[..]), written, [And(Shr(accValue, accBits), 255)]);
      Put(out, i, And(Shr(accValue, accBits), 255));
      written := written + [And(Shr(accValue, accBits), 255)];
    }
    CompressingEnds(input, outLen, L, pad, n, accBits, accValue, written);
  }

  // ---- the two routines are mutual inverses ----

  lemma {:induction false} LayoutSlice(elements: seq<nat>, w: nat, pad: nat, k: nat)
    requires k < |elements|
    ensures Width(pad + w, k + 1) <= |Layout(elements, w, pad)|
    ensures Layout(elements, w, pad)[Width(pad + w, k) + pad..Width(pad + w, k + 1)] == Bytes(elements[k], w)
    decreases |elements|
  {
    hide Bytes;
    WidthMonotone(pad + w, k + 1, |elements|);
    if k < |elements| - 1 {
      LayoutSlice(elements[..|elements| - 1], w, pad, k);
    }
  }

  lemma ElementOfLayout(elements: seq<nat>, L: nat, pad: nat, k: nat)
    requires k < |elements| && InBase(elements, L)
    ensures Width(pad + ElementBytes(L), k + 1) <= |Layout(elements, ElementBytes(L), pad)|
    ensures ElementAt(Layout(elements, ElementBytes(L), pad), L, pad, k) == elements[k]
  {
    hide Low, Layout, ElementBytes, Value, Pow2;
    var w := ElementBytes(L);
    LayoutSlice(elements, w, pad, k);
    ValueOfDigits(elements[k], 8, w);
    WidthIsProduct(8, w);
    EnoughBytes(L);
    Pow2Monotone(L, 8 * w);
    LowOfSmall(elements[k], 8 * w);
    LowOfSmall(elements[k], L);
  }

  lemma EnoughBytes(L: nat)
    ensures L <= 8 * ElementBytes(L) < L + 8
  {}

  lemma {:induction false} ElementsOfLayout(elements: seq<nat>, L: nat, pad: nat, n: nat)
    requires n <= |elements| && InBase(elements, L)
    ensures Width(pad + ElementBytes(L), n) <= |Layout(elements, ElementBytes(L), pad)|
    ensures ElementValues(Layout(elements, ElementBytes(L), pad), L, pad, n) == elements[..n]
  {
    hide Layout, ElementAt, ElementBytes, InBase;
    WidthMonotone(pad + ElementBytes(L), n, |elements|);
    if n > 0 {
      ElementsOfLayout(elements, L, pad, n - 1);
      ElementOfLayout(elements, L, pad, n - 1);
    }
  }

  /** n whole elements laid out compress to the Width(L, n) / 8 bytes of their digits. */
  lemma CompressLayout(elements: seq<nat>, L: nat, pad: nat, outLen: nat)
    requires 8 <= L && InBase(elements, L) && Width(L, |elements|) == 8 * outLen
    ensures var s := Layout(elements, ElementBytes(L), pad);
            && CompressedLength(|s|, L, pad) == outLen
            && Width(pad + ElementBytes(L), ElementsRead(outLen, L)) <= |s|
            && Compressed(s, outLen, L, pad) == Bytes(Value(elements, L), outLen)
  {
    hide Layout, ElementValues, Value, Bytes, ElementBytes, Low, Shr, InBase;
    var n, width := |elements|, pad + ElementBytes(L);
    ElementsReadIs(outLen, L, n, 0);
    ElementsOfLayout(elements, L, pad, n);
    assert elements[..n] == elements;
    EnoughBytes(L);
    WidthIsProduct(L, n);
    WidthIsProduct(width, n);
    DivModUnique(L * (width * n), 8 * width, outLen, 0) by { Commute(L, n, width, outLen); }
    NoShift(Value(elements, L));
  }

  lemma Commute(L: nat, n: nat, width: nat, outLen: nat)
    requires L * n == 8 * outLen
    ensures L * (width * n) == outLen * (8 * width) == 8 * width * outLen == width * n * L
  {
    Associate(L, n, width);
    Associate(width, n, L);
    Associate(8, width, outLen);
    Associate(8, outLen, width);
    Associate(outLen, 8, width);
  }

  /** Compressing what ExpandArray produced gives the bytes back, when their bits are
      whole elements. */
  lemma CompressExpand(input: seq<byte>, L: nat, pad: nat)
    requires 8 <= L && 8 * |input| % L == 0
    ensures var s := Expanded(input, L, pad);
            && CompressedLength(|s|, L, pad) == |input|
            && Width(pad + ElementBytes(L), ElementsRead(|input|, L)) <= |s|
            && Compressed(s, |input|, L, pad) == input
  {
    hide Layout, Value, CompressedLength, ElementsRead, Compressed, Low, DigitsOf;
    WholeElements(|input|, L);
    ElementsWhole(input, L, 8 * |input| / L);
    CompressLayout(Elements(input, L), L, pad, |input|);
    BytesInBase(input);
    DigitsOfValue(input, 8);
  }

  lemma WholeElements(bytes: nat, L: nat)
    requires L > 0 && 8 * bytes % L == 0
    ensures Width(L, 8 * bytes / L) == 8 * bytes
  {
    WidthIsProduct(L, 8 * bytes / L);
  }

  lemma ElementsWhole(input: seq<byte>, L: nat, n: nat)
    requires L > 0 && Width(L, n) == 8 * |input|
    ensures |Elements(input, L)| == n
    ensures InBase(Elements(input, L), L) && Value(Elements(input, L), L) == Value(input, 8)
  {
    hide Value, Low, DigitsOf;
    ElementCount(n, L, 0, |input|);
    NoShift(Value(input, 8));
    DigitsInBase(Value(input, 8), L, n);
    ValueOfDigits(Value(input, 8), L, n);
    BytesInBase(input);
    ValueBound(input, 8);
    WidthIsProduct(8, |input|);
    LowOfSmall(Value(input, 8), 8 * |input|);
  }

  /** Expanding what CompressArray produced gives the padded elements back, when they
      are below 2^L and make up whole bytes. */
  lemma ExpandCompress(elements: seq<nat>, L: nat, pad: nat, outLen: nat)
    requires 8 <= L && InBase(elements, L) && Width(L, |elements|) == 8 * outLen
    ensures var s := Layout(elements, ElementBytes(L), pad);
            && CompressedLength(|s|, L, pad) == outLen
            && Width(pad + ElementBytes(L), ElementsRead(outLen, L)) <= |s|
            && ExpandedLength(outLen, L, pad) == |s|
            && Expanded(Compressed(s, outLen, L, pad), L, pad) == s
  {
    hide Layout, Value, CompressedLength, ElementsRead, Compressed, Low, Shr, DigitsOf, InBase, ElementBytes;
    CompressLayout(elements, L, pad, outLen);
    var n, width := |elements|, pad + ElementBytes(L);
    ElementCount(n, L, 0, outLen);
    ValueBound(elements, L);
    ValueOfDigits(Value(elements, L), 8, outLen);
    WidthIsProduct(8, outLen);
    LowOfSmall(Value(elements, L), 8 * outLen);
    NoShift(Value(elements, L));
    DigitsOfValue(elements, L);
    WidthIsProduct(L, n);
    WidthIsProduct(width, n);
    DivModUnique(8 * width * outLen, L, width * n, 0) by { Commute(L, n, width, outLen); }
  }

  // ---- what expanding preserves ----

  /** Equal expansions come from equal inputs. */
  lemma ExpandInjective(a: seq<byte>, b: seq<byte>, L: nat, pad: nat)
    requires 8 <= L && |a| == |b| && 8 * |a| % L == 0
    requires Expanded(a, L, pad) == Expanded(b, L, pad)
    ensures a == b
  {
    CompressExpand(a, L, pad);
    CompressExpand(b, L, pad);
  }
}
