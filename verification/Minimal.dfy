/** The packed ("minimal") form of an index list (src/equihash_original.cpp:181-213). */
module Minimal {
  import opened Arithmetic
  import opened Digits
  import opened BitPacking
  import opened EquihashRows

  /** An element padded to four bytes is the index in big-endian. */
  lemma PaddedElement(d: nat, w: nat)
    requires w <= 4 && d < Pow2(8 * w)
    ensures Element(d, w, 4 - w) == Bytes(d, 4)
  {
    hide Shr, Low, Pow2;
    DigitsConcat(d, 8, 4 - w, w);
    WidthIsProduct(8, w);
    LowOfSmall(d, 8 * w);
    DigitsOfZero(4 - w);
  }

  lemma {:induction false} DigitsOfZero(n: nat)
    ensures DigitsOf(0, 8, n) == Zeros(n)
  {
    LowOfSmall(0, 8);
    if n > 0 { DigitsOfZero(n - 1); }
  }

  lemma {:induction false} PaddedLayout(elements: seq<nat>, L: nat)
    requires InBase(elements, L) && ElementBytes(L) <= 4
    ensures Layout(elements, ElementBytes(L), 4 - ElementBytes(L)) == IndexBytes(elements)
  {
    hide Element, Pow2, Bytes, ElementBytes;
    if elements != [] {
      var s, d := elements[..|elements| - 1], elements[|elements| - 1];
      PaddedLayout(s, L);
      EnoughBytes(L);
      Pow2Monotone(L, 8 * ElementBytes(L));
      PaddedElement(d, ElementBytes(L));
      PlainElement(d);
    }
  }

  lemma PlainElement(d: nat)
    ensures Element(d, 4, 0) == Bytes(d, 4)
  {}

  /** The four bytes of index k. */
  lemma IndexSlice(indices: seq<nat>, k: nat)
    requires k < |indices|
    ensures IndexBytes(indices)[4 * k..4 * k + 4] == Bytes(indices[k], 4)
  {
    hide Layout, Bytes;
    LayoutSlice(indices, 4, 0, k);
    WidthIsProduct(4, k);
    WidthIsProduct(4, k + 1);
  }

  lemma ReadIndex(indices: seq<nat>, k: nat)
    requires k < |indices| && InBase(indices, 32)
    ensures ArrayToEhIndex(IndexBytes(indices)[4 * k..4 * k + 4]) == indices[k]
  {
    IndexSlice(indices, k);
    IndexRoundTrip(indices[k]);
  }

  /** The loop of GetIndicesFromMinimal. */
  method LoadIndices(bytes: array<byte>, ghost indices: seq<nat>) returns (ret: seq<nat>)
    requires bytes[..] == IndexBytes(indices) && InBase(indices, 32)
    ensures ret == indices
  {
    hide *;
    ret := [];
    var i := 0;
    while i < bytes.Length
      invariant i == 4 * |ret| && |ret| <= |indices| && ret == indices[..|ret|]
    {
      ReadIndex(indices, |ret|);
      assert bytes[i..i + 4] == bytes[..][i..i + 4];
      ret := ret + [ArrayToEhIndex(bytes[i..i + 4])];
      i := i + 4;
    }
    assert indices[..|ret|] == indices;
  }

  method GetIndicesFromMinimal(minimal: seq<byte>, cBitLen: nat) returns (ret: seq<nat>)
    requires 8 <= cBitLen + 1 <= 25
    requires Quotient(32 * |minimal|, cBitLen + 1) % 4 == 0  // no partial index is read
    ensures ret == Elements(minimal, cBitLen + 1)
  {
    var L := cBitLen + 1;
    var lenIndices := Quotient(32 * |minimal|, L);
    var bytePad := 4 - ElementBytes(L);
    var bytes := new byte[lenIndices];
    ExpandedIndices(minimal, L);
    PaddedOutput(|minimal|, L);
    hide Expanded, Elements, Quotient, ExpandedLength, InBase;
    ExpandArray(minimal, bytes, lenIndices, L, bytePad);
    assert bytes[..] == IndexBytes(Elements(minimal, L));
    ret := LoadIndices(bytes, Elements(minimal, L));
  }

  lemma PaddedOutput(inLen: nat, L: nat)
    requires 0 < L && ElementBytes(L) <= 4
    ensures ExpandedLength(inLen, L, 4 - ElementBytes(L)) == Quotient(32 * inLen, L)
  {}

  /** ExpandArray with padding to four bytes yields the big-endian indices and
      fills its output, if that is made of whole indices. */
  lemma ExpandedIndices(minimal: seq<byte>, L: nat)
    requires 8 <= L <= 25 && Quotient(32 * |minimal|, L) % 4 == 0
    ensures Expanded(minimal, L, 4 - ElementBytes(L)) == IndexBytes(Elements(minimal, L))
    ensures 4 * |Elements(minimal, L)| == Quotient(32 * |minimal|, L)
    ensures InBase(Elements(minimal, L), 32)
  {
    hide *;
    ShortElements(L);
    ElementsInBase(minimal, L);
    PaddedLayout(Elements(minimal, L), L);
    ExpandedIs(minimal, L, 4 - ElementBytes(L));
    Pow2Monotone(L, 32);
    WiderBase(Elements(minimal, L), L, 32);
    QuotientIs(32 * |minimal|, L);
    WholeIndices(minimal, L, 8 * |minimal| / L, 8 * |minimal| % L, Quotient(32 * |minimal|, L));
  }

  lemma ElementsInBase(input: seq<byte>, L: nat)
    requires L > 0
    ensures InBase(Elements(input, L), L)
  {
    hide Low, Shr, Pow2, Value, InBase;
    DigitsInBase(Shr(Value(input, 8), 8 * |input| % L), L, 8 * |input| / L);
  }

  lemma ExpandedIs(input: seq<byte>, L: nat, pad: nat)
    requires L > 0
    ensures Expanded(input, L, pad) == Layout(Elements(input, L), ElementBytes(L), pad)
  {}

  lemma WiderBase(s: seq<nat>, L: nat, M: nat)
    requires InBase(s, L) && Pow2(L) <= Pow2(M)
    ensures InBase(s, M)
  {}

  lemma QuotientIs(x: nat, d: nat)
    requires d > 0
    ensures Quotient(x, d) == x / d
  {}

  lemma WholeIndices(minimal: seq<byte>, L: nat, n: nat, r: nat, q: nat)
    requires L > 0 && 8 * |minimal| == n * L + r && r < L
    requires q == 32 * |minimal| / L && q % 4 == 0
    ensures q == 4 * n
  {
    var m := q / 4;
    var s := 32 * |minimal| % L;
    assert 32 * |minimal| == q * L + s;
    Associate(4, m, L);
    assert 4 * (n * L + r) == 4 * (m * L) + s;
    if m < n {
      MulStrict(m, n, L);
      assert false;
    } else if n < m {
      MulStrict(n, m, L);
      assert false;
    }
  }

  /** The bytes GetMinimalFromIndices produces. */
  function MinimalOf(indices: seq<nat>, L: nat): (s: seq<byte>)
    requires 8 <= L <= 25
  {
    MinimalFits(|indices|, L);
    Compressed(IndexBytes(indices), CompressedLength(4 * |indices|, L, 4 - ElementBytes(L)), L, 4 - ElementBytes(L))
  }

  lemma MinimalFits(n: nat, L: nat)
    requires 8 <= L <= 25
    ensures Width(4, ElementsRead(CompressedLength(4 * n, L, 4 - ElementBytes(L)), L)) <= 4 * n
    ensures CompressedLength(4 * n, L, 4 - ElementBytes(L)) == Quotient(L * (4 * n), 32)
  {
    var m := CompressedLength(4 * n, L, 4 - ElementBytes(L));
    assert 32 * m <= L * (4 * n);
    assert L * (4 * n) == 4 * (n * L);
    var q := ElementsRead(m, L);
    assert q * L <= 8 * m + L - 1;
    if n < q {
      MulStrict(n, q, L);
      assert false;
    }
    WidthIsProduct(4, q);
  }

  /** The loop of GetMinimalFromIndices. */
  method StoreIndices(indices: seq<nat>) returns (bytes: array<byte>)
    requires InBase(indices, 32)
    ensures fresh(bytes) && bytes[..] == IndexBytes(indices)
  {
    hide *;
    bytes := new byte[4 * |indices|];
    NoIndexBytes();
    assert indices[..0] == [];
    for i := 0 to |indices|
      invariant bytes[..4 * i] == IndexBytes(indices[..i])
    {
      IndexSnoc(indices, i);
      DigitBelow(indices, 32, i);
      ghost var before := bytes[..];
      SplicePrefix(before, 4 * i, Bytes(indices[i], 4));
      assert before[..4 * i] == bytes[..4 * i];
      EhIndexToArray(indices[i], bytes, 4 * i);
      assert bytes[..4 * i + 4] == bytes[..][..4 * i + 4];
    }
    assert indices[..|indices|] == indices && bytes[..4 * |indices|] == bytes[..];
  }

  lemma NoIndexBytes() ensures IndexBytes([]) == [] {}

  lemma DigitBelow(s: seq<nat>, L: nat, i: nat)
    requires InBase(s, L) && i < |s|
    ensures s[i] < Pow2(L)
  {}

  method GetMinimalFromIndices(indices: seq<nat>, cBitLen: nat) returns (ret: seq<byte>)
    requires 8 <= cBitLen + 1 <= 25 && InBase(indices, 32)
    ensures ret == MinimalOf(indices, cBitLen + 1)
  {
    hide *;
    var L := cBitLen + 1;
    ShortElements(L);
    var lenIndices := 4 * |indices|;
    var minLen := Quotient(L * lenIndices, 32);
    var bytePad := 4 - ElementBytes(L);
    MinimalFits(|indices|, L);
    MinimalIs(indices, L);
    var bytes := StoreIndices(indices);
    var out := new byte[minLen];
    ghost var before := out[..];
    CompressArray(bytes[..], out, minLen, L, bytePad);
    SplicePrefix(before, 0, MinimalOf(indices, L));
    ret := out[..];
    assert ret == ret[..minLen] && before[..0] + MinimalOf(indices, L) == MinimalOf(indices, L);
  }

  lemma ShortElements(L: nat)
    requires 8 <= L <= 25
    ensures 1 <= ElementBytes(L) <= 4
  {}

  lemma MinimalIs(indices: seq<nat>, L: nat)
    requires 8 <= L <= 25
    ensures 1 <= ElementBytes(L) <= 4
    ensures var m := CompressedLength(4 * |indices|, L, 4 - ElementBytes(L));
      && Width(4, ElementsRead(m, L)) <= 4 * |indices|
      && MinimalOf(indices, L) == Compressed(IndexBytes(indices), m, L, 4 - ElementBytes(L))
  {
    MinimalFits(|indices|, L);
  }

  lemma IndexSnoc(indices: seq<nat>, i: nat)
    requires i < |indices|
    ensures IndexBytes(indices[..i + 1]) == IndexBytes(indices[..i]) + Bytes(indices[i], 4)
  {
    hide Bytes;
    assert indices[..i + 1] == indices[..i] + [indices[i]];
    LayoutSnoc(indices[..i], indices[i], 4, 0);
    PlainElement(indices[i]);
  }

  // ---- packing and unpacking are mutual inverses ----

  /** Packing the indices of a byte string gives the bytes back, when they hold
      whole indices. */
  lemma PackUnpack(minimal: seq<byte>, L: nat)
    requires 8 <= L <= 25 && 8 * |minimal| % L == 0
    ensures MinimalOf(Elements(minimal, L), L) == minimal
  {
    hide Elements, Layout, CompressedLength, ElementsRead, Compressed;
    var pad := 4 - ElementBytes(L);
    CompressExpand(minimal, L, pad);
    WholeElements(|minimal|, L);
    ElementsWhole(minimal, L, 8 * |minimal| / L);
    PaddedLayout(Elements(minimal, L), L);
  }

  /** Unpacking packed indices gives the indices back, when each is below 2^L and
      together they fill whole bytes. */
  lemma UnpackPack(indices: seq<nat>, L: nat)
    requires 8 <= L <= 25 && InBase(indices, L) && L * |indices| % 8 == 0
    ensures Elements(MinimalOf(indices, L), L) == indices
  {
    hide Layout, CompressedLength, ElementsRead, Compressed, Value, DigitsOf, Low, Shr, InBase;
    var outLen := L * |indices| / 8;
    WidthIsProduct(L, |indices|);
    CompressLayout(indices, L, 4 - ElementBytes(L), outLen);
    PaddedLayout(indices, L);
    ElementsWhole(MinimalOf(indices, L), L, |indices|);
    ValueBound(indices, L);
    ValueOfDigits(Value(indices, L), 8, outLen);
    WidthIsProduct(8, outLen);
    LowOfSmall(Value(indices, L), 8 * outLen);
    DigitsOfValue(indices, L);
    DigitsOfValue(Elements(MinimalOf(indices, L), L), L);
  }
}
