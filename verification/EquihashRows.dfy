/** The rows of the verifier: a shrinking XOR prefix followed by a growing list of
    big-endian indices in one byte buffer (src/equihash_original.cpp:215-282). */
module EquihashRows {
  import opened Arithmetic
  import opened Bitwise
  import opened Digits
  import opened BitPacking
  import opened EquihashSpec

  /** The m last collision segments of a hash value, each in B bytes. */
  function Segments(p: Params, v: nat, m: nat): (s: seq<byte>)
    ensures |s| == Width(p.B(), m)
  {
    Layout(DigitsOf(v, p.C(), m), p.B(), 0)
  }

  /** EhIndexToArray on each index. */
  function IndexBytes(indices: seq<nat>): (s: seq<byte>)
    ensures |s| == 4 * |indices|
  {
    WidthIsProduct(4, |indices|);
    Layout(indices, 4, 0)
  }

  /** What a row holds for a block of 2^r indices after r rounds. */
  function RowBytes(p: Params, v: nat, block: seq<nat>, r: nat): (s: seq<byte>)
    requires r <= p.K
    ensures |s| == Width(p.B(), p.K + 1 - r) + 4 * |block|
  {
    Segments(p, v, p.K + 1 - r) + IndexBytes(block)
  }

  // ---- layouts under concatenation, XOR and comparison ----

  lemma {:induction false} LayoutConcat(s: seq<nat>, t: seq<nat>, w: nat)
    ensures Layout(s + t, w, 0) == Layout(s, w, 0) + Layout(t, w, 0)
    decreases |t|
  {
    hide Element;
    if t == [] {
      assert s + t == s;
    } else {
      var t', x := t[..|t| - 1], t[|t| - 1];
      assert (s + t)[..|s + t| - 1] == s + t';
      LayoutConcat(s, t', w);
    }
  }

  lemma {:induction false} XorConcat(s: seq<nat>, t: seq<nat>, s': seq<nat>, t': seq<nat>)
    requires |s| == |t| && |s'| == |t'|
    ensures XorSeq(s + s', t + t') == XorSeq(s, t) + XorSeq(s', t')
  {
    hide Xor;
  }

  /** XOR of two layouts, byte by byte, is the layout of the XORs: padding stays zero. */
  lemma {:induction false} XorLayout(s: seq<nat>, t: seq<nat>, w: nat, pad: nat)
    requires |s| == |t|
    ensures |Layout(s, w, pad)| == |Layout(t, w, pad)|
    ensures XorSeq(Layout(s, w, pad), Layout(t, w, pad)) == Layout(XorSeq(s, t), w, pad)
  {
    hide Xor, Element, XorSeq;
    if s == [] {
      NothingXored();
    } else {
      var s', x, t', y := s[..|s| - 1], s[|s| - 1], t[..|t| - 1], t[|t| - 1];
      XorLayout(s', t', w, pad);
      XorElement(x, y, w, pad);
      XorConcat(Layout(s', w, pad), Layout(t', w, pad), Element(x, w, pad), Element(y, w, pad));
      XorSnoc(s', x, t', y);
      assert s == s' + [x] && t == t' + [y];
      LayoutSnoc(XorSeq(s', t'), Xor(x, y), w, pad);
    }
  }

  lemma NothingXored() ensures XorSeq([], []) == [] {}

  lemma XorElement(x: nat, y: nat, w: nat, pad: nat)
    ensures XorSeq(Element(x, w, pad), Element(y, w, pad)) == Element(Xor(x, y), w, pad)
  {
    hide Xor, XorSeq, DigitsOf;
    XorOfDigits(x, y, 8, w);
    XorConcat(Zeros(pad), Zeros(pad), Bytes(x, w), Bytes(y, w));
    XorZero(0);
    assert XorSeq(Zeros(pad), Zeros(pad)) == Zeros(pad);
  }

  /** memcmp on big-endian layouts compares the lists of numbers. */
  lemma {:induction false} LayoutOrder(s: seq<nat>, t: seq<nat>, w: nat)
    requires |s| == |t| && InBase(s, 8 * w) && InBase(t, 8 * w)
    ensures |Layout(s, w, 0)| == |Layout(t, w, 0)|
    ensures Before(Layout(s, w, 0), Layout(t, w, 0)) <==> Before(s, t)
    ensures Layout(s, w, 0) == Layout(t, w, 0) <==> s == t
  {
    hide Before, Pow2;
    if s == [] {
      NotBeforeEmpty();
    } else {
      var s', x, t', y := s[..|s| - 1], s[|s| - 1], t[..|t| - 1], t[|t| - 1];
      LayoutOrder(s', t', w);
      WidthIsProduct(8, w);
      BeforeIsLess(x, y, 8, w);
      DigitsAgree(x, y, 8, w);
      BeforeConcat(Layout(s', w, 0), Layout(t', w, 0), Element(x, w, 0), Element(y, w, 0));
      BeforeConcat(s', t', [x], [y]);
      assert s == s' + [x] && t == t' + [y];
      assert Element(x, w, 0) == DigitsOf(x, 8, w) && Element(y, w, 0) == DigitsOf(y, 8, w);
      BeforeSingle(x, y);
      ConcatCancels(Layout(s', w, 0), Element(x, w, 0), Layout(t', w, 0), Element(y, w, 0));
    }
  }

  lemma ConcatCancels<T>(a: seq<T>, b: seq<T>, c: seq<T>, d: seq<T>)
    requires |a| == |c|
    ensures a + b == c + d <==> a == c && b == d
  {
    assert (a + b)[..|a|] == a && (c + d)[..|c|] == c && (a + b)[|a|..] == b && (c + d)[|c|..] == d;
  }

  lemma NotBeforeEmpty() ensures !Before([], []) {}

  lemma BeforeSingle(x: nat, y: nat)
    ensures Before([x], [y]) <==> x < y
  {}

  /** IndicesBefore on rows is the lexicographic order on their index lists. */
  lemma IndexBytesOrder(s: seq<nat>, t: seq<nat>)
    requires |s| == |t| && InBase(s, 32) && InBase(t, 32)
    ensures Before(IndexBytes(s), IndexBytes(t)) <==> Before(s, t)
  {
    LayoutOrder(s, t, 4);
  }

  function XorBytes(a: seq<byte>, b: seq<byte>): (s: seq<byte>)
    requires |a| == |b|
    ensures |s| == |a| && s == XorSeq(a, b)
  {
    XorStaysByte(a, b);
    XorSeq(a, b)
  }

  lemma XorStaysByte(a: seq<byte>, b: seq<byte>)
    requires |a| == |b|
    ensures forall i :: 0 <= i < |a| ==> XorSeq(a, b)[i] < 256
  {
    forall i | 0 <= i < |a|
      ensures XorSeq(a, b)[i] < 256
    {
      Pow2Known();
      XorBelow(a[i], b[i], 8);
    }
  }

  // ---- index bytes ----

  /** Big-endian store of an index at out[j..j+4]. */
  method EhIndexToArray(i: nat, out: array<byte>, j: nat)
    requires i < Pow2(32) && j + 4 <= out.Length
    modifies out
    ensures out[..] == Splice(old(out[..]), j, Bytes(i, 4))
  {
    hide *;
    ghost var before, b := out[..], Bytes(i, 4);
    SpliceNothing(before, j);
    for k := 0 to 4
      invariant out[..] == Splice(before, j, b[..k])
    {
      DigitAt(i, 8, 4, k);
      WidthIsProduct(8, 3 - k);
      SpliceSnoc(before, j, b[..k], b[k]);
      assert b[..k + 1] == b[..k] + [b[k]];
      Put(out, j + k, Low(Shr(i, 8 * (3 - k)), 8));
    }
    assert b[..4] == b;
  }

  function ArrayToEhIndex(a: seq<byte>): (i: nat)
    requires |a| == 4
  {
    Value(a, 8)
  }

  lemma IndexRoundTrip(i: nat)
    requires i < Pow2(32)
    ensures ArrayToEhIndex(Bytes(i, 4)) == i
  {
    ValueOfDigits(i, 8, 4);
    WidthIsProduct(8, 4);
    LowOfSmall(i, 32);
  }

  // ---- rows ----

  /** std::copy between two buffers. */
  method CopyBytes(src: array<byte>, from: nat, n: nat, dst: array<byte>, to: nat)
    requires src != dst && from + n <= src.Length && to + n <= dst.Length
    modifies dst
    ensures dst[..] == Splice(old(dst[..]), to, src[from..from + n])
  {
    hide *;
    ghost var before := dst[..];
    SpliceNothing(before, to);
    assert src[from..from + 0] == [];
    for k := 0 to n
      invariant dst[..] == Splice(before, to, src[from..from + k])
    {
      SpliceSnoc(before, to, src[from..from + k], src[from + k]);
      assert src[from..from + k + 1] == src[from..from + k] + [src[from + k]];
      Put(dst, to + k, src[from + k]);
    }
  }

  class FullStepRow {
    const hash: array<byte>

    /** The bytes of the indices, after a prefix of len hash bytes. */
    function Tail(len: nat, lenIndices: nat): (s: seq<byte>)
      requires len + lenIndices <= hash.Length
      reads hash
      ensures |s| == lenIndices
    {
      hash[len..len + lenIndices]
    }

    /** Whether the index bytes of this row come before those of row a. */
    predicate IndicesBefore(a: FullStepRow, len: nat, lenIndices: nat)
      requires len + lenIndices <= hash.Length && len + lenIndices <= a.hash.Length
      reads hash, a.hash
    {
      Before(Tail(len, lenIndices), a.Tail(len, lenIndices))
    }

    constructor FromHash(hashIn: seq<byte>, hLen: nat, L: nat, i: nat, width: nat)
      requires 8 <= L <= 25 && hLen == ExpandedLength(|hashIn|, L, 0)
      requires i < Pow2(32) && hLen + 4 <= width
      ensures fresh(hash) && hash.Length == width
      ensures |Expanded(hashIn, L, 0)| <= hLen
      ensures hash[..|Expanded(hashIn, L, 0)|] == Expanded(hashIn, L, 0)
      ensures hash[hLen..hLen + 4] == Bytes(i, 4)
    {
      hide *;
      hash := new byte[width];
      new;
      ghost var start := hash[..];
      ExpandArray(hashIn, hash, hLen, L, 0);
      EhIndexToArray(i, hash, hLen);
      TwoSplices(start, hash[..], Expanded(hashIn, L, 0), hLen, Bytes(i, 4));
    }

    /** The row of two siblings: the XOR of their prefixes without the first trim
        bytes, then the indices of the lesser sibling, then those of the other. */
    constructor Merge(a: FullStepRow, b: FullStepRow, len: nat, lenIndices: nat, trim: nat, width: nat)
      requires a.hash.Length <= width && trim <= len
      requires len + lenIndices <= a.hash.Length && len + lenIndices <= b.hash.Length
      requires len - trim + 2 * lenIndices <= width
      ensures fresh(hash) && hash.Length == width
      ensures hash[..len - trim + 2 * lenIndices]
           == XorBytes(a.hash[..len], b.hash[..len])[trim..]
            + (if a.IndicesBefore(b, len, lenIndices)
               then a.Tail(len, lenIndices) + b.Tail(len, lenIndices)
               else b.Tail(len, lenIndices) + a.Tail(len, lenIndices))
    {
      hide XorBytes, Splice, Before, IndicesBefore, XorSeq;
      hash := new byte[width];
      new;
      CopyBytes(a.hash, 0, a.hash.Length, hash, 0);
      ghost var start := hash[..];
      ghost var x := XorBytes(a.hash[..len], b.hash[..len])[trim..];
      XorPrefixes(a.hash, b.hash, trim, len, hash);
      var (first, second) := if a.IndicesBefore(b, len, lenIndices) then (a, b) else (b, a);
      CopyBytes(first.hash, len, lenIndices, hash, len - trim);
      CopyBytes(second.hash, len, lenIndices, hash, len - trim + lenIndices);
      MergedPrefix(start, hash[..], x, first.Tail(len, lenIndices), second.Tail(len, lenIndices));
    }
  }

  lemma TwoSplices(start: seq<byte>, end: seq<byte>, e: seq<byte>, h: nat, b: seq<byte>)
    requires |e| <= h && h + |b| <= |start| && end == Splice(Splice(start, 0, e), h, b)
    ensures end[..|e|] == e && end[h..h + |b|] == b
  {}

  lemma MergedPrefix(start: seq<byte>, end: seq<byte>, x: seq<byte>, s: seq<byte>, t: seq<byte>)
    requires |x| + |s| + |t| <= |start|
    requires end == Splice(Splice(Splice(start, 0, x), |x|, s), |x| + |s|, t)
    ensures end[..|x| + |s| + |t|] == x + (s + t)
  {
    SpliceAppend(start, x, s);
    SpliceAppend(start, x + s, t);
  }

  method XorPrefixes(a: array<byte>, b: array<byte>, trim: nat, len: nat, out: array<byte>)
    requires trim <= len <= a.Length && len <= b.Length && len - trim <= out.Length
    requires a != out && b != out
    modifies out
    ensures out[..] == Splice(old(out[..]), 0, XorBytes(a[..len], b[..len])[trim..])
  {
    ghost var x := XorBytes(a[..len], b[..len]);
    hide Xor;
    for i := trim to len
      invariant forall k :: 0 <= k < out.Length ==>
        out[k] == if k < i - trim then x[k + trim] else old(out[k])
    {
      assert x[i] == Xor(a[i], b[i]);
      out[i - trim] := Xor(a[i], b[i]);
    }
  }
}
