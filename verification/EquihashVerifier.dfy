/** Equihash::IsValidSolution: the in-place folding of rows accepts exactly the
    solutions (src/equihash_original.cpp:274-324, src/equihash.tcc:11-21). */
module EquihashVerifier {
  import opened Arithmetic
  import opened Bitwise
  import opened Digits
  import opened BitPacking
  import opened EquihashSpec
  import opened EquihashRows
  import opened Minimal

  /** eh_index is a uint32_t. */
  ghost predicate AreIndices(s: seq<nat>) {
    forall i :: 0 <= i < |s| ==> s[i] < 0x1_0000_0000
  }

  lemma IndicesInBase(s: seq<nat>)
    requires AreIndices(s)
    ensures InBase(s, 32)
  {
    Pow2Known();
  }

  // ---- the checks on two rows ----

  method HasCollision(a: FullStepRow, b: FullStepRow, l: nat) returns (same: bool)
    requires l <= a.hash.Length && l <= b.hash.Length
    ensures same <==> a.hash[..l] == b.hash[..l]
  {
    for j := 0 to l
      invariant a.hash[..j] == b.hash[..j]
    {
      if a.hash[j] != b.hash[j] {
        assert a.hash[..l][j] != b.hash[..l][j];
        return false;
      }
    }
    return true;
  }

  method IsZero(row: FullStepRow, len: nat) returns (zero: bool)
    requires len <= row.hash.Length
    ensures zero <==> forall i :: 0 <= i < len ==> row.hash[i] == 0
  {
    for i := 0 to len
      invariant forall k :: 0 <= k < i ==> row.hash[k] == 0
    {
      if row.hash[i] != 0 {
        return false;
      }
    }
    return true;
  }

  /** Compares every index of a with every index of b. */
  method DistinctIndices(a: FullStepRow, b: FullStepRow, len: nat, lenIndices: nat, ghost s: seq<nat>,
          ghost t: seq<nat>)
    returns (distinct: bool)
    requires len + lenIndices <= a.hash.Length && len + lenIndices <= b.hash.Length
    requires a.Tail(len, lenIndices) == IndexBytes(s) && b.Tail(len, lenIndices) == IndexBytes(t)
    requires AreIndices(s) && AreIndices(t)
    ensures distinct <==> Disjoint(s, t)
  {
    hide *;
    var i := 0;
    ghost var m := 0;
    IndexCount(s);
    IndexCount(t);
    DisjointNone(t);
    assert s[..0] == [];
    while i < lenIndices
      invariant i == 4 * m && m <= |s|
      invariant Disjoint(s[..m], t)
    {
      var j := 0;
      ghost var n := 0;
      while j < lenIndices
        invariant j == 4 * n && n <= |t|
        invariant s[m] !in t[..n]
      {
        SameIndex(a, b, len, lenIndices, s, t, m, n);
        if a.hash[len + i..len + i + 4] == b.hash[len + j..len + j + 4] {
          NotDisjoint(s, t, m, n);
          return false;
        }
        assert t[..n + 1] == t[..n] + [t[n]];
        j := j + 4;
        n := n + 1;
      }
      assert t[..n] == t;
      DisjointSnoc(s, t, m);
      i := i + 4;
      m := m + 1;
    }
    assert s[..m] == s;
    return true;
  }

  lemma IndexCount(s: seq<nat>)
    ensures |IndexBytes(s)| == 4 * |s|
  {}

  lemma DisjointNone(t: seq<nat>) ensures Disjoint([], t) {}

  lemma DisjointSnoc(s: seq<nat>, t: seq<nat>, m: nat)
    requires m < |s| && Disjoint(s[..m], t) && s[m] !in t
    ensures Disjoint(s[..m + 1], t)
  {}

  lemma NotDisjoint(s: seq<nat>, t: seq<nat>, m: nat, n: nat)
    requires m < |s| && n < |t| && s[m] == t[n]
    ensures !Disjoint(s, t)
  {}

  lemma SameIndex(a: FullStepRow, b: FullStepRow, len: nat, lenIndices: nat, s: seq<nat>, t: seq<nat>, m: nat, n: nat)
    requires len + lenIndices <= a.hash.Length && len + lenIndices <= b.hash.Length
    requires a.Tail(len, lenIndices) == IndexBytes(s) && b.Tail(len, lenIndices) == IndexBytes(t)
    requires AreIndices(s) && AreIndices(t) && m < |s| && n < |t|
    ensures 4 * m + 4 <= lenIndices && 4 * n + 4 <= lenIndices
    ensures a.hash[len + 4 * m..len + 4 * m + 4] == b.hash[len + 4 * n..len + 4 * n + 4] <==> s[m] == t[n]
  {
    hide *;
    IndexAt(a, len, lenIndices, s, m);
    IndexAt(b, len, lenIndices, t, n);
    IndicesInBase(s);
    IndicesInBase(t);
    ReadIndex(s, m);
    ReadIndex(t, n);
    IndexSlice(s, m);
    IndexSlice(t, n);
  }

  lemma IndexAt(row: FullStepRow, len: nat, lenIndices: nat, s: seq<nat>, m: nat)
    requires len + lenIndices <= row.hash.Length && row.Tail(len, lenIndices) == IndexBytes(s) && m < |s|
    ensures 4 * m + 4 <= lenIndices
    ensures row.hash[len + 4 * m..len + 4 * m + 4] == IndexBytes(s)[4 * m..4 * m + 4]
  {
    hide IndexBytes;
    var h := row.hash[..];
    assert row.hash[len..len + lenIndices] == h[len..len + lenIndices];
    SliceOfSlice(h, len, len + lenIndices, 4 * m, 4 * m + 4);
    assert row.hash[len + 4 * m..len + 4 * m + 4] == h[len + 4 * m..len + 4 * m + 4];
  }

  lemma SliceOfSlice(s: seq<byte>, a: nat, b: nat, c: nat, d: nat)
    requires c <= d && a + d <= b <= |s|
    ensures s[a..b][c..d] == s[a + c..a + d]
  {
    var x, y := s[a..b][c..d], s[a + c..a + d];
    assert |x| == |y| && forall i :: 0 <= i < |x| ==> x[i] == y[i];
  }

  // ---- what the checks mean for the hash values ----

  /** The first segments of two prefixes agree exactly when the XOR of the values
      has that segment zero too. */
  lemma CollisionIsLeadingZeros(p: Params, u: nat, v: nat, m: nat)
    requires u < Pow2(Width(p.C(), m + 1)) && v < Pow2(Width(p.C(), m + 1))
    ensures |Segments(p, u, m + 1)| >= p.B() && |Segments(p, v, m + 1)| >= p.B()
    ensures Segments(p, u, m + 1)[..p.B()] == Segments(p, v, m + 1)[..p.B()]
       <==> Xor(u, v) < Pow2(Width(p.C(), m))
  {
    hide Shr, Low, Pow2, Xor, Layout, Value;
    var W := Width(p.C(), m);
    var hu, hv := Shr(u, W), Shr(v, W);
    FirstSegment(p, u, m);
    FirstSegment(p, v, m);
    EnoughBytes(p.C());
    Pow2Monotone(p.C(), 8 * p.B());
    WidthIsProduct(8, p.B());
    DigitsAgree(hu, hv, 8, p.B());
    XorShrLow(u, v, W);
    XorIsZero(hu, hv);
    ShrBelow(Xor(u, v), W, 0);
    assert Pow2(0) == 1 by { NoShift(0); }
  }

  lemma FirstSegment(p: Params, v: nat, m: nat)
    requires v < Pow2(Width(p.C(), m + 1))
    ensures Shr(v, Width(p.C(), m)) < Pow2(p.C())
    ensures Segments(p, v, m + 1) == Bytes(Shr(v, Width(p.C(), m)), p.B()) + Segments(p, v, m)
  {
    hide Shr, Low, Pow2, Element;
    var C, B := p.C(), p.B();
    var W := Width(C, m);
    ShrBelow(v, W, C);
    DigitsConcat(v, C, 1, m);
    var h := Shr(v, W);
    LowOfSmall(h, C);
    assert DigitsOf(h, C, 1) == [h] by { OneDigit(h, C); }
    LayoutConcat([h], DigitsOf(v, C, m), B);
    assert Layout([h], B, 0) == Bytes(h, B) by { OneElement(h, B); }
  }

  lemma OneDigit(h: nat, L: nat)
    ensures DigitsOf(h, L, 1) == [Low(h, L)]
  {
    assert DigitsOf(Shr(h, L), L, 0) == [];
  }

  lemma OneElement(d: nat, w: nat)
    ensures Layout([d], w, 0) == Bytes(d, w)
  {
    LayoutSnoc([], d, w, 0);
  }

  /** XORing prefixes and dropping the first segment is taking the later segments
      of the XOR. */
  lemma MergedSegments(p: Params, u: nat, v: nat, m: nat)
    requires u < Pow2(Width(p.C(), m + 1)) && v < Pow2(Width(p.C(), m + 1))
    ensures XorBytes(Segments(p, u, m + 1), Segments(p, v, m + 1))[p.B()..] == Segments(p, Xor(u, v), m)
  {
    hide Shr, Low, Pow2, Xor, Layout, XorSeq;
    var W := Width(p.C(), m);
    FirstSegment(p, u, m);
    FirstSegment(p, v, m);
    XorConcat(Bytes(Shr(u, W), p.B()), Bytes(Shr(v, W), p.B()), Segments(p, u, m), Segments(p, v, m));
    XorLayout(DigitsOf(u, p.C(), m), DigitsOf(v, p.C(), m), p.B(), 0);
    XorOfDigits(u, v, p.C(), m);
  }

  /** The last segment is all zero exactly when the value is. */
  lemma LastSegmentZero(p: Params, v: nat)
    requires v < Pow2(p.C())
    ensures (forall i :: 0 <= i < |Segments(p, v, 1)| ==> Segments(p, v, 1)[i] == 0) <==> v == 0
  {
    hide Shr, Low, Pow2, Value;
    var C, B := p.C(), p.B();
    OneDigit(v, C);
    LowOfSmall(v, C);
    OneElement(v, B);
    DigitsOfZero(B);
    EnoughBytes(C);
    Pow2Monotone(C, 8 * B);
    WidthIsProduct(8, B);
    DigitsAgree(v, 0, 8, B);
    assert Segments(p, v, 1) == Bytes(v, B);
    if forall i :: 0 <= i < B ==> Bytes(v, B)[i] == 0 {
      assert Bytes(v, B) == Zeros(B);
    }
  }

  // ---- the tree of rows ----

  ghost predicate Setting(p: Params, gen: Generator, indices: seq<nat>) {
    p.Admissible() && Generates(p, gen) && |indices| == Pow2(p.K) && AreIndices(indices)
  }

  /** What the row for node (r, w) holds. */
  ghost function NodeRow(p: Params, gen: Generator, indices: seq<nat>, r: nat, w: nat): (s: seq<byte>)
    requires Setting(p, gen, indices) && InTree(p, indices, r, w)
    ensures |s| == Width(p.B(), p.K + 1 - r) + 4 * Pow2(r)
  {
    BlockInRange(p, indices, r, w);
    var block := Block(indices, r, w);
    RowBytes(p, BlockXor(p, gen, block), block, r)
  }

  ghost predicate RowHolds(row: FullStepRow, p: Params, gen: Generator, indices: seq<nat>, r: nat, w: nat)
    requires Setting(p, gen, indices) && InTree(p, indices, r, w)
    reads row.hash
  {
    && row.hash.Length == p.FinalFullWidth()
    && |NodeRow(p, gen, indices, r, w)| <= row.hash.Length
    && row.hash[..|NodeRow(p, gen, indices, r, w)|] == NodeRow(p, gen, indices, r, w)
  }

  /** The three checks of a round on the pair of rows that meets in node (r + 1, w). */
  ghost predicate NodeOk(p: Params, gen: Generator, indices: seq<nat>, r: nat, w: nat)
    requires Setting(p, gen, indices) && InTree(p, indices, r + 1, w)
  {
    && LeadingZeros(p, gen, indices, r + 1, w)
    && HalvesOrdered(p, indices, r, w)
    && HalvesDisjoint(p, indices, r, w)
  }

  ghost predicate NodesOk(p: Params, gen: Generator, indices: seq<nat>, r: nat)
    requires Setting(p, gen, indices)
  {
    forall q: nat, v: nat :: q < r && InTree(p, indices, q + 1, v) ==> NodeOk(p, gen, indices, q, v)
  }

  /** A row never outgrows the buffer: what the two assertions of the merging
      constructor and the constant FinalFullWidth rely on. */
  lemma {:induction false} RowFits(p: Params, r: nat)
    requires p.Admissible() && r <= p.K
    ensures Width(p.B(), p.K + 1 - r) + 4 * Pow2(r) <= p.FinalFullWidth()
    decreases p.K - r
  {
    if r == p.K {
      assert Width(p.B(), 1) == p.B() + Width(p.B(), 0);
    } else {
      RowFits(p, r + 1);
    }
  }

  lemma {:induction false} LeafBound(p: Params, gen: Generator, i: nat)
    requires p.Admissible() && Generates(p, gen)
    ensures LeafValue(p, gen, i) < Pow2(Width(p.C(), p.K + 1))
  {
    hide Pow2, Value;
    BytesInBase(LeafBytes(p, gen, i));
    ValueBound(LeafBytes(p, gen, i), 8);
    WidthIsProduct(8, p.N / 8);
    HashBits(p);
  }

  lemma HashBits(p: Params)
    requires p.Admissible()
    ensures Width(p.C(), p.K + 1) == p.N == 8 * (p.N / 8)
  {}

  /** After r rounds the r leading segments of every row's XOR are zero. */
  lemma RowBound(p: Params, gen: Generator, indices: seq<nat>, r: nat, w: nat)
    requires Setting(p, gen, indices) && InTree(p, indices, r, w) && NodesOk(p, gen, indices, r)
    ensures LeadingZeros(p, gen, indices, r, w)
  {
    hide Pow2, LeafValue, Xor;
    BlockInRange(p, indices, r, w);
    var b := Block(indices, r, w);
    if r == 0 {
      assert |b| == 1 by { NoShift(0); }
      LeafBound(p, gen, b[0]);
      XorZero(LeafValue(p, gen, b[0]));
      assert BlockXor(p, gen, b[..0]) == 0;
      assert BlockXor(p, gen, b) == LeafValue(p, gen, b[0]);
    } else {
      assert NodeOk(p, gen, indices, r - 1, w);
    }
  }

  /** What the merging constructor makes of two rows when the first goes first. */
  ghost function Merged(a: seq<byte>, b: seq<byte>, len: nat, trim: nat): seq<byte>
    requires trim <= len <= |a| && len <= |b|
  {
    XorBytes(a[..len], b[..len])[trim..] + (a[len..] + b[len..])
  }

  /** The bytes a merge produces are the row of the XOR and of the joined indices. */
  lemma MergedRowBytes(p: Params, u: nat, v: nat, s: seq<nat>, t: seq<nat>, r: nat)
    requires r < p.K
    requires u < Pow2(Width(p.C(), p.K + 1 - r)) && v < Pow2(Width(p.C(), p.K + 1 - r))
    ensures p.B() <= Width(p.B(), p.K + 1 - r)
    ensures Merged(RowBytes(p, u, s, r), RowBytes(p, v, t, r), Width(p.B(), p.K + 1 - r), p.B())
         == RowBytes(p, Xor(u, v), s + t, r + 1)
  {
    hide *;
    FirstWidth(p.B(), p.K - r);
    MergedSegments(p, u, v, p.K - r);
    IndexIsLayout(s, t);
    LayoutConcat(s, t, 4);
    RowCut(p, u, s, r);
    RowCut(p, v, t, r);
    RowIs(p, Xor(u, v), s + t, r + 1);
    MergedIs(RowBytes(p, u, s, r), RowBytes(p, v, t, r), Width(p.B(), p.K + 1 - r), p.B());
  }

  lemma FirstWidth(L: nat, n: nat) ensures L <= Width(L, n + 1) {}

  lemma RowIs(p: Params, v: nat, block: seq<nat>, r: nat)
    requires r <= p.K
    ensures RowBytes(p, v, block, r) == Segments(p, v, p.K + 1 - r) + IndexBytes(block)
  {}

  lemma RowCut(p: Params, v: nat, block: seq<nat>, r: nat)
    requires r <= p.K
    ensures var row, len := RowBytes(p, v, block, r), Width(p.B(), p.K + 1 - r);
            len <= |row| && row[..len] == Segments(p, v, p.K + 1 - r) && row[len..] == IndexBytes(block)
  {
    hide *;
    RowIs(p, v, block, r);
  }

  lemma MergedIs(a: seq<byte>, b: seq<byte>, len: nat, trim: nat)
    requires trim <= len <= |a| && len <= |b|
    ensures Merged(a, b, len, trim) == XorBytes(a[..len], b[..len])[trim..] + (a[len..] + b[len..])
  {}

  /** The merged row of an accepted pair is the row of their parent. */
  lemma MergedRow(p: Params, gen: Generator, indices: seq<nat>, r: nat, w: nat)
    requires Setting(p, gen, indices) && r < p.K && InTree(p, indices, r + 1, w)
    requires NodesOk(p, gen, indices, r)
    requires InTree(p, indices, r, 2 * w) && InTree(p, indices, r, 2 * w + 1)
    ensures p.B() <= Width(p.B(), p.K + 1 - r)
    ensures Merged(NodeRow(p, gen, indices, r, 2 * w), NodeRow(p, gen, indices, r, 2 * w + 1),
                   Width(p.B(), p.K + 1 - r), p.B())
         == NodeRow(p, gen, indices, r + 1, w)
  {
    hide *;
    LevelIsSet(p, gen, indices);
    BlockHalves(p, indices, r, w);
    NodeIs(p, gen, indices, r, 2 * w);
    NodeIs(p, gen, indices, r, 2 * w + 1);
    NodeIs(p, gen, indices, r + 1, w);
    BoundIs(p, gen, indices, r, 2 * w);
    BoundIs(p, gen, indices, r, 2 * w + 1);
    var s, t := Block(indices, r, 2 * w), Block(indices, r, 2 * w + 1);
    BlockXorConcat(p, gen, s, t);
    MergedRowBytes(p, BlockXor(p, gen, s), BlockXor(p, gen, t), s, t, r);
  }

  lemma LevelIsSet(p: Params, gen: Generator, indices: seq<nat>)
    requires Setting(p, gen, indices)
    ensures p.Admissible() && Generates(p, gen)
  {}

  lemma NodeIs(p: Params, gen: Generator, indices: seq<nat>, r: nat, w: nat)
    requires Setting(p, gen, indices) && InTree(p, indices, r, w)
    ensures r <= p.K && Width(Pow2(r), w + 1) <= |indices|
    ensures var block := Block(indices, r, w);
            NodeRow(p, gen, indices, r, w) == RowBytes(p, BlockXor(p, gen, block), block, r)
  {
    BlockInRange(p, indices, r, w);
  }

  /** RowBound, spelt out. */
  lemma BoundIs(p: Params, gen: Generator, indices: seq<nat>, r: nat, w: nat)
    requires Setting(p, gen, indices) && InTree(p, indices, r, w) && NodesOk(p, gen, indices, r)
    ensures r <= p.K && Width(Pow2(r), w + 1) <= |indices|
    ensures BlockXor(p, gen, Block(indices, r, w)) < Pow2(Width(p.C(), p.K + 1 - r))
  {
    hide NodesOk, Block, BlockXor, Pow2, Width, Params.C;
    BlockInRange(p, indices, r, w);
    RowBound(p, gen, indices, r, w);
  }

  lemma IndexIsLayout(s: seq<nat>, t: seq<nat>)
    ensures IndexBytes(s) == Layout(s, 4, 0) && IndexBytes(t) == Layout(t, 4, 0)
    ensures IndexBytes(s + t) == Layout(s + t, 4, 0)
  {}

  /** The predicate of the design and the checks of the rounds say the same. */
  lemma SolutionIffNodesOk(p: Params, gen: Generator, indices: seq<nat>)
    requires Setting(p, gen, indices)
    ensures IsSolution(p, gen, indices)
       <==> NodesOk(p, gen, indices, p.K) && BlockXor(p, gen, indices) == 0
  {
    hide Block, BlockXor, Pow2, HalvesOrdered, HalvesDisjoint, LeadingZeros, AreIndices, Params.Admissible, Generates;
    WholeBlock(p, indices);
    if NodesOk(p, gen, indices, p.K) && BlockXor(p, gen, indices) == 0 {
      forall q: nat, v: nat | q < p.K && InTree(p, indices, q + 1, v)
        ensures HalvesDisjoint(p, indices, q, v) && HalvesOrdered(p, indices, q, v)
      {
        assert NodeOk(p, gen, indices, q, v);
      }
      SiblingsImplyDistinct(p, indices, p.K, 0);
      forall r: nat, w: nat | 1 <= r < p.K && InTree(p, indices, r, w)
        ensures LeadingZeros(p, gen, indices, r, w)
      {
        assert NodeOk(p, gen, indices, r - 1, w);
      }
    }
    if IsSolution(p, gen, indices) {
      forall q: nat, v: nat | q < p.K && InTree(p, indices, q + 1, v)
        ensures NodeOk(p, gen, indices, q, v)
      {
        SolutionNode(p, gen, indices, q, v);
      }
    }
  }

  lemma SolutionNode(p: Params, gen: Generator, indices: seq<nat>, r: nat, w: nat)
    requires Setting(p, gen, indices) && IsSolution(p, gen, indices)
    requires r < p.K && InTree(p, indices, r + 1, w)
    ensures NodeOk(p, gen, indices, r, w)
  {
    hide Block, BlockXor, HalvesDisjoint, AreIndices, Params.Admissible, Generates;
    DistinctImpliesSiblings(p, indices, r, w);
    if r + 1 == p.K {
      assert w == 0;
      WholeBlock(p, indices);
    }
  }

  /** The last halves of two rows, as index lists. */
  lemma NodeTail(p: Params, gen: Generator, indices: seq<nat>, r: nat, w: nat, len: nat)
    requires Setting(p, gen, indices) && InTree(p, indices, r, w)
    requires len == Width(p.B(), p.K + 1 - r) && Width(Pow2(r), w + 1) <= |indices|
    ensures NodeRow(p, gen, indices, r, w)[len..] == IndexBytes(Block(indices, r, w))
    ensures NodeRow(p, gen, indices, r, w)[..len]
         == Segments(p, BlockXor(p, gen, Block(indices, r, w)), p.K + 1 - r)
    ensures AreIndices(Block(indices, r, w))
  {
    hide Pow2, IndexBytes, Segments, BlockXor, Params.Admissible, Generates;
  }

  /** Rows a and b are the rows of the children of node (r + 1, w). */
  ghost predicate SiblingRows(p: Params, gen: Generator, indices: seq<nat>, r: nat, w: nat,
                              a: FullStepRow, b: FullStepRow, hashLen: nat, lenIndices: nat)
    reads a.hash, b.hash
  {
    && Setting(p, gen, indices) && r < p.K && NodesOk(p, gen, indices, r)
    && InTree(p, indices, r + 1, w) && InTree(p, indices, r, 2 * w) && InTree(p, indices, r, 2 * w + 1)
    && RowHolds(a, p, gen, indices, r, 2 * w) && RowHolds(b, p, gen, indices, r, 2 * w + 1)
    && hashLen == Width(p.B(), p.K + 1 - r) && lenIndices == 4 * Pow2(r)
  }

  /** The three checks of the inner loop on one pair. */
  method PairOk(p: Params, ghost gen: Generator, ghost indices: seq<nat>, ghost r: nat, ghost w: nat,
                a: FullStepRow, b: FullStepRow, hashLen: nat, lenIndices: nat)
    returns (ok: bool)
    requires SiblingRows(p, gen, indices, r, w, a, b, hashLen, lenIndices)
    ensures ok <==> NodeOk(p, gen, indices, r, w)
  {
    ghost var s, t := PairFacts(p, gen, indices, r, w, a, b, hashLen, lenIndices);
    hide *;
    var collision := HasCollision(a, b, p.B());
    if !collision {
      return false;
    }
    if b.IndicesBefore(a, hashLen, lenIndices) {
      return false;
    }
    ok := DistinctIndices(a, b, hashLen, lenIndices, s, t);
  }

  /** The parts of a row that PairOk looks at. */
  lemma RowParts(p: Params, gen: Generator, indices: seq<nat>, r: nat, w: nat,
                 row: FullStepRow, hashLen: nat, lenIndices: nat)
    requires Setting(p, gen, indices) && InTree(p, indices, r, w) && Width(Pow2(r), w + 1) <= |indices|
    requires RowHolds(row, p, gen, indices, r, w)
    requires hashLen == Width(p.B(), p.K + 1 - r) && lenIndices == 4 * Pow2(r)
    ensures p.B() <= hashLen && hashLen + lenIndices <= row.hash.Length
    ensures row.hash[..hashLen] == Segments(p, BlockXor(p, gen, Block(indices, r, w)), p.K + 1 - r)
    ensures row.Tail(hashLen, lenIndices) == IndexBytes(Block(indices, r, w))
    ensures AreIndices(Block(indices, r, w))
  {
    hide Block, BlockXor, IndexBytes, Segments, Params.Admissible, Generates, Params.B, NodeRow;
    NodeTail(p, gen, indices, r, w, hashLen);
    var n := NodeRow(p, gen, indices, r, w);
    assert row.hash[..hashLen] == row.hash[..|n|][..hashLen];
    assert row.hash[hashLen..hashLen + lenIndices] == row.hash[..|n|][hashLen..];
  }

  /** What the bytes that PairOk looks at stand for. */
  lemma PairFacts(p: Params, gen: Generator, indices: seq<nat>, r: nat, w: nat,
                  a: FullStepRow, b: FullStepRow, hashLen: nat, lenIndices: nat)
    returns (s: seq<nat>, t: seq<nat>)
    requires SiblingRows(p, gen, indices, r, w, a, b, hashLen, lenIndices)
    ensures p.B() <= hashLen && hashLen + lenIndices <= a.hash.Length && hashLen + lenIndices <= b.hash.Length
    ensures a.Tail(hashLen, lenIndices) == IndexBytes(s) && b.Tail(hashLen, lenIndices) == IndexBytes(t)
    ensures AreIndices(s) && AreIndices(t)
    ensures NodeOk(p, gen, indices, r, w)
       <==> a.hash[..p.B()] == b.hash[..p.B()]
            && !b.IndicesBefore(a, hashLen, lenIndices)
            && Disjoint(s, t)
  {
    hide Block, BlockXor, IndexBytes, Segments, Setting, AreIndices, Before, Disjoint, NodesOk, NodeOk, RowHolds,
         FullStepRow.Tail, Pow2, Width, Params.B;
    BlockHalves(p, indices, r, w);
    s, t := Block(indices, r, 2 * w), Block(indices, r, 2 * w + 1);
    RowParts(p, gen, indices, r, 2 * w, a, hashLen, lenIndices);
    RowParts(p, gen, indices, r, 2 * w + 1, b, hashLen, lenIndices);
    assert Siblings(p, gen, indices, r, w, s, t);
    NodeChecks(p, gen, indices, r, w, s, t, a.hash[..hashLen], b.hash[..hashLen]);
    assert a.hash[..p.B()] == a.hash[..hashLen][..p.B()];
    assert b.hash[..p.B()] == b.hash[..hashLen][..p.B()];
  }

  /** Blocks s and t are the children of node (r + 1, w), whose rounds so far passed. */
  ghost predicate Siblings(p: Params, gen: Generator, indices: seq<nat>, r: nat, w: nat, s: seq<nat>, t: seq<nat>) {
    && Setting(p, gen, indices) && r < p.K && NodesOk(p, gen, indices, r)
    && InTree(p, indices, r + 1, w) && InTree(p, indices, r, 2 * w) && InTree(p, indices, r, 2 * w + 1)
    && Width(Pow2(r), 2 * w + 1) <= Width(Pow2(r), 2 * w + 2) <= |indices|
    && s == Block(indices, r, 2 * w) && t == Block(indices, r, 2 * w + 1)
    && AreIndices(s) && AreIndices(t)
  }

  lemma SiblingFacts(p: Params, gen: Generator, indices: seq<nat>, r: nat, w: nat, s: seq<nat>, t: seq<nat>)
    requires Siblings(p, gen, indices, r, w, s, t)
    ensures p.Admissible() && Generates(p, gen) && r < p.K && Setting(p, gen, indices) && InTree(p, indices, r + 1, w)
    ensures BlockXor(p, gen, s) < Pow2(Width(p.C(), p.K + 1 - r))
        && BlockXor(p, gen, t) < Pow2(Width(p.C(), p.K + 1 - r))
    ensures |s| == |t| > 0 && InBase(s, 32) && InBase(t, 32)
    ensures NodeOk(p, gen, indices, r, w)
       <==> BlockXor(p, gen, s + t) < Pow2(Width(p.C(), p.K - r)) && Before(s, t) && Disjoint(s, t)
  {
    hide NodesOk, NodeOk, Block, BlockXor, Before, Disjoint, Params.C, Width, Pow2, Params.Admissible,
            Generates, AreIndices, InBase;
    BlockHalves(p, indices, r, w);
    BoundIs(p, gen, indices, r, 2 * w);
    BoundIs(p, gen, indices, r, 2 * w + 1);
    NodeOkIs(p, gen, indices, r, w);
    IndicesInBase(s);
    IndicesInBase(t);
  }

  /** The three conditions on a node, told from what the rows of its children hold. */
  lemma NodeChecks(p: Params, gen: Generator, indices: seq<nat>, r: nat, w: nat, s: seq<nat>, t: seq<nat>,
                   u: seq<byte>, v: seq<byte>)
    requires Siblings(p, gen, indices, r, w, s, t)
    requires u == Segments(p, BlockXor(p, gen, s), p.K + 1 - r) && v == Segments(p, BlockXor(p, gen, t), p.K + 1 - r)
    ensures p.B() <= |u| && p.B() <= |v|
    ensures NodeOk(p, gen, indices, r, w)
       <==> u[..p.B()] == v[..p.B()] && !Before(IndexBytes(t), IndexBytes(s)) && Disjoint(s, t)
  {
    hide *;
    SiblingFacts(p, gen, indices, r, w, s, t);
    BlockXorConcat(p, gen, s, t);
    CollisionIsLeadingZeros(p, BlockXor(p, gen, s), BlockXor(p, gen, t), p.K - r);
    IndexBytesOrder(t, s);
    OrderedSiblings(s, t);
  }

  lemma NodeOkIs(p: Params, gen: Generator, indices: seq<nat>, r: nat, w: nat)
    requires Setting(p, gen, indices) && InTree(p, indices, r + 1, w) && r < p.K
    ensures Width(Pow2(r + 1), w + 1) <= |indices|
    ensures Width(Pow2(r), 2 * w + 1) <= Width(Pow2(r), 2 * w + 2) <= |indices|
    ensures var s, t := Block(indices, r, 2 * w), Block(indices, r, 2 * w + 1);
      |s| == |t| > 0
      && (NodeOk(p, gen, indices, r, w)
          <==> BlockXor(p, gen, Block(indices, r + 1, w)) < Pow2(Width(p.C(), p.K - r))
               && Before(s, t) && Disjoint(s, t))
  {
    hide Block, BlockXor, Before, Disjoint, Params.C, Width, Pow2;
    BlockHalves(p, indices, r, w);
    PowPositive(r);
  }

  /** For disjoint siblings "not after" is "before". */
  lemma OrderedSiblings(s: seq<nat>, t: seq<nat>)
    requires |s| == |t| > 0
    ensures Disjoint(s, t) ==> (!Before(t, s) <==> Before(s, t))
  {
    BeforeIsStrictOrder(s, t);
    BeforeIsStrictOrder(t, s);
    if s == t { assert s[0] == t[0]; }
  }

  /** The rows X are the rows of all the nodes of level r, in order. */
  ghost predicate RowsHold(X: seq<FullStepRow>, p: Params, gen: Generator, indices: seq<nat>, r: nat, n: nat)
    requires Setting(p, gen, indices) && r <= p.K
    reads set row | row in X :: row.hash
  {
    && |X| == n <= Pow2(p.K - r)
    && forall w: nat :: w < n ==> RowHolds(X[w], p, gen, indices, r, w)
  }

  /** The merging constructor may be called, takes a first, and makes result. */
  ghost predicate Mergeable(a: FullStepRow, b: FullStepRow, len: nat, lenIndices: nat, trim: nat, width: nat,
                            result: seq<byte>)
    reads a.hash, b.hash
  {
    && a.hash.Length == b.hash.Length == width && trim <= len && len + lenIndices <= width
    && len - trim + 2 * lenIndices == |result| <= width
    && a.IndicesBefore(b, len, lenIndices)
    && Merged(a.hash[..len + lenIndices], b.hash[..len + lenIndices], len, trim) == result
  }

  method MergeRows(a: FullStepRow, b: FullStepRow, len: nat, lenIndices: nat, trim: nat, width: nat,
                   ghost result: seq<byte>)
    returns (c: FullStepRow)
    requires Mergeable(a, b, len, lenIndices, trim, width, result)
    ensures |result| <= c.hash.Length == width && c.hash[..|result|] == result
  {
    hide Merged, XorBytes, FullStepRow.IndicesBefore;
    c := new FullStepRow.Merge(a, b, len, lenIndices, trim, width);
    MergedTail(a, b, len, lenIndices, trim);
  }

  lemma MergeReady(p: Params, gen: Generator, indices: seq<nat>, r: nat, w: nat,
                   a: FullStepRow, b: FullStepRow, hashLen: nat, lenIndices: nat)
    requires SiblingRows(p, gen, indices, r, w, a, b, hashLen, lenIndices)
    requires NodeOk(p, gen, indices, r, w)
    ensures Mergeable(a, b, hashLen, lenIndices, p.B(), p.FinalFullWidth(), NodeRow(p, gen, indices, r + 1, w))
  {
    hide NodeRow, NodeOk, Merged, FullStepRow.IndicesBefore, Params.B, Params.FinalFullWidth, Width, Pow2, NodesOk,
      RowHolds, Setting, InTree;
    MergeOrder(p, gen, indices, r, w, a, b, hashLen, lenIndices);
    MergeLengths(p, gen, indices, r, w, a, b, hashLen, lenIndices);
    MergedRow(p, gen, indices, r, w);
  }

  /** The rows of siblings, and the size of the row they merge to. */
  lemma MergeLengths(p: Params, gen: Generator, indices: seq<nat>, r: nat, w: nat,
                     a: FullStepRow, b: FullStepRow, hashLen: nat, lenIndices: nat)
    requires SiblingRows(p, gen, indices, r, w, a, b, hashLen, lenIndices)
    ensures p.B() <= hashLen && hashLen + lenIndices <= a.hash.Length == b.hash.Length == p.FinalFullWidth()
    ensures hashLen - p.B() + 2 * lenIndices <= p.FinalFullWidth()
    ensures hashLen - p.B() + 2 * lenIndices == Width(p.B(), p.K + 1 - (r + 1)) + 4 * Pow2(r + 1)
    ensures a.hash[..hashLen + lenIndices] == NodeRow(p, gen, indices, r, 2 * w)
    ensures b.hash[..hashLen + lenIndices] == NodeRow(p, gen, indices, r, 2 * w + 1)
  {
    hide NodeRow, NodesOk, RowHolds, Generates, AreIndices, InTree, Params.Admissible, Params.B,
            Params.FinalFullWidth, Width;
    MergeFits(p, r, hashLen, lenIndices);
    SameLengths(p, gen, indices, r, 2 * w, a, hashLen + lenIndices);
    SameLengths(p, gen, indices, r, 2 * w + 1, b, hashLen + lenIndices);
  }

  lemma MergedTail(a: FullStepRow, b: FullStepRow, len: nat, lenIndices: nat, trim: nat)
    requires trim <= len && len + lenIndices <= a.hash.Length && len + lenIndices <= b.hash.Length
    ensures Merged(a.hash[..len + lenIndices], b.hash[..len + lenIndices], len, trim)
         == XorBytes(a.hash[..len], b.hash[..len])[trim..] + (a.Tail(len, lenIndices) + b.Tail(len, lenIndices))
  {
    hide XorBytes;
    assert a.hash[..len + lenIndices][..len] == a.hash[..len];
    assert b.hash[..len + lenIndices][..len] == b.hash[..len];
    assert a.hash[..len + lenIndices][len..] == a.Tail(len, lenIndices);
    assert b.hash[..len + lenIndices][len..] == b.Tail(len, lenIndices);
  }

  /** The assertions of the merging constructor hold at level r. */
  lemma MergeFits(p: Params, r: nat, hashLen: nat, lenIndices: nat)
    requires p.Admissible() && r < p.K
    requires hashLen == Width(p.B(), p.K + 1 - r) && lenIndices == 4 * Pow2(r)
    ensures p.B() <= hashLen && hashLen + lenIndices <= p.FinalFullWidth()
    ensures hashLen - p.B() == Width(p.B(), p.K - r)
    ensures hashLen - p.B() + 2 * lenIndices <= p.FinalFullWidth()
  {
    hide Params.Admissible, Params.B, Params.FinalFullWidth;
    RowFits(p, r);
    RowFits(p, r + 1);
  }

  lemma SameLengths(p: Params, gen: Generator, indices: seq<nat>, r: nat, w: nat, row: FullStepRow, n: nat)
    requires Setting(p, gen, indices) && InTree(p, indices, r, w) && RowHolds(row, p, gen, indices, r, w)
    requires n == Width(p.B(), p.K + 1 - r) + 4 * Pow2(r)
    ensures n <= row.hash.Length == p.FinalFullWidth()
    ensures row.hash[..n] == NodeRow(p, gen, indices, r, w)
  {
    hide NodeRow, InTree, Setting, Width, Pow2, Params.B, Params.FinalFullWidth;
  }

  /** An accepted pair is in order. */
  lemma MergeOrder(p: Params, gen: Generator, indices: seq<nat>, r: nat, w: nat,
                   a: FullStepRow, b: FullStepRow, hashLen: nat, lenIndices: nat)
    requires SiblingRows(p, gen, indices, r, w, a, b, hashLen, lenIndices)
    requires NodeOk(p, gen, indices, r, w)
    ensures hashLen + lenIndices <= a.hash.Length && hashLen + lenIndices <= b.hash.Length
    ensures a.IndicesBefore(b, hashLen, lenIndices)
  {
    hide Block, BlockXor, IndexBytes, Segments, Params.Admissible, Generates, Before, AreIndices, Params.B, RowHolds,
      LeadingZeros, HalvesDisjoint, Pow2, FullStepRow.Tail;
    BlockHalves(p, indices, r, w);
    RowParts(p, gen, indices, r, 2 * w, a, hashLen, lenIndices);
    RowParts(p, gen, indices, r, 2 * w + 1, b, hashLen, lenIndices);
    IndicesInBase(Block(indices, r, 2 * w));
    IndicesInBase(Block(indices, r, 2 * w + 1));
    IndexBytesOrder(Block(indices, r, 2 * w), Block(indices, r, 2 * w + 1));
  }

  lemma RowHeld(row: FullStepRow, p: Params, gen: Generator, indices: seq<nat>, r: nat, w: nat)
    requires Setting(p, gen, indices) && InTree(p, indices, r, w)
    requires |NodeRow(p, gen, indices, r, w)| <= row.hash.Length == p.FinalFullWidth()
    requires row.hash[..|NodeRow(p, gen, indices, r, w)|] == NodeRow(p, gen, indices, r, w)
    ensures RowHolds(row, p, gen, indices, r, w)
  {}

  /** The inner loop of a round: the pairs before row 2 |Xc| are accepted and merged. */
  ghost predicate Folding(X: seq<FullStepRow>, Xc: seq<FullStepRow>, p: Params, gen: Generator, indices: seq<nat>,
                          r: nat, hashLen: nat, lenIndices: nat)
    reads set row | row in X :: row.hash, set row | row in Xc :: row.hash
  {
    && Setting(p, gen, indices) && r < p.K && NodesOk(p, gen, indices, r)
    && RowsHold(X, p, gen, indices, r, Pow2(p.K - r)) && |X| == 2 * Pow2(p.K - r - 1)
    && hashLen == Width(p.B(), p.K + 1 - r) && lenIndices == 4 * Pow2(r)
    && |Xc| <= Pow2(p.K - r - 1) && RowsHold(Xc, p, gen, indices, r + 1, |Xc|)
    && forall v: nat :: v < |Xc| && InTree(p, indices, r + 1, v) ==> NodeOk(p, gen, indices, r, v)
  }

  lemma FoldingPair(X: seq<FullStepRow>, Xc: seq<FullStepRow>, p: Params, gen: Generator, indices: seq<nat>,
                    r: nat, hashLen: nat, lenIndices: nat, w: nat)
    requires Folding(X, Xc, p, gen, indices, r, hashLen, lenIndices) && w == |Xc| && 2 * w < |X|
    ensures Setting(p, gen, indices) && r < p.K && InTree(p, indices, r + 1, w) && 2 * w + 1 < |X|
    ensures SiblingRows(p, gen, indices, r, w, X[2 * w], X[2 * w + 1], hashLen, lenIndices)
    ensures !NodeOk(p, gen, indices, r, w) ==> !NodesOk(p, gen, indices, p.K)
  {
    hide Params.Admissible, Generates, AreIndices, RowHolds, NodeOk, Params.B, Params.C, Width;
    ChildrenInTree(p, indices, r, w);
  }

  lemma FoldingMerged(X: seq<FullStepRow>, Xc: seq<FullStepRow>, p: Params, gen: Generator, indices: seq<nat>,
                      r: nat, hashLen: nat, lenIndices: nat, w: nat, c: FullStepRow)
    requires Folding(X, Xc, p, gen, indices, r, hashLen, lenIndices) && w == |Xc| && 2 * w < |X|
    requires InTree(p, indices, r + 1, w) && NodeOk(p, gen, indices, r, w)
    requires |NodeRow(p, gen, indices, r + 1, w)| <= c.hash.Length == p.FinalFullWidth()
    requires c.hash[..|NodeRow(p, gen, indices, r + 1, w)|] == NodeRow(p, gen, indices, r + 1, w)
    ensures Folding(X, Xc + [c], p, gen, indices, r, hashLen, lenIndices)
  {
    hide Setting, NodesOk, NodeOk, Params.B, Width, NodeRow, Params.FinalFullWidth, RowHolds, Pow2;
    RowHeld(c, p, gen, indices, r + 1, w);
  }

  lemma FoldingDone(X: seq<FullStepRow>, Xc: seq<FullStepRow>, p: Params, gen: Generator, indices: seq<nat>,
                    r: nat, hashLen: nat, lenIndices: nat)
    requires Folding(X, Xc, p, gen, indices, r, hashLen, lenIndices) && 2 * |Xc| >= |X|
    ensures r < p.K && Setting(p, gen, indices)
    ensures NodesOk(p, gen, indices, r + 1) && RowsHold(Xc, p, gen, indices, r + 1, Pow2(p.K - r - 1))
  {
    hide Params.Admissible, Generates, AreIndices, RowHolds, NodeOk, Params.B, Params.C, Width;
  }

  /** One turn of the outer loop: the pairs of level r are checked and merged. */
  method FoldRound(p: Params, ghost gen: Generator, ghost indices: seq<nat>, ghost r: nat,
                   X: seq<FullStepRow>, hashLen: nat, lenIndices: nat)
    returns (ok: bool, Xc: seq<FullStepRow>)
    requires Folding(X, [], p, gen, indices, r, hashLen, lenIndices)
    ensures ok ==> Folding(X, Xc, p, gen, indices, r, hashLen, lenIndices) && 2 * |Xc| >= |X|
    ensures !ok ==> !NodesOk(p, gen, indices, p.K)
  {
    hide *;
    Xc := [];
    var i := 0;
    while i < |X|
      invariant i == 2 * |Xc| && Folding(X, Xc, p, gen, indices, r, hashLen, lenIndices)
    {
      ghost var w := |Xc|;
      FoldingPair(X, Xc, p, gen, indices, r, hashLen, lenIndices, w);
      var pairOk := PairOk(p, gen, indices, r, w, X[i], X[i + 1], hashLen, lenIndices);
      if !pairOk {
        return false, Xc;
      }
      MergeReady(p, gen, indices, r, w, X[i], X[i + 1], hashLen, lenIndices);
      var c := MergeRows(X[i], X[i + 1], hashLen, lenIndices, p.B(), p.FinalFullWidth(),
                         NodeRow(p, gen, indices, r + 1, w));
      FoldingMerged(X, Xc, p, gen, indices, r, hashLen, lenIndices, w, c);
      Xc := Xc + [c];
      i := i + 2;
    }
    ok := true;
  }

  // ---- the whole verifier ----

  /** The state of the verifier after r rounds: the rows of level r, whose prefix has
      shrunk to hashLen bytes and whose index list has grown to lenIndices bytes. */
  ghost predicate AtLevel(X: seq<FullStepRow>, p: Params, gen: Generator, indices: seq<nat>,
                          r: nat, hashLen: nat, lenIndices: nat)
    reads set row | row in X :: row.hash
  {
    && Setting(p, gen, indices) && r <= p.K && NodesOk(p, gen, indices, r)
    && RowsHold(X, p, gen, indices, r, Pow2(p.K - r))
    && hashLen == Width(p.B(), p.K + 1 - r) && lenIndices == 4 * Pow2(r)
  }

  lemma LevelSetting(X: seq<FullStepRow>, p: Params, gen: Generator, indices: seq<nat>, r: nat, hashLen: nat,
          lenIndices: nat)
    requires AtLevel(X, p, gen, indices, r, hashLen, lenIndices)
    ensures Setting(p, gen, indices) && p.Admissible() && Generates(p, gen)
  {}

  lemma StartRound(X: seq<FullStepRow>, p: Params, gen: Generator, indices: seq<nat>, r: nat, hashLen: nat,
          lenIndices: nat)
    requires AtLevel(X, p, gen, indices, r, hashLen, lenIndices) && |X| > 1
    ensures Folding(X, [], p, gen, indices, r, hashLen, lenIndices)
  {
    hide Setting, NodesOk, RowHolds, NodeOk, Params.B, Width;
  }

  lemma EndRound(X: seq<FullStepRow>, Xc: seq<FullStepRow>, p: Params, gen: Generator, indices: seq<nat>,
                 r: nat, hashLen: nat, lenIndices: nat)
    requires Folding(X, Xc, p, gen, indices, r, hashLen, lenIndices) && 2 * |Xc| >= |X| > 1
    ensures p.B() <= hashLen && |Xc| < |X|
    ensures AtLevel(Xc, p, gen, indices, r + 1, hashLen - p.B(), 2 * lenIndices)
  {
    FoldingDone(X, Xc, p, gen, indices, r, hashLen, lenIndices);
    hide Setting, NodesOk, RowHolds, NodeOk, Params.B;
  }

  /** The loop ends after exactly K rounds, with one row. */
  lemma LastLevel(X: seq<FullStepRow>, p: Params, gen: Generator, indices: seq<nat>, r: nat, hashLen: nat,
          lenIndices: nat)
    requires AtLevel(X, p, gen, indices, r, hashLen, lenIndices) && |X| <= 1
    ensures r == p.K && |X| == 1 && hashLen == p.B() <= X[0].hash.Length
    ensures Setting(p, gen, indices) && NodesOk(p, gen, indices, p.K)
    ensures (forall i :: 0 <= i < hashLen ==> X[0].hash[i] == 0) <==> BlockXor(p, gen, indices) == 0
  {
    hide NodeRow, NodesOk, Generates, AreIndices, Params.Admissible, Params.B, Params.C, Params.FinalFullWidth,
         BlockXor, Segments, LeadingZeros, Layout;
    assert r == p.K;
    WholeBlock(p, indices);
    assert Width(p.B(), 1) == p.B() + Width(p.B(), 0) && Width(p.C(), 1) == p.C() + Width(p.C(), 0);
    NodeTail(p, gen, indices, p.K, 0, hashLen);
    RowBoundWhole(p, gen, indices);
    LastSegmentZero(p, BlockXor(p, gen, indices));
    assert RowHolds(X[0], p, gen, indices, p.K, 0);
    var n := NodeRow(p, gen, indices, p.K, 0);
    assert X[0].hash[..|n|][..hashLen] == Segments(p, BlockXor(p, gen, indices), 1);
    assert forall i :: 0 <= i < hashLen ==> X[0].hash[i] == X[0].hash[..|n|][..hashLen][i];
  }

  lemma RowBoundWhole(p: Params, gen: Generator, indices: seq<nat>)
    requires Setting(p, gen, indices) && NodesOk(p, gen, indices, p.K)
    ensures BlockXor(p, gen, indices) < Pow2(p.C())
  {
    hide NodesOk, Generates, AreIndices, Params.Admissible, Params.C, BlockXor, Block;
    WholeBlock(p, indices);
    RowBound(p, gen, indices, p.K, 0);
    assert Width(p.C(), 1) == p.C() + Width(p.C(), 0);
  }

  lemma SolutionSetting(p: Params, gen: Generator, soln: seq<byte>)
    requires p.Admissible() && Generates(p, gen) && |soln| == p.SolutionWidth()
    ensures Setting(p, gen, SolutionIndices(p, soln))
    ensures Quotient(32 * |soln|, p.C() + 1) % 4 == 0
  {
    hide *;
    var L, n := p.C() + 1, Pow2(p.K);
    SolutionBits(p);
    WidthIsProduct(L, n);
    ElementsWhole(soln, L, n);
    Pow2Monotone(L, 32);
    Pow2Known();
    SolutionElements(p, soln);
    BaseIndices(SolutionIndices(p, soln), L);
    FourTimes(|soln|, L, n);
    SettingHolds(p, gen, SolutionIndices(p, soln));
  }

  lemma SettingHolds(p: Params, gen: Generator, indices: seq<nat>)
    requires p.Admissible() && Generates(p, gen) && |indices| == Pow2(p.K) && AreIndices(indices)
    ensures Setting(p, gen, indices)
  {}

  lemma SolutionElements(p: Params, soln: seq<byte>)
    requires p.Admissible()
    ensures SolutionIndices(p, soln) == Elements(soln, p.C() + 1)
  {}

  /** A solution has whole bytes, and its bits are 2^K whole indices. */
  lemma SolutionBits(p: Params)
    requires p.Admissible()
    ensures p.C() + 1 <= 25 && 8 * p.SolutionWidth() == Pow2(p.K) * (p.C() + 1)
  {
    hide Params.C, Pow2;
    EightDivides(p.K);
    EighthTimesEight(Pow2(p.K), p.C() + 1);
  }

  lemma EighthTimesEight(n: nat, L: nat)
    requires n % 8 == 0
    ensures 8 * (n * L / 8) == n * L
  {
    var m := n / 8;
    Associate(8, m, L);
  }

  lemma FourTimes(bytes: nat, L: nat, n: nat)
    requires L > 0 && 8 * bytes == n * L
    ensures Quotient(32 * bytes, L) % 4 == 0
  {
    Associate(4, n, L);
    DivModUnique(32 * bytes, L, 4 * n, 0);
  }

  lemma BaseIndices(s: seq<nat>, L: nat)
    requires InBase(s, L) && Pow2(L) <= 0x1_0000_0000
    ensures AreIndices(s)
  {}

  lemma {:induction false} EightDivides(k: nat)
    requires k >= 3
    ensures Pow2(k) % 8 == 0
  {
    if k > 3 { EightDivides(k - 1); }
  }

  /** The row the constructor builds for one leaf. */
  lemma LeafRow(p: Params, gen: Generator, indices: seq<nat>, w: nat, row: FullStepRow)
    requires Setting(p, gen, indices) && w < |indices| && InTree(p, indices, 0, w)
    requires row.hash.Length == p.FinalFullWidth() && p.HashLength() + 4 <= p.FinalFullWidth()
    requires |Expanded(LeafBytes(p, gen, indices[w]), p.C(), 0)| <= row.hash.Length
    requires row.hash[..|Expanded(LeafBytes(p, gen, indices[w]), p.C(), 0)|]
          == Expanded(LeafBytes(p, gen, indices[w]), p.C(), 0)
    requires row.hash[p.HashLength()..p.HashLength() + 4] == Bytes(indices[w], 4)
    ensures RowHolds(row, p, gen, indices, 0, w)
  {
    hide Params.Admissible, Generates, AreIndices, Layout, DigitsOf, Value, BlockXor, LeafBytes, Bytes,
            Params.C, Params.B;
    LeafNode(p, gen, indices, w);
    LeafSegments(p, gen, indices[w]);
    var n := NodeRow(p, gen, indices, 0, w);
    var h := p.HashLength();
    assert row.hash[..|n|] == row.hash[..h] + row.hash[h..h + 4];
  }

  lemma LeafNode(p: Params, gen: Generator, indices: seq<nat>, w: nat)
    requires Setting(p, gen, indices) && w < |indices| && InTree(p, indices, 0, w)
    ensures NodeRow(p, gen, indices, 0, w)
         == Segments(p, LeafValue(p, gen, indices[w]), p.K + 1) + Bytes(indices[w], 4)
  {
    hide Params.Admissible, Generates, AreIndices, Layout, LeafValue, Bytes, Xor, Segments, Params.B;
    BlockInRange(p, indices, 0, w);
    var b := Block(indices, 0, w);
    assert Pow2(0) == 1 by { NoShift(0); }
    WidthIsProduct(1, w);
    assert b == [indices[w]];
    assert BlockXor(p, gen, b[..0]) == 0;
    XorZero(LeafValue(p, gen, indices[w]));
    OneElement(indices[w], 4);
  }

  lemma LeafSegments(p: Params, gen: Generator, i: nat)
    requires p.Admissible() && Generates(p, gen)
    ensures Expanded(LeafBytes(p, gen, i), p.C(), 0) == Segments(p, LeafValue(p, gen, i), p.K + 1)
    ensures ExpandedLength(p.N / 8, p.C(), 0) == p.HashLength()
  {
    hide Layout, Value, DigitsOf, LeafBytes;
    HashBits(p);
    ElementCount(p.K + 1, p.C(), 0, p.N / 8);
    NoShift(Value(LeafBytes(p, gen, i), 8));
    HashLengthFits(p);
  }

  lemma HashLengthFits(p: Params)
    requires p.Admissible()
    ensures ExpandedLength(p.N / 8, p.C(), 0) == p.HashLength()
  {
    hide *;
    var C, B, m := p.C(), p.B(), p.K + 1;
    SegmentWidths(p);
    HashBits(p);
    WidthIsProduct(C, m);
    WidthIsProduct(B, m);
    WholeSegments(B, m, C, p.N / 8);
  }

  lemma SegmentWidths(p: Params)
    requires p.Admissible()
    ensures p.C() > 0 && p.HashLength() == Width(p.B(), p.K + 1)
    ensures ExpandedLength(p.N / 8, p.C(), 0) == Quotient(8 * p.B() * (p.N / 8), p.C())
  {}

  lemma WholeSegments(B: nat, m: nat, C: nat, n: nat)
    requires C > 0 && C * m == 8 * n
    ensures Quotient(8 * B * n, C) == B * m
  {
    assert 8 * B * n == B * (8 * n) by { Associate(B, 8, n); }
    assert B * m * C == B * (C * m) by { Associate(B, m, C); }
    DivModUnique(8 * B * n, C, B * m, 0);
  }

  /** The numbers the row constructor is called with are in range. */
  lemma LeafReady(p: Params, gen: Generator, i: nat)
    requires p.Admissible() && Generates(p, gen)
    ensures 8 <= p.C() <= 25
    ensures p.HashLength() == ExpandedLength(|LeafBytes(p, gen, i)|, p.C(), 0)
    ensures p.HashLength() + 4 <= p.FinalFullWidth()
  {
    RowFits(p, 0);
    HashLengthFits(p);
  }

  /** GenerateHash, and the slice of its output that belongs to index i. */
  method LeafHash(p: Params, gen: Generator, i: nat) returns (s: seq<byte>)
    requires p.Admissible() && Generates(p, gen)
    ensures s == LeafBytes(p, gen, i)
  {
    hide Params.Admissible, HashNumber, HashOffset, Params.HashOutput, Params.IndicesPerHashOutput;
    SliceInHash(p, i);
    var tmpHash := gen(HashNumber(p, i));
    s := tmpHash[HashOffset(p, i)..][..p.N / 8];
  }

  method MakeLeaf(p: Params, gen: Generator, i: nat, ghost indices: seq<nat>, ghost w: nat) returns (row: FullStepRow)
    requires Setting(p, gen, indices) && InTree(p, indices, 0, w) && w < |indices| && i == indices[w]
    ensures RowHolds(row, p, gen, indices, 0, w)
  {
    LeafReady(p, gen, i);
    Pow2Known();
    assert i < Pow2(32);
    var hashIn := LeafHash(p, gen, i);
    hide *;
    row := new FullStepRow.FromHash(hashIn, p.HashLength(), p.C(), i, p.FinalFullWidth());
    LeafRow(p, gen, indices, w, row);
  }

  lemma RowsSnoc(X: seq<FullStepRow>, row: FullStepRow, p: Params, gen: Generator, indices: seq<nat>, w: nat)
    requires Setting(p, gen, indices) && RowsHold(X, p, gen, indices, 0, w) && w < |indices|
    requires InTree(p, indices, 0, w) && RowHolds(row, p, gen, indices, 0, w)
    ensures RowsHold(X + [row], p, gen, indices, 0, w + 1)
  {
    hide RowHolds, Setting, Pow2;
  }

  /** The list of initial rows, one for each index in order. */
  method InitialRows(p: Params, gen: Generator, indices: seq<nat>) returns (X: seq<FullStepRow>)
    requires Setting(p, gen, indices)
    ensures RowsHold(X, p, gen, indices, 0, Pow2(p.K))
  {
    assert |indices| == Pow2(p.K);
    X := [];
    assert RowsHold(X, p, gen, indices, 0, 0);
    hide Setting, RowHolds, Pow2, RowsHold;
    for w := 0 to |indices|
      invariant RowsHold(X, p, gen, indices, 0, w)
    {
      var row := MakeLeaf(p, gen, indices[w], indices, w);
      RowsSnoc(X, row, p, gen, indices, w);
      X := X + [row];
    }
  }

  /** The rounds and the final test. */
  method FoldRows(p: Params, ghost gen: Generator, ghost indices: seq<nat>,
          rows: seq<FullStepRow>) returns (valid: bool)
    requires AtLevel(rows, p, gen, indices, 0, p.HashLength(), 4)
    ensures Setting(p, gen, indices)
    ensures valid <==> NodesOk(p, gen, indices, p.K) && BlockXor(p, gen, indices) == 0
  {
    hide *;
    var X := rows;
    var hashLen: nat, lenIndices: nat := p.HashLength(), 4;
    ghost var r: nat := 0;
    LevelSetting(rows, p, gen, indices, 0, hashLen, lenIndices);
    while |X| > 1
      invariant AtLevel(X, p, gen, indices, r, hashLen, lenIndices)
    {
      StartRound(X, p, gen, indices, r, hashLen, lenIndices);
      var ok, Xc := FoldRound(p, gen, indices, r, X, hashLen, lenIndices);
      if !ok {
        return false;
      }
      EndRound(X, Xc, p, gen, indices, r, hashLen, lenIndices);
      X := Xc;
      hashLen := hashLen - p.B();
      lenIndices := 2 * lenIndices;
      r := r + 1;
    }
    LastLevel(X, p, gen, indices, r, hashLen, lenIndices);
    valid := IsZero(X[0], hashLen);
  }

  /** IsValidSolution accepts exactly the solutions, for all admissible N and K and
      every hash function. */
  method IsValidSolution(p: Params, gen: Generator, soln: seq<byte>) returns (valid: bool)
    requires p.Admissible() && Generates(p, gen)
    ensures valid <==> |soln| == p.SolutionWidth() && IsSolution(p, gen, SolutionIndices(p, soln))
  {
    if |soln| != p.SolutionWidth() {
      return false;
    }
    SolutionSetting(p, gen, soln);
    var indices := GetIndicesFromMinimal(soln, p.C());
    SolutionIffNodesOk(p, gen, indices);
    var X := InitialRows(p, gen, indices);
    hide IsSolution, Params.Admissible, Generates, AreIndices, RowsHold, Params.B, Params.C;
    valid := FoldRows(p, gen, indices, X);
  }
}
