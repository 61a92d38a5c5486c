/** What the checks of the verifier amount to for the indices of a solution, and what
    expanding keeps of its input. */
module EquihashFacts {
  import opened Arithmetic
  import opened Bitwise
  import opened Digits
  import opened BitPacking
  import opened EquihashSpec
  import opened EquihashRows
  import opened Minimal
  import opened EquihashVerifier

  // ---- widths ----

  /** A generator output holds as many N-bit hashes as fit into the 512 bits of BLAKE2b
      and nothing else; the indices of a solution fill its bytes. */
  lemma WidthsExactly(p: Params)
    requires p.Admissible()
    ensures p.IndicesPerHashOutput() * p.N <= 512 < (p.IndicesPerHashOutput() + 1) * p.N
    ensures 8 * p.HashOutput() == p.IndicesPerHashOutput() * p.N
    ensures p.N == (p.K + 1) * p.C() && 8 * p.SolutionWidth() == Pow2(p.K) * (p.C() + 1)
  {
    hide Pow2, Params.Admissible, Params.IndicesPerHashOutput, Params.HashOutput, Params.SolutionWidth, Params.C;
    HashBits(p);
    IndexBits(p);
  }

  lemma HashBits(p: Params)
    requires p.Admissible()
    ensures p.IndicesPerHashOutput() * p.N <= 512 < (p.IndicesPerHashOutput() + 1) * p.N
    ensures 8 * p.HashOutput() == p.IndicesPerHashOutput() * p.N
  {
    hide *;
    HashWidthsAre(p);
    MostThatFit(512, p.N);
    BitsOfBytes(p.IndicesPerHashOutput(), p.N);
  }

  lemma HashWidthsAre(p: Params)
    requires p.Admissible()
    ensures p.N > 0 && p.N % 8 == 0
    ensures p.IndicesPerHashOutput() == Quotient(512, p.N)
    ensures p.HashOutput() == p.IndicesPerHashOutput() * p.N / 8
  {
    hide Quotient, Width, Params.C;
  }

  lemma BitsOfBytes(n: nat, N: nat)
    requires N % 8 == 0
    ensures 8 * (n * N / 8) == n * N
  {
    var d := N / 8;
    Associate(n, 8, d);
    assert n * N == 8 * (n * d);
  }

  lemma MostThatFit(x: nat, d: nat)
    requires d > 0
    ensures Quotient(x, d) * d <= x < (Quotient(x, d) + 1) * d
  {
    var q := x / d;
    assert x == q * d + x % d;
    Distribute(q, 1, d);
  }

  lemma IndexBits(p: Params)
    requires p.Admissible()
    ensures p.N == (p.K + 1) * p.C() && 8 * p.SolutionWidth() == Pow2(p.K) * (p.C() + 1)
  {
    hide *;
    IndexWidthsAre(p);
    WidthIsProduct(p.C(), p.K + 1);
    EightfoldPower(p.K);
    BitsOfPower(Pow2(p.K - 3), p.C() + 1);
  }

  lemma IndexWidthsAre(p: Params)
    requires p.Admissible()
    ensures p.K >= 3 && p.N == Width(p.C(), p.K + 1)
    ensures p.SolutionWidth() == Pow2(p.K) * (p.C() + 1) / 8
  {
    hide Width, Pow2, Params.C;
  }

  lemma BitsOfPower(q: nat, c: nat)
    ensures 8 * (8 * q * c / 8) == 8 * q * c
  {
    Associate(8, q, c);
  }

  lemma EightfoldPower(k: nat)
    requires k >= 3
    ensures Pow2(k) == 8 * Pow2(k - 3)
  {
    NextPower(k - 1);
    NextPower(k - 2);
    NextPower(k - 3);
  }

  // ---- order ----

  /** Between index lists without a common index the first indices decide. */
  lemma FirstIndicesDecide(s: seq<nat>, t: seq<nat>)
    requires |s| == |t| > 0 && Disjoint(s, t)
    ensures Before(s, t) <==> s[0] < t[0]
  {
    assert s[0] != t[0];
  }

  ghost predicate FirstIsLeast(s: seq<nat>) {
    forall i :: 0 < i < |s| ==> s[0] < s[i]
  }

  /** Among distinct indices, the order conditions of all nodes together say that every
      aligned block starts with its least index. */
  lemma OrderIsFirstLeast(p: Params, indices: seq<nat>)
    requires |indices| == Pow2(p.K) && AllDistinct(indices)
    ensures (forall r: nat, w: nat :: r < p.K && InTree(p, indices, r + 1, w) ==> HalvesOrdered(p, indices, r, w))
       <==> (forall r: nat, w: nat :: InTree(p, indices, r, w) ==> BlockFirstLeast(p, indices, r, w))
  {
    hide AllDistinct, InTree, HalvesOrdered, BlockFirstLeast;
    if forall r: nat, w: nat :: r < p.K && InTree(p, indices, r + 1, w) ==> HalvesOrdered(p, indices, r, w) {
      forall r: nat, w: nat | InTree(p, indices, r, w)
        ensures BlockFirstLeast(p, indices, r, w)
      {
        OrderGivesFirstLeast(p, indices, r, w);
      }
    }
    if forall r: nat, w: nat :: InTree(p, indices, r, w) ==> BlockFirstLeast(p, indices, r, w) {
      forall r: nat, w: nat | r < p.K && InTree(p, indices, r + 1, w)
        ensures HalvesOrdered(p, indices, r, w)
      {
        assert BlockFirstLeast(p, indices, r + 1, w);
        FirstLeastGivesOrder(p, indices, r, w);
      }
    }
  }

  ghost predicate BlockFirstLeast(p: Params, indices: seq<nat>, r: nat, w: nat)
    requires InTree(p, indices, r, w)
  {
    BlockInRange(p, indices, r, w);
    FirstIsLeast(Block(indices, r, w))
  }

  lemma {:induction false} OrderGivesFirstLeast(p: Params, indices: seq<nat>, r: nat, w: nat)
    requires InTree(p, indices, r, w) && AllDistinct(indices)
    requires forall q: nat, v: nat :: q < p.K && InTree(p, indices, q + 1, v) ==> HalvesOrdered(p, indices, q, v)
    ensures BlockFirstLeast(p, indices, r, w)
    decreases r
  {
    hide Block, AllDistinct, Before, FirstIsLeast;
    BlockInRange(p, indices, r, w);
    if r == 0 {
      SingleIsLeast(Block(indices, r, w));
    } else {
      ChildrenInTree(p, indices, r - 1, w);
      OrderGivesFirstLeast(p, indices, r - 1, 2 * w);
      OrderGivesFirstLeast(p, indices, r - 1, 2 * w + 1);
      BlockHalves(p, indices, r - 1, w);
      DistinctImpliesSiblings(p, indices, r - 1, w);
      assert HalvesOrdered(p, indices, r - 1, w);
      JoinLeast(Block(indices, r - 1, 2 * w), Block(indices, r - 1, 2 * w + 1));
    }
  }

  lemma SingleIsLeast(s: seq<nat>)
    requires |s| == 1
    ensures FirstIsLeast(s)
  {}

  lemma JoinLeast(s: seq<nat>, t: seq<nat>)
    requires |s| == |t| > 0 && Disjoint(s, t) && FirstIsLeast(s) && FirstIsLeast(t) && Before(s, t)
    ensures FirstIsLeast(s + t)
  {
    FirstIndicesDecide(s, t);
  }

  lemma FirstLeastGivesOrder(p: Params, indices: seq<nat>, r: nat, w: nat)
    requires InTree(p, indices, r + 1, w) && AllDistinct(indices) && BlockFirstLeast(p, indices, r + 1, w)
    ensures HalvesOrdered(p, indices, r, w)
  {
    hide Block, AllDistinct, Disjoint;
    ChildrenInTree(p, indices, r, w);
    BlockHalves(p, indices, r, w);
    DistinctImpliesSiblings(p, indices, r, w);
    var s, t := Block(indices, r, 2 * w), Block(indices, r, 2 * w + 1);
    assert (s + t)[|s|] == t[0];
    FirstIndicesDecide(s, t);
  }

  /** Swapping the halves of any block of a solution gives no solution. */
  lemma NoSwappedSolution(p: Params, gen: Generator, indices: seq<nat>, swapped: seq<nat>, r: nat, w: nat)
    requires p.Admissible() && Generates(p, gen) && IsSolution(p, gen, indices)
    requires InTree(p, indices, r + 1, w) && InTree(p, swapped, r + 1, w) && r < p.K
    requires Width(Pow2(r), 2 * w + 1) <= Width(Pow2(r), 2 * w + 2) <= |indices|
    requires Block(swapped, r, 2 * w) == Block(indices, r, 2 * w + 1)
    requires Block(swapped, r, 2 * w + 1) == Block(indices, r, 2 * w)
    ensures !IsSolution(p, gen, swapped)
  {
    hide Block, Params.Admissible, Generates, AllDistinct, Before, LeadingZeros, BlockXor;
    assert HalvesOrdered(p, indices, r, w);
    BeforeIsStrictOrder(Block(indices, r, 2 * w), Block(indices, r, 2 * w + 1));
    assert !HalvesOrdered(p, swapped, r, w);
  }

  // ---- hashes ----

  /** The hashes of the first n indices that share generator output g, one after another. */
  function LeafRun(p: Params, gen: Generator, g: nat, n: nat): seq<byte>
    requires p.Admissible() && Generates(p, gen)
  {
    if n == 0 then [] else LeafRun(p, gen, g, n - 1) + LeafBytes(p, gen, IndexIn(p, g, n - 1))
  }

  function IndexIn(p: Params, g: nat, j: nat): nat
    requires p.Admissible()
  {
    g * p.IndicesPerHashOutput() + j
  }

  /** The hashes of the indices that share an output make up that output, without gap or
      overlap: every byte of it belongs to the hash of exactly one index. */
  lemma LeavesFillOutput(p: Params, gen: Generator, g: nat)
    requires p.Admissible() && Generates(p, gen)
    ensures LeafRun(p, gen, g, p.IndicesPerHashOutput()) == gen(g)
  {
    hide LeafRun, Params.Admissible;
    var I, n := p.IndicesPerHashOutput(), p.N / 8;
    EightDividesN(p);
    SomeIndices(p);
    LeafRunIs(p, gen, g, I);
    SliceBound(I, p.N, n, 0);
  }

  lemma EightDividesN(p: Params)
    requires p.Admissible()
    ensures p.N == 8 * (p.N / 8)
  {}

  lemma {:induction false} LeafRunIs(p: Params, gen: Generator, g: nat, n: nat)
    requires p.Admissible() && Generates(p, gen) && n <= p.IndicesPerHashOutput()
    ensures n * (p.N / 8) <= p.HashOutput()
    ensures LeafRun(p, gen, g, n) == gen(g)[..n * (p.N / 8)]
  {
    hide Params.Admissible, HashNumber, HashOffset, IndexIn;
    EightDividesN(p);
    SomeIndices(p);
    if n == 0 {
      assert gen(g)[..0] == [];
    } else {
      var I, w := p.IndicesPerHashOutput(), p.N / 8;
      LeafRunIs(p, gen, g, n - 1);
      SliceBound(I, p.N, w, n - 1);
      IndexPlace(p, g, n - 1);
      assert n * w == (n - 1) * w + w by { Distribute(n - 1, 1, w); }
      NextSlice(gen(g), (n - 1) * w, w);
    }
  }

  lemma IndexPlace(p: Params, g: nat, j: nat)
    requires p.Admissible() && j < p.IndicesPerHashOutput()
    ensures HashNumber(p, IndexIn(p, g, j)) == g && HashOffset(p, IndexIn(p, g, j)) == j * p.N / 8
  {
    hide Params.Admissible, Params.IndicesPerHashOutput;
    SomeIndices(p);
    DivModUnique(IndexIn(p, g, j), p.IndicesPerHashOutput(), g, j);
  }

  lemma NextSlice(s: seq<byte>, a: nat, w: nat)
    requires a + w <= |s|
    ensures s[..a] + s[a..][..w] == s[..a + w]
  {}

  // ---- encoding ----

  /** No two byte strings of the right size stand for the same index list. */
  lemma OneEncoding(p: Params, a: seq<byte>, b: seq<byte>)
    requires p.Admissible() && |a| == |b| == p.SolutionWidth()
    requires SolutionIndices(p, a) == SolutionIndices(p, b)
    ensures a == b
  {
    hide Elements, MinimalOf;
    WholeSolution(p);
    PackUnpack(a, p.C() + 1);
    PackUnpack(b, p.C() + 1);
  }

  lemma WholeSolution(p: Params)
    requires p.Admissible()
    ensures 8 * p.SolutionWidth() % (p.C() + 1) == 0
  {
    SolutionBits(p);
    DivModUnique(8 * p.SolutionWidth(), p.C() + 1, Pow2(p.K), 0);
  }

  // ---- expanding and XOR ----

  lemma ValueOfXor(a: seq<byte>, b: seq<byte>)
    requires |a| == |b|
    ensures Value(XorBytes(a, b), 8) == Xor(Value(a, 8), Value(b, 8))
  {
    hide Value, Xor, DigitsOf, XorSeq, Pow2;
    BytesInBase(a);
    BytesInBase(b);
    BytesInBase(XorBytes(a, b));
    DigitsOfValue(a, 8);
    DigitsOfValue(b, 8);
    ValueBound(a, 8);
    ValueBound(b, 8);
    var v := Xor(Value(a, 8), Value(b, 8));
    XorOfDigits(Value(a, 8), Value(b, 8), 8, |a|);
    XorBelow(Value(a, 8), Value(b, 8), Width(8, |a|));
    ValueOfDigits(v, 8, |a|);
    LowOfSmall(v, Width(8, |a|));
  }

  /** Expanding commutes with XOR, byte by byte, for every padding. */
  lemma ExpandXor(a: seq<byte>, b: seq<byte>, L: nat, pad: nat)
    requires |a| == |b| && L > 0
    ensures |Expanded(a, L, pad)| == |Expanded(b, L, pad)|
    ensures Expanded(XorBytes(a, b), L, pad) == XorSeq(Expanded(a, L, pad), Expanded(b, L, pad))
  {
    hide Value, Xor, DigitsOf, XorSeq, Layout, Shr, Low, XorBytes;
    var n, rest := 8 * |a| / L, 8 * |a| % L;
    ValueOfXor(a, b);
    XorShrLow(Value(a, 8), Value(b, 8), rest);
    XorOfDigits(Shr(Value(a, 8), rest), Shr(Value(b, 8), rest), L, n);
    XorLayout(Elements(a, L), Elements(b, L), ElementBytes(L), pad);
  }
}
