/** Equihash(N, K): the widths, the rows a verifier works on, and the predicate a
    solution has to satisfy (Zcash Protocol Specification, section 7.7.1). */
module EquihashSpec {
  import opened Arithmetic
  import opened Bitwise
  import opened Digits
  import opened BitPacking

  /** Template parameters (src/equihash_original.h:190-203). */
  datatype Params = Params(N: nat, K: nat) {
    predicate Admissible() {
      && K >= 3 && 0 < N <= 512 && N % 8 == 0
      && N == Width(C(), K + 1)  // K + 1 divides N
      && 8 <= C() <= 24
    }
    function C(): nat { Quotient(N, K + 1) }  // CollisionBitLength
    function B(): nat { ElementBytes(C()) }   // CollisionByteLength
    function IndicesPerHashOutput(): nat
      requires Admissible()
    {
      Quotient(512, N)
    }
    function HashOutput(): nat
      requires Admissible()
    {
      IndicesPerHashOutput() * N / 8
    }
    function HashLength(): nat { Width(B(), K + 1) }
    function FinalFullWidth(): nat { 2 * B() + 4 * Pow2(K) }
    function SolutionWidth(): nat { Pow2(K) * (C() + 1) / 8 }
  }

  /** GenerateHash from a fixed BLAKE2b state: an unknown function of the index. */
  type Generator = nat -> seq<byte>

  ghost predicate Generates(p: Params, gen: Generator)
    requires p.Admissible()
  {
    forall g :: |gen(g)| == p.HashOutput()
  }

  /** The N-bit hash of index i: a slice of the output for i / IndicesPerHashOutput. */
  function LeafBytes(p: Params, gen: Generator, i: nat): (s: seq<byte>)
    requires p.Admissible() && |gen(HashNumber(p, i))| == p.HashOutput()
    ensures |s| == p.N / 8
  {
    SliceInHash(p, i);
    gen(HashNumber(p, i))[HashOffset(p, i)..][..p.N / 8]
  }

  /** g in GenerateHash(state, g, ...) for index i. */
  function HashNumber(p: Params, i: nat): nat
    requires p.Admissible()
  {
    SomeIndices(p);
    i / p.IndicesPerHashOutput()
  }

  function HashOffset(p: Params, i: nat): nat
    requires p.Admissible()
  {
    SomeIndices(p);
    i % p.IndicesPerHashOutput() * p.N / 8
  }

  lemma SomeIndices(p: Params)
    requires p.Admissible()
    ensures p.IndicesPerHashOutput() >= 1
  {
    QuotientAtLeast(512, p.N, 1);
  }

  lemma SliceInHash(p: Params, i: nat)
    requires p.Admissible()
    ensures HashOffset(p, i) + p.N / 8 <= p.HashOutput()
  {
    SomeIndices(p);
    SliceBound(p.IndicesPerHashOutput(), p.N, p.N / 8, i % p.IndicesPerHashOutput());
  }

  lemma SliceBound(I: nat, N: nat, n: nat, j: nat)
    requires N == 8 * n && j < I
    ensures j * N / 8 == j * n && I * N / 8 == I * n && j * n + n <= I * n
  {
    Associate(j, 8, n);
    Associate(I, 8, n);
    assert j * N == 8 * (j * n) && I * N == 8 * (I * n);
    MulStrict(j, I, n);
  }

  function LeafValue(p: Params, gen: Generator, i: nat): nat
    requires p.Admissible() && Generates(p, gen)
  {
    Value(LeafBytes(p, gen, i), 8)
  }

  /** The XOR of the hashes of a block of indices. */
  function BlockXor(p: Params, gen: Generator, block: seq<nat>): nat
    requires p.Admissible() && Generates(p, gen)
  {
    if block == [] then 0
    else Xor(BlockXor(p, gen, block[..|block| - 1]), LeafValue(p, gen, block[|block| - 1]))
  }

  /** The w-th aligned block of 2^r indices. */
  function Block(indices: seq<nat>, r: nat, w: nat): (s: seq<nat>)
    requires Width(Pow2(r), w + 1) <= |indices|
    ensures |s| == Pow2(r)
  {
    indices[Width(Pow2(r), w)..Width(Pow2(r), w + 1)]
  }

  /** There is an aligned block number w of 2^r indices, r <= K. */
  ghost predicate InTree(p: Params, indices: seq<nat>, r: nat, w: nat) {
    r <= p.K && w < Pow2(p.K - r) && |indices| == Pow2(p.K)
  }

  lemma BlockInRange(p: Params, indices: seq<nat>, r: nat, w: nat)
    requires InTree(p, indices, r, w)
    ensures Width(Pow2(r), w + 1) <= |indices|
  {
    WidthIsProduct(Pow2(r), Pow2(p.K - r));
    Pow2Add(r, p.K - r);
    WidthMonotone(Pow2(r), w + 1, Pow2(p.K - r));
  }

  // ---- the conditions on the node (r, w) of the tree over the indices ----

  /** The leading r * N / (K + 1) bits of the XOR of the block are zero. */
  ghost predicate LeadingZeros(p: Params, gen: Generator, indices: seq<nat>, r: nat, w: nat)
    requires p.Admissible() && Generates(p, gen) && InTree(p, indices, r, w)
  {
    BlockInRange(p, indices, r, w);
    BlockXor(p, gen, Block(indices, r, w)) < Pow2(Width(p.C(), p.K + 1 - r))
  }

  /** The left half of the block comes before the right half. */
  ghost predicate HalvesOrdered(p: Params, indices: seq<nat>, r: nat, w: nat)
    requires InTree(p, indices, r + 1, w)
  {
    ChildrenInTree(p, indices, r, w);
    BlockInRange(p, indices, r, 2 * w);
    BlockInRange(p, indices, r, 2 * w + 1);
    Before(Block(indices, r, 2 * w), Block(indices, r, 2 * w + 1))
  }

  lemma ChildrenInTree(p: Params, indices: seq<nat>, r: nat, w: nat)
    requires InTree(p, indices, r + 1, w)
    ensures InTree(p, indices, r, 2 * w) && InTree(p, indices, r, 2 * w + 1)
  {}

  ghost predicate AllDistinct(s: seq<nat>) {
    forall a, b :: 0 <= a < b < |s| ==> s[a] != s[b]
  }

  /** What the design asks of a solution. */
  ghost predicate IsSolution(p: Params, gen: Generator, indices: seq<nat>)
    requires p.Admissible() && Generates(p, gen)
  {
    && |indices| == Pow2(p.K)
    && AllDistinct(indices)
    && (forall r: nat, w: nat :: r < p.K && InTree(p, indices, r + 1, w) ==> HalvesOrdered(p, indices, r, w))
    && (forall r: nat, w: nat :: 1 <= r < p.K && InTree(p, indices, r, w) ==> LeadingZeros(p, gen, indices, r, w))
    && BlockXor(p, gen, indices) == 0
  }

  /** The index list a byte string of the right size unpacks to. */
  function SolutionIndices(p: Params, soln: seq<byte>): seq<nat>
    requires p.Admissible()
  {
    Elements(soln, p.C() + 1)
  }

  // ---- consequences ----

  ghost predicate Disjoint(s: seq<nat>, t: seq<nat>) {
    forall a, b :: 0 <= a < |s| && 0 <= b < |t| ==> s[a] != t[b]
  }

  lemma BlockHalves(p: Params, indices: seq<nat>, r: nat, w: nat)
    requires InTree(p, indices, r + 1, w)
    ensures Width(Pow2(r + 1), w + 1) <= |indices|
    ensures Width(Pow2(r), 2 * w + 1) <= Width(Pow2(r), 2 * w + 2) <= |indices|
    ensures Width(Pow2(r + 1), w) == Width(Pow2(r), 2 * w)
    ensures Block(indices, r + 1, w) == Block(indices, r, 2 * w) + Block(indices, r, 2 * w + 1)
  {
    hide *;
    BlockInRange(p, indices, r + 1, w);
    NextPower(r);
    WidthDouble(Pow2(r), w);
    WidthDouble(Pow2(r), w + 1);
    WidthMonotone(Pow2(r), 2 * w, 2 * w + 1);
    WidthMonotone(Pow2(r), 2 * w + 1, 2 * w + 2);
    BlockIs(indices, r + 1, w);
    BlockIs(indices, r, 2 * w);
    BlockIs(indices, r, 2 * w + 1);
  }

  lemma NextPower(r: nat) ensures Pow2(r + 1) == 2 * Pow2(r) {}

  lemma BlockIs(indices: seq<nat>, r: nat, w: nat)
    requires Width(Pow2(r), w) <= Width(Pow2(r), w + 1) <= |indices|
    ensures Block(indices, r, w) == indices[Width(Pow2(r), w)..Width(Pow2(r), w + 1)]
  {}

  lemma {:induction false} WidthDouble(L: nat, w: nat)
    ensures Width(2 * L, w) == Width(L, 2 * w)
  {
    if w > 0 { WidthDouble(L, w - 1); }
  }

  lemma {:induction false} BlockXorConcat(p: Params, gen: Generator, s: seq<nat>, t: seq<nat>)
    requires p.Admissible() && Generates(p, gen)
    ensures BlockXor(p, gen, s + t) == Xor(BlockXor(p, gen, s), BlockXor(p, gen, t))
    decreases |t|
  {
    hide Xor, LeafValue;
    if t == [] {
      assert s + t == s;
      XorZero(BlockXor(p, gen, s));
    } else {
      var t', x := t[..|t| - 1], t[|t| - 1];
      assert (s + t)[..|s + t| - 1] == s + t';
      BlockXorConcat(p, gen, s, t');
      XorAssociative(BlockXor(p, gen, s), BlockXor(p, gen, t'), LeafValue(p, gen, x));
    }
  }

  /** If at every node the two halves share no index, all indices are distinct:
      the sibling checks of all rounds together are the global check. */
  lemma {:induction false} SiblingsImplyDistinct(p: Params, indices: seq<nat>, r: nat, w: nat)
    requires InTree(p, indices, r, w)
    requires Width(Pow2(r), w + 1) <= |indices|
    requires forall q: nat, v: nat :: q < r && InTree(p, indices, q + 1, v) ==> HalvesDisjoint(p, indices, q, v)
    ensures AllDistinct(Block(indices, r, w))
    decreases r
  {
    hide Block, AllDistinct, Disjoint, InTree;
    if r == 0 {
      DistinctSingle(Block(indices, r, w));
    } else {
      BlockHalves(p, indices, r - 1, w);
      ChildrenInTree(p, indices, r - 1, w);
      SiblingsImplyDistinct(p, indices, r - 1, 2 * w);
      SiblingsImplyDistinct(p, indices, r - 1, 2 * w + 1);
      assert HalvesDisjoint(p, indices, r - 1, w);
      DistinctConcat(Block(indices, r - 1, 2 * w), Block(indices, r - 1, 2 * w + 1));
    }
  }

  lemma DistinctSingle(s: seq<nat>)
    requires |s| == 1
    ensures AllDistinct(s)
  {}

  lemma DistinctConcat(s: seq<nat>, t: seq<nat>)
    requires AllDistinct(s) && AllDistinct(t) && Disjoint(s, t)
    ensures AllDistinct(s + t)
  {}

  ghost predicate HalvesDisjoint(p: Params, indices: seq<nat>, r: nat, w: nat)
    requires InTree(p, indices, r + 1, w)
  {
    BlockHalves(p, indices, r, w);
    Disjoint(Block(indices, r, 2 * w), Block(indices, r, 2 * w + 1))
  }

  lemma DistinctImpliesSiblings(p: Params, indices: seq<nat>, r: nat, w: nat)
    requires InTree(p, indices, r + 1, w) && AllDistinct(indices)
    ensures HalvesDisjoint(p, indices, r, w)
  {
    BlockHalves(p, indices, r, w);
  }

  lemma WholeBlock(p: Params, indices: seq<nat>)
    requires |indices| == Pow2(p.K)
    ensures InTree(p, indices, p.K, 0) && Width(Pow2(p.K), 1) <= |indices|
    ensures Block(indices, p.K, 0) == indices
  {
    assert Width(Pow2(p.K), 1) == Pow2(p.K) + Width(Pow2(p.K), 0);
  }
}
