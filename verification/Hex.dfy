/** Hex digits, the memory image of little-endian numbers, and the three hex
    routines of the Stratum side (src/stratum.cpp:44-104,174-182, src/stratum.h:58-71). */
module Hex {
  import opened Arithmetic
  import opened Bitwise
  import opened Digits

  // ---- digits ----

  predicate IsHexDigit(c: char) {
    '0' <= c <= '9' || 'a' <= c <= 'f' || 'A' <= c <= 'F'
  }

  /** The tables phexdigit: 0 for every other character. */
  function DigitValue(c: char): (d: nat)
    ensures d < 16
  {
    if '0' <= c <= '9' then c as int - '0' as int
    else if 'a' <= c <= 'f' then c as int - 'a' as int + 10
    else if 'A' <= c <= 'F' then c as int - 'A' as int + 10
    else 0
  }

  function LowerDigit(d: nat): (c: char)
    requires d < 16
    ensures IsHexDigit(c) && DigitValue(c) == d
  {
    if d <= 9 then ('0' as int + d) as char else ('a' as int + d - 10) as char
  }

  function UpperDigit(d: nat): (c: char)
    requires d < 16
    ensures IsHexDigit(c) && DigitValue(c) == d
  {
    if d <= 9 then ('0' as int + d) as char else ('A' as int + d - 10) as char
  }

  /** The digits that are written. */
  lemma DigitTables(d: nat)
    requires d < 16
    ensures LowerDigit(d) == "0123456789abcdef"[d] && UpperDigit(d) == "0123456789ABCDEF"[d]
  {}

  predicate AllHex(s: string) {
    forall i :: 0 <= i < |s| ==> IsHexDigit(s[i])
  }

  function DigitValues(s: string): (d: seq<nat>)
    ensures |d| == |s|
    ensures forall i :: 0 <= i < |s| ==> d[i] == DigitValue(s[i])
  {
    seq(|s|, i requires 0 <= i < |s| => DigitValue(s[i]))
  }

  /** The number a run of hex digits denotes. */
  function HexValue(s: string): nat {
    Value(DigitValues(s), 4)
  }

  lemma HexConcat(s: string, t: string)
    ensures HexValue(s + t) == HexValue(s) * Pow2(4 * |t|) + HexValue(t)
  {
    hide *;
    HexIsValue(s + t);
    HexIsValue(s);
    HexIsValue(t);
    assert DigitValues(s + t) == DigitValues(s) + DigitValues(t);
    ValueConcat(DigitValues(s), DigitValues(t), 4);
    WidthIsProduct(4, |t|);
  }

  lemma HexIsValue(s: string) ensures HexValue(s) == Value(DigitValues(s), 4) {}

  lemma HexSingle(c: char)
    ensures HexValue([c]) == DigitValue(c)
  {
    assert DigitValues([c]) == [] + [DigitValue(c)];
    ValueSnoc([], DigitValue(c), 4);
  }

  lemma HexPair(a: char, b: char)
    ensures HexValue([a, b]) == 16 * DigitValue(a) + DigitValue(b) < 256
  {
    hide *;
    assert [a, b] == [a] + [b];
    HexConcat([a], [b]);
    HexSingle(a);
    HexSingle(b);
    Pow2Known();
  }

  lemma HexBound(s: string)
    ensures HexValue(s) < Pow2(4 * |s|)
  {
    Pow2Known();
    ValueBound(DigitValues(s), 4);
    WidthIsProduct(4, |s|);
  }

  // ---- memory images ----

  /** Byte i of v, counted from the lowest. */
  function ByteAt(v: nat, i: nat): byte {
    LowByte(Shr(v, 8 * i));
    Low(Shr(v, 8 * i), 8)
  }

  /** The n bytes of v as they lie in memory on a little-endian machine. */
  function Image(v: nat, n: nat): (s: seq<byte>)
    ensures |s| == n
  {
    seq(n, i requires 0 <= i < n => ByteAt(v, i))
  }

  lemma LowByte(v: nat)
    ensures Low(v, 8) < 256
  {
    ShrLow(v, 8);
    Pow2Known();
  }

  lemma ByteAtIs(v: nat, i: nat) ensures ByteAt(v, i) == Low(Shr(v, 8 * i), 8) {}

  /** The first byte is the lowest, the others are those of the number without it. */
  lemma ImageStep(v: nat, n: nat)
    requires n > 0
    ensures Low(v, 8) < 256 && Image(v, n) == [Low(v, 8)] + Image(Shr(v, 8), n - 1)
  {
    hide Shr, Low, ByteAt;
    LowByte(v);
    NoShift(v);
    ByteAtIs(v, 0);
    forall i | 0 < i < n
      ensures ByteAt(v, i) == ByteAt(Shr(v, 8), i - 1)
    {
      ByteAtIs(v, i);
      ByteAtIs(Shr(v, 8), i - 1);
      ShrOfShr(v, 8, 8 * (i - 1));
    }
  }

  lemma ImageSplit(v: nat, m: nat, n: nat)
    ensures Image(v, m + n) == Image(v, m) + Image(Shr(v, 8 * m), n)
  {
    hide Shr, Low, ByteAt;
    forall i | m <= i < m + n
      ensures ByteAt(v, i) == ByteAt(Shr(v, 8 * m), i - m)
    {
      ByteAtIs(v, i);
      ByteAtIs(Shr(v, 8 * m), i - m);
      ShrOfShr(v, 8 * m, 8 * (i - m));
    }
  }

  /** A number below 256^n is determined by its image. */
  lemma {:induction false} ImageInjective(u: nat, v: nat, n: nat)
    requires u < Pow2(8 * n) && v < Pow2(8 * n) && Image(u, n) == Image(v, n)
    ensures u == v
    decreases n
  {
    hide *;
    if n > 0 {
      ImageStep(u, n);
      ImageStep(v, n);
      ShrBelow(u, 8, 8 * (n - 1));
      ShrBelow(v, 8, 8 * (n - 1));
      assert Image(u, n)[0] == Image(v, n)[0] && Image(u, n)[1..] == Image(v, n)[1..];
      ImageInjective(Shr(u, 8), Shr(v, 8), n - 1);
      ShrLow(u, 8);
      ShrLow(v, 8);
    } else {
      NoShift(0);
    }
  }

  lemma {:induction false} ImageOfFields(hi: nat, lo: nat, m: nat, n: nat)
    requires lo < Pow2(8 * m)
    ensures Image(hi * Pow2(8 * m) + lo, m + n) == Image(lo, m) + Image(hi, n)
  {
    hide Shr, Low, Pow2, Image;
    var v := hi * Pow2(8 * m) + lo;
    ImageSplit(v, m, n);
    Fields(hi, 8 * m, lo);
    LowOfSmall(lo, 8 * m);
    ImageOfLow(v, m);
  }

  lemma ImageOfLow(v: nat, n: nat)
    ensures Image(Low(v, 8 * n), n) == Image(v, n)
  {
    hide Shr, Low, ByteAt;
    forall i | 0 <= i < n
      ensures ByteAt(Low(v, 8 * n), i) == ByteAt(v, i)
    {
      ByteAtIs(Low(v, 8 * n), i);
      ByteAtIs(v, i);
      ShrOfLow(v, 8 * i, 8 * (n - i));
      ShrOfLow(Shr(v, 8 * i), 8, 8 * (n - i - 1));
      ShrOfLow(Low(Shr(v, 8 * i), 8 * (n - i)), 0, 8);
    }
  }

  // ---- C strings ----

  /** The character at position i of a NUL-terminated string. */
  function At(s: string, i: nat): char {
    if i < |s| then s[i] else 0 as char
  }

  /** The length of the longest run of hex digits from position i on. */
  function HexRun(s: string, i: nat): (n: nat)
    requires i <= |s|
    ensures i + n <= |s| && AllHex(s[i..i + n]) && !IsHexDigit(At(s, i + n))
    decreases |s| - i
  {
    if i < |s| && IsHexDigit(s[i]) then
      var n := HexRun(s, i + 1);
      assert s[i..i + 1 + n] == [s[i]] + s[i + 1..i + 1 + n];
      1 + n
    else 0
  }

  /** The bytes that pairs of hex digits denote; a digit left over is ignored. */
  function Decode(s: string): (b: seq<byte>)
    ensures |b| == |s| / 2
  {
    if |s| < 2 then [] else [16 * DigitValue(s[0]) + DigitValue(s[1])] + Decode(s[2..])
  }

  lemma {:induction false} DecodeSnoc(s: string, a: char, b: char)
    requires |s| % 2 == 0
    ensures Decode(s + [a, b]) == Decode(s) + [16 * DigitValue(a) + DigitValue(b)]
    ensures Decode(s + [a]) == Decode(s)
  {
    hide DigitValue;
    if |s| >= 2 {
      DecodeSnoc(s[2..], a, b);
      assert (s + [a, b])[2..] == s[2..] + [a, b] && (s + [a])[2..] == s[2..] + [a];
    }
  }

  /** One character of either readHex. */
  function Nibble(X: byte, c: char): (r: byte)
    requires X % 16 == 0
    ensures r == X + DigitValue(c)
  {
    OrNibble(X, DigitValue(c));
    Or(X, DigitValue(c))
  }

  lemma OrNibble(X: byte, d: nat)
    requires X % 16 == 0 && d < 16
    ensures Or(X, d) == X + d < 256
  {
    Pow2Known();
    OrDisjoint(X / 16, 4, d);
  }

  lemma DecodeTurn(s: string, i: nat)
    requires i < |s|
    ensures i % 2 == 0 ==> Decode(s[..i + 1]) == Decode(s[..i])
    ensures i % 2 == 1 ==>
      Decode(s[..i + 1]) == Decode(s[..i]) + [16 * DigitValue(s[i - 1]) + DigitValue(s[i])]
  {
    hide DigitValue;
    if i % 2 == 0 {
      DecodeSnoc(s[..i], s[i], s[i]);
      assert s[..i + 1] == s[..i] + [s[i]];
    } else {
      DecodeSnoc(s[..i - 1], s[i - 1], s[i]);
      assert s[..i + 1] == s[..i - 1] + [s[i - 1], s[i]] && s[..i] == s[..i - 1] + [s[i - 1]];
    }
  }

  /** A NUL-terminated string that is an even number of hex digits. */
  predicate IsHexString(s: string) {
    var n := HexRun(s, 0);
    At(s, n) == 0 as char && n % 2 == 0
  }

  /** The state of either readHex at position p. */
  ghost predicate Scanning(input: string, p: nat, state: nat, X: byte) {
    && p <= HexRun(input, 0) && state == p % 2
    && X == if state == 0 then 0 else 16 * DigitValue(input[p - 1])
  }

  lemma ScanInside(input: string, p: nat, state: nat, X: byte)
    requires Scanning(input, p, state, X) && At(input, p) != 0 as char && IsHexDigit(At(input, p))
    ensures p < |input| && p < HexRun(input, 0) && state <= 1 && X % 16 == 0
    ensures At(input, p) == input[p] && (state == 1 ==> p / 2 < HexRun(input, 0) / 2)
  {
    hide DigitValue, HexRun, AllHex, IsHexDigit;
  }

  lemma NulIsNoDigit() ensures !IsHexDigit(0 as char) {}

  lemma ScanStarts<T>(input: string, out: seq<T>, none: seq<T>)
    requires none == []
    ensures Scanning(input, 0, 0, 0) && Decode(input[..0]) == [] && out == Splice(out, 0, none)
  {}

  /** What one more hex digit does to that state. */
  lemma ScanTurn(input: string, p: nat, state: nat, X: byte)
    requires Scanning(input, p, state, X) && At(input, p) != 0 as char && IsHexDigit(At(input, p))
    requires p < |input| && p < HexRun(input, 0) && state <= 1 && X % 16 == 0
    ensures var X' := Nibble(X, input[p]);
            && Scanning(input, p + 1, 1 - state, if state == 0 then X' * 16 % 256 else 0)
            && Decode(input[..p + 1]) == if state == 0 then Decode(input[..p]) else Decode(input[..p]) + [X']
  {
    hide DigitValue, Decode, HexRun, AllHex, IsHexDigit, Nibble, At;
    DecodeTurn(input, p);
    Parity(p);
    if state == 0 {
      ShiftNibble(Nibble(X, input[p]));
    }
  }

  lemma Parity(p: nat)
    ensures p % 2 == 0 ==> (p + 1) % 2 == 1
    ensures p % 2 == 1 ==> (p + 1) % 2 == 0
  {}

  lemma ShiftNibble(d: nat)
    requires d < 16
    ensures d * 16 % 256 == 16 * d
  {}

  lemma ScanEnds(input: string, p: nat, state: nat, X: byte)
    requires Scanning(input, p, state, X) && !IsHexDigit(At(input, p))
    ensures p == HexRun(input, 0)
    ensures IsHexString(input) <==> At(input, p) == 0 as char && state == 0
  {
    var run := input[0..HexRun(input, 0)];
    assert forall i :: 0 <= i < |run| ==> IsHexDigit(run[i]) && run[i] == input[i];
  }

  /** readHex into a buffer. The size argument of the source is not used: that the
      decoded bytes fit is up to the caller. On failure the digits before the first
      other character have been written. */
  method ReadHexBuffer(input: string, out: array<byte>) returns (ok: bool)
    requires HexRun(input, 0) / 2 <= out.Length
    modifies out
    ensures ok <==> IsHexString(input)
    ensures out[..] == Splice(old(out[..]), 0, Decode(input[..HexRun(input, 0)]))
  {
    hide *;
    ghost var before := out[..];
    ScanStarts(input, before, []);
    var p: nat, o: nat, state: nat, X: byte := 0, 0, 0, 0;
    while At(input, p) != 0 as char
      invariant Scanning(input, p, state, X) && p <= HexRun(input, 0)
      invariant o == |Decode(input[..p])| && state <= 1
      invariant out[..] == Splice(before, 0, Decode(input[..p]))
      decreases |input| - p
    {
      if !IsHexDigit(At(input, p)) {
        ScanEnds(input, p, state, X);
        return false;
      }
      ScanInside(input, p, state, X);
      ScanTurn(input, p, state, X);
      X := Nibble(X, input[p]);
      if state == 1 {
        SpliceAppend(before, Decode(input[..p]), [X]);
        Put(out, o, X);
        o := o + 1;
        X := 0;
      } else {
        X := X * 16 % 256;
      }
      state := 1 - state;
      p := p + 1;
    }
    NulIsNoDigit();
    ScanEnds(input, p, state, X);
    return state == 0;
  }

  /** readHex into a vector. */
  method ReadHexVector(input: string) returns (ok: bool, out: seq<byte>)
    ensures ok <==> IsHexString(input)
    ensures out == Decode(input[..HexRun(input, 0)])
  {
    hide *;
    ScanStarts<byte>(input, [], []);
    out := [];
    var p: nat, state: nat, X: byte := 0, 0, 0;
    while At(input, p) != 0 as char
      invariant Scanning(input, p, state, X) && p <= HexRun(input, 0) && state <= 1
      invariant out == Decode(input[..p])
      decreases |input| - p
    {
      if !IsHexDigit(At(input, p)) {
        ScanEnds(input, p, state, X);
        return false, out;
      }
      ScanInside(input, p, state, X);
      ScanTurn(input, p, state, X);
      X := Nibble(X, input[p]);
      if state == 1 {
        out := out + [X];
        X := 0;
      } else {
        X := X * 16 % 256;
      }
      state := 1 - state;
      p := p + 1;
    }
    NulIsNoDigit();
    ScanEnds(input, p, state, X);
    ok := state == 0;
  }

  // ---- the strings the pool sends ----

  /** The pairs of s in reverse order. */
  function SwapPairs(s: string): (t: string)
    requires |s| % 2 == 0
    ensures |t| == |s|
  {
    if s == [] then [] else SwapPairs(s[2..]) + s[..2]
  }

  /** The i last pairs of the input, swapped. */
  ghost function Swapped(input: string, i: nat): (t: string)
    requires 2 * i <= |input|
    ensures |t| == 2 * i
  {
    SwapPairs(input[|input| - 2 * i..])
  }

  lemma NothingSwapped(input: string, out: seq<char>)
    ensures Swapped(input, 0) == [] && out == Splice(out, 0, [])
  {}

  lemma SwapTurn(input: string, i: nat)
    requires 2 * i + 2 <= |input|
    ensures Swapped(input, i + 1)
         == Swapped(input, i) + [input[|input| - 2 * i - 2], input[|input| - 2 * i - 1]]
  {
    var n := |input| - 2 * i;
    var t := input[n - 2..];
    assert t[2..] == input[n..] && t[..2] == [input[n - 2], input[n - 1]];
  }

  lemma AllSwapped(input: string)
    ensures 2 * (|input| / 2) == |input| - |input| % 2
    ensures Swapped(input, |input| / 2) == SwapPairs(input[|input| % 2..])
  {}

  /** Reverses the byte order of a hex string; of an odd number of digits the first
      is left out and out[inSize - 1] is not written. */
  method StratumLittleEndianHex(input: string, out: array<char>)
    requires |input| < out.Length
    modifies out
    ensures out[..] == Splice(Splice(old(out[..]), 0, SwapPairs(input[|input| % 2..])), |input|, [0 as char])
  {
    hide *;
    var inSize := |input|;
    ghost var before, written := out[..], Swapped(input, 0);
    NothingSwapped(input, before);
    for i := 0 to inSize / 2
      invariant |written| == 2 * i && written == Swapped(input, i)
      invariant out[..] == Splice(before, 0, written)
    {
      SwapTurn(input, i);
      ghost var pair := [input[inSize - 2 * i - 2], input[inSize - 2 * i - 1]];
      SpliceAppend(before, written, pair);
      PutPair(out, 2 * i, input[inSize - 2 * i - 2], input[inSize - 2 * i - 1]);
      written := written + pair;
    }
    AllSwapped(input);
    Put(out, inSize, 0 as char);
  }

  /** The upper-case hex digits of the n bytes of v as they lie in memory. */
  function DumpHex(v: nat, n: nat): (t: string)
    ensures |t| == 2 * n
    decreases n
  {
    if n == 0 then []
    else
      NibbleBound(v);
      [UpperDigit(Low(Shr(v, 4), 4)), UpperDigit(Low(v, 4))] + DumpHex(Shr(v, 8), n - 1)
  }

  lemma NibbleBound(v: nat)
    ensures Low(v, 4) < 16 && Low(Shr(v, 4), 4) < 16
    ensures Low(v, 8) == 16 * Low(Shr(v, 4), 4) + Low(v, 4)
  {
    hide Shr, Low, Pow2;
    ShrLow(v, 4);
    ShrLow(Shr(v, 4), 4);
    ShrShr(v, 4, 4);
    Pow2Known();
  }

  /** stratumDumpHex for an unsigned type of n bytes. */
  method StratumDumpHex(v: nat, n: nat, out: array<char>)
    requires 2 * n < out.Length
    modifies out
    ensures out[..] == Splice(Splice(old(out[..]), 0, DumpHex(v, n)), 2 * n, [0 as char])
  {
    hide *;
    var data := v;
    ghost var before, written: string := out[..], [];
    SpliceNothing(before, 0);
    EmptyDump(v);
    for i := 0 to n
      invariant |written| == 2 * i && written + DumpHex(data, n - i) == DumpHex(v, n)
      invariant out[..] == Splice(before, 0, written)
    {
      NibbleBound(data);
      var digit1, digit2 := Low(data, 4), Low(Shr(data, 4), 4);
      ghost var pair := [UpperDigit(digit2), UpperDigit(digit1)];
      DumpTurn(written, pair, data, n - i, DumpHex(v, n));
      SpliceAppend(before, written, pair);
      PutPair(out, 2 * i, UpperDigit(digit2), UpperDigit(digit1));
      written := written + pair;
      data := Shr(data, 8);
    }
    EmptyDump(data);
    assert written + [] == written;
    Put(out, 2 * n, 0 as char);
  }

  lemma EmptyDump(v: nat) ensures DumpHex(v, 0) == [] {}

  lemma DumpTurn(written: string, pair: string, data: nat, n: nat, all: string)
    requires n > 0 && written + DumpHex(data, n) == all
    requires Low(Shr(data, 4), 4) < 16 && Low(data, 4) < 16
    requires pair == [UpperDigit(Low(Shr(data, 4), 4)), UpperDigit(Low(data, 4))]
    ensures written + pair + DumpHex(Shr(data, 8), n - 1) == all
  {
    assert DumpHex(data, n) == pair + DumpHex(Shr(data, 8), n - 1);
  }

  // ---- what the miner decodes ----

  lemma {:induction false} DecodeConcat(s: string, t: string)
    requires |s| % 2 == 0
    ensures Decode(s + t) == Decode(s) + Decode(t)
  {
    hide DigitValue;
    if |s| >= 2 {
      DecodeConcat(s[2..], t);
      assert (s + t)[2..] == s[2..] + t;
    } else {
      assert s + t == t;
    }
  }

  /** Decoding the byte-reversed hex of a number gives its memory image. */
  lemma {:induction false} DecodeSwapped(h: string)
    requires |h| % 2 == 0 && AllHex(h)
    ensures AllHex(SwapPairs(h))
    ensures Decode(SwapPairs(h)) == Image(HexValue(h), |h| / 2)
  {
    hide DigitValue, HexValue, Image, Pow2;
    if h != [] {
      var t, m := h[2..], |h| / 2 - 1;
      DecodeSwapped(t);
      DecodeConcat(SwapPairs(t), h[..2]);
      assert h == h[..2] + t && h[..2] == [h[0], h[1]];
      HexConcat(h[..2], t);
      HexPair(h[0], h[1]);
      HexBound(t);
      ImageOfFields(HexValue(h[..2]), HexValue(t), m, 1);
      DecodePair(h[0], h[1]);
    } else {
      EmptyImage();
    }
  }

  lemma EmptyImage() ensures Image(HexValue([]), 0) == [] {}

  lemma DecodePair(a: char, b: char)
    ensures HexValue([a, b]) < 256 && Decode([a, b]) == [HexValue([a, b])] == Image(HexValue([a, b]), 1)
  {
    hide DigitValue;
    HexPair(a, b);
    assert [a, b][2..] == [];
    Pow2Known();
    LowOfSmall(HexValue([a, b]), 8);
  }

  /** Decoding the dump of a number gives its memory image. */
  lemma {:induction false} DecodeDumped(v: nat, n: nat)
    ensures AllHex(DumpHex(v, n))
    ensures Decode(DumpHex(v, n)) == Image(v, n)
    decreases n
  {
    hide DigitValue, Shr, Low, UpperDigit;
    if n > 0 {
      NibbleBound(v);
      ImageStep(v, n);
      DecodeDumped(Shr(v, 8), n - 1);
      assert DumpHex(v, n)[2..] == DumpHex(Shr(v, 8), n - 1);
    }
  }

  /** A string of hex digits only is read to its end. */
  lemma {:induction false} RunOfHex(s: string)
    requires AllHex(s)
    ensures HexRun(s, 0) == |s| && s[..HexRun(s, 0)] == s
    ensures IsHexString(s) <==> |s| % 2 == 0
  {
    if HexRun(s, 0) < |s| {
      assert false;
    }
  }

  // ---- bytes to text ----

  function BytePair(b: byte): (s: string)
    ensures |s| == 2 && IsHexDigit(s[0]) && IsHexDigit(s[1]) && 16 * DigitValue(s[0]) + DigitValue(s[1]) == b
  {
    [LowerDigit(b / 16), LowerDigit(b % 16)]
  }

  /** Two digits a byte, with a space between bytes if asked for. */
  function HexText(bytes: seq<byte>, fSpaces: bool): string {
    if bytes == [] then []
    else
      var n := |bytes| - 1;
      HexText(bytes[..n], fSpaces) + (if fSpaces && n > 0 then [' '] else []) + BytePair(bytes[n])
  }

  /** HexStr (src/equihash_original.h:36-53) */
  method HexStr(bytes: seq<byte>, fSpaces: bool) returns (rv: string)
    ensures rv == HexText(bytes, fSpaces)
  {
    rv := "";
    for it := 0 to |bytes|
      invariant rv == HexText(bytes[..it], fSpaces)
    {
      assert bytes[..it + 1][..it] == bytes[..it];
      if fSpaces && it != 0 {
        rv := rv + [' '];
      }
      rv := rv + BytePair(bytes[it]);
    }
    assert bytes[..|bytes|] == bytes;
  }

  /** Without spaces readHex gives the bytes back. */
  lemma {:induction false} HexTextDecodes(bytes: seq<byte>)
    ensures IsHexString(HexText(bytes, false)) && Decode(HexText(bytes, false)) == bytes
  {
    TextIsHex(bytes);
    RunOfHex(HexText(bytes, false));
  }

  lemma {:induction false} TextIsHex(bytes: seq<byte>)
    ensures AllHex(HexText(bytes, false)) && |HexText(bytes, false)| == 2 * |bytes|
    ensures Decode(HexText(bytes, false)) == bytes
  {
    hide DigitValue, BytePair, Decode, IsHexDigit;
    if bytes == [] {
      NoBytes();
    } else {
      var n := |bytes| - 1;
      TextIsHex(bytes[..n]);
      var t, pair := HexText(bytes[..n], false), BytePair(bytes[n]);
      assert HexText(bytes, false) == t + pair && pair == [pair[0], pair[1]];
      DecodeSnoc(t, pair[0], pair[1]);
    }
  }

  /** With spaces, the two lower-case digits of byte k are at 3k and every third character
      is a space. */
  lemma {:induction false} SpacedPlaces(bytes: seq<byte>)
    ensures |HexText(bytes, true)| == if bytes == [] then 0 else 3 * |bytes| - 1
    ensures forall k :: 0 <= k < |bytes| ==> PairAt(HexText(bytes, true), 3 * k, bytes[k])
    ensures forall k :: 0 <= k < |bytes| - 1 ==> HexText(bytes, true)[3 * k + 2] == ' '
  {
    hide PairAt, HexText;
    if bytes == [] {
      NoBytesNoText(true);
    } else {
      var n := |bytes| - 1;
      var t, u := HexText(bytes[..n], true), HexText(bytes, true);
      SpacedPlaces(bytes[..n]);
      SpacedSnoc(bytes);
      forall k | 0 <= k < |bytes|
        ensures PairAt(u, 3 * k, bytes[k])
      {
        if k < n {
          PairStays(t, u, 3 * k, bytes[k]);
        }
      }
      forall k | 0 <= k < n
        ensures u[3 * k + 2] == ' '
      {
        if k < n - 1 {
          assert t[3 * k + 2] == u[..|t|][3 * k + 2];
        }
      }
    }
  }

  lemma NoBytesNoText(fSpaces: bool) ensures HexText([], fSpaces) == [] {}

  lemma PairStays(t: string, u: string, i: nat, b: byte)
    requires |t| <= |u| && u[..|t|] == t && PairAt(t, i, b)
    ensures PairAt(u, i, b)
  {
    assert u[i..i + 2] == u[..|t|][i..i + 2];
  }

  predicate PairAt(t: string, i: nat, b: byte) {
    i + 2 <= |t| && t[i..i + 2] == BytePair(b)
  }

  lemma SpacedSnoc(bytes: seq<byte>)
    requires bytes != []
    ensures var n := |bytes| - 1;
      var t, u := HexText(bytes[..n], true), HexText(bytes, true);
      && |u| == |t| + (if n > 0 then 3 else 2) && u[..|t|] == t && (n > 0 ==> u[|t|] == ' ')
      && PairAt(u, |u| - 2, bytes[n])
  {
    hide *;
    var n := |bytes| - 1;
    TextSnoc(bytes);
    var t, sep, pair := HexText(bytes[..n], true), if n > 0 then " " else "", BytePair(bytes[n]);
    Appended(t, sep, pair);
    PairIs(t + (sep + pair), |t + (sep + pair)| - 2, bytes[n]);
  }

  lemma Appended(t: string, sep: string, pair: string)
    ensures var u := t + (sep + pair);
      && |u| == |t| + |sep| + |pair| && u[..|t|] == t && (sep != "" ==> u[|t|] == sep[0])
      && u[|u| - |pair|..|u|] == pair
  {}

  lemma PairIs(t: string, i: nat, b: byte)
    requires i + 2 <= |t| && t[i..i + 2] == BytePair(b)
    ensures PairAt(t, i, b)
  {}

  lemma TextSnoc(bytes: seq<byte>)
    requires bytes != []
    ensures var n := |bytes| - 1;
      HexText(bytes, true) == HexText(bytes[..n], true) + ((if n > 0 then " " else "") + BytePair(bytes[n]))
  {}

  lemma NoBytes() ensures Decode([]) == [] {}

  // ---- numbers to text and back ----

  /** The n low hex digits of v, most significant first, in lower case. */
  function HexOf(v: nat, n: nat): (s: string)
    ensures |s| == n
    decreases n
  {
    if n == 0 then []
    else
      NibbleBound(v);
      HexOf(Shr(v, 4), n - 1) + [LowerDigit(Low(v, 4))]
  }

  lemma {:induction false} HexOfValue(v: nat, n: nat)
    ensures AllHex(HexOf(v, n)) && HexValue(HexOf(v, n)) == Low(v, 4 * n)
    decreases n
  {
    hide Shr, Low, LowerDigit, HexValue, Pow2;
    if n == 0 {
      EmptyHex(v);
    } else {
      NibbleBound(v);
      HexOfValue(Shr(v, 4), n - 1);
      HexConcat(HexOf(Shr(v, 4), n - 1), [LowerDigit(Low(v, 4))]);
      HexSingle(LowerDigit(Low(v, 4)));
      ShrShr(v, 4, 4 * (n - 1));
    }
  }

  lemma EmptyHex(v: nat)
    ensures HexValue([]) == 0 == Low(v, 0)
  {}

  /** The two digits of the low byte of v are the next two of v. */
  lemma HexOfByte(v: nat, n: nat, b: nat)
    requires b == Low(v, 8)
    ensures Low(Shr(b, 4), 4) < 16 && Low(b, 4) < 16
    ensures HexOf(v, n + 2) == HexOf(Shr(v, 8), n) + [LowerDigit(Low(Shr(b, 4), 4)), LowerDigit(Low(b, 4))]
  {
    hide Shr, Low, LowerDigit;
    NibbleBound(v);
    ShrOfShr(v, 4, 4);
    ShrOfLow(v, 4, 4);
    ShrOfLow(Shr(v, 4), 4, 0);
  }

  predicate IsSpace(c: char) { c == ' ' || 9 as char <= c <= 13 as char }

  /** The first position from i on that is not a space. */
  function SkipSpaces(s: string, i: nat): (j: nat)
    requires i <= |s|
    ensures i <= j <= |s|
    decreases |s| - i
  {
    if i < |s| && IsSpace(s[i]) then SkipSpaces(s, i + 1) else i
  }

  /** Walks over spaces. */
  method FindNonSpace(s: string, i: nat) returns (j: nat)
    requires i <= |s|
    ensures j == SkipSpaces(s, i)
  {
    j := i;
    while IsSpace(At(s, j))
      invariant i <= j <= |s| && SkipSpaces(s, j) == SkipSpaces(s, i)
      decreases |s| - j
    {
      j := j + 1;
    }
  }

  /** Walks over hex digits: a digit has a value in the table, or is '0'. */
  method FindNonDigit(s: string, i: nat) returns (j: nat)
    requires i <= |s|
    ensures j == i + HexRun(s, i)
  {
    hide DigitValue, AllHex;
    j := i;
    DigitTest(At(s, j));
    while DigitValue(At(s, j)) != 0 || At(s, j) == '0'
      invariant i <= j <= |s| && j + HexRun(s, j) == i + HexRun(s, i)
      invariant IsHexDigit(At(s, j)) <==> DigitValue(At(s, j)) != 0 || At(s, j) == '0'
      decreases |s| - j
    {
      j := j + 1;
      DigitTest(At(s, j));
    }
  }

  /** The table phexdigit tells digits from other characters, 0 apart. */
  lemma DigitTest(c: char)
    ensures IsHexDigit(c) <==> DigitValue(c) != 0 || c == '0'
  {}

  /** The position behind an optional 0x. */
  function SkipPrefix(s: string, i: nat): (j: nat)
    requires i <= |s|
    ensures i <= j <= |s|
  {
    if At(s, i) == '0' && (At(s, i + 1) == 'x' || At(s, i + 1) == 'X') then i + 2 else i
  }

  lemma SkipSpacesAt(s: string, i: nat, j: nat)
    requires i <= j <= |s| && forall k :: i <= k < j ==> IsSpace(s[k])
    requires !IsSpace(At(s, j))
    ensures SkipSpaces(s, i) == j
    decreases j - i
  {
    if i < j { SkipSpacesAt(s, i + 1, j); }
  }

  /** What SetHex reads: the run of hex digits behind spaces and a prefix 0x. */
  function HexBody(s: string): string {
    var i := SkipPrefix(s, SkipSpaces(s, 0));
    s[i..i + HexRun(s, i)]
  }

  /** White space of the C locale. */
  predicate AllSpace(s: string) {
    forall i :: 0 <= i < |s| ==> s[i] in {' ', '\t', '\n', '\r', 11 as char, 12 as char}
  }

  predicate IsPrefix(s: string) { s == "" || s == "0x" || s == "0X" }

  lemma SkipsSpaces(s: string, i: nat, spaces: string, tail: string)
    requires i <= |s| && s[i..] == spaces + tail && AllSpace(spaces) && tail != [] && !IsSpace(tail[0])
    ensures i + |spaces| < |s| && SkipSpaces(s, i) == i + |spaces| && s[i + |spaces|..] == tail
  {
    var j := i + |spaces|;
    assert forall k :: 0 <= k < |s| - i ==> s[i + k] == (spaces + tail)[k];
    assert forall k :: i <= k < j ==> s[k] == spaces[k - i];
    assert s[j] == tail[0];
    SkipSpacesAt(s, i, j);
  }

  lemma SkipsPrefix(s: string, i: nat, prefix: string, tail: string)
    requires i <= |s| && s[i..] == prefix + tail && IsPrefix(prefix) && tail != []
    requires prefix == "" && tail[0] == '0' ==> At(tail, 1) != 'x' && At(tail, 1) != 'X'
    ensures i + |prefix| < |s| && SkipPrefix(s, i) == i + |prefix| && s[i + |prefix|..] == tail
  {
    assert forall k :: 0 <= k < |s| - i ==> s[i + k] == (prefix + tail)[k];
    assert At(s, i) == s[i + 0] && At(s, i + 1) == At(s[i..], 1);
  }

  lemma ReadsDigits(s: string, i: nat, digits: string, rest: string)
    requires i <= |s| && s[i..] == digits + rest && AllHex(digits) && !IsHexDigit(At(rest, 0))
    ensures HexRun(s, i) == |digits| && s[i..i + HexRun(s, i)] == digits
  {
    hide IsHexDigit, HexRun;
    assert forall k :: 0 <= k < |s| - i ==> s[i + k] == (digits + rest)[k];
    assert forall k :: i <= k < i + |digits| ==> s[k] == digits[k - i];
    RunOfDigits(s, i, |digits|);
  }

  lemma FirstDigit(digits: string, rest: string)
    requires digits != [] && AllHex(digits) && !IsHexDigit(At(rest, 0))
    requires digits == "0" ==> At(rest, 0) != 'x' && At(rest, 0) != 'X'
    ensures !IsSpace((digits + rest)[0]) && (digits + rest)[0] != '-'
    ensures (digits + rest)[0] == '0' ==> At(digits + rest, 1) != 'x' && At(digits + rest, 1) != 'X'
  {
    assert IsHexDigit(digits[0]) && (|digits| > 1 ==> IsHexDigit(digits[1]));
  }

  /** Between spaces with an optional prefix and the first other character it reads
      exactly the digits. */
  lemma HexBodyReads(spaces: string, prefix: string, digits: string, rest: string)
    requires AllSpace(spaces) && IsPrefix(prefix)
    requires digits != [] && AllHex(digits) && !IsHexDigit(At(rest, 0))
    requires digits == "0" ==> At(rest, 0) != 'x' && At(rest, 0) != 'X'
    ensures HexBody(spaces + (prefix + (digits + rest))) == digits
  {
    hide HexRun, SkipSpaces, SkipPrefix, AllHex, AllSpace, IsHexDigit, IsSpace, At;
    var tail := digits + rest;
    var s := spaces + (prefix + tail);
    FirstDigit(digits, rest);
    FirstOfPrefix(prefix, tail);
    SkipsSpaces(s, 0, spaces, prefix + tail);
    SkipsPrefix(s, |spaces|, prefix, tail);
    ReadsDigits(s, |spaces| + |prefix|, digits, rest);
  }

  lemma FirstOfPrefix(prefix: string, tail: string)
    requires IsPrefix(prefix) && tail != [] && !IsSpace(tail[0])
    ensures !IsSpace((prefix + tail)[0])
  {
    assert prefix == [] ==> prefix + tail == tail;
  }

  lemma ZeroIsNoSpace() ensures !IsSpace('0') && !IsSpace('-') {}

  lemma {:induction false} RunOfDigits(s: string, i: nat, n: nat)
    requires i + n <= |s| && (forall k :: i <= k < i + n ==> IsHexDigit(s[k])) && !IsHexDigit(At(s, i + n))
    ensures HexRun(s, i) == n
    decreases n
  {
    hide IsHexDigit, AllHex;
    if n > 0 {
      RunOfDigits(s, i + 1, n - 1);
    }
  }

  /** b | (d << 4) on a byte that holds a single digit. */
  function Nibbles(b: byte, d: nat): (r: byte)
    requires d < 16 && b < 16
    ensures r == 16 * d + b
  {
    Pow2Known();
    OrDisjointSwap(d, 4, b);
    Or(b, d * 16)
  }
}
