/** CBigNum over mathematical integers: the compact form, the byte buffers handed to
    OpenSSL in MPI format, and text (src/bignum.h:125-238,289-391). */
module BigNum {
  import opened Arithmetic
  import opened Bitwise
  import opened Digits
  import opened Hex
  import opened Limbs
  import opened BaseUint
  import opened Compact

  function Magnitude(n: int): nat { if n < 0 then -n else n }

  function Signed(negative: bool, v: nat): int { if negative then -(v as int) else v }

  // ---- the MPI format ----

  /** The shortest byte string whose top bit is free for the sign of n. */
  function MpiPayload(negative: bool, v: nat): (s: seq<byte>)
    ensures |s| == CompactSize(v)
  {
    var b := Bytes(v, CompactSize(v));
    if negative && v > 0 then
      TopByteFree(v);
      b[0 := b[0] + 128]
    else b
  }

  lemma TopByteFree(v: nat)
    requires v > 0
    ensures CompactSize(v) > 0 && Bytes(v, CompactSize(v))[0] < 128
  {
    hide Shr, Low, Pow2;
    var c := CompactSize(v);
    NumBytesRange(2 * v, c);
    assert c > 0 by { NumBytesRange(2 * v, 0); NoShift(v); }
    BelowTwice(v, 8 * c - 1);
    DigitAt(v, 8, c, 0);
    WidthIsProduct(8, c - 1);
    ShrBelow(v, 8 * (c - 1), 7);
    Pow2Known();
    LowOfSmall(Shr(v, 8 * (c - 1)), 8);
  }

  /** The number an MPI payload denotes: a sign bit and a big-endian magnitude. */
  function PayloadValue(s: seq<byte>): int {
    if s == [] then 0
    else if s[0] >= 128 then -(Value(s[0 := s[0] - 128], 8) as int)
    else Value(s, 8)
  }

  /** The payload has room for the number. */
  lemma SizedBytes(v: nat)
    ensures Value(Bytes(v, CompactSize(v)), 8) == v
    ensures CompactSize(v) == 0 <==> v == 0
  {
    hide *;
    var c := CompactSize(v);
    SizeIsNumBytes(v);
    NumBytesRange(v, c);
    NumBytesMonotone(v, 2 * v);
    NumBytesRange(v, 0);
    NumBytesRange(2 * v, 0);
    NoShift(v);
    ValueOfDigits(v, 8, c);
    WidthIsProduct(8, c);
    LowOfSmall(v, 8 * c);
  }

  lemma SizeIsNumBytes(v: nat) ensures CompactSize(v) == NumBytes(2 * v) {}

  lemma PayloadRoundTrip(negative: bool, v: nat)
    ensures PayloadValue(MpiPayload(negative, v)) == Signed(negative, v)
  {
    hide Value, CompactSize, Bytes;
    SizedBytes(v);
    if v > 0 {
      TopByteFree(v);
      var b := Bytes(v, CompactSize(v));
      assert negative ==> MpiPayload(negative, v)[0 := b[0]] == b;
    }
  }

  /** BN_mpi2bn: four bytes of length, then the payload. */
  predicate IsMpi(s: seq<byte>) {
    |s| >= 4 && Value(s[..4], 8) == |s| - 4
  }

  function MpiToBn(s: seq<byte>): int
    requires IsMpi(s)
  {
    PayloadValue(s[4..])
  }

  /** BN_bn2mpi */
  function BnToMpi(n: int): (s: seq<byte>) {
    var payload := MpiPayload(n < 0, Magnitude(n));
    Bytes(|payload|, 4) + payload
  }

  /** One byte c more in a number that is being written from the top. */
  lemma PayloadGrows(negative: bool, v: nat, c: byte)
    ensures v > 0 ==> MpiPayload(negative, v * 256 + c) == MpiPayload(negative, v) + [c]
    ensures v == 0 && c == 0 ==> MpiPayload(negative, v * 256 + c) == []
    ensures v == 0 && c >= 128 ==> MpiPayload(negative, v * 256 + c) == [if negative then 128 else 0, c]
    ensures v == 0 && 0 < c < 128 ==> MpiPayload(negative, v * 256 + c) == [if negative then c + 128 else c]
  {
    hide Low, Shr, Pow2;
    SizeGrows(v, c);
    Pow2Known();
    Fields(v, 8, c);
    if v > 0 {
      TopByteFree(v);
      assert Bytes(v * 256 + c, CompactSize(v) + 1) == Bytes(v, CompactSize(v)) + [c];
    } else if c >= 128 {
      LowOfSmall(0, 8);
      assert DigitsOf(0, 8, 1) == [0] by { OneDigitOf(0); }
      assert Bytes(c, 2) == [0, c];
    } else if c > 0 {
      LowOfSmall(c, 8);
      assert Bytes(c, 1) == [c] by { OneDigitOf(c); }
    }
  }

  lemma OneDigitOf(v: nat)
    ensures DigitsOf(v, 8, 1) == [Low(v, 8)]
  {
    assert DigitsOf(Shr(v, 8), 8, 0) == [];
  }

  lemma SizeGrows(v: nat, c: byte)
    ensures v > 0 ==> CompactSize(v * 256 + c) == CompactSize(v) + 1
    ensures v == 0 ==> CompactSize(v * 256 + c) == if c == 0 then 0 else if c < 128 then 1 else 2
  {
    var x := 2 * (v * 256 + c);
    if v > 0 {
      NumBytesRange(2 * v, CompactSize(v));
      NumBytesRange(2 * v, CompactSize(v) - 1) by { NumBytesRange(2 * v, 0); NoShift(v); }
      ByteStep(v, c, CompactSize(v));
      ByteStep(v, c, CompactSize(v) - 1);
      NumBytesRange(x, CompactSize(v) + 1);
      NumBytesRange(x, CompactSize(v));
    } else {
      assert 2 * c / 256 == if c < 128 then 0 else 1;
      assert NumBytes(1) == 1 + NumBytes(1 / 256);
    }
  }

  lemma ByteStep(v: nat, c: byte, n: nat)
    requires v > 0
    ensures 2 * v < Pow2(8 * n) <==> 2 * (v * 256 + c) < Pow2(8 * (n + 1))
  {
    hide *;
    Pow2Add(8, 8 * n);
    Pow2Known();
    EvenPower(8 * n);
  }

  // ---- buffers ----

  /** The buffer pch while a number is written into it from the top: four bytes for
      the length, then the payload of what has been seen of the number, up to p. */
  ghost predicate Writing(buffer: seq<byte>, p: nat, negative: bool, seen: nat) {
    4 <= p <= |buffer| && buffer[4..p] == MpiPayload(negative, seen)
  }

  /** One turn of the loops of setint64, setuint64 and setuint256: byte c of the
      number arrives; leading zero bytes are skipped. */
  method WriteByte(pch: array<byte>, p: nat, fLeadingZeroes: bool, c: byte, fNegative: bool, ghost seen: nat)
    returns (p': nat, leading: bool)
    requires p + 2 <= pch.Length && Writing(pch[..], p, fNegative, seen)
    requires fLeadingZeroes <==> seen == 0
    modifies pch
    ensures Writing(pch[..], p', fNegative, seen * 256 + c)
    ensures leading <==> seen * 256 + c == 0
    ensures p' <= p + (if leading then 0 else if fLeadingZeroes then 2 else 1)
  {
    hide MpiPayload;
    PayloadGrows(fNegative, seen, c);
    ghost var before := pch[4..p];
    p', leading := p, fLeadingZeroes;
    var d := c;
    if fLeadingZeroes {
      NothingSeen(fNegative);
      if c == 0 {
        return;
      }
      if c >= 128 {
        pch[p'] := if fNegative then 128 else 0;
        p' := p' + 1;
      } else if fNegative {
        d := c + 128;
      }
      leading := false;
    }
    pch[p'] := d;
    p' := p' + 1;
    assert pch[4..p] == before;
  }

  lemma NothingSeen(negative: bool)
    ensures MpiPayload(negative, 0) == []
  {}

  /** The four bytes of length in front; then OpenSSL reads the buffer back. */
  method FinishMpi(pch: array<byte>, p: nat, ghost negative: bool, ghost v: nat) returns (n: int)
    requires Writing(pch[..], p, negative, v) && p < 0x1_0000_0000
    modifies pch
    ensures n == Signed(negative, v)
  {
    hide MpiPayload, MpiToBn, PayloadValue, Low, Shr, Pow2, Value;
    var nSize := p - 4;
    ghost var payload := pch[4..p];
    for k := 0 to 4
      invariant pch[4..p] == payload && pch[..k] == Bytes(nSize, 4)[..k]
    {
      DigitAt(nSize, 8, 4, k);
      WidthIsProduct(8, 3 - k);
      ghost var head := pch[..k];
      pch[k] := Low(Shr(nSize, 8 * (3 - k)), 8);
      assert pch[..k] == head && pch[..k + 1] == head + [pch[k]];
    }
    LengthPrefix(nSize, pch[..p]);
    assert pch[..p][4..] == payload;
    PayloadRoundTrip(negative, v);
    n := MpiToBn(pch[..p]);
    FromPayload(pch[..p], payload);
  }

  lemma FromPayload(s: seq<byte>, payload: seq<byte>)
    requires IsMpi(s) && s[4..] == payload
    ensures MpiToBn(s) == PayloadValue(payload)
  {}

  lemma LengthPrefix(nSize: nat, s: seq<byte>)
    requires |s| == nSize + 4 && nSize < 0x1_0000_0000 && s[..4] == Bytes(nSize, 4)
    ensures IsMpi(s)
  {
    Pow2Known();
    ValueOfDigits(nSize, 8, 4);
    WidthIsProduct(8, 4);
    LowOfSmall(nSize, 32);
  }

  /** What taking the top byte and shifting left by a byte do on a 64-bit word that held
      N at the start and has been shifted i times. */
  lemma NextByte(N: nat, n: nat, i: nat)
    requires N < Pow2(64) && i < 8 && n == Low(Shl(N, 8 * i), 64)
    ensures And(Shr(n, 56), 255) == Low(Shr(N, 56 - 8 * i), 8) < 256
    ensures Low(n * 256, 64) == Low(Shl(N, 8 * (i + 1)), 64)
    ensures Shr(N, 56 - 8 * i) == Shr(N, 64 - 8 * i) * 256 + Low(Shr(N, 56 - 8 * i), 8)
  {
    hide *;
    TopByte(N, i);
    ByteOut(Shl(N, 8 * i));
    ByteUp(N, i);
    ByteSplit(Shr(N, 56 - 8 * i));
    ShrOfShr(N, 56 - 8 * i, 8);
  }

  lemma ByteUp(N: nat, i: nat)
    ensures Shl(N, 8 * i) * 256 == Shl(N, 8 * (i + 1))
  {
    hide Pow2;
    Pow2Known();
    Pow2Add(8 * i, 8);
    Associate(N, Pow2(8 * i), 256);
  }

  lemma ByteSplit(v: nat)
    ensures v == Shr(v, 8) * 256 + Low(v, 8)
  {
    hide *;
    Pow2Known();
    ShrLow(v, 8);
  }

  lemma TopByte(N: nat, i: nat)
    requires i < 8
    ensures And(Shr(Low(Shl(N, 8 * i), 64), 56), 255) == Low(Shr(N, 56 - 8 * i), 8) < 256
  {
    hide *;
    Pow2Known();
    ShrOfLow(Shl(N, 8 * i), 56, 8);
    ShiftedUp(N, i);
    var top := Low(Shr(N, 56 - 8 * i), 8);
    AndMask(top, 8);
    ShrLow(Shr(N, 56 - 8 * i), 8);
    LowOfSmall(top, 8);
  }

  /** Shifting left by a byte may drop what is above 64 bits before or after. */
  lemma ByteOut(x: nat)
    ensures Low(Low(x, 64) * 256, 64) == Low(x * 256, 64)
  {
    hide *;
    Pow2Known();
    LowOfShl(x, 8, 56);
    LowOfShl(Low(x, 64), 8, 56);
    ShrOfLow(x, 56, 8);
  }

  lemma ShiftedUp(N: nat, i: nat)
    requires i < 8
    ensures Shr(Shl(N, 8 * i), 56) == Shr(N, 56 - 8 * i)
  {
    hide Pow2, Shr, Low;
    PowPositive(8 * i);
    Fields(N, 8 * i, 0);
    ShrOfShr(N * Pow2(8 * i), 8 * i, 56 - 8 * i);
  }

  class CBigNum {
    var n: int

    constructor ()
      ensures n == 0
    {
      n := 0;
    }

    /** The loop that setint64 and setuint64 share. */
    method SetWord(pch: array<byte>, start: nat, fNegative: bool)
      requires start < Pow2(64) && pch.Length >= 14
      modifies this, pch
      ensures n == Signed(fNegative, start)
    {
      hide Low, Shr, Shl, Pow2, And, MpiPayload, Writing;
      StartWord(start);
      StartBuffer(pch[..], fNegative);
      var w, p, fLeadingZeroes := start, 4, true;
      for i := 0 to 8
        invariant w == Low(Shl(start, 8 * i), 64)
        invariant Writing(pch[..], p, fNegative, Shr(start, 64 - 8 * i))
        invariant fLeadingZeroes <==> Shr(start, 64 - 8 * i) == 0
        invariant p <= 4 + i + (if fLeadingZeroes then 0 else 1)
      {
        NextByte(start, w, i);
        var c := And(Shr(w, 56), 255);
        w := Low(w * 256, 64);
        p, fLeadingZeroes := WriteByte(pch, p, fLeadingZeroes, c, fNegative, Shr(start, 64 - 8 * i));
      }
      NoShift(start);
      n := FinishMpi(pch, p, fNegative, start);
    }

    /** setint64: exact for every int64, the least one included. */
    method SetInt64(sn: int)
      requires -0x8000_0000_0000_0000 <= sn < 0x8000_0000_0000_0000
      modifies this
      ensures n == sn
    {
      var pch := new byte[14];
      var fNegative, m;
      if sn < 0 {
        m := -(sn + 1);
        m := m + 1;
        fNegative := true;
      } else {
        m := sn;
        fNegative := false;
      }
      Pow64();
      SetWord(pch, m, fNegative);
    }

    method SetUint64(m: nat)
      requires m < 0x1_0000_0000_0000_0000
      modifies this
      ensures n == m
    {
      var pch := new byte[14];
      Pow64();
      SetWord(pch, m, false);
    }

    method SetUint256(x: BaseUint)
      requires x.pn.Length == 8
      modifies this
      ensures n == x.Value()
    {
      hide Low, Shr, Pow2, MpiPayload, Writing, LimbValue, Modulus;
      var pch := new byte[38];
      ghost var v := x.Value();
      Value256(x);
      LowOfSmall(v, 256);
      StartBuffer(pch[..], false);
      var p, fLeadingZeroes, psrc := 4, true, 32;
      while psrc != 0
        invariant 0 <= psrc <= 32 && x.Value() == v
        invariant Writing(pch[..], p, false, Shr(v, 8 * psrc))
        invariant fLeadingZeroes <==> Shr(v, 8 * psrc) == 0
        invariant p <= 4 + (32 - psrc) + (if fLeadingZeroes then 0 else 1)
      {
        psrc := psrc - 1;
        var c := x.GetByte(psrc);
        ByteBelow(v, psrc);
        p, fLeadingZeroes := WriteByte(pch, p, fLeadingZeroes, c, false, Shr(v, 8 * (psrc + 1)));
      }
      NoShift(v);
      n := FinishMpi(pch, p, false, v);
    }

    /** getuint256: the sign is dropped, and what exceeds 256 bits. */
    method GetUint256() returns (r: BaseUint)
      ensures fresh(r.pn) && r.pn.Length == 8
      ensures r.Value() == Magnitude(n) % Modulus(8)
    {
      hide LimbValue, Modulus, Pow2, Value, Low, Shr, BnToMpi, Magnitude;
      var vch := BnToMpi(n);
      MpiMagnitude(n);
      if |vch| > 4 {
        vch := vch[4 := vch[4] % 128];
      }
      r := new BaseUint(8);
      var i, j := 0, |vch| - 1;
      NothingRead(vch);
      while i < 32 && j >= 4
        invariant i + j == |vch| - 1 && 0 <= i <= 32 && j >= 3
        invariant r.pn.Length == 8 && fresh(r.pn)
        invariant r.Value() == Value(vch[j + 1..], 8)
        decreases 32 - i
      {
        BytesRead(vch, j, i);
        ByteHigh(r.pn[..], i);
        r.SetByte(i, vch[j]);
        i := i + 1;
        j := j - 1;
      }
      ReadEnds(vch, j, i);
    }

    // ---- the compact form ----

    method SetCompact(nCompact: nat)
      requires nCompact < 0x1_0000_0000
      modifies this
      ensures n == Signed(And(nCompact, 0x80_0000) != 0, TargetOf(nCompact))
    {
      MantissaBits(nCompact);
      var nSize := Shr(nCompact, 24);
      var fNegative := And(nCompact, 0x80_0000) != 0;
      var nWord := And(nCompact, 0x007F_FFFF);
      if nSize <= 3 {
        nWord := Shr(nWord, 8 * (3 - nSize));
        n := nWord;
      } else {
        n := nWord;
        n := n * Pow2(8 * (nSize - 3));
      }
      n := Signed(fNegative, Magnitude(n));
    }

    /** The size field has eight bits: larger sizes wrap. */
    method GetCompact() returns (nCompact: nat)
      ensures var (m, size) := Encode(Magnitude(n));
              m < 0x80_0000 && nCompact == Word(m, size, n < 0)
    {
      hide Low, Shr, Pow2, And, Word, NumBytes;
      var v := Magnitude(n);
      var nSize := NumBytes(v);
      RawWord(v);
      if nSize <= 3 {
        nCompact := Low(v * Pow2(8 * (3 - nSize)), 32);
      } else {
        nCompact := Shr(v, 8 * (nSize - 3));
      }
      if And(nCompact, 0x80_0000) != 0 {
        nCompact := Shr(nCompact, 8);
        nSize := nSize + 1;
      }
      nCompact := PackWord(nCompact, nSize, n < 0);
    }

    // ---- text ----

    /** An optional sign and prefix, then hex digits. */
    method SetHex(str: string)
      modifies this
      ensures n == Signed(HasMinus(str), HexValue(NumberBody(str)))
    {
      hide *;
      NumberParts(str);
      var psz := FindNonSpace(str, 0);
      var fNegative := false;
      if At(str, psz) == '-' {
        fNegative := true;
        psz := psz + 1;
      }
      psz := SkipPrefix(str, psz);
      psz := FindNonSpace(str, psz);
      ghost var start, body := psz, NumberBody(str);
      n := 0;
      NoDigitsYet(body);
      while IsHexDigit(At(str, psz))
        invariant start <= psz <= start + |body| && n == HexValue(body[..psz - start])
        decreases |str| - psz
      {
        DigitArrives(str, start, body, psz);
        InsideString(str, psz);
        n := n * 16;
        n := n + DigitValue(str[psz]);
        psz := psz + 1;
      }
      RunIsOver(str, start, body, psz);
      SignedIs(fNegative, n);
      if fNegative {
        n := 0 - n;
      }
    }

    method ToString(nBase: nat) returns (str: string)
      requires 2 <= nBase <= 16
      ensures str == NumberText(n, nBase)
    {
      ghost var text := NumberText(n, nBase);
      var bn: nat := Magnitude(n);
      if bn == 0 {
        return "0";
      }
      assert text == (if n < 0 then ['-'] else []) + BaseText(bn, nBase);
      str := [];
      ghost var body := BaseText(bn, nBase);
      assert body == body + Reversed(str);
      NoText(nBase);
      hide NumberText, BaseText, LowerDigit, Reversed;
      while bn > 0
        invariant body == BaseText(bn, nBase) + Reversed(str)
      {
        SmallerDigits(bn, nBase);
        var dv: nat, rem: nat := bn / nBase, bn % nBase;
        LastDigit(bn, nBase);
        ReversedSnoc(str, LowerDigit(rem));
        bn := dv;
        str := str + [LowerDigit(rem)];
      }
      if n < 0 {
        ReversedSnoc(str, '-');
        str := str + ['-'];
      }
      str := Reversed(str);
    }

    method GetHex() returns (str: string)
      ensures str == NumberText(n, 16)
    {
      str := ToString(16);
    }
  }

  lemma ByteBelow(v: nat, p: nat)
    ensures Shr(v, 8 * p) == Shr(v, 8 * (p + 1)) * 256 + Low(Shr(v, 8 * p), 8)
  {
    hide *;
    ShrOfShr(v, 8 * p, 8);
    ByteSplit(Shr(v, 8 * p));
  }

  /** The bytes of the magnitude behind the length, the sign bit cleared. */
  lemma MpiMagnitude(n: int)
    ensures var vch := BnToMpi(n);
            && |vch| >= 4
            && Value((if |vch| > 4 then vch[4 := vch[4] % 128] else vch)[4..], 8) == Magnitude(n)
  {
    hide *;
    var v := Magnitude(n);
    var b := Bytes(v, CompactSize(v));
    SizedBytes(v);
    MpiIs(n);
    PayloadIs(n < 0, v);
    BehindLength(Bytes(|b|, 4), MpiPayload(n < 0, v));
  }

  lemma MpiIs(n: int)
    ensures BnToMpi(n) == Bytes(CompactSize(Magnitude(n)), 4) + MpiPayload(n < 0, Magnitude(n))
  {}

  lemma PayloadIs(negative: bool, v: nat)
    ensures var b, m := Bytes(v, CompactSize(v)), MpiPayload(negative, v);
            if v == 0 then b == m == [] else |m| == |b| > 0 && m[0 := m[0] % 128] == b
  {
    hide Bytes, CompactSize, Value;
    SizedBytes(v);
    if v > 0 {
      TopByteFree(v);
      assert MpiPayload(negative, v)[0] % 128 == Bytes(v, CompactSize(v))[0];
    }
  }

  lemma BehindLength(front: seq<byte>, payload: seq<byte>)
    requires |front| == 4
    ensures (front + payload)[4..] == payload
    ensures payload != [] ==> (front + payload)[4] == payload[0]
    ensures payload != [] ==>
      (front + payload)[4 := payload[0] % 128][4..] == payload[0 := payload[0] % 128]
  {}

  lemma NothingRead(vch: seq<byte>)
    ensures Value(vch[|vch|..], 8) == 0
  {}

  lemma BytesRead(vch: seq<byte>, j: nat, i: nat)
    requires j < |vch| && i == |vch| - 1 - j
    ensures Value(vch[j..], 8) == vch[j] * Pow2(8 * i) + Value(vch[j + 1..], 8)
    ensures Value(vch[j + 1..], 8) < Pow2(8 * i)
  {
    assert vch[j..] == [vch[j]] + vch[j + 1..];
    ValueConcat([vch[j]], vch[j + 1..], 8);
    ValueSnoc([], vch[j], 8);
    assert [] + [vch[j] as nat] == [vch[j]];
    WidthIsProduct(8, i);
    BytesInBase(vch[j + 1..]);
    ValueBound(vch[j + 1..], 8);
  }

  lemma ReadEnds(vch: seq<byte>, j: int, i: nat)
    requires i + j == |vch| - 1 && 3 <= j && i <= 32 && (i == 32 || j == 3)
    ensures Value(vch[j + 1..], 8) == Value(vch[4..], 8) % Modulus(8)
  {
    hide Modulus, Pow2, Value;
    ModulusIsPow2(8);
    var rest := vch[j + 1..];
    BytesInBase(rest);
    ValueBound(rest, 8);
    WidthIsProduct(8, i);
    if j == 3 {
      Pow2Monotone(8 * i, 256);
      DivModUnique(Value(rest, 8), Pow2(256), 0, Value(rest, 8));
    } else {
      assert vch[4..] == vch[4..j + 1] + rest;
      ValueConcat(vch[4..j + 1], rest, 8);
      DivModUnique(Value(vch[4..], 8), Pow2(256), Value(vch[4..j + 1], 8), Value(rest, 8));
    }
  }

  /** The raw mantissa fits the word, and the test on it finds its top bit. */
  lemma RawWord(v: nat)
    ensures var n := NumBytes(v);
            var m := if n <= 3 then v * Pow2(8 * (3 - n)) else Shr(v, 8 * (n - 3));
            && Low(m, 32) == m && (And(m, 0x80_0000) != 0 <==> m >= 0x80_0000)
            && Shr(m, 8) < 0x80_0000
  {
    hide Low, Shr, Pow2, And, NumBytes, CompactSize;
    Pow2Known();
    RawMantissa(v);
    var n := NumBytes(v);
    var m := if n <= 3 then v * Pow2(8 * (3 - n)) else Shr(v, 8 * (n - 3));
    Pow2Monotone(24, 32);
    LowOfSmall(m, 32);
    AndTopBit(m, 23);
    ShrBelow(m, 8, 16);
  }

  predicate HasMinus(s: string) {
    At(s, SkipSpaces(s, 0)) == '-'
  }

  /** The position behind spaces, a sign, a prefix and spaces. */
  function BodyStart(s: string): (j: nat)
    ensures j <= |s|
  {
    SkipSpaces(s, SkipPrefix(s, BehindSign(s)))
  }

  function BehindSign(s: string): (i: nat)
    ensures i <= |s|
  {
    var i := SkipSpaces(s, 0);
    if HasMinus(s) then i + 1 else i
  }

  /** The digits SetHex reads. */
  function NumberBody(s: string): string {
    s[BodyStart(s)..BodyStart(s) + HexRun(s, BodyStart(s))]
  }

  lemma NoDigitsYet(body: string)
    ensures HexValue(body[..0]) == 0
  {}

  lemma DigitArrives(s: string, start: nat, body: string, p: nat)
    requires start <= |s| && body == s[start..start + HexRun(s, start)]
    requires start <= p <= start + |body| && IsHexDigit(At(s, p))
    ensures p < |s| && p < start + |body|
    ensures HexValue(body[..p - start + 1]) == HexValue(body[..p - start]) * 16 + DigitValue(s[p])
  {
    hide *;
    NulIsNoDigit();
    var k := p - start;
    InsideString(s, p);
    assert s[start..start + HexRun(s, start)] == body;
    assert body[..k + 1] == body[..k] + [s[p]];
    HexConcat(body[..k], [s[p]]);
    HexSingle(s[p]);
    Pow2Known();
  }

  lemma NumberParts(s: string)
    ensures HasMinus(s) <==> At(s, SkipSpaces(s, 0)) == '-'
    ensures BehindSign(s) == SkipSpaces(s, 0) + if HasMinus(s) then 1 else 0
    ensures BodyStart(s) == SkipSpaces(s, SkipPrefix(s, BehindSign(s)))
    ensures NumberBody(s) == s[BodyStart(s)..BodyStart(s) + HexRun(s, BodyStart(s))]
  {
    hide HexRun, SkipPrefix, SkipSpaces, At;
  }

  lemma SignedIs(negative: bool, v: nat)
    ensures Signed(negative, v) == if negative then 0 - v else v
  {}

  lemma InsideString(s: string, p: nat)
    ensures At(s, p) == if p < |s| then s[p] else 0 as char
  {}

  lemma RunIsOver(s: string, start: nat, body: string, p: nat)
    requires start <= |s| && body == s[start..start + HexRun(s, start)]
    requires start <= p <= start + |body| && !IsHexDigit(At(s, p))
    ensures body[..p - start] == body
  {
    assert forall k :: 0 <= k < |body| ==> IsHexDigit(body[k]) && body[k] == s[start + k];
  }

  function Reversed(s: string): (r: string)
    ensures |r| == |s|
  {
    if s == [] then [] else Reversed(s[1..]) + [s[0]]
  }

  lemma {:induction false} ReversedSnoc(s: string, c: char)
    ensures Reversed(s + [c]) == [c] + Reversed(s)
  {
    if s != [] {
      assert (s + [c])[1..] == s[1..] + [c];
      ReversedSnoc(s[1..], c);
    }
  }

  lemma SmallerDigits(v: nat, base: nat)
    requires base >= 2 && v > 0
    ensures 0 <= v / base < v && 0 <= v % base < base
  {
    var q, r := v / base, v % base;
    assert v == q * base + r;
    MulMonotone(2, base, q);
  }

  lemma NoText(base: nat)
    requires 2 <= base <= 16
    ensures BaseText(0, base) == []
  {}

  lemma LastDigit(v: nat, base: nat)
    requires 2 <= base <= 16 && v > 0
    ensures 0 <= v / base && 0 <= v % base < 16
    ensures BaseText(v, base) == BaseText(v / base, base) + [LowerDigit(v % base)]
  {
    SmallerDigits(v, base);
  }

  /** The digits of v, without leading zeros. */
  function BaseText(v: nat, base: nat): string
    requires 2 <= base <= 16
  {
    if v == 0 then []
    else
      SmallerDigits(v, base);
      BaseText(v / base, base) + [LowerDigit(v % base)]
  }

  function NumberText(n: int, base: nat): string
    requires 2 <= base <= 16
  {
    if n == 0 then "0"
    else (if n < 0 then ['-'] else []) + BaseText(Magnitude(n), base)
  }

  lemma Pow64()
    ensures Pow2(64) == 0x1_0000_0000_0000_0000
  {
    Pow2Known();
    Pow2Add(32, 32);
  }

  lemma StartWord(start: nat)
    requires start < Pow2(64)
    ensures start == Low(Shl(start, 0), 64) && Shr(start, 64) == 0
  {
    hide Low, Shr, Pow2;
    NoShift(start);
    LowOfSmall(start, 64);
  }

  lemma StartBuffer(buffer: seq<byte>, negative: bool)
    requires |buffer| >= 4
    ensures Writing(buffer, 4, negative, 0)
  {}

  // ---- round trips ----

  /** What SetCompact makes of what GetCompact returns for n. */
  function Recoded(n: int): int {
    var (m, size) := Encode(Magnitude(n));
    var word := Word(m, size, n < 0);
    Signed(And(word, 0x80_0000) != 0, TargetOf(word))
  }

  /** The compact form gives the number back, rounded towards zero, exactly when its
      size fits the eight bits there are for it. */
  lemma RecodedExactly(n: int)
    ensures Recoded(n) == Signed(n < 0, Rounded(Magnitude(n))) <==> CompactSize(Magnitude(n)) <= 255
  {
    hide Low, Shr, Pow2, And, Word, NumBytes, CompactSize, Rounded, Encode;
    var v := Magnitude(n);
    var (m, size) := Encode(v);
    EncodeMeans(v);
    WordParts(m, size, n < 0);
    SizeIsByte(size);
    if size >= 256 {
      SizeRange(v, size);
      PowPositive(8 * (size - 3) + 15);
      RoundedClose(v);
      ScaledGrows(m, size);
    }
  }

  lemma SizeIsByte(size: nat)
    ensures size <= 255 ==> size % 256 == size
    ensures size >= 256 ==> size % 256 <= 255
  {}

  /** A mantissa at a wrapped size denotes less than at the size meant. */
  lemma ScaledGrows(m: nat, size: nat)
    requires size >= 256 && Scaled(m, size) > 0
    ensures Scaled(m, size % 256) < Scaled(m, size)
  {
    hide Low, Shr, Pow2;
    var s := size % 256;
    SizeIsByte(size);
    if s <= 3 {
      ShrLow(m, 8 * (3 - s));
      AtMost(Shr(m, 8 * (3 - s)), Pow2(8 * (3 - s)));
      TwiceAtLeast(m, 8 * (size - 3));
    } else {
      Pow2Add(8 * (s - 3), 8 * (size - s));
      Associate(m, Pow2(8 * (s - 3)), Pow2(8 * (size - s)));
      TwiceAtLeast(m * Pow2(8 * (s - 3)), 8 * (size - s));
    }
  }

  lemma TwiceAtLeast(m: nat, q: nat)
    requires q > 0
    ensures 2 * m <= m * Pow2(q)
  {
    Pow2Monotone(1, q);
    MulMonotone(2, Pow2(q), m);
  }

  /** What the compact form keeps of a non-negative number whose size fits: it loses
      less than one part in 2^15, keeps the order, and loses nothing more when the
      result is encoded again. */
  lemma RecodedLosesLittle(u: nat, v: nat)
    requires u <= v && CompactSize(v) <= 255
    ensures 0 <= Recoded(v) <= v && (v > 0 ==> (v - Recoded(v)) * 0x8000 < v)
    ensures Recoded(u) <= Recoded(v)
    ensures Encode(Recoded(v)) == Encode(v)
  {
    hide Low, Shr, Pow2, And, Word, NumBytes, CompactSize, Rounded, Encode, Recoded;
    SizeMonotone(u, v);
    RecodedExactly(u);
    RecodedExactly(v);
    RoundedClose(v);
    RoundedMonotone(u, v);
    EncodeRounded(v);
  }

  lemma SizeMonotone(u: nat, v: nat)
    requires u <= v
    ensures CompactSize(u) <= CompactSize(v)
  {
    NumBytesMonotone(2 * u, 2 * v);
  }

  lemma EncodeRounded(v: nat)
    ensures Encode(Rounded(v)) == Encode(v)
  {
    hide Low, Shr, Pow2, NumBytes, CompactSize, Encode;
    RoundedStable(v);
    EncodeMeans(v);
    EncodeMeans(Rounded(v));
    if CompactSize(v) <= 3 {
      NoShift(v);
    } else {
      SameProduct(Encode(v).0, Encode(Rounded(v)).0, 8 * (CompactSize(v) - 3));
    }
  }

  lemma SameProduct(a: nat, b: nat, q: nat)
    requires a * Pow2(q) == b * Pow2(q)
    ensures a == b
  {
    Fields(a, q, 0);
    Fields(b, q, 0);
  }

  /** SetCompact agrees with the uint256 decoder of targets exactly when the target fits
      256 bits and is not negative: its sign bit is clear or it is zero. */
  lemma SetCompactAgrees(nCompact: nat)
    ensures Signed(And(nCompact, 0x80_0000) != 0, TargetOf(nCompact)) == TargetOf(nCompact) % Modulus(8)
       <==> TargetOf(nCompact) < Pow2(256) && (And(nCompact, 0x80_0000) == 0 || TargetOf(nCompact) == 0)
    ensures Shr(nCompact, 24) <= 32 ==> TargetOf(nCompact) < Pow2(256)
  {
    hide Low, Shr, Pow2, And, Modulus, TargetOf;
    DecodersAgree(nCompact);
    Pow2Monotone(255, 256);
    ModulusIsPow2(8);
    ModBelow(TargetOf(nCompact), Modulus(8));
  }

  /** The number the digits of a text denote in a base. */
  function TextValue(s: string, base: nat): nat {
    if s == [] then 0 else TextValue(s[..|s| - 1], base) * base + DigitValue(s[|s| - 1])
  }

  /** In every base the digits ToString writes are digits of that base, denote the
      magnitude and do not begin with 0. */
  lemma {:induction false} BaseTextDenotes(v: nat, base: nat)
    requires 2 <= base <= 16
    ensures TextValue(BaseText(v, base), base) == v
    ensures forall i :: 0 <= i < |BaseText(v, base)| ==>
      IsHexDigit(BaseText(v, base)[i]) && DigitValue(BaseText(v, base)[i]) < base
    ensures v > 0 ==> BaseText(v, base) != [] && DigitValue(BaseText(v, base)[0]) != 0
  {
    hide DigitValue, IsHexDigit, LowerDigit, BaseText;
    if v == 0 {
      NoText(base);
    } else {
      SmallerDigits(v, base);
      LastDigit(v, base);
      var q: nat, r: nat := v / base, v % base;
      var text := BaseText(q, base);
      BaseTextDenotes(q, base);
      assert (text + [LowerDigit(r)])[..|text|] == text;
      if q == 0 {
        NoText(base);
      }
    }
  }

  /** The digits ToString writes are hex digits of the number, without a leading 0. */
  lemma {:induction false} BaseTextValue(v: nat)
    ensures AllHex(BaseText(v, 16)) && HexValue(BaseText(v, 16)) == v
    ensures BaseText(v, 16) == [] <==> v == 0
  {
    hide LowerDigit, HexValue, Pow2;
    if v == 0 {
      EmptyHex(0);
    } else {
      SmallerDigits(v, 16);
      BaseTextValue(v / 16);
      HexConcat(BaseText(v / 16, 16), [LowerDigit(v % 16)]);
      HexSingle(LowerDigit(v % 16));
      Pow2Known();
    }
  }

  /** SetHex reads back the number that GetHex printed, whatever its sign. */
  lemma HexTextRoundTrip(n: int)
    ensures var s := NumberText(n, 16); Signed(HasMinus(s), HexValue(NumberBody(s))) == n
  {
    hide HexValue, BaseText, HexRun, HasMinus, NumberBody;
    var v := Magnitude(n);
    BaseTextValue(v);
    HexSingle('0');
    var body := if n == 0 then "0" else BaseText(v, 16);
    assert NumberText(n, 16) == (if n < 0 then ['-'] else []) + body;
    SignAndBody(n < 0, body);
  }

  /** Behind spaces, an optional minus sign, an optional prefix and, if one of the two is
      there, more spaces, SetHex reads exactly the digits. */
  lemma NumberBodyReads(spaces: string, negative: bool, prefix: string, more: string, digits: string, rest: string)
    requires AllSpace(spaces) && IsPrefix(prefix) && AllSpace(more)
    requires negative || prefix != "" || more == []
    requires digits != [] && AllHex(digits) && !IsHexDigit(At(rest, 0))
    requires digits == "0" ==> At(rest, 0) != 'x' && At(rest, 0) != 'X'
    ensures var s := spaces + ((if negative then "-" else "") + (prefix + (more + (digits + rest))));
            HasMinus(s) == negative && NumberBody(s) == digits
  {
    hide HexRun, SkipSpaces, SkipPrefix, HasMinus, NumberBody, BodyStart, BehindSign, AllHex, AllSpace, IsHexDigit,
         IsSpace;
    var sign := if negative then "-" else "";
    var s := spaces + (sign + (prefix + (more + (digits + rest))));
    FirstDigit(digits, rest);
    SignIsThere(spaces, negative, prefix, more, digits + rest);
    DigitsBehindSign(s, |spaces| + |sign|, prefix, more, digits, rest);
  }

  lemma DigitsBehindSign(s: string, b: nat, prefix: string, more: string, digits: string, rest: string)
    requires b == BehindSign(s) && s[b..] == prefix + (more + (digits + rest))
    requires IsPrefix(prefix) && AllSpace(more)
    requires digits != [] && AllHex(digits) && !IsHexDigit(At(rest, 0))
    requires digits == "0" ==> At(rest, 0) != 'x' && At(rest, 0) != 'X'
    ensures NumberBody(s) == digits
  {
    hide HexRun, SkipSpaces, SkipPrefix, HasMinus, NumberBody, BodyStart, BehindSign, AllHex, AllSpace, IsHexDigit,
         IsSpace, IsPrefix, At;
    var tail := digits + rest;
    FirstDigit(digits, rest);
    SpaceOrDigit(more, tail);
    assert s[b..] == prefix + (more + tail);
    SkipsPrefix(s, b, prefix, more + tail);
    SkipsSpaces(s, b + |prefix|, more, tail);
    ReadsDigits(s, b + |prefix| + |more|, digits, rest);
    NumberParts(s);
  }

  lemma SignIsThere(spaces: string, negative: bool, prefix: string, more: string, tail: string)
    requires AllSpace(spaces) && IsPrefix(prefix) && (negative || prefix != "" || more == [])
    requires tail != [] && !IsSpace(tail[0]) && tail[0] != '-'
    ensures var sign := if negative then "-" else "";
      var s := spaces + (sign + (prefix + (more + tail)));
      && HasMinus(s) == negative && BehindSign(s) == |spaces| + |sign| <= |s|
      && s[|spaces| + |sign|..] == prefix + (more + tail)
  {
    hide SkipSpaces, AllSpace, IsSpace;
    var sign := if negative then "-" else "";
    var body := prefix + (more + tail);
    var s := spaces + (sign + body);
    ZeroIsNoSpace();
    assert prefix == [] && more == [] ==> body == tail;
    assert prefix != [] ==> body[0] == '0';
    assert negative ==> (sign + body)[0] == '-';
    assert !negative ==> sign + body == body;
    SkipsSpaces(s, 0, spaces, sign + body);
    assert s[|spaces|..] == sign + body && s[|spaces|] == (sign + body)[0];
    assert s[|spaces| + |sign|..] == (sign + body)[|sign|..] == body;
  }

  lemma SpaceOrDigit(more: string, tail: string)
    requires AllSpace(more) && tail != []
    requires tail[0] == '0' ==> At(tail, 1) != 'x' && At(tail, 1) != 'X'
    ensures (more + tail)[0] == '0' ==> At(more + tail, 1) != 'x' && At(more + tail, 1) != 'X'
  {
    assert more != [] ==> (more + tail)[0] == more[0];
  }

  /** Hex digits behind an optional sign are read to the end. */
  lemma SignAndBody(negative: bool, body: string)
    requires body != [] && AllHex(body)
    ensures var s := (if negative then ['-'] else []) + body;
            HasMinus(s) == negative && NumberBody(s) == body
  {
    hide HexRun, SkipSpaces, SkipPrefix, HasMinus, NumberBody, BodyStart, BehindSign, AllHex;
    var s := (if negative then ['-'] else []) + body;
    var sign := if negative then 1 else 0;
    assert s[sign] == body[0] && s[sign..] == body;
    FirstDigits(body);
    SkipSpacesAt(s, 0, 0);
    SkipSpacesAt(s, sign, sign);
    assert |body| > 1 ==> s[sign + 1] == body[1];
    NoPrefix(s, sign);
    NumberParts(s);
    RunInside(s, sign, body);
  }

  lemma FirstDigits(body: string)
    requires body != [] && AllHex(body)
    ensures IsHexDigit(body[0]) && (|body| > 1 ==> IsHexDigit(body[1]))
  {}

  lemma NoPrefix(s: string, i: nat)
    requires i < |s| && (i + 1 < |s| ==> IsHexDigit(s[i + 1]))
    ensures SkipPrefix(s, i) == i
  {}

  lemma RunInside(s: string, i: nat, body: string)
    requires i <= |s| && s[i..] == body && AllHex(body)
    ensures s[i..i + HexRun(s, i)] == body
  {
    assert forall k :: 0 <= k < |body| ==> body[k] == s[i + k];
    assert !IsHexDigit(At(s, i + HexRun(s, i)));
  }
}
