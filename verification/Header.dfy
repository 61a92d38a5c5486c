/** Block headers: the bytes the pool hashes, and the fields of mining.notify that
    the miner builds the same bytes from (src/zcashpool.cpp:13-31,332-342,524-548,
    src/block.h:6-22; ZIP 301). */
module Header {
  import opened Arithmetic
  import opened Digits
  import opened Hex
  import opened Limbs
  import opened BaseUint

  /** CBlockHeader. Hashes are the numbers their uint256 objects hold. */
  datatype BlockHeader = BlockHeader(prev: nat, merkle: nat, reserved: nat, time: nat, bits: nat, nonce: seq<byte>) {
    /** header.data as it lies in memory; the version is 4. */
    function Data(): (s: seq<byte>)
      ensures |s| == 108
    {
      Image(4, 4) + Image(prev, 32) + Image(merkle, 32) + Image(reserved, 32) + Image(time, 4) + Image(bits, 4)
    }
  }

  /** The bytes of writeCompactSize that are hashed: none above 2^32 - 1, where it
      returns 0. */
  function CompactSizeBytes(size: nat): seq<byte> {
    if size < 253 then [size]
    else if size <= 0xFFFF then [253] + Image(size, 2)
    else if size <= 0xFFFF_FFFF then [254] + Image(size, 4)
    else []
  }

  /** The reader of the Bitcoin protocol: the size a byte string begins with, and how
      many bytes hold it. */
  function ReadCompactSize(s: seq<byte>): (nat, nat)
    requires s != []
  {
    if s[0] == 253 && |s| >= 3 then (s[1] as int + 256 * (s[2] as int), 3)
    else if s[0] == 254 && |s| >= 5 then
      (s[1] as int + 256 * (s[2] as int) + 0x1_0000 * (s[3] as int) + 0x100_0000 * (s[4] as int), 5)
    else (s[0], 1)
  }

  /** Every size below 2^32 is read back from its bytes, whatever follows, and has the
      shortest form. */
  lemma CompactSizeReadsBack(size: nat, rest: seq<byte>)
    requires size < UINT_RANGE
    ensures CompactSizeBytes(size) != []
    ensures ReadCompactSize(CompactSizeBytes(size) + rest) == (size, |CompactSizeBytes(size)|)
    ensures |CompactSizeBytes(size)| == if size < 253 then 1 else if size < 0x1_0000 then 3 else 5
  {
    hide Image, ReadCompactSize;
    var bytes := CompactSizeBytes(size);
    LowBytes(size);
    if size < 253 {
      ReadsOne(size, bytes + rest);
    } else if size < 0x1_0000 {
      assert bytes == [253, size % 256, size / 256];
      ReadsTwo(size, bytes + rest);
    } else {
      assert bytes == [254, size % 256, size / 256 % 256, size / 0x1_0000 % 256, size / 0x100_0000];
      ReadsFour(size, bytes + rest);
    }
  }

  lemma ReadsOne(size: nat, s: seq<byte>)
    requires s != [] && s[0] == size < 253
    ensures ReadCompactSize(s) == (size, 1)
  {}

  lemma ReadsTwo(size: nat, s: seq<byte>)
    requires |s| >= 3 && s[0] == 253 && s[1] == size % 256 && s[2] == size / 256
    ensures ReadCompactSize(s) == (size, 3)
  {}

  lemma ReadsFour(size: nat, s: seq<byte>)
    requires |s| >= 5 && s[0] == 254 && s[1] == size % 256 && s[2] == size / 256 % 256
    requires s[3] == size / 0x1_0000 % 256 && s[4] == size / 0x100_0000
    ensures ReadCompactSize(s) == (size, 5)
  {
    FourBytes(size);
  }

  lemma FourBytes(v: nat)
    ensures v % 256 + 256 * (v / 256 % 256) + 0x1_0000 * (v / 0x1_0000 % 256) + 0x100_0000 * (v / 0x100_0000) == v
  {
    var a := v / 256;
    var b := a / 256;
    DivModUnique(v, 0x1_0000, b, 256 * (a % 256) + v % 256);
    var c := b / 256;
    DivModUnique(v, 0x100_0000, c, 0x1_0000 * (b % 256) + 256 * (a % 256) + v % 256);
  }

  /** The memory images of 16 and 32 bits, written out. */
  lemma LowBytes(v: nat)
    ensures v < 0x1_0000 ==> Image(v, 2) == [v % 256, v / 256]
    ensures v < UINT_RANGE ==>
      Image(v, 4) == [v % 256, v / 256 % 256, v / 0x1_0000 % 256, v / 0x100_0000]
  {
    hide Low, Shr, Pow2;
    Pow2Known();
    NoShift(v);
    forall i: nat | i < 4
      ensures ByteAt(v, i) == Shr(v, 8 * i) % 256
    {
      ShrIsDiv(Shr(v, 8 * i), 8);
    }
    ShrIsDiv(v, 8);
    ShrIsDiv(v, 16);
    ShrIsDiv(v, 24);
  }

  function Hashed(h: BlockHeader, proof: seq<byte>): seq<byte> {
    h.Data() + h.nonce + CompactSizeBytes(|proof|) + proof
  }

  /** uint256::SetHex */
  function ParseHash(s: string): nat {
    HexValue(HexBody(s)) % Modulus(8)
  }

  method SetHash(s: string) returns (v: nat)
    ensures v == ParseHash(s)
  {
    var x := new BaseUint(8);
    x.SetHex(s);
    v := x.Value();
  }

  predicate IsHash(s: string) { |s| == 64 && AllHex(s) }

  /** stratumLittleEndianHex */
  function WireHex(s: string): string { SwapPairs(s[|s| % 2..]) }

  // ---- the notification of a job ----

  datatype Notify = Notify(height: nat, extraNonce: int, version: string, prevHash: string,
                           merkle: string, reserved: string, time: string, bits: string)

  /** What a miner decodes from the fields, and the time it has chosen. */
  function DecodedFields(n: Notify, time: seq<byte>): seq<byte> {
    Decode(n.version) + Decode(n.prevHash) + Decode(n.merkle) + Decode(n.reserved) + time + Decode(n.bits)
  }

  predicate Decodable(n: Notify) {
    IsHexString(n.version) && IsHexString(n.prevHash) && IsHexString(n.merkle)
    && IsHexString(n.reserved) && IsHexString(n.bits)
  }

  /** For 64 hex digits h, the little-endian hex of h decodes to the memory image of
      SetHex(h). */
  lemma WireAgreement(h: string)
    requires IsHash(h)
    ensures IsHexString(WireHex(h)) && Decode(WireHex(h)) == Image(ParseHash(h), 32)
  {
    assert h[0..] == h;
    DecodeSwapped(h);
    RunOfHex(WireHex(h));
    ParseDigits(h);
  }

  lemma ParseDigits(h: string)
    requires IsHash(h)
    ensures ParseHash(h) == HexValue(h)
  {
    hide HexValue, Modulus, Pow2;
    assert IsHexDigit(h[0]) && IsHexDigit(h[1]);
    SkipSpacesAt(h, 0, 0);
    RunOfHex(h);
    assert HexBody(h) == h;
    HexBound(h);
    ModulusIsPow2(8);
    DivModUnique(HexValue(h), Modulus(8), 0, HexValue(h));
  }

  /** Among strings of an even number of characters, none of them NUL, exactly the
      64-digit ones are sent so that the miner's decoding agrees with SetHex. */
  lemma WireAgreesExactly(h: string)
    requires |h| % 2 == 0 && 0 as char !in h
    ensures IsHexString(WireHex(h)) && Decode(WireHex(h)) == Image(ParseHash(h), 32) <==> IsHash(h)
  {
    hide ParseHash, Image, Decode, DigitValue;
    if IsHash(h) {
      WireAgreement(h);
    } else if IsHexString(WireHex(h)) {
      assert h[0..] == h;
      OnlyHexIsSent(h);
    }
  }

  lemma OnlyHexIsSent(h: string)
    requires |h| % 2 == 0 && 0 as char !in h && IsHexString(SwapPairs(h))
    ensures AllHex(h)
  {
    SwapKeepsChars(h);
    var t := SwapPairs(h);
    assert 0 as char !in t;
    ReadToTheEnd(t);
    hide IsHexString, SwapPairs, IsHexDigit;
    assert forall i :: 0 <= i < |h| ==> h[i] in t;
  }

  lemma ReadToTheEnd(t: string)
    requires IsHexString(t) && 0 as char !in t
    ensures AllHex(t)
  {
    hide IsHexDigit;
    assert HexRun(t, 0) == |t|;
    assert t[0..HexRun(t, 0)] == t;
  }

  lemma {:induction false} SwapKeepsChars(s: string)
    requires |s| % 2 == 0
    ensures forall c :: c in s <==> c in SwapPairs(s)
  {
    if s != [] {
      SwapKeepsChars(s[2..]);
      assert s == s[..2] + s[2..];
    }
  }

  lemma BitsAgreement(v: nat)
    ensures IsHexString(DumpHex(v, 4)) && Decode(DumpHex(v, 4)) == Image(v, 4)
  {
    DecodeDumped(v, 4);
    RunOfHex(DumpHex(v, 4));
  }

  lemma VersionAgreement()
    ensures IsHexString("04000000") && Decode("04000000") == Image(4, 4)
  {
    hide IsHexString, Decode, Image, DigitValue, HexRun;
    RunOfHex("04000000");
    DecodeConcat("04", "000000");
    assert "04000000" == "04" + "000000";
    FirstByte();
    OtherBytes();
  }

  lemma FirstByte()
    ensures Decode("04") == [4] && Image(4, 4) == [4] + Image(0, 3)
  {
    assert Decode("04") == [4] + Decode("04"[2..]);
    hide Low, Shr, Decode;
    ImageStep(4, 4);
    LowOfSmall(4, 8) by { Pow2Known(); }
  }

  lemma OtherBytes()
    ensures Decode("000000") == [0, 0, 0] == Image(0, 3)
  {
    DecodeConcat("00", "0000");
    DecodeConcat("00", "00");
    assert Decode("00") == [0];
    hide Decode, Low, Shr;
    assert "000000" == "00" + "0000" && "0000" == "00" + "00";
    LowOfSmall(0, 8) by { PowPositive(8); }
  }

  /** A header whose fields come from the strings of a notification agrees with what
      the miner decodes. */
  lemma HeaderAgreement(n: Notify, h: BlockHeader, prev: string, merkle: string, reserved: string)
    requires IsHash(prev) && IsHash(merkle) && IsHash(reserved)
    requires n.version == "04000000" && n.prevHash == WireHex(prev) && n.merkle == WireHex(merkle)
    requires n.reserved == WireHex(reserved) && n.bits == DumpHex(h.bits, 4)
    requires h.prev == ParseHash(prev) && h.merkle == ParseHash(merkle) && h.reserved == ParseHash(reserved)
    ensures Decodable(n) && DecodedFields(n, Image(h.time, 4)) == h.Data()
  {
    hide Image, Decode, WireHex, DumpHex, ParseHash, IsHexString, IsHash;
    VersionAgreement();
    WireAgreement(prev);
    WireAgreement(merkle);
    WireAgreement(reserved);
    BitsAgreement(h.bits);
  }

  /** The fields fit their types. */
  predicate FieldsFit(h: BlockHeader) {
    && h.prev < Pow2(256) && h.merkle < Pow2(256) && h.reserved < Pow2(256)
    && h.time < UINT_RANGE && h.bits < UINT_RANGE
  }

  /** Who hashes the same bytes means the same fields. */
  lemma DataDeterminesFields(h: BlockHeader, k: BlockHeader)
    requires FieldsFit(h) && FieldsFit(k)
    ensures h.Data() == k.Data() <==>
      && h.prev == k.prev && h.merkle == k.merkle && h.reserved == k.reserved
      && h.time == k.time && h.bits == k.bits
  {
    hide Image, Pow2;
    if h.Data() == k.Data() {
      DataParts(h);
      DataParts(k);
      Pow2Known();
      ImageInjective(h.prev, k.prev, 32);
      ImageInjective(h.merkle, k.merkle, 32);
      ImageInjective(h.reserved, k.reserved, 32);
      ImageInjective(h.time, k.time, 4);
      ImageInjective(h.bits, k.bits, 4);
    }
  }

  lemma DataParts(h: BlockHeader)
    ensures var d := h.Data();
      && d[4..36] == Image(h.prev, 32) && d[36..68] == Image(h.merkle, 32) && d[68..100] == Image(h.reserved, 32)
      && d[100..104] == Image(h.time, 4) && d[104..108] == Image(h.bits, 4)
  {
    hide Image;
  }

  /** When the first three bytes of a submitted solution are its compact size, the
      pool hashes the solution as it was sent. */
  lemma SolutionAsSent(h: BlockHeader, solution: seq<byte>)
    requires |solution| >= 3
    ensures Hashed(h, solution[3..]) == h.Data() + h.nonce + solution
            <==> solution[..3] == CompactSizeBytes(|solution| - 3)
  {
    hide Image;
    var prefix := CompactSizeBytes(|solution| - 3);
    var front := h.Data() + h.nonce;
    assert solution == solution[..3] + solution[3..];
    if Hashed(h, solution[3..]) == front + solution {
      assert |prefix| == 3;
      assert (front + solution)[|front|..][..3] == solution[..3];
      assert Hashed(h, solution[3..])[|front|..][..3] == prefix;
    }
  }
}
