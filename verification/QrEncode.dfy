/** From the segments to data codewords. */
module QrEncode {
  // Choice of version and level, terminator, padding and packing. ISO/IEC 18004:2015, section 7.4.

  import opened Outcomes
  import opened Bits
  import opened Gf256
  import opened QrBitBuffer
  import opened QrSegments
  import opened QrSegmentReader
  import opened QrTables
  import opened QrTableChecks

  // ---- the size of the stream ----

  predicate CountsFit(segs: seq<Segment>, ver: int)
    requires IsVersion(ver)
  {
    forall i :: 0 <= i < |segs| ==> CountFits(segs[i], ver)
  }

  lemma {:induction false} StreamBitsConcat(a: seq<Segment>, b: seq<Segment>, ver: int)
    requires IsVersion(ver)
    ensures StreamBits(a + b, ver) == StreamBits(a, ver) + StreamBits(b, ver)
  {
    hide SegmentBits;
    if a == [] {
      assert a + b == b;
    } else {
      StreamBitsConcat(a[1..], b, ver);
      assert (a + b)[1..] == a[1..] + b;
    }
  }

  lemma StreamBitsAppend(segs: seq<Segment>, i: nat, ver: int)
    requires IsVersion(ver) && i < |segs|
    ensures |SegmentBits(segs[i], ver)| == 4 + segs[i].mode.CharCountBits(ver) + |segs[i].data|
    ensures StreamBits(segs[..i + 1], ver) == StreamBits(segs[..i], ver) + SegmentBits(segs[i], ver)
    ensures |StreamBits(segs[..i + 1], ver)| <= |StreamBits(segs, ver)|
  {
    assert segs[..i] + [segs[i]] == segs[..i + 1];
    assert [segs[i]][1..] == [];
    assert StreamBits([segs[i]], ver) == SegmentBits(segs[i], ver);
    StreamBitsConcat(segs[..i], [segs[i]], ver);
    assert segs[..i + 1] + segs[i + 1..] == segs;
    StreamBitsConcat(segs[..i + 1], segs[i + 1..], ver);
  }

  /** The number of bits of the stream, or -1 when a count does not fit its field or the sum
      does not fit an `int`. */
  method GetTotalBits(segs: seq<Segment>, version: int) returns (result: int)
    requires IsVersion(version)
    ensures result == if CountsFit(segs, version) && |StreamBits(segs, version)| <= INT_MAX
                      then |StreamBits(segs, version)| else -1
  {
    hide StreamBits, SegmentBits, Pow2;
    result := 0;
    NoStream(version);
    for i := 0 to |segs|
      invariant CountsFit(segs[..i], version)
      invariant result == |StreamBits(segs[..i], version)| <= INT_MAX
    {
      var seg := segs[i];
      var ccbits := seg.mode.CharCountBits(version);
      StreamBitsAppend(segs, i, version);
      if seg.numChars >= Pow2(ccbits) {
        return -1;
      }
      if 4 + ccbits > INT_MAX - result {
        return -1;
      }
      result := result + (4 + ccbits);
      if |seg.data| > INT_MAX - result {
        return -1;
      }
      result := result + |seg.data|;
    }
    assert segs[..|segs|] == segs;
  }

  lemma NoStream(ver: int)
    requires IsVersion(ver)
    ensures StreamBits([], ver) == []
  {
  }

  // ---- version and level ----

  /** Whether the segments can be stored in a symbol of this version and level. */
  predicate Fits(segs: seq<Segment>, ver: int, ecl: Ecl)
    requires IsVersion(ver)
  {
    && CountsFit(segs, ver)
    && |StreamBits(segs, ver)| <= INT_MAX
    && |StreamBits(segs, ver)| <= 8 * NumDataCodewords(ver, ecl)
  }

  /** The smallest version of the range that fits. */
  method ChooseVersion(segs: seq<Segment>, ecl: Ecl, minVersion: int, maxVersion: int) returns (r: Result<int>)
    requires MIN_VERSION <= minVersion <= maxVersion <= MAX_VERSION
    ensures r.Ok? ==> minVersion <= r.value <= maxVersion && Fits(segs, r.value, ecl)
    ensures r.Ok? ==> forall v :: minVersion <= v < r.value ==> !Fits(segs, v, ecl)
    ensures r.Err? ==> r.error == DataTooLong && forall v :: minVersion <= v <= maxVersion ==> !Fits(segs, v, ecl)
  {
    hide StreamBits, CountsFit, NumDataCodewords;
    var version := minVersion;
    while true
      invariant minVersion <= version <= maxVersion
      invariant forall v :: minVersion <= v < version ==> !Fits(segs, v, ecl)
      decreases maxVersion - version
    {
      var dataCapacityBits := NumDataCodewords(version, ecl) * 8;
      var dataUsedBits := GetTotalBits(segs, version);
      if dataUsedBits != -1 && dataUsedBits <= dataCapacityBits {
        return Ok(version);
      }
      if version >= maxVersion {
        return Err(DataTooLong);
      }
      version := version + 1;
    }
  }

  /** Raises the level as far as the data still fit. */
  method BoostLevel(segs: seq<Segment>, version: int, ecl: Ecl, boostEcl: bool) returns (e: Ecl)
    requires IsVersion(version) && Fits(segs, version, ecl)
    ensures Fits(segs, version, e)
    ensures e.Rank() >= ecl.Rank()
    ensures !boostEcl ==> e == ecl
    ensures boostEcl ==> forall higher: Ecl :: higher.Rank() > e.Rank() ==> !Fits(segs, version, higher)
  {
    hide StreamBits, CountsFit, NumDataCodewords;
    var dataUsedBits := GetTotalBits(segs, version);
    e := ecl;
    var levels := [Medium, Quartile, High];
    for i := 0 to 3
      invariant Fits(segs, version, e)
      invariant !boostEcl ==> e == ecl
      invariant e == ecl || e.Rank() <= i
      invariant boostEcl && 1 <= ecl.Rank() <= i ==> e.Rank() >= ecl.Rank()
      invariant boostEcl ==> forall tried: Ecl ::
        ecl.Rank() < tried.Rank() <= i && Fits(segs, version, tried) ==> e.Rank() >= tried.Rank()
    {
      var newEcl := levels[i];
      if boostEcl && dataUsedBits <= NumDataCodewords(version, newEcl) * 8 {
        e := newEcl;
      }
    }
  }

  // ---- terminator, padding, packing ----

  function PadByte(i: nat): Byte {
    if i % 2 == 0 then 0xEC else 0x11
  }

  /** The pad codewords 11101100 and 00010001, alternating. */
  function PadBytes(n: nat): seq<Byte> {
    seq(n, (i: nat) => PadByte(i))
  }

  // The number of zero bits after the stream: the terminator and the rest of its byte.
  function ZeroBits(used: nat, capacity: nat): nat
    requires used <= capacity && capacity % 8 == 0
  {
    var terminated := used + if capacity - used < 4 then capacity - used else 4;
    terminated - used + (8 - terminated % 8) % 8
  }

  lemma ZeroBitsFit(used: nat, capacity: nat)
    requires used <= capacity && capacity % 8 == 0
    ensures used + ZeroBits(used, capacity) <= capacity
    ensures (used + ZeroBits(used, capacity)) % 8 == 0
    ensures ZeroBits(used, capacity) >= 4 || ZeroBits(used, capacity) == capacity - used
  {
    var left := capacity - used;
    var terminated := used + if left < 4 then left else 4;
    assert capacity == 8 * (capacity / 8) && terminated == 8 * (terminated / 8) + terminated % 8;
  }

  /** The stream, terminator and padding: exactly `capacity` bits. */
  function PaddedBits(stream: seq<bool>, capacity: nat): (bits: seq<bool>)
    requires |stream| <= capacity && capacity % 8 == 0
    ensures |bits| == capacity
  {
    PaddedLength(|stream|, capacity);
    var zeros := ZeroBits(|stream|, capacity);
    stream + BitsOf(0, zeros) + ByteBits(PadBytes((capacity - |stream| - zeros) / 8))
  }

  lemma PaddedLength(used: nat, capacity: nat)
    requires used <= capacity && capacity % 8 == 0
    ensures var zeros := ZeroBits(used, capacity);
            && used + zeros <= capacity
            && used + |BitsOf(0, zeros)| + |ByteBits(PadBytes((capacity - used - zeros) / 8))| == capacity
  {
    hide BitsOf, ByteBits, PadBytes;
    ZeroBitsFit(used, capacity);
    var zeros := ZeroBits(used, capacity);
    var count := (capacity - used - zeros) / 8;
    PadBytesLength(count);
    ByteBitsLength(PadBytes(count));
    hide ZeroBits;
    assert 8 * count == capacity - used - zeros;
  }

  lemma PadBytesLength(n: nat)
    ensures |PadBytes(n)| == n
  {
  }

  lemma {:induction false} ByteBitsLength(data: seq<Byte>)
    ensures |ByteBits(data)| == 8 * |data|
  {
    if data != [] {
      ByteBitsLength(data[..|data| - 1]);
    }
  }

  lemma {:induction false} ZerosConcat(m: nat, n: nat)
    ensures BitsOf(0, m + n) == BitsOf(0, m) + BitsOf(0, n)
  {
    if n != 0 {
      ZerosConcat(m, n - 1);
    }
  }

  lemma PadBytesAppend(n: nat)
    ensures ByteBits(PadBytes(n + 1)) == ByteBits(PadBytes(n)) + BitsOf(PadByte(n), 8)
  {
    hide BitsOf, PadByte;
    assert PadBytes(n + 1)[..n] == PadBytes(n);
  }

  // The toggle of the padding loop.
  lemma PadByteToggle(n: nat)
    ensures Xor(PadByte(n), Xor(0xEC, 0x11)) == PadByte(n + 1)
  {
    hide Xor;
    XorCancel(0x11, 0xEC);
    XorComm(0xEC, 0x11);
    XorCancel(0xEC, 0x11);
  }

  lemma NoPadBytes()
    ensures ByteBits(PadBytes(0)) == [] && PadByte(0) == 0xEC
  {
  }

  lemma ZeroBitsDef(used: nat, capacity: nat, terminator: nat)
    requires used <= capacity && capacity % 8 == 0
    requires terminator == if capacity - used < 4 then capacity - used else 4
    ensures ZeroBits(used, capacity) == terminator + (8 - (used + terminator) % 8) % 8
  {
  }

  /** Terminates the stream and pads it to the capacity of the symbol. */
  method TerminateAndPad(bb: BitBuffer, dataCapacityBits: nat)
    requires |bb.bits| <= dataCapacityBits && dataCapacityBits % 8 == 0
    modifies bb
    ensures bb.bits == PaddedBits(old(bb.bits), dataCapacityBits)
  {
    hide ZeroBits, BitsOf, ByteBits, PadBytes;
    ghost var stream := bb.bits;
    ghost var zeros := ZeroBits(|stream|, dataCapacityBits);
    ZeroBitsFit(|stream|, dataCapacityBits);
    var terminator := if dataCapacityBits - |bb.bits| < 4 then dataCapacityBits - |bb.bits| else 4;
    var _ := bb.AppendBits(0, terminator);
    var alignment := (8 - |bb.bits| % 8) % 8;
    ZeroBitsDef(|stream|, dataCapacityBits, terminator);
    var _ := bb.AppendBits(0, alignment);
    ZerosConcat(terminator, alignment);
    assert bb.bits == stream + BitsOf(0, zeros);
    PadWithBytes(bb, dataCapacityBits);
  }

  // The loop that appends the pad codewords.
  method PadWithBytes(bb: BitBuffer, dataCapacityBits: nat)
    requires |bb.bits| <= dataCapacityBits && dataCapacityBits % 8 == 0 && |bb.bits| % 8 == 0
    modifies bb
    ensures bb.bits == old(bb.bits) + ByteBits(PadBytes((dataCapacityBits - |old(bb.bits)|) / 8))
  {
    Pow2Values();
    hide BitsOf, ByteBits, PadBytes, PadByte, Xor, Pow2;
    var padByte: Byte := 0xEC;
    ghost var n := 0;
    ghost var start := bb.bits;
    NoPadBytes();
    assert start + [] == start;
    while |bb.bits| < dataCapacityBits
      invariant |bb.bits| == |start| + 8 * n <= dataCapacityBits
      invariant bb.bits == start + ByteBits(PadBytes(n))
      invariant padByte == PadByte(n)
      decreases dataCapacityBits - |bb.bits|
    {
      PadBytesAppend(n);
      PadByteToggle(n);
      var _ := bb.AppendBits(padByte, 8);
      padByte := Xor(padByte, Xor(0xEC, 0x11));
      n := n + 1;
    }
  }

  function PackByte(bits: seq<bool>): Byte
    requires |bits| == 8
  {
    Pow2Values();
    BitsOfNumberOf(bits);
    NumberOf(bits)
  }

  /** Byte k holds bits 8k to 8k + 7, the first one highest. */
  function PackBytes(bits: seq<bool>): (bytes: seq<Byte>)
    requires |bits| % 8 == 0
    ensures |bytes| == |bits| / 8
  {
    seq(|bits| / 8, k requires 0 <= k < |bits| / 8 => PackByte(bits[8 * k..8 * k + 8]))
  }

  // The last byte of a packing.
  lemma PackSplit(front: seq<bool>, last: seq<bool>)
    requires |front| % 8 == 0 && |last| == 8
    ensures PackBytes(front + last) == PackBytes(front) + [PackByte(last)]
  {
    hide PackByte;
    var bits := front + last;
    forall k | 0 <= k < |front| / 8
      ensures PackBytes(bits)[k] == PackBytes(front)[k]
    {
      assert front[8 * k..8 * k + 8] == bits[8 * k..8 * k + 8];
    }
    assert bits[|front|..|front| + 8] == last;
  }

  /** Packing loses nothing. */
  lemma {:induction false} PackRoundTrip(bits: seq<bool>)
    requires |bits| % 8 == 0
    ensures ByteBits(PackBytes(bits)) == bits
  {
    hide BitsOf, NumberOf, PackBytes;
    if bits == [] {
      assert PackBytes(bits) == [];
    } else {
      var front, last := bits[..|bits| - 8], bits[|bits| - 8..];
      PackRoundTrip(front);
      BitsOfNumberOf(last);
      assert bits == front + last;
      PackSplit(front, last);
    }
  }

  // The byte that is being filled after i bits, its written bits on top.
  function PartialByte(bits: seq<bool>, i: nat): Byte
    requires i <= |bits|
  {
    var written := bits[i - i % 8..i];
    Pow2Values();
    BitsOfNumberOf(written);
    ShlBound(NumberOf(written), i % 8, 8 - i % 8);
    Shl(NumberOf(written), 8 - i % 8)
  }

  lemma FreshByte(bits: seq<bool>, i: nat)
    requires i <= |bits| && i % 8 == 0
    ensures PartialByte(bits, i) == 0
  {
    assert bits[i..i] == [];
    assert Shl(0, 2) == 0;
    assert Shl(0, 4) == 0;
    assert Shl(0, 6) == 0;
  }

  // Byte i / 8 after bit i has been written to it.
  function NextByte(bits: seq<bool>, i: nat): Byte
    requires i < |bits|
  {
    if i % 8 == 7 then PackByte(bits[i - 7..i + 1]) else PartialByte(bits, i + 1)
  }

  lemma PartialByteStep(bits: seq<bool>, i: nat)
    requires i < |bits|
    ensures Or(PartialByte(bits, i), Shl(if bits[i] then 1 else 0, 7 - i % 8)) == NextByte(bits, i)
  {
    hide *;
    var j, bit := i % 8, bits[i];
    var written := bits[i - j..i];
    var v, b := NumberOf(written), if bit then 1 else 0;
    PartialByteDef(bits, i);
    OrBelow(v, b, 7 - j);
    NumberAppend(written, bit);
    assert written + [bit] == bits[i - j..i + 1];
    ShlByZero(2 * v + b);
    NextByteDef(bits, i);
  }

  lemma PartialByteDef(bits: seq<bool>, i: nat)
    requires i <= |bits|
    ensures PartialByte(bits, i) == Shl(NumberOf(bits[i - i % 8..i]), 8 - i % 8)
  {
    hide NumberOf, Shl;
  }

  // The byte after bit i is the number its bits so far spell, shifted to the top.
  lemma NextByteDef(bits: seq<bool>, i: nat)
    requires i < |bits|
    ensures NextByte(bits, i) == Shl(NumberOf(bits[i - i % 8..i + 1]), 7 - i % 8)
  {
    hide NumberOf, Shl, PackByte, PartialByte;
    var j := i % 8;
    if j == 7 {
      var written := bits[i - 7..i + 1];
      PackByteDef(written);
      ShlByZero(NumberOf(written));
    } else {
      assert (i + 1) % 8 == j + 1;
      PartialByteDef(bits, i + 1);
    }
  }

  lemma PackByteDef(bits: seq<bool>)
    requires |bits| == 8
    ensures PackByte(bits) == NumberOf(bits)
  {
    hide NumberOf;
  }

  lemma ShlByZero(x: nat)
    ensures Shl(x, 0) == x
  {
  }

  lemma NumberAppend(bits: seq<bool>, b: bool)
    ensures NumberOf(bits + [b]) == 2 * NumberOf(bits) + if b then 1 else 0
  {
    assert (bits + [b])[..|bits|] == bits;
  }

  /** Packs the bits into bytes, bit by bit, in an array of zeros. */
  method Pack(bits: seq<bool>) returns (dataCodewords: seq<Byte>)
    requires |bits| % 8 == 0
    ensures dataCodewords == PackBytes(bits)
  {
    hide NumberOf, Or, Shl, PackByte, PartialByte;
    var codewords := new Byte[|bits| / 8](_ => 0);
    FreshByte(bits, 0);
    for i := 0 to |bits|
      invariant forall k :: 0 <= k < i / 8 ==> codewords[k] == PackByte(bits[8 * k..8 * k + 8])
      invariant i < |bits| ==> codewords[i / 8] == PartialByte(bits, i)
      invariant forall k :: i / 8 < k < codewords.Length ==> codewords[k] == 0
    {
      PartialByteStep(bits, i);
      codewords[i / 8] := Or(codewords[i / 8], Shl(if bits[i] then 1 else 0, 7 - i % 8));
      if i % 8 == 7 {
        FreshByte(bits, i + 1);
      }
    }
    dataCodewords := codewords[..];
  }

  // ---- what the padding is ----

  /** The first codeword that the stream and its terminator leave untouched. */
  function FirstPad(used: nat, capacity: nat): nat
    requires used <= capacity && capacity % 8 == 0
  {
    if used + 4 >= capacity then capacity / 8 else (used + 11) / 8
  }

  lemma FirstPadIs(used: nat, capacity: nat)
    requires used <= capacity && capacity % 8 == 0
    ensures 8 * FirstPad(used, capacity) == used + ZeroBits(used, capacity) <= capacity
  {
    ZeroBitsFit(used, capacity);
  }

  lemma {:induction false} ZerosAreFalse(n: nat, k: nat)
    requires k < n
    ensures !BitsOf(0, n)[k]
  {
    if k < n - 1 {
      ZerosAreFalse(n - 1, k);
    }
  }

  lemma {:induction false} ByteOfBits(bytes: seq<Byte>, b: nat)
    requires b < |bytes|
    ensures |ByteBits(bytes)| == 8 * |bytes| && ByteBits(bytes)[8 * b..8 * b + 8] == BitsOf(bytes[b], 8)
  {
    hide BitsOf;
    ByteBitsLength(bytes);
    var n := |bytes| - 1;
    ByteBitsLength(bytes[..n]);
    if b < n {
      ByteOfBits(bytes[..n], b);
      assert ByteBits(bytes)[8 * b..8 * b + 8] == ByteBits(bytes[..n])[8 * b..8 * b + 8];
    }
  }

  lemma PadByteOfPadded(stream: seq<bool>, capacity: nat, b: nat)
    requires |stream| <= capacity && capacity % 8 == 0 && FirstPad(|stream|, capacity) <= b < capacity / 8
    ensures PaddedBits(stream, capacity)[8 * b..8 * b + 8] == BitsOf(PadByte(b - FirstPad(|stream|, capacity)), 8)
  {
    hide BitsOf, ByteBits, PadByte, FirstPad, ZeroBits;
    PaddedLength(|stream|, capacity);
    FirstPadIs(|stream|, capacity);
    var zeros := ZeroBits(|stream|, capacity);
    var pads := PadBytes((capacity - |stream| - zeros) / 8);
    var head := stream + BitsOf(0, zeros);
    var first := FirstPad(|stream|, capacity);
    assert |head| == 8 * first;
    ByteOfBits(pads, b - first);
    assert PaddedBits(stream, capacity) == head + ByteBits(pads);
    assert PaddedBits(stream, capacity)[8 * b..8 * b + 8] == ByteBits(pads)[8 * (b - first)..8 * (b - first) + 8];
  }

  /**
   * After the stream come four zero bits, or as many as there is room for, and zeros up to the end of the codeword; the
   * codewords after that are 11101100 and 00010001 in turn.
   */
  lemma PaddingIs(stream: seq<bool>, capacity: nat)
    requires |stream| <= capacity && capacity % 8 == 0
    ensures var bits, first := PaddedBits(stream, capacity), FirstPad(|stream|, capacity);
      && bits[..|stream|] == stream
      && |stream| <= 8 * first <= capacity
      && (forall k :: |stream| <= k < 8 * first ==> !bits[k])
      && (forall b :: first <= b < capacity / 8 ==> PackBytes(bits)[b] == if (b - first) % 2 == 0 then 236 else 17)
  {
    hide BitsOf, ByteBits, FirstPad, ZeroBits, PackByte, NumberOf, PadBytes;
    var bits, first, zeros := PaddedBits(stream, capacity), FirstPad(|stream|, capacity), ZeroBits(|stream|, capacity);
    FirstPadIs(|stream|, capacity);
    PaddedLength(|stream|, capacity);
    forall k | |stream| <= k < 8 * first ensures !bits[k] {
      ZerosAreFalse(zeros, k - |stream|);
    }
    forall b | first <= b < capacity / 8 ensures PackBytes(bits)[b] == if (b - first) % 2 == 0 then 236 else 17 {
      PadByteOfPadded(stream, capacity, b);
      PackByteDef(bits[8 * b..8 * b + 8]);
      Pow2Values();
      NumberOfBitsOf(PadByte(b - first), 8);
    }
  }

  // ---- the data codewords ----

  /** What `encodeSegments` hands to the symbol: version, level and data codewords. */
  datatype Encoded = Encoded(version: int, ecl: Ecl, dataCodewords: seq<Byte>)

  /** The n data codewords of a symbol into which the segments fit. */
  function DataCodewords(segs: seq<Segment>, ver: int, n: nat): (bytes: seq<Byte>)
    requires IsVersion(ver) && |StreamBits(segs, ver)| <= 8 * n
    ensures |bytes| == n
  {
    PackBytes(PaddedBits(StreamBits(segs, ver), 8 * n))
  }

  method AppendSegments(bb: BitBuffer, segs: seq<Segment>, ver: int)
    requires IsVersion(ver) && CountsFit(segs, ver) && bb.bits == []
    modifies bb
    ensures bb.bits == StreamBits(segs, ver)
  {
    hide BitsOf, StreamBits, Pow2;
    NoStream(ver);
    for i := 0 to |segs|
      invariant bb.bits == StreamBits(segs[..i], ver)
    {
      var seg := segs[i];
      StreamBitsAppend(segs, i, ver);
      ModeIndicators(seg.mode);
      var _ := bb.AppendBits(seg.mode.ModeBits(), 4);
      var _ := bb.AppendBits(seg.numChars, seg.mode.CharCountBits(ver));
      bb.bits := bb.bits + seg.data;
    }
    assert segs[..|segs|] == segs;
  }

  /** The first part of `encodeSegments`, up to the construction of the symbol. */
  method EncodeData(segs: seq<Segment>, ecl: Ecl, minVersion: int, maxVersion: int, mask: int, boostEcl: bool)
    returns (r: Result<Encoded>)
    ensures r == Err(InvalidArgument) <==>
      !(MIN_VERSION <= minVersion <= maxVersion <= MAX_VERSION) || mask < -1 || mask > 7
    ensures r.Err? && r.error != InvalidArgument ==>
      r.error == DataTooLong && forall v :: minVersion <= v <= maxVersion ==> !Fits(segs, v, ecl)
    ensures r.Ok? ==>
      && minVersion <= r.value.version <= maxVersion
      && Fits(segs, r.value.version, ecl)
      && (forall v :: minVersion <= v < r.value.version ==> !Fits(segs, v, ecl))
    ensures r.Ok? ==>
      && r.value.ecl.Rank() >= ecl.Rank()
      && (!boostEcl ==> r.value.ecl == ecl)
      && (boostEcl ==>
            forall higher: Ecl :: higher.Rank() > r.value.ecl.Rank() ==> !Fits(segs, r.value.version, higher))
    ensures r.Ok? ==>
      && Fits(segs, r.value.version, r.value.ecl)
      && r.value.dataCodewords == DataCodewords(segs, r.value.version, NumDataCodewords(r.value.version, r.value.ecl))
  {
    hide StreamBits, NumDataCodewords, PaddedBits, PackBytes;
    if !(MIN_VERSION <= minVersion <= maxVersion <= MAX_VERSION) || mask < -1 || mask > 7 {
      return Err(InvalidArgument);
    }
    var chosen := ChooseVersion(segs, ecl, minVersion, maxVersion);
    if chosen.Err? {
      return Err(chosen.error);
    }
    var version := chosen.value;
    var level := BoostLevel(segs, version, ecl, boostEcl);
    var bb := new BitBuffer();
    AppendSegments(bb, segs, version);
    TerminateAndPad(bb, 8 * NumDataCodewords(version, level));
    var dataCodewords := Pack(bb.bits);
    r := Ok(Encoded(version, level, dataCodewords));
  }

  lemma EncodableIsValid(contents: seq<Content>, ver: int)
    requires IsVersion(ver) && Encodable(contents, ver)
    ensures forall i :: 0 <= i < |contents| ==> contents[i].Valid()
  {
    hide CountFits, Content.Valid, Content.ToSegment;
  }

  lemma DataCodewordsDef(segs: seq<Segment>, ver: int, n: nat)
    requires IsVersion(ver) && |StreamBits(segs, ver)| <= 8 * n
    ensures DataCodewords(segs, ver, n) == PackBytes(PaddedBits(StreamBits(segs, ver), 8 * n))
  {
  }

  lemma PaddedIsRead(contents: seq<Content>, ver: int, capacity: nat)
    requires IsVersion(ver) && capacity % 8 == 0
    requires Encodable(contents, ver)
    requires |StreamBits(ToSegments(contents), ver)| <= capacity
    ensures ReadStream(PaddedBits(StreamBits(ToSegments(contents), ver), capacity), ver) == Some(contents)
  {
    hide *;
    EncodableIsValid(contents, ver);
    var stream := StreamBits(ToSegments(contents), ver);
    var bits := PaddedBits(stream, capacity);
    PaddingEndsStream(stream, capacity);
    assert bits == stream + bits[|stream|..];
    StreamIsRead(contents, ver, bits[|stream|..]);
  }

  /** The reader gets the exact segment list back from the data codewords. */
  lemma DataCodewordsAreRead(contents: seq<Content>, ver: int, n: nat)
    requires IsVersion(ver)
    requires Encodable(contents, ver)
    requires |StreamBits(ToSegments(contents), ver)| <= 8 * n
    ensures ReadStream(ByteBits(DataCodewords(ToSegments(contents), ver, n)), ver) == Some(contents)
  {
    hide *;
    EncodableIsValid(contents, ver);
    DataCodewordsDef(ToSegments(contents), ver, n);
    var bits := PaddedBits(StreamBits(ToSegments(contents), ver), 8 * n);
    PackRoundTrip(bits);
    PaddedIsRead(contents, ver, 8 * n);
  }

  lemma PaddingEndsStream(stream: seq<bool>, capacity: nat)
    requires |stream| <= capacity && capacity % 8 == 0
    ensures PaddedBits(stream, capacity)[..|stream|] == stream
    ensures EndsStream(PaddedBits(stream, capacity)[|stream|..])
  {
    var zeros := ZeroBits(|stream|, capacity);
    ZeroBitsFit(|stream|, capacity);
    var tail := PaddedBits(stream, capacity)[|stream|..];
    if zeros >= 4 {
      ZerosConcat(4, zeros - 4);
      hide BitsOf, NumberOf;
      assert tail[..4] == BitsOf(0, 4);
      NumberOfBitsOf(0, 4);
    }
  }
}
