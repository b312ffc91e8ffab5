/** Segments and the bits of their bodies. */
module QrSegments {
  // ISO/IEC 18004:2015, section 7.4.

  import opened Outcomes
  import opened Bits
  import opened Gf256
  import opened QrBitBuffer
  import opened QrTables

  const INT_MAX: int := 0x7FFF_FFFF

  datatype Mode = Numeric | Alphanumeric | Bytes | Kanji | Eci {
    function ModeBits(): (m: nat)
      ensures 0 < m < 16
    {
      match this
      case Numeric => 1
      case Alphanumeric => 2
      case Bytes => 4
      case Kanji => 8
      case Eci => 7
    }

    /** The width of the character count field. */
    function CharCountBits(ver: int): (n: nat)
      requires IsVersion(ver)
      ensures n <= 16
    {
      var size := (ver + 7) / 17;
      match this
      case Numeric => [10, 12, 14][size]
      case Alphanumeric => [9, 11, 13][size]
      case Bytes => [8, 16, 16][size]
      case Kanji => [8, 10, 12][size]
      case Eci => 0
    }
  }

  datatype Segment = Segment(mode: Mode, numChars: nat, data: seq<bool>)

  // ---- numeric mode ----

  predicate IsDigit(c: char) {
    '0' <= c <= '9'
  }

  predicate IsNumericText(text: string) {
    forall i :: 0 <= i < |text| ==> IsDigit(text[i])
  }

  function Pow10(n: nat): (p: nat)
    ensures p > 0
  {
    if n == 0 then 1 else 10 * Pow10(n - 1)
  }

  function DecimalValue(text: string): nat
    requires IsNumericText(text)
  {
    if text == [] then 0
    else 10 * DecimalValue(text[..|text| - 1]) + (text[|text| - 1] as int - '0' as int)
  }

  function DecimalText(value: nat, n: nat): (text: string)
    ensures |text| == n && IsNumericText(text)
  {
    if n == 0 then [] else DecimalText(value / 10, n - 1) + [(value % 10 + '0' as int) as char]
  }

  lemma {:induction false} DecimalRoundTrip(text: string)
    requires IsNumericText(text)
    ensures DecimalValue(text) < Pow10(|text|)
    ensures DecimalText(DecimalValue(text), |text|) == text
  {
    if text != [] {
      DecimalRoundTrip(text[..|text| - 1]);
    }
  }

  // The number of bits for a group of one, two or three digits.
  function DigitGroupBits(n: nat): nat {
    n * 3 + 1
  }

  lemma DigitGroupFits(text: string)
    requires IsNumericText(text) && 1 <= |text| <= 3
    ensures DecimalValue(text) < Pow2(DigitGroupBits(|text|))
  {
    DecimalRoundTrip(text);
    assert Pow10(1) == 10 && Pow10(2) == 100 && Pow10(3) == 1000;
    assert Pow2(4) == 16 && Pow2(7) == 128 && Pow2(10) == 1024;
  }

  /** Three digits to ten bits; one or two digits left over take four or seven bits. */
  function NumericBits(text: string): seq<bool>
    requires IsNumericText(text)
  {
    if text == [] then []
    else if |text| < 3 then BitsOf(DecimalValue(text), DigitGroupBits(|text|))
    else BitsOf(DecimalValue(text[..3]), DigitGroupBits(3)) + NumericBits(text[3..])
  }

  lemma {:induction false} NumericBitsAppend(text: string, group: string)
    requires |text| % 3 == 0 && 1 <= |group| <= 3
    requires IsNumericText(text) && IsNumericText(group)
    ensures IsNumericText(text + group)
    ensures NumericBits(text + group) == NumericBits(text) + BitsOf(DecimalValue(group), DigitGroupBits(|group|))
  {
    hide BitsOf, DecimalValue, DigitGroupBits;
    if text == [] {
      assert text + group == group;
      if |group| == 3 {
        assert group[..3] == group;
        assert group[3..] == [];
      }
    } else {
      NumericBitsAppend(text[3..], group);
      assert (text + group)[..3] == text[..3];
      assert (text + group)[3..] == text[3..] + group;
    }
  }

  // A digit more in the open group.
  lemma DecimalAppend(digits: string, from: nat, n: nat)
    requires from <= n < |digits| && IsNumericText(digits[..n]) && IsDigit(digits[n])
    ensures IsNumericText(digits[..n + 1]) && IsNumericText(digits[from..n]) && IsNumericText(digits[from..n + 1])
    ensures DecimalValue(digits[from..n + 1]) == DecimalValue(digits[from..n]) * 10 + (digits[n] as int - '0' as int)
  {
    assert digits[from..n + 1][..n - from] == digits[from..n];
  }

  // Closing the open group.
  lemma CloseDigits(digits: string, from: nat, n: nat)
    requires from < n <= |digits| && IsNumericText(digits[..n]) && from % 3 == 0 && n - from <= 3
    ensures IsNumericText(digits[..from]) && IsNumericText(digits[from..n])
    ensures DecimalValue(digits[from..n]) < Pow2(DigitGroupBits(n - from))
    ensures NumericBits(digits[..n])
         == NumericBits(digits[..from]) + BitsOf(DecimalValue(digits[from..n]), DigitGroupBits(n - from))
  {
    hide BitsOf, DecimalValue, NumericBits;
    DigitGroupFits(digits[from..n]);
    NumericBitsAppend(digits[..from], digits[from..n]);
    assert digits[..from] + digits[from..n] == digits[..n];
  }

  method MakeNumeric(digits: string) returns (r: Result<Segment>)
    ensures r == if IsNumericText(digits) then Ok(Segment(Numeric, |digits|, NumericBits(digits))) else Err(DomainError)
  {
    hide BitsOf, NumericBits, DecimalValue, Pow2;
    var bb := new BitBuffer();
    var accumData: nat := 0;
    var accumCount: nat := 0;
    var charCount := 0;
    ghost var done := 0;
    StartNumeric(digits);
    while charCount < |digits|
      invariant done + accumCount == charCount <= |digits|
      invariant accumCount < 3 && done % 3 == 0
      invariant IsNumericText(digits[..charCount]) && IsNumericText(digits[done..charCount])
      invariant accumData == DecimalValue(digits[done..charCount])
      invariant IsNumericText(digits[..done]) && bb.bits == NumericBits(digits[..done])
    {
      var c := digits[charCount];
      if c < '0' || c > '9' {
        return Err(DomainError);
      }
      DecimalAppend(digits, done, charCount);
      accumData := accumData * 10 + (c as int - '0' as int);
      accumCount := accumCount + 1;
      charCount := charCount + 1;
      if accumCount == 3 {
        CloseDigits(digits, done, charCount);
        var _ := bb.AppendBits(accumData, 10);
        accumData := 0;
        accumCount := 0;
        done := charCount;
        assert digits[done..charCount] == [];
      }
    }
    assert digits[..charCount] == digits;
    if accumCount > 0 {
      CloseDigits(digits, done, charCount);
      var _ := bb.AppendBits(accumData, accumCount * 3 + 1);
    }
    r := Ok(Segment(Numeric, charCount, bb.bits));
  }

  lemma StartNumeric(digits: string)
    ensures NumericBits([]) == [] && DecimalValue([]) == 0 && digits[..0] == []
  {
  }

  // ---- alphanumeric mode ----

  const ALPHANUMERIC_CHARSET: string := "0123456789" + "ABCDEFGHIJKLMNOPQRSTUVWXYZ" + " $%*+-./:"

  /** The index of the first occurrence of `c`, or -1. */
  function StrChr(s: string, c: char): (i: int)
    ensures -1 <= i < |s|
    ensures i >= 0 ==> s[i] == c
    ensures i == -1 <==> c !in s
  {
    if s == [] then -1
    else if s[0] == c then 0
    else
      var i := StrChr(s[1..], c);
      if i == -1 then -1 else i + 1
  }

  function CharsetIndex(c: char): int {
    StrChr(ALPHANUMERIC_CHARSET, c)
  }

  predicate InCharset(c: char) {
    CharsetIndex(c) != -1
  }

  predicate IsAlphanumericText(text: string) {
    forall i :: 0 <= i < |text| ==> InCharset(text[i])
  }

  function AlphanumericIndex(c: char): (i: nat)
    requires InCharset(c)
    ensures i < 45
  {
    CharsetIndex(c)
  }

  /** Two characters to eleven bits; one left over takes six. */
  function AlphanumericBits(text: string): seq<bool>
    requires IsAlphanumericText(text)
  {
    if text == [] then []
    else if |text| == 1 then BitsOf(AlphanumericIndex(text[0]), 6)
    else BitsOf(AlphanumericIndex(text[0]) * 45 + AlphanumericIndex(text[1]), 11) + AlphanumericBits(text[2..])
  }

  lemma AlphanumericPairFits(a: nat, b: nat)
    requires a < 45 && b < 45
    ensures a * 45 + b < Pow2(11) && a < Pow2(6)
  {
    assert Pow2(6) == 64 && Pow2(8) == 256 && Pow2(11) == 2048;
  }

  lemma {:induction false} AlphanumericBitsAppend(text: string, group: string)
    requires |text| % 2 == 0 && 1 <= |group| <= 2
    requires IsAlphanumericText(text) && IsAlphanumericText(group)
    ensures IsAlphanumericText(text + group)
    ensures AlphanumericBits(text + group) == AlphanumericBits(text) + AlphanumericBits(group)
  {
    hide BitsOf, AlphanumericIndex, InCharset;
    if text == [] {
      assert text + group == group;
    } else {
      AlphanumericBitsAppend(text[2..], group);
      assert (text + group)[2..] == text[2..] + group;
    }
  }

  lemma CloseCharacters(text: string, from: nat, n: nat)
    requires from < n <= |text| && IsAlphanumericText(text[..n]) && from % 2 == 0 && n - from <= 2
    ensures IsAlphanumericText(text[..from]) && InCharset(text[from]) && InCharset(text[n - 1])
    ensures AlphanumericBits(text[..n]) == AlphanumericBits(text[..from]) +
      if n - from == 1 then BitsOf(AlphanumericIndex(text[from]), 6)
      else BitsOf(AlphanumericIndex(text[from]) * 45 + AlphanumericIndex(text[n - 1]), 11)
  {
    hide BitsOf, AlphanumericIndex, InCharset;
    assert text[..n][from] == text[from] && text[..n][n - 1] == text[n - 1];
    AlphanumericBitsAppend(text[..from], text[from..n]);
    assert text[..from] + text[from..n] == text[..n];
    assert text[from..n][0] == text[from];
  }

  // A character more in the open group.
  lemma CharacterAppend(text: string, n: nat)
    requires n < |text| && IsAlphanumericText(text[..n]) && InCharset(text[n])
    ensures IsAlphanumericText(text[..n + 1])
  {
  }

  lemma StartAlphanumeric(text: string)
    ensures AlphanumericBits([]) == [] && text[..0] == []
  {
  }

  method MakeAlphanumeric(text: string) returns (r: Result<Segment>)
    ensures r == if IsAlphanumericText(text) then Ok(Segment(Alphanumeric, |text|, AlphanumericBits(text)))
                 else Err(DomainError)
  {
    hide BitsOf, AlphanumericBits, AlphanumericIndex, Pow2, InCharset, CharsetIndex;
    var bb := new BitBuffer();
    var accumData: nat := 0;
    var accumCount: nat := 0;
    var charCount := 0;
    ghost var done := 0;
    StartAlphanumeric(text);
    while charCount < |text|
      invariant done + accumCount == charCount <= |text|
      invariant accumCount < 2 && done % 2 == 0
      invariant IsAlphanumericText(text[..charCount])
      invariant accumCount == 0 ==> accumData == 0
      invariant accumCount == 1 ==> InCharset(text[done]) && accumData == AlphanumericIndex(text[done])
      invariant IsAlphanumericText(text[..done]) && bb.bits == AlphanumericBits(text[..done])
    {
      var temp := CharsetIndex(text[charCount]);
      IndexDef(text[charCount]);
      if temp == -1 {
        return Err(DomainError);
      }
      CharacterAppend(text, charCount);
      accumData := accumData * 45 + temp;
      accumCount := accumCount + 1;
      charCount := charCount + 1;
      if accumCount == 2 {
        CloseCharacters(text, done, charCount);
        AlphanumericPairFits(AlphanumericIndex(text[done]), AlphanumericIndex(text[done + 1]));
        var _ := bb.AppendBits(accumData, 11);
        accumData := 0;
        accumCount := 0;
        done := charCount;
      }
    }
    assert text[..charCount] == text;
    if accumCount > 0 {
      CloseCharacters(text, done, charCount);
      AlphanumericPairFits(accumData, 0);
      var _ := bb.AppendBits(accumData, 6);
    }
    r := Ok(Segment(Alphanumeric, charCount, bb.bits));
  }

  lemma IndexDef(c: char)
    ensures InCharset(c) <==> CharsetIndex(c) != -1
    ensures InCharset(c) ==> AlphanumericIndex(c) == CharsetIndex(c)
  {
  }

  // ---- byte mode ----

  function ByteBits(data: seq<Byte>): seq<bool> {
    if data == [] then [] else ByteBits(data[..|data| - 1]) + BitsOf(data[|data| - 1], 8)
  }

  lemma BytesUpTo(data: seq<Byte>, i: nat)
    requires i < |data|
    ensures ByteBits(data[..i + 1]) == ByteBits(data[..i]) + BitsOf(data[i], 8)
  {
    assert data[..i + 1][..i] == data[..i];
  }

  method MakeBytes(data: seq<Byte>) returns (r: Result<Segment>)
    ensures r == if |data| <= INT_MAX then Ok(Segment(Bytes, |data|, ByteBits(data))) else Err(LengthError)
  {
    if |data| > INT_MAX {
      return Err(LengthError);
    }
    Pow2Values();
    hide BitsOf, Pow2;
    var bb := new BitBuffer();
    for i := 0 to |data|
      invariant bb.bits == ByteBits(data[..i])
    {
      BytesUpTo(data, i);
      var _ := bb.AppendBits(data[i], 8);
    }
    assert data[..|data|] == data;
    r := Ok(Segment(Bytes, |data|, bb.bits));
  }

  // ---- ECI mode ----

  const ECI_LIMIT: int := 1_000_000

  function EciBits(value: nat): seq<bool> {
    if value < 0x80 then BitsOf(value, 8)
    else if value < 0x4000 then BitsOf(2, 2) + BitsOf(value, 14)
    else BitsOf(6, 3) + BitsOf(value, 21)
  }

  lemma EciFits(value: nat)
    ensures value < 0x80 ==> value < Pow2(8)
    ensures value < 0x4000 ==> value < Pow2(14)
    ensures value < ECI_LIMIT ==> value < Pow2(21)
    ensures 2 < Pow2(2) && 6 < Pow2(3)
  {
    assert Pow2(2) == 4 && Pow2(3) == 8 && Pow2(8) == 256;
    assert Pow2(14) == 0x4000;
    assert Pow2(17) == 0x2_0000;
    assert Pow2(20) == 0x10_0000;
  }

  method MakeEci(assignVal: int) returns (r: Result<Segment>)
    ensures r == if 0 <= assignVal < ECI_LIMIT then Ok(Segment(Eci, 0, EciBits(assignVal))) else Err(DomainError)
  {
    hide BitsOf, Pow2;
    var bb := new BitBuffer();
    if assignVal < 0 {
      return Err(DomainError);
    }
    EciFits(assignVal);
    if assignVal < 0x80 {
      var _ := bb.AppendBits(assignVal, 8);
    } else if assignVal < 0x4000 {
      var _ := bb.AppendBits(2, 2);
      var _ := bb.AppendBits(assignVal, 14);
    } else if assignVal < 1_000_000 {
      var _ := bb.AppendBits(6, 3);
      var _ := bb.AppendBits(assignVal, 21);
    } else {
      return Err(DomainError);
    }
    assert bb.bits == EciBits(assignVal);
    r := Ok(Segment(Eci, 0, bb.bits));
  }

  // ---- what segments mean ----

  /** What one segment carries. */
  datatype Content =
    | Digits(text: string)
    | Characters(text: string)
    | Data(bytes: seq<Byte>)
    | EciDesignator(value: nat)
  {
    /** What the four factory methods accept. */
    predicate Valid() {
      match this
      case Digits(text) => IsNumericText(text)
      case Characters(text) => IsAlphanumericText(text)
      case Data(bytes) => |bytes| <= INT_MAX
      case EciDesignator(value) => value < ECI_LIMIT
    }

    /** The segment that the factory method makes of it. */
    function ToSegment(): Segment
      requires Valid()
    {
      match this
      case Digits(text) => Segment(Numeric, |text|, NumericBits(text))
      case Characters(text) => Segment(Alphanumeric, |text|, AlphanumericBits(text))
      case Data(bytes) => Segment(Bytes, |bytes|, ByteBits(bytes))
      case EciDesignator(value) => Segment(Eci, 0, EciBits(value))
    }
  }

  /** Mode indicator, character count and body of one segment. */
  function SegmentBits(seg: Segment, ver: int): seq<bool>
    requires IsVersion(ver)
  {
    BitsOf(seg.mode.ModeBits(), 4) + BitsOf(seg.numChars, seg.mode.CharCountBits(ver)) + seg.data
  }

  function StreamBits(segs: seq<Segment>, ver: int): seq<bool>
    requires IsVersion(ver)
  {
    if segs == [] then [] else SegmentBits(segs[0], ver) + StreamBits(segs[1..], ver)
  }

  function ToSegments(contents: seq<Content>): (segs: seq<Segment>)
    requires forall i :: 0 <= i < |contents| ==> contents[i].Valid()
    ensures |segs| == |contents|
    ensures forall i :: 0 <= i < |contents| ==> segs[i] == contents[i].ToSegment()
  {
    if contents == [] then [] else [contents[0].ToSegment()] + ToSegments(contents[1..])
  }
}
