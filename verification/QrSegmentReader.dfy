/** A reader of the bits of the segments. */
module QrSegmentReader {
  // Written from ISO/IEC 18004:2015, section 7.4, with the proof that it gets back what the factories wrote.

  import opened Outcomes
  import opened Bits
  import opened Gf256
  import opened QrBitBuffer
  import opened QrTables
  import opened QrStandard
  import opened QrSegments

  /** A value read from the front of a bit string, and the bits after it. */
  datatype Read<T> = Read(value: T, rest: seq<bool>)

  function ReadNumber(bits: seq<bool>, width: nat): (r: Option<Read<nat>>)
    ensures r.Some? ==> |r.value.rest| == |bits| - width
  {
    if |bits| < width then None else Some(Read(NumberOf(bits[..width]), bits[width..]))
  }

  function ReadDigits(bits: seq<bool>, n: nat): (r: Option<Read<string>>)
    ensures r.Some? ==> |r.value.rest| <= |bits|
    decreases n
  {
    if n == 0 then Some(Read([], bits))
    else
      var size := if n < 3 then n else 3;
      var group := ReadNumber(bits, GroupWidth(size));
      if group.None? || group.value.value >= Pow10(size) then None
      else
        var others := ReadDigits(group.value.rest, n - size);
        if others.None? then None
        else Some(Read(Decimal(group.value.value, size) + others.value.value, others.value.rest))
  }

  function ReadCharacters(bits: seq<bool>, n: nat): (r: Option<Read<string>>)
    ensures r.Some? ==> |r.value.rest| <= |bits|
    decreases n
  {
    if n == 0 then Some(Read([], bits))
    else if n == 1 then
      var one := ReadNumber(bits, 6);
      if one.None? || one.value.value >= 45 then None
      else Some(Read([CharacterAt(one.value.value)], one.value.rest))
    else
      var pair := ReadNumber(bits, 11);
      if pair.None? || pair.value.value >= 45 * 45 then None
      else
        var others := ReadCharacters(pair.value.rest, n - 2);
        if others.None? then None
        else
          var text := [CharacterAt(pair.value.value / 45), CharacterAt(pair.value.value % 45)];
          Some(Read(text + others.value.value, others.value.rest))
  }

  function ReadBytes(bits: seq<bool>, n: nat): (r: Option<Read<seq<Byte>>>)
    ensures r.Some? ==> |r.value.rest| <= |bits|
    decreases n
  {
    if n == 0 then Some(Read([], bits))
    else
      var one := ReadNumber(bits, 8);
      if one.None? || one.value.value >= 256 then None
      else
        var others := ReadBytes(one.value.rest, n - 1);
        if others.None? then None
        else Some(Read([one.value.value] + others.value.value, others.value.rest))
  }

  /** The leading ones tell how long the designator is. */
  function ReadEci(bits: seq<bool>): (r: Option<Read<nat>>)
    ensures r.Some? ==> |r.value.rest| <= |bits|
  {
    if |bits| < 3 then None
    else if !bits[0] then ReadNumber(bits[1..], 7)
    else if !bits[1] then ReadNumber(bits[2..], 14)
    else if !bits[2] then ReadNumber(bits[3..], 21)
    else None
  }

  function Rewrap<T, U>(r: Option<Read<T>>, f: T -> U): (w: Option<Read<U>>)
    ensures w.Some? <==> r.Some?
    ensures r.Some? ==> w.value == Read(f(r.value.value), r.value.rest)
  {
    if r.None? then None else Some(Read(f(r.value.value), r.value.rest))
  }

  function ReadBody(mode: nat, count: nat, bits: seq<bool>): (r: Option<Read<Content>>)
    ensures r.Some? ==> |r.value.rest| <= |bits|
  {
    if mode == NUMERIC_MODE then Rewrap(ReadDigits(bits, count), t => Digits(t))
    else if mode == ALPHANUMERIC_MODE then Rewrap(ReadCharacters(bits, count), t => Characters(t))
    else if mode == BYTE_MODE then Rewrap(ReadBytes(bits, count), b => Data(b))
    else if mode == ECI_MODE then Rewrap(ReadEci(bits), v => EciDesignator(v))
    else None
  }

  /** Reads one segment: mode indicator, character count, body. */
  function ReadSegment(bits: seq<bool>, ver: int): (r: Option<Read<Content>>)
    requires IsVersion(ver)
    ensures r.Some? ==> |r.value.rest| < |bits|
  {
    var head := ReadNumber(bits, 4);
    if head.None? then None else
    var count := ReadNumber(head.value.rest, CountWidth(head.value.value, ver));
    if count.None? then None else
    ReadBody(head.value.value, count.value.value, count.value.rest)
  }

  /** Reads segments until the terminator, or until no mode indicator fits any more. */
  function ReadStream(bits: seq<bool>, ver: int): Option<seq<Content>>
    requires IsVersion(ver)
    decreases |bits|
  {
    if |bits| < 4 || NumberOf(bits[..4]) == TERMINATOR then Some([]) else
    var first := ReadSegment(bits, ver);
    if first.None? then None else
    var others := ReadStream(first.value.rest, ver);
    if others.None? then None else Some([first.value.value] + others.value)
  }

  // ---- the reader undoes the writer ----

  lemma NumberIsRead(val: nat, width: nat, rest: seq<bool>)
    requires val < Pow2(width)
    ensures ReadNumber(BitsOf(val, width) + rest, width) == Some(Read(val, rest))
  {
    NumberOfBitsOf(val, width);
    assert (BitsOf(val, width) + rest)[..width] == BitsOf(val, width);
    assert (BitsOf(val, width) + rest)[width..] == rest;
  }

  lemma GroupWidthsAgree(n: nat)
    requires 1 <= n <= 3
    ensures DigitGroupBits(n) == GroupWidth(n)
  {
  }

  lemma {:induction false} DecimalsAgree(value: nat, n: nat)
    ensures DecimalText(value, n) == Decimal(value, n)
  {
    if n > 0 {
      DecimalsAgree(value / 10, n - 1);
    }
  }

  lemma {:induction false} DigitsAreRead(text: string, rest: seq<bool>)
    requires IsNumericText(text)
    ensures ReadDigits(NumericBits(text) + rest, |text|) == Some(Read(text, rest))
    decreases |text|
  {
    hide ReadNumber, BitsOf, DecimalValue, DecimalText, Decimal, Pow10, Pow2, DigitGroupBits, GroupWidth;
    if text == [] {
      assert NumericBits(text) + rest == rest;
    } else {
      var size := if |text| < 3 then |text| else 3;
      var group, others := text[..size], text[size..];
      assert group + others == text;
      assert |text| < 3 ==> group == text && others == [];
      DigitGroupFits(group);
      DecimalRoundTrip(group);
      GroupWidthsAgree(size);
      DecimalsAgree(DecimalValue(group), size);
      var bits := BitsOf(DecimalValue(group), DigitGroupBits(size));
      assert NumericBits(text) + rest == bits + (NumericBits(others) + rest);
      NumberIsRead(DecimalValue(group), DigitGroupBits(size), NumericBits(others) + rest);
      DigitsAreRead(others, rest);
    }
  }

  lemma DigitCharacters(value: nat)
    requires 0 <= value < 10
    ensures |ALPHANUMERIC_CHARSET| == 45 && ALPHANUMERIC_CHARSET[value] == CharacterAt(value)
  {
    match value {
      case 0 =>
      case 1 =>
      case 2 =>
      case 3 =>
      case 4 =>
      case 5 =>
      case 6 =>
      case 7 =>
      case 8 =>
      case _ =>
    }
  }

  lemma LetterCharacters(value: nat)
    requires 10 <= value < 36
    ensures |ALPHANUMERIC_CHARSET| == 45 && ALPHANUMERIC_CHARSET[value] == CharacterAt(value)
  {
    match value {
      case 10 =>
      case 11 =>
      case 12 =>
      case 13 =>
      case 14 =>
      case 15 =>
      case 16 =>
      case 17 =>
      case 18 =>
      case 19 =>
      case 20 =>
      case 21 =>
      case 22 =>
      case 23 =>
      case 24 =>
      case 25 =>
      case 26 =>
      case 27 =>
      case 28 =>
      case 29 =>
      case 30 =>
      case 31 =>
      case 32 =>
      case 33 =>
      case 34 =>
      case _ =>
    }
  }

  lemma OtherCharacters(value: nat)
    requires 36 <= value < 45
    ensures |ALPHANUMERIC_CHARSET| == 45 && ALPHANUMERIC_CHARSET[value] == CharacterAt(value)
  {
    match value {
      case 36 =>
      case 37 =>
      case 38 =>
      case 39 =>
      case 40 =>
      case 41 =>
      case 42 =>
      case 43 =>
      case _ =>
    }
  }

  /** The character set of the writer is table 5. */
  lemma CharsetIsTable(value: nat)
    requires value < 45
    ensures |ALPHANUMERIC_CHARSET| == 45 && ALPHANUMERIC_CHARSET[value] == CharacterAt(value)
  {
    hide CharacterAt, ALPHANUMERIC_CHARSET;
    if value < 10 {
      DigitCharacters(value);
    } else if value < 36 {
      LetterCharacters(value);
    } else {
      OtherCharacters(value);
    }
  }

  lemma CharacterOfIndex(c: char)
    requires InCharset(c)
    ensures CharacterAt(AlphanumericIndex(c)) == c
  {
    CharsetIsTable(AlphanumericIndex(c));
  }

  lemma PairSplit(a: nat, b: nat)
    requires a < 45 && b < 45
    ensures a * 45 + b < 45 * 45 && (a * 45 + b) / 45 == a && (a * 45 + b) % 45 == b
  {
  }

  lemma {:induction false} CharactersAreRead(text: string, rest: seq<bool>)
    requires IsAlphanumericText(text)
    ensures ReadCharacters(AlphanumericBits(text) + rest, |text|) == Some(Read(text, rest))
    decreases |text|
  {
    hide ReadNumber, BitsOf, InCharset, AlphanumericIndex, Pow2, CharacterAt;
    if text == [] {
      assert AlphanumericBits(text) + rest == rest;
    } else if |text| == 1 {
      var a := AlphanumericIndex(text[0]);
      AlphanumericPairFits(a, 0);
      CharacterOfIndex(text[0]);
      NumberIsRead(a, 6, rest);
      assert text == [text[0]];
    } else {
      var a, b, others := AlphanumericIndex(text[0]), AlphanumericIndex(text[1]), text[2..];
      AlphanumericPairFits(a, b);
      PairSplit(a, b);
      CharacterOfIndex(text[0]);
      CharacterOfIndex(text[1]);
      assert AlphanumericBits(text) + rest == BitsOf(a * 45 + b, 11) + (AlphanumericBits(others) + rest);
      NumberIsRead(a * 45 + b, 11, AlphanumericBits(others) + rest);
      CharactersAreRead(others, rest);
      assert text == [text[0], text[1]] + others;
    }
  }

  lemma {:induction false} ByteBitsFront(data: seq<Byte>)
    requires data != []
    ensures ByteBits(data) == BitsOf(data[0], 8) + ByteBits(data[1..])
  {
    hide BitsOf, ByteBits;
    var n := |data| - 1;
    ByteBitsLast(data);
    if n == 0 {
      NoBytes();
      assert data[..0] == [] && data[1..] == [];
    } else {
      ByteBitsFront(data[..n]);
      ByteBitsLast(data[1..]);
      assert data[..n][1..] == data[1..][..n - 1];
    }
  }

  lemma ByteBitsLast(data: seq<Byte>)
    requires data != []
    ensures ByteBits(data) == ByteBits(data[..|data| - 1]) + BitsOf(data[|data| - 1], 8)
  {
    hide BitsOf;
  }

  lemma {:induction false} BytesAreRead(data: seq<Byte>, rest: seq<bool>)
    ensures ReadBytes(ByteBits(data) + rest, |data|) == Some(Read(data, rest))
    decreases |data|
  {
    Pow2Values();
    hide ReadNumber, BitsOf, ByteBits, Pow2;
    if data == [] {
      NoBytes();
      assert ByteBits(data) + rest == rest;
    } else {
      ByteBitsFront(data);
      assert ByteBits(data) + rest == BitsOf(data[0], 8) + (ByteBits(data[1..]) + rest);
      NumberIsRead(data[0], 8, ByteBits(data[1..]) + rest);
      BytesAreRead(data[1..], rest);
      assert data == [data[0]] + data[1..];
    }
  }

  lemma NoBytes()
    ensures ByteBits([]) == []
  {
  }

  lemma {:induction false} LeadingZero(val: nat, len: nat)
    requires val < Pow2(len)
    ensures BitsOf(val, len + 1) == [false] + BitsOf(val, len)
  {
    if len != 0 {
      LeadingZero(val / 2, len - 1);
    }
  }

  lemma EciPrefixes()
    ensures BitsOf(2, 2) == [true, false] && BitsOf(6, 3) == [true, true, false]
    ensures Pow2(7) == 0x80
  {
    assert BitsOf(1, 1) == [true] && BitsOf(3, 2) == [true, true];
  }

  lemma EciIsRead(value: nat, rest: seq<bool>)
    requires value < ECI_LIMIT
    ensures ReadEci(EciBits(value) + rest) == Some(Read(value, rest))
  {
    EciFits(value);
    EciPrefixes();
    hide ReadNumber, BitsOf, Pow2;
    var bits := EciBits(value) + rest;
    if value < 0x80 {
      LeadingZero(value, 7);
      assert bits[1..] == BitsOf(value, 7) + rest;
      NumberIsRead(value, 7, rest);
    } else if value < 0x4000 {
      assert bits == [true, false] + (BitsOf(value, 14) + rest);
      assert bits[2..] == BitsOf(value, 14) + rest;
      NumberIsRead(value, 14, rest);
    } else {
      assert bits == [true, true, false] + (BitsOf(value, 21) + rest);
      assert bits[3..] == BitsOf(value, 21) + rest;
      NumberIsRead(value, 21, rest);
    }
  }

  lemma BodyIsRead(c: Content, rest: seq<bool>)
    requires c.Valid()
    ensures var seg := c.ToSegment();
      ReadBody(seg.mode.ModeBits(), seg.numChars, seg.data + rest) == Some(Read(c, rest))
  {
    hide NumericBits, AlphanumericBits, ByteBits, EciBits, ReadDigits, ReadCharacters, ReadBytes, ReadEci;
    match c {
      case Digits(text) => DigitsAreRead(text, rest);
      case Characters(text) => CharactersAreRead(text, rest);
      case Data(bytes) => BytesAreRead(bytes, rest);
      case EciDesignator(value) => EciIsRead(value, rest);
    }
  }

  lemma ModeIndicators(m: Mode)
    ensures 0 < m.ModeBits() < Pow2(4)
  {
    assert Pow2(4) == 16;
  }

  /** The mode indicators and the count fields of the writer are those of tables 2 and 3, at every version. */
  lemma CountWidthsAgree(m: Mode, ver: int)
    requires IsVersion(ver)
    ensures m.ModeBits() == match m
                            case Numeric => NUMERIC_MODE
                            case Alphanumeric => ALPHANUMERIC_MODE
                            case Bytes => BYTE_MODE
                            case Kanji => KANJI_MODE
                            case Eci => ECI_MODE
    ensures m.CharCountBits(ver) == CountWidth(m.ModeBits(), ver)
  {
    var size := (ver + 7) / 17;
    assert size == if ver <= 9 then 0 else if ver <= 26 then 1 else 2;
  }

  /** Whether the character count fits its field, as `getTotalBits` checks. */
  predicate CountFits(seg: Segment, ver: int)
    requires IsVersion(ver)
  {
    seg.numChars < Pow2(seg.mode.CharCountBits(ver))
  }

  lemma SegmentIsRead(c: Content, ver: int, rest: seq<bool>)
    requires IsVersion(ver) && c.Valid() && CountFits(c.ToSegment(), ver)
    ensures ReadSegment(SegmentBits(c.ToSegment(), ver) + rest, ver) == Some(Read(c, rest))
  {
    hide *;
    var seg := c.ToSegment();
    var m, n := seg.mode.ModeBits(), seg.mode.CharCountBits(ver);
    var body := seg.data + rest;
    var afterMode := BitsOf(seg.numChars, n) + body;
    ModeIndicators(seg.mode);
    CountWidthsAgree(seg.mode, ver);
    SegmentSplit(seg, ver, rest);
    CountFitsDef(seg, ver);
    NumberIsRead(m, 4, afterMode);
    NumberIsRead(seg.numChars, n, body);
    BodyIsRead(c, rest);
    ReadSegmentSteps(BitsOf(m, 4) + afterMode, ver, m, afterMode, seg.numChars, body);
  }

  lemma CountFitsDef(seg: Segment, ver: int)
    requires IsVersion(ver) && CountFits(seg, ver)
    ensures seg.numChars < Pow2(seg.mode.CharCountBits(ver))
  {
  }

  lemma SegmentSplit(seg: Segment, ver: int, rest: seq<bool>)
    requires IsVersion(ver)
    ensures SegmentBits(seg, ver) + rest ==
      BitsOf(seg.mode.ModeBits(), 4) + (BitsOf(seg.numChars, seg.mode.CharCountBits(ver)) + (seg.data + rest))
  {
    hide BitsOf, Mode.ModeBits, Mode.CharCountBits;
  }

  // The three steps of ReadSegment, each of them successful.
  lemma ReadSegmentSteps(bits: seq<bool>, ver: int, m: nat, afterMode: seq<bool>, count: nat, body: seq<bool>)
    requires IsVersion(ver)
    requires ReadNumber(bits, 4) == Some(Read(m, afterMode))
    requires ReadNumber(afterMode, CountWidth(m, ver)) == Some(Read(count, body))
    ensures ReadSegment(bits, ver) == ReadBody(m, count, body)
  {
    hide ReadNumber, ReadBody, CountWidth;
  }

  /** What may follow the last segment: a terminator, or less than one mode indicator. */
  predicate EndsStream(tail: seq<bool>) {
    |tail| < 4 || NumberOf(tail[..4]) == TERMINATOR
  }

  /** Whether the factories accept the contents and every count fits its field. */
  predicate Encodable(contents: seq<Content>, ver: int)
    requires IsVersion(ver)
  {
    forall i :: 0 <= i < |contents| ==> contents[i].Valid() && CountFits(contents[i].ToSegment(), ver)
  }

  /** The reader gets back the exact segment list. */
  lemma {:induction false} StreamIsRead(contents: seq<Content>, ver: int, tail: seq<bool>)
    requires IsVersion(ver)
    requires Encodable(contents, ver)
    requires EndsStream(tail)
    ensures ReadStream(StreamBits(ToSegments(contents), ver) + tail, ver) == Some(contents)
  {
    hide *;
    if contents == [] {
      NothingIsRead(ver, tail);
    } else {
      var c, others := contents[0], contents[1..];
      EncodableParts(contents, ver);
      var rest := StreamBits(ToSegments(others), ver) + tail;
      StreamSplit(contents, ver, tail);
      StreamIsRead(others, ver, tail);
      SegmentIsRead(c, ver, rest);
      SegmentStarts(c, ver, rest);
      ReadStreamStep(SegmentBits(c.ToSegment(), ver) + rest, ver, c, rest);
      assert contents == [c] + others;
    }
  }

  lemma NothingIsRead(ver: int, tail: seq<bool>)
    requires IsVersion(ver) && EndsStream(tail)
    ensures ReadStream(StreamBits(ToSegments([]), ver) + tail, ver) == Some([])
  {
    hide ReadSegment;
    assert StreamBits(ToSegments([]), ver) + tail == tail;
  }

  lemma EncodableParts(contents: seq<Content>, ver: int)
    requires IsVersion(ver) && Encodable(contents, ver) && contents != []
    ensures contents[0].Valid() && CountFits(contents[0].ToSegment(), ver) && Encodable(contents[1..], ver)
    ensures forall c <- contents[1..] :: c.Valid()
    ensures ToSegments(contents) == [contents[0].ToSegment()] + ToSegments(contents[1..])
  {
    hide CountFits, Content.Valid, Content.ToSegment;
    assert forall i :: 0 <= i < |contents[1..]| ==> contents[1..][i] == contents[i + 1];
  }

  lemma StreamSplit(contents: seq<Content>, ver: int, tail: seq<bool>)
    requires IsVersion(ver) && Encodable(contents, ver) && contents != []
    ensures contents[0].Valid() && Encodable(contents[1..], ver)
    ensures StreamBits(ToSegments(contents), ver) + tail ==
      SegmentBits(contents[0].ToSegment(), ver) + (StreamBits(ToSegments(contents[1..]), ver) + tail)
  {
    hide SegmentBits, Content.ToSegment;
    EncodableParts(contents, ver);
    var segs := ToSegments(contents);
    assert segs[1..] == ToSegments(contents[1..]);
  }

  lemma ReadStreamStep(bits: seq<bool>, ver: int, c: Content, rest: seq<bool>)
    requires IsVersion(ver) && |bits| >= 4 && NumberOf(bits[..4]) != 0
    requires ReadSegment(bits, ver) == Some(Read(c, rest)) && ReadStream(rest, ver).Some?
    ensures ReadStream(bits, ver) == Some([c] + ReadStream(rest, ver).value)
  {
    hide ReadSegment, NumberOf;
  }

  lemma SegmentStarts(c: Content, ver: int, rest: seq<bool>)
    requires IsVersion(ver) && c.Valid()
    ensures var bits := SegmentBits(c.ToSegment(), ver) + rest;
      |bits| >= 4 && NumberOf(bits[..4]) != 0
  {
    var seg := c.ToSegment();
    var m := seg.mode.ModeBits();
    ModeIndicators(seg.mode);
    NumberOfBitsOf(m, 4);
    hide BitsOf, NumberOf;
    assert (SegmentBits(seg, ver) + rest)[..4] == BitsOf(m, 4);
  }
}
