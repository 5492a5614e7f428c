/** Strict object headers (IEEE Std 1815-2012, clause 4): qualifiers, ranges and their codec. */
module ObjectHeader {
  import opened Bytes

  type u32 = x: int | 0 <= x < 0x1_0000_0000

  datatype ObjectError =
    | UnsupportedPrefix | UnsupportedRange | PrefixNotAllowed
    | StopBelowStart | ZeroCount | ValueTooWide | Truncated
    | UnsupportedObject | WrongValue | QualityHasStateBits | NotFinite
    | MissingTime | UnexpectedTime | TimeOutOfRange
    | WrongPointCount | SizePrefixNotSupported | PointMismatch | PackedPointHasQualityOrTime
    | BadLimit | PointLimit | BlockLimit | NonZeroPadding | NoProgress

  datatype Header = Header(group: byte, variation: byte, qualifier: byte, start: u32, stop: u32, count: u32)

  datatype RangeKind = StartStop | AllObjects | Counted

  datatype Qualifier = Qualifier(kind: RangeKind, rangeWidth: nat, prefixWidth: nat, sizePrefix: bool)

  // ---------------------------------------------------------------- qualifiers

  function PowerWidth(exponent: byte): nat {
    if exponent == 0 then 1 else if exponent == 1 then 2 else 4
  }

  /** decodeStrictQualifier: prefix code in the high nibble, range code in the low one. */
  function DecodeQualifier(qualifier: byte): Result<Qualifier, ObjectError> {
    var prefixCode, rangeCode := qualifier >> 4, qualifier & 0x0F;
    if prefixCode > 6 then Err(UnsupportedPrefix)
    else
      var prefixWidth :=
        if prefixCode == 0 then 0 else if prefixCode <= 3 then PowerWidth(prefixCode - 1) else PowerWidth(prefixCode - 4);
      var sizePrefix := prefixCode >= 4;
      if rangeCode <= 2 then
        if prefixCode != 0 then Err(PrefixNotAllowed)
        else Ok(Qualifier(StartStop, PowerWidth(rangeCode), prefixWidth, sizePrefix))
      else if rangeCode == 6 then
        if prefixCode != 0 then Err(PrefixNotAllowed) else Ok(Qualifier(AllObjects, 0, prefixWidth, sizePrefix))
      else if rangeCode == 7 || rangeCode == 8 || rangeCode == 9 then
        Ok(Qualifier(Counted, PowerWidth(rangeCode - 7), prefixWidth, sizePrefix))
      else Err(UnsupportedRange)
  }

  lemma QualifierShape(qualifier: byte)
    requires DecodeQualifier(qualifier).Ok?
    ensures var d := DecodeQualifier(qualifier).value;
      && (d.prefixWidth == 0 || d.prefixWidth == 1 || d.prefixWidth == 2 || d.prefixWidth == 4)
      && (d.kind.AllObjects? ==> d.rangeWidth == 0)
      && (!d.kind.AllObjects? ==> d.rangeWidth == 1 || d.rangeWidth == 2 || d.rangeWidth == 4)
      && (!d.kind.Counted? ==> d.prefixWidth == 0)
  {
  }

  // ---------------------------------------------------------------- unsigned values

  /** appendStrictUnsigned, as the octets it appends. */
  function Unsigned(value: u32, width: nat): Result<seq<byte>, ObjectError> {
    if width != 1 && width != 2 && width != 4 then Err(ValueTooWide)
    else if (width == 1 && value > 255) || (width == 2 && value > 65535) then Err(ValueTooWide)
    else Ok(ToLE(value, width))
  }

  function ReadUnsigned(data: seq<byte>, width: nat): u32
    requires width <= |data|
  {
    if width == 1 || width == 2 || width == 4 then
      FromLEBound(data[..width]);
      PowerValues();
      FromLE(data[..width])
    else 0
  }

  lemma PowerValues()
    ensures Pow256(1) == 256 && Pow256(2) == 65536 && Pow256(4) == 0x1_0000_0000
    ensures Pow256(6) == 0x1_0000_0000_0000 && Pow256(8) == 0x1_0000_0000_0000_0000
  {
    assert Pow256(0) == 1;
    assert Pow256(1) == 256 * Pow256(0);
    assert Pow256(2) == 256 * Pow256(1);
    assert Pow256(3) == 256 * Pow256(2);
    assert Pow256(4) == 256 * Pow256(3);
    assert Pow256(5) == 256 * Pow256(4);
    assert Pow256(6) == 256 * Pow256(5);
    assert Pow256(7) == 256 * Pow256(6);
    assert Pow256(8) == 256 * Pow256(7);
  }

  lemma ReadWritten(value: u32, width: nat, suffix: seq<byte>)
    requires Unsigned(value, width).Ok?
    ensures var w := Unsigned(value, width).value; |w| == width && ReadUnsigned(w + suffix, width) == value
  {
    PowerValues();
    FromToLE(value, width);
    assert (Unsigned(value, width).value + suffix)[..width] == Unsigned(value, width).value;
  }

  lemma WriteRead(data: seq<byte>, width: nat)
    requires width <= |data| && (width == 1 || width == 2 || width == 4)
    ensures Unsigned(ReadUnsigned(data, width), width) == Ok(data[..width])
  {
    PowerValues();
    FromLEBound(data[..width]);
    ToFromLE(data[..width]);
  }

  // ---------------------------------------------------------------- headers

  function EncodeHeader(h: Header): Result<seq<byte>, ObjectError> {
    match DecodeQualifier(h.qualifier)
    case Err(e) => Err(e)
    case Ok(d) =>
      var fixed := [h.group, h.variation, h.qualifier];
      match d.kind
      case AllObjects => Ok(fixed)
      case StartStop =>
        if h.stop < h.start then Err(StopBelowStart)
        else
          var start, stop := Unsigned(h.start, d.rangeWidth), Unsigned(h.stop, d.rangeWidth);
          if start.Err? then Err(start.error)
          else if stop.Err? then Err(stop.error)
          else Ok(fixed + start.value + stop.value)
      case Counted =>
        if h.count == 0 then Err(ZeroCount)
        else
          var count := Unsigned(h.count, d.rangeWidth);
          if count.Err? then Err(count.error) else Ok(fixed + count.value)
  }

  /** A header at the front of the input and the number of octets it took. */
  function DecodeHeader(data: seq<byte>): Result<(Header, nat), ObjectError> {
    if |data| < 3 then Err(Truncated)
    else
      var bare := Header(data[0], data[1], data[2], 0, 0, 0);
      match DecodeQualifier(data[2])
      case Err(e) => Err(e)
      case Ok(d) =>
        var w := d.rangeWidth;
        match d.kind
        case AllObjects => Ok((bare, 3))
        case StartStop =>
          if |data| - 3 < 2 * w then Err(Truncated)
          else
            var start, stop := ReadUnsigned(data[3..], w), ReadUnsigned(data[3 + w..], w);
            if stop < start then Err(StopBelowStart) else Ok((bare.(start := start, stop := stop), 3 + 2 * w))
        case Counted =>
          if |data| - 3 < w then Err(Truncated)
          else
            var count := ReadUnsigned(data[3..], w);
            if count == 0 then Err(ZeroCount) else Ok((bare.(count := count), 3 + w))
  }

  /** The header fields that the qualifier does not put on the wire are zero. */
  predicate CanonicalHeader(h: Header) {
    match DecodeQualifier(h.qualifier)
    case Err(_) => false
    case Ok(d) =>
      match d.kind
      case AllObjects => h.start == h.stop == h.count == 0
      case StartStop => h.count == 0
      case Counted => h.start == h.stop == 0
  }

  /** A canonical header is read back exactly, whatever follows it. */
  lemma DecodeEncodedHeader(h: Header, suffix: seq<byte>)
    requires CanonicalHeader(h) && EncodeHeader(h).Ok?
    ensures |EncodeHeader(h).value| >= 3
    ensures DecodeHeader(EncodeHeader(h).value + suffix) == Ok((h, |EncodeHeader(h).value|))
  {
    hide DecodeQualifier, Unsigned, ReadUnsigned;
    QualifierShape(h.qualifier);
    var d := DecodeQualifier(h.qualifier).value;
    var data := EncodeHeader(h).value + suffix;
    var w := d.rangeWidth;
    match d.kind {
      case AllObjects =>
      case StartStop =>
        var start, stop := Unsigned(h.start, w).value, Unsigned(h.stop, w).value;
        ReadWritten(h.start, w, stop + suffix);
        ReadWritten(h.stop, w, suffix);
        assert |start| == w && |stop| == w;
        assert data[3..] == start + (stop + suffix);
        assert data[3 + w..] == data[3..][w..] == stop + suffix;
      case Counted =>
        ReadWritten(h.count, w, suffix);
        assert data[3..] == Unsigned(h.count, w).value + suffix;
    }
  }

  /** Decoded headers are canonical and encode to the octets they came from. */
  lemma EncodeDecodedHeader(data: seq<byte>)
    requires DecodeHeader(data).Ok?
    ensures var (h, n) := DecodeHeader(data).value;
      3 <= n <= |data| && CanonicalHeader(h) && EncodeHeader(h) == Ok(data[..n])
      && h.group == data[0] && h.variation == data[1] && h.qualifier == data[2]
  {
    hide DecodeQualifier, Unsigned, ReadUnsigned;
    QualifierShape(data[2]);
    var d := DecodeQualifier(data[2]).value;
    var n := DecodeHeader(data).value.1;
    var w := d.rangeWidth;
    assert data[..3] == [data[0], data[1], data[2]];
    match d.kind {
      case AllObjects =>
      case StartStop =>
        WriteRead(data[3..], w);
        WriteRead(data[3 + w..], w);
        assert data[..n] == data[..3] + data[3..][..w] + data[3 + w..][..w];
      case Counted =>
        WriteRead(data[3..], w);
        assert data[..n] == data[..3] + data[3..][..w];
    }
  }
}
