/**
 * The octets of object headers, points and blocks (IEEE Std 1815-2012, clause 4 and Annex A), position by position, and
 * exactly which of them the encoder accepts.
 */
module ObjectOctets {
  import opened Bytes
  import opened ObjectHeader
  import opened Measurement
  import opened PackedPoints
  import opened ObjectBlock

  // ---------------------------------------------------------------- qualifiers, octet by octet

  /** Counts of one, two and four octets. */
  const COUNT_1: set<byte> := {0x07, 0x17, 0x27, 0x37, 0x47, 0x57, 0x67}
  const COUNT_2: set<byte> := {0x08, 0x18, 0x28, 0x38, 0x48, 0x58, 0x68}
  const COUNT_4: set<byte> := {0x09, 0x19, 0x29, 0x39, 0x49, 0x59, 0x69}

  /** Points behind an index of one, two or four octets, and behind a size. */
  const INDEX_1: set<byte> := {0x17, 0x18, 0x19}
  const INDEX_2: set<byte> := {0x27, 0x28, 0x29}
  const INDEX_4: set<byte> := {0x37, 0x38, 0x39}
  const SIZED: set<byte> := {0x47, 0x48, 0x49, 0x57, 0x58, 0x59, 0x67, 0x68, 0x69}

  /** The octets of one number of the range. */
  function RangeWidth(q: byte): nat {
    if q == 0x06 then 0
    else if q == 0x00 || q in COUNT_1 then 1
    else if q == 0x01 || q in COUNT_2 then 2
    else 4
  }

  function IndexWidth(q: byte): nat {
    if q in INDEX_1 then 1 else if q in INDEX_2 then 2 else if q in INDEX_4 then 4 else 0
  }

  predicate Counts(q: byte) {
    q in COUNT_1 || q in COUNT_2 || q in COUNT_4
  }

  predicate Ranges(q: byte) {
    q == 0x00 || q == 0x01 || q == 0x02
  }

  /** The 25 qualifiers that are understood. */
  predicate Known(q: byte) {
    Ranges(q) || q == 0x06 || Counts(q)
  }

  lemma QualifierKnown(q: byte)
    ensures DecodeQualifier(q).Ok? <==> Known(q)
    ensures DecodeQualifier(q) == Err(UnsupportedPrefix) <==> q >= 0x70
    ensures DecodeQualifier(q) == Err(PrefixNotAllowed) <==> 0x10 <= q < 0x70 && q & 0x0F in {0x00, 0x01, 0x02, 0x06}
  {
  }

  /** What each qualifier stands for. */
  lemma QualifierListed(q: byte)
    requires Known(q)
    ensures var d := DecodeQualifier(q).value;
      && d.kind == (if Ranges(q) then StartStop else if Counts(q) then Counted else AllObjects)
      && d.rangeWidth == RangeWidth(q) && d.sizePrefix == (q in SIZED)
      && (q !in SIZED ==> d.prefixWidth == IndexWidth(q))
  {
  }

  // ---------------------------------------------------------------- headers, octet by octet

  function HeaderLength(q: byte): nat {
    3 + (if Ranges(q) then 2 * RangeWidth(q) else RangeWidth(q))
  }

  /** The largest number of a given width. */
  function Largest(width: nat): nat {
    if width == 1 then 255 else if width == 2 then 65535 else 0xFFFF_FFFF
  }

  /** Which headers are encoded. */
  predicate HeaderAccepted(h: Header) {
    && Known(h.qualifier)
    && (Ranges(h.qualifier) ==> h.start <= h.stop <= Largest(RangeWidth(h.qualifier)))
    && (Counts(h.qualifier) ==> 0 < h.count <= Largest(RangeWidth(h.qualifier)))
  }

  lemma NumberAccepted(value: u32, width: nat)
    requires width == 1 || width == 2 || width == 4
    ensures Unsigned(value, width).Ok? <==> value <= Largest(width)
    ensures Unsigned(value, width).Ok? ==> value < Pow256(width) && Unsigned(value, width).value == ToLE(value, width)
  {
    PowerValues();
  }

  lemma HeaderEncodesIff(h: Header)
    ensures EncodeHeader(h).Ok? <==> HeaderAccepted(h)
  {
    hide DecodeQualifier, Unsigned, Largest, RangeWidth;
    QualifierKnown(h.qualifier);
    if Known(h.qualifier) {
      QualifierListed(h.qualifier);
      QualifierShape(h.qualifier);
      var d := DecodeQualifier(h.qualifier).value;
      if d.rangeWidth > 0 {
        NumberAccepted(h.start, d.rangeWidth);
        NumberAccepted(h.stop, d.rangeWidth);
        NumberAccepted(h.count, d.rangeWidth);
      }
    }
  }

  /** Where everything is in an encoded header: group, variation, qualifier, then start and stop, or the count. */
  predicate HeaderLaidOut(h: Header, w: seq<byte>) {
    var n := RangeWidth(h.qualifier);
    && |w| == HeaderLength(h.qualifier) && w[0] == h.group && w[1] == h.variation && w[2] == h.qualifier
    && (Ranges(h.qualifier) ==> LowFirst(w, 3, n, h.start) && LowFirst(w, 3 + n, n, h.stop))
    && (Counts(h.qualifier) ==> LowFirst(w, 3, n, h.count))
  }

  lemma HeaderOctets(h: Header)
    requires EncodeHeader(h).Ok?
    ensures HeaderLaidOut(h, EncodeHeader(h).value)
  {
    hide DecodeQualifier, Unsigned, Largest, RangeWidth, ToLE, LowFirst, Counts, Ranges;
    HeaderEncodesIff(h);
    QualifierListed(h.qualifier);
    QualifierShape(h.qualifier);
    var d, w := DecodeQualifier(h.qualifier).value, EncodeHeader(h).value;
    var n, fixed := d.rangeWidth, [h.group, h.variation, h.qualifier];
    match d.kind {
      case AllObjects => NoRange(h.qualifier);
      case StartStop =>
        NumberAccepted(h.start, n);
        NumberAccepted(h.stop, n);
        var start, stop := ToLE(h.start, n), ToLE(h.stop, n);
        Piece(fixed, start, stop);
        Piece(fixed + start, stop, []);
        assert w == fixed + start + stop && w == fixed + start + stop + [];
        WritesLowFirst(w, 3, n, h.start);
        WritesLowFirst(w, 3 + n, n, h.stop);
        OneKind(h.qualifier);
      case Counted =>
        NumberAccepted(h.count, n);
        Piece(fixed, ToLE(h.count, n), []);
        assert w == fixed + ToLE(h.count, n) + [];
        WritesLowFirst(w, 3, n, h.count);
        OneKind(h.qualifier);
    }
  }

  lemma OneKind(q: byte)
    ensures !(Ranges(q) && Counts(q))
  {
  }

  lemma NoRange(q: byte)
    requires Known(q) && !Ranges(q) && !Counts(q)
    ensures RangeWidth(q) == 0
  {
  }

  /** Exactly which octet strings begin with a header. */
  lemma HeaderDecodesIff(data: seq<byte>)
    ensures DecodeHeader(data).Ok? <==>
      |data| >= 3 && Known(data[2]) && |data| >= HeaderLength(data[2])
      && var n := RangeWidth(data[2]);
         && (Ranges(data[2]) ==> FromLE(data[3..3 + n]) <= FromLE(data[3 + n..3 + n + n]))
         && (Counts(data[2]) ==> FromLE(data[3..3 + n]) > 0)
  {
    hide DecodeQualifier, RangeWidth, FromLE, Counts, Ranges;
    if |data| >= 3 {
      QualifierKnown(data[2]);
      if Known(data[2]) {
        QualifierListed(data[2]);
        QualifierShape(data[2]);
        OneKind(data[2]);
        var n := RangeWidth(data[2]);
        if |data| >= 3 + n {
          assert data[3..][..n] == data[3..3 + n];
          if |data| >= 3 + n + n {
            assert data[3 + n..][..n] == data[3 + n..3 + n + n];
          }
        }
        if !Ranges(data[2]) && !Counts(data[2]) {
          NoRange(data[2]);
        }
      }
    }
  }

  // ---------------------------------------------------------------- points, octet by octet

  /** Every supported variation of every group: what it holds, in how many octets, with quality and with time or not. */
  function ListedFormat(group: byte, variation: byte): FormatResult {
    if group in {1, 2, 3, 4, 10, 11} then ListedBinary(group, variation)
    else if group in {20, 21, 22, 23} then ListedCounter(group, variation)
    else if group in {30, 32, 42} then ListedAnalog(group, variation)
    else if group == 40 then
      if variation == 1 then Ok(Format(Int32, 4, true, false))
      else if variation == 2 then Ok(Format(Int16, 2, true, false))
      else if variation == 3 then Ok(Format(Float32, 4, true, false))
      else if variation == 4 then Ok(Format(Float64, 8, true, false))
      else Err(UnsupportedObject)
    else if group in {110, 111} && variation > 0 then Ok(Format(Octets, ValOf(variation), false, false))
    else Err(UnsupportedObject)
  }

  function ListedBinary(group: byte, variation: byte): FormatResult {
    var kind := if group in {3, 4} then DoubleBinary else Binary;
    if group in {1, 3, 10} && variation == 2 then Ok(Format(kind, 0, true, false))
    else if group in {2, 4, 11} && variation == 1 then Ok(Format(kind, 0, true, false))
    else if group in {2, 4, 11} && variation == 2 then Ok(Format(kind, 0, true, true))
    else Err(UnsupportedObject)
  }

  function ListedCounter(group: byte, variation: byte): FormatResult {
    if variation == 1 then Ok(Format(Counter, 4, true, false))
    else if variation == 2 then Ok(Format(Counter, 2, true, false))
    else if variation == 5 && group != 20 then Ok(Format(Counter, 4, true, true))
    else if variation == 6 && group != 20 then Ok(Format(Counter, 2, true, true))
    else if (variation == 5 && group == 20) || (variation == 9 && group == 21) then Ok(Format(Counter, 4, false, false))
    else if (variation == 6 && group == 20) || (variation == 10 && group == 21) then
      Ok(Format(Counter, 2, false, false))
    else Err(UnsupportedObject)
  }

  /** Group 30 has values without quality where the event groups have values with time. */
  function ListedAnalog(group: byte, variation: byte): FormatResult {
    if variation == 1 then Ok(Format(Int32, 4, true, false))
    else if variation == 2 then Ok(Format(Int16, 2, true, false))
    else if variation == 5 then Ok(Format(Float32, 4, true, false))
    else if variation == 6 then Ok(Format(Float64, 8, true, false))
    else if group == 30 then
      if variation == 3 then Ok(Format(Int32, 4, false, false))
      else if variation == 4 then Ok(Format(Int16, 2, false, false))
      else Err(UnsupportedObject)
    else if variation == 3 then Ok(Format(Int32, 4, true, true))
    else if variation == 4 then Ok(Format(Int16, 2, true, true))
    else if variation == 7 then Ok(Format(Float32, 4, true, true))
    else if variation == 8 then Ok(Format(Float64, 8, true, true))
    else Err(UnsupportedObject)
  }

  /** The format tables of the code are this list, for all 65536 pairs. */
  lemma FormatsListed(group: byte, variation: byte)
    ensures PointFormat(group, variation) == ListedFormat(group, variation)
  {
    hide ValOf;
  }

  /** The sign bit taken off, below the pattern of infinity: neither infinite nor not-a-number. */
  predicate FinitePattern32(bits: u32) {
    bits % 0x8000_0000 < 0x7F80_0000
  }

  predicate FinitePattern64(bits: u64) {
    bits % 0x8000_0000_0000_0000 < 0x7FF0_0000_0000_0000
  }

  lemma FiniteMeans(bits: u32, bits64: u64)
    ensures Finite32(bits) <==> FinitePattern32(bits)
    ensures Finite64(bits64) <==> FinitePattern64(bits64)
  {
  }

  /** The values that a format can carry, and the quality that leaves their bits alone. */
  predicate ValueAccepted(f: Format, value: Value, quality: byte) {
    match f.kind
    case Binary => value.BoolValue? && quality < 0x80
    case DoubleBinary => value.ByteValue? && value.octet <= 3 && quality < 0x40
    case Counter => value.UintValue? && (f.width == 2 ==> value.uint <= 65535)
    case Int16 => value.Int16Value?
    case Int32 => value.Int32Value?
    case Float32 => value.Float32Value? && FinitePattern32(value.bits)
    case Float64 => value.Float64Value? && FinitePattern64(value.bits64)
    case Octets => value.OctetsValue? && |value.octets| == f.width
  }

  lemma QualityBits(quality: byte)
    ensures quality & 0x80 == 0 <==> quality < 0x80
    ensures quality & 0xC0 == 0 <==> quality < 0x40
  {
  }

  lemma ValueEncodesIff(f: Format, value: Value, quality: byte)
    requires WellFormed(f)
    ensures EncodeValue(f, value, quality).Ok? <==> ValueAccepted(f, value, quality)
  {
    hide ToLE, Finite32, Finite64, FinitePattern32, FinitePattern64, Wrap;
    QualityBits(quality);
    if value.Float32Value? {
      FiniteMeans(value.bits, 0);
    }
    if value.Float64Value? {
      FiniteMeans(0, value.bits64);
    }
  }

  /** Which points are encoded: listed formats, fitting values, and a time exactly where there is room for it. */
  predicate PointAccepted(p: Point) {
    var f := ListedFormat(p.group, p.variation);
    && f.Ok? && ValueAccepted(f.value, p.value, p.quality)
    && p.timestamp.Some? == f.value.timestamp
    && (p.timestamp.Some? ==> 0 <= p.timestamp.value < 0x1_0000_0000_0000)
  }

  lemma PointEncodesIff(p: Point)
    ensures EncodePoint(p).Ok? <==> PointAccepted(p)
  {
    hide PointFormat, ListedFormat, EncodeValue, ValueAccepted;
    FormatsListed(p.group, p.variation);
    if PointFormat(p.group, p.variation).Ok? {
      FormatsWellFormed(p.group, p.variation);
      ValueEncodesIff(PointFormat(p.group, p.variation).value, p.value, p.quality);
    }
  }

  /** Where the value stands, from position at on, low octet first and negative numbers in two's complement. */
  predicate ValueLaidOut(f: Format, value: Value, quality: byte, w: seq<byte>, at: nat) {
    match f.kind
    case Binary => at < |w| && value.BoolValue? && w[at] == quality | (if value.flag then 0x80 else 0x00)
    case DoubleBinary =>
      at < |w| && value.ByteValue?
      && w[at] == quality | (if value.octet == 3 then 0xC0 else if value.octet == 2 then 0x80
                             else if value.octet == 1 then 0x40 else 0x00)
    case Counter => value.UintValue? && LowFirst(w, at, f.width, value.uint)
    case Int16 =>
      value.Int16Value? && LowFirst(w, at, 2, if value.short < 0 then 65536 + value.short else value.short)
    case Int32 =>
      value.Int32Value? && LowFirst(w, at, 4, if value.long < 0 then 0x1_0000_0000 + value.long else value.long)
    case Float32 => value.Float32Value? && LowFirst(w, at, 4, value.bits)
    case Float64 => value.Float64Value? && LowFirst(w, at, 8, value.bits64)
    case Octets => value.OctetsValue? && at + f.width <= |w| && w[at..at + f.width] == value.octets
  }

  lemma ValueOctets(f: Format, value: Value, quality: byte, w: seq<byte>, at: nat)
    requires WellFormed(f) && EncodeValue(f, value, quality).Ok?
    requires var body := EncodeValue(f, value, quality).value; at + |body| <= |w| && w[at..at + |body|] == body
    ensures ValueLaidOut(f, value, quality, w, at)
  {
    hide ToLE, LowFirst, Pow256;
    PowerValues();
    match f.kind {
      case Binary => BinaryOctets(value, quality, w, at);
      case DoubleBinary => DoubleOctets(value, quality, w, at);
      case Counter =>
        NumberAccepted(value.uint, f.width);
        WritesLowFirst(w, at, f.width, value.uint);
      case Int16 => WritesLowFirst(w, at, 2, Wrap(value.short, 0x1_0000));
      case Int32 => WritesLowFirst(w, at, 4, Wrap(value.long, 0x1_0000_0000));
      case Float32 => WritesLowFirst(w, at, 4, value.bits);
      case Float64 => WritesLowFirst(w, at, 8, value.bits64);
      case Octets =>
    }
  }

  lemma BinaryOctets(value: Value, quality: byte, w: seq<byte>, at: nat)
    requires value.BoolValue? && at + 1 <= |w|
    requires w[at..at + 1] == [if value.flag then quality | 0x80 else quality]
    ensures w[at] == quality | (if value.flag then 0x80 else 0x00)
  {
    assert w[at..at + 1][0] == w[at];
  }

  lemma DoubleOctets(value: Value, quality: byte, w: seq<byte>, at: nat)
    requires value.ByteValue? && value.octet <= 3 && at + 1 <= |w|
    requires w[at..at + 1] == [quality | (value.octet << 6)]
    ensures w[at] == quality | (if value.octet == 3 then 0xC0 else if value.octet == 2 then 0x80
                                else if value.octet == 1 then 0x40 else 0x00)
  {
    assert w[at..at + 1][0] == w[at];
  }

  /** The octets in front of the value: the quality, unless the format has none or the value shares its octet. */
  function LeadLength(f: Format): nat {
    if f.quality && f.kind != Binary && f.kind != DoubleBinary then 1 else 0
  }

  /** Where everything is in an encoded point: quality, value, and time in the last six octets. */
  predicate PointLaidOut(f: Format, p: Point, w: seq<byte>) {
    && |w| == ListedSize(p.group, p.variation)
    && (LeadLength(f) == 1 ==> |w| >= 1 && w[0] == p.quality)
    && ValueLaidOut(f, p.value, p.quality, w, LeadLength(f))
    && (f.timestamp ==> |w| >= 6 && p.timestamp.Some? && LowFirst(w, |w| - 6, 6, p.timestamp.value))
  }

  lemma PointOctets(p: Point)
    requires EncodePoint(p).Ok?
    ensures ListedFormat(p.group, p.variation).Ok?
    ensures PointLaidOut(ListedFormat(p.group, p.variation).value, p, EncodePoint(p).value)
  {
    hide PointFormat, ListedFormat, EncodeValue, ValueLaidOut, ListedSize, ToLE, LowFirst, Pow256;
    FormatsListed(p.group, p.variation);
    SizesListed(p.group, p.variation);
    FormatsWellFormed(p.group, p.variation);
    PowerValues();
    var f, w := PointFormat(p.group, p.variation).value, EncodePoint(p).value;
    var body := EncodeValue(f, p.value, p.quality).value;
    DecodeEncodedValue(f, p.value, p.quality);
    var lead := if LeadingQuality(f) then [p.quality] else [];
    if f.timestamp {
      var time := ToLE(p.timestamp.value, 6);
      Piece(lead, body, time);
      Piece(lead + body, time, []);
      assert w == lead + body + time && w == lead + body + time + [];
      WritesLowFirst(w, |lead| + |body|, 6, p.timestamp.value);
    } else {
      Piece(lead, body, []);
      assert w == lead + body + [];
    }
    ValueOctets(f, p.value, p.quality, w, |lead|);
  }
}
