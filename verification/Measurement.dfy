/** Strict measurement points (IEEE Std 1815-2012, Annex A): format tables and the point codec. */
module Measurement {
  import opened Bytes
  import opened ObjectHeader

  type u64 = x: int | 0 <= x < 0x1_0000_0000_0000_0000
  type i16 = x: int | -0x8000 <= x < 0x8000
  type i32 = x: int | -0x8000_0000 <= x < 0x8000_0000

  /** What a point may hold. Floating-point values are their bit patterns. */
  datatype Value = BoolValue(flag: bool) | ByteValue(octet: byte) | UintValue(uint: u32) | Int16Value(short: i16)
                 | Int32Value(long: i32) | Float32Value(bits: u32) | Float64Value(bits64: u64)
                 | OctetsValue(octets: seq<byte>) | OtherValue

  /** A point; its time, if any, in whole milliseconds since the Unix epoch. */
  datatype Point = Point(group: byte, variation: byte, index: u32, value: Value, quality: byte, timestamp: Option<int>)

  datatype Kind = Binary | DoubleBinary | Counter | Int16 | Int32 | Float32 | Float64 | Octets

  datatype Format = Format(kind: Kind, width: nat, quality: bool, timestamp: bool)

  type FormatResult = Result<Format, ObjectError>

  // ---------------------------------------------------------------- format tables

  function PointFormat(group: byte, variation: byte): FormatResult {
    if (group == 1 || group == 10 || group == 3) && variation == 2 then
      Ok(Format(if group == 3 then DoubleBinary else Binary, 0, true, false))
    else if (group == 2 || group == 11 || group == 4) && (variation == 1 || variation == 2) then
      Ok(Format(if group == 4 then DoubleBinary else Binary, 0, true, variation == 2))
    else if group == 20 then CounterFormat(variation, false)
    else if group == 21 then FrozenCounterFormat(variation)
    else if group == 22 || group == 23 then CounterFormat(variation, true)
    else if group == 30 then AnalogFormat(variation, false)
    else if group == 32 || group == 42 then AnalogFormat(variation, true)
    else if group == 40 then AnalogOutputFormat(variation)
    else if (group == 110 || group == 111) && variation != 0 then Ok(Format(Octets, ValOf(variation), false, false))
    else Err(UnsupportedObject)
  }

  function CounterFormat(variation: byte, timed: bool): FormatResult {
    if variation == 1 then Ok(Format(Counter, 4, true, false))
    else if variation == 2 then Ok(Format(Counter, 2, true, false))
    else if variation == 5 then Ok(Format(Counter, 4, timed, timed))
    else if variation == 6 then Ok(Format(Counter, 2, timed, timed))
    else Err(UnsupportedObject)
  }

  function FrozenCounterFormat(variation: byte): FormatResult {
    if variation == 1 then Ok(Format(Counter, 4, true, false))
    else if variation == 2 then Ok(Format(Counter, 2, true, false))
    else if variation == 5 then Ok(Format(Counter, 4, true, true))
    else if variation == 6 then Ok(Format(Counter, 2, true, true))
    else if variation == 9 then Ok(Format(Counter, 4, false, false))
    else if variation == 10 then Ok(Format(Counter, 2, false, false))
    else Err(UnsupportedObject)
  }

  function AnalogFormat(variation: byte, event: bool): FormatResult {
    var timed := event && (variation == 3 || variation == 4 || variation == 7 || variation == 8);
    if variation == 1 || variation == 3 then Ok(Format(Int32, 4, variation != 3 || event, timed))
    else if variation == 2 || variation == 4 then Ok(Format(Int16, 2, variation != 4 || event, timed))
    else if variation == 5 || (variation == 7 && event) then Ok(Format(Float32, 4, true, timed))
    else if variation == 6 || (variation == 8 && event) then Ok(Format(Float64, 8, true, timed))
    else Err(UnsupportedObject)
  }

  function AnalogOutputFormat(variation: byte): FormatResult {
    if variation == 1 then Ok(Format(Int32, 4, true, false))
    else if variation == 2 then Ok(Format(Int16, 2, true, false))
    else if variation == 3 then Ok(Format(Float32, 4, true, false))
    else if variation == 4 then Ok(Format(Float64, 8, true, false))
    else Err(UnsupportedObject)
  }

  /** The shapes that the tables can produce. */
  predicate WellFormed(f: Format) {
    match f.kind
    case Binary => f.width == 0 && f.quality
    case DoubleBinary => f.width == 0 && f.quality
    case Counter => f.width == 2 || f.width == 4
    case Int16 => f.width == 2
    case Int32 => f.width == 4
    case Float32 => f.width == 4
    case Float64 => f.width == 8
    case Octets => f.width > 0
  }

  lemma FormatsWellFormed(group: byte, variation: byte)
    requires PointFormat(group, variation).Ok?
    ensures WellFormed(PointFormat(group, variation).value)
  {
    hide ValOf;
    if (group == 110 || group == 111) && variation != 0 {
      PositiveVal(variation);
    }
  }

  lemma PositiveVal(b: byte)
    requires b != 0
    ensures ValOf(b) > 0
  {
  }

  // ---------------------------------------------------------------- values

  /** Two's complement, one way and the other. */
  function Wrap(v: int, modulus: nat): nat
    requires 0 <= 2 * v + modulus < 2 * modulus
  {
    if v < 0 then v + modulus else v
  }

  function Unwrap(n: nat, modulus: nat): int
    requires n < modulus
  {
    if 2 * n >= modulus then n - modulus else n
  }

  /** Exponent bits not all set: neither infinite nor not-a-number. */
  predicate Finite32(bits: u32) {
    (bits / 0x80_0000) % 0x100 != 0xFF
  }

  predicate Finite64(bits: u64) {
    (bits / 0x10_0000_0000_0000) % 0x800 != 0x7FF
  }

  /** The octets of a point between its leading quality octet and its time. */
  function EncodeValue(f: Format, value: Value, quality: byte): Result<seq<byte>, ObjectError> {
    match f.kind
    case Binary =>
      if !value.BoolValue? then Err(WrongValue)
      else if quality & 0x80 != 0 then Err(QualityHasStateBits)
      else Ok([if value.flag then quality | 0x80 else quality])
    case DoubleBinary =>
      if !value.ByteValue? || value.octet > 3 then Err(WrongValue)
      else if quality & 0xC0 != 0 then Err(QualityHasStateBits)
      else Ok([quality | (value.octet << 6)])
    case Counter => if !value.UintValue? then Err(WrongValue) else Unsigned(value.uint, f.width)
    case Int16 => if !value.Int16Value? then Err(WrongValue) else Ok(ToLE(Wrap(value.short, 0x1_0000), 2))
    case Int32 => if !value.Int32Value? then Err(WrongValue) else Ok(ToLE(Wrap(value.long, 0x1_0000_0000), 4))
    case Float32 =>
      if !value.Float32Value? || !Finite32(value.bits) then Err(WrongValue) else Ok(ToLE(value.bits, 4))
    case Float64 =>
      if !value.Float64Value? || !Finite64(value.bits64) then Err(WrongValue) else Ok(ToLE(value.bits64, 8))
    case Octets =>
      if !value.OctetsValue? || |value.octets| != f.width then Err(WrongValue) else Ok(value.octets)
  }

  function ValueSize(f: Format): nat {
    if f.kind.Binary? || f.kind.DoubleBinary? then 1 else f.width
  }

  predicate LeadingQuality(f: Format) {
    f.quality && !f.kind.Binary? && !f.kind.DoubleBinary?
  }

  /** The value in exactly its own octets, and the quality bits that share them. */
  function DecodeValue(f: Format, data: seq<byte>): Result<(Value, byte), ObjectError>
    requires WellFormed(f) && |data| == ValueSize(f)
  {
    FromLEBound(data);
    PowerValues();
    match f.kind
    case Binary => Ok((BoolValue(data[0] & 0x80 != 0), data[0] & 0x7F))
    case DoubleBinary => Ok((ByteValue(data[0] >> 6), data[0] & 0x3F))
    case Counter => Ok((UintValue(FromLE(data)), 0))
    case Int16 => Ok((Int16Value(Unwrap(FromLE(data), 0x1_0000)), 0))
    case Int32 => Ok((Int32Value(Unwrap(FromLE(data), 0x1_0000_0000)), 0))
    case Float32 => if Finite32(FromLE(data)) then Ok((Float32Value(FromLE(data)), 0)) else Err(NotFinite)
    case Float64 => if Finite64(FromLE(data)) then Ok((Float64Value(FromLE(data)), 0)) else Err(NotFinite)
    case Octets => Ok((OctetsValue(data), 0))
  }

  lemma BinaryOctet(flag: bool, quality: byte)
    requires quality & 0x80 == 0
    ensures var o := if flag then quality | 0x80 else quality; (o & 0x80 != 0) == flag && o & 0x7F == quality
  {
  }

  lemma DoubleOctet(value: byte, quality: byte)
    requires value <= 3 && quality & 0xC0 == 0
    ensures var o := quality | (value << 6); o >> 6 == value && o & 0x3F == quality
  {
  }

  lemma OctetParts(o: byte)
    ensures (o & 0x7F) & 0x80 == 0 && (if o & 0x80 != 0 then (o & 0x7F) | 0x80 else o & 0x7F) == o
    ensures o >> 6 <= 3 && (o & 0x3F) & 0xC0 == 0 && (o & 0x3F) | ((o >> 6) << 6) == o
  {
  }

  /** Values survive their octets; quality does too where it shares them. */
  lemma DecodeEncodedValue(f: Format, value: Value, quality: byte)
    requires WellFormed(f) && EncodeValue(f, value, quality).Ok?
    ensures var w := EncodeValue(f, value, quality).value;
      |w| == ValueSize(f)
      && DecodeValue(f, w) == Ok((value, if f.kind.Binary? || f.kind.DoubleBinary? then quality else 0))
  {
    PowerValues();
    match f.kind {
      case Binary => BinaryOctet(value.flag, quality);
      case DoubleBinary => DoubleOctet(value.octet, quality);
      case Counter => FromToLE(value.uint, f.width);
      case Int16 => FromToLE(Wrap(value.short, 0x1_0000), 2);
      case Int32 => FromToLE(Wrap(value.long, 0x1_0000_0000), 4);
      case Float32 => FromToLE(value.bits, 4);
      case Float64 => FromToLE(value.bits64, 8);
      case Octets =>
    }
  }

  lemma EncodeDecodedValue(f: Format, data: seq<byte>, quality: byte)
    requires WellFormed(f) && |data| == ValueSize(f) && DecodeValue(f, data).Ok?
    ensures var (value, shared) := DecodeValue(f, data).value;
      EncodeValue(f, value, if f.kind.Binary? || f.kind.DoubleBinary? then shared else quality) == Ok(data)
  {
    PowerValues();
    FromLEBound(data);
    ToFromLE(data);
    if f.kind.Binary? || f.kind.DoubleBinary? {
      OctetParts(data[0]);
      assert data == [data[0]];
    }
  }

  // ---------------------------------------------------------------- time

  function Time48(milliseconds: int): Result<seq<byte>, ObjectError> {
    if milliseconds < 0 || milliseconds > 0xFFFF_FFFF_FFFF then Err(TimeOutOfRange) else Ok(ToLE(milliseconds, 6))
  }

  function ReadTime48(data: seq<byte>): int
    requires |data| == 6
  {
    FromLE(data)
  }

  lemma TimeRoundTrip(milliseconds: int)
    requires Time48(milliseconds).Ok?
    ensures |Time48(milliseconds).value| == 6 && ReadTime48(Time48(milliseconds).value) == milliseconds
  {
    PowerValues();
    FromToLE(milliseconds, 6);
  }

  lemma TimeOctets(data: seq<byte>)
    requires |data| == 6
    ensures Time48(ReadTime48(data)) == Ok(data)
  {
    PowerValues();
    FromLEBound(data);
    ToFromLE(data);
  }

  // ---------------------------------------------------------------- points

  function EncodePoint(p: Point): Result<seq<byte>, ObjectError> {
    match PointFormat(p.group, p.variation)
    case Err(e) => Err(e)
    case Ok(f) =>
      match EncodeValue(f, p.value, p.quality)
      case Err(e) => Err(e)
      case Ok(body) =>
        var payload := (if LeadingQuality(f) then [p.quality] else []) + body;
        if f.timestamp then
          if p.timestamp.None? then Err(MissingTime)
          else
            var time := Time48(p.timestamp.value);
            if time.Err? then Err(time.error) else Ok(payload + time.value)
        else if p.timestamp.Some? then Err(UnexpectedTime)
        else Ok(payload)
  }

  /** The number of octets that every point of a format takes. */
  function PointSize(f: Format): nat {
    (if LeadingQuality(f) then 1 else 0) + ValueSize(f) + (if f.timestamp then 6 else 0)
  }

  /** The octets of one point in each supported format, by group and variation; zero for the others. */
  function ListedSize(group: byte, variation: byte): nat {
    if group == 1 || group == 3 || group == 10 then if variation == 2 then 1 else 0
    else if group == 2 || group == 4 || group == 11 then if variation == 1 then 1 else if variation == 2 then 7 else 0
    else if group == 20 || group == 21 || group == 22 || group == 23 then
      if variation == 1 then 5 else if variation == 2 then 3
      else if variation == 5 then if group == 20 then 4 else 11
      else if variation == 6 then if group == 20 then 2 else 9
      else if variation == 9 && group == 21 then 4
      else if variation == 10 && group == 21 then 2
      else 0
    else if group == 30 then
      if variation == 1 then 5 else if variation == 2 then 3 else if variation == 3 then 4 else if variation == 4 then 2
      else if variation == 5 then 5 else if variation == 6 then 9 else 0
    else if group == 32 || group == 42 then
      if variation == 1 then 5 else if variation == 2 then 3 else if variation == 3 then 11
      else if variation == 4 then 9 else if variation == 5 then 5 else if variation == 6 then 9
      else if variation == 7 then 11 else if variation == 8 then 15 else 0
    else if group == 40 then
      if variation == 1 then 5 else if variation == 2 then 3 else if variation == 3 then 5 else if variation == 4 then 9
      else 0
    else if group == 110 || group == 111 then ValOf(variation)
    else 0
  }

  /** The format tables support exactly the listed formats, and give each point its listed size. */
  lemma SizesListed(group: byte, variation: byte)
    ensures PointFormat(group, variation).Ok? <==> ListedSize(group, variation) != 0
    ensures PointFormat(group, variation).Ok? ==>
      PointSize(PointFormat(group, variation).value) == ListedSize(group, variation)
  {
    hide ValOf;
    ZeroVal();
    if variation != 0 {
      PositiveVal(variation);
    }
  }

  lemma ZeroVal()
    ensures ValOf(0) == 0
  {
  }

  /** A point at the front of the input, its index left at zero, and the number of octets it took. */
  function DecodePoint(group: byte, variation: byte, data: seq<byte>): Result<(Point, nat), ObjectError> {
    match PointFormat(group, variation)
    case Err(e) => Err(e)
    case Ok(f) =>
      FormatsWellFormed(group, variation);
      var size := PointSize(f);
      if |data| < size then Err(Truncated)
      else
        var lead := if LeadingQuality(f) then 1 else 0;
        var n := ValueSize(f);
        match DecodeValue(f, data[lead..lead + n])
        case Err(e) => Err(e)
        case Ok((value, shared)) =>
          var quality := if LeadingQuality(f) then data[0] else shared;
          var time := if f.timestamp then Some(ReadTime48(data[lead + n..size])) else None;
          Ok((Point(group, variation, 0, value, quality, time), size))
  }

  /** The encoder drops a quality that the format has no room for; a canonical point has none there. */
  predicate CanonicalPoint(p: Point) {
    PointFormat(p.group, p.variation).Ok? && !PointFormat(p.group, p.variation).value.quality ==> p.quality == 0
  }

  /** A canonical point is read back exactly, but for its index, whatever follows it. */
  lemma DecodeEncodedPoint(p: Point, suffix: seq<byte>)
    requires EncodePoint(p).Ok? && CanonicalPoint(p)
    ensures DecodePoint(p.group, p.variation, EncodePoint(p).value + suffix)
         == Ok((p.(index := 0), |EncodePoint(p).value|))
  {
    hide PointFormat, EncodeValue, DecodeValue, Time48, ReadTime48;
    FormatsWellFormed(p.group, p.variation);
    var f := PointFormat(p.group, p.variation).value;
    var data := EncodePoint(p).value + suffix;
    var lead := if LeadingQuality(f) then 1 else 0;
    var body := EncodeValue(f, p.value, p.quality).value;
    DecodeEncodedValue(f, p.value, p.quality);
    assert data[lead..lead + |body|] == body;
    if f.timestamp {
      TimeRoundTrip(p.timestamp.value);
      assert data[lead + |body|..lead + |body| + 6] == Time48(p.timestamp.value).value;
    }
  }

  /** A decoded point is canonical and encodes to the octets it came from, under any index. */
  lemma EncodeDecodedPoint(group: byte, variation: byte, data: seq<byte>, index: u32)
    requires DecodePoint(group, variation, data).Ok?
    ensures var (p, n) := DecodePoint(group, variation, data).value;
      0 < n <= |data| && p.group == group && p.variation == variation && p.index == 0
      && CanonicalPoint(p.(index := index)) && EncodePoint(p.(index := index)) == Ok(data[..n])
  {
    hide PointFormat, EncodeValue, DecodeValue, Time48, ReadTime48, ValueSize;
    FormatsWellFormed(group, variation);
    var f := PointFormat(group, variation).value;
    var (p, size) := DecodePoint(group, variation, data).value;
    var lead, n := if LeadingQuality(f) then 1 else 0, ValueSize(f);
    var body := data[lead..lead + n];
    SizePositive(f);
    EncodeDecodedValue(f, body, p.quality);
    SharedQuality(f, body);
    SplitPoint(data, lead, n, size);
    assert data[..lead] == if LeadingQuality(f) then [p.quality] else [];
    if f.timestamp {
      TimeOctets(data[lead + n..size]);
    } else {
      assert data[lead + n..size] == [] && data[..lead] + body + [] == data[..lead] + body;
    }
  }

  lemma SizePositive(f: Format)
    requires WellFormed(f)
    ensures ValueSize(f) > 0
  {
  }

  /** Only the binary formats share an octet between the value and its quality. */
  lemma SharedQuality(f: Format, body: seq<byte>)
    requires WellFormed(f) && |body| == ValueSize(f) && DecodeValue(f, body).Ok?
    ensures !f.kind.Binary? && !f.kind.DoubleBinary? ==> DecodeValue(f, body).value.1 == 0
  {
  }

  lemma SplitPoint(data: seq<byte>, lead: nat, n: nat, size: nat)
    requires lead + n <= size <= |data|
    ensures data[..size] == data[..lead] + data[lead..lead + n] + data[lead + n..size]
  {
  }
}
