/** Measurement object blocks: a header with its complete point set, and lists of blocks under aggregate limits. */
module ObjectBlock {
  import opened Bytes
  import opened ObjectHeader
  import opened Measurement
  import opened PackedPoints

  datatype Block = Block(header: Header, points: seq<Point>)

  predicate SelectorObject(group: byte, variation: byte) {
    group == 60 && 1 <= variation <= 4
  }

  /** strictHeaderCount: how many points the header announces. */
  function HeaderCount(h: Header, d: Qualifier): Result<nat, ObjectError> {
    match d.kind
    case AllObjects => Ok(0)
    case StartStop => if h.stop < h.start then Err(StopBelowStart) else Ok(h.stop - h.start + 1)
    case Counted => if h.count == 0 then Err(ZeroCount) else Ok(h.count)
  }

  // ---------------------------------------------------------------- points that are not packed

  /** The index that position i stands for when the point carries none itself. */
  function ExpectedIndex(h: Header, d: Qualifier, i: nat): u32 {
    IndexAt(if d.kind.StartStop? then h.start else 0, i)
  }

  /** The octets of point i: its index prefix, if there is one, then its payload. */
  function EncodeIndexed(h: Header, d: Qualifier, p: Point, i: nat): Result<seq<byte>, ObjectError> {
    if p.group != h.group || p.variation != h.variation then Err(PointMismatch)
    else if d.prefixWidth == 0 && p.index != ExpectedIndex(h, d, i) then Err(PointMismatch)
    else
      var prefix := if d.prefixWidth == 0 then Ok([]) else Unsigned(p.index, d.prefixWidth);
      if prefix.Err? then prefix
      else
        var payload := EncodePoint(p);
        if payload.Err? then payload else Ok(prefix.value + payload.value)
  }

  /** Points i, i + 1, … of a block. */
  function EncodePoints(h: Header, d: Qualifier, points: seq<Point>, i: nat): Result<seq<byte>, ObjectError>
    decreases |points|
  {
    if points == [] then Ok([])
    else
      var first := EncodeIndexed(h, d, points[0], i);
      if first.Err? then first
      else
        var rest := EncodePoints(h, d, points[1..], i + 1);
        if rest.Err? then rest else Ok(first.value + rest.value)
  }

  function DecodeIndexed(h: Header, d: Qualifier, data: seq<byte>, i: nat): Result<(Point, nat), ObjectError> {
    if |data| < d.prefixWidth then Err(Truncated)
    else
      var index := if d.prefixWidth == 0 then ExpectedIndex(h, d, i) else ReadUnsigned(data, d.prefixWidth);
      match DecodePoint(h.group, h.variation, data[d.prefixWidth..])
      case Err(e) => Err(e)
      case Ok((p, n)) => Ok((p.(index := index), d.prefixWidth + n))
  }

  /** count points from position i on, and the octets they took. */
  function DecodePoints(h: Header, d: Qualifier, data: seq<byte>, i: nat, count: nat)
    : (r: Result<(seq<Point>, nat), ObjectError>)
    ensures r.Ok? ==> r.value.1 <= |data| && |r.value.0| == count
    decreases count
  {
    if count == 0 then Ok(([], 0))
    else
      match DecodeIndexed(h, d, data, i)
      case Err(e) => Err(e)
      case Ok((p, n)) =>
        if n > |data| then Err(Truncated)
        else
          match DecodePoints(h, d, data[n..], i + 1, count - 1)
          case Err(e) => Err(e)
          case Ok((rest, m)) => Ok(([p] + rest, n + m))
  }

  // ---------------------------------------------------------------- blocks

  function EncodeBlock(b: Block): Result<seq<byte>, ObjectError> {
    var h := b.header;
    match DecodeQualifier(h.qualifier)
    case Err(e) => Err(e)
    case Ok(d) =>
      match HeaderCount(h, d)
      case Err(e) => Err(e)
      case Ok(count) =>
        if |b.points| != count then Err(WrongPointCount)
        else if d.sizePrefix then Err(SizePrefixNotSupported)
        else
          match EncodeHeader(h)
          case Err(e) => Err(e)
          case Ok(head) =>
            if count == 0 then
              if SelectorObject(h.group, h.variation) then Ok(head) else Err(UnsupportedObject)
            else
              match EncodeBody(h, d, b.points)
              case Err(e) => Err(e)
              case Ok(body) => Ok(head + body)
  }

  function EncodeBody(h: Header, d: Qualifier, points: seq<Point>): Result<seq<byte>, ObjectError> {
    if PackedObject(h.group, h.variation) then
      if d.prefixWidth != 0 then Err(PrefixNotAllowed) else EncodePacked(h, points)
    else EncodePoints(h, d, points, 0)
  }

  function DecodeBody(h: Header, d: Qualifier, data: seq<byte>, count: nat): Result<(seq<Point>, nat), ObjectError> {
    if PackedObject(h.group, h.variation) then
      if d.prefixWidth != 0 then Err(PrefixNotAllowed) else DecodePacked(h, data, count)
    else DecodePoints(h, d, data, 0, count)
  }

  /** A block at the front of the input and the number of octets it took. */
  function DecodeBlock(data: seq<byte>, maximumPoints: int): Result<(Block, nat), ObjectError> {
    if maximumPoints < 1 then Err(BadLimit)
    else
      match DecodeHeader(data)
      case Err(e) => Err(e)
      case Ok((h, offset)) =>
        match DecodeQualifier(h.qualifier)
        case Err(e) => Err(e)
        case Ok(d) =>
          if d.sizePrefix then Err(SizePrefixNotSupported)
          else
            match HeaderCount(h, d)
            case Err(e) => Err(e)
            case Ok(count) =>
              if count == 0 then
                if SelectorObject(h.group, h.variation) then Ok((Block(h, []), offset)) else Err(UnsupportedObject)
              else if count > maximumPoints then Err(PointLimit)
              else if offset > |data| then Err(Truncated)
              else
                match DecodeBody(h, d, data[offset..], count)
                case Err(e) => Err(e)
                case Ok((points, n)) => Ok((Block(h, points), offset + n))
  }

  /** Nothing in the block is silently dropped by the encoder. */
  predicate CanonicalBlock(b: Block) {
    CanonicalHeader(b.header) && forall i :: 0 <= i < |b.points| ==> CanonicalPoint(b.points[i])
  }

  // ---------------------------------------------------------------- round trips

  lemma DecodeEncodedIndexed(h: Header, d: Qualifier, p: Point, i: nat, suffix: seq<byte>)
    requires EncodeIndexed(h, d, p, i).Ok? && CanonicalPoint(p)
    ensures var w := EncodeIndexed(h, d, p, i).value; DecodeIndexed(h, d, w + suffix, i) == Ok((p, |w|))
  {
    hide EncodePoint, DecodePoint, Unsigned, ReadUnsigned, CanonicalPoint, ExpectedIndex;
    var w, payload := EncodeIndexed(h, d, p, i).value, EncodePoint(p).value;
    DecodeEncodedPoint(p, suffix);
    if d.prefixWidth == 0 {
      assert w == payload;
      assert (w + suffix)[0..] == payload + suffix;
    } else {
      var prefix := Unsigned(p.index, d.prefixWidth).value;
      ReadWritten(p.index, d.prefixWidth, payload + suffix);
      assert w + suffix == prefix + (payload + suffix);
      assert (w + suffix)[d.prefixWidth..] == payload + suffix;
    }
  }

  lemma {:induction false} DecodeEncodedPoints(h: Header, d: Qualifier, points: seq<Point>, i: nat, suffix: seq<byte>)
    requires EncodePoints(h, d, points, i).Ok?
    requires forall k :: 0 <= k < |points| ==> CanonicalPoint(points[k])
    ensures var w := EncodePoints(h, d, points, i).value;
      DecodePoints(h, d, w + suffix, i, |points|) == Ok((points, |w|))
    decreases |points|
  {
    hide EncodeIndexed, DecodeIndexed, CanonicalPoint;
    if points != [] {
      var first, rest := EncodeIndexed(h, d, points[0], i).value, EncodePoints(h, d, points[1..], i + 1).value;
      DecodeEncodedIndexed(h, d, points[0], i, rest + suffix);
      DecodeEncodedPoints(h, d, points[1..], i + 1, suffix);
      var data := (first + rest) + suffix;
      assert data == first + (rest + suffix) && data[|first|..] == rest + suffix;
      assert points == [points[0]] + points[1..];
    }
  }

  /**
   * Every canonical block that the encoder accepts is read back exactly, and exactly its own octets are used,
   * whatever follows it.
   */
  lemma DecodeEncodedBlock(b: Block, maximumPoints: int, suffix: seq<byte>)
    requires EncodeBlock(b).Ok? && CanonicalBlock(b) && maximumPoints >= 1 && |b.points| <= maximumPoints
    ensures var w := EncodeBlock(b).value;
      |w| >= 3 && DecodeBlock(w + suffix, maximumPoints) == Ok((b, |w|))
  {
    hide DecodeQualifier, EncodeHeader, DecodeHeader, CanonicalHeader, CanonicalPoint, EncodePacked, DecodePacked,
         EncodePoints, DecodePoints;
    var h := b.header;
    var d := DecodeQualifier(h.qualifier).value;
    var head := EncodeHeader(h).value;
    var w := EncodeBlock(b).value;
    if |b.points| == 0 {
      DecodeEncodedHeader(h, suffix);
    } else {
      var body := EncodeBody(h, d, b.points).value;
      DecodeEncodedHeader(h, body + suffix);
      assert w + suffix == head + (body + suffix) && (w + suffix)[|head|..] == body + suffix;
      if PackedObject(h.group, h.variation) {
        DecodeEncodedPacked(h, b.points, suffix);
      } else {
        DecodeEncodedPoints(h, d, b.points, 0, suffix);
      }
    }
  }

  lemma EncodeDecodedIndexed(h: Header, d: Qualifier, data: seq<byte>, i: nat)
    requires DecodeIndexed(h, d, data, i).Ok?
    requires d.prefixWidth == 0 || d.prefixWidth == 1 || d.prefixWidth == 2 || d.prefixWidth == 4
    ensures var (p, n) := DecodeIndexed(h, d, data, i).value;
      0 < n <= |data| && CanonicalPoint(p) && EncodeIndexed(h, d, p, i) == Ok(data[..n])
  {
    hide EncodePoint, DecodePoint, Unsigned, ReadUnsigned, CanonicalPoint, ExpectedIndex;
    var (p, n) := DecodeIndexed(h, d, data, i).value;
    var w := d.prefixWidth;
    EncodeDecodedPoint(h.group, h.variation, data[w..], p.index);
    assert data[..n] == data[..w] + data[w..][..n - w];
    if w == 0 {
      assert [] + data[0..][..n] == data[..n];
    } else {
      WriteRead(data, w);
    }
  }

  lemma {:induction false} EncodeDecodedPoints(h: Header, d: Qualifier, data: seq<byte>, i: nat, count: nat)
    requires DecodePoints(h, d, data, i, count).Ok?
    requires d.prefixWidth == 0 || d.prefixWidth == 1 || d.prefixWidth == 2 || d.prefixWidth == 4
    ensures var (points, n) := DecodePoints(h, d, data, i, count).value;
      EncodePoints(h, d, points, i) == Ok(data[..n]) && forall k :: 0 <= k < |points| ==> CanonicalPoint(points[k])
    decreases count
  {
    hide EncodeIndexed, DecodeIndexed, CanonicalPoint;
    if count > 0 {
      var (p, n) := DecodeIndexed(h, d, data, i).value;
      EncodeDecodedIndexed(h, d, data, i);
      EncodeDecodedPoints(h, d, data[n..], i + 1, count - 1);
      var (rest, m) := DecodePoints(h, d, data[n..], i + 1, count - 1).value;
      assert ([p] + rest)[0] == p && ([p] + rest)[1..] == rest;
      assert data[..n + m] == data[..n] + data[n..][..m];
    }
  }

  lemma PackedCanonical(h: Header, data: seq<byte>, count: nat)
    requires DecodePacked(h, data, count).Ok?
    ensures forall k :: 0 <= k < count ==> DecodePacked(h, data, count).value.0[k].quality == 0
  {
    hide Bits;
    PackedQuality(h, Bits(data[..PackedSize(h, count)]), count);
  }

  lemma {:induction false} PackedQuality(h: Header, bits: seq<bool>, count: nat)
    requires count * BitsPer(h.group) <= |bits|
    ensures forall k :: 0 <= k < count ==> PointsAt(h, bits, count)[k].quality == 0
    decreases count
  {
    hide OctetOf;
    if count > 0 {
      PackedQuality(h, bits, count - 1);
    }
  }

  /**
   * Whenever a block decodes from n octets, re-encoding it gives exactly those n octets; it is canonical and
   * respects the point limit. So no block has two wire forms.
   */
  lemma {:induction false} EncodeDecodedBlock(data: seq<byte>, maximumPoints: int)
    requires DecodeBlock(data, maximumPoints).Ok?
    ensures var (b, n) := DecodeBlock(data, maximumPoints).value;
      3 <= n <= |data| && CanonicalBlock(b) && EncodeBlock(b) == Ok(data[..n]) && |b.points| <= maximumPoints
  {
    hide DecodeQualifier, EncodeHeader, DecodeHeader, CanonicalHeader, CanonicalPoint, EncodePacked, DecodePacked,
         EncodePoints, DecodePoints;
    EncodeDecodedHeader(data);
    var (h, offset) := DecodeHeader(data).value;
    QualifierShape(h.qualifier);
    var d := DecodeQualifier(h.qualifier).value;
    var count := HeaderCount(h, d).value;
    if count > 0 {
      var body := data[offset..];
      var (points, n) := DecodeBody(h, d, body, count).value;
      if PackedObject(h.group, h.variation) {
        EncodeDecodedPacked(h, body, count);
        PackedCanonical(h, body, count);
        forall k | 0 <= k < |points|
          ensures CanonicalPoint(points[k])
        {
          ZeroQualityCanonical(points[k]);
        }
      } else {
        EncodeDecodedPoints(h, d, body, 0, count);
        DecodedPointCount(h, d, body, 0, count);
      }
      assert data[..offset + n] == data[..offset] + body[..n];
    }
  }

  lemma ZeroQualityCanonical(p: Point)
    requires p.quality == 0
    ensures CanonicalPoint(p)
  {
  }

  lemma DecodedPointCount(h: Header, d: Qualifier, data: seq<byte>, i: nat, count: nat)
    requires DecodePoints(h, d, data, i, count).Ok?
    ensures |DecodePoints(h, d, data, i, count).value.0| == count && DecodePoints(h, d, data, i, count).value.1 <= |data|
  {
  }

  /** A block survives the wire if and only if it is canonical: the encoder accepts some blocks that it truncates. */
  lemma SurvivesIffCanonical(b: Block, maximumPoints: int)
    requires EncodeBlock(b).Ok? && maximumPoints >= 1 && |b.points| <= maximumPoints
    ensures DecodeBlock(EncodeBlock(b).value, maximumPoints) == Ok((b, |EncodeBlock(b).value|)) <==> CanonicalBlock(b)
  {
    hide EncodeBlock, DecodeBlock, CanonicalBlock;
    var w := EncodeBlock(b).value;
    assert w + [] == w;
    if CanonicalBlock(b) {
      DecodeEncodedBlock(b, maximumPoints, []);
    }
    if DecodeBlock(w, maximumPoints).Ok? {
      EncodeDecodedBlock(w, maximumPoints);
    }
  }

  // ---------------------------------------------------------------- lists of blocks

  /** DecodeStrictObjectBlocks, with the points and blocks that earlier blocks leave over. */
  function DecodeBlocksFrom(data: seq<byte>, points: int, blocks: int): Result<seq<Block>, ObjectError>
    decreases |data|
  {
    if data == [] then Ok([])
    else if blocks == 0 then Err(BlockLimit)
    else
      match DecodeBlock(data, points)
      case Err(e) => Err(e)
      case Ok((b, n)) =>
        if n <= 0 || n > |data| then Err(NoProgress)
        else
          match DecodeBlocksFrom(data[n..], points - |b.points|, blocks - 1)
          case Err(e) => Err(e)
          case Ok(rest) => Ok([b] + rest)
  }

  function DecodeBlocks(data: seq<byte>, maximumPoints: int, maximumBlocks: int): Result<seq<Block>, ObjectError> {
    if maximumPoints < 1 || maximumBlocks < 1 then Err(BadLimit)
    else DecodeBlocksFrom(data, maximumPoints, maximumBlocks)
  }

  /** The blocks encode one after the other to exactly these octets. */
  predicate EncodesTo(blocks: seq<Block>, data: seq<byte>)
    decreases |blocks|
  {
    if blocks == [] then data == []
    else
      var w := EncodeBlock(blocks[0]);
      w.Ok? && CanonicalBlock(blocks[0]) && w.value <= data && EncodesTo(blocks[1..], data[|w.value|..])
  }

  /** Each block's points fit what the earlier ones leave over; a selector needs room for one point all the same. */
  predicate FitsBudget(blocks: seq<Block>, points: int)
    decreases |blocks|
  {
    blocks == [] || (points >= 1 && |blocks[0].points| <= points && FitsBudget(blocks[1..], points - |blocks[0].points|))
  }

  function TotalPoints(blocks: seq<Block>): nat {
    if blocks == [] then 0 else |blocks[0].points| + TotalPoints(blocks[1..])
  }

  lemma {:induction false} DecodeBlocksExactly(data: seq<byte>, points: int, limit: int, blocks: seq<Block>)
    requires limit >= 0
    ensures DecodeBlocksFrom(data, points, limit) == Ok(blocks) <==>
      EncodesTo(blocks, data) && FitsBudget(blocks, points) && |blocks| <= limit
    decreases |data|
  {
    hide EncodeBlock, DecodeBlock, CanonicalBlock;
    if data == [] {
      if blocks != [] && EncodesTo(blocks, data) && FitsBudget(blocks, points) {
        DecodeEncodedBlock(blocks[0], points, []);
      }
    } else {
      if blocks != [] && EncodesTo(blocks, data) && FitsBudget(blocks, points) {
        var w := EncodeBlock(blocks[0]).value;
        DecodeEncodedBlock(blocks[0], points, data[|w|..]);
        assert w + data[|w|..] == data;
        DecodeBlocksExactly(data[|w|..], points - |blocks[0].points|, if limit > 0 then limit - 1 else 0, blocks[1..]);
        assert blocks == [blocks[0]] + blocks[1..];
      }
      if DecodeBlocksFrom(data, points, limit) == Ok(blocks) {
        EncodeDecodedBlock(data, points);
        var (b, n) := DecodeBlock(data, points).value;
        PositiveLimit(data, points);
        assert blocks[0] == b;
        var rest := DecodeBlocksFrom(data[n..], points - |b.points|, limit - 1).value;
        assert blocks[1..] == rest;
        DecodeBlocksExactly(data[n..], points - |b.points|, limit - 1, rest);
      }
    }
  }

  lemma PositiveLimit(data: seq<byte>, points: int)
    requires DecodeBlock(data, points).Ok?
    ensures points >= 1
  {
    hide DecodeHeader, DecodeQualifier, DecodeBody;
  }

  /**
   * Decoding a list succeeds with the given blocks exactly when they are canonical, encode to exactly the input,
   * number at most maximumBlocks, and fit the point budget one after the other.
   */
  lemma {:induction false} BlocksRoundTrip(data: seq<byte>, maximumPoints: int, maximumBlocks: int, blocks: seq<Block>)
    ensures DecodeBlocks(data, maximumPoints, maximumBlocks) == Ok(blocks) <==>
      maximumPoints >= 1 && maximumBlocks >= 1
      && EncodesTo(blocks, data) && FitsBudget(blocks, maximumPoints) && |blocks| <= maximumBlocks
  {
    hide DecodeBlocksFrom, EncodesTo, FitsBudget;
    if maximumBlocks >= 1 {
      DecodeBlocksExactly(data, maximumPoints, maximumBlocks, blocks);
    }
  }

  /** A list that fits the budget stays within the aggregate point limit. */
  lemma {:induction false} BudgetTotal(blocks: seq<Block>, points: int)
    requires FitsBudget(blocks, points) && points >= 0
    ensures TotalPoints(blocks) <= points
    decreases |blocks|
  {
    if blocks != [] {
      BudgetTotal(blocks[1..], points - |blocks[0].points|);
    }
  }

  /** Any success respects both aggregate limits. */
  lemma BlocksWithinLimits(data: seq<byte>, maximumPoints: int, maximumBlocks: int)
    requires DecodeBlocks(data, maximumPoints, maximumBlocks).Ok?
    ensures var blocks := DecodeBlocks(data, maximumPoints, maximumBlocks).value;
      TotalPoints(blocks) <= maximumPoints && |blocks| <= maximumBlocks
  {
    hide DecodeBlocksFrom, EncodesTo, FitsBudget, TotalPoints;
    var blocks := DecodeBlocks(data, maximumPoints, maximumBlocks).value;
    BlocksRoundTrip(data, maximumPoints, maximumBlocks, blocks);
    BudgetTotal(blocks, maximumPoints);
  }
}
