/** Packed single-bit and double-bit objects: bits in octets, least significant first, with clear padding. */
module PackedPoints {
  import opened Bytes
  import opened ObjectHeader
  import opened Measurement

  predicate PackedObject(group: byte, variation: byte) {
    variation == 1 && (group == 1 || group == 3 || group == 10)
  }

  function BitsPer(group: byte): nat {
    if group == 3 then 2 else 1
  }

  function IndexAt(start: u32, i: nat): u32 {
    (start + i) % 0x1_0000_0000
  }

  /** The i-th point of a packed block may be encoded. */
  function CheckPacked(h: Header, p: Point, i: nat): Result<seq<bool>, ObjectError> {
    if p.group != h.group || p.variation != h.variation || p.index != IndexAt(h.start, i) then Err(PointMismatch)
    else if p.quality != 0 || p.timestamp.Some? then Err(PackedPointHasQualityOrTime)
    else if BitsPer(h.group) == 1 then
      if !p.value.BoolValue? then Err(WrongValue) else Ok([p.value.flag])
    else if !p.value.ByteValue? || p.value.octet > 3 then Err(WrongValue)
    else Ok(LsbBits(Wide(p.value.octet), 2))
  }

  /** The bits of all points, in order. */
  function PackedBits(h: Header, points: seq<Point>): Result<seq<bool>, ObjectError>
    decreases |points|
  {
    if points == [] then Ok([])
    else
      var n := |points| - 1;
      var before := PackedBits(h, points[..n]);
      if before.Err? then before
      else
        var last := CheckPacked(h, points[n], n);
        if last.Err? then last else Ok(before.value + last.value)
  }

  function EncodePacked(h: Header, points: seq<Point>): Result<seq<byte>, ObjectError> {
    match PackedBits(h, points)
    case Err(e) => Err(e)
    case Ok(bits) => Ok(PackBits(bits))
  }

  function PointAt(h: Header, bits: seq<bool>, i: nat): Point
    requires (i + 1) * BitsPer(h.group) <= |bits|
  {
    Point(h.group, h.variation, IndexAt(h.start, i),
          if h.group == 3 then ByteValue(OctetOf(bits[2 * i..2 * i + 2])) else BoolValue(bits[i]), 0, None)
  }

  function PointsAt(h: Header, bits: seq<bool>, count: nat): (points: seq<Point>)
    requires count * BitsPer(h.group) <= |bits|
    ensures |points| == count
  {
    if count == 0 then [] else PointsAt(h, bits, count - 1) + [PointAt(h, bits, count - 1)]
  }

  function PackedSize(h: Header, count: nat): nat {
    (count * BitsPer(h.group) + 7) / 8
  }

  /** The points and the octets they took; padding bits must be clear. */
  function DecodePacked(h: Header, data: seq<byte>, count: nat): Result<(seq<Point>, nat), ObjectError> {
    var size := PackedSize(h, count);
    if |data| < size then Err(Truncated)
    else
      var bits := Bits(data[..size]);
      if true in bits[count * BitsPer(h.group)..] then Err(NonZeroPadding)
      else Ok((PointsAt(h, bits, count), size))
  }

  // ---------------------------------------------------------------- round trips

  lemma WordOfTwo(bits: seq<bool>)
    requires |bits| == 2
    ensures WordOf(bits) == Below(bits[0], Below(bits[1], 0))
  {
    hide Below;
    var tail := bits[1..];
    assert tail[1..] == [] && WordOf([]) == 0;
    assert WordOf(tail) == Below(tail[0], WordOf(tail[1..]));
  }

  lemma TwoBits(v: byte)
    requires v <= 3
    ensures |LsbBits(Wide(v), 2)| == 2 && OctetOf(LsbBits(Wide(v), 2)) == v
  {
    var bits := LsbBits(Wide(v), 2);
    var x := Wide(v);
    assert bits == [Lsb(x)] + LsbBits(Half(x), 1) && LsbBits(Half(x), 1) == [Lsb(Half(x))] + LsbBits(Half(Half(x)), 0);
    WordOfTwo(bits);
    TwoBitWord(v);
  }

  lemma TwoBitWord(v: byte)
    requires v <= 3
    ensures Lo(Below(Lsb(Wide(v)), Below(Lsb(Half(Wide(v))), 0))) == v
  {
  }

  lemma BitsOfTwo(bits: seq<bool>)
    requires |bits| == 2
    ensures OctetOf(bits) <= 3 && LsbBits(Wide(OctetOf(bits)), 2) == bits
  {
    var v := Lo(Below(bits[0], Below(bits[1], 0)));
    WordOfTwo(bits);
    TwoBitValue(bits[0], bits[1]);
    var x := Wide(v);
    assert LsbBits(x, 2) == [Lsb(x)] + LsbBits(Half(x), 1) && LsbBits(Half(x), 1) == [Lsb(Half(x))] + LsbBits(Half(Half(x)), 0);
  }

  lemma TwoBitValue(low: bool, high: bool)
    ensures var v := Lo(Below(low, Below(high, 0))); v <= 3 && Lsb(Wide(v)) == low && Lsb(Half(Wide(v))) == high
  {
  }

  /** The i-th point is read back from any bit string that carries its bits in their place. */
  lemma PointFromBits(h: Header, p: Point, i: nat, bits: seq<bool>)
    requires CheckPacked(h, p, i).Ok? && (i + 1) * BitsPer(h.group) <= |bits|
    requires bits[i * BitsPer(h.group)..(i + 1) * BitsPer(h.group)] == CheckPacked(h, p, i).value
    ensures PointAt(h, bits, i) == p
  {
    hide LsbBits, Wide, OctetOf;
    if h.group == 3 {
      TwoBits(p.value.octet);
      assert bits[2 * i..2 * i + 2] == LsbBits(Wide(p.value.octet), 2);
    } else {
      assert bits[i..i + 1][0] == bits[i];
    }
  }

  lemma CheckedBits(h: Header, p: Point, i: nat)
    requires CheckPacked(h, p, i).Ok?
    ensures |CheckPacked(h, p, i).value| == BitsPer(h.group)
  {
  }

  lemma {:induction false} PointsFromBits(h: Header, points: seq<Point>, bits: seq<bool>)
    requires PackedBits(h, points).Ok? && PackedBits(h, points).value <= bits
    ensures |PackedBits(h, points).value| == |points| * BitsPer(h.group)
    ensures PointsAt(h, bits, |points|) == points
    decreases |points|
  {
    hide CheckPacked, PointAt;
    if points != [] {
      var n := |points| - 1;
      var before, last := PackedBits(h, points[..n]).value, CheckPacked(h, points[n], n).value;
      PointsFromBits(h, points[..n], bits);
      CheckedBits(h, points[n], n);
      var per := BitsPer(h.group);
      assert (n + 1) * per == n * per + per;
      assert bits[n * per..(n + 1) * per] == last;
      PointFromBits(h, points[n], n, bits);
      assert points == points[..n] + [points[n]];
    }
  }

  /** Packed points are read back exactly, whatever octets follow them. */
  lemma DecodeEncodedPacked(h: Header, points: seq<Point>, suffix: seq<byte>)
    requires EncodePacked(h, points).Ok?
    ensures var w := EncodePacked(h, points).value;
      DecodePacked(h, w + suffix, |points|) == Ok((points, |w|))
  {
    hide PackedBits, PointsAt, PackBits, Bits;
    var flat := PackedBits(h, points).value;
    var w := PackBits(flat);
    PackedLength(flat);
    BitsOfPacked(flat);
    assert flat <= Bits(w);
    PointsFromBits(h, points, Bits(w));
    assert (w + suffix)[..|w|] == w;
    assert Bits(w)[|flat|..] == Clear(8 * |w| - |flat|);
  }

  lemma PackedLength(bits: seq<bool>)
    ensures |PackBits(bits)| == (|bits| + 7) / 8
  {
  }

  lemma BitsFromPoint(h: Header, bits: seq<bool>, i: nat)
    requires (i + 1) * BitsPer(h.group) <= |bits|
    ensures CheckPacked(h, PointAt(h, bits, i), i) == Ok(bits[i * BitsPer(h.group)..(i + 1) * BitsPer(h.group)])
  {
    hide LsbBits, Wide, OctetOf;
    if h.group == 3 {
      BitsOfTwo(bits[2 * i..2 * i + 2]);
    } else {
      assert bits[i..i + 1] == [bits[i]];
    }
  }

  lemma PackedBitsSnoc(h: Header, points: seq<Point>, p: Point, bits: seq<bool>, m: nat, n: nat)
    requires m <= n <= |bits|
    requires PackedBits(h, points) == Ok(bits[..m]) && CheckPacked(h, p, |points|) == Ok(bits[m..n])
    ensures PackedBits(h, points + [p]) == Ok(bits[..n])
  {
    hide CheckPacked;
    assert (points + [p])[..|points|] == points;
    assert bits[..n] == bits[..m] + bits[m..n];
  }

  lemma {:induction false} BitsFromPoints(h: Header, bits: seq<bool>, count: nat)
    requires count * BitsPer(h.group) <= |bits|
    ensures PackedBits(h, PointsAt(h, bits, count)) == Ok(bits[..count * BitsPer(h.group)])
  {
    hide CheckPacked, PointAt, PackedBits;
    if count == 0 {
      assert PackedBits(h, []) == Ok([]) by {
        PackedBitsNone(h);
      }
    } else {
      var n := count - 1;
      BitsFromPoints(h, bits, n);
      BitsFromPoint(h, bits, n);
      PackedBitsSnoc(h, PointsAt(h, bits, n), PointAt(h, bits, n), bits, n * BitsPer(h.group), count * BitsPer(h.group));
    }
  }

  lemma PackedBitsNone(h: Header)
    ensures PackedBits(h, []) == Ok([])
  {
  }

  /** Accepted packed octets are exactly the encoding of the points they give: padding leaves no second form. */
  lemma {:induction false} EncodeDecodedPacked(h: Header, data: seq<byte>, count: nat)
    requires DecodePacked(h, data, count).Ok?
    ensures var (points, n) := DecodePacked(h, data, count).value;
      |points| == count && n <= |data| && EncodePacked(h, points) == Ok(data[..n])
  {
    hide PackedBits, PointsAt, PackBits, Bits;
    var size := PackedSize(h, count);
    var bits := Bits(data[..size]);
    var used := count * BitsPer(h.group);
    BitsLen(data[..size]);
    BitsFromPoints(h, bits, count);
    PointCount(h, bits, count);
    var flat := bits[..used];
    BitsOfPacked(flat);
    PackedLength(flat);
    assert forall i :: 0 <= i < |bits[used..]| ==> bits[used..][i] in bits[used..];
    ClearUnique(bits[used..]);
    assert bits == flat + bits[used..];
    BitsInjective(PackBits(flat), data[..size]);
  }

  lemma BitsLen(data: seq<byte>)
    ensures |Bits(data)| == 8 * |data|
  {
  }

  lemma PointCount(h: Header, bits: seq<bool>, count: nat)
    requires count * BitsPer(h.group) <= |bits|
    ensures |PointsAt(h, bits, count)| == count
  {
  }
}
