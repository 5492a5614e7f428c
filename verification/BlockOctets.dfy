/** The octets of object blocks, position by position, and exactly which blocks the encoder accepts. */
module BlockOctets {
  import opened Bytes
  import opened ObjectHeader
  import opened Measurement
  import opened PackedPoints
  import opened ObjectBlock
  import opened ObjectOctets
  import ObjectLoops

  // ---------------------------------------------------------------- which blocks are accepted

  /** How many points the header announces. */
  function Announced(h: Header): nat
    requires HeaderAccepted(h)
  {
    if Ranges(h.qualifier) then h.stop - h.start + 1 else if Counts(h.qualifier) then h.count else 0
  }

  /** Single bits of groups 1 and 10, pairs of bits of group 3. */
  predicate Packed(h: Header) {
    h.variation == 1 && h.group in {1, 3, 10}
  }

  /** Point i of a block that is not packed: an index that fits its prefix or, without one, is the position's own. */
  predicate PointFits(h: Header, p: Point, i: nat) {
    && p.group == h.group && p.variation == h.variation && PointAccepted(p)
    && if IndexWidth(h.qualifier) > 0 then p.index <= Largest(IndexWidth(h.qualifier))
       else p.index == (if Ranges(h.qualifier) then (h.start + i) % 0x1_0000_0000 else i % 0x1_0000_0000)
  }

  /** Point i of a packed block: nothing but its bit, or its pair of bits. */
  predicate PackedFits(h: Header, p: Point, i: nat) {
    && p.group == h.group && p.variation == h.variation && p.index == (h.start + i) % 0x1_0000_0000
    && p.quality == 0 && p.timestamp.None?
    && if h.group == 3 then p.value.ByteValue? && p.value.octet <= 3 else p.value.BoolValue?
  }

  /** A block that the encoder accepts. */
  predicate BlockAccepted(b: Block) {
    var h := b.header;
    && HeaderAccepted(h) && h.qualifier !in SIZED && |b.points| == Announced(h)
    && if h.qualifier == 0x06 then h.group == 60 && h.variation in {1, 2, 3, 4}
       else if Packed(h) then
         IndexWidth(h.qualifier) == 0 && forall i :: 0 <= i < |b.points| ==> PackedFits(h, b.points[i], i)
       else forall i :: 0 <= i < |b.points| ==> PointFits(h, b.points[i], i)
  }

  lemma SelectorsListed(group: byte, variation: byte)
    ensures SelectorObject(group, variation) <==> group == 60 && variation in {1, 2, 3, 4}
    ensures PackedObject(group, variation) <==> variation == 1 && group in {1, 3, 10}
  {
  }

  lemma IndexedIff(h: Header, d: Qualifier, p: Point, i: nat)
    requires Known(h.qualifier) && h.qualifier !in SIZED && DecodeQualifier(h.qualifier) == Ok(d)
    ensures EncodeIndexed(h, d, p, i).Ok? <==> PointFits(h, p, i)
    ensures EncodeIndexed(h, d, p, i).Ok? ==> EncodePoint(p).Ok?
    ensures EncodeIndexed(h, d, p, i).Ok? ==>
      EncodeIndexed(h, d, p, i).value
      == (if IndexWidth(h.qualifier) == 0 then [] else ToLE(p.index, IndexWidth(h.qualifier))) + EncodePoint(p).value
  {
    QualifierListed(h.qualifier);
    PointEncodesIff(p);
    if d.prefixWidth > 0 {
      NumberAccepted(p.index, d.prefixWidth);
    }
    hide DecodeQualifier, Unsigned, EncodePoint, PointAccepted, ToLE, Largest;
  }

  lemma {:induction false} PointsIff(h: Header, d: Qualifier, points: seq<Point>, i: nat)
    requires Known(h.qualifier) && h.qualifier !in SIZED && DecodeQualifier(h.qualifier) == Ok(d)
    ensures EncodePoints(h, d, points, i).Ok? <==> forall k :: 0 <= k < |points| ==> PointFits(h, points[k], i + k)
    decreases |points|
  {
    hide EncodeIndexed, PointFits, DecodeQualifier;
    if points != [] {
      IndexedIff(h, d, points[0], i);
      PointsIff(h, d, points[1..], i + 1);
      if forall k :: 0 <= k < |points| - 1 ==> PointFits(h, points[1..][k], i + 1 + k) {
        forall k | 1 <= k < |points|
          ensures PointFits(h, points[k], i + k)
        {
          assert points[k] == points[1..][k - 1];
        }
      }
      if forall k :: 0 <= k < |points| ==> PointFits(h, points[k], i + k) {
        forall k | 0 <= k < |points| - 1
          ensures PointFits(h, points[1..][k], i + 1 + k)
        {
          assert points[1..][k] == points[k + 1];
        }
        assert PointFits(h, points[0], i + 0);
      }
    }
  }

  lemma CheckedIff(h: Header, p: Point, i: nat)
    ensures CheckPacked(h, p, i).Ok? <==> PackedFits(h, p, i)
  {
    hide LsbBits;
  }

  lemma {:induction false} PackedIff(h: Header, points: seq<Point>)
    ensures PackedBits(h, points).Ok? <==> forall i :: 0 <= i < |points| ==> PackedFits(h, points[i], i)
    decreases |points|
  {
    hide CheckPacked, PackedFits;
    if points != [] {
      var n := |points| - 1;
      PackedIff(h, points[..n]);
      CheckedIff(h, points[n], n);
    }
  }

  /** Exactly which blocks the encoder accepts. */
  lemma BlockEncodesIff(b: Block)
    ensures EncodeBlock(b).Ok? <==> BlockAccepted(b)
  {
    hide DecodeQualifier, EncodeHeader, EncodePoints, EncodePacked, PointFits, PackedFits, SelectorObject, PackedObject;
    hide Ranges, Counts, RangeWidth, IndexWidth, Largest;
    var h := b.header;
    HeaderEncodesIff(h);
    QualifierKnown(h.qualifier);
    if HeaderAccepted(h) {
      QualifierListed(h.qualifier);
      SelectorsListed(h.group, h.variation);
      PackedEncodesIff(h, b.points);
      CountIs(h);
      if h.qualifier !in SIZED {
        PointsIff(h, DecodeQualifier(h.qualifier).value, b.points, 0);
      }
    }
  }

  lemma CountIs(h: Header)
    requires HeaderAccepted(h)
    ensures Known(h.qualifier) && (Announced(h) == 0 <==> h.qualifier == 0x06)
    ensures HeaderCount(h, DecodeQualifier(h.qualifier).value) == Ok(Announced(h))
  {
    QualifierListed(h.qualifier);
    hide DecodeQualifier, Largest;
  }

  lemma PackedEncodesIff(h: Header, points: seq<Point>)
    ensures EncodePacked(h, points).Ok? <==> forall i :: 0 <= i < |points| ==> PackedFits(h, points[i], i)
  {
    hide PackedBits, PackedFits;
    PackedIff(h, points);
  }

  // ---------------------------------------------------------------- where everything is

  /** The octets of one point of a block that is not packed. */
  function PointLength(h: Header): nat {
    IndexWidth(h.qualifier) + ListedSize(h.group, h.variation)
  }

  /** The octets of the first i points. */
  function PlaceOf(h: Header, i: nat): nat {
    i * PointLength(h)
  }

  /** Point p and its index, if one goes before it, fill the piece of w that begins at the given place. */
  predicate PointPlaced(h: Header, p: Point, w: seq<byte>, at: nat) {
    var n, f := IndexWidth(h.qualifier), ListedFormat(h.group, h.variation);
    && at + PointLength(h) <= |w| && f.Ok?
    && (n > 0 ==> LowFirst(w, at, n, p.index))
    && PointLaidOut(f.value, p, w[at + n..at + PointLength(h)])
  }

  lemma OnePointPlaced(h: Header, d: Qualifier, p: Point, i: nat, before: seq<byte>, after: seq<byte>)
    requires Known(h.qualifier) && h.qualifier !in SIZED && DecodeQualifier(h.qualifier) == Ok(d)
    requires EncodeIndexed(h, d, p, i).Ok?
    ensures |EncodeIndexed(h, d, p, i).value| == PointLength(h)
    ensures PointPlaced(h, p, before + EncodeIndexed(h, d, p, i).value + after, |before|)
  {
    hide DecodeQualifier, EncodeIndexed, EncodePoint, PointLaidOut, LowFirst, ToLE, ListedFormat, ListedSize, Largest;
    IndexedIff(h, d, p, i);
    PointOctets(p);
    PointSized(p);
    var n := IndexWidth(h.qualifier);
    var prefix, payload := if n == 0 then [] else ToLE(p.index, n), EncodePoint(p).value;
    var w := before + (prefix + payload) + after;
    Piece(before, prefix, payload + after);
    Piece(before + prefix, payload, after);
    assert w == before + prefix + (payload + after) && w == before + prefix + payload + after;
    if n > 0 {
      IndexFits(p.index, n);
      WritesLowFirst(w, |before|, n, p.index);
    }
  }

  lemma PointSized(p: Point)
    requires EncodePoint(p).Ok?
    ensures |EncodePoint(p).value| == ListedSize(p.group, p.variation)
  {
    hide EncodePoint, ListedSize, ListedFormat, ValueLaidOut;
    PointOctets(p);
  }

  lemma IndexFits(index: u32, width: nat)
    requires (width == 1 || width == 2 || width == 4) && index <= Largest(width)
    ensures index < Pow256(width)
  {
    PowerValues();
  }

  /** The points lie one after the other, each as long as the others. */
  lemma {:induction false} PointsPlaced(h: Header, d: Qualifier, points: seq<Point>, i: nat, before: seq<byte>)
    requires Known(h.qualifier) && h.qualifier !in SIZED && DecodeQualifier(h.qualifier) == Ok(d)
    requires EncodePoints(h, d, points, i).Ok?
    ensures var body := EncodePoints(h, d, points, i).value;
      && |body| == PlaceOf(h, |points|)
      && forall k :: 0 <= k < |points| ==> PointPlaced(h, points[k], before + body, |before| + PlaceOf(h, k))
    decreases |points|
  {
    hide DecodeQualifier, EncodeIndexed, PointPlaced, PointLength;
    if points != [] {
      var first, rest := EncodeIndexed(h, d, points[0], i).value, EncodePoints(h, d, points[1..], i + 1).value;
      var n := PointLength(h);
      OnePointPlaced(h, d, points[0], i, before, rest);
      PointsPlaced(h, d, points[1..], i + 1, before + first);
      assert before + (first + rest) == before + first + rest;
      Times(|points|, n);
      forall k | 0 <= k < |points|
        ensures PointPlaced(h, points[k], before + (first + rest), |before| + PlaceOf(h, k))
      {
        if k > 0 {
          assert points[k] == points[1..][k - 1];
          Times(k, n);
        }
      }
    }
  }

  /** The bits of a packed point: one for a single-bit value; for a double-bit value the lower, then the higher. */
  predicate BitsPlaced(h: Header, p: Point, i: nat, body: seq<byte>) {
    if h.group == 3 then
      && i / 4 < |body| && p.value.ByteValue?
      && ObjectLoops.Octet(body[i / 4])[2 * (i % 4)] == (p.value.octet in {1, 3})
      && ObjectLoops.Octet(body[i / 4])[2 * (i % 4) + 1] == (p.value.octet in {2, 3})
    else
      i / 8 < |body| && p.value.BoolValue? && ObjectLoops.Octet(body[i / 8])[i % 8] == p.value.flag
  }

  lemma {:induction false} PackedBitsAt(h: Header, points: seq<Point>, i: nat)
    requires PackedBits(h, points).Ok? && i < |points|
    ensures var per, bits := BitsPer(h.group), PackedBits(h, points).value;
      && |bits| == |points| * per && i * per + per <= |bits|
      && CheckPacked(h, points[i], i) == Ok(bits[i * per..i * per + per])
    decreases |points|
  {
    hide CheckPacked;
    var n, per := |points| - 1, BitsPer(h.group);
    var before, last := PackedBits(h, points[..n]).value, CheckPacked(h, points[n], n).value;
    CheckedBits(h, points[n], n);
    PackedBitsLength(h, points[..n]);
    Times(|points|, per);
    if i < n {
      PackedBitsAt(h, points[..n], i);
      assert (before + last)[i * per..i * per + per] == before[i * per..i * per + per];
    } else {
      assert (before + last)[n * per..n * per + per] == last;
    }
  }

  lemma PackedBitsLength(h: Header, points: seq<Point>)
    requires PackedBits(h, points).Ok?
    ensures |PackedBits(h, points).value| == |points| * BitsPer(h.group)
  {
    PointsFromBits(h, points, PackedBits(h, points).value);
  }

  lemma TwoBitValues(v: byte)
    requires v <= 3
    ensures ObjectLoops.LowBit(v) == (v in {1, 3}) && ObjectLoops.HighBit(v) == (v in {2, 3})
  {
  }

  lemma BitInOctets(bits: seq<bool>, body: seq<byte>, at: nat)
    requires body == PackBits(bits) && at < |bits|
    ensures at / 8 < |body| && ObjectLoops.Octet(body[at / 8])[at % 8] == bits[at]
  {
    hide PackBits, Bits, ObjectLoops.Octet;
    PackedLength(bits);
    BitsOfPacked(bits);
    BitsLen(body);
    ObjectLoops.BitIndex(body, at);
    assert Bits(body)[at] == bits[at];
  }

  /** The bits that a point adds. */
  lemma OwnBits(h: Header, p: Point, i: nat)
    requires CheckPacked(h, p, i).Ok?
    ensures h.group == 3 ==>
      p.value.ByteValue? && CheckPacked(h, p, i).value == [p.value.octet in {1, 3}, p.value.octet in {2, 3}]
    ensures h.group != 3 ==> p.value.BoolValue? && CheckPacked(h, p, i).value == [p.value.flag]
  {
    hide LsbBits, Wide;
    if h.group == 3 {
      TwoBitValues(p.value.octet);
      ObjectLoops.TwoBitList(p.value.octet);
    }
  }

  lemma OnePacked(h: Header, points: seq<Point>, i: nat)
    requires EncodePacked(h, points).Ok? && i < |points|
    ensures BitsPlaced(h, points[i], i, EncodePacked(h, points).value)
  {
    hide PackedBits, PackBits, CheckPacked, ObjectLoops.Octet;
    PackedBitsAt(h, points, i);
    OwnBits(h, points[i], i);
    if h.group == 3 {
      PairPlaced(PackedBits(h, points).value, EncodePacked(h, points).value, i, points[i].value.octet);
    } else {
      BitInOctets(PackedBits(h, points).value, EncodePacked(h, points).value, i);
      assert PackedBits(h, points).value[i * 1..i * 1 + 1][0] == PackedBits(h, points).value[i];
    }
  }

  lemma PairPlaced(bits: seq<bool>, body: seq<byte>, i: nat, v: byte)
    requires body == PackBits(bits) && i * 2 + 2 <= |bits| && bits[i * 2..i * 2 + 2] == [v in {1, 3}, v in {2, 3}]
    ensures i / 4 < |body| && ObjectLoops.Octet(body[i / 4])[2 * (i % 4)] == (v in {1, 3})
    ensures ObjectLoops.Octet(body[i / 4])[2 * (i % 4) + 1] == (v in {2, 3})
  {
    hide PackBits, ObjectLoops.Octet;
    assert bits[i * 2..i * 2 + 2][0] == bits[2 * i] && bits[i * 2..i * 2 + 2][1] == bits[2 * i + 1];
    BitInOctets(bits, body, 2 * i);
    BitInOctets(bits, body, 2 * i + 1);
    Quarters(i);
  }

  lemma Quarters(i: nat)
    ensures 2 * i / 8 == i / 4 && (2 * i + 1) / 8 == i / 4 && 2 * i % 8 == 2 * (i % 4)
    ensures (2 * i + 1) % 8 == 2 * (i % 4) + 1
  {
  }

  /**
   * Where everything is in an encoded block: its header, then nothing; or each point's bits in order from the low end
   * of the first octet on; or each point, behind its index if the qualifier says so, all of the listed length.
   */
  predicate BlockLaidOut(b: Block, w: seq<byte>) {
    var h := b.header;
    var n := HeaderLength(h.qualifier);
    && n <= |w| && HeaderLaidOut(h, w[..n])
    && if h.qualifier == 0x06 then |w| == n
       else if Packed(h) then
         && |w| == n + (|b.points| * (if h.group == 3 then 2 else 1) + 7) / 8
         && forall i :: 0 <= i < |b.points| ==> BitsPlaced(h, b.points[i], i, w[n..])
       else
         && |w| == n + PlaceOf(h, |b.points|)
         && forall i :: 0 <= i < |b.points| ==> PointPlaced(h, b.points[i], w, n + PlaceOf(h, i))
  }

  lemma BlockLayout(b: Block)
    requires EncodeBlock(b).Ok?
    ensures BlockLaidOut(b, EncodeBlock(b).value)
  {
    hide DecodeQualifier, EncodeHeader, EncodePoints, EncodePacked, HeaderLaidOut, PointPlaced, BitsPlaced, PointFits;
    hide HeaderLength, Ranges, Counts, IndexWidth, Largest, SelectorObject, PackedObject, PackedFits, PlaceOf;
    var h, w := b.header, EncodeBlock(b).value;
    BlockEncodesIff(b);
    HeaderEncodesIff(h);
    HeaderOctets(h);
    SelectorsListed(h.group, h.variation);
    CountIs(h);
    var head := EncodeHeader(h).value;
    HeaderSized(h, head);
    assert w[..|head|] == head;
    if h.qualifier != 0x06 {
      if Packed(h) {
        PackedSized(h, b.points);
        assert w[|head|..] == EncodePacked(h, b.points).value;
        forall i | 0 <= i < |b.points|
          ensures BitsPlaced(h, b.points[i], i, w[|head|..])
        {
          OnePacked(h, b.points, i);
        }
      } else {
        PointsPlaced(h, DecodeQualifier(h.qualifier).value, b.points, 0, head);
      }
    }
  }

  lemma HeaderSized(h: Header, w: seq<byte>)
    requires HeaderLaidOut(h, w)
    ensures |w| == HeaderLength(h.qualifier)
  {
  }

  lemma PackedSized(h: Header, points: seq<Point>)
    requires EncodePacked(h, points).Ok?
    ensures |EncodePacked(h, points).value| == (|points| * (if h.group == 3 then 2 else 1) + 7) / 8
  {
    hide PackedBits, PackBits;
    PackedBitsLength(h, points);
    PackedLength(PackedBits(h, points).value);
  }
}
