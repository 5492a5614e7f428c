/** The object codec's loops, proved against their specifications. */
module ObjectLoops {
  import opened Bytes
  import opened ObjectHeader
  import opened Measurement
  import opened PackedPoints
  import opened ObjectBlock

  // ---------------------------------------------------------------- single bits of an octet

  /** v << k and v >> k for the shift amounts that occur. */
  function ShiftLeft(v: byte, k: nat): byte
    requires k < 8
  {
    if k == 0 then v else if k == 1 then v << 1 else if k == 2 then v << 2 else if k == 3 then v << 3
    else if k == 4 then v << 4 else if k == 5 then v << 5 else if k == 6 then v << 6 else v << 7
  }

  function ShiftRight(v: byte, k: nat): byte
    requires k < 8
  {
    if k == 0 then v else if k == 1 then v >> 1 else if k == 2 then v >> 2 else if k == 3 then v >> 3
    else if k == 4 then v >> 4 else if k == 5 then v >> 5 else if k == 6 then v >> 6 else v >> 7
  }

  function Or(x: byte, y: byte): byte {
    x | y
  }

  predicate Tests(x: byte, mask: byte) {
    x & mask != 0
  }

  predicate LowBit(v: byte) {
    v & 1 != 0
  }

  predicate HighBit(v: byte) {
    v & 2 != 0
  }

  /** The eight bits of an octet. */
  function Octet(x: byte): (bits: seq<bool>)
    ensures |bits| == 8
  {
    [Tests(x, 1), Tests(x, 2), Tests(x, 4), Tests(x, 8), Tests(x, 16), Tests(x, 32), Tests(x, 64), Tests(x, 128)]
  }

  lemma OctetIsBits(x: byte)
    ensures LsbBits(Wide(x), 8) == Octet(x)
  {
    hide Lsb, Half, Wide, Tests, LsbBits, Rest, Octet;
    var w := Wide(x);
    var v := Half(Half(Half(Half(w))));
    OctetHalves(x);
    OctetList(x);
    FourBits(w);
    FourBits(v);
    EightBits(w);
    TwoFours(Lsb(w), Lsb(Half(w)), Lsb(Half(Half(w))), Lsb(Half(Half(Half(w)))),
             Lsb(v), Lsb(Half(v)), Lsb(Half(Half(v))), Lsb(Half(Half(Half(v)))), Octet(x));
  }

  lemma TwoFours(a: bool, b: bool, c: bool, d: bool, e: bool, f: bool, g: bool, h: bool, all: seq<bool>)
    requires |all| == 8 && all[0] == a && all[1] == b && all[2] == c && all[3] == d
    requires all[4] == e && all[5] == f && all[6] == g && all[7] == h
    ensures [a, b, c, d] + [e, f, g, h] == all
  {
  }

  lemma EightBits(w: u16)
    ensures LsbBits(w, 8) == LsbBits(w, 4) + LsbBits(Half(Half(Half(Half(w)))), 4)
  {
    hide Lsb, Half, LsbBits, Rest;
    RestFourHalves(w);
    LsbBitsAdd(w, 4, 4);
  }

  lemma OctetHalves(x: byte)
    ensures var w := Wide(x);
      Lsb(w) == Tests(x, 1) && Lsb(Half(w)) == Tests(x, 2) && Lsb(Half(Half(w))) == Tests(x, 4)
      && Lsb(Half(Half(Half(w)))) == Tests(x, 8) && Lsb(Half(Half(Half(Half(w))))) == Tests(x, 16)
      && Lsb(Half(Half(Half(Half(Half(w)))))) == Tests(x, 32)
      && Lsb(Half(Half(Half(Half(Half(Half(w))))))) == Tests(x, 64)
      && Lsb(Half(Half(Half(Half(Half(Half(Half(w)))))))) == Tests(x, 128)
  {
  }

  lemma RestFourHalves(w: u16)
    ensures Rest(w, 4) == Half(Half(Half(Half(w))))
  {
    hide Half;
    assert Rest(w, 4) == Rest(Half(w), 3);
  }

  /** The octet with only bit i set. */
  function Mask(i: nat): byte
    requires i < 8
  {
    ShiftLeft(1, i)
  }

  lemma OctetAt(x: byte, i: nat)
    requires i < 8
    ensures Octet(x)[i] == Tests(x, Mask(i))
  {
  }

  lemma OrTest(x: byte, y: byte, m: byte)
    ensures Tests(Or(x, y), m) == (Tests(x, m) || Tests(y, m))
  {
  }

  lemma MasksApart(i: nat, k: nat)
    requires i < 8 && k < 8
    ensures Tests(Mask(k), Mask(i)) == (i == k)
  {
    if i == 0 { } else if i == 1 { } else if i == 2 { } else if i == 3 { }
    else if i == 4 { } else if i == 5 { } else if i == 6 { } else { }
  }

  lemma SetOneBit(x: byte, k: nat)
    requires k < 8
    ensures Octet(Or(x, ShiftLeft(1, k))) == Octet(x)[k := true]
  {
    hide Octet, ShiftLeft, Or, Tests;
    var after, expected := Octet(Or(x, ShiftLeft(1, k))), Octet(x)[k := true];
    forall i | 0 <= i < 8
      ensures after[i] == expected[i]
    {
      OctetAt(x, i);
      OctetAt(Or(x, Mask(k)), i);
      OrTest(x, Mask(k), Mask(i));
      MasksApart(i, k);
    }
  }

  lemma TestOneBit(x: byte, k: nat)
    requires k < 8
    ensures (x & ShiftLeft(1, k) != 0) == Octet(x)[k]
  {
    hide Octet, ShiftLeft;
    OctetAt(x, k);
  }

  lemma TwoBitMask(v: byte, k: nat, i: nat)
    requires v <= 3 && k < 8 && k % 2 == 0 && i < 8
    ensures Tests(ShiftLeft(v, k), Mask(i)) == ((i == k && LowBit(v)) || (i == k + 1 && HighBit(v)))
  {
    hide ShiftLeft, Mask, Tests, LowBit, HighBit;
    MaskCases(0, k, i);
    MaskCases(1, k, i);
    MaskCases(2, k, i);
    MaskCases(3, k, i);
    assert v == 0 || v == 1 || v == 2 || v == 3;
  }

  lemma MaskCases(v: byte, k: nat, i: nat)
    requires (v == 0 || v == 1 || v == 2 || v == 3) && k < 8 && k % 2 == 0 && i < 8
    ensures Tests(ShiftLeft(v, k), Mask(i)) == ((i == k && LowBit(v)) || (i == k + 1 && HighBit(v)))
  {
    if k == 0 { } else if k == 2 { } else if k == 4 { } else { }
  }

  lemma SetTwoBits(x: byte, v: byte, k: nat)
    requires v <= 3 && k < 8 && k % 2 == 0 && !Octet(x)[k] && !Octet(x)[k + 1]
    ensures Octet(Or(x, ShiftLeft(v, k))) == Octet(x)[k := LowBit(v)][k + 1 := HighBit(v)]
  {
    hide Octet, ShiftLeft, Mask, Or, Tests, LowBit, HighBit;
    var y := ShiftLeft(v, k);
    var after, expected := Octet(Or(x, y)), Octet(x)[k := LowBit(v)][k + 1 := HighBit(v)];
    forall i | 0 <= i < 8
      ensures after[i] == expected[i]
    {
      OctetAt(x, i);
      OctetAt(Or(x, y), i);
      OrTest(x, y, Mask(i));
      TwoBitMask(v, k, i);
    }
  }

  lemma TestTwoBits(x: byte, k: nat)
    requires k < 8 && k % 2 == 0
    ensures ShiftRight(x, k) & 3 == Lo(Below(Octet(x)[k], Below(Octet(x)[k + 1], 0)))
  {
    hide Tests;
    TwoBitsShifted(x, k);
    OctetAt(x, k);
    OctetAt(x, k + 1);
    hide Octet, ShiftRight, Mask, Lo, Below;
  }

  lemma TwoBitsShifted(x: byte, k: nat)
    requires k < 8 && k % 2 == 0
    ensures ShiftRight(x, k) & 3 == Lo(Below(Tests(x, Mask(k)), Below(Tests(x, Mask(k + 1)), 0)))
  {
    if k == 0 { } else if k == 2 { } else if k == 4 { } else { }
  }

  lemma HighBitsClear(x: byte, k: nat)
    requires 0 < k < 8
    ensures ShiftRight(x, k) == 0 <==>
      (k <= 1 ==> !Tests(x, 2)) && (k <= 2 ==> !Tests(x, 4)) && (k <= 3 ==> !Tests(x, 8)) && (k <= 4 ==> !Tests(x, 16))
      && (k <= 5 ==> !Tests(x, 32)) && (k <= 6 ==> !Tests(x, 64)) && !Tests(x, 128)
  {
    if k == 1 { } else if k == 2 { } else if k == 3 { }
    else if k == 4 { } else if k == 5 { } else if k == 6 { } else { }
  }

  // ---------------------------------------------------------------- bits in their octets

  lemma OctetInBits(data: seq<byte>, k: nat)
    requires k < |data|
    ensures Bits(data)[8 * k..8 * k + 8] == Octet(data[k])
  {
    hide Octet, LsbBits, Wide;
    BitsSlice(data, k, k + 1);
    assert data[k..k + 1] == [data[k]];
    BitsOne(data[k]);
  }

  lemma BitsOne(x: byte)
    ensures Bits([x]) == Octet(x)
  {
    hide Octet, LsbBits, Wide;
    OctetIsBits(x);
    BitsCons(x, []);
    BitsNone();
    assert [x] + [] == [x];
  }

  lemma BitIndex(data: seq<byte>, at: nat)
    requires at < 8 * |data|
    ensures Bits(data)[at] == Octet(data[at / 8])[at % 8]
  {
    hide Octet, Bits;
    var k := at / 8;
    BitsLen(data);
    OctetInBits(data, k);
    assert Bits(data)[8 * k..8 * k + 8][at % 8] == Bits(data)[at];
  }

  lemma BitsAround(before: seq<byte>, y: byte, after: seq<byte>)
    ensures Bits(before + ([y] + after)) == Bits(before) + (Octet(y) + Bits(after))
  {
    hide Octet, Bits;
    BitsConcat(before, [y] + after);
    BitsConcat([y], after);
    BitsOne(y);
  }

  lemma BitsUpdate(data: seq<byte>, k: nat, y: byte)
    requires k < |data|
    ensures |Bits(data)| == 8 * |data|
    ensures Bits(data[k := y]) == Bits(data)[..8 * k] + Octet(y) + Bits(data)[8 * k + 8..]
  {
    hide Octet, Bits;
    BitsLen(data);
    var before, after := data[..k], data[k + 1..];
    assert data[k := y] == before + ([y] + after);
    BitsAround(before, y, after);
    assert Bits(before) == Bits(data)[..8 * k] by {
      BitsSlice(data, 0, k);
      assert data[0..k] == before;
    }
    assert Bits(after) == Bits(data)[8 * k + 8..] by {
      BitsSlice(data, k + 1, |data|);
      assert data[k + 1..|data|] == after;
    }
  }

  lemma {:induction false} BitsOfZeros(data: seq<byte>)
    requires forall i :: 0 <= i < |data| ==> data[i] == 0
    ensures Bits(data) == Clear(8 * |data|)
    decreases data
  {
    if data == [] {
      BitsNone();
    } else {
      BitsOfZeros(data[1..]);
      BitsCons(data[0], data[1..]);
      assert data == [data[0]] + data[1..];
      WideZero();
      LsbBitsZero(8);
      hide LsbBits, Wide, Bits;
      ClearAdd(8, 8 * |data[1..]|);
    }
  }

  lemma WideZero()
    ensures Wide(0) == 0
  {
  }

  lemma {:induction false} ClearAdd(m: nat, n: nat)
    ensures Clear(m) + Clear(n) == Clear(m + n)
  {
    if m > 0 {
      ClearAdd(m - 1, n);
      assert Clear(m) + Clear(n) == [false] + (Clear(m - 1) + Clear(n));
    } else {
      assert [] + Clear(n) == Clear(n);
    }
  }

  lemma SpliceOne(all: seq<bool>, at: nat, j: nat, flag: bool)
    requires at + 8 <= |all| && j < 8
    ensures all[..at] + all[at..at + 8][j := flag] + all[at + 8..] == all[at + j := flag]
  {
  }

  lemma SpliceTwo(all: seq<bool>, at: nat, j: nat, low: bool, high: bool)
    requires at + 8 <= |all| && j < 7
    ensures all[..at] + all[at..at + 8][j := low][j + 1 := high] + all[at + 8..]
         == all[at + j := low][at + j + 1 := high]
  {
  }

  lemma FillOne(flat: seq<bool>, n: nat, flag: bool)
    requires n > 0
    ensures (flat + Clear(n))[|flat| := flag] == flat + [flag] + Clear(n - 1)
    ensures !(flat + Clear(n))[|flat|]
  {
    assert Clear(n) == [false] + Clear(n - 1);
  }

  lemma FillTwo(flat: seq<bool>, n: nat, low: bool, high: bool)
    requires n > 1
    ensures (flat + Clear(n))[|flat| := low][|flat| + 1 := high] == flat + [low, high] + Clear(n - 2)
    ensures !(flat + Clear(n))[|flat|] && !(flat + Clear(n))[|flat| + 1]
  {
    assert Clear(n) == [false] + Clear(n - 1) && Clear(n - 1) == [false] + Clear(n - 2);
  }

  /** Writing one point's bits at the front of the clear part appends them. */
  lemma AppendOneBit(data: seq<byte>, flat: seq<bool>, flag: bool, y: byte)
    requires |flat| < 8 * |data| && Bits(data) == flat + Clear(8 * |data| - |flat|)
    requires y == if flag then Or(data[|flat| / 8], ShiftLeft(1, |flat| % 8)) else data[|flat| / 8]
    ensures Bits(data[|flat| / 8 := y]) == flat + [flag] + Clear(8 * |data| - |flat| - 1)
  {
    hide Octet, ShiftLeft, Bits, Clear, Or, LowBit, HighBit;
    var k, j := |flat| / 8, |flat| % 8;
    var all, x := Bits(data), data[k];
    BitsUpdate(data, k, y);
    OctetInBits(data, k);
    SetOneBit(x, j);
    FillOne(flat, 8 * |data| - |flat|, flag);
    SpliceOne(all, 8 * k, j, flag);
    assert Octet(x)[j] == all[8 * k..8 * k + 8][j] == all[|flat|];
    assert Octet(y) == Octet(x)[j := flag];
  }

  lemma AppendTwoBits(data: seq<byte>, flat: seq<bool>, v: byte, y: byte)
    requires |flat| + 1 < 8 * |data| && |flat| % 2 == 0 && v <= 3
    requires Bits(data) == flat + Clear(8 * |data| - |flat|)
    requires y == Or(data[|flat| / 8], ShiftLeft(v, |flat| % 8))
    ensures Bits(data[|flat| / 8 := y]) == flat + [LowBit(v), HighBit(v)] + Clear(8 * |data| - |flat| - 2)
  {
    hide Octet, ShiftLeft, Bits, Clear, Or, LowBit, HighBit;
    var k, j := |flat| / 8, |flat| % 8;
    var all, x, low, high := Bits(data), data[k], LowBit(v), HighBit(v);
    BitsUpdate(data, k, y);
    OctetInBits(data, k);
    FillTwo(flat, 8 * |data| - |flat|, low, high);
    SpliceTwo(all, 8 * k, j, low, high);
    assert Octet(x)[j] == all[8 * k..8 * k + 8][j] == all[|flat|];
    assert Octet(x)[j + 1] == all[8 * k..8 * k + 8][j + 1] == all[|flat| + 1];
    SetTwoBits(x, v, j);
  }

  lemma TwoBitList(v: byte)
    requires v <= 3
    ensures LsbBits(Wide(v), 2) == [LowBit(v), HighBit(v)]
  {
    OctetHalves(v);
    var x := Wide(v);
    hide Lsb, Half, Wide;
    assert LsbBits(x, 2) == [Lsb(x)] + LsbBits(Half(x), 1);
    assert LsbBits(Half(x), 1) == [Lsb(Half(x))] + LsbBits(Half(Half(x)), 0);
  }

  // ---------------------------------------------------------------- packed points

  lemma {:induction false} PackedError(h: Header, points: seq<Point>, i: nat)
    requires i <= |points| && PackedBits(h, points[..i]).Err?
    ensures PackedBits(h, points) == PackedBits(h, points[..i])
    decreases |points|
  {
    hide CheckPacked;
    if i < |points| {
      var shorter := points[..|points| - 1];
      assert shorter[..i] == points[..i];
      PackedError(h, shorter, i);
    } else {
      assert points[..i] == points;
    }
  }

  lemma PackedStep(h: Header, points: seq<Point>, i: nat, flat: seq<bool>)
    requires i < |points| && PackedBits(h, points[..i]) == Ok(flat)
    ensures PackedBits(h, points[..i + 1]) ==
      match CheckPacked(h, points[i], i) case Ok(bits) => Ok(flat + bits) case Err(e) => Err(e)
  {
    hide CheckPacked;
    assert points[..i + 1][..i] == points[..i];
  }

  /** The octet at the next free bit after the point's bits have been or-ed in. */
  function WithPoint(x: byte, v: Value, k: nat): byte
    requires k < 8
  {
    if v.BoolValue? then if v.flag then Or(x, ShiftLeft(1, k)) else x
    else if v.ByteValue? then Or(x, ShiftLeft(v.octet, k))
    else x
  }

  lemma AppendPoint(h: Header, p: Point, i: nat, data: seq<byte>, flat: seq<bool>, used: nat)
    requires CheckPacked(h, p, i).Ok? && |flat| == i * BitsPer(h.group)
    requires used == |flat| + BitsPer(h.group) <= 8 * |data|
    requires Bits(data) == flat + Clear(8 * |data| - |flat|)
    ensures var y := WithPoint(data[|flat| / 8], p.value, |flat| % 8);
      Bits(data[|flat| / 8 := y]) == flat + CheckPacked(h, p, i).value + Clear(8 * |data| - used)
  {
    hide Bits, ShiftLeft, Clear, LsbBits, Wide, Or, LowBit, HighBit;
    var y := WithPoint(data[|flat| / 8], p.value, |flat| % 8);
    if h.group == 3 {
      TwoBitList(p.value.octet);
      AppendTwoBits(data, flat, p.value.octet, y);
    } else {
      AppendOneBit(data, flat, p.value.flag, y);
    }
  }

  lemma Product(i: nat, n: nat, k: nat)
    requires i < n
    ensures (i + 1) * k == i * k + k && i * k + k <= n * k
  {
  }

  /** The bits of the first i points are in the buffer, and the rest of it is clear. */
  ghost predicate PackedSoFar(h: Header, points: seq<Point>, i: nat, data: seq<byte>) {
    && i <= |points| && |data| == (|points| * BitsPer(h.group) + 7) / 8
    && PackedBits(h, points[..i]).Ok?
    && var flat := PackedBits(h, points[..i]).value;
       |flat| == i * BitsPer(h.group) <= 8 * |data| && Bits(data) == flat + Clear(8 * |data| - |flat|)
  }

  lemma PackedStart(h: Header, points: seq<Point>, data: seq<byte>)
    requires |data| == (|points| * BitsPer(h.group) + 7) / 8 && forall i :: 0 <= i < |data| ==> data[i] == 0
    ensures PackedSoFar(h, points, 0, data)
  {
    hide Bits, Clear, CheckPacked;
    BitsOfZeros(data);
    PackedBitsNone(h);
    assert points[..0] == [] && [] + Clear(8 * |data|) == Clear(8 * |data|);
  }

  /** One round of the packing loop. */
  lemma PackedRound(h: Header, points: seq<Point>, i: nat, data: seq<byte>)
    requires i < |points| && PackedSoFar(h, points, i, data) && CheckPacked(h, points[i], i).Ok?
    ensures var at := i * BitsPer(h.group);
      at / 8 < |data|
      && PackedSoFar(h, points, i + 1, data[at / 8 := WithPoint(data[at / 8], points[i].value, at % 8)])
  {
    hide Bits, Clear, CheckPacked, WithPoint, PackedBits;
    var flat := PackedBits(h, points[..i]).value;
    PackedStep(h, points, i, flat);
    Product(i, |points|, BitsPer(h.group));
    CheckedBits(h, points[i], i);
    AppendPoint(h, points[i], i, data, flat, |flat| + BitsPer(h.group));
  }

  /** A buffer with all the bits is the encoding. */
  lemma PackedDone(h: Header, points: seq<Point>, data: seq<byte>)
    requires PackedSoFar(h, points, |points|, data)
    ensures EncodePacked(h, points) == Ok(data)
  {
    hide Bits, LsbBits, Wide, PackBits, Clear, CheckPacked, PackedBits;
    assert points[..|points|] == points;
    var flat := PackedBits(h, points).value;
    BitsOfPacked(flat);
    PackedLength(flat);
    BitsInjective(PackBits(flat), data);
  }

  lemma PackedFails(h: Header, points: seq<Point>, i: nat, data: seq<byte>)
    requires i < |points| && PackedSoFar(h, points, i, data) && CheckPacked(h, points[i], i).Err?
    ensures EncodePacked(h, points) == Err(CheckPacked(h, points[i], i).error)
  {
    hide Bits, Clear, CheckPacked, PackBits;
    PackedStep(h, points, i, PackedBits(h, points[..i]).value);
    PackedError(h, points, i + 1);
  }

  /** Ors each point's bits into a cleared buffer. */
  method EncodePackedPoints(h: Header, points: seq<Point>) returns (r: Result<seq<byte>, ObjectError>)
    ensures r == EncodePacked(h, points)
  {
    hide CheckPacked, WithPoint, PackedSoFar, EncodePacked;
    var bits := BitsPer(h.group);
    var result := new byte[(|points| * bits + 7) / 8](i => 0);
    PackedStart(h, points, result[..]);
    for index := 0 to |points|
      invariant PackedSoFar(h, points, index, result[..])
    {
      var point := points[index];
      var checked := CheckPacked(h, point, index);
      if checked.Err? {
        PackedFails(h, points, index, result[..]);
        return Err(checked.error);
      }
      ghost var before := result[..];
      PackedRound(h, points, index, before);
      var bitOffset := index * bits;
      result[bitOffset / 8] := WithPoint(result[bitOffset / 8], point.value, bitOffset % 8);
      assert result[..] == before[bitOffset / 8 := WithPoint(before[bitOffset / 8], point.value, bitOffset % 8)];
    }
    PackedDone(h, points, result[..]);
    r := Ok(result[..]);
  }

  lemma PaddingTest(data: seq<byte>, used: nat)
    requires 8 * |data| - 8 < used < 8 * |data| && data != []
    ensures |Bits(data)| == 8 * |data|
    ensures true in Bits(data)[used..] <==> ShiftRight(data[|data| - 1], 8 - (8 * |data| - used)) != 0
  {
    hide Bits, ShiftRight, Octet;
    BitsLen(data);
    var last := |data| - 1;
    var x, k := data[last], used - 8 * last;
    OctetInBits(data, last);
    HighBitsClear(x, k);
    var tail := Bits(data)[used..];
    forall i | 0 <= i < |tail|
      ensures tail[i] == Octet(x)[k + i]
    {
      assert tail[i] == Bits(data)[8 * last..8 * last + 8][k + i];
    }
    OctetList(x);
    if ShiftRight(x, k) != 0 {
      var i :| k <= i < 8 && Octet(x)[i];
      assert tail[i - k];
    }
  }

  lemma OctetList(x: byte)
    ensures var o := Octet(x);
      o[0] == Tests(x, 1) && o[1] == Tests(x, 2) && o[2] == Tests(x, 4) && o[3] == Tests(x, 8)
      && o[4] == Tests(x, 16) && o[5] == Tests(x, 32) && o[6] == Tests(x, 64) && o[7] == Tests(x, 128)
  {
  }

  /** The value at a bit offset, read by shifting and masking. */
  function ValueAt(group: byte, x: byte, k: nat): Value
    requires k < 8
  {
    if BitsPer(group) == 1 then BoolValue(x & ShiftLeft(1, k) != 0) else ByteValue(ShiftRight(x, k) & 3)
  }

  lemma ValueFromBits(h: Header, data: seq<byte>, i: nat)
    requires (i + 1) * BitsPer(h.group) <= |Bits(data)|
    ensures |Bits(data)| == 8 * |data| && i * BitsPer(h.group) < 8 * |data|
    ensures var at := i * BitsPer(h.group);
      PointAt(h, Bits(data), i)
        == Point(h.group, h.variation, IndexAt(h.start, i), ValueAt(h.group, data[at / 8], at % 8), 0, None)
  {
    hide Bits, ShiftLeft, ShiftRight, Octet, OctetOf;
    BitsLen(data);
    var at := i * BitsPer(h.group);
    BitIndex(data, at);
    if h.group == 3 {
      BitIndex(data, at + 1);
      TestTwoBits(data[at / 8], at % 8);
      PairOctet(Bits(data), at);
    } else {
      TestOneBit(data[at / 8], at % 8);
    }
  }

  lemma PackedRoom(h: Header, data: seq<byte>, count: nat, i: nat)
    requires i <= count && PackedSize(h, count) <= |data|
    ensures |Bits(data[..PackedSize(h, count)])| == 8 * PackedSize(h, count)
    ensures i * BitsPer(h.group) <= count * BitsPer(h.group) <= 8 * PackedSize(h, count)
    ensures i < count ==> (i + 1) * BitsPer(h.group) <= 8 * PackedSize(h, count)
    ensures i < count ==> i * BitsPer(h.group) / 8 < PackedSize(h, count)
  {
    hide Bits;
    BitsLen(data[..PackedSize(h, count)]);
    if i < count {
      Product(i, count, BitsPer(h.group));
    }
  }

  /** One round of the unpacking loop. */
  lemma UnpackedRound(h: Header, data: seq<byte>, count: nat, i: nat)
    requires i < count && PackedSize(h, count) <= |data|
    requires (i + 1) * BitsPer(h.group) <= |Bits(data[..PackedSize(h, count)])|
    requires i * BitsPer(h.group) <= |Bits(data[..PackedSize(h, count)])|
    requires i * BitsPer(h.group) / 8 < PackedSize(h, count)
    ensures var bits, at := Bits(data[..PackedSize(h, count)]), i * BitsPer(h.group);
      PointsAt(h, bits, i + 1) == PointsAt(h, bits, i)
        + [Point(h.group, h.variation, IndexAt(h.start, i), ValueAt(h.group, data[at / 8], at % 8), 0, None)]
  {
    hide Bits, ValueAt, PointAt;
    ValueFromBits(h, data[..PackedSize(h, count)], i);
  }

  /** The padding check reads the unused high bits of the last octet. */
  lemma UnpackedEnd(h: Header, data: seq<byte>, count: nat)
    requires PackedSize(h, count) <= |data| && count * BitsPer(h.group) <= |Bits(data[..PackedSize(h, count)])|
    ensures var unused := PackedSize(h, count) * 8 - count * BitsPer(h.group);
      0 <= unused < 8
      && DecodePacked(h, data, count) ==
         if unused > 0 && ShiftRight(data[PackedSize(h, count) - 1], 8 - unused) != 0 then Err(NonZeroPadding)
         else Ok((PointsAt(h, Bits(data[..PackedSize(h, count)]), count), PackedSize(h, count)))
  {
    hide Bits, ShiftRight, PointsAt;
    var size, used := PackedSize(h, count), count * BitsPer(h.group);
    var body := data[..size];
    BitsLen(body);
    if 8 * size - used > 0 {
      PaddingTest(body, used);
    } else {
      assert Bits(body)[used..] == [];
    }
  }

  method DecodePackedPoints(h: Header, data: seq<byte>, count: nat)
    returns (r: Result<(seq<Point>, nat), ObjectError>)
    ensures r == DecodePacked(h, data, count)
  {
    hide Bits, ShiftRight, ValueAt, PointsAt, DecodePacked;
    var bits := BitsPer(h.group);
    var byteCount := (count * bits + 7) / 8;
    if |data| < byteCount {
      TooShort(h, data, count);
      return Err(Truncated);
    }
    ghost var body := Bits(data[..byteCount]);
    PackedRoom(h, data, count, 0);
    NoPoints(h, body);
    var points: seq<Point> := [];
    for index := 0 to count
      invariant index * BitsPer(h.group) <= |body| && points == PointsAt(h, body, index)
    {
      PackedRoom(h, data, count, index);
      UnpackedRound(h, data, count, index);
      var bitOffset := index * bits;
      var value := ValueAt(h.group, data[bitOffset / 8], bitOffset % 8);
      points := points + [Point(h.group, h.variation, IndexAt(h.start, index), value, 0, None)];
    }
    UnpackedEnd(h, data, count);
    var unused := byteCount * 8 - count * bits;
    if unused > 0 {
      if ShiftRight(data[byteCount - 1], 8 - unused) != 0 {
        return Err(NonZeroPadding);
      }
    }
    r := Ok((points, byteCount));
  }

  lemma TooShort(h: Header, data: seq<byte>, count: nat)
    requires |data| < PackedSize(h, count)
    ensures DecodePacked(h, data, count) == Err(Truncated)
  {
  }

  lemma NoPoints(h: Header, bits: seq<bool>)
    ensures PointsAt(h, bits, 0) == []
  {
  }

  lemma PairOctet(bits: seq<bool>, at: nat)
    requires at + 2 <= |bits|
    ensures OctetOf(bits[at..at + 2]) == Lo(Below(bits[at], Below(bits[at + 1], 0)))
  {
    WordOfTwo(bits[at..at + 2]);
    hide Below, Lo, WordOf;
  }

  // ---------------------------------------------------------------- blocks

  function Joined(result: seq<byte>, rest: Result<seq<byte>, ObjectError>): Result<seq<byte>, ObjectError> {
    match rest
    case Ok(more) => Ok(result + more)
    case Err(e) => Err(e)
  }

  lemma JoinedRules(a: seq<byte>, b: seq<byte>, r: Result<seq<byte>, ObjectError>)
    ensures Joined(a, Joined(b, r)) == Joined(a + b, r)
    ensures Joined([], r) == r
    ensures Joined(a, Ok([])) == Ok(a)
  {
    if r.Ok? {
      assert a + (b + r.value) == (a + b) + r.value && [] + r.value == r.value;
    }
    assert a + [] == a;
  }

  method EncodeStrictObjectBlock(b: Block) returns (r: Result<seq<byte>, ObjectError>)
    ensures r == EncodeBlock(b)
  {
    hide EncodePacked, EncodeIndexed, EncodeHeader, DecodeQualifier;
    var h, points := b.header, b.points;
    var descriptor := DecodeQualifier(h.qualifier);
    if descriptor.Err? {
      return Err(descriptor.error);
    }
    var d := descriptor.value;
    var count := HeaderCount(h, d);
    if count.Err? {
      return Err(count.error);
    }
    if |points| != count.value {
      return Err(WrongPointCount);
    }
    if d.sizePrefix {
      return Err(SizePrefixNotSupported);
    }
    var head := EncodeHeader(h);
    if head.Err? {
      return head;
    }
    if count.value == 0 {
      if !SelectorObject(h.group, h.variation) {
        return Err(UnsupportedObject);
      }
      return head;
    }
    var result := head.value;
    if PackedObject(h.group, h.variation) {
      if d.prefixWidth != 0 {
        return Err(PrefixNotAllowed);
      }
      var packed := EncodePackedPoints(h, points);
      return Joined(result, packed);
    }
    ghost var all := EncodePoints(h, d, points, 0);
    assert points[0..] == points;
    for index := 0 to |points|
      invariant Joined(head.value, all) == Joined(result, EncodePoints(h, d, points[index..], index))
    {
      assert points[index..][0] == points[index] && points[index..][1..] == points[index + 1..];
      var encoded := EncodeIndexed(h, d, points[index], index);
      if encoded.Err? {
        return encoded;
      }
      JoinedRules(result, encoded.value, EncodePoints(h, d, points[index + 1..], index + 1));
      result := result + encoded.value;
    }
    JoinedRules(result, [], Ok([]));
    r := Ok(result);
  }

  function JoinedPoints(points: seq<Point>, used: nat, rest: Result<(seq<Point>, nat), ObjectError>)
    : Result<(seq<Point>, nat), ObjectError>
  {
    match rest
    case Ok((more, n)) => Ok((points + more, used + n))
    case Err(e) => Err(e)
  }

  lemma HeaderInside(data: seq<byte>)
    requires DecodeHeader(data).Ok?
    ensures DecodeHeader(data).value.1 <= |data|
  {
    hide DecodeHeader, EncodeHeader, CanonicalHeader;
    EncodeDecodedHeader(data);
  }

  method DecodeStrictObjectBlock(data: seq<byte>, maximumPoints: int) returns (r: Result<(Block, nat), ObjectError>)
    ensures r == DecodeBlock(data, maximumPoints)
  {
    hide DecodePacked, DecodePoints, DecodeHeader, DecodeQualifier, HeaderCount, PackedObject, SelectorObject;
    if maximumPoints < 1 {
      return Err(BadLimit);
    }
    var head := DecodeHeader(data);
    if head.Err? {
      return Err(head.error);
    }
    var (h, start) := head.value;
    var descriptor := DecodeQualifier(h.qualifier);
    if descriptor.Err? {
      return Err(descriptor.error);
    }
    HeaderInside(data);
    var d := descriptor.value;
    if d.sizePrefix {
      return Err(SizePrefixNotSupported);
    }
    var count := HeaderCount(h, d);
    if count.Err? {
      return Err(count.error);
    }
    if count.value == 0 {
      if !SelectorObject(h.group, h.variation) {
        return Err(UnsupportedObject);
      }
      return Ok((Block(h, []), start));
    }
    if count.value > maximumPoints {
      return Err(PointLimit);
    }
    if PackedObject(h.group, h.variation) {
      if d.prefixWidth != 0 {
        return Err(PrefixNotAllowed);
      }
      var packed := DecodePackedPoints(h, data[start..], count.value);
      if packed.Err? {
        return Err(packed.error);
      }
      return Ok((Block(h, packed.value.0), start + packed.value.1));
    }
    QualifierShape(h.qualifier);
    var points := DecodeStrictPoints(h, d, data[start..], count.value);
    if points.Err? {
      return Err(points.error);
    }
    r := Ok((Block(h, points.value.0), start + points.value.1));
  }

  /** A decoded point in front of the points that follow it. */
  lemma PointsStep(h: Header, d: Qualifier, data: seq<byte>, offset: nat, index: nat, count: nat)
    requires d.prefixWidth == 0 || d.prefixWidth == 1 || d.prefixWidth == 2 || d.prefixWidth == 4
    requires offset <= |data| && index < count
    ensures var decoded := DecodeIndexed(h, d, data[offset..], index);
      var all := DecodePoints(h, d, data[offset..], index, count - index);
      if decoded.Err? then all == Err(decoded.error)
      else
        var (point, consumed) := decoded.value;
        offset + consumed <= |data|
        && all == JoinedPoints([point], consumed,
                               DecodePoints(h, d, data[offset + consumed..], index + 1, count - index - 1))
  {
    hide DecodeIndexed;
    var decoded := DecodeIndexed(h, d, data[offset..], index);
    if decoded.Ok? {
      EncodeDecodedIndexed(h, d, data[offset..], index);
      assert data[offset..][decoded.value.1..] == data[offset + decoded.value.1..];
    }
  }

  /** The loop over the points that follow the header. */
  method DecodeStrictPoints(h: Header, d: Qualifier, data: seq<byte>, count: nat)
    returns (r: Result<(seq<Point>, nat), ObjectError>)
    requires d.prefixWidth == 0 || d.prefixWidth == 1 || d.prefixWidth == 2 || d.prefixWidth == 4
    ensures r == DecodePoints(h, d, data, 0, count)
  {
    hide DecodeIndexed, DecodePoints;
    var points: seq<Point> := [];
    var offset := 0;
    ghost var all := DecodePoints(h, d, data, 0, count);
    assert data[0..] == data;
    PointsRules([], 0, all);
    for index := 0 to count
      invariant offset <= |data|
      invariant all == JoinedPoints(points, offset, DecodePoints(h, d, data[offset..], index, count - index))
    {
      var decoded := DecodeIndexed(h, d, data[offset..], index);
      PointsStep(h, d, data, offset, index, count);
      if decoded.Err? {
        return Err(decoded.error);
      }
      var (point, consumed) := decoded.value;
      PointsSnoc(points, offset, point, consumed,
                 DecodePoints(h, d, data[offset + consumed..], index + 1, count - index - 1));
      points := points + [point];
      offset := offset + consumed;
    }
    NoPointsLeft(h, d, data[offset..], count);
    PointsRules(points, offset, Ok(([], 0)));
    r := Ok((points, offset));
  }

  lemma NoPointsLeft(h: Header, d: Qualifier, data: seq<byte>, index: nat)
    ensures DecodePoints(h, d, data, index, 0) == Ok(([], 0))
  {
  }

  lemma PointsRules(points: seq<Point>, used: nat, r: Result<(seq<Point>, nat), ObjectError>)
    ensures JoinedPoints([], 0, r) == r
    ensures JoinedPoints(points, used, Ok(([], 0))) == Ok((points, used))
  {
    if r.Ok? {
      assert [] + r.value.0 == r.value.0;
    }
    assert points + [] == points;
  }

  lemma PointsSnoc(points: seq<Point>, used: nat, p: Point, n: nat, r: Result<(seq<Point>, nat), ObjectError>)
    ensures JoinedPoints(points, used, JoinedPoints([p], n, r)) == JoinedPoints(points + [p], used + n, r)
  {
    if r.Ok? {
      assert points + ([p] + r.value.0) == (points + [p]) + r.value.0;
    }
  }

  function JoinedBlocks(blocks: seq<Block>, rest: Result<seq<Block>, ObjectError>): Result<seq<Block>, ObjectError> {
    match rest
    case Ok(more) => Ok(blocks + more)
    case Err(e) => Err(e)
  }

  lemma BlocksStart(r: Result<seq<Block>, ObjectError>)
    ensures JoinedBlocks([], r) == r
  {
    if r.Ok? {
      assert [] + r.value == r.value;
    }
  }

  lemma BlocksRules(blocks: seq<Block>, b: Block, r: Result<seq<Block>, ObjectError>)
    ensures JoinedBlocks(blocks, JoinedBlocks([b], r)) == JoinedBlocks(blocks + [b], r)
  {
    if r.Ok? {
      assert blocks + ([b] + r.value) == (blocks + [b]) + r.value;
    }
  }

  /** A decoded block in front of the blocks that follow it. */
  lemma BlocksStep(data: seq<byte>, offset: nat, points: int, limit: int)
    requires offset < |data| && limit != 0 && DecodeBlock(data[offset..], points).Ok?
    ensures var (block, consumed) := DecodeBlock(data[offset..], points).value;
      3 <= consumed && offset + consumed <= |data|
      && DecodeBlocksFrom(data[offset..], points, limit)
         == JoinedBlocks([block], DecodeBlocksFrom(data[offset + consumed..], points - |block.points|, limit - 1))
  {
    hide DecodeBlock, EncodeBlock, CanonicalBlock;
    EncodeDecodedBlock(data[offset..], points);
    var (block, consumed) := DecodeBlock(data[offset..], points).value;
    assert data[offset..][consumed..] == data[offset + consumed..];
  }

  /** The loop ends because every block takes at least three octets. */
  method DecodeStrictObjectBlocks(data: seq<byte>, maximumPoints: int, maximumBlocks: int)
    returns (r: Result<seq<Block>, ObjectError>)
    ensures r == DecodeBlocks(data, maximumPoints, maximumBlocks)
  {
    hide DecodeBlock;
    if maximumPoints < 1 || maximumBlocks < 1 {
      return Err(BadLimit);
    }
    var blocks: seq<Block> := [];
    var offset, pointCount := 0, 0;
    ghost var all := DecodeBlocksFrom(data, maximumPoints, maximumBlocks);
    assert data[0..] == data;
    BlocksStart(all);
    while offset < |data|
      invariant 0 <= offset <= |data| && |blocks| <= maximumBlocks
      invariant all == JoinedBlocks(blocks, DecodeBlocksFrom(data[offset..], maximumPoints - pointCount,
                                                             maximumBlocks - |blocks|))
    {
      if |blocks| == maximumBlocks {
        return Err(BlockLimit);
      }
      var decoded := DecodeStrictObjectBlock(data[offset..], maximumPoints - pointCount);
      if decoded.Err? {
        return Err(decoded.error);
      }
      BlocksStep(data, offset, maximumPoints - pointCount, maximumBlocks - |blocks|);
      var (block, consumed) := decoded.value;
      BlocksRules(blocks, block, DecodeBlocksFrom(data[offset + consumed..],
                                                  maximumPoints - pointCount - |block.points|,
                                                  maximumBlocks - |blocks| - 1));
      blocks := blocks + [block];
      pointCount := pointCount + |block.points|;
      offset := offset + consumed;
    }
    assert blocks + [] == blocks;
    r := Ok(blocks);
  }
}
