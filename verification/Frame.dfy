/** The strict link frame codec (IEEE Std 1815-2012, clause 9) and deframing of an octet stream. */
module Frame {
  import opened Bytes
  import opened Crc
  import opened CrcBlocks

  const START1: byte := 0x05
  const START2: byte := 0x64
  const HEADER_SIZE: nat := 10
  const MAX_DATA_SIZE: nat := 250

  const CTRL_DIR: byte := 0x80
  const CTRL_PRM: byte := 0x40
  const CTRL_FCB: byte := 0x20
  const CTRL_FCV: byte := 0x10
  const CTRL_FUNC_MASK: byte := 0x0F

  /** The exact wire representation used by the strict codec. */
  datatype StrictFrame = StrictFrame(control: byte, destination: u16, source: u16, userData: seq<byte>)

  datatype FrameError = FrameTooShort | FrameTooLong | InvalidStartBytes | InvalidLength | BadCrc
                      | TrailingBytes | InvalidControl | InvalidHeader | EndOfStream

  // ---------------------------------------------------------------- control octet

  predicate Flag(control: byte, mask: byte) {
    control & mask != 0
  }

  function Func(control: byte): byte {
    control & CTRL_FUNC_MASK
  }

  /** validateStrictControl: the flag and function combinations the strict stack allows. */
  predicate ValidControl(control: byte) {
    var function_ := Func(control);
    if Flag(control, CTRL_PRM) then
      var fcb, fcv := Flag(control, CTRL_FCB), Flag(control, CTRL_FCV);
      var requiresFCV := function_ == 2 || function_ == 3;
      var validFunction := function_ == 0 || requiresFCV || function_ == 4 || function_ == 9;
      validFunction && fcv == requiresFCV && !(fcb && !fcv)
    else
      !Flag(control, CTRL_FCB) && (function_ == 0 || function_ == 1 || function_ == 11 || function_ == 15)
  }

  /** The control octets of the strict stack, with each direction bit: requests, then answers without and with DFC. */
  const CONTROL_OCTETS: set<byte> :=
    {0x40, 0x44, 0x49, 0x52, 0x53, 0x72, 0x73, 0xC0, 0xC4, 0xC9, 0xD2, 0xD3, 0xF2, 0xF3,
     0x00, 0x01, 0x0B, 0x0F, 0x80, 0x81, 0x8B, 0x8F, 0x10, 0x11, 0x1B, 0x1F, 0x90, 0x91, 0x9B, 0x9F}

  /** Which of the 256 control octets are valid. */
  lemma ControlOctets(control: byte)
    ensures ValidControl(control) <==> control in CONTROL_OCTETS
  {
  }

  predicate ValidFrame(f: StrictFrame) {
    ValidControl(f.control) && |f.userData| <= MAX_DATA_SIZE
  }

  // ---------------------------------------------------------------- specification of the codec

  /** The eight header octets before their CRC. */
  function Header(f: StrictFrame): (h: seq<byte>)
    requires |f.userData| <= MAX_DATA_SIZE
    ensures |h| == 8
  {
    [START1, START2, ByteOf(|f.userData| + 5), f.control,
     Lo(f.destination), Hi(f.destination), Lo(f.source), Hi(f.source)]
  }

  /** Frame.Serialize. */
  function Serialize(f: StrictFrame): Result<seq<byte>, FrameError> {
    if |f.userData| > MAX_DATA_SIZE then Err(FrameTooLong)
    else Ok(WithCrc(Header(f)) + AddCrcs(f.userData))
  }

  function EncodeStrictFrame(f: StrictFrame): Result<seq<byte>, FrameError> {
    if !ValidControl(f.control) then Err(InvalidControl)
    else Serialize(f)
  }

  /** The wire size that the length octet announces. */
  function FrameSize(dataLength: nat): nat {
    HEADER_SIZE + dataLength + 2 * BlockCount(dataLength)
  }

  /** Parse: a frame at the front of the input and the number of octets it took. */
  function Parse(data: seq<byte>): Result<(StrictFrame, nat), FrameError> {
    if |data| < HEADER_SIZE then Err(FrameTooShort)
    else if data[0] != START1 || data[1] != START2 then Err(InvalidStartBytes)
    else if ValOf(data[2]) < 5 then Err(InvalidLength)
    else
      var dataLength := ValOf(data[2]) - 5;
      var size := FrameSize(dataLength);
      if |data| < size then Err(FrameTooShort)
      else if !CrcValid(data[..10]) then Err(BadCrc)
      else
        match RemoveCrcs(data[10..size])
        case Err(_) => Err(BadCrc)
        case Ok(userData) =>
          Ok((StrictFrame(data[3], Join(data[4], data[5]), Join(data[6], data[7]), userData), size))
  }

  function DecodeStrictFrame(data: seq<byte>): Result<StrictFrame, FrameError> {
    match Parse(data)
    case Err(e) => Err(e)
    case Ok((f, consumed)) =>
      if consumed != |data| then Err(TrailingBytes)
      else if !ValidControl(f.control) then Err(InvalidControl)
      else Ok(f)
  }

  // ---------------------------------------------------------------- one frame, one octet string

  /** What the encoder refuses, and why. */
  lemma EncodesIff(f: StrictFrame)
    ensures EncodeStrictFrame(f) == Err(InvalidControl) <==> f.control !in CONTROL_OCTETS
    ensures EncodeStrictFrame(f) == Err(FrameTooLong) <==> f.control in CONTROL_OCTETS && |f.userData| > 250
    ensures EncodeStrictFrame(f).Ok? <==> f.control in CONTROL_OCTETS && |f.userData| <= 250
  {
    hide ValidControl, WithCrc, AddCrcs;
    ControlOctets(f.control);
  }

  lemma EncodedSize(f: StrictFrame)
    requires ValidFrame(f)
    ensures EncodeStrictFrame(f).Ok?
    ensures var w := EncodeStrictFrame(f).value;
      |w| == 10 + |f.userData| + 2 * ((|f.userData| + 15) / 16) && 10 <= |w| <= 292
      && |w| == FrameSize(|f.userData|)
  {
    hide WithCrc, ValidControl, Header, CalculateCrc, AddCrcs;
    AddCrcsLength(f.userData);
    WithCrcLength(Header(f));
  }

  lemma WithCrcLength(block: seq<byte>)
    ensures |WithCrc(block)| == |block| + 2
  {
  }

  lemma HeaderFields(f: StrictFrame)
    requires |f.userData| <= MAX_DATA_SIZE
    ensures var h := Header(f);
      h[0] == START1 && h[1] == START2 && ValOf(h[2]) == |f.userData| + 5 && h[3] == f.control
      && Join(h[4], h[5]) == f.destination && Join(h[6], h[7]) == f.source
  {
    hide Join, Lo, Hi, ByteOf, ValOf;
    ValOfByte(|f.userData| + 5);
    JoinSplit(f.destination);
    JoinSplit(f.source);
  }

  /**
   * Where everything is on the wire: the start octets, length, control, destination and source low octet first, the
   * header CRC, the data octets moved up by two places for each full block of sixteen before them, and a valid CRC at
   * the end of every block.
   */
  lemma WireLayout(f: StrictFrame)
    requires ValidFrame(f)
    ensures var w := EncodeStrictFrame(f).value;
      && |w| == 10 + |f.userData| + 2 * ((|f.userData| + 15) / 16) && w[0] == 0x05 && w[1] == 0x64
      && ValOf(w[2]) == |f.userData| + 5 && w[3] == f.control
      && w[4] == (f.destination & 0xFF) as bv8 && w[5] == (f.destination >> 8) as bv8
      && w[6] == (f.source & 0xFF) as bv8 && w[7] == (f.source >> 8) as bv8
      && CrcValid(w[..10])
      && (forall i :: 0 <= i < |f.userData| ==> WireAt(w, 10 + i + 2 * (i / 16)) == Some(f.userData[i]))
      && (forall i: nat :: 18 * i < |w[10..]| ==> CrcValid(BlockAt(w[10..], i)))
  {
    hide WithCrc, ValidControl, AddCrcs, CrcValid, Join, ValOf, RemoveCrcs, BlockAt, ByteOf;
    EncodedSize(f);
    HeaderFields(f);
    WithCrcLength(Header(f));
    WithCrcPrefix(Header(f));
    WithCrcValid(Header(f));
    var w := EncodeStrictFrame(f).value;
    assert w[..10] == WithCrc(Header(f));
    assert forall k :: 0 <= k < 8 ==> w[k] == WithCrc(Header(f))[k] == Header(f)[k];
    assert w[10..] == AddCrcs(f.userData);
    forall i | 0 <= i < |f.userData|
      ensures WireAt(w, 10 + i + 2 * (i / 16)) == Some(f.userData[i])
    {
      DataAt(f.userData, i);
    }
    RemoveAdded(f.userData);
    RemovesIff(w[10..]);
  }

  function WireAt(w: seq<byte>, i: nat): Option<byte> {
    if i < |w| then Some(w[i]) else None
  }

  /** Every valid frame survives the wire, whatever octets follow it. */
  lemma ParseEncoded(f: StrictFrame, suffix: seq<byte>)
    requires ValidFrame(f)
    ensures EncodeStrictFrame(f).Ok?
    ensures Parse(EncodeStrictFrame(f).value + suffix) == Ok((f, |EncodeStrictFrame(f).value|))
  {
    hide WithCrc, ValidControl, Header, CalculateCrc, AddCrcs, RemoveCrcs, CrcValid, Join, ValOf;
    EncodedSize(f);
    HeaderFields(f);
    var wire := EncodeStrictFrame(f).value;
    var data := wire + suffix;
    var head := WithCrc(Header(f));
    WithCrcLength(Header(f));
    WithCrcPrefix(Header(f));
    assert forall k :: 0 <= k < 8 ==> data[k] == Header(f)[k];
    assert data[..10] == head;
    WithCrcValid(Header(f));
    assert data[10..|wire|] == AddCrcs(f.userData);
    RemoveAdded(f.userData);
  }

  lemma WithCrcPrefix(block: seq<byte>)
    ensures |WithCrc(block)| == |block| + 2 && forall k :: 0 <= k < |block| ==> WithCrc(block)[k] == block[k]
  {
  }

  lemma DecodeEncoded(f: StrictFrame)
    requires ValidFrame(f)
    ensures EncodeStrictFrame(f).Ok? && DecodeStrictFrame(EncodeStrictFrame(f).value) == Ok(f)
  {
    hide EncodeStrictFrame, Parse;
    ParseEncoded(f, []);
    var wire := EncodeStrictFrame(f).value;
    assert wire + [] == wire;
  }

  /** An accepted octet string is the encoding of the frame it decodes to: no frame has two wire forms. */
  lemma EncodeDecoded(data: seq<byte>)
    requires DecodeStrictFrame(data).Ok?
    ensures ValidFrame(DecodeStrictFrame(data).value)
    ensures EncodeStrictFrame(DecodeStrictFrame(data).value) == Ok(data)
  {
    hide WithCrc, ValidControl, CalculateCrc, AddCrcs, RemoveCrcs, CrcValid, Join, ValOf, ByteOf, Lo, Hi;
    var f := DecodeStrictFrame(data).value;
    var dataLength := ValOf(data[2]) - 5;
    assert data[10..|data|] == data[10..];
    AddRemoved(data[10..]);
    AddCrcsLength(f.userData);
    SameSize(|f.userData|, dataLength);
    CrcValidSplits(data[..10]);
    assert data[..10][..8] == data[..8];
    ByteOfVal(data[2]);
    SplitJoin(data[4], data[5]);
    SplitJoin(data[6], data[7]);
    assert Header(f) == data[..8];
    assert data == data[..10] + data[10..];
  }

  /** The length that the length octet, the third, announces; none for an octet below five. */
  function Announced(data: seq<byte>): Option<nat>
    requires |data| >= 10
  {
    if ValOf(data[2]) < 5 then None else var n := ValOf(data[2]) - 5; Some(10 + n + 2 * ((n + 15) / 16))
  }

  predicate HasItsLength(data: seq<byte>) {
    |data| >= 10 && Announced(data) == Some(|data|)
  }

  /** The header CRC and every data CRC are valid. */
  ghost predicate CrcsValid(data: seq<byte>) {
    |data| >= 10 && CrcValid(data[..10])
    && forall i: nat :: 18 * i < |data[10..]| ==> CrcValid(BlockAt(data[10..], i))
  }

  lemma BlocksHaveData(n: nat, wire: seq<byte>)
    requires |wire| == n + 2 * ((n + 15) / 16)
    ensures forall i: nat :: 18 * i < |wire| ==> |BlockAt(wire, i)| > 2
  {
  }

  /** There are start octets, and the announced length is there, perhaps with more behind it. */
  predicate Complete(data: seq<byte>) {
    && |data| >= 10 && data[0] == 0x05 && data[1] == 0x64
    && Announced(data).Some? && Announced(data).value <= |data|
  }

  /** What becomes of a complete frame. */
  predicate CompleteFate(data: seq<byte>, crcsValid: bool, r: Result<StrictFrame, FrameError>)
    requires Complete(data)
  {
    var n := Announced(data).value;
    && (r == Err(BadCrc) <==> !crcsValid)
    && (r == Err(TrailingBytes) <==> crcsValid && n < |data|)
    && (r == Err(InvalidControl) <==> crcsValid && n == |data| && data[3] !in CONTROL_OCTETS)
    && (r.Ok? <==> crcsValid && n == |data| && data[3] in CONTROL_OCTETS)
    && (r.Err? ==> r.error == BadCrc || r.error == TrailingBytes || r.error == InvalidControl)
  }

  lemma CrcsChecked(data: seq<byte>, n: nat)
    requires Complete(data) && n == Announced(data).value
    ensures CrcsValid(data[..n]) <==> CrcValid(data[..10]) && RemoveCrcs(data[10..n]).Ok?
  {
    hide RemoveCrcs, CrcValid, BlockAt;
    assert data[..n][..10] == data[..10] && data[..n][10..] == data[10..n];
    RemovesIff(data[10..n]);
    BlocksHaveData(ValOf(data[2]) - 5, data[10..n]);
  }

  lemma WhenComplete(data: seq<byte>)
    requires Complete(data)
    ensures CompleteFate(data, CrcsValid(data[..Announced(data).value]), DecodeStrictFrame(data))
  {
    hide ValidControl, RemoveCrcs, CrcValid, Join, CrcsValid;
    CrcsChecked(data, Announced(data).value);
    ControlOctets(data[3]);
  }

  /** Why an octet string is refused, in the order of the checks. */
  lemma WhyRefused(data: seq<byte>)
    ensures var r := DecodeStrictFrame(data);
      var starts := |data| >= 10 && data[0] == 0x05 && data[1] == 0x64;
      && (r == Err(InvalidStartBytes) <==> |data| >= 10 && !starts)
      && (r == Err(InvalidLength) <==> starts && Announced(data).None?)
      && (r == Err(FrameTooShort) <==> |data| < 10 || (starts && Announced(data).Some? && !Complete(data)))
      && (Complete(data) ==> CompleteFate(data, CrcsValid(data[..Announced(data).value]), r))
  {
    hide ValidControl, RemoveCrcs, CrcValid, Join, CrcsValid;
    if Complete(data) {
      WhenComplete(data);
    }
  }

  /**
   * Exactly which octet strings are frames: the start octets, the announced length, a control octet of the strict
   * stack, and valid CRCs.
   */
  lemma DecodesIff(data: seq<byte>)
    ensures DecodeStrictFrame(data).Ok? <==>
      HasItsLength(data) && data[0] == 0x05 && data[1] == 0x64 && data[3] in CONTROL_OCTETS && CrcsValid(data)
  {
    hide ValidControl, CrcsValid, Announced;
    WhyRefused(data);
    if HasItsLength(data) {
      assert data[..|data|] == data;
    }
  }

  /** What an accepted octet string holds. */
  lemma DecodedFields(data: seq<byte>)
    requires DecodeStrictFrame(data).Ok?
    ensures |data| >= 10
    ensures var f := DecodeStrictFrame(data).value;
      && f.control == data[3] && |f.userData| == ValOf(data[2]) - 5
      && data[4] == (f.destination & 0xFF) as bv8 && data[5] == (f.destination >> 8) as bv8
      && data[6] == (f.source & 0xFF) as bv8 && data[7] == (f.source >> 8) as bv8
      && forall i :: 0 <= i < |f.userData| ==> WireAt(data, 10 + i + 2 * (i / 16)) == Some(f.userData[i])
  {
    hide *;
    EncodeDecoded(data);
    WireLayout(DecodeStrictFrame(data).value);
  }

  lemma SameSize(m: nat, n: nat)
    requires m + 2 * BlockCount(m) == n + 2 * BlockCount(n)
    ensures m == n
  {
  }

  // ---------------------------------------------------------------- errors on the wire are rejected

  lemma AcceptedParts(w: seq<byte>)
    requires DecodeStrictFrame(w).Ok?
    ensures |w| >= 10 && CrcValid(w[..10]) && RemoveCrcs(w[10..]).Ok?
    ensures |w| == FrameSize(ValOf(w[2]) - 5)
  {
    hide CrcValid, RemoveCrcs, Join;
    assert w[10..|w|] == w[10..];
  }

  lemma XorSlices(w: seq<byte>, e: seq<byte>)
    requires |w| == |e| >= 10
    ensures XorBytes(w, e)[..10] == XorBytes(w[..10], e[..10])
    ensures XorBytes(w, e)[10..] == XorBytes(w[10..], e[10..])
  {
  }

  /** A frame whose header is intact keeps its length, so a rejected data field rejects the frame. */
  lemma DataErrorRejects(w: seq<byte>, e: seq<byte>)
    requires |w| == |e| && DecodeStrictFrame(w).Ok?
    requires |w| >= 10 && RemoveCrcs(XorBytes(w[10..], e[10..])).Err?
    ensures DecodeStrictFrame(XorBytes(w, e)).Err?
  {
    hide CrcValid, RemoveCrcs, XorBytes;
    var bad := XorBytes(w, e);
    XorSlices(w, e);
    XorLength(w, e);
    if DecodeStrictFrame(bad).Ok? {
      AcceptedParts(bad);
      assert false;
    }
  }

  lemma HeaderErrorRejects(w: seq<byte>, e: seq<byte>)
    requires |w| == |e| && DecodeStrictFrame(w).Ok?
    requires |w| >= 10 && !CrcValid(XorBytes(w[..10], e[..10]))
    ensures DecodeStrictFrame(XorBytes(w, e)).Err?
  {
    hide CrcValid, RemoveCrcs, XorBytes;
    var bad := XorBytes(w, e);
    XorSlices(w, e);
    XorLength(w, e);
    if DecodeStrictFrame(bad).Ok? {
      AcceptedParts(bad);
      assert false;
    }
  }

  /** Any non-zero error confined to sixteen consecutive wire bits is rejected, wherever in the frame it falls. */
  lemma {:induction false} BurstInFrameRejected(w: seq<byte>, e: seq<byte>)
    requires |w| == |e| && DecodeStrictFrame(w).Ok?
    requires Burst(Bits(e)) && true in Bits(e)
    ensures DecodeStrictFrame(XorBytes(w, e)).Err?
  {
    hide CrcValid, RemoveCrcs, XorBytes, Bits, Burst, DecodeStrictFrame;
    AcceptedParts(w);
    BitsLength(e);
    assert e[0..10] == e[..10] && e[10..|e|] == e[10..];
    BitsSlice(e, 0, 10);
    BitsSlice(e, 10, |e|);
    BurstSlice(Bits(e), 0, 80);
    BurstSlice(Bits(e), 80, |Bits(e)|);
    var k :| 0 <= k < |Bits(e)| && Bits(e)[k];
    if k < 80 {
      assert Bits(e[..10])[k];
      BurstRejected(w[..10], e[..10]);
      HeaderErrorRejects(w, e);
    } else {
      assert Bits(e[10..])[k - 80];
      BurstInBlocksRejected(w[10..], e[10..]);
      DataErrorRejects(w, e);
    }
  }

  /** An odd number of flipped bits in the header block is rejected, whatever happens to the data. */
  lemma OddHeaderRejected(w: seq<byte>, e: seq<byte>)
    requires |w| == |e| && DecodeStrictFrame(w).Ok? && |e| >= 10 && Odd(Bits(e[..10]))
    ensures DecodeStrictFrame(XorBytes(w, e)).Err?
  {
    hide CrcValid, RemoveCrcs, XorBytes, Bits, Odd, DecodeStrictFrame;
    AcceptedParts(w);
    OddWeightRejected(w[..10], e[..10]);
    HeaderErrorRejects(w, e);
  }

  /** An odd number of flipped bits in any one data block is rejected, whatever happens elsewhere. */
  lemma OddDataBlockRejected(w: seq<byte>, e: seq<byte>, i: nat)
    requires |w| == |e| && DecodeStrictFrame(w).Ok? && 10 + 18 * i < |e| && Odd(Bits(BlockAt(e[10..], i)))
    ensures DecodeStrictFrame(XorBytes(w, e)).Err?
  {
    hide CrcValid, RemoveCrcs, XorBytes, Bits, Odd, DecodeStrictFrame, BlockAt;
    AcceptedParts(w);
    OddBlockRejected(w[10..], e[10..], i);
    DataErrorRejects(w, e);
  }
}
