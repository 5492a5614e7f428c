/** Reading and writing strict frames over octet streams that deliver in arbitrary pieces. */
module FrameStream {
  import opened Bytes
  import opened CrcBlocks
  import opened Frame

  // ---------------------------------------------------------------- specification

  /** ReadStrictFrame on the octets a stream still holds: the frame and how many octets it took. */
  function ReadFrame(stream: seq<byte>): Result<(StrictFrame, nat), FrameError> {
    if |stream| < HEADER_SIZE then Err(EndOfStream)
    else if stream[0] != START1 || stream[1] != START2 || ValOf(stream[2]) < 5 then Err(InvalidHeader)
    else
      var size := FrameSize(ValOf(stream[2]) - 5);
      if |stream| < size then Err(EndOfStream)
      else match DecodeStrictFrame(stream[..size])
        case Ok(f) => Ok((f, size))
        case Err(e) => Err(e)
  }

  /** Reading frame after frame until the stream is used up. */
  function ReadAll(stream: seq<byte>): Result<seq<StrictFrame>, FrameError>
    decreases |stream|
  {
    if stream == [] then Ok([])
    else match ReadFrame(stream)
      case Err(e) => Err(e)
      case Ok((f, used)) =>
        match ReadAll(stream[used..])
        case Err(e) => Err(e)
        case Ok(rest) => Ok([f] + rest)
  }

  predicate AllValid(frames: seq<StrictFrame>) {
    forall i :: 0 <= i < |frames| ==> ValidFrame(frames[i])
  }

  function Wire(f: StrictFrame): seq<byte>
    requires ValidFrame(f)
  {
    EncodedSize(f);
    EncodeStrictFrame(f).value
  }

  function WireAll(frames: seq<StrictFrame>): seq<byte>
    requires AllValid(frames)
  {
    if frames == [] then [] else Wire(frames[0]) + WireAll(frames[1..])
  }

  lemma WireDecodes(f: StrictFrame)
    requires ValidFrame(f)
    ensures DecodeStrictFrame(Wire(f)) == Ok(f) && |Wire(f)| == FrameSize(|f.userData|)
  {
    hide EncodeStrictFrame, DecodeStrictFrame, ValidFrame;
    DecodeEncoded(f);
    EncodedSize(f);
  }

  lemma ReadEncoded(f: StrictFrame, suffix: seq<byte>)
    requires ValidFrame(f)
    ensures ReadFrame(Wire(f) + suffix) == Ok((f, |Wire(f)|))
  {
    hide DecodeStrictFrame, Wire, ValidFrame, FrameSize, ValOf;
    var w := Wire(f);
    WireDecodes(f);
    WireStarts(f);
    var stream := w + suffix;
    assert stream[0] == w[0] && stream[1] == w[1] && stream[2] == w[2];
    assert stream[..|w|] == w;
  }

  lemma WireStarts(f: StrictFrame)
    requires ValidFrame(f)
    ensures |Wire(f)| >= 10
    ensures var w := Wire(f); w[0] == START1 && w[1] == START2 && ValOf(w[2]) == |f.userData| + 5
  {
    EncodedSize(f);
    HeaderFields(f);
    WithCrcPrefix(Header(f));
    hide WithCrc, Header, AddCrcs;
  }

  /** Deframing undoes framing: any list of valid frames is read back exactly. */
  lemma {:induction false} ReadWritten(frames: seq<StrictFrame>)
    requires AllValid(frames)
    ensures ReadAll(WireAll(frames)) == Ok(frames)
    decreases |frames|
  {
    hide Wire, ReadFrame, ValidFrame;
    if frames != [] {
      var w, rest := Wire(frames[0]), WireAll(frames[1..]);
      ReadEncoded(frames[0], rest);
      WireStarts(frames[0]);
      ReadWritten(frames[1..]);
      assert (w + rest)[|w|..] == rest;
      assert frames == [frames[0]] + frames[1..];
    }
  }

  /** Whatever stream is read to its end without error is the framing of what was read. */
  lemma {:induction false} WrittenRead(stream: seq<byte>)
    requires ReadAll(stream).Ok?
    ensures AllValid(ReadAll(stream).value) && WireAll(ReadAll(stream).value) == stream
    decreases |stream|
  {
    hide DecodeStrictFrame, EncodeStrictFrame, ValidFrame;
    if stream != [] {
      var (f, used) := ReadFrame(stream).value;
      EncodeDecoded(stream[..used]);
      WrittenRead(stream[used..]);
      assert stream == stream[..used] + stream[used..];
      var rest := ReadAll(stream[used..]).value;
      assert ([f] + rest)[1..] == rest;
    }
  }

  /**
   * A read that gave up after taking one to three octets of a frame leaves a stream on which the next read finds no
   * header, whatever follows.
   */
  lemma {:induction false} ReadMidFrame(f: StrictFrame, taken: nat, suffix: seq<byte>)
    requires ValidFrame(f) && 1 <= taken <= 3 && |Wire(f)| - taken + |suffix| >= HEADER_SIZE
    ensures ReadFrame(Wire(f)[taken..] + suffix) == Err(InvalidHeader)
  {
    hide Wire, ValOf, ReadFrame, ValidFrame;
    WireStarts(f);
    WireControl(f);
    var w := Wire(f);
    var stream := w[taken..] + suffix;
    assert stream[0] == w[taken] && stream[1] == w[taken + 1];
    ReadWithoutHeader(stream);
  }

  lemma WireControl(f: StrictFrame)
    requires ValidFrame(f)
    ensures |Wire(f)| >= 10 && Wire(f)[3] == f.control && f.control != START1 && f.control != START2
  {
    hide EncodeStrictFrame, ValidControl;
    EncodedSize(f);
    WireLayout(f);
    NotAStart(f.control);
  }

  /** No valid control octet is a start octet. */
  lemma NotAStart(control: byte)
    ensures ValidControl(control) ==> control != START1 && control != START2
  {
  }

  // ---------------------------------------------------------------- streams

  /** What ReadFrame does for want of a header that it can use. */
  lemma ReadWithoutHeader(stream: seq<byte>)
    ensures |stream| < HEADER_SIZE ==> ReadFrame(stream) == Err(EndOfStream)
    ensures |stream| >= HEADER_SIZE && (stream[0] != START1 || stream[1] != START2 || ValOf(stream[2]) < 5) ==>
      ReadFrame(stream) == Err(InvalidHeader)
  {
    hide DecodeStrictFrame, ValOf;
  }

  /** What ReadFrame does once the header is known. */
  lemma ReadAfterHeader(stream: seq<byte>, rest: nat)
    requires |stream| >= HEADER_SIZE && ValOf(stream[2]) >= 5 && stream[0] == START1 && stream[1] == START2
    requires var n := ValOf(stream[2]) - 5; rest == n + 2 * ((n + 16 - 1) / 16)
    ensures FrameSize(ValOf(stream[2]) - 5) == HEADER_SIZE + rest
    ensures ReadFrame(stream) ==
      if |stream| < HEADER_SIZE + rest then Err(EndOfStream)
      else match DecodeStrictFrame(stream[..HEADER_SIZE + rest])
        case Ok(f) => Ok((f, HEADER_SIZE + rest))
        case Err(e) => Err(e)
  {
    hide DecodeStrictFrame, ValOf;
  }

  /** An io.Reader that hands out its octets in pieces of its own choosing, then ends. */
  class FragmentedReader {
    var chunks: seq<seq<byte>>

    constructor (chunks: seq<seq<byte>>)
      ensures this.chunks == chunks
    {
      this.chunks := chunks;
    }

    ghost function Contents(): seq<byte>
      reads this
    {
      Concat(chunks)
    }

    /** One Read call: at most max octets, possibly fewer, possibly none; None at end of file. */
    method Read(max: nat) returns (piece: Option<seq<byte>>)
      modifies this
      ensures piece.None? <==> old(chunks) == []
      ensures piece.None? ==> chunks == old(chunks)
      ensures piece.Some? ==> |piece.value| <= max && old(Contents()) == piece.value + Contents()
      ensures piece.Some? && max > 0 ==> |chunks| + |Contents()| < |old(chunks)| + |old(Contents())|
    {
      if chunks == [] {
        return None;
      }
      var head := chunks[0];
      if |head| <= max {
        piece := Some(head);
        chunks := chunks[1..];
      } else {
        piece := Some(head[..max]);
        chunks := [head[max..]] + chunks[1..];
        assert head == head[..max] + head[max..];
        assert chunks[1..] == old(chunks)[1..];
      }
    }

    /** io.ReadFull: exactly n octets, or failure with the stream used up. */
    method ReadFull(n: nat) returns (r: Option<seq<byte>>)
      modifies this
      ensures r == if |old(Contents())| >= n then Some(old(Contents())[..n]) else None
      ensures Contents() == if |old(Contents())| >= n then old(Contents())[n..] else []
    {
      var got: seq<byte> := [];
      while |got| < n
        invariant |got| <= n
        invariant old(Contents()) == got + Contents()
        decreases |chunks| + |Contents()|
      {
        var piece := Read(n - |got|);
        if piece.None? {
          return None;
        }
        got := got + piece.value;
      }
      r := Some(got);
    }
  }

  /** Reads exactly one frame; the answer does not depend on how the stream is cut into pieces. */
  method ReadStrictFrame(reader: FragmentedReader) returns (r: Result<StrictFrame, FrameError>)
    modifies reader
    ensures match ReadFrame(old(reader.Contents()))
      case Ok((f, used)) => r == Ok(f) && reader.Contents() == old(reader.Contents())[used..]
      case Err(e) => r == Err(e)
  {
    hide DecodeStrictFrame, ValOf, FrameSize, Concat, ReadFrame;
    ghost var stream := reader.Contents();
    var header := reader.ReadFull(HEADER_SIZE);
    ReadWithoutHeader(stream);
    if header.None? {
      return Err(EndOfStream);
    }
    var h := header.value;
    if h[0] != START1 || h[1] != START2 || ValOf(h[2]) < 5 {
      return Err(InvalidHeader);
    }
    var payloadLength := ValOf(h[2]) - 5;
    var wirePayloadLength := payloadLength + 2 * ((payloadLength + 16 - 1) / 16);
    ReadAfterHeader(stream, wirePayloadLength);
    var data := reader.ReadFull(wirePayloadLength);
    if data.None? {
      return Err(EndOfStream);
    }
    assert h + data.value == stream[..HEADER_SIZE + wirePayloadLength];
    r := DecodeStrictFrame(h + data.value);
  }

  /** How a Write call ends: without an error, or with one, in each case after some octets went out. */
  datatype WriteFate = Wrote(count: int) | WriteFailed(count: int)

  datatype WriteError = Rejected(error: FrameError) | ShortWrite | Failed

  /** An io.Writer whose every call accepts as much as its script says; a count out of range accepts nothing. */
  class ScriptedWriter {
    var script: seq<WriteFate>
    var sink: seq<byte>

    constructor (script: seq<WriteFate>)
      ensures this.script == script && sink == []
    {
      this.script := script;
      sink := [];
    }

    method Write(data: seq<byte>) returns (fate: WriteFate)
      modifies this
      ensures script == if old(script) == [] then [] else old(script)[1..]
      ensures fate == if old(script) == [] then WriteFailed(0) else old(script)[0]
      ensures sink == if 0 <= fate.count <= |data| then old(sink) + data[..fate.count] else old(sink)
    {
      fate := WriteFailed(0);
      if script != [] {
        fate := script[0];
        script := script[1..];
      }
      if 0 <= fate.count <= |data| {
        sink := sink + data[..fate.count];
      }
    }
  }

  /**
   * Success means the whole encoding, once, went out; failure means a prefix of it did. A writer that reports an error
   * after accepting everything makes the whole frame go out and the write fail.
   */
  method WriteStrictFrame(writer: ScriptedWriter, frame: StrictFrame) returns (r: Option<WriteError>)
    modifies writer
    ensures EncodeStrictFrame(frame).Err? ==>
      r == Some(Rejected(EncodeStrictFrame(frame).error)) && writer.sink == old(writer.sink)
    ensures EncodeStrictFrame(frame).Ok? && r.None? ==>
      writer.sink == old(writer.sink) + EncodeStrictFrame(frame).value
    ensures EncodeStrictFrame(frame).Ok? && r.Some? ==>
      exists n :: 0 <= n <= |EncodeStrictFrame(frame).value|
        && (r == Some(ShortWrite) ==> n < |EncodeStrictFrame(frame).value|)
        && writer.sink == old(writer.sink) + EncodeStrictFrame(frame).value[..n]
  {
    hide EncodeStrictFrame;
    var encoding := EncodeStrictFrame(frame);
    if encoding.Err? {
      return Some(Rejected(encoding.error));
    }
    var encoded := encoding.value;
    ghost var all := encoded;
    while encoded != []
      invariant |encoded| <= |all| && encoded == all[|all| - |encoded|..]
      invariant writer.sink == old(writer.sink) + all[..|all| - |encoded|]
      decreases |encoded|
    {
      ghost var n := |all| - |encoded|;
      var fate := writer.Write(encoded);
      if fate.WriteFailed? {
        ghost var m := if 0 <= fate.count <= |encoded| then n + fate.count else n;
        assert all[..m] == if 0 <= fate.count <= |encoded| then all[..n] + encoded[..fate.count] else all[..n];
        assert writer.sink == old(writer.sink) + all[..m];
        return Some(Failed);
      }
      if fate.count <= 0 || fate.count > |encoded| {
        assert fate.count == 0 ==> encoded[..fate.count] == [];
        assert writer.sink == old(writer.sink) + all[..n];
        return Some(ShortWrite);
      }
      assert all[..n] + encoded[..fate.count] == all[..n + fate.count];
      encoded := encoded[fate.count..];
    }
    r := None;
  }
}
