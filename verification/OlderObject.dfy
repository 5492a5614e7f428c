/** The older transport objects: the segmentation loop, the reassembler and the layer, proved against OlderTransport. */
module OlderObject {
  import opened Bytes
  import opened OlderTransport

  lemma RestUnfold(data: seq<byte>, offset: nat, size: nat, number: byte)
    requires offset < |data|
    requires size == if |data| - offset < MAX_SEGMENT_SIZE then |data| - offset else MAX_SEGMENT_SIZE
    ensures SegmentRest(data[offset..], number, offset == 0)
         == [NewSegment(offset == 0, offset + size >= |data|, number, data[offset..offset + size])]
            + SegmentRest(data[offset + size..], NextSeq(number), false)
  {
    hide NewSegment, NextSeq;
    var rest := data[offset..];
    assert data[offset..offset + size] == rest[..size] && data[offset + size..] == rest[size..];
    if |rest| <= MAX_SEGMENT_SIZE {
      assert rest[..size] == rest && rest[size..] == [];
    }
  }

  method SegmentLoop(data: seq<byte>, startSeq: byte) returns (segments: seq<Segment>)
    ensures data != [] ==> segments == OlderTransport.SegmentData(data, startSeq)
    ensures data == [] ==> segments == []
  {
    hide NewSegment, NextSeq, Masked;
    segments := [];
    if data == [] {
      return;
    }
    var number := Masked(startSeq);
    var offset := 0;
    ghost var all := SegmentRest(data, number, true);
    assert data[0..] == data;
    while offset < |data|
      invariant 0 <= offset <= |data|
      invariant all == segments + SegmentRest(data[offset..], number, offset == 0)
    {
      var remaining := |data| - offset;
      var size := MAX_SEGMENT_SIZE;
      if remaining < size {
        size := remaining;
      }
      var segment := NewSegment(offset == 0, offset + size >= |data|, number, data[offset..offset + size]);
      RestUnfold(data, offset, size, number);
      segments := segments + [segment];
      offset := offset + size;
      number := NextSeq(number);
    }
    assert all == segments + [] == segments;
  }

  class Reassembler {
    var buffer: seq<byte>
    var expectedSeq: byte
    var inProgress: bool

    constructor ()
      ensures Value() == IDLE
    {
      buffer, expectedSeq, inProgress := [], 0, false;
    }

    ghost function Value(): Reassembly
      reads this
    {
      Reassembly(buffer, expectedSeq, inProgress)
    }

    method Reset()
      modifies this
      ensures Value() == IDLE
    {
      buffer, inProgress, expectedSeq := [], false, 0;
    }

    method Process(segment: Segment) returns (r: ReceiveResult)
      modifies this
      ensures (Value(), r) == OlderTransport.Process(old(Value()), segment)
    {
      hide NextSeq;
      if segment.fir {
        buffer := [];
        inProgress := true;
        expectedSeq := segment.number;
      } else if !inProgress {
        return Ok(None);
      }
      if segment.number != expectedSeq {
        Reset();
        return Ok(None);
      }
      if |buffer| + |segment.data| > MAX_REASSEMBLY_SIZE {
        Reset();
        return Err(BufferOverflow);
      }
      buffer := buffer + segment.data;
      expectedSeq := NextSeq(expectedSeq);
      if segment.fin {
        var result := buffer;
        Reset();
        return Ok(Some(result));
      }
      r := Ok(None);
    }
  }

  lemma SerializeSnoc(segments: seq<Segment>, s: Segment)
    ensures SerializeAll(segments + [s]) == SerializeAll(segments) + [Serialize(s)]
    decreases segments
  {
    hide Serialize;
    if segments == [] {
      assert SerializeAll([s][1..]) == [];
    } else {
      assert (segments + [s])[1..] == segments[1..] + [s];
      SerializeSnoc(segments[1..], s);
    }
  }

  /** The loop that serializes the segments of Send. */
  method SerializeEach(segments: seq<Segment>) returns (result: seq<seq<byte>>)
    ensures result == SerializeAll(segments)
  {
    hide Serialize;
    result := [];
    for i := 0 to |segments|
      invariant result == SerializeAll(segments[..i])
    {
      SerializeSnoc(segments[..i], segments[i]);
      assert segments[..i + 1] == segments[..i] + [segments[i]];
      result := result + [Serialize(segments[i])];
    }
    assert segments[..|segments|] == segments;
  }

  class LayerObject {
    const rxReassembler: Reassembler
    var txSequence: byte

    constructor ()
      ensures fresh(rxReassembler) && Value() == NEW_LAYER
    {
      rxReassembler := new Reassembler();
      txSequence := 0;
    }

    ghost function Value(): Layer
      reads this, rxReassembler
    {
      Layer(rxReassembler.Value(), txSequence)
    }

    method Send(apdu: seq<byte>) returns (frames: seq<seq<byte>>)
      modifies this
      ensures (Value(), frames) == OlderTransport.Send(old(Value()), apdu)
    {
      hide SerializeAll, SegmentRest, ByteOf;
      if apdu == [] {
        return [];
      }
      var segments := SegmentLoop(apdu, txSequence);
      txSequence := Sum(txSequence, ByteOf(|segments| % 256));
      frames := SerializeEach(segments);
    }

    method Receive(data: seq<byte>) returns (r: ReceiveResult)
      modifies rxReassembler
      ensures (Value(), r) == OlderTransport.Receive(old(Value()), data)
    {
      hide Process, ParseSegment;
      if data == [] {
        return Err(MissingFir);
      }
      r := rxReassembler.Process(ParseSegment(data));
    }

    method Reset()
      modifies this, rxReassembler
      ensures Value() == NEW_LAYER
    {
      rxReassembler.Reset();
      txSequence := 0;
    }
  }
}
