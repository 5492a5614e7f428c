/**
 * The older transport layer is the strict one with the FIR and FIN bits exchanged, chunks of 248 octets and a limit of
 * 2048, except that it passes over what it cannot continue and accepts segments without payload.
 */
module OlderAndStrict {
  import opened Bytes
  import OlderTransport
  import Transport

  /** The two highest bits exchanged. */
  function Swap(header: byte): byte {
    (header & 0x3F) | ((header & 0x80) >> 1) | ((header & 0x40) << 1)
  }

  function Swapped(segment: seq<byte>): seq<byte> {
    if segment == [] then [] else [Swap(segment[0])] + segment[1..]
  }

  function SwapAll(segments: seq<seq<byte>>): seq<seq<byte>> {
    if segments == [] then [] else [Swapped(segments[0])] + SwapAll(segments[1..])
  }

  lemma SwapBits(header: byte)
    ensures Transport.IsFirst(Swap(header)) == (header & OlderTransport.FIR != 0)
    ensures Transport.IsFinal(Swap(header)) == (header & OlderTransport.FIN != 0)
    ensures Transport.SeqOf(Swap(header)) == header & OlderTransport.SEQ_MASK
    ensures Swap(Swap(header)) == header
  {
  }

  // ---------------------------------------------------------------- sending

  lemma SameHeader(first: bool, final: bool, number: byte, data: seq<byte>)
    requires number < 64
    ensures OlderTransport.BuildHeader(OlderTransport.NewSegment(first, final, number, data))
         == Swap(Transport.HeaderFor(number, first, final))
    ensures OlderTransport.NextSeq(number) == Transport.NextSeq(number) && Transport.NextSeq(number) < 64
  {
  }

  /** One segment as it goes out. */
  lemma SameSegment(first: bool, final: bool, number: byte, data: seq<byte>)
    requires number < 64
    ensures OlderTransport.Serialize(OlderTransport.NewSegment(first, final, number, data))
         == Swapped([Transport.HeaderFor(number, first, final)] + data)
  {
    SameHeader(first, final, number, data);
    hide OlderTransport.BuildHeader, OlderTransport.Masked, Transport.HeaderFor, Swap;
    assert ([Transport.HeaderFor(number, first, final)] + data)[1..] == data;
  }

  lemma {:induction false} SameSegments(data: seq<byte>, number: byte, first: bool)
    requires number < 64
    ensures OlderTransport.SerializeAll(OlderTransport.SegmentRest(data, number, first))
         == SwapAll(Transport.Segments(data, number, 248, first))
    decreases |data|
  {
    hide OlderTransport.Serialize, OlderTransport.NewSegment, OlderTransport.NextSeq;
    hide Transport.HeaderFor, Transport.NextSeq, Swapped;
    if data != [] && |data| <= 248 {
      SameSegment(first, true, number, data);
      OneSwapped(Transport.Segments(data, number, 248, first));
      OneSerialized(OlderTransport.SegmentRest(data, number, first));
    } else if data != [] {
      SameSegment(first, false, number, data[..248]);
      SameHeader(first, false, number, data[..248]);
      SameSegments(data[248..], Transport.NextSeq(number), false);
      FirstSerialized(OlderTransport.NewSegment(first, false, number, data[..248]),
                      OlderTransport.SegmentRest(data[248..], OlderTransport.NextSeq(number), false));
      FirstSwapped([Transport.HeaderFor(number, first, false)] + data[..248],
                   Transport.Segments(data[248..], Transport.NextSeq(number), 248, false));
    }
  }

  lemma OneSwapped(segments: seq<seq<byte>>)
    requires |segments| == 1
    ensures SwapAll(segments) == [Swapped(segments[0])]
  {
    assert segments[1..] == [];
  }

  lemma OneSerialized(segments: seq<OlderTransport.Segment>)
    requires |segments| == 1
    ensures OlderTransport.SerializeAll(segments) == [OlderTransport.Serialize(segments[0])]
  {
    hide OlderTransport.Serialize;
    assert segments[1..] == [];
  }

  lemma FirstSerialized(s: OlderTransport.Segment, rest: seq<OlderTransport.Segment>)
    ensures OlderTransport.SerializeAll([s] + rest) == [OlderTransport.Serialize(s)] + OlderTransport.SerializeAll(rest)
  {
    hide OlderTransport.Serialize;
    assert ([s] + rest)[1..] == rest;
  }

  lemma FirstSwapped(s: seq<byte>, rest: seq<seq<byte>>)
    ensures SwapAll([s] + rest) == [Swapped(s)] + SwapAll(rest)
  {
    hide Swapped;
    assert ([s] + rest)[1..] == rest;
  }

  /**
   * What Send writes and the number it goes on with: the segments of 248 octets that the strict layer would write, bits
   * exchanged, and the number after them.
   */
  lemma SendsAsStrict(l: OlderTransport.Layer, apdu: seq<byte>)
    ensures OlderTransport.Send(l, apdu).1 == SwapAll(Transport.Segments(apdu, l.txSequence & 0x3F, 248, true))
    ensures OlderTransport.Send(l, apdu).0.rx == l.rx
    ensures apdu == [] ==> OlderTransport.Send(l, apdu).0 == l
    ensures apdu != [] ==>
      ValOf(OlderTransport.Send(l, apdu).0.txSequence)
      == (ValOf(l.txSequence & 0x3F) + |Transport.Segments(apdu, l.txSequence & 0x3F, 248, true)|) % 64
  {
    MaskIs(l.txSequence);
    var number := OlderTransport.Masked(l.txSequence);
    SameSegments(apdu, number, true);
    SameCount(OlderTransport.SegmentRest(apdu, number, true), Transport.Segments(apdu, number, 248, true));
    OlderTransport.AddCountVal(l.txSequence, |OlderTransport.SegmentRest(apdu, number, true)|);
    hide OlderTransport.AddCount, OlderTransport.Masked, ValOf;
  }

  lemma MaskIs(number: byte)
    ensures OlderTransport.Masked(number) == number & 0x3F && number & 0x3F < 64
  {
  }

  lemma {:induction false} SameCount(a: seq<OlderTransport.Segment>, b: seq<seq<byte>>)
    requires OlderTransport.SerializeAll(a) == SwapAll(b)
    ensures |a| == |b|
    decreases |a|
  {
    hide OlderTransport.Serialize, Swapped;
    if a != [] && b != [] {
      assert OlderTransport.SerializeAll(a)[1..] == OlderTransport.SerializeAll(a[1..]);
      assert SwapAll(b)[1..] == SwapAll(b[1..]);
      SameCount(a[1..], b[1..]);
    }
  }

  // ---------------------------------------------------------------- receiving

  /** The same reassembly, under the limit of the older layer. */
  predicate Like(r: OlderTransport.Reassembly, t: Transport.Reassembly) {
    && t.maximumFragment == 2048 && r.inProgress == t.active
    && (if r.inProgress then r.buffer == t.fragment && r.expectedSeq == t.nextSequence
        else r == OlderTransport.Reassembly([], 0, false) && t == Transport.NewReassembly(2048))
  }

  /** What the older layer makes of an answer of the strict one: of its errors it reports only the limit. */
  function AsOlder(answer: Transport.PushResult): OlderTransport.ReceiveResult {
    match answer
    case Ok(fragment) => Ok(fragment)
    case Err(e) => if e == Transport.LimitExceeded then Err(OlderTransport.BufferOverflow) else Ok(None)
  }

  /** Parsing reads the exchanged bits. */
  lemma ParsedAsStrict(segment: seq<byte>)
    requires segment != []
    ensures var header := Swapped(segment)[0];
      OlderTransport.ParseSegment(segment)
      == OlderTransport.Segment(Transport.IsFirst(header), Transport.IsFinal(header), Transport.SeqOf(header),
                                Swapped(segment)[1..])
  {
    SwapBits(segment[0]);
    hide Swap, Transport.IsFirst, Transport.IsFinal, Transport.SeqOf;
    assert Swapped(segment)[1..] == segment[1..];
  }

  /** One segment with payload. */
  lemma ProcessesAsStrict(r: OlderTransport.Reassembly, t: Transport.Reassembly, segment: seq<byte>)
    requires Like(r, t) && |segment| >= 2
    ensures var (r', answer) := OlderTransport.Process(r, OlderTransport.ParseSegment(segment));
      var (t', strict) := Transport.Push(t, Swapped(segment));
      Like(r', t') && answer == AsOlder(strict)
  {
    ParsedAsStrict(segment);
    var s := Swapped(segment);
    SwappedLength(segment);
    NextIs(Transport.SeqOf(s[0]));
    hide OlderTransport.ParseSegment, OlderTransport.NextSeq, Swapped;
    hide Transport.IsFirst, Transport.IsFinal, Transport.SeqOf, Transport.NextSeq;
    assert [] + s[1..] == s[1..];
  }

  lemma SwappedLength(segment: seq<byte>)
    ensures |Swapped(segment)| == |segment|
  {
  }

  lemma NextIs(number: byte)
    ensures OlderTransport.NextSeq(number) == Transport.NextSeq(number)
  {
  }

  /**
   * A segment without payload, which the strict layer refuses: with FIR it begins an empty run; while idle it is passed
   * over; with the next number it goes on with the run or ends it; any other number ends the reassembly.
   */
  lemma HeaderOnly(r: OlderTransport.Reassembly, header: byte)
    requires |r.buffer| <= 2048
    ensures var fir, fin, number := header & 0x40 != 0, header & 0x80 != 0, header & 0x3F;
      var idle := OlderTransport.Reassembly([], 0, false);
      OlderTransport.Process(r, OlderTransport.ParseSegment([header])) ==
        if fir then
          if fin then (idle, Ok(Some([]))) else (OlderTransport.Reassembly([], (number + 1) & 0x3F, true), Ok(None))
        else if !r.inProgress then (r, Ok(None))
        else if number != r.expectedSeq then (idle, Ok(None))
        else if fin then (idle, Ok(Some(r.buffer)))
        else (r.(expectedSeq := (number + 1) & 0x3F), Ok(None))
  {
    assert [header][1..] == [];
    var none: seq<byte> := [];
    assert r.buffer + none == r.buffer && none + none == none;
  }

  function AsOlderAll(answers: seq<Transport.PushResult>): seq<OlderTransport.ReceiveResult> {
    if answers == [] then [] else [AsOlder(answers[0])] + AsOlderAll(answers[1..])
  }

  /**
   * For every sequence of segments with payload, sent by anyone: what a new layer returns for them is what a new strict
   * reassembler with limit 2048 returns, bits exchanged. So Transport's theorem about histories is about it too.
   */
  lemma {:induction false} ReceivesAsStrict(l: OlderTransport.Layer, t: Transport.Reassembly, received: seq<seq<byte>>)
    requires Like(l.rx, t) && forall k :: 0 <= k < |received| ==> |received[k]| >= 2
    ensures var (l', answers) := OlderTransport.ReceiveAll(l, received);
      var (t', strict) := Transport.PushAll(t, SwapAll(received));
      Like(l'.rx, t') && answers == AsOlderAll(strict) && l'.txSequence == l.txSequence
    decreases |received|
  {
    hide OlderTransport.Process, OlderTransport.ParseSegment, Transport.Push, Swapped, AsOlder, Like;
    if received != [] {
      ProcessesAsStrict(l.rx, t, received[0]);
      var all := SwapAll(received);
      assert all[0] == Swapped(received[0]) && all[1..] == SwapAll(received[1..]);
      var l1 := OlderTransport.Receive(l, received[0]).0;
      var (t1, first) := Transport.Push(t, all[0]);
      ReceivesAsStrict(l1, t1, received[1..]);
      var rest := Transport.PushAll(t1, all[1..]).1;
      assert ([first] + rest)[1..] == rest;
    }
  }

  /** A new layer is idle and numbers from zero, and so does a strict reassembler with the same limit. */
  lemma NewLayerLike()
    ensures OlderTransport.NEW_LAYER == OlderTransport.Layer(OlderTransport.Reassembly([], 0, false), 0)
    ensures Like(OlderTransport.NEW_LAYER.rx, Transport.NewReassembly(2048))
    ensures Transport.NewReassembly(2048) == Transport.Reassembly(2048, false, 0, [])
  {
  }
}
