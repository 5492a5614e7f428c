/** The older transport layer: segmentation, reassembly, and lists of application fragments sent through it. */
module OlderTransport {
  import opened Bytes

  const MAX_SEGMENT_SIZE := 248
  const MAX_REASSEMBLY_SIZE := 2048

  const FIN: byte := 0x80
  const FIR: byte := 0x40
  const SEQ_MASK: byte := 0x3F

  /** A segment; the code's constructor masks its number to below 64. */
  datatype Segment = Segment(fir: bool, fin: bool, number: byte, data: seq<byte>)

  datatype TransportError = MissingFir | BufferOverflow

  type ReceiveResult = Result<Option<seq<byte>>, TransportError>

  function NewSegment(fir: bool, fin: bool, number: byte, data: seq<byte>): Segment {
    Segment(fir, fin, Masked(number), data)
  }

  function Masked(number: byte): byte {
    number & SEQ_MASK
  }

  function NextSeq(number: byte): byte {
    (number + 1) & SEQ_MASK
  }

  function BuildHeader(s: Segment): byte {
    Masked(s.number) | (if s.fir then FIR else 0) | (if s.fin then FIN else 0)
  }

  function Serialize(s: Segment): seq<byte> {
    [BuildHeader(s)] + s.data
  }

  function ParseSegment(data: seq<byte>): Segment
    requires data != []
  {
    Segment(data[0] & FIR != 0, data[0] & FIN != 0, data[0] & SEQ_MASK, data[1..])
  }

  /** Parsing undoes serializing, for the segments that the layer builds. */
  lemma ParseSerialized(fir: bool, fin: bool, number: byte, data: seq<byte>)
    ensures var s := NewSegment(fir, fin, number, data); ParseSegment(Serialize(s)) == s
  {
    HeaderBits(fir, fin, number);
    hide Masked;
    var s := NewSegment(fir, fin, number, data);
    assert Serialize(s)[1..] == data;
  }

  lemma HeaderBits(fir: bool, fin: bool, number: byte)
    ensures var h := Masked(Masked(number)) | (if fir then FIR else 0) | (if fin then FIN else 0);
      (h & FIR != 0) == fir && (h & FIN != 0) == fin && h & SEQ_MASK == Masked(number)
  {
  }

  lemma MaskedTwice(number: byte)
    ensures Masked(Masked(number)) == Masked(number) && Masked(NextSeq(number)) == NextSeq(number)
  {
  }

  // ---------------------------------------------------------------- segmentation

  /** The segments of the rest of an application fragment. */
  function SegmentRest(data: seq<byte>, number: byte, first: bool): seq<Segment>
    decreases |data|
  {
    if data == [] then []
    else if |data| <= MAX_SEGMENT_SIZE then [NewSegment(first, true, number, data)]
    else
      [NewSegment(first, false, number, data[..MAX_SEGMENT_SIZE])]
      + SegmentRest(data[MAX_SEGMENT_SIZE..], NextSeq(number), false)
  }

  function SegmentData(data: seq<byte>, start: byte): seq<Segment> {
    SegmentRest(data, Masked(start), true)
  }

  /** Every segment but the last carries 248 octets, and none is empty. */
  lemma {:induction false} SegmentsFull(data: seq<byte>, number: byte, first: bool)
    ensures var segments := SegmentRest(data, number, first);
      (segments == [] <==> data == [])
      && (forall k :: 0 <= k < |segments| ==> 1 <= |segments[k].data| <= MAX_SEGMENT_SIZE)
      && (forall k :: 0 <= k < |segments| - 1 ==> |segments[k].data| == MAX_SEGMENT_SIZE)
    decreases |data|
  {
    hide NextSeq, Masked;
    if |data| > MAX_SEGMENT_SIZE {
      SegmentsFull(data[MAX_SEGMENT_SIZE..], NextSeq(number), false);
    }
  }

  function SerializeAll(segments: seq<Segment>): seq<seq<byte>> {
    if segments == [] then [] else [Serialize(segments[0])] + SerializeAll(segments[1..])
  }

  function Advance(number: byte, count: nat): byte
    decreases count
  {
    if count == 0 then number else NextSeq(Advance(number, count - 1))
  }

  // ---------------------------------------------------------------- reassembly

  datatype Reassembly = Reassembly(buffer: seq<byte>, expectedSeq: byte, inProgress: bool)

  const IDLE := Reassembly([], 0, false)

  /** None is the nil that asks for more segments. */
  function Process(r: Reassembly, s: Segment): (Reassembly, ReceiveResult) {
    if !s.fir && !r.inProgress then (r, Ok(None))
    else
      var begun := if s.fir then Reassembly([], s.number, true) else r;
      if s.number != begun.expectedSeq then (IDLE, Ok(None))
      else if |begun.buffer| + |s.data| > MAX_REASSEMBLY_SIZE then (IDLE, Err(BufferOverflow))
      else
        var joined := begun.(buffer := begun.buffer + s.data, expectedSeq := NextSeq(begun.expectedSeq));
        if s.fin then (IDLE, Ok(Some(joined.buffer))) else (joined, Ok(None))
  }

  // ---------------------------------------------------------------- the layer

  datatype Layer = Layer(rx: Reassembly, txSequence: byte)

  const NEW_LAYER := Layer(IDLE, 0)

  /** The sequence update: the segment count is truncated to eight bits, then added and masked. */
  function AddCount(number: byte, count: nat): byte {
    Sum(number, ByteOf(count % 256))
  }

  function Sum(number: byte, b: byte): byte {
    (number + b) & SEQ_MASK
  }

  function Send(l: Layer, apdu: seq<byte>): (Layer, seq<seq<byte>>) {
    if apdu == [] then (l, [])
    else
      var segments := SegmentData(apdu, l.txSequence);
      (l.(txSequence := AddCount(l.txSequence, |segments|)), SerializeAll(segments))
  }

  function Receive(l: Layer, data: seq<byte>): (Layer, ReceiveResult) {
    if data == [] then (l, Err(MissingFir))
    else
      var (r, result) := Process(l.rx, ParseSegment(data));
      (l.(rx := r), result)
  }

  function SendAll(l: Layer, apdus: seq<seq<byte>>): (Layer, seq<seq<byte>>)
    decreases |apdus|
  {
    if apdus == [] then (l, [])
    else
      var (l1, first) := Send(l, apdus[0]);
      var (l2, rest) := SendAll(l1, apdus[1..]);
      (l2, first + rest)
  }

  function ReceiveAll(l: Layer, received: seq<seq<byte>>): (Layer, seq<ReceiveResult>)
    decreases |received|
  {
    if received == [] then (l, [])
    else
      var (l1, first) := Receive(l, received[0]);
      var (l2, rest) := ReceiveAll(l1, received[1..]);
      (l2, [first] + rest)
  }

  // ---------------------------------------------------------------- the eight-bit sequence update

  lemma ByteEnds()
    ensures ByteOf(0) == 0 && ByteOf(255) == 255
  {
  }

  lemma NotLast(b: byte)
    requires b != 255
    ensures b < 255
  {
  }

  lemma ByteNext(m: nat)
    requires m < 255
    ensures ByteOf(m + 1) == ByteOf(m) + 1
  {
    hide ValOf, ByteOf;
    var b := ByteOf(m);
    ValOfByte(m);
    ByteEnds();
    ValOfByte(255);
    NotLast(b);
    ValSucc(b);
    ByteOfVal(b + 1);
  }

  lemma Wraps(b: byte)
    requires b == 255
    ensures b + 1 == 0
  {
  }

  lemma ByteSucc(n: nat)
    ensures ByteOf((n + 1) % 256) == ByteOf(n % 256) + 1
  {
    hide ByteOf;
    ByteEnds();
    if n % 256 < 255 {
      assert (n + 1) % 256 == n % 256 + 1;
      ByteNext(n % 256);
    } else {
      assert (n + 1) % 256 == 0;
      Wraps(ByteOf(n % 256));
    }
  }

  lemma AddOne(number: byte, b: byte)
    ensures Sum(number, b + 1) == NextSeq(Sum(number, b))
    ensures Sum(number, 0) == Masked(number)
  {
  }

  /** Truncating the count to eight bits is harmless: the update agrees with counting one by one, modulo 64. */
  lemma {:induction false} AddCountAdvances(number: byte, count: nat)
    ensures AddCount(number, count) == Advance(Masked(number), count)
    decreases count
  {
    hide NextSeq, Masked, ByteOf, Sum;
    if count == 0 {
      ByteEnds();
      AddOne(number, 0);
    } else {
      AddCountAdvances(number, count - 1);
      ByteSucc(count - 1);
      AddOne(number, ByteOf((count - 1) % 256));
    }
  }

  lemma NextSeqVal(number: byte)
    requires number < 64
    ensures NextSeq(number) < 64 && ValOf(number) < 64 && ValOf(NextSeq(number)) == (ValOf(number) + 1) % 64
  {
  }

  lemma MaskedSmall(number: byte)
    ensures Masked(number) < 64
  {
  }

  /** The number after a Send is the one before it plus the number of segments, modulo 64. */
  lemma {:induction false} AdvanceVal(number: byte, count: nat)
    requires number < 64
    ensures Advance(number, count) < 64 && ValOf(Advance(number, count)) == (ValOf(number) + count) % 64
    decreases count
  {
    hide NextSeq, ValOf;
    NextSeqVal(number);
    if count > 0 {
      AdvanceVal(number, count - 1);
      NextSeqVal(Advance(number, count - 1));
    }
  }

  lemma AddCountVal(number: byte, count: nat)
    ensures ValOf(AddCount(number, count)) == (ValOf(Masked(number)) + count) % 64
  {
    hide AddCount, Masked, ValOf;
    MaskedSmall(number);
    AddCountAdvances(number, count);
    AdvanceVal(Masked(number), count);
  }

  // ---------------------------------------------------------------- what a receiver reports

  /** The application fragments and the errors among results. */
  datatype Report = Report(apdus: seq<seq<byte>>, errors: seq<TransportError>)

  function Together(a: Report, b: Report): Report {
    Report(a.apdus + b.apdus, a.errors + b.errors)
  }

  function ReportOf(r: ReceiveResult): Report {
    match r
    case Ok(None) => Report([], [])
    case Ok(Some(apdu)) => Report([apdu], [])
    case Err(e) => Report([], [e])
  }

  function Reports(results: seq<ReceiveResult>): Report {
    if results == [] then Report([], []) else Together(ReportOf(results[0]), Reports(results[1..]))
  }

  lemma {:induction false} ReportsAppend(a: seq<ReceiveResult>, b: seq<ReceiveResult>)
    ensures Reports(a + b) == Together(Reports(a), Reports(b))
    decreases |a|
  {
    hide ReportOf;
    if a == [] {
      assert a + b == b && [] + Reports(b).apdus == Reports(b).apdus && [] + Reports(b).errors == Reports(b).errors;
    } else {
      assert (a + b)[0] == a[0] && (a + b)[1..] == a[1..] + b;
      ReportsAppend(a[1..], b);
      var x, y, z := ReportOf(a[0]), Reports(a[1..]), Reports(b);
      assert x.apdus + (y.apdus + z.apdus) == (x.apdus + y.apdus) + z.apdus;
      assert x.errors + (y.errors + z.errors) == (x.errors + y.errors) + z.errors;
    }
  }

  lemma {:induction false} ReceiveAppend(l: Layer, a: seq<seq<byte>>, b: seq<seq<byte>>)
    ensures ReceiveAll(l, a + b) == (ReceiveAll(ReceiveAll(l, a).0, b).0,
                                     ReceiveAll(l, a).1 + ReceiveAll(ReceiveAll(l, a).0, b).1)
    decreases |a|
  {
    hide Receive;
    if a == [] {
      assert a + b == b && [] + ReceiveAll(l, b).1 == ReceiveAll(l, b).1;
    } else {
      assert (a + b)[0] == a[0] && (a + b)[1..] == a[1..] + b;
      var (l1, first) := Receive(l, a[0]);
      ReceiveAppend(l1, a[1..], b);
      var x, y := ReceiveAll(l1, a[1..]).1, ReceiveAll(ReceiveAll(l1, a[1..]).0, b).1;
      assert [first] + (x + y) == ([first] + x) + y;
    }
  }

  // ---------------------------------------------------------------- one application fragment

  function ProcessAll(r: Reassembly, segments: seq<Segment>): (Reassembly, seq<ReceiveResult>)
    decreases |segments|
  {
    if segments == [] then (r, [])
    else
      var (r1, first) := Process(r, segments[0]);
      var (r2, rest) := ProcessAll(r1, segments[1..]);
      (r2, [first] + rest)
  }

  /** Built by this layer: a number below 64. */
  predicate Built(s: Segment) {
    s.number == Masked(s.number)
  }

  lemma {:induction false} ReceiveSerialized(l: Layer, segments: seq<Segment>)
    requires forall k :: 0 <= k < |segments| ==> Built(segments[k])
    ensures ReceiveAll(l, SerializeAll(segments))
         == (l.(rx := ProcessAll(l.rx, segments).0), ProcessAll(l.rx, segments).1)
    decreases |segments|
  {
    hide Process, Serialize, ParseSegment, Masked;
    if segments != [] {
      var s := segments[0];
      assert Built(s);
      ParseSerialized(s.fir, s.fin, s.number, s.data);
      SerializedNotEmpty(s);
      var all := SerializeAll(segments);
      assert all[0] == Serialize(s) && all[1..] == SerializeAll(segments[1..]);
      ReceiveSerialized(l.(rx := Process(l.rx, s).0), segments[1..]);
    }
  }

  lemma SerializedNotEmpty(s: Segment)
    ensures Serialize(s) != []
  {
  }

  lemma {:induction false} SegmentsBuilt(data: seq<byte>, number: byte, first: bool)
    ensures forall k :: 0 <= k < |SegmentRest(data, number, first)| ==> Built(SegmentRest(data, number, first)[k])
    decreases |data|
  {
    hide Masked, NextSeq;
    MaskedTwice(number);
    if |data| > MAX_SEGMENT_SIZE {
      SegmentsBuilt(data[MAX_SEGMENT_SIZE..], NextSeq(number), false);
    }
  }

  /** Segments that do not begin anything are dropped without a trace while idle. */
  lemma {:induction false} IdleDiscards(data: seq<byte>, number: byte)
    ensures var (r, results) := ProcessAll(IDLE, SegmentRest(data, number, false));
      r == IDLE && Reports(results) == Report([], [])
    decreases |data|
  {
    hide Masked, NextSeq;
    if |data| > MAX_SEGMENT_SIZE {
      var rest := SegmentRest(data[MAX_SEGMENT_SIZE..], NextSeq(number), false);
      assert SegmentRest(data, number, false)[1..] == rest;
      IdleDiscards(data[MAX_SEGMENT_SIZE..], NextSeq(number));
    }
  }

  /** What an application fragment comes to: itself, or one overflow error. */
  function Fate(apdu: seq<byte>): Report {
    if apdu == [] then Report([], [])
    else if |apdu| <= MAX_REASSEMBLY_SIZE then Report([apdu], [])
    else Report([], [BufferOverflow])
  }

  lemma {:induction false} ProcessRest(r: Reassembly, data: seq<byte>, number: byte, first: bool)
    requires data != [] && number == Masked(number)
    requires first || (r.inProgress && r.expectedSeq == number && |r.buffer| <= MAX_REASSEMBLY_SIZE)
    ensures var (r', results) := ProcessAll(r, SegmentRest(data, number, first));
      r' == IDLE && Reports(results) == Fate((if first then [] else r.buffer) + data)
    decreases |data|
  {
    hide Masked, NextSeq, Fate;
    var held := if first then [] else r.buffer;
    MaskedTwice(number);
    var segments := SegmentRest(data, number, first);
    var (r1, result) := Process(r, segments[0]);
    var (r2, more) := ProcessAll(r1, segments[1..]);
    OneReport(result, more);
    if |data| <= MAX_SEGMENT_SIZE {
      assert segments[1..] == [];
      LastFate(held, data);
    } else {
      var chunk, rest := data[..MAX_SEGMENT_SIZE], data[MAX_SEGMENT_SIZE..];
      assert segments[1..] == SegmentRest(rest, NextSeq(number), false);
      if |held| + |chunk| > MAX_REASSEMBLY_SIZE {
        IdleDiscards(rest, NextSeq(number));
        LastFate(held, data);
      } else {
        ProcessRest(r1, rest, NextSeq(number), false);
        assert held + data == (held + chunk) + rest by {
          assert data == chunk + rest;
        }
      }
    }
  }

  lemma OneReport(first: ReceiveResult, more: seq<ReceiveResult>)
    ensures Reports([first] + more) == Together(ReportOf(first), Reports(more))
    ensures Reports([]) == Report([], [])
    ensures first == Ok(None) ==> Reports([first] + more) == Reports(more)
    ensures Reports(more) == Report([], []) ==> Reports([first] + more) == ReportOf(first)
  {
    assert ([first] + more)[1..] == more;
    var r, f := Reports(more), ReportOf(first);
    assert [] + r.apdus == r.apdus && [] + r.errors == r.errors;
    assert f.apdus + [] == f.apdus && f.errors + [] == f.errors;
  }

  lemma LastFate(held: seq<byte>, data: seq<byte>)
    requires data != []
    ensures |held| + |data| <= MAX_REASSEMBLY_SIZE ==> Fate(held + data) == Report([held + data], [])
    ensures |held| + |data| > MAX_REASSEMBLY_SIZE ==> Fate(held + data) == Report([], [BufferOverflow])
  {
  }

  // ---------------------------------------------------------------- lists of application fragments

  function Fates(apdus: seq<seq<byte>>): Report {
    if apdus == [] then Report([], []) else Together(Fate(apdus[0]), Fates(apdus[1..]))
  }

  lemma SendReceived(sender: Layer, receiver: Layer, apdu: seq<byte>)
    ensures var (l, results) := ReceiveAll(receiver, Send(sender, apdu).1);
      Reports(results) == Fate(apdu) && l == if apdu == [] then receiver else receiver.(rx := IDLE)
  {
    hide Masked, NextSeq, Fate, Process, SerializeAll, SegmentRest, ProcessAll, Built, AddCount;
    if apdu == [] {
      assert Fate([]) == Report([], []) by {
        EmptyFate();
      }
    } else {
      MaskedTwice(sender.txSequence);
      SegmentsBuilt(apdu, Masked(sender.txSequence), true);
      ReceiveSerialized(receiver, SegmentData(apdu, sender.txSequence));
      ProcessRest(receiver.rx, apdu, Masked(sender.txSequence), true);
      assert [] + apdu == apdu;
    }
  }

  lemma EmptyFate()
    ensures Fate([]) == Report([], [])
  {
  }

  /**
   * For every list of application fragments, every sender and a receiver in every state: the receiver reports the
   * fragments of 1 to 2048 octets, in order, and exactly one overflow error for each longer one, which leaves the
   * next fragment intact.
   */
  lemma {:induction false} ListReceived(sender: Layer, receiver: Layer, apdus: seq<seq<byte>>)
    ensures Reports(ReceiveAll(receiver, SendAll(sender, apdus).1).1) == Fates(apdus)
    decreases |apdus|
  {
    hide Send, Receive, Fate, Together;
    if apdus != [] {
      var (sender1, first) := Send(sender, apdus[0]);
      var rest := SendAll(sender1, apdus[1..]).1;
      SendReceived(sender, receiver, apdus[0]);
      var (receiver1, results) := ReceiveAll(receiver, first);
      ListReceived(sender1, receiver1, apdus[1..]);
      ReceiveAppend(receiver, first, rest);
      ReportsAppend(results, ReceiveAll(receiver1, rest).1);
    }
  }

  predicate AllFit(apdus: seq<seq<byte>>) {
    forall k :: 0 <= k < |apdus| ==> 1 <= |apdus[k]| <= MAX_REASSEMBLY_SIZE
  }

  /** Fragments of 1 to 2048 octets all arrive, without an error, and the sender's number counts their segments. */
  lemma {:induction false} FittingFates(apdus: seq<seq<byte>>)
    requires AllFit(apdus)
    ensures Fates(apdus) == Report(apdus, [])
    decreases |apdus|
  {
    if apdus != [] {
      FittingFates(apdus[1..]);
      assert apdus == [apdus[0]] + apdus[1..];
    }
  }

  lemma FittingListReceived(sender: Layer, receiver: Layer, apdus: seq<seq<byte>>)
    requires AllFit(apdus)
    ensures Reports(ReceiveAll(receiver, SendAll(sender, apdus).1).1) == Report(apdus, [])
  {
    hide *;
    ListReceived(sender, receiver, apdus);
    FittingFates(apdus);
  }
}
