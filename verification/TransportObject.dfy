/** The strict transport code itself: the segmentation loop and the reassembler object. */
module TransportObject {
  import opened Bytes
  import opened Transport

  lemma SegmentsUnfold(fragment: seq<byte>, offset: nat, end: nat, current: byte, chunkSize: nat)
    requires chunkSize > 0 && offset < |fragment|
    requires end == if offset + chunkSize < |fragment| then offset + chunkSize else |fragment|
    ensures Segments(fragment[offset..], current, chunkSize, offset == 0)
         == [[HeaderFor(current, offset == 0, end == |fragment|)] + fragment[offset..end]]
            + Segments(fragment[end..], NextSeq(current), chunkSize, false)
  {
    hide HeaderFor, NextSeq;
    var rest := fragment[offset..];
    assert fragment[end..] == rest[end - offset..] && fragment[offset..end] == rest[..end - offset];
    if end == |fragment| {
      assert fragment[offset..end] == rest && fragment[end..] == [];
    }
  }

  lemma {:induction false} AdvanceSnoc(c: byte, n: nat)
    ensures Advance(c, n + 1) == NextSeq(Advance(c, n))
    decreases n
  {
    hide NextSeq;
    if n > 0 {
      AdvanceSnoc(NextSeq(c), n - 1);
    }
  }

  /** The segments built so far, in front of those still to come. */
  ghost predicate Emitted(fragment: seq<byte>, start: byte, chunkSize: nat, segments: seq<seq<byte>>, current: byte,
                          offset: nat)
    requires chunkSize > 0
  {
    && Segments(fragment, start, chunkSize, true)
       == segments + Segments(if offset < |fragment| then fragment[offset..] else [], current, chunkSize, offset == 0)
    && current == Advance(start, |segments|)
  }

  lemma EmitStart(fragment: seq<byte>, start: byte, chunkSize: nat)
    requires chunkSize > 0 && fragment != []
    ensures Emitted(fragment, start, chunkSize, [], start, 0)
  {
    hide NextSeq, Segments;
    assert fragment[0..] == fragment;
  }

  lemma EmitStep(fragment: seq<byte>, start: byte, chunkSize: nat, segments: seq<seq<byte>>, current: byte,
                 offset: nat, end: nat)
    requires chunkSize > 0 && offset < |fragment| && Emitted(fragment, start, chunkSize, segments, current, offset)
    requires end == if offset + chunkSize < |fragment| then offset + chunkSize else |fragment|
    ensures var segment := [HeaderFor(current, offset == 0, end == |fragment|)] + fragment[offset..end];
      Emitted(fragment, start, chunkSize, segments + [segment], NextSeq(current), offset + chunkSize)
  {
    hide NextSeq, HeaderFor, Segments, Advance;
    SegmentsUnfold(fragment, offset, end, current, chunkSize);
    AdvanceSnoc(start, |segments|);
    assert end == |fragment| ==> fragment[end..] == [];
    var segment := [HeaderFor(current, offset == 0, end == |fragment|)] + fragment[offset..end];
    var rest := Segments(fragment[end..], NextSeq(current), chunkSize, false);
    assert segments + ([segment] + rest) == (segments + [segment]) + rest;
  }

  lemma EmitDone(fragment: seq<byte>, start: byte, chunkSize: nat, segments: seq<seq<byte>>, current: byte, offset: nat)
    requires chunkSize > 0 && offset >= |fragment| && Emitted(fragment, start, chunkSize, segments, current, offset)
    ensures segments == Segments(fragment, start, chunkSize, true) && current == Advance(start, |segments|)
  {
    hide NextSeq, Advance;
    assert segments + [] == segments;
  }

  method BuildHeader(current: byte, first: bool, final: bool) returns (header: byte)
    ensures header == HeaderFor(current, first, final)
  {
    header := current;
    if first {
      header := header | FIR;
    }
    if final {
      header := header | FIN;
    }
  }

  method SegmentStrict(fragment: seq<byte>, sequence: byte, maximumLinkPayload: int)
    returns (r: Result<(seq<seq<byte>>, byte), TransportError>)
    ensures r == Transport.SegmentStrict(fragment, sequence, maximumLinkPayload)
  {
    hide HeaderFor, NextSeq, SeqOf, Emitted, Segments, Advance;
    if fragment == [] {
      return Err(EmptyFragment);
    }
    if maximumLinkPayload < 2 || maximumLinkPayload > 250 {
      return Err(BadPayloadLimit);
    }
    var chunkSize := maximumLinkPayload - 1;
    var segments: seq<seq<byte>> := [];
    var current := SeqOf(sequence);
    var offset := 0;
    EmitStart(fragment, current, chunkSize);
    while offset < |fragment|
      invariant 0 <= offset
      invariant Emitted(fragment, SeqOf(sequence), chunkSize, segments, current, offset)
    {
      var end := if offset + chunkSize < |fragment| then offset + chunkSize else |fragment|;
      var header := BuildHeader(current, offset == 0, end == |fragment|);
      var segment := [header] + fragment[offset..end];
      EmitStep(fragment, SeqOf(sequence), chunkSize, segments, current, offset, end);
      segments := segments + [segment];
      current := NextSeq(current);
      offset := offset + chunkSize;
    }
    EmitDone(fragment, SeqOf(sequence), chunkSize, segments, current, offset);
    r := Ok((segments, current));
  }

  class StrictReassembler {
    const maximumFragment: int
    var active: bool
    var nextSequence: byte
    var fragment: seq<byte>

    constructor (maximumFragment: int)
      ensures Value() == NewReassembly(maximumFragment)
    {
      this.maximumFragment := maximumFragment;
      active, nextSequence, fragment := false, 0, [];
    }

    ghost function Value(): Reassembly
      reads this
    {
      Reassembly(maximumFragment, active, nextSequence, fragment)
    }

    method Reset()
      modifies this
      ensures Value() == NewReassembly(maximumFragment)
    {
      active := false;
      nextSequence := 0;
      fragment := [];
    }

    method Push(segment: seq<byte>) returns (r: PushResult)
      modifies this
      ensures (Value(), r) == Transport.Push(old(Value()), segment)
    {
      hide IsFirst, IsFinal, NextSeq, SeqOf;
      if |segment| < 2 {
        return Err(NoPayload);
      }
      var header := segment[0];
      var sequence := SeqOf(header);
      var first := IsFirst(header);
      var final := IsFinal(header);
      if first {
        Reset();
        active := true;
        nextSequence := sequence;
      } else if !active {
        return Err(NotStarted);
      }
      if sequence != nextSequence {
        Reset();
        return Err(OutOfSequence);
      }
      if |fragment| + |segment| - 1 > maximumFragment {
        Reset();
        return Err(LimitExceeded);
      }
      fragment := fragment + segment[1..];
      nextSequence := NextSeq(sequence);
      if !final {
        return Ok(None);
      }
      var result := fragment;
      Reset();
      r := Ok(Some(result));
    }
  }

  /** A limit below one is refused. */
  method NewStrictReassembler(maximumFragment: int) returns (r: Result<StrictReassembler, TransportError>)
    ensures r.Ok? <==> maximumFragment >= 1
    ensures r.Ok? ==> fresh(r.value) && r.value.Value() == NewReassembly(maximumFragment)
  {
    if maximumFragment < 1 {
      return Err(BadFragmentLimit);
    }
    var reassembler := new StrictReassembler(maximumFragment);
    r := Ok(reassembler);
  }
}
