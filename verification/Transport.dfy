/** The strict transport function (IEEE Std 1815-2012, clause 8): segmentation, reassembly, and their histories. */
module Transport {
  import opened Bytes

  const FIR: byte := 0x80
  const FIN: byte := 0x40
  const SEQUENCE: byte := 0x3F

  datatype TransportError = EmptyFragment | BadPayloadLimit | BadFragmentLimit | NoPayload | NotStarted | OutOfSequence | LimitExceeded

  predicate IsFirst(header: byte) {
    header & FIR != 0
  }

  predicate IsFinal(header: byte) {
    header & FIN != 0
  }

  function SeqOf(header: byte): byte {
    header & SEQUENCE
  }

  function NextSeq(sequence: byte): byte {
    (sequence + 1) & SEQUENCE
  }

  // ---------------------------------------------------------------- segmentation

  function HeaderFor(current: byte, first: bool, final: bool): byte {
    current | (if first then FIR else 0) | (if final then FIN else 0)
  }

  /** The segments of a fragment, the first numbered current. */
  function Segments(fragment: seq<byte>, current: byte, chunkSize: nat, first: bool): seq<seq<byte>>
    requires chunkSize > 0
    decreases |fragment|
  {
    if fragment == [] then []
    else if |fragment| <= chunkSize then [[HeaderFor(current, first, true)] + fragment]
    else
      [[HeaderFor(current, first, false)] + fragment[..chunkSize]]
      + Segments(fragment[chunkSize..], NextSeq(current), chunkSize, false)
  }

  function Advance(current: byte, count: nat): byte
    decreases count
  {
    if count == 0 then current else Advance(NextSeq(current), count - 1)
  }

  function SegmentStrict(fragment: seq<byte>, sequence: byte, maximumLinkPayload: int)
    : Result<(seq<seq<byte>>, byte), TransportError>
  {
    if fragment == [] then Err(EmptyFragment)
    else if maximumLinkPayload < 2 || maximumLinkPayload > 250 then Err(BadPayloadLimit)
    else
      var segments := Segments(fragment, SeqOf(sequence), maximumLinkPayload - 1, true);
      Ok((segments, Advance(SeqOf(sequence), |segments|)))
  }

  lemma HeaderBits(current: byte, first: bool, final: bool)
    requires current < 64
    ensures var h := HeaderFor(current, first, final); SeqOf(h) == current && IsFirst(h) == first && IsFinal(h) == final
    ensures NextSeq(current) < 64
  {
  }

  lemma SeqOfSmall(header: byte)
    ensures SeqOf(header) < 64
  {
  }

  lemma NextSeqVal(c: byte)
    requires c < 64
    ensures NextSeq(c) < 64 && ValOf(NextSeq(c)) == (ValOf(c) + 1) % 64
  {
  }

  /** Sequence numbers count modulo 64. */
  lemma {:induction false} AdvanceVal(c: byte, n: nat)
    requires c < 64
    ensures Advance(c, n) < 64 && ValOf(Advance(c, n)) == (ValOf(c) + n) % 64
    decreases n
  {
    hide NextSeq, ValOf;
    SmallVal(c);
    if n > 0 {
      NextSeqVal(c);
      AdvanceVal(NextSeq(c), n - 1);
    }
  }

  lemma SmallVal(c: byte)
    requires c < 64
    ensures ValOf(c) < 64
  {
  }

  // ---------------------------------------------------------------- reassembly

  datatype Reassembly = Reassembly(maximumFragment: int, active: bool, nextSequence: byte, fragment: seq<byte>)

  /** The answer to one segment: nothing yet, a complete fragment, or an error. */
  type PushResult = Result<Option<seq<byte>>, TransportError>

  function NewReassembly(maximumFragment: int): Reassembly {
    Reassembly(maximumFragment, false, 0, [])
  }

  function Push(r: Reassembly, segment: seq<byte>): (Reassembly, PushResult) {
    if |segment| < 2 then (r, Err(NoPayload))
    else
      var header := segment[0];
      var idle := NewReassembly(r.maximumFragment);
      if !IsFirst(header) && !r.active then (r, Err(NotStarted))
      else
        var begun := if IsFirst(header) then idle.(active := true, nextSequence := SeqOf(header)) else r;
        if SeqOf(header) != begun.nextSequence then (idle, Err(OutOfSequence))
        else if |begun.fragment| + |segment| - 1 > r.maximumFragment then (idle, Err(LimitExceeded))
        else
          var joined := begun.fragment + segment[1..];
          if !IsFinal(header) then
            (begun.(fragment := joined, nextSequence := NextSeq(SeqOf(header))), Ok(None))
          else (idle, Ok(Some(joined)))
  }

  /** Pushing segments one after the other. */
  function PushAll(r: Reassembly, segments: seq<seq<byte>>): (Reassembly, seq<PushResult>)
    decreases segments
  {
    if segments == [] then (r, [])
    else
      var (r1, first) := Push(r, segments[0]);
      var (r2, rest) := PushAll(r1, segments[1..]);
      (r2, [first] + rest)
  }

  // ---------------------------------------------------------------- segment, then push

  /** n pushes without a result, then one that completes with the given fragment. */
  predicate CompletesOnlyAtEnd(results: seq<PushResult>, fragment: seq<byte>) {
    && results != [] && results[|results| - 1] == Ok(Some(fragment))
    && forall i :: 0 <= i < |results| - 1 ==> results[i] == Ok(None)
  }

  /** A segment that is not the last extends the run. */
  lemma PushMiddle(r: Reassembly, chunk: seq<byte>, current: byte, first: bool)
    requires chunk != [] && current < 64 && (first || (r.active && r.nextSequence == current))
    requires (if first then 0 else |r.fragment|) + |chunk| <= r.maximumFragment
    ensures Push(r, [HeaderFor(current, first, false)] + chunk)
         == (Reassembly(r.maximumFragment, true, NextSeq(current), (if first then [] else r.fragment) + chunk), Ok(None))
    ensures NextSeq(current) < 64
  {
    hide HeaderFor, SeqOf, IsFirst, IsFinal, NextSeq;
    HeaderBits(current, first, false);
    assert ([HeaderFor(current, first, false)] + chunk)[1..] == chunk;
  }

  lemma PushLast(r: Reassembly, chunk: seq<byte>, current: byte, first: bool)
    requires chunk != [] && current < 64 && (first || (r.active && r.nextSequence == current))
    requires (if first then 0 else |r.fragment|) + |chunk| <= r.maximumFragment
    ensures Push(r, [HeaderFor(current, first, true)] + chunk)
         == (NewReassembly(r.maximumFragment), Ok(Some((if first then [] else r.fragment) + chunk)))
  {
    hide HeaderFor, SeqOf, IsFirst, IsFinal, NextSeq;
    HeaderBits(current, first, true);
    assert ([HeaderFor(current, first, true)] + chunk)[1..] == chunk;
  }

  lemma {:induction false} PushSegments(r: Reassembly, fragment: seq<byte>, current: byte, chunkSize: nat, first: bool)
    requires fragment != [] && chunkSize > 0 && current < 64
    requires first || (r.active && r.nextSequence == current)
    requires (if first then 0 else |r.fragment|) + |fragment| <= r.maximumFragment
    ensures var (r', results) := PushAll(r, Segments(fragment, current, chunkSize, first));
      CompletesOnlyAtEnd(results, (if first then [] else r.fragment) + fragment)
      && r' == NewReassembly(r.maximumFragment)
    decreases |fragment|
  {
    hide HeaderFor, NextSeq, Push;
    var segments := Segments(fragment, current, chunkSize, first);
    if |fragment| <= chunkSize {
      PushLast(r, fragment, current, first);
      assert segments[1..] == [];
    } else {
      var chunk, rest := fragment[..chunkSize], fragment[chunkSize..];
      PushMiddle(r, chunk, current, first);
      var r1, held := Push(r, segments[0]).0, if first then [] else r.fragment;
      assert segments[1..] == Segments(rest, NextSeq(current), chunkSize, false);
      assert fragment == chunk + rest;
      PushSegments(r1, rest, NextSeq(current), chunkSize, false);
      assert held + fragment == (held + chunk) + rest;
      CompletesCons(PushAll(r1, segments[1..]).1, held + fragment);
    }
  }

  lemma CompletesCons(results: seq<PushResult>, fragment: seq<byte>)
    requires CompletesOnlyAtEnd(results, fragment)
    ensures CompletesOnlyAtEnd([Ok(None)] + results, fragment)
  {
    var all := [Ok(None)] + results;
    assert forall i :: 0 < i < |all| ==> all[i] == results[i - 1];
  }

  /** Every segment but the last is full, and the last is not empty. */
  predicate Full(segments: seq<seq<byte>>, size: nat) {
    && (forall i :: 0 <= i < |segments| ==> 2 <= |segments[i]| <= size)
    && (forall i :: 0 <= i < |segments| - 1 ==> |segments[i]| == size)
  }

  lemma {:induction false} SegmentCount(fragment: seq<byte>, current: byte, chunkSize: nat, first: bool)
    requires chunkSize > 0
    ensures var segments := Segments(fragment, current, chunkSize, first);
      (segments == [] <==> fragment == []) && Full(segments, chunkSize + 1)
    decreases |fragment|
  {
    hide HeaderFor, NextSeq;
    if |fragment| > chunkSize {
      SegmentCount(fragment[chunkSize..], NextSeq(current), chunkSize, false);
    }
  }

  /**
   * Any non-empty fragment, cut with any legal limit from any starting number, is put together again by a
   * reassembler in any state whose limit it fits: only the last segment completes, with the original fragment.
   * No segment could be saved, since all but the last are full.
   */
  lemma SegmentThenPush(r: Reassembly, fragment: seq<byte>, sequence: byte, maximumLinkPayload: int)
    requires fragment != [] && 2 <= maximumLinkPayload <= 250 && |fragment| <= r.maximumFragment
    ensures var (segments, next) := SegmentStrict(fragment, sequence, maximumLinkPayload).value;
      CompletesOnlyAtEnd(PushAll(r, segments).1, fragment)
      && PushAll(r, segments).0 == NewReassembly(r.maximumFragment)
      && ValOf(next) == (ValOf(SeqOf(sequence)) + |segments|) % 64
      && Full(segments, maximumLinkPayload)
  {
    hide HeaderFor, IsFirst, IsFinal, NextSeq, SeqOf, ValOf;
    SeqOfSmall(sequence);
    PushSegments(r, fragment, SeqOf(sequence), maximumLinkPayload - 1, true);
    SegmentCount(fragment, SeqOf(sequence), maximumLinkPayload - 1, true);
    AdvanceVal(SeqOf(sequence), |SegmentStrict(fragment, sequence, maximumLinkPayload).value.0|);
    assert [] + fragment == fragment;
  }

  // ---------------------------------------------------------------- the octets of each segment

  /** The k-th chunk of the given size; the last may be shorter. */
  function Chunk(fragment: seq<byte>, k: nat, size: nat): seq<byte> {
    var from := k * size;
    if from + size <= |fragment| then fragment[from..from + size]
    else if from <= |fragment| then fragment[from..]
    else []
  }

  /** The header of a segment: its number, 0x80 in the first and 0x40 in the last. */
  function HeaderOctet(number: byte, first: bool, last: bool): byte {
    number + (if first then 0x80 else 0x00) + (if last then 0x40 else 0x00)
  }

  /** What a segmentation of a fragment is, segment by segment, without saying how it is made. */
  ghost predicate CutInto(fragment: seq<byte>, number: byte, size: nat, first: bool, segments: seq<seq<byte>>) {
    && |segments| > 0 && (|segments| - 1) * size < |fragment| <= |segments| * size
    && forall k :: 0 <= k < |segments| ==>
         segments[k] == [HeaderOctet(Advance(number, k), first && k == 0, k == |segments| - 1)] + Chunk(fragment, k, size)
  }

  lemma HeaderSum(current: byte, first: bool, final: bool)
    requires current < 64
    ensures HeaderFor(current, first, final) == HeaderOctet(current, first, final)
  {
  }

  lemma LaterChunk(fragment: seq<byte>, k: nat, size: nat)
    requires k > 0 && |fragment| > size
    ensures Chunk(fragment[size..], k - 1, size) == Chunk(fragment, k, size)
  {
    Times(k, size);
    var from := (k - 1) * size;
    var rest := fragment[size..];
    if from + size <= |rest| {
      assert rest[from..from + size] == fragment[from + size..from + size + size];
    } else if from <= |rest| {
      assert rest[from..] == fragment[from + size..];
    }
  }

  lemma FirstChunk(fragment: seq<byte>, size: nat)
    ensures Chunk(fragment, 0, size) == if |fragment| <= size then fragment else fragment[..size]
  {
    assert 0 * size == 0;
  }

  lemma AdvanceOnce(number: byte, k: nat)
    ensures Advance(number, 0) == number
    ensures k > 0 ==> Advance(number, k) == Advance(NextSeq(number), k - 1)
  {
    hide NextSeq;
  }

  lemma {:induction false} SegmentsCut(fragment: seq<byte>, number: byte, size: nat, first: bool)
    requires fragment != [] && size > 0 && number < 64
    ensures CutInto(fragment, number, size, first, Segments(fragment, number, size, first))
    decreases |fragment|
  {
    hide HeaderFor, NextSeq, Chunk, HeaderOctet, Advance;
    var segments := Segments(fragment, number, size, first);
    HeaderBits(number, first, false);
    HeaderSum(number, first, |fragment| <= size);
    FirstChunk(fragment, size);
    AdvanceOnce(number, 0);
    if |fragment| <= size {
      OneTimes(size);
    } else {
      var later := Segments(fragment[size..], NextSeq(number), size, false);
      SegmentsCut(fragment[size..], NextSeq(number), size, false);
      Times(|later|, size);
      Times(|segments|, size);
      forall k | 0 < k < |segments|
        ensures segments[k] == [HeaderOctet(Advance(number, k), false, k == |segments| - 1)] + Chunk(fragment, k, size)
      {
        assert segments[k] == later[k - 1];
        LaterChunk(fragment, k, size);
        AdvanceOnce(number, k);
      }
    }
  }

  lemma OneTimes(n: nat)
    ensures 1 * n == n && 0 * n == 0
  {
  }

  /** What SegmentStrict refuses, and what each segment is otherwise, octet by octet. */
  lemma SegmentLayout(fragment: seq<byte>, sequence: byte, maximumLinkPayload: int)
    ensures var r := SegmentStrict(fragment, sequence, maximumLinkPayload);
      && (r == Err(EmptyFragment) <==> fragment == [])
      && (r == Err(BadPayloadLimit) <==> fragment != [] && !(2 <= maximumLinkPayload <= 250))
      && (r.Ok? <==> fragment != [] && 2 <= maximumLinkPayload <= 250)
      && (r.Ok? ==> CutInto(fragment, sequence & 0x3F, maximumLinkPayload - 1, true, r.value.0)
                    && r.value.1 == Advance(sequence & 0x3F, |r.value.0|))
  {
    hide Segments, Advance, CutInto;
    if fragment != [] && 2 <= maximumLinkPayload <= 250 {
      SeqOfSmall(sequence);
      SegmentsCut(fragment, SeqOf(sequence), maximumLinkPayload - 1, true);
    }
  }

  // ---------------------------------------------------------------- reassembly equals a statement about the history

  /** The segments that are long enough to be looked at. */
  function Accepted(segments: seq<seq<byte>>): (h: seq<seq<byte>>)
    ensures forall i :: 0 <= i < |h| ==> |h[i]| >= 2
  {
    if segments == [] then []
    else
      var last := segments[|segments| - 1];
      var before := Accepted(segments[..|segments| - 1]);
      if |last| < 2 then before else before + [last]
  }

  predicate LongEnough(h: seq<seq<byte>>) {
    forall i :: 0 <= i < |h| ==> |h[i]| >= 2
  }

  function Payloads(h: seq<seq<byte>>): seq<byte>
    requires LongEnough(h)
  {
    if h == [] then [] else Payloads(h[..|h| - 1]) + h[|h| - 1][1..]
  }

  /** The joined payloads of h from j on. */
  function Tail(h: seq<seq<byte>>, j: nat): seq<byte>
    requires LongEnough(h)
  {
    if j <= |h| then Payloads(h[j..]) else []
  }

  /** h from j on: a FIR segment, then segments without FIR whose numbers follow each other mod 64. */
  ghost predicate Consecutive(h: seq<seq<byte>>, j: nat)
    requires LongEnough(h)
  {
    && j < |h| && IsFirst(h[j][0])
    && forall k :: j < k < |h| ==> !IsFirst(h[k][0]) && SeqOf(h[k][0]) == NextSeq(SeqOf(h[k - 1][0]))
  }

  /** A run that starts at j, fits the limit and has met no FIN up to position n. */
  ghost predicate RunFrom(h: seq<seq<byte>>, j: nat, n: nat, limit: int)
    requires LongEnough(h)
  {
    && Consecutive(h, j) && n <= |h|
    && |Tail(h, j)| <= limit
    && forall k :: j <= k < n ==> !IsFinal(h[k][0])
  }

  ghost predicate Open(h: seq<seq<byte>>, j: nat, limit: int)
    requires LongEnough(h)
  {
    RunFrom(h, j, |h|, limit)
  }

  /** The last segment of h ends a run that started at j. */
  ghost predicate Completes(h: seq<seq<byte>>, j: nat, limit: int)
    requires LongEnough(h)
  {
    h != [] && RunFrom(h, j, |h| - 1, limit) && IsFinal(h[|h| - 1][0])
  }

  /** The state that a history leads to. */
  function After(limit: int, segments: seq<seq<byte>>): Reassembly
    decreases |segments|
  {
    if segments == [] then NewReassembly(limit)
    else Push(After(limit, segments[..|segments| - 1]), segments[|segments| - 1]).0
  }

  /** The answer to the last segment of a history. */
  function LastResult(limit: int, segments: seq<seq<byte>>): PushResult
    requires segments != []
  {
    Push(After(limit, segments[..|segments| - 1]), segments[|segments| - 1]).1
  }

  /** Short segments leave no trace. */
  lemma {:induction false} AfterAccepted(limit: int, segments: seq<seq<byte>>)
    ensures After(limit, segments) == After(limit, Accepted(segments))
    ensures segments != [] && |segments[|segments| - 1]| < 2 ==> LastResult(limit, segments) == Err(NoPayload)
    ensures segments != [] && |segments[|segments| - 1]| >= 2 ==>
      Accepted(segments) != [] && LastResult(limit, segments) == LastResult(limit, Accepted(segments))
    decreases |segments|
  {
    hide IsFirst, IsFinal, SeqOf, NextSeq;
    if segments != [] {
      var before, last := segments[..|segments| - 1], segments[|segments| - 1];
      AfterAccepted(limit, before);
      if |last| >= 2 {
        var h := Accepted(segments);
        assert h[..|h| - 1] == Accepted(before) && h[|h| - 1] == last;
      }
    }
  }

  /** What a state says about the history that led to it. */
  ghost predicate Matches(r: Reassembly, h: seq<seq<byte>>, limit: int)
    requires LongEnough(h)
  {
    && r.maximumFragment == limit
    && (r.active <==> exists j: nat :: Open(h, j, limit))
    && (forall j: nat :: Open(h, j, limit) ==>
          r.fragment == Tail(h, j) && r.nextSequence == NextSeq(SeqOf(h[|h| - 1][0])))
    && (!r.active ==> r.fragment == [])
  }

  lemma ConsecutiveExtends(h: seq<seq<byte>>, g: seq<byte>, j: nat)
    requires LongEnough(h) && |g| >= 2 && j < |h|
    ensures LongEnough(h + [g])
    ensures Consecutive(h + [g], j) <==>
      Consecutive(h, j) && !IsFirst(g[0]) && SeqOf(g[0]) == NextSeq(SeqOf(h[|h| - 1][0]))
  {
    hide IsFirst, SeqOf, NextSeq;
    var all := h + [g];
    assert all[|h|] == g && forall k :: 0 <= k < |h| ==> all[k] == h[k];
    if Consecutive(all, j) {
      forall k | j < k < |h|
        ensures !IsFirst(h[k][0]) && SeqOf(h[k][0]) == NextSeq(SeqOf(h[k - 1][0]))
      {
        assert all[k] == h[k] && all[k - 1] == h[k - 1];
      }
      assert !IsFirst(all[|h|][0]);
    }
  }

  lemma TailExtends(h: seq<seq<byte>>, g: seq<byte>, j: nat)
    requires LongEnough(h) && |g| >= 2 && j < |h|
    ensures LongEnough(h + [g]) && Tail(h + [g], j) == Tail(h, j) + g[1..]
  {
    var all := h + [g];
    assert all[j..] == h[j..] + [g] && all[j..][..|h[j..]|] == h[j..];
  }

  lemma RunExtends(h: seq<seq<byte>>, g: seq<byte>, j: nat, n: nat, limit: int)
    requires LongEnough(h) && |g| >= 2 && j < |h| && n == |h|
    ensures LongEnough(h + [g])
    ensures RunFrom(h + [g], j, n, limit) <==>
      Open(h, j, limit) && !IsFirst(g[0]) && SeqOf(g[0]) == NextSeq(SeqOf(h[|h| - 1][0]))
      && |Tail(h, j)| + |g| - 1 <= limit
    ensures Tail(h + [g], j) == Tail(h, j) + g[1..]
  {
    hide IsFirst, IsFinal, SeqOf, NextSeq, Consecutive, Tail;
    ConsecutiveExtends(h, g, j);
    TailExtends(h, g, j);
    assert forall k :: 0 <= k < |h| ==> (h + [g])[k] == h[k];
  }

  lemma RunStarts(h: seq<seq<byte>>, g: seq<byte>, limit: int)
    requires LongEnough(h) && |g| >= 2
    ensures LongEnough(h + [g])
    ensures RunFrom(h + [g], |h|, |h|, limit) <==> IsFirst(g[0]) && |g| - 1 <= limit
    ensures Tail(h + [g], |h|) == g[1..]
  {
    hide IsFirst, IsFinal, SeqOf, NextSeq;
    var all := h + [g];
    assert all[|h|..] == [g];
    assert Payloads([g]) == g[1..] by {
      assert [g][..0] == [] && Payloads([]) == [];
      assert [] + g[1..] == g[1..];
    }
  }

  /** A segment continues or starts a run from j: position j and everything after it fit together. */
  lemma RunSplit(h: seq<seq<byte>>, g: seq<byte>, j: nat, limit: int)
    requires LongEnough(h) && |g| >= 2
    ensures LongEnough(h + [g])
    ensures Open(h + [g], j, limit) <==> RunFrom(h + [g], j, |h|, limit) && !IsFinal(g[0])
    ensures Completes(h + [g], j, limit) <==> RunFrom(h + [g], j, |h|, limit) && IsFinal(g[0])
    ensures RunFrom(h + [g], j, |h|, limit) ==> j <= |h|
  {
    hide IsFirst, IsFinal, SeqOf, NextSeq;
    assert (h + [g])[|h|] == g;
  }

  lemma PushMatches(r: Reassembly, h: seq<seq<byte>>, g: seq<byte>, limit: int)
    requires LongEnough(h) && |g| >= 2 && Matches(r, h, limit)
    ensures LongEnough(h + [g]) && Matches(Push(r, g).0, h + [g], limit)
    ensures forall p :: Push(r, g).1 == Ok(Some(p)) <==>
      exists j: nat :: Completes(h + [g], j, limit) && p == Tail(h + [g], j)
  {
    var all := h + [g];
    hide IsFirst, IsFinal, SeqOf, NextSeq, RunFrom, Open, Completes;
    RunStarts(h, g, limit);
    forall j: nat
      ensures Open(all, j, limit) <==> RunFrom(all, j, |h|, limit) && !IsFinal(g[0])
      ensures Completes(all, j, limit) <==> RunFrom(all, j, |h|, limit) && IsFinal(g[0])
      ensures RunFrom(all, j, |h|, limit) ==> j <= |h|
      ensures j < |h| ==> (RunFrom(all, j, |h|, limit) <==>
        Open(h, j, limit) && !IsFirst(g[0]) && SeqOf(g[0]) == NextSeq(SeqOf(h[|h| - 1][0]))
        && |Tail(h, j)| + |g| - 1 <= limit)
      ensures j < |h| ==> Tail(all, j) == Tail(h, j) + g[1..]
    {
      RunSplit(h, g, j, limit);
      if j < |h| {
        RunExtends(h, g, j, |h|, limit);
      }
    }
    OpenInside(h, limit);
    if IsFirst(g[0]) {
      assert RunFrom(all, |h|, |h|, limit) <==> |g| - 1 <= limit;
    } else if r.active {
      var j: nat :| Open(h, j, limit);
      assert RunFrom(all, j, |h|, limit) <==> (SeqOf(g[0]) == r.nextSequence && |r.fragment| + |g| - 1 <= limit);
    }
    assert all[|all| - 1] == g;
  }

  lemma OpenInside(h: seq<seq<byte>>, limit: int)
    requires LongEnough(h)
    ensures forall j: nat :: Open(h, j, limit) ==> j < |h|
  {
    hide IsFirst, IsFinal, SeqOf, NextSeq;
  }

  lemma {:induction false} AfterMatches(limit: int, h: seq<seq<byte>>)
    requires LongEnough(h)
    ensures Matches(After(limit, h), h, limit)
    decreases |h|
  {
    hide IsFirst, IsFinal, SeqOf, NextSeq, Push;
    if h == [] {
      OpenInside(h, limit);
    } else {
      var before, g := h[..|h| - 1], h[|h| - 1];
      AfterMatches(limit, before);
      PushMatches(After(limit, before), before, g, limit);
      assert h == before + [g];
    }
  }

  /**
   * For every history of arbitrary segments: the last push completes with p exactly when the accepted segments
   * from some FIR on, with no later FIR, follow each other mod 64, meet FIN only now, fit the limit, and have p as
   * their joined payloads.
   */
  lemma ReassemblyIsHistory(limit: int, segments: seq<seq<byte>>, p: seq<byte>)
    requires segments != []
    ensures LastResult(limit, segments) == Ok(Some(p)) <==>
      |segments[|segments| - 1]| >= 2
      && exists j: nat :: Completes(Accepted(segments), j, limit) && p == Tail(Accepted(segments), j)
  {
    hide IsFirst, IsFinal, SeqOf, NextSeq, Push, Completes, Matches;
    AfterAccepted(limit, segments);
    if |segments[|segments| - 1]| >= 2 {
      var h := Accepted(segments);
      var before, g := h[..|h| - 1], h[|h| - 1];
      assert h == before + [g];
      AfterMatches(limit, before);
      PushMatches(After(limit, before), before, g, limit);
    }
  }

  /** The open run of h goes on with a segment numbered as the given header says. */
  ghost predicate OpenAt(h: seq<seq<byte>>, header: byte, limit: int, j: nat)
    requires LongEnough(h)
  {
    Open(h, j, limit) && j < |h| && SeqOf(header) == NextSeq(SeqOf(h[|h| - 1][0]))
  }

  /**
   * Why a segment of two octets or more is refused, for every history: nothing to continue, a number that does not
   * follow, or too long; a FIR segment is refused only for its length.
   */
  lemma {:induction false} ErrorsAreHistory(limit: int, h: seq<seq<byte>>, g: seq<byte>)
    requires LongEnough(h) && |g| >= 2
    ensures var r := LastResult(limit, h + [g]);
      var first := IsFirst(g[0]);
      && (r == Err(NotStarted) <==> !first && !exists j: nat :: Open(h, j, limit))
      && (r == Err(OutOfSequence) <==>
            !first && (exists j: nat :: Open(h, j, limit)) && !exists j: nat :: OpenAt(h, g[0], limit, j))
      && (r == Err(LimitExceeded) <==>
            if first then |g| - 1 > limit
            else exists j: nat :: OpenAt(h, g[0], limit, j) && |Tail(h, j)| + |g| - 1 > limit)
      && r != Err(NoPayload)
  {
    hide IsFirst, IsFinal, SeqOf, NextSeq, Open, Tail, After;
    AfterMatches(limit, h);
    OpenInside(h, limit);
    assert (h + [g])[..|h|] == h && (h + [g])[|h|] == g;
    var r := After(limit, h);
    if r.active {
      var j: nat :| Open(h, j, limit);
      assert OpenAt(h, g[0], limit, j) <==> SeqOf(g[0]) == r.nextSequence;
    }
  }
}
