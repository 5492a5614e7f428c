/** Strict application fragments (IEEE Std 1815-2012, clause 4): codec, reassembly, and its history. */
module AppFragment {
  import opened Bytes

  const FIR: byte := 0x80
  const FIN: byte := 0x40
  const CON: byte := 0x20
  const UNS: byte := 0x10
  const SEQ_MASK: byte := 0x0F

  datatype Fragment = Fragment(fir: bool, fin: bool, con: bool, uns: bool, sequence: byte, function_: byte,
                               iin: u16, objects: seq<byte>)

  datatype AppError = BadMaximum | BadSequence | TooLong | Truncated
                    | RepeatedFir | NotStarted | OutOfSequence | FunctionChanged | UnsolicitedChanged | LimitExceeded

  predicate IsResponse(function_: byte) {
    function_ & 0x80 != 0
  }

  // ---------------------------------------------------------------- codec

  predicate Has(control: byte, flag: byte) {
    control & flag != 0
  }

  function SequenceOf(control: byte): byte {
    control & SEQ_MASK
  }

  function Control(f: Fragment): byte {
    f.sequence | (if f.fir then FIR else 0) | (if f.fin then FIN else 0) | (if f.con then CON else 0)
    | (if f.uns then UNS else 0)
  }

  function HeaderLength(function_: byte): nat {
    if IsResponse(function_) then 4 else 2
  }

  function EncodeStrictFragment(f: Fragment, maximum: int): Result<seq<byte>, AppError> {
    if maximum < 2 then Err(BadMaximum)
    else if f.sequence > SEQ_MASK then Err(BadSequence)
    else if |f.objects| > maximum - HeaderLength(f.function_) then Err(TooLong)
    else
      Ok([Control(f), f.function_] + (if IsResponse(f.function_) then [Lo(f.iin), Hi(f.iin)] else []) + f.objects)
  }

  function DecodeStrictFragment(data: seq<byte>, maximum: int): Result<Fragment, AppError> {
    if maximum < 2 then Err(BadMaximum)
    else if |data| < 2 then Err(Truncated)
    else if |data| > maximum then Err(TooLong)
    else if IsResponse(data[1]) && |data| < 4 then Err(Truncated)
    else
      var c := data[0];
      Ok(Fragment(Has(c, FIR), Has(c, FIN), Has(c, CON), Has(c, UNS), SequenceOf(c), data[1],
                  if IsResponse(data[1]) then Join(data[2], data[3]) else 0,
                  data[HeaderLength(data[1])..]))
  }

  /** What the wire can carry: a sequence of at most fifteen, and internal indications only in responses. */
  predicate Encodable(f: Fragment) {
    f.sequence <= SEQ_MASK && (!IsResponse(f.function_) ==> f.iin == 0)
  }

  lemma ControlBits(f: Fragment)
    requires f.sequence <= SEQ_MASK
    ensures var c := Control(f);
      Has(c, FIR) == f.fir && Has(c, FIN) == f.fin && Has(c, CON) == f.con && Has(c, UNS) == f.uns
      && SequenceOf(c) == f.sequence
  {
  }

  lemma ControlOfBits(c: byte, f: Fragment)
    requires f.sequence == SequenceOf(c) && f.fir == Has(c, FIR) && f.fin == Has(c, FIN)
    requires f.con == Has(c, CON) && f.uns == Has(c, UNS)
    ensures Control(f) == c && f.sequence <= SEQ_MASK
  {
  }

  // ---------------------------------------------------------------- the octets of a fragment

  lemma ResponseFunctions(function_: byte)
    ensures IsResponse(function_) <==> function_ >= 0x80
  {
  }

  /** Which fragments are encoded, and why others are not. */
  lemma EncodesIff(f: Fragment, maximum: int)
    ensures var r := EncodeStrictFragment(f, maximum);
      var fits := |f.objects| + (if f.function_ >= 0x80 then 4 else 2) <= maximum;
      && (r == Err(BadMaximum) <==> maximum < 2)
      && (r == Err(BadSequence) <==> maximum >= 2 && f.sequence > 15)
      && (r == Err(TooLong) <==> maximum >= 2 && f.sequence <= 15 && !fits)
      && (r.Ok? <==> maximum >= 2 && f.sequence <= 15 && fits)
  {
    ResponseFunctions(f.function_);
    hide IsResponse, Control, Lo, Hi;
  }

  /**
   * Where everything is in an encoded fragment: the control octet with FIR, FIN, CON, UNS and the number, the function,
   * the internal indications of a response low octet first, and the objects.
   */
  lemma FragmentOctets(f: Fragment, maximum: int)
    requires EncodeStrictFragment(f, maximum).Ok?
    ensures var w := EncodeStrictFragment(f, maximum).value;
      && |w| >= 2 && w[1] == f.function_
      && w[0] == (if f.fir then 0x80 else 0) | (if f.fin then 0x40 else 0) | (if f.con then 0x20 else 0)
                 | (if f.uns then 0x10 else 0) | f.sequence
      && (f.function_ >= 0x80 ==>
            |w| >= 4 && w[2] == (f.iin & 0xFF) as bv8 && w[3] == (f.iin >> 8) as bv8 && w[4..] == f.objects)
      && (f.function_ < 0x80 ==> w[2..] == f.objects)
  {
    ResponseFunctions(f.function_);
    ControlSum(f);
    hide IsResponse, Control;
  }

  lemma ControlSum(f: Fragment)
    ensures Control(f) == (if f.fir then 0x80 else 0) | (if f.fin then 0x40 else 0) | (if f.con then 0x20 else 0)
                          | (if f.uns then 0x10 else 0) | f.sequence
  {
  }

  /** Which octet strings decode, and why others do not. */
  lemma DecodesIff(data: seq<byte>, maximum: int)
    ensures var r := DecodeStrictFragment(data, maximum);
      var short := |data| < 2 || (data[1] >= 0x80 && |data| < 4);
      && (r == Err(BadMaximum) <==> maximum < 2)
      && (r == Err(TooLong) <==> maximum >= 2 && |data| > maximum)
      && (r == Err(Truncated) <==> maximum >= 2 && |data| <= maximum && short)
      && (r.Ok? <==> maximum >= 2 && |data| <= maximum && !short)
  {
    if |data| >= 2 {
      ResponseFunctions(data[1]);
    }
    hide IsResponse, Has, SequenceOf, Join;
  }

  /** What is encoded decodes to itself, under any limit that admits its length. */
  lemma DecodeEncoded(f: Fragment, maximum: int, limit: int)
    requires EncodeStrictFragment(f, maximum).Ok? && Encodable(f)
    ensures var data := EncodeStrictFragment(f, maximum).value;
      2 <= |data| <= maximum && |data| == HeaderLength(f.function_) + |f.objects|
      && (|data| <= limit ==> DecodeStrictFragment(data, limit) == Ok(f))
  {
    ControlBits(f);
    JoinSplit(f.iin);
    hide Control, Lo, Hi, Join, IsResponse, Has, SequenceOf;
    var data := EncodeStrictFragment(f, maximum).value;
    assert data[HeaderLength(f.function_)..] == f.objects;
  }

  /** What decodes encodes to the same octets: no fragment has two wire forms. */
  lemma EncodeDecoded(data: seq<byte>, maximum: int)
    requires DecodeStrictFragment(data, maximum).Ok?
    ensures var f := DecodeStrictFragment(data, maximum).value;
      Encodable(f) && EncodeStrictFragment(f, maximum) == Ok(data)
  {
    var f := DecodeStrictFragment(data, maximum).value;
    ControlOfBits(data[0], f);
    if IsResponse(data[1]) {
      SplitJoin(data[2], data[3]);
    }
    hide Control, Lo, Hi, Join, IsResponse, Has, SequenceOf;
    var n := HeaderLength(data[1]);
    assert data[..n] == [data[0], data[1]] + (if IsResponse(data[1]) then [data[2], data[3]] else []);
    assert data == data[..n] + data[n..];
  }

  /**
   * The encoder drops internal indications outside responses without an error: a fragment that it accepts is read back
   * if and only if it is one that the wire can carry.
   */
  lemma {:induction false} SurvivesIffEncodable(f: Fragment, maximum: int, limit: int)
    requires EncodeStrictFragment(f, maximum).Ok? && |EncodeStrictFragment(f, maximum).value| <= limit
    ensures DecodeStrictFragment(EncodeStrictFragment(f, maximum).value, limit) == Ok(f) <==> Encodable(f)
  {
    hide EncodeStrictFragment, DecodeStrictFragment, IsResponse;
    var data := EncodeStrictFragment(f, maximum).value;
    if Encodable(f) {
      DecodeEncoded(f, maximum, limit);
    }
    if DecodeStrictFragment(data, limit) == Ok(f) {
      EncodeDecoded(data, limit);
    }
  }

  // ---------------------------------------------------------------- reassembly

  datatype Reassembly = Reassembly(maximumObjects: int, active: bool, firstSequence: byte, nextSequence: byte,
                                   function_: byte, unsolicited: bool, confirm: bool, iin: u16, objects: seq<byte>)

  type PushResult = Result<Option<Fragment>, AppError>

  function NewReassembly(maximumObjects: int): Reassembly {
    Reassembly(maximumObjects, false, 0, 0, 0, false, false, 0, [])
  }

  function NextSeq(sequence: byte): byte {
    (sequence + 1) & SEQ_MASK
  }

  function Or(a: u16, b: u16): u16 {
    a | b
  }

  function Push(r: Reassembly, f: Fragment): (Reassembly, PushResult) {
    var idle := NewReassembly(r.maximumObjects);
    if r.maximumObjects < 1 then (r, Err(BadMaximum))
    else if f.sequence > SEQ_MASK then (idle, Err(BadSequence))
    else if f.fir && r.active then (idle, Err(RepeatedFir))
    else if !f.fir && !r.active then (r, Err(NotStarted))
    else if f.fir then
      Extend(r.(active := true, firstSequence := f.sequence, nextSequence := f.sequence,
                function_ := f.function_, unsolicited := f.uns), f)
    else Extend(r, f)
  }

  /** The part of Push that a started reassembler goes through. */
  function Extend(begun: Reassembly, f: Fragment): (Reassembly, PushResult) {
    var idle := NewReassembly(begun.maximumObjects);
    if f.sequence != begun.nextSequence then (idle, Err(OutOfSequence))
    else if f.function_ != begun.function_ then (idle, Err(FunctionChanged))
    else if f.uns != begun.unsolicited then (idle, Err(UnsolicitedChanged))
    else if |f.objects| > begun.maximumObjects - |begun.objects| then (idle, Err(LimitExceeded))
    else
      var joined := begun.(objects := begun.objects + f.objects, confirm := begun.confirm || f.con,
                           iin := Or(begun.iin, f.iin), nextSequence := NextSeq(f.sequence));
      if !f.fin then (joined, Ok(None))
      else
        (idle, Ok(Some(Fragment(true, true, joined.confirm, joined.unsolicited, joined.firstSequence,
                                joined.function_, joined.iin, joined.objects))))
  }

  // ---------------------------------------------------------------- reassembly equals a statement about the history

  function Objects(h: seq<Fragment>): seq<byte> {
    if h == [] then [] else Objects(h[..|h| - 1]) + h[|h| - 1].objects
  }

  function Indications(h: seq<Fragment>): u16 {
    if h == [] then 0 else Or(Indications(h[..|h| - 1]), h[|h| - 1].iin)
  }

  predicate AsksConfirm(h: seq<Fragment>) {
    exists k :: 0 <= k < |h| && h[k].con
  }

  /** f goes on from prev in a run that began with begin. */
  predicate Follows(f: Fragment, prev: Fragment, begin: Fragment) {
    !f.fir && f.sequence == NextSeq(prev.sequence) && f.function_ == begin.function_ && f.uns == begin.uns
  }

  /** The later fragments of a run follow each other. */
  ghost predicate Chain(h: seq<Fragment>, j: nat)
    requires j < |h|
  {
    forall k :: j < k < |h| ==> Follows(h[k], h[k - 1], h[j])
  }

  /** h from j on: a FIR, then fragments that each follow, within the limit, with no FIN up to position n. */
  ghost predicate RunFrom(h: seq<Fragment>, j: nat, n: nat, limit: int) {
    && j < |h| && n <= |h|
    && h[j].fir && h[j].sequence <= SEQ_MASK
    && Chain(h, j)
    && |Objects(h[j..])| <= limit
    && (forall k :: j <= k < n ==> !h[k].fin)
  }

  /** No run is open after h. A run counts only when its FIR arrived while idle. */
  ghost predicate Idle(h: seq<Fragment>, limit: int)
    decreases |h|
  {
    !exists j: nat :: j < |h| && Idle(h[..j], limit) && RunFrom(h, j, |h|, limit)
  }

  ghost predicate Open(h: seq<Fragment>, j: nat, limit: int) {
    j < |h| && Idle(h[..j], limit) && RunFrom(h, j, |h|, limit)
  }

  /** The last fragment of h ends a run whose FIR, at j, arrived while idle. */
  ghost predicate Completes(h: seq<Fragment>, j: nat, limit: int) {
    h != [] && j < |h| && Idle(h[..j], limit) && RunFrom(h, j, |h| - 1, limit) && h[|h| - 1].fin
  }

  /** The fragment that a run from j amounts to. */
  function Joined(h: seq<Fragment>, j: nat): Fragment
    requires j < |h|
  {
    var run := h[j..];
    Fragment(true, true, AsksConfirm(run), h[j].uns, h[j].sequence, h[j].function_, Indications(run), Objects(run))
  }

  function After(limit: int, h: seq<Fragment>): Reassembly
    decreases |h|
  {
    if h == [] then NewReassembly(limit) else Push(After(limit, h[..|h| - 1]), h[|h| - 1]).0
  }

  function LastResult(limit: int, h: seq<Fragment>): PushResult
    requires h != []
  {
    Push(After(limit, h[..|h| - 1]), h[|h| - 1]).1
  }

  /** What a state says about the history that led to it. */
  ghost predicate Matches(r: Reassembly, h: seq<Fragment>, limit: int) {
    && r.maximumObjects == limit
    && (r.active <==> !Idle(h, limit))
    && (!r.active ==> r == NewReassembly(limit))
    && (forall j: nat :: Open(h, j, limit) ==>
          j < |h| && Joined(h, j) == Fragment(true, true, r.confirm, r.unsolicited, r.firstSequence, r.function_,
                                              r.iin, r.objects)
          && r.nextSequence == NextSeq(h[|h| - 1].sequence))
  }

  lemma JoinedExtends(h: seq<Fragment>, g: Fragment, j: nat)
    requires j < |h|
    ensures Joined(h + [g], j) == Joined(h, j).(con := Joined(h, j).con || g.con,
                                                iin := Or(Joined(h, j).iin, g.iin),
                                                objects := Joined(h, j).objects + g.objects)
  {
    hide Or;
    var run := h[j..];
    var longer := run + [g];
    assert (h + [g])[j..] == longer && longer[..|run|] == run && longer[|run|] == g;
    assert AsksConfirm(longer) == (AsksConfirm(run) || g.con) by {
      assert forall k :: 0 <= k < |run| ==> longer[k] == run[k];
      if AsksConfirm(run) {
        var k :| 0 <= k < |run| && run[k].con;
        assert longer[k].con;
      }
    }
  }

  lemma ChainExtends(h: seq<Fragment>, g: Fragment, j: nat)
    requires j < |h|
    ensures Chain(h + [g], j) <==> Chain(h, j) && Follows(g, h[|h| - 1], h[j])
  {
    hide Follows;
    var all := h + [g];
    if Chain(all, j) {
      assert all[|h|] == g && all[|h| - 1] == h[|h| - 1];
      forall k | j < k < |h|
        ensures Follows(h[k], h[k - 1], h[j])
      {
        assert all[k] == h[k] && all[k - 1] == h[k - 1];
      }
    }
    if Chain(h, j) && Follows(g, h[|h| - 1], h[j]) {
      forall k | j < k < |all|
        ensures Follows(all[k], all[k - 1], all[j])
      {
        if k < |h| {
          assert Follows(h[k], h[k - 1], h[j]);
        }
      }
    }
  }

  lemma RunExtends(h: seq<Fragment>, g: Fragment, j: nat, limit: int)
    requires j < |h|
    ensures RunFrom(h + [g], j, |h|, limit) <==>
      RunFrom(h, j, |h|, limit) && Follows(g, h[|h| - 1], h[j]) && |Objects(h[j..])| + |g.objects| <= limit
    ensures (h + [g])[..j] == h[..j]
    ensures Joined(h + [g], j) == Joined(h, j).(con := Joined(h, j).con || g.con,
                                                iin := Or(Joined(h, j).iin, g.iin),
                                                objects := Joined(h, j).objects + g.objects)
  {
    JoinedExtends(h, g, j);
    ChainExtends(h, g, j);
    hide Follows, Or, Chain, Indications, AsksConfirm;
    assert (h + [g])[j..] == h[j..] + [g];
    assert |Objects((h + [g])[j..])| == |Objects(h[j..])| + |g.objects|;
    if RunFrom(h + [g], j, |h|, limit) {
      assert forall k :: j <= k < |h| ==> (h + [g])[k] == h[k];
    }
  }

  lemma OrZero(x: u16)
    ensures Or(0, x) == x
  {
  }

  lemma RunStarts(h: seq<Fragment>, g: Fragment, limit: int)
    ensures RunFrom(h + [g], |h|, |h|, limit) <==> g.fir && g.sequence <= SEQ_MASK && |g.objects| <= limit
    ensures (h + [g])[..|h|] == h
    ensures Joined(h + [g], |h|) == g.(fir := true, fin := true)
  {
    hide Or, Follows;
    OrZero(g.iin);
    var all := h + [g];
    assert all[|h|..] == [g] && [g][..0] == [];
    assert Objects([g]) == g.objects && Indications([g]) == g.iin by {
      assert Objects([]) == [] && Indications([]) == 0;
      assert [] + g.objects == g.objects;
    }
    assert AsksConfirm([g]) == g.con by {
      if g.con {
        assert [g][0].con;
      }
    }
  }

  lemma RunSplit(h: seq<Fragment>, g: Fragment, j: nat, limit: int)
    ensures RunFrom(h + [g], j, |h| + 1, limit) <==> RunFrom(h + [g], j, |h|, limit) && !g.fin
    ensures RunFrom(h + [g], j, |h|, limit) ==> j <= |h|
  {
    hide Follows;
    assert (h + [g])[|h|] == g;
  }

  lemma RunShape(h: seq<Fragment>, i: nat, n: nat, k: nat, limit: int)
    requires RunFrom(h, i, n, limit)
    ensures i < |h| && h[i].fir
    ensures i < k < |h| ==> !h[k].fir
  {
    if i < k < |h| {
      assert Follows(h[k], h[k - 1], h[i]);
    }
  }

  lemma OneOpenRun(h: seq<Fragment>, i: nat, j: nat, m: nat, n: nat, limit: int)
    requires RunFrom(h, i, m, limit) && RunFrom(h, j, n, limit)
    ensures i == j
  {
    hide RunFrom;
    RunShape(h, i, m, j, limit);
    RunShape(h, j, n, i, limit);
  }

  /** A run that g, coming after h, takes part in; whether it ends there is up to g's FIN. */
  ghost predicate Candidate(h: seq<Fragment>, g: Fragment, j: nat, limit: int) {
    j <= |h| && Idle((h + [g])[..j], limit) && RunFrom(h + [g], j, |h|, limit)
  }

  lemma CandidateMeans(h: seq<Fragment>, g: Fragment, j: nat, limit: int)
    ensures Open(h + [g], j, limit) <==> Candidate(h, g, j, limit) && !g.fin
    ensures Completes(h + [g], j, limit) <==> Candidate(h, g, j, limit) && g.fin
    ensures j < |h| && Candidate(h, g, j, limit) ==> Open(h, j, limit)
    ensures j == |h| && Candidate(h, g, j, limit) ==> Idle(h, limit)
  {
    hide Follows, Idle, RunFrom;
    RunSplit(h, g, j, limit);
    assert (h + [g])[|h|] == g;
    if j < |h| {
      RunExtends(h, g, j, limit);
    } else if j == |h| {
      assert (h + [g])[..j] == h;
    }
  }

  lemma NextSeqSmall(sequence: byte)
    ensures NextSeq(sequence) <= SEQ_MASK
  {
  }

  /** A push succeeds exactly when the new fragment takes part in a run, and then it holds that run. */
  lemma PushCandidate(r: Reassembly, h: seq<Fragment>, g: Fragment, limit: int) returns (taken: bool, j: nat)
    requires Matches(r, h, limit) && limit >= 1
    ensures taken ==> Candidate(h, g, j, limit) && var joined := Joined(h + [g], j);
      if g.fin then Push(r, g) == (NewReassembly(limit), Ok(Some(joined)))
      else Push(r, g) == (Reassembly(limit, true, joined.sequence, NextSeq(g.sequence), joined.function_, joined.uns,
                                     joined.con, joined.iin, joined.objects), Ok(None))
    ensures !taken ==> Push(r, g).1.Err? && Push(r, g).0 == NewReassembly(limit)
    ensures !taken ==> forall i: nat :: !Candidate(h, g, i, limit)
  {
    hide Or, Idle, RunFrom, NextSeq;
    if r.active {
      IdleMeans(h, limit);
      j :| Open(h, j, limit);
      NextSeqSmall(h[|h| - 1].sequence);
      RunExtends(h, g, j, limit);
      OpenShape(h, j, limit);
      taken := Follows(g, h[|h| - 1], h[j]) && |Objects(h[j..])| + |g.objects| <= limit;
      if !taken {
        forall i: nat
          ensures !Candidate(h, g, i, limit)
        {
          if Candidate(h, g, i, limit) {
            CandidateMeans(h, g, i, limit);
            OneOpenRun(h, i, j, |h|, |h|, limit);
          }
        }
      }
    } else {
      j := |h|;
      RunStarts(h, g, limit);
      OrZero(g.iin);
      assert [] + g.objects == g.objects;
      taken := g.fir && g.sequence <= SEQ_MASK && |g.objects| <= limit;
      forall i: nat | i < |h|
        ensures !Candidate(h, g, i, limit)
      {
        CandidateMeans(h, g, i, limit);
        IdleMeans(h, limit);
      }
    }
  }

  lemma OpenShape(h: seq<Fragment>, j: nat, limit: int)
    requires Open(h, j, limit)
    ensures j < |h| && Idle(h[..j], limit) && RunFrom(h, j, |h|, limit)
  {
  }

  lemma IdleMeans(h: seq<Fragment>, limit: int)
    ensures Idle(h, limit) <==> !exists j: nat :: Open(h, j, limit)
  {
    hide RunFrom;
    if !Idle(h, limit) {
      var j: nat :| j < |h| && Idle(h[..j], limit) && RunFrom(h, j, |h|, limit);
      assert Open(h, j, limit);
    }
  }

  lemma PushMatches(r: Reassembly, h: seq<Fragment>, g: Fragment, limit: int)
    requires Matches(r, h, limit) && limit >= 1
    ensures Matches(Push(r, g).0, h + [g], limit)
    ensures forall p :: Push(r, g).1 == Ok(Some(p)) <==>
      exists j: nat :: Completes(h + [g], j, limit) && p == Joined(h + [g], j)
  {
    var all := h + [g];
    assert all[|all| - 1] == g;
    var taken, j := PushCandidate(r, h, g, limit);
    hide Or, NextSeq, Idle, RunFrom, Push, Joined, Candidate, Open, Completes;
    forall i: nat
      ensures Open(all, i, limit) <==> Candidate(h, g, i, limit) && !g.fin
      ensures Completes(all, i, limit) <==> Candidate(h, g, i, limit) && g.fin
      ensures taken && Candidate(h, g, i, limit) ==> i == j
    {
      CandidateMeans(h, g, i, limit);
      if taken && Candidate(h, g, i, limit) {
        CandidateUnique(h, g, i, j, limit);
      }
    }
    IdleMeans(all, limit);
  }

  lemma CandidateUnique(h: seq<Fragment>, g: Fragment, i: nat, j: nat, limit: int)
    requires Candidate(h, g, i, limit) && Candidate(h, g, j, limit)
    ensures i == j
  {
    OneOpenRun(h + [g], i, j, |h|, |h|, limit);
  }

  lemma {:induction false} AfterMatches(limit: int, h: seq<Fragment>)
    requires limit >= 1
    ensures Matches(After(limit, h), h, limit)
    decreases |h|
  {
    hide Push, NextSeq, Follows, RunFrom;
    if h != [] {
      var before, g := h[..|h| - 1], h[|h| - 1];
      AfterMatches(limit, before);
      PushMatches(After(limit, before), before, g, limit);
      assert h == before + [g];
    }
  }

  /**
   * For every history of arbitrary fragments: the last push completes with p exactly when p joins a run whose FIR
   * arrived while idle, whose later fragments carry no FIR, the same function and UNS and consecutive numbers mod
   * 16, that fits the limit and that meets its first FIN now.
   */
  lemma ReassemblyIsHistory(limit: int, h: seq<Fragment>, p: Fragment)
    requires limit >= 1 && h != []
    ensures LastResult(limit, h) == Ok(Some(p)) <==>
      exists j: nat :: Completes(h, j, limit) && p == Joined(h, j)
  {
    hide Push, Completes, Matches, Joined;
    var before, g := h[..|h| - 1], h[|h| - 1];
    assert h == before + [g];
    AfterMatches(limit, before);
    PushMatches(After(limit, before), before, g, limit);
  }

  /** The open run of h is met by a fragment with the number that comes next. */
  ghost predicate Meets(h: seq<Fragment>, g: Fragment, limit: int, j: nat) {
    Open(h, j, limit) && j < |h| && !g.fir && g.sequence == NextSeq(h[|h| - 1].sequence)
  }

  /** It also carries the run's function; and its UNS bit. */
  ghost predicate MeetsFunction(h: seq<Fragment>, g: Fragment, limit: int, j: nat) {
    Meets(h, g, limit, j) && g.function_ == h[j].function_
  }

  ghost predicate MeetsAll(h: seq<Fragment>, g: Fragment, limit: int, j: nat) {
    MeetsFunction(h, g, limit, j) && g.uns == h[j].uns
  }

  /** The answers that refuse g after h, in the order of the checks. */
  ghost predicate Refusals(h: seq<Fragment>, g: Fragment, limit: int, r: PushResult) {
    && r != Err(BadMaximum)
    && (r == Err(BadSequence) <==> g.sequence > 15)
    && (r == Err(RepeatedFir) <==> g.sequence <= 15 && g.fir && !Idle(h, limit))
    && (r == Err(NotStarted) <==> g.sequence <= 15 && !g.fir && Idle(h, limit))
    && (r == Err(OutOfSequence) <==>
          g.sequence <= 15 && !g.fir && !Idle(h, limit) && !exists j: nat :: Meets(h, g, limit, j))
    && (r == Err(FunctionChanged) <==>
          (exists j: nat :: Meets(h, g, limit, j)) && !exists j: nat :: MeetsFunction(h, g, limit, j))
    && (r == Err(UnsolicitedChanged) <==>
          (exists j: nat :: MeetsFunction(h, g, limit, j)) && !exists j: nat :: MeetsAll(h, g, limit, j))
    && (r == Err(LimitExceeded) <==>
          (g.fir && g.sequence <= 15 && Idle(h, limit) && |g.objects| > limit)
          || exists j: nat :: MeetsAll(h, g, limit, j) && |Objects(h[j..])| + |g.objects| > limit)
  }

  lemma RefusalsIdle(h: seq<Fragment>, g: Fragment, limit: int)
    requires limit >= 1 && Idle(h, limit)
    ensures Refusals(h, g, limit, Push(NewReassembly(limit), g).1)
  {
    hide Or, Idle, Open, NextSeq;
    IdleMeans(h, limit);
  }

  lemma RefusalsOpen(h: seq<Fragment>, g: Fragment, limit: int, r: Reassembly, j: nat)
    requires limit >= 1 && Matches(r, h, limit) && r.active && Open(h, j, limit) && j < |h|
    ensures Refusals(h, g, limit, Push(r, g).1)
  {
    hide Or, Idle, Open, NextSeq, AsksConfirm, Indications, Objects;
    NextSeqSmall(h[|h| - 1].sequence);
    OnlyRun(h, limit, j);
    assert Joined(h, j).objects == Objects(h[j..]) == r.objects;
    assert Meets(h, g, limit, j) <==> !g.fir && g.sequence == r.nextSequence;
    assert MeetsFunction(h, g, limit, j) <==> Meets(h, g, limit, j) && g.function_ == r.function_;
    assert MeetsAll(h, g, limit, j) <==> MeetsFunction(h, g, limit, j) && g.uns == r.unsolicited;
  }

  lemma OnlyRun(h: seq<Fragment>, limit: int, j: nat)
    requires Open(h, j, limit)
    ensures forall i: nat :: Open(h, i, limit) ==> i == j
  {
    forall i: nat | Open(h, i, limit)
      ensures i == j
    {
      OneOpenRun(h, i, j, |h|, |h|, limit);
    }
  }

  /** Why a fragment is refused, for every history. */
  lemma {:induction false} ErrorsAreHistory(limit: int, h: seq<Fragment>, g: Fragment)
    requires limit >= 1
    ensures Refusals(h, g, limit, LastResult(limit, h + [g]))
  {
    hide Or, Idle, Open, NextSeq, After, Push, Refusals;
    AfterMatches(limit, h);
    IdleMeans(h, limit);
    assert (h + [g])[..|h|] == h && (h + [g])[|h|] == g;
    var r := After(limit, h);
    if r.active {
      var j: nat :| Open(h, j, limit);
      OpenShape(h, j, limit);
      RefusalsOpen(h, g, limit, r, j);
    } else {
      RefusalsIdle(h, g, limit);
    }
  }

  /** An idle reassembler holds empty accumulators, after every history. */
  lemma IdleIsEmpty(limit: int, h: seq<Fragment>)
    requires !After(limit, h).active
    ensures After(limit, h) == NewReassembly(limit)
  {
    if limit >= 1 {
      AfterMatches(limit, h);
    } else {
      BadLimitStuck(limit, h);
    }
  }

  lemma {:induction false} BadLimitStuck(limit: int, h: seq<Fragment>)
    requires limit < 1
    ensures After(limit, h) == NewReassembly(limit)
    decreases |h|
  {
    if h != [] {
      BadLimitStuck(limit, h[..|h| - 1]);
    }
  }
}
