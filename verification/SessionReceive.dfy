/**
 * Repeated ReceiveApplication calls return what the payloads amount to whose answer was written. A payload that was
 * handled but could not be answered is gone: its repeat is a duplicate.
 */
module SessionReceive {
  import opened Bytes
  import opened Frame
  import LinkState
  import opened LinkChannel
  import opened LinkAttempts
  import Transport
  import AppFragment
  import opened Session
  import opened EndToEnd

  /** ReceiveApplication again and again until everything that arrived is read; a failing call returns nothing. */
  function ReceiveEach(c: Conn, s: State, maximumRetries: nat): (Conn, State, seq<Fragment>)
    requires s.input.maximum >= 1
    decreases |c.inbox|
  {
    if c.inbox == [] then (c, s, [])
    else
      var (c1, s1, r) := ReceiveApplication(c, s, maximumRetries);
      var (c2, s2, more) := ReceiveEach(c1, s1, maximumRetries);
      (c2, s2, (if r.Ok? then [r.value] else []) + more)
  }

  // ---------------------------------------------------------------- confirming

  /** The control octet of the confirmation of a fragment: first and final, with its UNS bit and its number. */
  function ConfirmationControl(f: Fragment): byte {
    0xC0 | (if f.uns then 0x10 else 0) | f.sequence
  }

  /** The octets of a confirmation: that control octet and function zero. */
  lemma ConfirmationOctets(f: Fragment, maximum: int)
    requires f.sequence <= 15 && maximum >= 2
    ensures AppFragment.EncodeStrictFragment(Confirmation(f), maximum) == Ok([ConfirmationControl(f), 0x00])
  {
    assert !AppFragment.IsResponse(0);
    ConfirmationBits(f);
    hide AppFragment.Control;
    assert [AppFragment.Control(Confirmation(f)), 0] + [] + [] == [ConfirmationControl(f), 0x00];
  }

  lemma ConfirmationBits(f: Fragment)
    requires f.sequence <= 15
    ensures AppFragment.Control(Confirmation(f)) == ConfirmationControl(f)
  {
  }

  /** The one transport segment that carries a confirmation, numbered next. */
  function ConfirmationSegment(f: Fragment, next: byte): Payload {
    [0xC0 | (next & 0x3F), ConfirmationControl(f), 0x00]
  }

  /** A confirmation goes out as a single segment, and takes one number. */
  lemma ConfirmationOutgoing(f: Fragment, next: byte, maximum: int)
    requires f.sequence <= 15 && maximum >= 2
    ensures Outgoing(Confirmation(f), next, maximum) == Ok(([ConfirmationSegment(f, next)], (next + 1) & 0x3F))
  {
    hide AppFragment.EncodeStrictFragment, Confirmation, ConfirmationControl;
    ConfirmationOctets(f, maximum);
    OneSegment(next, [ConfirmationControl(f), 0x00]);
    assert [0xC0 | (next & 0x3F)] + [ConfirmationControl(f), 0x00] == ConfirmationSegment(f, next);
  }

  lemma OneSegment(next: byte, chunk: seq<byte>)
    requires |chunk| == 2
    ensures Transport.SegmentStrict(chunk, next, Frame.MAX_DATA_SIZE)
         == Ok(([[0xC0 | (next & 0x3F)] + chunk], (next + 1) & 0x3F))
  {
    OneNumber(next);
    hide Transport.SeqOf, Transport.HeaderFor, Transport.NextSeq;
    var current := Transport.SeqOf(next);
    assert Transport.Segments(chunk, current, 249, true) == [[Transport.HeaderFor(current, true, true)] + chunk];
    assert Transport.Advance(current, 1) == Transport.Advance(Transport.NextSeq(current), 0);
  }

  lemma OneNumber(next: byte)
    ensures Transport.HeaderFor(Transport.SeqOf(next), true, true) == 0xC0 | (next & 0x3F)
    ensures Transport.NextSeq(Transport.SeqOf(next)) == (next + 1) & 0x3F
  {
  }

  /** Confirming succeeds exactly when no confirmation is due or the next write works. */
  lemma ConfirmWrites(c: Conn, s: State, f: Fragment, maximumRetries: nat)
    requires f.sequence <= AppFragment.SEQ_MASK && s.input.maximum >= 2
    ensures var (c', s', r) := Confirm(c, s, f, maximumRetries);
      && (r.Ok? <==> GoesOn(f, c.outbox)) && c'.outbox == AfterConfirming(f, c.outbox)
      && Responses(c'.log) == Responses(c.log)
  {
    hide Outgoing, Confirmation, Responses;
    ConfirmationOutgoing(f, s.nextTransport, s.input.maximum);
    var payloads := Outgoing(Confirmation(f), s.nextTransport, s.input.maximum).value.0;
    assert payloads[1..] == [];
    var (c1, r) := SendUnconfirmed(c, payloads[0]);
    assert r.Ok? <==> c.outbox != [] && c.outbox[0];
    assert c1.outbox == if c.outbox == [] then [] else c.outbox[1..];
    ResponsesSnoc(c.log, Datagram(LinkState.Unconfirmed(c.st, payloads[0]).value));
    assert SendPayloads(c1, payloads[1..], maximumRetries, false) == (c1, Ok(()));
    assert SendPayloads(c, payloads, maximumRetries, false) == (c1, r);
  }

  lemma DecodedSequence(data: seq<byte>, maximum: int)
    requires AppFragment.DecodeStrictFragment(data, maximum).Ok?
    ensures maximum >= 2 && AppFragment.DecodeStrictFragment(data, maximum).value.sequence <= AppFragment.SEQ_MASK
  {
    AppFragment.EncodeDecoded(data, maximum);
  }

  /** What follows a received payload is what Accept says, whatever the confirming writes do. */
  lemma TakeReceivedAccepts(c: Conn, s: State, payload: Payload, maximumRetries: nat)
    ensures var (c', s', done) := TakeReceived(c, s, payload, maximumRetries);
      && (s'.input, c'.outbox, if done.Some? && done.value.Ok? then [done.value.value] else [])
         == Accept(s.input, c.outbox, payload)
      && Responses(c'.log) == Responses(c.log)
  {
    hide Transport.Push, AppFragment.Push, AppFragment.DecodeStrictFragment, Confirm, Responses, GoesOn, AfterConfirming;
    var (t, pushed) := Transport.Push(s.input.transport, payload);
    if pushed.Ok? && pushed.value.Some? {
      var decoded := AppFragment.DecodeStrictFragment(pushed.value.value, s.input.maximum);
      if decoded.Ok? {
        DecodedSequence(pushed.value.value, s.input.maximum);
        ConfirmWrites(c, s.(input := s.input.(transport := t)), decoded.value, maximumRetries);
      }
    }
  }

  // ---------------------------------------------------------------- all reads

  lemma AnsweredLog(c: Conn)
    requires c.inbox != [] && c.inbox[0].Arrived?
    ensures Responses(Answered(c).log)
         == Responses(c.log) + AnswerOf(c.inbox[0], LinkState.Handle(c.st, c.inbox[0].frame).1)
  {
    hide LinkState.Handle, Responses;
    var r := LinkState.Handle(c.st, c.inbox[0].frame).1;
    if r.Ok? && r.value.response.Some? && c.inbox[0].answered {
      ResponsesSnoc(c.log, Response(r.value.response.value));
    } else {
      assert Responses(c.log) + [] == Responses(c.log);
    }
  }

  lemma SameLoop(c: Conn, s: State, c': Conn, s': State, maximumRetries: nat)
    requires s.input.maximum == s'.input.maximum >= 1 && |c'.inbox| < |c.inbox|
    requires ReceiveLoop(c, s, maximumRetries) == ReceiveLoop(c', s', maximumRetries)
    ensures ReceiveEach(c, s, maximumRetries) == ReceiveEach(c', s', maximumRetries)
  {
    hide TakeReceived, Receive;
    if c'.inbox == [] {
      EmptyLoop(c', s', maximumRetries);
      assert ReceiveEach(c', s', maximumRetries) == (c', s', []);
      assert [] + ReceiveEach(c', s', maximumRetries).2 == [];
    }
  }

  lemma EmptyLoop(c: Conn, s: State, maximumRetries: nat)
    requires c.inbox == []
    ensures ReceiveLoop(c, s, maximumRetries) == (c, s, Err(LinkError(ReadFailed)))
  {
  }

  /** A call that ends with an error after the given connection and state, in front of the later calls. */
  lemma FailedCall(c: Conn, s: State, c1: Conn, s1: State, maximumRetries: nat)
    requires s.input.maximum >= 1 && c.inbox != [] && |c1.inbox| < |c.inbox| && s1.input.maximum == s.input.maximum
    requires ReceiveLoop(c, s, maximumRetries).0 == c1 && ReceiveLoop(c, s, maximumRetries).1 == s1
    requires ReceiveLoop(c, s, maximumRetries).2.Err?
    ensures ReceiveEach(c, s, maximumRetries) == ReceiveEach(c1, s1, maximumRetries)
  {
    hide TakeReceived, Receive, ReceiveLoop;
    assert [] + ReceiveEach(c1, s1, maximumRetries).2 == ReceiveEach(c1, s1, maximumRetries).2;
  }

  /** What repeated receiving from c and s comes to: the result, the state, the writes used and the answers written. */
  predicate Receives(c: Conn, s: State, maximumRetries: nat)
    requires s.input.maximum >= 1
  {
    var (c', s', fragments) := ReceiveEach(c, s, maximumRetries);
    && (s'.input, c'.outbox, fragments) == AcceptAll(s.input, c.outbox, Taken(c.st, c.inbox).1)
    && c'.st == Taken(c.st, c.inbox).0
    && Responses(c'.log) == Responses(c.log) + Answers(c.st, c.inbox)
  }

  /**
   * For every connection and session, whatever is read and whichever writes fail: calling ReceiveApplication until the
   * input is used up returns exactly what the payloads amount to whose answer was written, as the confirmations allow;
   * and the answers written are exactly those to the answered reads.
   */
  lemma {:induction false} ReceiveEachAccepts(c: Conn, s: State, maximumRetries: nat)
    requires s.input.maximum >= 1
    ensures Receives(c, s, maximumRetries)
    decreases |c.inbox|, 1
  {
    hide LinkState.Handle, Receive, TakeReceived, Accept, Responses, ReceiveLoop;
    if c.inbox == [] {
      assert Responses(c.log) + [] == Responses(c.log);
    } else if !c.inbox[0].Arrived? {
      ReceiveFirst(c);
      var c1 := c.(inbox := c.inbox[1..]);
      QuietLoop(c, s, maximumRetries);
      FailedCall(c, s, c1, s, maximumRetries);
      ReceiveEachAccepts(c1, s, maximumRetries);
    } else {
      ReceiveArrived(c, s, maximumRetries);
    }
  }

  lemma QuietLoop(c: Conn, s: State, maximumRetries: nat)
    requires Receive(c).1.Err?
    ensures ReceiveLoop(c, s, maximumRetries) == (Receive(c).0, s, Err(LinkError(Receive(c).1.error)))
  {
    hide Receive;
  }

  lemma {:induction false} ReceiveArrived(c: Conn, s: State, maximumRetries: nat)
    requires s.input.maximum >= 1 && c.inbox != [] && c.inbox[0].Arrived?
    ensures Receives(c, s, maximumRetries)
    decreases |c.inbox|, 0
  {
    hide LinkState.Handle, Receive, TakeReceived, Accept, Responses, ReceiveLoop, ReceiveEach, AcceptAll, Receives;
    var read, c1 := c.inbox[0], Answered(c);
    var r := LinkState.Handle(c.st, read.frame).1;
    ReceiveFirst(c);
    if r.Err? || Unwritten(read, r) {
      QuietLoop(c, s, maximumRetries);
      FailedCall(c, s, c1, s, maximumRetries);
      ReceiveEachAccepts(c1, s, maximumRetries);
      NothingTaken(c, s, maximumRetries);
    } else if r.value.userData == [] {
      LoopGoesOn(c, s, c1, maximumRetries);
      SameLoop(c, s, c1, s, maximumRetries);
      ReceiveEachAccepts(c1, s, maximumRetries);
      NothingTaken(c, s, maximumRetries);
    } else {
      var (c2, s2, done) := TakeReceived(c1, s, r.value.userData, maximumRetries);
      ReceiveEachAccepts(c2, s2, maximumRetries);
      OneTaken(c, s, maximumRetries);
    }
  }

  lemma LoopGoesOn(c: Conn, s: State, c1: Conn, maximumRetries: nat)
    requires Receive(c) == Receive(c1)
    ensures ReceiveLoop(c, s, maximumRetries) == ReceiveLoop(c1, s, maximumRetries)
  {
    hide Receive, TakeReceived;
  }

  /** A first read that gives no payload. */
  lemma NothingTaken(c: Conn, s: State, maximumRetries: nat)
    requires s.input.maximum >= 1 && c.inbox != [] && c.inbox[0].Arrived?
    requires var r := LinkState.Handle(c.st, c.inbox[0].frame).1;
      r.Err? || Unwritten(c.inbox[0], r) || r.value.userData == []
    requires ReceiveEach(c, s, maximumRetries) == ReceiveEach(Answered(c), s, maximumRetries)
    requires Receives(Answered(c), s, maximumRetries)
    ensures Receives(c, s, maximumRetries)
  {
    hide LinkState.Handle, AcceptAll, Responses, ReceiveEach;
    var c1 := Answered(c);
    assert [] + Taken(c1.st, c1.inbox).1 == Taken(c1.st, c1.inbox).1;
    AnsweredLog(c);
    var a, b := AnswerOf(c.inbox[0], LinkState.Handle(c.st, c.inbox[0].frame).1), Answers(c1.st, c1.inbox);
    assert (Responses(c.log) + a) + b == Responses(c.log) + (a + b);
  }

  /** A first read that gives a payload. */
  lemma OneTaken(c: Conn, s: State, maximumRetries: nat)
    requires s.input.maximum >= 1 && c.inbox != [] && c.inbox[0].Arrived?
    requires var r := LinkState.Handle(c.st, c.inbox[0].frame).1;
      r.Ok? && !Unwritten(c.inbox[0], r) && r.value.userData != []
    requires var d := LinkState.Handle(c.st, c.inbox[0].frame).1.value.userData;
      var (c2, s2, done) := TakeReceived(Answered(c), s, d, maximumRetries);
      Receives(c2, s2, maximumRetries)
    ensures Receives(c, s, maximumRetries)
  {
    hide LinkState.Handle, Receive, TakeReceived, Accept, Responses, Answers;
    var r, c1 := LinkState.Handle(c.st, c.inbox[0].frame).1, Answered(c);
    var d := r.value.userData;
    var (c2, s2, done) := TakeReceived(c1, s, d, maximumRetries);
    ReceiveFirst(c);
    TakeReceivedAccepts(c1, s, d, maximumRetries);
    AnsweredLog(c);
    AnswersFirst(c);
    var later := Taken(c1.st, c1.inbox).1;
    assert ([d] + later)[1..] == later;
    var a, b := AnswerOf(c.inbox[0], r), Answers(c1.st, c1.inbox);
    assert (Responses(c.log) + a) + b == Responses(c.log) + (a + b);
    if done.None? {
      SameLoop(c, s, c2, s2, maximumRetries);
      assert [] + ReceiveEach(c2, s2, maximumRetries).2 == ReceiveEach(c2, s2, maximumRetries).2;
    } else if done.value.Err? {
      FailedCall(c, s, c2, s2, maximumRetries);
      assert [] + ReceiveEach(c2, s2, maximumRetries).2 == ReceiveEach(c2, s2, maximumRetries).2;
    }
  }

  lemma AnswersFirst(c: Conn)
    requires c.inbox != [] && c.inbox[0].Arrived?
    ensures Answers(c.st, c.inbox) == AnswerOf(c.inbox[0], LinkState.Handle(c.st, c.inbox[0].frame).1)
                                      + Answers(Answered(c).st, Answered(c).inbox)
  {
    hide LinkState.Handle;
  }
}
