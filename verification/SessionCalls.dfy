/** When a single ReceiveApplication call returns, and what. */
module SessionCalls {
  import opened Bytes
  import LinkState
  import opened LinkChannel
  import Transport
  import AppFragment
  import opened Session
  import opened EndToEnd
  import opened SessionReceive

  type CallResult = Result<Fragment, SessionError>

  /**
   * What a payload makes a call return, if it makes it return: the error of the layer that refuses it, a confirmation
   * that could not be written, or the complete fragment.
   */
  function Stop(i: Input, outbox: seq<bool>, payload: Payload): Option<CallResult> {
    var pushed := Transport.Push(i.transport, payload).1;
    if pushed.Err? then Some(Err(TransportFailure(pushed.error)))
    else if pushed.value.None? then None
    else
      var decoded := AppFragment.DecodeStrictFragment(pushed.value.value, i.maximum);
      if decoded.Err? then Some(Err(ApplicationFailure(decoded.error)))
      else if decoded.value.con && (outbox == [] || !outbox[0]) then Some(Err(LinkError(WriteFailed)))
      else
        var joined := AppFragment.Push(i.application, decoded.value.(con := false)).1;
        if joined.Err? then Some(Err(ApplicationFailure(joined.error)))
        else if joined.value.None? then None
        else Some(Ok(joined.value.value))
  }

  /** The first payload that makes a call return, and the result. */
  function FirstStop(i: Input, outbox: seq<bool>, payloads: seq<Payload>): Option<(nat, CallResult)>
    decreases |payloads|
  {
    if payloads == [] then None
    else
      var stop := Stop(i, outbox, payloads[0]);
      if stop.Some? then Some((0, stop.value))
      else
        var (i1, o1, _) := Accept(i, outbox, payloads[0]);
        match FirstStop(i1, o1, payloads[1..])
        case None => None
        case Some((k, r)) => Some((k + 1, r))
  }

  /** The call returned with the last payload it took, and with none before; or the link failed, and with none. */
  predicate Returned(i: Input, outbox: seq<bool>, payloads: seq<Payload>, r: CallResult) {
    match FirstStop(i, outbox, payloads)
    case None => r.Err? && r.error.LinkError?
    case Some((k, result)) => k == |payloads| - 1 && r == result
  }

  lemma ConfirmFails(c: Conn, s: State, f: Fragment, maximumRetries: nat)
    requires f.sequence <= 15 && s.input.maximum >= 2
    ensures var r := Confirm(c, s, f, maximumRetries).2;
      r.Err? <==> f.con && (c.outbox == [] || !c.outbox[0])
    ensures Confirm(c, s, f, maximumRetries).2.Err? ==> Confirm(c, s, f, maximumRetries).2 == Err(LinkError(WriteFailed))
  {
    hide Outgoing, Confirmation;
    if f.con {
      ConfirmationOutgoing(f, s.nextTransport, s.input.maximum);
      var segment := ConfirmationSegment(f, s.nextTransport);
      assert [segment][1..] == [];
      var (c1, r) := SendUnconfirmed(c, segment);
      assert SendPayloads(c1, [], maximumRetries, false) == (c1, Ok(()));
    }
  }

  /** What follows a payload stops the call as said. */
  lemma TakenStops(c: Conn, s: State, payload: Payload, maximumRetries: nat)
    ensures TakeReceived(c, s, payload, maximumRetries).2 == Stop(s.input, c.outbox, payload)
  {
    hide Transport.Push, AppFragment.Push, AppFragment.DecodeStrictFragment, Confirm;
    var (t, pushed) := Transport.Push(s.input.transport, payload);
    if pushed.Ok? && pushed.value.Some? && AppFragment.DecodeStrictFragment(pushed.value.value, s.input.maximum).Ok? {
      DecodedSequence(pushed.value.value, s.input.maximum);
      ConfirmFails(c, s.(input := s.input.(transport := t)),
                   AppFragment.DecodeStrictFragment(pushed.value.value, s.input.maximum).value, maximumRetries);
    }
  }

  lemma {:induction false} TakenAppend(s: LinkState.State, a: seq<Read>, b: seq<Read>)
    ensures var (t, first) := Taken(s, a);
      var (u, rest) := Taken(t, b);
      Taken(s, a + b) == (u, first + rest)
    decreases |a|
  {
    hide LinkState.Handle;
    if a == [] {
      assert a + b == b && [] + Taken(s, b).1 == Taken(s, b).1;
    } else {
      assert (a + b)[0] == a[0] && (a + b)[1..] == a[1..] + b;
      var t := if a[0].Arrived? then LinkState.Handle(s, a[0].frame).0 else s;
      TakenAppend(t, a[1..], b);
      if a[0].Arrived? {
        var r := LinkState.Handle(s, a[0].frame).1;
        var x, y := if Unwritten(a[0], r) then [] else DataOf(r), Taken(t, a[1..]).1;
        var z := Taken(Taken(t, a[1..]).0, b).1;
        assert x + (y + z) == (x + y) + z;
      }
    }
  }

  lemma {:induction false} ReceiveKeepsOutbox(c: Conn)
    ensures Receive(c).0.outbox == c.outbox
    decreases |c.inbox|
  {
    hide LinkState.Handle, Receive;
    if c.inbox == [] {
      NothingArrives(c);
    } else {
      ReceiveFirst(c);
      if c.inbox[0].Arrived? && ReadsOn(c.st, c.inbox[0]) {
        ReceiveKeepsOutbox(Answered(c));
      }
    }
  }

  lemma ReturnedAtOnce(i: Input, outbox: seq<bool>, payload: Payload, r: CallResult)
    requires Stop(i, outbox, payload) == Some(r)
    ensures Returned(i, outbox, [payload], r)
  {
    hide Stop, Accept;
  }

  lemma ReturnedLater(i: Input, outbox: seq<bool>, payload: Payload, rest: seq<Payload>, r: CallResult)
    requires Stop(i, outbox, payload).None?
    requires var (i1, o1, _) := Accept(i, outbox, payload); Returned(i1, o1, rest, r)
    ensures Returned(i, outbox, [payload] + rest, r)
  {
    hide Stop, Accept;
    assert ([payload] + rest)[1..] == rest;
  }

  /**
   * For every connection and session: a call takes payloads, in order, and returns with the first one that completes an
   * application fragment, is refused by a layer, or whose confirmation cannot be written; or the link fails first.
   */
  lemma {:induction false} CallReturns(c: Conn, s: State, maximumRetries: nat) returns (used: seq<Read>)
    ensures var (c', s', r) := ReceiveLoop(c, s, maximumRetries);
      c.inbox == used + c'.inbox && Returned(s.input, c.outbox, Taken(c.st, used).1, r)
    decreases |c.inbox|
  {
    hide LinkState.Handle, Receive, TakeReceived, Taken, Stop, Accept, Returned;
    used := ReceiveAbsorbs(c);
    ReceiveKeepsOutbox(c);
    var (c1, received) := Receive(c);
    if received.Err? {
      LinkFails(s.input, c.outbox, LinkError(received.error));
      TakenBy(c.st, used, c1.st, received);
    } else {
      TakenBy(c.st, used, c1.st, received);
      TakenStops(c1, s, received.value, maximumRetries);
      TakeReceivedAccepts(c1, s, received.value, maximumRetries);
      var (c2, s2, done) := TakeReceived(c1, s, received.value, maximumRetries);
      if done.None? {
        var more := CallReturns(c2, s2, maximumRetries);
        ReturnedLater(s.input, c.outbox, received.value, Taken(c2.st, more).1,
                      ReceiveLoop(c2, s2, maximumRetries).2);
        TakenAppend(c.st, used, more);
        var c' := ReceiveLoop(c2, s2, maximumRetries).0;
        assert c.inbox == (used + more) + c'.inbox;
        used := used + more;
      } else {
        ReturnedAtOnce(s.input, c.outbox, received.value, done.value);
      }
    }
  }

  lemma LinkFails(i: Input, outbox: seq<bool>, e: SessionError)
    requires e.LinkError?
    ensures Returned(i, outbox, [], Err(e))
  {
    hide Stop, Accept;
  }

  lemma TakenBy(s: LinkState.State, used: seq<Read>, s': LinkState.State, r: Result<Payload, Failure>)
    requires ReceiveVerdict(s, used, s', r)
    ensures Taken(s, used) == (s', if r.Ok? then [r.value] else [])
  {
    hide LinkState.Handle, Taken, Lost;
  }
}
