/** What delivery rests on: runs in which the code loses acknowledged data or leaves a request behind. */
module LinkNeeds {
  import opened Bytes
  import opened Frame
  import opened LinkState
  import opened LinkPeers
  import LinkChannel

  predicate InStep(s: State, t: State) {
    Mirrored(s, t) && s.ready && t.ready && s.pending.None? && t.pending.None? && s.nextSendFCB == t.expectedFCB
  }

  predicate Sendable(d: Payload) {
    0 < |d| <= MAX_DATA_SIZE
  }

  /**
   * Without the timing assumption: s retransmits the first payload while its acknowledgement is still in flight.
   * The second acknowledgement is then taken for the second payload, which t has never seen.
   */
  lemma EarlyRetransmissionLosesData(s: State, t: State, first: Payload, second: Payload)
    requires InStep(s, t) && Sendable(first) && Sendable(second)
    ensures
      var (s1, f1) := StartConfirmed(s, first);
      f1.Ok? &&
      var (t1, r1) := Handle(t, f1.value);
      r1.Ok? && r1.value.userData == first && r1.value.response.Some? &&
      var again := Retransmission(s1);
      again.Ok? &&
      var (s2, a1) := Handle(s1, r1.value.response.value);
      a1.Ok? && a1.value.acknowledged &&
      var (t2, r2) := Handle(t1, again.value);
      r2.Ok? && r2.value.userData == [] && r2.value.response.Some? &&
      var (s3, f2) := StartConfirmed(s2, second);
      f2.Ok? &&
      var (s4, a2) := Handle(s3, r2.value.response.value);
      a2.Ok? && a2.value.acknowledged && s4.pending.None?
  {
    hide PrimaryControl, SecondaryControl, Handle;
    var s1 := StartConfirmed(s, first).0;
    HandlesConfirmed(s, t, s.nextSendFCB, first);
    var t1 := t.(expectedFCB := !t.expectedFCB);
    HandlesAck(s1, t);
    HandlesConfirmed(s, t1, s.nextSendFCB, first);
    var s2 := s1.(pending := None, pendingFn := 0, nextSendFCB := !s1.nextSendFCB);
    var s3 := StartConfirmed(s2, second).0;
    HandlesAck(s3, t1);
  }

  /** A reset handshake that loses nothing. */
  function AfterReset(s: State, t: State): (State, State)
    requires Mirrored(s, t) && s.pending.None?
  {
    var (s1, f) := StartReset(s);
    var (t1, r) := Handle(t, f.value);
    HandlesReset(s, t);
    (Handle(s1, r.value.response.value).0, t1)
  }

  /**
   * Starting a reset restores the initiator's send bit but not its expected bit, so the peer's next payload is
   * acknowledged in every case and delivered if and only if the initiator's expected bit was still at its initial
   * value when the reset began.
   */
  lemma ResetKeepsPeerInStepIff(s: State, t: State, d: Payload)
    requires Mirrored(s, t) && s.pending.None? && Sendable(d)
    ensures
      var (s2, t2) := AfterReset(s, t);
      InStep(s2, t2) && t2.ready && s2.expectedFCB == s.expectedFCB &&
      var (t3, g) := StartConfirmed(t2, d);
      g.Ok? &&
      var (s3, r) := Handle(s2, g.value);
      r.Ok? && r.value.response.Some?
      && (r.value.userData == d <==> s.expectedFCB)
      && (r.value.userData == [] <==> !s.expectedFCB)
      && Handle(t3, r.value.response.value).1 == Ok(NO_ACTION.(acknowledged := true))
  {
    hide PrimaryControl, SecondaryControl, Handle;
    var s1 := StartReset(s).0;
    HandlesReset(s, t);
    HandlesAck(s1, t);
    var s2 := s1.(pending := None, pendingFn := 0, ready := true, nextSendFCB := true);
    var t2 := MarkReset(t);
    HandlesConfirmed(t2, s2, true, d);
    HandlesAck(StartConfirmed(t2, d).0, s2);
  }

  /**
   * A reset while the peer has a confirmed request under way: the peer drops its request, the late acknowledgement is
   * an unexpected response, so first is delivered but never acknowledged; and the peer's next payload is acknowledged
   * in every case, but delivered if and only if the receive bit was back at its initial value after first.
   */
  lemma ResetDropsPeersRequest(s: State, t: State, first: Payload, second: Payload)
    requires InStep(t, s) && Sendable(first) && Sendable(second)
    ensures
      var (t1, g) := StartConfirmed(t, first);
      g.Ok? &&
      var (s1, r) := Handle(s, g.value);
      r.Ok? && r.value.userData == first && r.value.response.Some? &&
      var (s2, t2) := AfterReset(s1, t1);
      t2.pending.None? && Handle(t2, r.value.response.value) == (t2, Err(UnexpectedResponse)) &&
      var (t3, h) := StartConfirmed(t2, second);
      h.Ok? &&
      var (s3, q) := Handle(s2, h.value);
      q.Ok? && q.value.response.Some? && (q.value.userData == second <==> s1.expectedFCB)
      && Handle(t3, q.value.response.value).1 == Ok(NO_ACTION.(acknowledged := true))
  {
    hide PrimaryControl, SecondaryControl, Handle, AfterReset;
    var t1 := StartConfirmed(t, first).0;
    HandlesConfirmed(t, s, t.nextSendFCB, first);
    var s1 := s.(expectedFCB := !s.expectedFCB);
    ResetKeepsPeerInStepIff(s1, t1, second);
    ResetLeavesPeer(s1, t1);
    LateAck(AfterReset(s1, t1).1, s);
  }

  lemma ResetLeavesPeer(s: State, t: State)
    requires Mirrored(s, t) && s.pending.None?
    ensures AfterReset(s, t).1 == MarkReset(t)
  {
    hide PrimaryControl, SecondaryControl, Handle;
    HandlesReset(s, t);
  }

  /** An acknowledgement without a request is refused. */
  lemma LateAck(t: State, s: State)
    requires Mirrored(t, s) && t.pending.None?
    ensures Handle(t, SecondaryFrame(s, FN_ACK, false)) == (t, Err(UnexpectedResponse))
  {
    hide SecondaryControl, Flag, Func;
    SecondaryControlBits(s.isMaster, FN_ACK, false);
  }

  /**
   * A Receive whose answer cannot be written has already taken the payload: it fails without returning it, the
   * retransmission is acknowledged as a duplicate, and so the sender succeeds with a payload that no Receive returns.
   */
  lemma UnwrittenAnswerLosesData(s: State, t: State, p: Payload, maximumRetries: nat)
    requires InStep(s, t) && Sendable(p) && maximumRetries >= 1
    ensures
      var (s1, f) := StartConfirmed(s, p);
      f.Ok? &&
      var twice := [LinkChannel.Arrived(f.value, false, true), LinkChannel.Arrived(f.value, true, true)];
      var (c1, r1) := LinkChannel.Receive(LinkChannel.Conn(t, twice, [], [], []));
      var (c2, r2) := LinkChannel.Receive(c1);
      var ack := SecondaryFrame(t, FN_ACK, false);
      && r1 == Err(LinkChannel.WriteFailed) && r2 == Err(LinkChannel.ReadFailed)
      && c2.log == [LinkChannel.Response(ack)] && c2.inbox == []
      && var heard := [LinkChannel.TimedOut, LinkChannel.Arrived(ack, true, true)];
      LinkChannel.SendConfirmed(LinkChannel.Conn(s, heard, [true, true], [], []), p, maximumRetries).1 == Ok(())
  {
    hide PrimaryControl, SecondaryControl, Handle, LinkChannel.Receive, LinkChannel.SendConfirmed;
    var (s1, f) := StartConfirmed(s, p);
    FirstUnanswered(s, t, p, f.value);
    SecondAttemptSucceeds(s1, t, f.value, maximumRetries);
    var heard := [LinkChannel.TimedOut, LinkChannel.Arrived(SecondaryFrame(t, FN_ACK, false), true, true)];
    SendConfirmedStarts(LinkChannel.Conn(s, heard, [true, true], [], []), p, maximumRetries, f.value);
  }

  lemma FirstUnanswered(s: State, t: State, p: Payload, f: StrictFrame)
    requires InStep(s, t) && Sendable(p) && f == PrimaryFrame(s, FN_CONFIRMED, s.nextSendFCB, p)
    ensures
      var twice := [LinkChannel.Arrived(f, false, true), LinkChannel.Arrived(f, true, true)];
      var (c1, r1) := LinkChannel.Receive(LinkChannel.Conn(t, twice, [], [], []));
      var (c2, r2) := LinkChannel.Receive(c1);
      && r1 == Err(LinkChannel.WriteFailed) && r2 == Err(LinkChannel.ReadFailed)
      && c2.log == [LinkChannel.Response(SecondaryFrame(t, FN_ACK, false))] && c2.inbox == []
  {
    hide PrimaryControl, SecondaryControl, Handle, LinkChannel.Receive;
    var first, second := LinkChannel.Arrived(f, false, true), LinkChannel.Arrived(f, true, true);
    var t1 := t.(expectedFCB := !t.expectedFCB);
    HandlesConfirmed(s, t, s.nextSendFCB, p);
    HandlesConfirmed(s, t1, s.nextSendFCB, p);
    var c0 := LinkChannel.Conn(t, [first, second], [], [], []);
    LinkChannel.ReceiveFirst(c0);
    assert c0.inbox[1..] == [second];
    var c1 := LinkChannel.Conn(t1, [second], [], [], []);
    assert LinkChannel.Answered(c0) == c1;
    LinkChannel.ReceiveFirst(c1);
    assert c1.inbox[1..] == [];
    LinkChannel.NothingArrives(LinkChannel.Answered(c1));
  }

  lemma SendConfirmedStarts(c: LinkChannel.Conn, p: Payload, maximumRetries: nat, f: StrictFrame)
    requires StartConfirmed(c.st, p).1 == Ok(f)
    ensures LinkChannel.SendConfirmed(c, p, maximumRetries)
         == LinkChannel.Attempts(c.(st := StartConfirmed(c.st, p).0), f, 0, maximumRetries,
                                 LinkChannel.UntilAcknowledged)
  {
    hide LinkChannel.Attempts, StartConfirmed;
  }

  lemma SecondAttemptSucceeds(s: State, t: State, f: StrictFrame, maximumRetries: nat)
    requires Mirrored(s, t) && s.pending == Some(f) && s.pendingFn == FN_CONFIRMED && maximumRetries >= 1
    ensures
      var heard := [LinkChannel.TimedOut, LinkChannel.Arrived(SecondaryFrame(t, FN_ACK, false), true, true)];
      LinkChannel.Attempts(LinkChannel.Conn(s, heard, [true, true], [], []), f, 0, maximumRetries,
                           LinkChannel.UntilAcknowledged).1 == Ok(())
  {
    hide SecondaryControl, Handle;
    HandlesAck(s, t);
    var ack := LinkChannel.Arrived(SecondaryFrame(t, FN_ACK, false), true, true);
    var heard := [LinkChannel.TimedOut, ack];
    var once := LinkChannel.Conn(s, heard, [true], [LinkChannel.Request(f)], []);
    assert [true, true][1..] == [true] && [] + [LinkChannel.Request(f)] == [LinkChannel.Request(f)];
    var again := once.(inbox := [ack]);
    assert heard[1..] == [ack];
    var twice := again.(outbox := [], log := once.log + [LinkChannel.Request(f)]);
    assert [true][1..] == [] && [ack][1..] == [];
    assert LinkChannel.Wait(twice, f, 1, maximumRetries, LinkChannel.UntilAcknowledged).1 == Ok(());
    assert LinkChannel.Attempts(again, f, 1, maximumRetries, LinkChannel.UntilAcknowledged).1 == Ok(());
    assert LinkChannel.Wait(once, f, 0, maximumRetries, LinkChannel.UntilAcknowledged).1 == Ok(());
  }

  /**
   * A keep-alive that meets the peer's own status request succeeds on it, for answering it counts as a link status;
   * its own request stays pending, and no further transaction can be started.
   */
  lemma KeepAliveEndsOnRequest(s: State, t: State, later: seq<LinkChannel.Read>, writes: seq<bool>, handled: bool,
                               maximumRetries: nat)
    requires Mirrored(s, t) && s.pending.None? && t.pending.None?
    ensures
      var request := StartLinkStatus(t).1;
      request.Ok? &&
      var inbox := [LinkChannel.Arrived(request.value, true, handled)] + later;
      var (c, r) := LinkChannel.KeepAlive(LinkChannel.Conn(s, inbox, [true] + writes, [], []), maximumRetries);
      && r == Ok(()) && c.inbox == later && c.st == StartLinkStatus(s).0 && c.st.pending.Some?
      && StartReset(c.st).1 == Err(RequestPending) && StartLinkStatus(c.st).1 == Err(RequestPending)
  {
    hide PrimaryControl, SecondaryControl, Handle;
    var s1, f := StartLinkStatus(s).0, StartLinkStatus(s).1.value;
    var request := StartLinkStatus(t).1.value;
    HandlesStatus(t, s1);
    var read := LinkChannel.Arrived(request, true, handled);
    var c1 := LinkChannel.Conn(s1, [read] + later, writes, [LinkChannel.Request(f)], []);
    assert ([true] + writes)[1..] == writes && ([read] + later)[1..] == later;
    assert [] + [LinkChannel.Request(f)] == [LinkChannel.Request(f)];
    assert LinkChannel.Wait(c1, f, 0, maximumRetries, LinkChannel.UntilLinkStatus).1 == Ok(());
  }

  /** A frame that has arrived, can be answered, and whose data is accepted. */
  function Come(f: StrictFrame): LinkChannel.Read {
    LinkChannel.Arrived(f, true, true)
  }

  /**
   * A reset that meets one other frame before its acknowledgement. Whatever the frame is, as long as handling it
   * neither fails nor takes the reset away: the reset is written a second time, with no timeout and nothing lost, if
   * and only if the frame is the peer's own counted request, or a negative answer.
   */
  lemma ResetRepeatedIff(s: State, t: State, f: StrictFrame, later: seq<LinkChannel.Read>, maximumRetries: nat)
    requires Mirrored(s, t) && s.pending.None? && maximumRetries >= 1
    requires Handle(StartReset(s).0, f).1.Ok? && Handle(StartReset(s).0, f).0.pending.Some?
    ensures
      var request := StartReset(s).1.value;
      var heard := [Come(f), Come(SecondaryFrame(t, FN_ACK, false))] + later;
      var (c, r) := LinkChannel.Reset(LinkChannel.Conn(s, heard, [true, true], [], []), maximumRetries);
      && r == Ok(()) && c.inbox == later && c.st.ready && c.st.nextSendFCB && c.st.pending.None? && LinkChannel.SameLink(s, c.st)
      && LinkChannel.Requests(c.log) ==
           if Counted(f) || (LinkChannel.Secondary(f) && Func(f.control) == FN_NACK) then [request, request]
           else [request]
  {
    hide PrimaryControl, SecondaryControl, Handle, Flag, Func, LinkChannel.Requests, LinkChannel.Attempts;
    hide LinkChannel.Wait;
    var s1, g := StartReset(s).0, StartReset(s).1.value;
    var ack := SecondaryFrame(t, FN_ACK, false);
    var heard := [Come(f), Come(ack)] + later;
    var c0 := LinkChannel.Conn(s1, heard, [true, true], [], []);
    var c1 := c0.(outbox := [true], log := [LinkChannel.Request(g)]);
    AttemptGoesOut(c0, g, 0, maximumRetries);
    assert [true, true][1..] == [true] && [] + [LinkChannel.Request(g)] == [LinkChannel.Request(g)];
    LinkChannel.NegativeIff(s1, f);
    LinkChannel.HandleEffects(s1, f);
    FrameBefore(c1, f, [Come(ack)] + later, g, maximumRetries);
    assert heard == [Come(f)] + ([Come(ack)] + later);
    assert ([Come(ack)] + later)[1..] == later;
    var c2 := LinkChannel.HandleFrame(c1.(inbox := [Come(ack)] + later), Come(f)).0;
    LinkChannel.HandleFrameLog(c1.(inbox := [Come(ack)] + later), Come(f));
    OneRequest(g);
    if Handle(s1, f).1.value.negative {
      AttemptGoesOut(c2, g, 1, maximumRetries);
      LinkChannel.RequestsSnoc(c2.log, LinkChannel.Request(g));
      AckEnds(LinkChannel.Write(c2, LinkChannel.Request(g)).0, t, ack, later, g, 1, maximumRetries);
      assert [g] + [g] == [g, g];
    } else {
      AckEnds(c2, t, ack, later, g, 0, maximumRetries);
    }
    hide LinkChannel.HandleFrame;
    ResetStarts(s, heard, maximumRetries);
  }

  lemma OneRequest(g: StrictFrame)
    ensures LinkChannel.Requests([LinkChannel.Request(g)]) == [g]
  {
    LinkChannel.RequestsSnoc([], LinkChannel.Request(g));
    assert [] + [LinkChannel.Request(g)] == [LinkChannel.Request(g)] && [] + [g] == [g];
  }

  lemma ResetStarts(s: State, inbox: seq<LinkChannel.Read>, maximumRetries: nat)
    requires s.pending.None?
    ensures LinkChannel.Reset(LinkChannel.Conn(s, inbox, [true, true], [], []), maximumRetries)
         == LinkChannel.Attempts(LinkChannel.Conn(StartReset(s).0, inbox, [true, true], [], []), StartReset(s).1.value,
                                 0, maximumRetries, LinkChannel.UntilAcknowledged)
  {
    hide LinkChannel.Attempts, PrimaryControl;
  }

  lemma AttemptGoesOut(c: LinkChannel.Conn, g: StrictFrame, attempt: nat, maximumRetries: nat)
    requires attempt <= maximumRetries && c.st.pending == Some(g) && c.outbox != [] && c.outbox[0]
    ensures LinkChannel.Attempts(c, g, attempt, maximumRetries, LinkChannel.UntilAcknowledged)
         == LinkChannel.Wait(LinkChannel.Write(c, LinkChannel.Request(g)).0, g, attempt, maximumRetries,
                             LinkChannel.UntilAcknowledged)
  {
    hide LinkChannel.Wait;
  }

  /** Waiting past a frame that leaves the request pending: on, or to the next attempt when it is negative. */
  lemma FrameBefore(c: LinkChannel.Conn, f: StrictFrame, rest: seq<LinkChannel.Read>, g: StrictFrame,
                    maximumRetries: nat)
    requires c.inbox == [Come(f)] + rest && Handle(c.st, f).1.Ok? && !Handle(c.st, f).1.value.acknowledged
    ensures var c2 := LinkChannel.HandleFrame(c.(inbox := rest), Come(f)).0;
      && LinkChannel.Wait(c, g, 0, maximumRetries, LinkChannel.UntilAcknowledged)
         == (if Handle(c.st, f).1.value.negative then
               LinkChannel.Attempts(c2, g, 1, maximumRetries, LinkChannel.UntilAcknowledged)
             else LinkChannel.Wait(c2, g, 0, maximumRetries, LinkChannel.UntilAcknowledged))
      && c2.outbox == c.outbox
  {
    hide Handle, LinkChannel.Attempts;
    assert c.inbox[0] == Come(f) && c.inbox[1..] == rest;
  }

  /** An acknowledgement ends a reset that waits for it. */
  lemma AckEnds(c: LinkChannel.Conn, t: State, ack: StrictFrame, later: seq<LinkChannel.Read>, g: StrictFrame,
                attempt: nat, maximumRetries: nat)
    requires Mirrored(c.st, t) && c.st.pending.Some? && c.st.pendingFn == FN_RESET
    requires ack == SecondaryFrame(t, FN_ACK, false) && c.inbox == [Come(ack)] + later
    ensures LinkChannel.Wait(c, g, attempt, maximumRetries, LinkChannel.UntilAcknowledged)
         == (c.(inbox := later, st := c.st.(pending := None, pendingFn := 0, ready := true, nextSendFCB := true)),
             Ok(()))
  {
    hide Handle, LinkChannel.Attempts, SecondaryControl;
    HandlesAck(c.st, t);
    assert c.inbox[0] == Come(ack) && c.inbox[1..] == later;
  }

  /**
   * Why the other side must be silent during a reset: the peer's data meets a reset that is under way, this side's own
   * refusal of it is taken for a refusal of the reset, and the reset is written again while the first is in flight.
   * Both are acknowledged; the second acknowledgement is then taken for that of a payload which the peer need never
   * have received.
   */
  lemma RefusalTakenForAnswer(s: State, t: State, d: Payload, p: Payload, maximumRetries: nat)
    requires Mirrored(s, t) && t.ready && s.pending.None? && t.pending.None? && maximumRetries >= 1
    requires Sendable(d) && Sendable(p)
    ensures
      var (_, f) := StartConfirmed(t, d);
      f.Ok? &&
      var ack := Come(SecondaryFrame(t, FN_ACK, false));
      var request := StartReset(s).1.value;
      var (c, r) := LinkChannel.Reset(LinkChannel.Conn(s, [Come(f.value), ack, ack], [true, true], [], []),
                                      maximumRetries);
      var (c2, r2) := LinkChannel.SendConfirmed(c.(outbox := [true]), p, maximumRetries);
      && r == Ok(()) && LinkChannel.Requests(c.log) == [request, request] && c.inbox == [ack]
      && r2 == Ok(()) && c2.inbox == []
  {
    hide PrimaryControl, SecondaryControl, Handle, Flag, Func, LinkChannel.Requests, LinkChannel.Reset;
    hide LinkChannel.SendConfirmed;
    var f := StartConfirmed(t, d).1.value;
    var ack := Come(SecondaryFrame(t, FN_ACK, false));
    RefusedWhileResetting(s, t, d);
    ResetRepeatedIff(s, t, f, [ack], maximumRetries);
    assert [Come(f), ack] + [ack] == [Come(f), ack, ack];
    var c := LinkChannel.Reset(LinkChannel.Conn(s, [Come(f), ack, ack], [true, true], [], []), maximumRetries).0;
    StaleAck(c.(outbox := [true]), t, p, maximumRetries);
  }

  lemma RefusedWhileResetting(s: State, t: State, d: Payload)
    requires Mirrored(s, t) && t.ready && s.pending.None? && t.pending.None? && Sendable(d)
    ensures var (_, f) := StartConfirmed(t, d);
      f.Ok? && Counted(f.value)
      && var (s2, r) := Handle(StartReset(s).0, f.value); r.Ok? && s2.pending.Some?
  {
    hide PrimaryControl, SecondaryControl, Flag, Func;
    PrimaryControlBits(t.isMaster, FN_CONFIRMED, t.nextSendFCB, true);
  }

  lemma StaleAck(c: LinkChannel.Conn, t: State, p: Payload, maximumRetries: nat)
    requires Mirrored(c.st, t) && c.st.ready && c.st.pending.None? && Sendable(p)
    requires c.inbox == [Come(SecondaryFrame(t, FN_ACK, false))] && c.outbox == [true]
    ensures var (c2, r2) := LinkChannel.SendConfirmed(c, p, maximumRetries); r2 == Ok(()) && c2.inbox == []
  {
    hide PrimaryControl, SecondaryControl, Handle, LinkChannel.Attempts;
    var s1, g := StartConfirmed(c.st, p).0, StartConfirmed(c.st, p).1.value;
    var c1 := c.(st := s1);
    AttemptGoesOut(c1, g, 0, maximumRetries);
    HandlesAck(s1, t);
    assert c.inbox[1..] == [];
  }
}
