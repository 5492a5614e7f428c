/**
 * The datagrams that a session writes: for each decoded fragment that asks for it, its confirmation; and the segments
 * of a fragment that is sent unconfirmed.
 */
module SessionConfirms {
  import opened Bytes
  import opened Frame
  import LinkState
  import opened LinkChannel
  import LinkTable
  import Transport
  import AppFragment
  import opened Session
  import opened EndToEnd
  import opened SessionReceive

  // ---------------------------------------------------------------- the confirmations that are due

  /** The fragments that payloads decode to, whatever becomes of them then. */
  function Decoded(t: Transport.Reassembly, maximum: int, payloads: seq<Payload>): seq<Fragment>
    decreases |payloads|
  {
    if payloads == [] then []
    else
      var (t1, pushed) := Transport.Push(t, payloads[0]);
      DecodedOf(pushed, maximum) + Decoded(t1, maximum, payloads[1..])
  }

  function DecodedOf(pushed: Transport.PushResult, maximum: int): seq<Fragment> {
    if pushed.Err? || pushed.value.None? then []
    else
      var f := AppFragment.DecodeStrictFragment(pushed.value.value, maximum);
      if f.Ok? then [f.value] else []
  }

  /** The unconfirmed-data frame in which s confirms f, its segment numbered next. */
  function ConfirmationFrame(s: LinkState.State, f: Fragment, next: byte): StrictFrame {
    LinkTable.Reply(s, 0x44).(userData := ConfirmationSegment(f, next))
  }

  /** One such frame for each fragment that asks for it, in order, with segment numbers running on from next. */
  function Confirmations(s: LinkState.State, next: byte, fragments: seq<Fragment>): (seq<StrictFrame>, byte)
    decreases |fragments|
  {
    if fragments == [] then ([], next)
    else if !fragments[0].con then Confirmations(s, next, fragments[1..])
    else
      var (rest, last) := Confirmations(s, (next + 1) & 0x3F, fragments[1..]);
      ([ConfirmationFrame(s, fragments[0], next)] + rest, last)
  }

  /** The datagrams among the written frames. */
  function Datagrams(log: seq<Written>): seq<StrictFrame> {
    if log == [] then []
    else
      var last, before := log[|log| - 1], Datagrams(log[..|log| - 1]);
      if last.Datagram? then before + [last.frame] else before
  }

  lemma DatagramsSnoc(log: seq<Written>, w: Written)
    ensures Datagrams(log + [w]) == if w.Datagram? then Datagrams(log) + [w.frame] else Datagrams(log)
  {
    assert (log + [w])[..|log|] == log;
  }

  // ---------------------------------------------------------------- one fragment

  /** From c and s to c' and s', exactly the confirmations of the given fragments were written. */
  predicate Wrote(c: Conn, s: State, fragments: seq<Fragment>, c': Conn, s': State) {
    var (frames, next) := Confirmations(c.st, s.nextTransport, fragments);
    Datagrams(c'.log) == Datagrams(c.log) + frames && s'.nextTransport == next && SameLink(c.st, c'.st)
  }

  lemma WroteNothing(c: Conn, s: State, c': Conn, s': State)
    requires Datagrams(c'.log) == Datagrams(c.log) && s'.nextTransport == s.nextTransport && SameLink(c.st, c'.st)
    ensures Wrote(c, s, [], c', s')
  {
    hide Datagrams;
    assert Datagrams(c.log) + [] == Datagrams(c.log);
  }

  lemma {:induction false} ConfirmationsAppend(s: LinkState.State, next: byte, a: seq<Fragment>, b: seq<Fragment>)
    ensures var (first, middle) := Confirmations(s, next, a);
      var (rest, last) := Confirmations(s, middle, b);
      Confirmations(s, next, a + b) == (first + rest, last)
    decreases |a|
  {
    hide ConfirmationFrame;
    if a == [] {
      assert a + b == b && [] + Confirmations(s, next, b).0 == Confirmations(s, next, b).0;
    } else {
      assert (a + b)[0] == a[0] && (a + b)[1..] == a[1..] + b;
      if a[0].con {
        var after := (next + 1) & 0x3F;
        ConfirmationsAppend(s, after, a[1..], b);
        var (x, middle) := Confirmations(s, after, a[1..]);
        var y, frame := Confirmations(s, middle, b).0, ConfirmationFrame(s, a[0], next);
        assert [frame] + (x + y) == ([frame] + x) + y;
      } else {
        ConfirmationsAppend(s, next, a[1..], b);
      }
    }
  }

  lemma {:induction false} ConfirmationsSame(s: LinkState.State, t: LinkState.State, next: byte,
                                              fragments: seq<Fragment>)
    requires SameLink(s, t)
    ensures Confirmations(s, next, fragments) == Confirmations(t, next, fragments)
    decreases |fragments|
  {
    if fragments != [] {
      ConfirmationsSame(s, t, if fragments[0].con then (next + 1) & 0x3F else next, fragments[1..]);
    }
  }

  lemma WroteThen(c: Conn, s: State, a: seq<Fragment>, c1: Conn, s1: State, b: seq<Fragment>, c2: Conn, s2: State)
    requires Wrote(c, s, a, c1, s1) && Wrote(c1, s1, b, c2, s2)
    ensures Wrote(c, s, a + b, c2, s2)
  {
    hide Confirmations, Datagrams;
    ConfirmationsSame(c.st, c1.st, s1.nextTransport, b);
    ConfirmationsAppend(c.st, s.nextTransport, a, b);
    var x, y := Confirmations(c.st, s.nextTransport, a).0, Confirmations(c.st, s1.nextTransport, b).0;
    assert (Datagrams(c.log) + x) + y == Datagrams(c.log) + (x + y);
  }

  /** Confirming writes the one datagram if it is asked for and the next write works, and nothing otherwise. */
  lemma ConfirmWrote(c: Conn, s: State, f: Fragment, maximumRetries: nat)
    requires f.sequence <= 15 && s.input.maximum >= 2
    ensures var (c', s', _) := Confirm(c, s, f, maximumRetries);
      Wrote(c, s, Confirmed([f], c.outbox), c', s')
  {
    hide Outgoing, Confirmation, Datagrams, SendUnconfirmed, ConfirmationFrame;
    assert [f][1..] == [];
    assert Confirmed([f], c.outbox) == if GoesOn(f, c.outbox) then [f] else [];
    if f.con {
      ConfirmationOutgoing(f, s.nextTransport, s.input.maximum);
      var segment := ConfirmationSegment(f, s.nextTransport);
      OnePayload(c, segment, maximumRetries);
      DatagramWritten(c, f, s.nextTransport);
    }
    var (c', s', _) := Confirm(c, s, f, maximumRetries);
    if f.con && c.outbox != [] && c.outbox[0] {
      OneConfirmation(c.st, f, s.nextTransport);
    } else {
      WroteNothing(c, s, c', s');
      if !f.con {
        NoConfirmation(c.st, f, s.nextTransport);
      }
    }
  }

  lemma OneConfirmation(s: LinkState.State, f: Fragment, next: byte)
    requires f.con
    ensures Confirmations(s, next, [f]) == ([ConfirmationFrame(s, f, next)], (next + 1) & 0x3F)
  {
    hide ConfirmationFrame;
    assert [f][1..] == [];
    var frame := ConfirmationFrame(s, f, next);
    assert [frame] + [] == [frame];
  }

  lemma NoConfirmation(s: LinkState.State, f: Fragment, next: byte)
    requires !f.con
    ensures Confirmations(s, next, [f]) == ([], next)
  {
    assert [f][1..] == [];
  }

  lemma OnePayload(c: Conn, payload: Payload, maximumRetries: nat)
    ensures SendPayloads(c, [payload], maximumRetries, false) == SendUnconfirmed(c, payload)
  {
    hide LinkState.Unconfirmed;
    assert [payload][1..] == [];
    var (c1, r) := SendUnconfirmed(c, payload);
    assert SendPayloads(c1, [], maximumRetries, false) == (c1, Ok(()));
    assert SendPayloads(c, [payload], maximumRetries, false) == (c1, r);
  }

  lemma DatagramWritten(c: Conn, f: Fragment, next: byte)
    ensures var (c1, r) := SendUnconfirmed(c, ConfirmationSegment(f, next));
      && c1.st == c.st && (r.Ok? <==> c.outbox != [] && c.outbox[0])
      && Datagrams(c1.log) == Datagrams(c.log) + if r.Ok? then [ConfirmationFrame(c.st, f, next)] else []
  {
    hide Datagrams;
    LinkTable.SentOctets(c.st, ConfirmationSegment(f, next));
    hide LinkState.Unconfirmed;
    DatagramsSnoc(c.log, Datagram(ConfirmationFrame(c.st, f, next)));
  }

  // ---------------------------------------------------------------- one payload

  lemma TakeReceivedWrote(c: Conn, s: State, payload: Payload, maximumRetries: nat)
    ensures var (c', s', _) := TakeReceived(c, s, payload, maximumRetries);
      var (t, pushed) := Transport.Push(s.input.transport, payload);
      && Wrote(c, s, Confirmed(DecodedOf(pushed, s.input.maximum), c.outbox), c', s')
      && c'.outbox == AfterAll(DecodedOf(pushed, s.input.maximum), c.outbox)
      && s'.input.transport == t
  {
    hide Transport.Push, AppFragment.Push, AppFragment.DecodeStrictFragment, Confirm, Wrote, GoesOn, AfterConfirming;
    var (t, pushed) := Transport.Push(s.input.transport, payload);
    var s1 := s.(input := s.input.(transport := t));
    if pushed.Ok? && pushed.value.Some? && AppFragment.DecodeStrictFragment(pushed.value.value, s.input.maximum).Ok? {
      var f := AppFragment.DecodeStrictFragment(pushed.value.value, s.input.maximum).value;
      DecodedSequence(pushed.value.value, s.input.maximum);
      ConfirmWrites(c, s1, f, maximumRetries);
      ConfirmWrote(c, s1, f, maximumRetries);
      var (c2, s2, _) := Confirm(c, s1, f, maximumRetries);
      WroteFrom(c, s, s1, Confirmed([f], c.outbox), c2, s2);
      WroteTo(c, s, Confirmed([f], c.outbox), c2, s2, TakeReceived(c, s, payload, maximumRetries).1);
      AfterOne(f, c.outbox);
    } else {
      WroteNothing(c, s, c, s1);
    }
  }

  /** The writes that are left after the confirmations that fragments ask for. */
  function AfterAll(fragments: seq<Fragment>, outbox: seq<bool>): seq<bool>
    decreases |fragments|
  {
    if fragments == [] then outbox else AfterAll(fragments[1..], AfterConfirming(fragments[0], outbox))
  }

  lemma AfterOne(f: Fragment, outbox: seq<bool>)
    ensures AfterAll([f], outbox) == AfterConfirming(f, outbox)
  {
    assert [f][1..] == [];
  }

  lemma WroteFrom(c: Conn, s: State, s1: State, fragments: seq<Fragment>, c': Conn, s': State)
    requires s1.nextTransport == s.nextTransport && Wrote(c, s1, fragments, c', s')
    ensures Wrote(c, s, fragments, c', s')
  {
    hide Confirmations, Datagrams;
  }

  lemma WroteTo(c: Conn, s: State, fragments: seq<Fragment>, c': Conn, s1: State, s': State)
    requires s1.nextTransport == s'.nextTransport && Wrote(c, s, fragments, c', s1)
    ensures Wrote(c, s, fragments, c', s')
  {
    hide Confirmations, Datagrams;
  }

  lemma {:induction false} ConfirmedAppend(a: seq<Fragment>, b: seq<Fragment>, outbox: seq<bool>)
    ensures Confirmed(a + b, outbox) == Confirmed(a, outbox) + Confirmed(b, AfterAll(a, outbox))
    decreases |a|
  {
    hide GoesOn, AfterConfirming;
    if a == [] {
      assert a + b == b && [] + Confirmed(b, outbox) == Confirmed(b, outbox);
    } else {
      assert (a + b)[0] == a[0] && (a + b)[1..] == a[1..] + b;
      var after := AfterConfirming(a[0], outbox);
      ConfirmedAppend(a[1..], b, after);
      var first := if GoesOn(a[0], outbox) then [a[0]] else [];
      var x, y := Confirmed(a[1..], after), Confirmed(b, AfterAll(a[1..], after));
      assert first + (x + y) == (first + x) + y;
    }
  }

  lemma {:induction false} AfterAllAppend(a: seq<Fragment>, b: seq<Fragment>, outbox: seq<bool>)
    ensures AfterAll(a + b, outbox) == AfterAll(b, AfterAll(a, outbox))
    decreases |a|
  {
    hide AfterConfirming;
    if a == [] {
      assert a + b == b;
    } else {
      assert (a + b)[0] == a[0] && (a + b)[1..] == a[1..] + b;
      AfterAllAppend(a[1..], b, AfterConfirming(a[0], outbox));
    }
  }

  // ---------------------------------------------------------------- all reads

  /** The connection and session when ReceiveApplication has gone through the first read. */
  function FirstStep(c: Conn, s: State, maximumRetries: nat): (Conn, State)
    requires c.inbox != []
  {
    if !c.inbox[0].Arrived? then (c.(inbox := c.inbox[1..]), s)
    else
      var r, c1 := LinkState.Handle(c.st, c.inbox[0].frame).1, Answered(c);
      if r.Err? || Unwritten(c.inbox[0], r) || r.value.userData == [] then (c1, s)
      else
        var (c2, s2, _) := TakeReceived(c1, s, r.value.userData, maximumRetries);
        (c2, s2)
  }

  /** Repeated receiving goes on from there. */
  lemma EachStep(c: Conn, s: State, maximumRetries: nat)
    requires s.input.maximum >= 1 && c.inbox != []
    ensures var (c1, s1) := FirstStep(c, s, maximumRetries);
      && s1.input.maximum == s.input.maximum && |c1.inbox| < |c.inbox|
      && ReceiveEach(c, s, maximumRetries).0 == ReceiveEach(c1, s1, maximumRetries).0
      && ReceiveEach(c, s, maximumRetries).1 == ReceiveEach(c1, s1, maximumRetries).1
  {
    hide LinkState.Handle, Receive, TakeReceived, ReceiveLoop, ReceiveEach;
    var (c1, s1) := FirstStep(c, s, maximumRetries);
    ReceiveFirst(c);
    if !c.inbox[0].Arrived? {
      QuietLoop(c, s, maximumRetries);
      FailedCall(c, s, c1, s, maximumRetries);
    } else {
      var r := LinkState.Handle(c.st, c.inbox[0].frame).1;
      if r.Err? || Unwritten(c.inbox[0], r) {
        QuietLoop(c, s, maximumRetries);
        FailedCall(c, s, c1, s, maximumRetries);
      } else if r.value.userData == [] {
        LoopGoesOn(c, s, c1, maximumRetries);
        SameLoop(c, s, c1, s, maximumRetries);
      } else {
        TakingStep(c, s, r.value.userData, maximumRetries);
      }
    }
  }

  lemma TakingStep(c: Conn, s: State, payload: Payload, maximumRetries: nat)
    requires s.input.maximum >= 1 && c.inbox != [] && c.inbox[0].Arrived?
    requires Receive(c) == (Answered(c), Ok(payload))
    ensures var (c2, s2, _) := TakeReceived(Answered(c), s, payload, maximumRetries);
      && s2.input.maximum == s.input.maximum && |c2.inbox| < |c.inbox|
      && ReceiveEach(c, s, maximumRetries).0 == ReceiveEach(c2, s2, maximumRetries).0
      && ReceiveEach(c, s, maximumRetries).1 == ReceiveEach(c2, s2, maximumRetries).1
  {
    hide LinkState.Handle, Receive, TakeReceived;
    var (c2, s2, done) := TakeReceived(Answered(c), s, payload, maximumRetries);
    if done.None? {
      SameLoop(c, s, c2, s2, maximumRetries);
    } else if done.value.Err? {
      FailedCall(c, s, c2, s2, maximumRetries);
    }
  }

  lemma AnsweredWrote(c: Conn, s: State)
    requires c.inbox != [] && c.inbox[0].Arrived?
    ensures Wrote(c, s, [], Answered(c), s)
  {
    hide LinkState.Handle, Datagrams;
    HandleEffects(c.st, c.inbox[0].frame);
    var r := LinkState.Handle(c.st, c.inbox[0].frame).1;
    if r.Ok? && r.value.response.Some? && c.inbox[0].answered {
      DatagramsSnoc(c.log, Response(r.value.response.value));
    }
    WroteNothing(c, s, Answered(c), s);
  }

  /**
   * For every connection and session, whatever is read and whichever writes fail: the datagrams that repeated
   * ReceiveApplication calls write are, in order, the confirmation of each decoded fragment that asks for one and
   * whose write works, and no others.
   */
  lemma {:induction false} ReceiveEachConfirms(c: Conn, s: State, maximumRetries: nat)
    requires s.input.maximum >= 1
    ensures var (c', s', _) := ReceiveEach(c, s, maximumRetries);
      Wrote(c, s, Confirmed(Decoded(s.input.transport, s.input.maximum, Taken(c.st, c.inbox).1), c.outbox), c', s')
    decreases |c.inbox|
  {
    hide LinkState.Handle, TakeReceived, Wrote, ReceiveEach, Confirmed, DecodedOf, Transport.Push;
    if c.inbox == [] {
      EmptyWrote(c, s, maximumRetries);
    } else {
      EachStep(c, s, maximumRetries);
      var (c1, s1) := FirstStep(c, s, maximumRetries);
      ReceiveEachConfirms(c1, s1, maximumRetries);
      StepWrote(c, s, maximumRetries);
      var (c', s', _) := ReceiveEach(c, s, maximumRetries);
      var first := StepDecoded(c, s);
      var rest := Decoded(s1.input.transport, s1.input.maximum, Taken(c1.st, c1.inbox).1);
      WroteThen(c, s, Confirmed(first, c.outbox), c1, s1, Confirmed(rest, c1.outbox), c', s');
      ConfirmedAppend(first, rest, c.outbox);
      StepDecodes(c, s, maximumRetries);
    }
  }

  lemma EmptyWrote(c: Conn, s: State, maximumRetries: nat)
    requires s.input.maximum >= 1 && c.inbox == []
    ensures ReceiveEach(c, s, maximumRetries) == (c, s, []) && Wrote(c, s, [], c, s)
    ensures Confirmed(Decoded(s.input.transport, s.input.maximum, Taken(c.st, c.inbox).1), c.outbox) == []
  {
    hide Datagrams;
    WroteNothing(c, s, c, s);
  }

  /** The fragment that the first read completes. */
  function StepDecoded(c: Conn, s: State): seq<Fragment>
    requires c.inbox != []
  {
    if !c.inbox[0].Arrived? then []
    else
      var r := LinkState.Handle(c.st, c.inbox[0].frame).1;
      if r.Err? || Unwritten(c.inbox[0], r) || r.value.userData == [] then []
      else DecodedOf(Transport.Push(s.input.transport, r.value.userData).1, s.input.maximum)
  }

  lemma StepWrote(c: Conn, s: State, maximumRetries: nat)
    requires c.inbox != []
    ensures var (c1, s1) := FirstStep(c, s, maximumRetries);
      && Wrote(c, s, Confirmed(StepDecoded(c, s), c.outbox), c1, s1)
      && c1.outbox == AfterAll(StepDecoded(c, s), c.outbox)
  {
    hide LinkState.Handle, TakeReceived, Wrote, DecodedOf, Transport.Push;
    if !c.inbox[0].Arrived? {
      hide Datagrams;
      WroteNothing(c, s, c.(inbox := c.inbox[1..]), s);
    } else {
      AnsweredWrote(c, s);
      var r := LinkState.Handle(c.st, c.inbox[0].frame).1;
      if !(r.Err? || Unwritten(c.inbox[0], r) || r.value.userData == []) {
        TakeReceivedWrote(Answered(c), s, r.value.userData, maximumRetries);
        var (c1, s1) := FirstStep(c, s, maximumRetries);
        WroteThen(c, s, [], Answered(c), s, Confirmed(StepDecoded(c, s), c.outbox), c1, s1);
        assert [] + Confirmed(StepDecoded(c, s), c.outbox) == Confirmed(StepDecoded(c, s), c.outbox);
      }
    }
  }

  /** What all reads decode to is what the first does and then the others. */
  lemma StepDecodes(c: Conn, s: State, maximumRetries: nat)
    requires c.inbox != []
    ensures var (c1, s1) := FirstStep(c, s, maximumRetries);
      Decoded(s.input.transport, s.input.maximum, Taken(c.st, c.inbox).1)
      == StepDecoded(c, s) + Decoded(s1.input.transport, s1.input.maximum, Taken(c1.st, c1.inbox).1)
  {
    hide LinkState.Handle, TakeReceived, Wrote, DecodedOf, Transport.Push;
    var (c1, s1) := FirstStep(c, s, maximumRetries);
    var later := Taken(c1.st, c1.inbox).1;
    if c.inbox[0].Arrived? {
      var r := LinkState.Handle(c.st, c.inbox[0].frame).1;
      if r.Err? || Unwritten(c.inbox[0], r) || r.value.userData == [] {
        assert [] + later == later;
      } else {
        TakeReceivedWrote(Answered(c), s, r.value.userData, maximumRetries);
        assert ([r.value.userData] + later)[1..] == later;
      }
    }
  }

  // ---------------------------------------------------------------- what is returned

  /** Fragments pushed one after the other: the reassembly, and the fragments that came out complete. */
  function Reassembled(a: AppFragment.Reassembly, fragments: seq<Fragment>): (AppFragment.Reassembly, seq<Fragment>)
    decreases |fragments|
  {
    if fragments == [] then (a, [])
    else
      var (a1, pushed) := AppFragment.Push(a, fragments[0]);
      var (a2, rest) := Reassembled(a1, fragments[1..]);
      (a2, (if pushed.Ok? && pushed.value.Some? then [pushed.value.value] else []) + rest)
  }

  /**
   * The layers of reception, for all payloads in all states: transport reassembly of the payloads, decoding, the
   * confirmations, and application reassembly, with CON cleared, of exactly the fragments that are confirmed or need
   * not be. Errors of one layer pass nothing on and do not touch the others.
   */
  lemma {:induction false} ReceivesInLayers(i: Input, outbox: seq<bool>, payloads: seq<Payload>)
    ensures var (i', outbox', fragments) := AcceptAll(i, outbox, payloads);
      var decoded := Decoded(i.transport, i.maximum, payloads);
      && i'.maximum == i.maximum && i'.transport == Transport.PushAll(i.transport, payloads).0
      && outbox' == AfterAll(decoded, outbox)
      && (i'.application, fragments) == Reassembled(i.application, Cleared(Confirmed(decoded, outbox)))
    decreases |payloads|
  {
    hide Transport.Push, AppFragment.Push, AppFragment.DecodeStrictFragment, GoesOn, AfterConfirming, Reassembled;
    if payloads == [] {
      NothingReassembled(i.application);
    } else {
      var (t1, pushed) := Transport.Push(i.transport, payloads[0]);
      var (i1, o1, first) := Accept(i, outbox, payloads[0]);
      var now, later := DecodedOf(pushed, i.maximum), Decoded(t1, i.maximum, payloads[1..]);
      ReceivesInLayers(i1, o1, payloads[1..]);
      ConfirmedAppend(now, later, outbox);
      AfterAllAppend(now, later, outbox);
      ClearedAppend(Confirmed(now, outbox), Confirmed(later, AfterAll(now, outbox)));
      OneInLayers(i, outbox, payloads[0]);
      ReassembledAppend(i.application, Cleared(Confirmed(now, outbox)), Cleared(Confirmed(later, o1)));
    }
  }

  lemma NothingReassembled(a: AppFragment.Reassembly)
    ensures Reassembled(a, Cleared([])) == (a, [])
  {
  }

  lemma OneReassembled(a: AppFragment.Reassembly, f: Fragment)
    ensures var (a1, pushed) := AppFragment.Push(a, f.(con := false));
      Reassembled(a, Cleared([f])) == (a1, if pushed.Ok? && pushed.value.Some? then [pushed.value.value] else [])
  {
    hide AppFragment.Push;
    var one := Cleared([f]);
    assert one == [f.(con := false)] && one[1..] == [];
    var (a1, pushed) := AppFragment.Push(a, f.(con := false));
    var out := if pushed.Ok? && pushed.value.Some? then [pushed.value.value] else [];
    assert Reassembled(a1, []) == (a1, []) && out + [] == out;
  }

  lemma OneInLayers(i: Input, outbox: seq<bool>, payload: Payload)
    ensures var (t1, pushed) := Transport.Push(i.transport, payload);
      var (i1, o1, first) := Accept(i, outbox, payload);
      var now := DecodedOf(pushed, i.maximum);
      && i1.transport == t1 && i1.maximum == i.maximum && o1 == AfterAll(now, outbox)
      && (i1.application, first) == Reassembled(i.application, Cleared(Confirmed(now, outbox)))
  {
    hide Transport.Push, AppFragment.Push, AppFragment.DecodeStrictFragment;
    hide GoesOn, AfterConfirming, Reassembled, Cleared;
    NothingReassembled(i.application);
    var (t1, pushed) := Transport.Push(i.transport, payload);
    if pushed.Ok? && pushed.value.Some? && AppFragment.DecodeStrictFragment(pushed.value.value, i.maximum).Ok? {
      var f := AppFragment.DecodeStrictFragment(pushed.value.value, i.maximum).value;
      AfterOne(f, outbox);
      OneReassembled(i.application, f);
      assert [f][1..] == [];
      assert Confirmed([f], outbox) == if GoesOn(f, outbox) then [f] else [];
    }
  }

  lemma {:induction false} ReassembledAppend(a: AppFragment.Reassembly, x: seq<Fragment>, y: seq<Fragment>)
    ensures var (a1, first) := Reassembled(a, x);
      var (a2, rest) := Reassembled(a1, y);
      Reassembled(a, x + y) == (a2, first + rest)
    decreases |x|
  {
    hide AppFragment.Push;
    if x == [] {
      assert x + y == y && [] + Reassembled(a, y).1 == Reassembled(a, y).1;
    } else {
      assert (x + y)[0] == x[0] && (x + y)[1..] == x[1..] + y;
      var (a1, pushed) := AppFragment.Push(a, x[0]);
      ReassembledAppend(a1, x[1..], y);
      var out := if pushed.Ok? && pushed.value.Some? then [pushed.value.value] else [];
      var (a2, more) := Reassembled(a1, x[1..]);
      assert out + (more + Reassembled(a2, y).1) == (out + more) + Reassembled(a2, y).1;
    }
  }

  // ---------------------------------------------------------------- sending unconfirmed

  /** The payloads as unconfirmed-data frames of s. */
  function AsDatagrams(s: LinkState.State, payloads: seq<Payload>): seq<StrictFrame> {
    if payloads == [] then []
    else [LinkTable.Reply(s, 0x44).(userData := payloads[0])] + AsDatagrams(s, payloads[1..])
  }

  /** How many of the next writes, n at most, work before one fails. */
  function Working(outbox: seq<bool>, n: nat): (k: nat)
    ensures k <= n
    decreases n
  {
    if n == 0 || outbox == [] || !outbox[0] then 0 else 1 + Working(outbox[1..], n - 1)
  }

  lemma OneDatagram(c: Conn, payload: Payload)
    requires 0 < |payload| <= 250
    ensures var (c1, r) := SendUnconfirmed(c, payload);
      && c1.st == c.st && (r.Ok? <==> c.outbox != [] && c.outbox[0]) && (r.Ok? ==> r == Ok(()))
      && (r.Err? ==> r == Err(WriteFailed)) && (r.Ok? ==> c1.outbox == c.outbox[1..])
      && Datagrams(c1.log)
         == Datagrams(c.log) + if r.Ok? then [LinkTable.Reply(c.st, 0x44).(userData := payload)] else []
  {
    hide Datagrams;
    LinkTable.SentOctets(c.st, payload);
    hide LinkState.Unconfirmed, LinkTable.Reply;
    DatagramsSnoc(c.log, Datagram(LinkTable.Reply(c.st, 0x44).(userData := payload)));
  }

  lemma {:induction false} DatagramsSent(c: Conn, payloads: seq<Payload>, maximumRetries: nat)
    requires forall k :: 0 <= k < |payloads| ==> 0 < |payloads[k]| <= 250
    ensures var (c', r) := SendPayloads(c, payloads, maximumRetries, false);
      var n := Working(c.outbox, |payloads|);
      && r == (if n == |payloads| then Ok(()) else Err(WriteFailed)) && c'.st == c.st
      && Datagrams(c'.log) == Datagrams(c.log) + AsDatagrams(c.st, payloads[..n])
    decreases |payloads|
  {
    hide Datagrams, SendUnconfirmed, LinkTable.Reply;
    var none: seq<StrictFrame> := [];
    assert Datagrams(c.log) + none == Datagrams(c.log);
    if payloads != [] {
      OneDatagram(c, payloads[0]);
      var (c1, r) := SendUnconfirmed(c, payloads[0]);
      var n := Working(c.outbox, |payloads|);
      if r.Ok? {
        DatagramsSent(c1, payloads[1..], maximumRetries);
        FirstAsDatagram(c.st, payloads, n);
        var first, rest := [LinkTable.Reply(c.st, 0x44).(userData := payloads[0])],
                           AsDatagrams(c.st, payloads[1..][..n - 1]);
        assert (Datagrams(c.log) + first) + rest == Datagrams(c.log) + (first + rest);
      } else {
        assert payloads[..0] == [];
      }
    } else {
      assert payloads[..0] == [];
    }
  }

  lemma FirstAsDatagram(s: LinkState.State, payloads: seq<Payload>, n: nat)
    requires 0 < n <= |payloads|
    ensures AsDatagrams(s, payloads[..n])
         == [LinkTable.Reply(s, 0x44).(userData := payloads[0])] + AsDatagrams(s, payloads[1..][..n - 1])
  {
    hide LinkTable.Reply;
    assert payloads[..n][0] == payloads[0] && payloads[..n][1..] == payloads[1..][..n - 1];
  }

  /** What a call that sends a fragment unconfirmed comes to. */
  predicate SentUnconfirmed(c: Conn, s: State, f: Fragment, c': Conn, s': State, r: Result<(), SessionError>) {
    if s.input.maximum < 1 then c' == c && s' == s && r == Err(NotInitialized)
    else
      var outgoing := Outgoing(f, s.nextTransport, s.input.maximum);
      if outgoing.Err? then c' == c && s' == s && r == Err(outgoing.error)
      else
        var (payloads, next) := outgoing.value;
        var n := Working(c.outbox, |payloads|);
        && r == (if n == |payloads| then Ok(()) else Err(LinkError(WriteFailed)))
        && s' == (if n == |payloads| then s.(nextTransport := next) else s)
        && c'.st == c.st && Datagrams(c'.log) == Datagrams(c.log) + AsDatagrams(c.st, payloads[..n])
  }

  /**
   * For every connection, session and fragment: sending it unconfirmed writes its segments, in order, up to the first
   * write that fails; the transport number advances exactly when all went out; nothing is written of a fragment that
   * cannot be encoded.
   */
  lemma SendsUnconfirmed(c: Conn, s: State, f: Fragment, maximumRetries: nat)
    ensures var (c', s', r) := SendApplication(c, s, f, maximumRetries, false);
      SentUnconfirmed(c, s, f, c', s', r)
  {
    hide Outgoing, SendPayloads, Datagrams, AsDatagrams, Working;
    var outgoing := Outgoing(f, s.nextTransport, s.input.maximum);
    if s.input.maximum >= 1 && outgoing.Ok? {
      OutgoingSized(f, s.nextTransport, s.input.maximum);
      DatagramsSent(c, outgoing.value.0, maximumRetries);
    }
  }

  lemma OutgoingSized(f: Fragment, next: byte, maximum: int)
    requires Outgoing(f, next, maximum).Ok?
    ensures var payloads := Outgoing(f, next, maximum).value.0;
      forall k :: 0 <= k < |payloads| ==> 0 < |payloads[k]| <= 250
  {
    hide AppFragment.EncodeStrictFragment, Transport.Segments, Transport.Advance;
    var encoded := AppFragment.EncodeStrictFragment(f, maximum).value;
    Transport.SegmentCount(encoded, Transport.SeqOf(next), 249, true);
  }

  /** A new session listens, and numbers its segments from zero. */
  lemma NewSessionListens(maximumApplication: int)
    ensures NewSession(maximumApplication).nextTransport == 0
    ensures NewSession(maximumApplication).input.maximum == maximumApplication
    ensures Listening(NewSession(maximumApplication).input)
    ensures NewSession(maximumApplication).input.transport == Transport.Reassembly(maximumApplication, false, 0, [])
    ensures NewSession(maximumApplication).input.application
         == AppFragment.Reassembly(maximumApplication, false, 0, 0, 0, false, false, 0, [])
  {
  }
}
