/**
 * Two sessions over a lossy link: what one sends with SendApplication, the other returns from ReceiveApplication.
 *
 * A script of fates decides what happens to each transmission of a request. A read times out only when the request
 * was lost, or its answer was not written or lost, which is the timing assumption of the protocol (see LinkNeeds).
 * The outcomes of all writes, on both sides, are arbitrary.
 */
module SessionPair {
  import opened Bytes
  import opened Frame
  import opened LinkState
  import opened LinkChannel
  import opened LinkAttempts
  import LinkPeers
  import LinkNeeds
  import Transport
  import AppFragment
  import opened Session
  import opened EndToEnd
  import opened SessionReceive
  import opened Conservation

  type State = LinkState.State

  datatype Ending = RequestLost | AnswerUnwritten | AnswerLost | AnswerArrives

  /** Unconfirmed data of the peer on its way to the sender, and whether the sender's handler accepts it. */
  datatype Delivery = Delivery(data: Payload, handled: bool)

  /**
   * What happens to one transmission of a request. Before the outcome, unconfirmed data of the peer (its application
   * confirmations, for example) may arrive at the sender.
   */
  datatype Fate = Fate(unconfirmed: seq<Delivery>, ending: Ending)

  // ---------------------------------------------------------------- the wire

  /** A frame that is written, carried as octets and decoded again. */
  function Carried(f: StrictFrame): seq<StrictFrame> {
    var octets := EncodeStrictFrame(f);
    if octets.Err? then []
    else
      var decoded := DecodeStrictFrame(octets.value);
      if decoded.Err? then [] else [decoded.value]
  }

  /** Reads of frames that have arrived. */
  function AllArrive(frames: seq<StrictFrame>, answered: bool, handled: bool): (inbox: seq<Read>)
    ensures |inbox| == |frames|
  {
    seq(|frames|, k requires 0 <= k < |frames| => Arrived(frames[k], answered, handled))
  }

  function UnconfirmedReads(t: State, data: seq<Delivery>): seq<Read> {
    if data == [] then []
    else
      var f := Unconfirmed(t, data[0].data);
      (if f.Ok? then AllArrive(Carried(f.value), true, data[0].handled) else []) + UnconfirmedReads(t, data[1..])
  }

  /** The sender's handler accepts all unconfirmed data that arrives; a handler that fails ends the transaction. */
  predicate AllHandled(t: State, data: seq<Delivery>) {
    forall k :: 0 <= k < |data| ==> (Unconfirmed(t, data[k].data).Ok? ==> data[k].handled)
  }

  // ---------------------------------------------------------------- one request

  /**
   * The peer after the transmissions, what it reads, what the sender reads, whether that ends in an answer, and the
   * fates and the sender's writes that are left.
   */
  datatype Exchanged = Exchanged(peer: State, heard: seq<Read>, inbox: seq<Read>, answered: bool,
                                 left: seq<Fate>, outbox: seq<bool>)

  /** One transmission, as the peer and the sender see it. */
  datatype Transmitted = Transmitted(peer: State, heard: seq<Read>, inbox: seq<Read>, answered: bool)

  function Transmit(t: State, request: StrictFrame, fate: Fate): Transmitted {
    var before := UnconfirmedReads(t, fate.unconfirmed);
    var heard := if fate.ending.RequestLost? then []
                 else AllArrive(Carried(request), !fate.ending.AnswerUnwritten?, true);
    if heard == [] then Transmitted(t, [], before + [TimedOut], false)
    else
      var (t1, r) := LinkState.Handle(t, heard[0].frame);
      var answer := if r.Ok? && r.value.response.Some? then Carried(r.value.response.value) else [];
      if !fate.ending.AnswerArrives? || answer == [] then Transmitted(t1, heard, before + [TimedOut], false)
      else Transmitted(t1, heard, before + [Arrived(answer[0], true, true)], true)
  }

  /**
   * Transmissions of one request until it is answered, a write fails, a handler fails, the attempts are used up or the
   * script ends. A write that fails may still have carried the whole frame: the script decides whether it arrives.
   */
  function Exchange(t: State, request: StrictFrame, attempt: nat, maximumRetries: nat, fates: seq<Fate>,
                    outbox: seq<bool>): Exchanged
    decreases |fates|
  {
    if attempt > maximumRetries || fates == [] then Exchanged(t, [], [], false, fates, outbox)
    else
      var x := Transmit(t, request, fates[0]);
      if outbox == [] || !outbox[0] then Exchanged(x.peer, x.heard, [], false, fates[1..], outbox)
      else if x.answered || !AllHandled(t, fates[0].unconfirmed) then
        Exchanged(x.peer, x.heard, x.inbox, AllHandled(t, fates[0].unconfirmed), fates[1..], outbox[1..])
      else
        var y := Exchange(x.peer, request, attempt + 1, maximumRetries, fates[1..], outbox[1..]);
        y.(heard := x.heard + y.heard, inbox := x.inbox + y.inbox)
  }

  lemma CarriedWhole(f: StrictFrame)
    requires ValidFrame(f)
    ensures Carried(f) == [f]
  {
    hide EncodeStrictFrame, DecodeStrictFrame;
    DecodeEncoded(f);
  }

  // ---------------------------------------------------------------- unconfirmed data on the way

  /** Unconfirmed data changes nothing in the link state of the receiver. */
  lemma HandlesUnconfirmed(s: State, t: State, d: Payload)
    requires LinkPeers.Mirrored(s, t) && Unconfirmed(t, d).Ok?
    ensures LinkState.Handle(s, Unconfirmed(t, d).value) == (s, Ok(NO_ACTION.(userData := d)))
    ensures Carried(Unconfirmed(t, d).value) == [Unconfirmed(t, d).value] && d != []
    ensures Flag(Unconfirmed(t, d).value.control, CTRL_PRM)
  {
    LinkPeers.UnconfirmedCompatible(t, s, d);
    CarriedWhole(Unconfirmed(t, d).value);
    hide PrimaryControl, Flag, Func, Carried;
    PrimaryControlBits(t.isMaster, FN_UNCONFIRMED, false, false);
  }

  /** The data that reaches the sender's handler. */
  function UnconfirmedData(t: State, data: seq<Delivery>): seq<Payload> {
    if data == [] then []
    else (if Unconfirmed(t, data[0].data).Ok? then [data[0].data] else []) + UnconfirmedData(t, data[1..])
  }

  /** Waiting goes past unconfirmed data, which goes to the handler, until the handler fails. */
  lemma {:induction false} WaitPast(c: Conn, t: State, data: seq<Delivery>, later: seq<Read>, first: StrictFrame,
                                    attempt: nat, maximumRetries: nat)
    requires LinkPeers.Mirrored(c.st, t) && c.inbox == UnconfirmedReads(t, data) + later
    ensures AllHandled(t, data) ==>
      Wait(c, first, attempt, maximumRetries, UntilAcknowledged)
        == Wait(c.(inbox := later, handed := c.handed + UnconfirmedData(t, data)), first, attempt, maximumRetries,
                UntilAcknowledged)
    ensures !AllHandled(t, data) ==> Wait(c, first, attempt, maximumRetries, UntilAcknowledged).1 == Err(HandlerFailed)
    decreases |data|
  {
    hide LinkState.Handle, Unconfirmed, Carried, Wait, AllHandled;
    if data == [] {
      assert AllHandled(t, data) by {
        NothingUnhandled(t);
      }
      assert c.inbox == later && c.handed + [] == c.handed;
    } else {
      AllHandledFirst(t, data);
      var d, tail := data[0], data[1..];
      if Unconfirmed(t, d.data).Err? {
        assert c.inbox == UnconfirmedReads(t, tail) + later;
        assert UnconfirmedData(t, data) == UnconfirmedData(t, tail);
        WaitPast(c, t, tail, later, first, attempt, maximumRetries);
      } else {
        var f := Unconfirmed(t, d.data).value;
        HandlesUnconfirmed(c.st, t, d.data);
        var c1 := c.(inbox := UnconfirmedReads(t, tail) + later, handed := c.handed + [d.data]);
        assert c.inbox == [Arrived(f, true, d.handled)] + c1.inbox;
        WaitFirst(c, f, d, c1, first, attempt, maximumRetries);
        if d.handled {
          WaitPast(c1, t, tail, later, first, attempt, maximumRetries);
          assert c1.handed + UnconfirmedData(t, tail) == c.handed + UnconfirmedData(t, data);
        }
      }
    }
  }

  lemma NothingUnhandled(t: State)
    ensures AllHandled(t, [])
  {
  }

  /** Waiting past one datagram. */
  lemma WaitFirst(c: Conn, f: StrictFrame, d: Delivery, c1: Conn, first: StrictFrame, attempt: nat,
                  maximumRetries: nat)
    requires c.inbox == [Arrived(f, true, d.handled)] + c1.inbox && d.data != []
    requires c1 == c.(inbox := c1.inbox, handed := c.handed + [d.data])
    requires LinkState.Handle(c.st, f) == (c.st, Ok(NO_ACTION.(userData := d.data)))
    ensures Wait(c, first, attempt, maximumRetries, UntilAcknowledged)
         == if d.handled then Wait(c1, first, attempt, maximumRetries, UntilAcknowledged) else (c1, Err(HandlerFailed))
  {
    hide LinkState.Handle, Attempts;
    var read := Arrived(f, true, d.handled);
    assert c.inbox[0] == read && c.inbox[1..] == c1.inbox;
    assert HandleFrame(c.(inbox := c1.inbox), read)
        == (c1, if d.handled then Ok(NO_ACTION.(userData := d.data)) else Err(HandlerFailed));
  }

  lemma AllHandledFirst(t: State, data: seq<Delivery>)
    requires data != []
    ensures AllHandled(t, data) <==>
      (Unconfirmed(t, data[0].data).Ok? ==> data[0].handled) && AllHandled(t, data[1..])
  {
    hide Unconfirmed;
    var tail := data[1..];
    assert forall k :: 0 <= k < |tail| ==> tail[k] == data[k + 1];
    if (Unconfirmed(t, data[0].data).Ok? ==> data[0].handled) && AllHandled(t, tail) {
      forall k | 0 <= k < |data|
        ensures Unconfirmed(t, data[k].data).Ok? ==> data[k].handled
      {
        if k > 0 {
          assert data[k] == tail[k - 1];
        }
      }
    }
  }

  // ---------------------------------------------------------------- a confirmed request under way

  /** s has sent, with its send bit, the payload p, and t may or may not have it. */
  predicate Sending(s: State, t: State, p: Payload) {
    && LinkPeers.Mirrored(s, t) && s.ready && t.ready && t.pending.None? && LinkNeeds.Sendable(p)
    && s.pendingFn == FN_CONFIRMED
    && s.pending == Some(PrimaryFrame(s, FN_CONFIRMED, s.nextSendFCB, p))
  }

  function Heard(t: State, s: State): State {
    t.(expectedFCB := !s.nextSendFCB)
  }

  /**
   * From t, what was heard leads to the given state; the payload is absorbed from the first frame, if it is new,
   * whether or not that frame is answered.
   */
  predicate Took(s: State, t: State, p: Payload, peer: State, heard: seq<Read>) {
    && peer == (if heard == [] then t else Heard(t, s))
    && Absorb(t, Arrivals(heard)) == (peer, if heard != [] && t.expectedFCB == s.nextSendFCB then [p] else [])
  }

  lemma AbsorbNothing(t: State)
    ensures Absorb(t, []) == (t, []) && Arrivals([]) == []
  {
  }

  lemma TookNothing(s: State, t: State, p: Payload)
    ensures Took(s, t, p, t, [])
  {
    AbsorbNothing(t);
  }

  lemma {:induction false} ArrivalsAppend(a: seq<Read>, b: seq<Read>)
    ensures Arrivals(a + b) == Arrivals(a) + Arrivals(b)
    decreases |a|
  {
    if a == [] {
      assert a + b == b;
    } else {
      assert (a + b)[0] == a[0] && (a + b)[1..] == a[1..] + b;
      ArrivalsAppend(a[1..], b);
    }
  }

  lemma {:induction false} AbsorbAppend(t: State, a: seq<StrictFrame>, b: seq<StrictFrame>)
    ensures Absorb(t, a + b) == (Absorb(Absorb(t, a).0, b).0, Absorb(t, a).1 + Absorb(Absorb(t, a).0, b).1)
    decreases |a|
  {
    hide LinkState.Handle;
    if a == [] {
      assert a + b == b && [] + Absorb(t, b).1 == Absorb(t, b).1;
    } else {
      var (t1, r) := LinkState.Handle(t, a[0]);
      assert (a + b)[0] == a[0] && (a + b)[1..] == a[1..] + b;
      AbsorbAppend(t1, a[1..], b);
      var d, m, n := DataOf(r), Absorb(t1, a[1..]).1, Absorb(Absorb(t1, a[1..]).0, b).1;
      assert d + (m + n) == (d + m) + n;
    }
  }

  lemma TookMore(s: State, t: State, p: Payload, t1: State, a: seq<Read>, t2: State, b: seq<Read>)
    requires Took(s, t, p, t1, a) && Took(s, t1, p, t2, b)
    ensures Took(s, t, p, t2, a + b)
  {
    hide Absorb, Arrivals;
    ArrivalsAppend(a, b);
    AbsorbAppend(t, Arrivals(a), Arrivals(b));
    AtMostOnce(p, a != [] && t.expectedFCB == s.nextSendFCB, b != [] && t1.expectedFCB == s.nextSendFCB);
    assert a + b == [] <==> a == [] && b == [];
  }

  lemma AtMostOnce(p: Payload, first: bool, second: bool)
    requires !(first && second)
    ensures (if first then [p] else []) + (if second then [p] else []) == if first || second then [p] else []
  {
  }

  /** One transmission: what the peer takes from it, and the sender's reads. */
  lemma TransmitConfirmed(s: State, t: State, p: Payload, fate: Fate)
    requires Sending(s, t, p)
    ensures var x := Transmit(t, s.pending.value, fate);
      && Took(s, t, p, x.peer, x.heard)
      && x.inbox == UnconfirmedReads(t, fate.unconfirmed)
                    + [if x.answered then Arrived(SecondaryFrame(t, FN_ACK, false), true, true) else TimedOut]
      && (x.answered ==> x.heard != [])
      && Answers(t, x.heard) == (if x.heard != [] && x.heard[0].answered then [SecondaryFrame(t, FN_ACK, false)] else [])
      && (x.answered ==> x.heard[0].answered)
  {
    hide Transmit, Took, Sending, SecondaryFrame, UnconfirmedReads, Answers, Heard;
    TransmitMeans(s, t, p, fate);
    HeardOnce(s, t, p, !fate.ending.AnswerUnwritten?);
    TookNothing(s, t, p);
    NoAnswers(t);
  }

  lemma NoAnswers(t: State)
    ensures Answers(t, []) == []
  {
  }

  lemma TransmitMeans(s: State, t: State, p: Payload, fate: Fate)
    requires Sending(s, t, p)
    ensures var before := UnconfirmedReads(t, fate.unconfirmed);
      Transmit(t, s.pending.value, fate) ==
        if fate.ending.RequestLost? then Transmitted(t, [], before + [TimedOut], false)
        else
          Transmitted(Heard(t, s), [Arrived(s.pending.value, !fate.ending.AnswerUnwritten?, true)],
                      before + [if fate.ending.AnswerArrives? then Arrived(SecondaryFrame(t, FN_ACK, false), true, true)
                                else TimedOut],
                      fate.ending.AnswerArrives?)
  {
    hide PrimaryControl, SecondaryControl, LinkState.Handle, Carried, UnconfirmedReads;
    var f, answered := s.pending.value, !fate.ending.AnswerUnwritten?;
    RequestCarried(s, t, p);
    LinkPeers.HandlesConfirmed(s, t, s.nextSendFCB, p);
    AckCarried(s, t);
    assert AllArrive([f], answered, true) == [Arrived(f, answered, true)];
  }

  /** The request heard once. */
  lemma HeardOnce(s: State, t: State, p: Payload, answered: bool)
    requires Sending(s, t, p)
    ensures var heard := [Arrived(s.pending.value, answered, true)];
      Took(s, t, p, Heard(t, s), heard)
      && Answers(t, heard) == (if answered then [SecondaryFrame(t, FN_ACK, false)] else [])
  {
    hide PrimaryControl, SecondaryControl, LinkState.Handle;
    var f := s.pending.value;
    var heard := [Arrived(f, answered, true)];
    LinkPeers.HandlesConfirmed(s, t, s.nextSendFCB, p);
    AbsorbNothing(Heard(t, s));
    assert heard[1..] == [] && Arrivals(heard) == [f] && [f][1..] == [];
    var none: seq<Payload> := [];
    assert [p] + none == [p] && none + none == none;
    var r := LinkState.Handle(t, f).1;
    assert Absorb(t, [f]) == (Heard(t, s), DataOf(r) + none);
    assert Answers(Heard(t, s), []) == [];
  }

  lemma RequestCarried(s: State, t: State, p: Payload)
    requires Sending(s, t, p)
    ensures Carried(s.pending.value) == [s.pending.value]
  {
    LinkPeers.PrimaryCompatible(s, t, FN_CONFIRMED, s.nextSendFCB, p);
    CarriedWhole(s.pending.value);
  }

  lemma AckCarried(s: State, t: State)
    requires LinkPeers.Mirrored(s, t)
    ensures Carried(SecondaryFrame(t, FN_ACK, false)) == [SecondaryFrame(t, FN_ACK, false)]
    ensures !Flag(SecondaryFrame(t, FN_ACK, false).control, CTRL_PRM)
  {
    LinkPeers.SecondaryCompatible(t, s, FN_ACK);
    CarriedWhole(SecondaryFrame(t, FN_ACK, false));
    SecondaryControlBits(t.isMaster, FN_ACK, false);
  }

  /** All transmissions of a request together: the peer absorbs the payload from the first it hears, and only then. */
  lemma {:induction false} ExchangeConfirmed(s: State, t: State, p: Payload, attempt: nat, maximumRetries: nat,
                                             fates: seq<Fate>, outbox: seq<bool>)
    requires Sending(s, t, p)
    ensures var x := Exchange(t, s.pending.value, attempt, maximumRetries, fates, outbox);
      Took(s, t, p, x.peer, x.heard) && (x.answered ==> x.heard != [])
    decreases |fates|
  {
    hide Transmit, Took, PrimaryControl, AllHandled;
    TookNothing(s, t, p);
    if attempt <= maximumRetries && fates != [] {
      TransmitConfirmed(s, t, p, fates[0]);
      var x := Transmit(t, s.pending.value, fates[0]);
      if outbox != [] && outbox[0] && !x.answered && AllHandled(t, fates[0].unconfirmed) {
        StillSending(s, t, p, x.peer, x.heard);
        ExchangeConfirmed(s, x.peer, p, attempt + 1, maximumRetries, fates[1..], outbox[1..]);
        var y := Exchange(x.peer, s.pending.value, attempt + 1, maximumRetries, fates[1..], outbox[1..]);
        TookMore(s, t, p, x.peer, x.heard, y.peer, y.heard);
      }
    }
  }

  lemma StillSending(s: State, t: State, p: Payload, peer: State, heard: seq<Read>)
    requires Sending(s, t, p) && Took(s, t, p, peer, heard)
    ensures Sending(s, peer, p)
  {
    hide Absorb, PrimaryControl;
  }

  /** The attempts end at once, or one transmission comes first. */
  lemma ExchangeFirst(t: State, f: StrictFrame, attempt: nat, maximumRetries: nat, fates: seq<Fate>, outbox: seq<bool>)
    ensures attempt > maximumRetries || fates == [] || outbox == [] || !outbox[0] ==>
      !Exchange(t, f, attempt, maximumRetries, fates, outbox).answered
      && Exchange(t, f, attempt, maximumRetries, fates, outbox).inbox == []
    ensures attempt <= maximumRetries && fates != [] && outbox != [] && outbox[0] ==>
      var x, once, handled := Exchange(t, f, attempt, maximumRetries, fates, outbox), Transmit(t, f, fates[0]),
                              AllHandled(t, fates[0].unconfirmed);
      if once.answered || !handled then
        x.answered == (once.answered && handled) && x.inbox == once.inbox && x.outbox == outbox[1..]
      else
        var y := Exchange(once.peer, f, attempt + 1, maximumRetries, fates[1..], outbox[1..]);
        x.answered == y.answered && x.inbox == once.inbox + y.inbox && x.outbox == y.outbox
  {
    hide Transmit, AllHandled;
  }

  /**
   * The sender's attempts against the reads that the script produces, for all outcomes of its writes: an answered
   * exchange ends the transaction with success, right after its acknowledgement; an unanswered one does not succeed.
   */
  lemma {:induction false} ExchangeSent(c: Conn, t: State, p: Payload, attempt: nat, maximumRetries: nat,
                                        fates: seq<Fate>, later: seq<Read>)
    requires Sending(c.st, t, p)
    requires var x := Exchange(t, c.st.pending.value, attempt, maximumRetries, fates, c.outbox);
      c.inbox == x.inbox + later && (!x.answered ==> later == [])
    ensures var x := Exchange(t, c.st.pending.value, attempt, maximumRetries, fates, c.outbox);
      var (c', r) := Attempts(c, c.st.pending.value, attempt, maximumRetries, UntilAcknowledged);
      r.Ok? == x.answered
      && (x.answered ==> c'.st == c.st.(pending := None, pendingFn := 0, nextSendFCB := !c.st.nextSendFCB)
                         && c'.inbox == later && c'.outbox == x.outbox)
    decreases |fates|
  {
    hide Transmit, Took, Sending, SecondaryControl, Wait, Attempts, Write, AllHandled, Exchange;
    SendingMeans(c.st, t, p);
    var s, f := c.st, c.st.pending.value;
    var x := Exchange(t, f, attempt, maximumRetries, fates, c.outbox);
    ExchangeFirst(t, f, attempt, maximumRetries, fates, c.outbox);
    if attempt > maximumRetries {
      AttemptsUsedUp(c, f, attempt, maximumRetries);
    } else {
      AttemptWrites(c, f, attempt, maximumRetries);
      if fates == [] {
        NothingToRead(c, f, attempt, maximumRetries);
      } else if c.outbox != [] && c.outbox[0] {
        TransmitConfirmed(s, t, p, fates[0]);
        var once := Transmit(t, f, fates[0]);
        var rest := c.inbox[|once.inbox|..];
        assert c.inbox == once.inbox + rest;
        var c1 := Write(c, Request(f)).0;
        TransmissionRead(c1, t, f, attempt, maximumRetries, fates[0].unconfirmed, once.answered, rest);
        if !once.answered && AllHandled(t, fates[0].unconfirmed) {
          var c2 := c1.(inbox := rest, handed := c1.handed + UnconfirmedData(t, fates[0].unconfirmed));
          StillSending(s, t, p, once.peer, once.heard);
          ExchangeSent(c2, once.peer, p, attempt + 1, maximumRetries, fates[1..], later);
        }
      }
    }
  }

  lemma SendingMeans(s: State, t: State, p: Payload)
    requires Sending(s, t, p)
    ensures LinkPeers.Mirrored(s, t) && s.pending.Some? && s.pendingFn == FN_CONFIRMED
  {
    hide PrimaryControl;
  }

  lemma AttemptsUsedUp(c: Conn, first: StrictFrame, attempt: nat, maximumRetries: nat)
    requires attempt > maximumRetries
    ensures Attempts(c, first, attempt, maximumRetries, UntilAcknowledged).1.Err?
  {
  }

  /** An attempt writes the pending request and waits, or fails with the write. */
  lemma AttemptWrites(c: Conn, f: StrictFrame, attempt: nat, maximumRetries: nat)
    requires attempt <= maximumRetries && c.st.pending == Some(f)
    ensures c.outbox == [] || !c.outbox[0] ==>
      Attempts(c, f, attempt, maximumRetries, UntilAcknowledged).1 == Err(WriteFailed)
    ensures c.outbox != [] && c.outbox[0] ==>
      var c1 := Write(c, Request(f)).0;
      Attempts(c, f, attempt, maximumRetries, UntilAcknowledged)
        == Wait(c1, f, attempt, maximumRetries, UntilAcknowledged)
      && c1.st == c.st && c1.inbox == c.inbox && c1.outbox == c.outbox[1..]
  {
    hide Wait;
  }

  lemma NothingToRead(c: Conn, first: StrictFrame, attempt: nat, maximumRetries: nat)
    requires c.inbox == []
    ensures Attempts(c, first, attempt, maximumRetries, UntilAcknowledged).1.Err?
  {
  }

  /** What one transmission's reads do to a transaction that waits. */
  lemma TransmissionRead(c: Conn, t: State, f: StrictFrame, attempt: nat, maximumRetries: nat, data: seq<Delivery>,
                         answered: bool, rest: seq<Read>)
    requires LinkPeers.Mirrored(c.st, t) && c.st.pending.Some? && c.st.pendingFn == FN_CONFIRMED
    requires c.inbox == UnconfirmedReads(t, data)
                        + [if answered then Arrived(SecondaryFrame(t, FN_ACK, false), true, true) else TimedOut] + rest
    ensures !AllHandled(t, data) ==> Wait(c, f, attempt, maximumRetries, UntilAcknowledged).1.Err?
    ensures AllHandled(t, data) ==>
      var c2 := c.(inbox := rest, handed := c.handed + UnconfirmedData(t, data));
      Wait(c, f, attempt, maximumRetries, UntilAcknowledged) ==
        if answered then
          (c2.(st := c.st.(pending := None, pendingFn := 0, nextSendFCB := !c.st.nextSendFCB)), Ok(()))
        else Attempts(c2, f, attempt + 1, maximumRetries, UntilAcknowledged)
  {
    hide LinkState.Handle, SecondaryControl, Attempts, UnconfirmedReads, UnconfirmedData, AllHandled;
    var last := if answered then Arrived(SecondaryFrame(t, FN_ACK, false), true, true) else TimedOut;
    assert c.inbox == UnconfirmedReads(t, data) + ([last] + rest);
    WaitPast(c, t, data, [last] + rest, f, attempt, maximumRetries);
    LinkPeers.HandlesAck(c.st, t);
    assert ([last] + rest)[1..] == rest;
  }

  // ---------------------------------------------------------------- many payloads

  /** A whole conversation: all that the peer reads, and all that the sender reads. */
  datatype Talk = Talk(heard: seq<Read>, inbox: seq<Read>)

  /** One payload after the other, until one of them is not acknowledged. */
  function Converse(s: State, t: State, payloads: seq<Payload>, maximumRetries: nat, fates: seq<Fate>,
                    outbox: seq<bool>): Talk
    decreases |payloads|
  {
    if payloads == [] then Talk([], [])
    else
      var (started, request) := StartConfirmed(s, payloads[0]);
      if request.Err? then Talk([], [])
      else
        var x := Exchange(t, request.value, 0, maximumRetries, fates, outbox);
        if !x.answered then Talk(x.heard, x.inbox)
        else
          var after := SendConfirmed(Conn(s, x.inbox, outbox, [], []), payloads[0], maximumRetries).0;
          var rest := Converse(after.st, x.peer, payloads[1..], maximumRetries, x.left, after.outbox);
          Talk(x.heard + rest.heard, x.inbox + rest.inbox)
  }

  lemma StartsSending(s: State, t: State, p: Payload)
    requires LinkNeeds.InStep(s, t) && LinkNeeds.Sendable(p)
    ensures StartConfirmed(s, p).1.Ok? && Sending(StartConfirmed(s, p).0, t, p)
    ensures StartConfirmed(s, p).0.pending == Some(StartConfirmed(s, p).1.value)
    ensures StartConfirmed(s, p).0 == s.(pending := StartConfirmed(s, p).0.pending, pendingFn := FN_CONFIRMED)
  {
    hide PrimaryControl;
  }

  /** SendConfirmed against the reads of its exchange. */
  lemma SendOneConfirmed(c: Conn, t: State, p: Payload, maximumRetries: nat, fates: seq<Fate>, later: seq<Read>)
    requires LinkNeeds.InStep(c.st, t) && LinkNeeds.Sendable(p) && StartConfirmed(c.st, p).1.Ok?
    requires var x := Exchange(t, StartConfirmed(c.st, p).1.value, 0, maximumRetries, fates, c.outbox);
      c.inbox == x.inbox + later && (!x.answered ==> later == [])
    ensures var x := Exchange(t, StartConfirmed(c.st, p).1.value, 0, maximumRetries, fates, c.outbox);
      var (c', r) := SendConfirmed(c, p, maximumRetries);
      r.Ok? == x.answered
      && (x.answered ==> c'.st == c.st.(pendingFn := 0, nextSendFCB := !c.st.nextSendFCB)
                         && LinkNeeds.InStep(c'.st, x.peer) && c'.inbox == later && c'.outbox == x.outbox)
      && Absorb(t, Arrivals(x.heard)) == (x.peer, if x.heard != [] then [p] else [])
      && (x.answered ==> x.heard != [])
  {
    hide LinkState.Handle, PrimaryControl, Attempts, Exchange, Absorb, Arrivals, StartConfirmed;
    StartsSending(c.st, t, p);
    var s1 := StartConfirmed(c.st, p).0;
    ExchangeConfirmed(s1, t, p, 0, maximumRetries, fates, c.outbox);
    ExchangeSent(c.(st := s1), t, p, 0, maximumRetries, fates, later);
  }

  /** The sender's calls against the reads of the conversation, and what the peer absorbs from what it reads. */
  lemma {:induction false} ConverseSends(c: Conn, t: State, payloads: seq<Payload>, maximumRetries: nat,
                                         fates: seq<Fate>)
    requires LinkNeeds.InStep(c.st, t) && AllSendable(payloads)
    requires c.inbox == Converse(c.st, t, payloads, maximumRetries, fates, c.outbox).inbox
    ensures var absorbed := Absorb(t, Arrivals(Converse(c.st, t, payloads, maximumRetries, fates, c.outbox).heard)).1;
      absorbed <= payloads
      && (SendPayloads(c, payloads, maximumRetries, true).1.Ok? ==> absorbed == payloads)
    decreases |payloads|
  {
    hide Exchange, Absorb, Arrivals, SendConfirmed, StartConfirmed, LinkNeeds.InStep, LinkNeeds.Sendable;
    AbsorbNothing(t);
    if payloads != [] {
      var p := payloads[0];
      StartsSending(c.st, t, p);
      var x := Exchange(t, StartConfirmed(c.st, p).1.value, 0, maximumRetries, fates, c.outbox);
      var later := c.inbox[|x.inbox|..];
      SendOneConfirmed(c, t, p, maximumRetries, fates, later);
      assert x.inbox == x.inbox + [];
      SendOneConfirmed(Conn(c.st, x.inbox, c.outbox, [], []), t, p, maximumRetries, fates, []);
      if x.answered {
        var c1 := SendConfirmed(c, p, maximumRetries).0;
        var rest := Converse(c1.st, x.peer, payloads[1..], maximumRetries, x.left, c1.outbox);
        ConverseSends(c1, x.peer, payloads[1..], maximumRetries, x.left);
        ArrivalsAppend(x.heard, rest.heard);
        AbsorbAppend(t, Arrivals(x.heard), Arrivals(rest.heard));
        assert payloads == [p] + payloads[1..];
      } else {
        assert SendOne(c, p, maximumRetries, true).1.Err?;
      }
    }
  }

  // ---------------------------------------------------------------- two sessions

  /** SendApplication for one fragment after the other, stopping at the first failure. */
  function SendEach(c: Conn, s: Session.State, fragments: seq<Fragment>, maximumRetries: nat)
    : (Conn, Session.State, Result<(), SessionError>)
    decreases |fragments|
  {
    if fragments == [] then (c, s, Ok(()))
    else
      var (c1, s1, r) := SendApplication(c, s, fragments[0], maximumRetries, true);
      if r.Err? then (c1, s1, r) else SendEach(c1, s1, fragments[1..], maximumRetries)
  }

  lemma {:induction false} SendAppend(c: Conn, p: seq<Payload>, q: seq<Payload>, maximumRetries: nat)
    ensures SendPayloads(c, p + q, maximumRetries, true) ==
      if SendPayloads(c, p, maximumRetries, true).1.Err? then SendPayloads(c, p, maximumRetries, true)
      else SendPayloads(SendPayloads(c, p, maximumRetries, true).0, q, maximumRetries, true)
    decreases |p|
  {
    hide SendConfirmed;
    if p == [] {
      assert p + q == q;
    } else {
      assert (p + q)[0] == p[0] && (p + q)[1..] == p[1..] + q;
      SendAppend(SendConfirmed(c, p[0], maximumRetries).0, p[1..], q, maximumRetries);
    }
  }

  /** SendEach sends the payloads of all the fragments. */
  lemma {:induction false} SendEachSends(c: Conn, s: Session.State, fragments: seq<Fragment>, maximumRetries: nat)
    requires s.input.maximum >= 1 && OutgoingAll(fragments, s.nextTransport, s.input.maximum).Ok?
    ensures SendEach(c, s, fragments, maximumRetries).2.Ok? ==>
      SendPayloads(c, OutgoingAll(fragments, s.nextTransport, s.input.maximum).value.0, maximumRetries, true).1.Ok?
    decreases |fragments|
  {
    hide SendPayloads, Outgoing;
    if fragments == [] {
      NothingToSend(c, maximumRetries);
    } else {
      var (payloads, next) := Outgoing(fragments[0], s.nextTransport, s.input.maximum).value;
      var s1 := s.(nextTransport := next);
      var c1 := SendPayloads(c, payloads, maximumRetries, true).0;
      SendAppend(c, payloads, OutgoingAll(fragments[1..], next, s.input.maximum).value.0, maximumRetries);
      SendEachSends(c1, s1, fragments[1..], maximumRetries);
    }
  }

  lemma NothingToSend(c: Conn, maximumRetries: nat)
    ensures SendPayloads(c, [], maximumRetries, true).1.Ok?
  {
  }

  /** The reads that brought a frame. */
  function OnlyArrived(inbox: seq<Read>): seq<Read> {
    if inbox == [] then [] else (if inbox[0].Arrived? then [inbox[0]] else []) + OnlyArrived(inbox[1..])
  }

  lemma {:induction false} ArrivalsOnly(inbox: seq<Read>)
    ensures Arrivals(OnlyArrived(inbox)) == Arrivals(inbox)
    decreases |inbox|
  {
    if inbox != [] {
      ArrivalsOnly(inbox[1..]);
      ArrivalsAppend(if inbox[0].Arrived? then [inbox[0]] else [], OnlyArrived(inbox[1..]));
      assert Arrivals([inbox[0]][1..]) == [];
    }
  }

  /** What the two ends read while a list of fragments is sent. */
  function TalkOf(s: State, t: State, sender: Session.State, fragments: seq<Fragment>, maximumRetries: nat,
                  fates: seq<Fate>, outbox: seq<bool>): Talk {
    var outgoing := OutgoingAll(fragments, sender.nextTransport, sender.input.maximum);
    if outgoing.Err? then Talk([], []) else Converse(s, t, outgoing.value.0, maximumRetries, fates, outbox)
  }

  /** The fragments that the receiving session returns in all. */
  function Returned(t: State, inbox: seq<Read>, outbox: seq<bool>, receiver: Session.State, maximumRetries: nat)
    : seq<Fragment>
    requires receiver.input.maximum >= 1
  {
    ReceiveEach(Conn(t, inbox, outbox, [], []), receiver, maximumRetries).2
  }

  /**
   * End to end, from calls to calls, through octets and losses, for every outcome of every write and handler on both
   * sides: one session sends a list of FIR+FIN fragments with confirmed link data, the other receives, with timeouts
   * anywhere between the frames that reach it.
   *
   * While every frame with new data is answered, what the receiver returns is a prefix of the fragments whose
   * confirmation it could write, with CON cleared, wherever the sender gives up and whatever transport state the
   * receiver starts in; if every SendApplication succeeded, it is all of these. And if every SendApplication succeeded
   * and the receiver held nothing before, it returns the whole list if and only if it could write the answer to every
   * frame with new data and every confirmation that the list asks for.
   */
  lemma {:induction false} SessionToSession(s: State, t: State, sender: Session.State, receiver: Session.State,
                                            fragments: seq<Fragment>, maximumRetries: nat, peerRetries: nat,
                                            fates: seq<Fate>, requests: seq<bool>, inbox: seq<Read>,
                                            confirmations: seq<bool>)
    requires LinkNeeds.InStep(s, t) && sender.input.maximum >= 2 && receiver.input.maximum >= 2
    requires Listening(receiver.input)
    requires Crossable(fragments, sender.input.maximum) && Crossable(fragments, receiver.input.maximum)
    requires OnlyArrived(inbox) == TalkOf(s, t, sender, fragments, maximumRetries, fates, requests).heard
    ensures
      var talk := TalkOf(s, t, sender, fragments, maximumRetries, fates, requests);
      var sent := SendEach(Conn(s, talk.inbox, requests, [], []), sender, fragments, maximumRetries).2;
      var returned := Returned(t, inbox, confirmations, receiver, peerRetries);
      && (NewDataAnswered(t, inbox) ==> returned <= Cleared(Confirmed(fragments, confirmations)))
      && (NewDataAnswered(t, inbox) && sent.Ok? ==> returned == Cleared(Confirmed(fragments, confirmations)))
      && (sent.Ok? && receiver.input.transport == Transport.NewReassembly(receiver.input.maximum) ==>
            (returned == Cleared(fragments) <==>
              NewDataAnswered(t, inbox) && ConfirmationsWritten(fragments, confirmations)))
  {
    hide *;
    var i := receiver.input;
    OutgoingSendable(fragments, sender.nextTransport, sender.input.maximum);
    var payloads := OutgoingAll(fragments, sender.nextTransport, sender.input.maximum).value.0;
    TalkMeans(s, t, sender, fragments, maximumRetries, fates, requests);
    var talk := TalkOf(s, t, sender, fragments, maximumRetries, fates, requests);
    var c := Conn(s, talk.inbox, requests, [], []);
    ConverseSends(c, t, payloads, maximumRetries, fates);
    SendEachSends(c, sender, fragments, maximumRetries);
    ReturnedMeans(t, inbox, confirmations, receiver, peerRetries);
    ArrivalsOnly(inbox);
    TakenIffAnswered(t, inbox);
    var absorbed := Absorb(t, Arrivals(inbox)).1;
    PrefixCrosses(i, confirmations, fragments, sender.nextTransport, sender.input.maximum, absorbed);
    FragmentsCross(i, confirmations, fragments, sender.nextTransport, sender.input.maximum);
    ConfirmedIff(fragments, confirmations);
    if absorbed == payloads && !NewDataAnswered(t, inbox) && i.transport == Transport.NewReassembly(i.maximum) {
      IdleHoldsNothing(i);
      LossShows(t, inbox, i, confirmations, fragments, sender.nextTransport, sender.input.maximum);
    }
  }

  lemma TalkMeans(s: State, t: State, sender: Session.State, fragments: seq<Fragment>, maximumRetries: nat,
                  fates: seq<Fate>, outbox: seq<bool>)
    requires OutgoingAll(fragments, sender.nextTransport, sender.input.maximum).Ok?
    ensures TalkOf(s, t, sender, fragments, maximumRetries, fates, outbox)
         == Converse(s, t, OutgoingAll(fragments, sender.nextTransport, sender.input.maximum).value.0, maximumRetries,
                     fates, outbox)
  {
    hide OutgoingAll, Converse;
  }

  lemma ReturnedMeans(t: State, inbox: seq<Read>, outbox: seq<bool>, receiver: Session.State, maximumRetries: nat)
    requires receiver.input.maximum >= 1
    ensures Returned(t, inbox, outbox, receiver, maximumRetries)
         == AcceptAll(receiver.input, outbox, Taken(t, inbox).1).2
  {
    hide ReceiveEach, AcceptAll, Taken, Responses, Answers;
    ReceiveEachAccepts(Conn(t, inbox, outbox, [], []), receiver, maximumRetries);
  }

  // ---------------------------------------------------------------- the answers that the sender reads

  /** The answers among the sender's reads; unconfirmed data comes in primary frames. */
  function SecondaryReads(inbox: seq<Read>): seq<StrictFrame> {
    if inbox == [] then []
    else
      (if inbox[0].Arrived? && Secondary(inbox[0].frame) then [inbox[0].frame] else []) + SecondaryReads(inbox[1..])
  }

  /** a in order among b, with others left out. */
  predicate IsSubsequence(a: seq<StrictFrame>, b: seq<StrictFrame>)
    decreases |b|
  {
    a == [] || (b != [] && ((a[0] == b[0] && IsSubsequence(a[1..], b[1..])) || IsSubsequence(a, b[1..])))
  }

  lemma {:induction false} SubsequenceAppend(a: seq<StrictFrame>, b: seq<StrictFrame>, c: seq<StrictFrame>,
                                             d: seq<StrictFrame>)
    requires IsSubsequence(a, b) && IsSubsequence(c, d)
    ensures IsSubsequence(a + c, b + d)
    decreases |b|
  {
    if b == [] {
      assert a + c == c && b + d == d;
    } else {
      var all := b + d;
      assert all[0] == b[0] && all[1..] == b[1..] + d;
      if a == [] {
        SubsequenceAppend(a, b[1..], c, d);
      } else if IsSubsequence(a, b[1..]) {
        SubsequenceAppend(a, b[1..], c, d);
      } else {
        SubsequenceAppend(a[1..], b[1..], c, d);
        assert (a + c)[0] == a[0] && (a + c)[1..] == a[1..] + c;
      }
    }
  }

  lemma {:induction false} SecondaryAppend(a: seq<Read>, b: seq<Read>)
    ensures SecondaryReads(a + b) == SecondaryReads(a) + SecondaryReads(b)
    decreases |a|
  {
    hide Secondary;
    if a == [] {
      assert a + b == b;
    } else {
      assert (a + b)[0] == a[0] && (a + b)[1..] == a[1..] + b;
      SecondaryAppend(a[1..], b);
    }
  }

  lemma {:induction false} AnswersAppend(t: State, a: seq<Read>, b: seq<Read>)
    ensures Answers(t, a + b) == Answers(t, a) + Answers(Absorb(t, Arrivals(a)).0, b)
    decreases |a|
  {
    hide LinkState.Handle;
    if a == [] {
      assert a + b == b;
    } else {
      assert (a + b)[0] == a[0] && (a + b)[1..] == a[1..] + b;
      if a[0].Arrived? {
        var (t1, r) := LinkState.Handle(t, a[0].frame);
        assert Arrivals(a)[1..] == Arrivals(a[1..]);
        AnswersAppend(t1, a[1..], b);
        var x, y, z := AnswerOf(a[0], r), Answers(t1, a[1..]), Answers(Absorb(t1, Arrivals(a[1..])).0, b);
        assert x + (y + z) == (x + y) + z;
      } else {
        assert Arrivals(a) == Arrivals(a[1..]);
        AnswersAppend(t, a[1..], b);
      }
    }
  }

  lemma {:induction false} UnconfirmedNotSecondary(s: State, t: State, data: seq<Delivery>)
    requires LinkPeers.Mirrored(s, t)
    ensures SecondaryReads(UnconfirmedReads(t, data)) == []
    decreases |data|
  {
    hide Unconfirmed, Carried, Flag;
    if data != [] {
      UnconfirmedNotSecondary(s, t, data[1..]);
      if Unconfirmed(t, data[0].data).Ok? {
        var f := Unconfirmed(t, data[0].data).value;
        HandlesUnconfirmed(s, t, data[0].data);
        assert AllArrive([f], true, data[0].handled) == [Arrived(f, true, data[0].handled)];
        assert UnconfirmedReads(t, data)[1..] == UnconfirmedReads(t, data[1..]);
      } else {
        assert UnconfirmedReads(t, data) == UnconfirmedReads(t, data[1..]);
      }
    }
  }

  /** The answers that the sender reads are among those that the peer writes, in order. */
  predicate AnswersFit(t: State, heard: seq<Read>, inbox: seq<Read>) {
    IsSubsequence(SecondaryReads(inbox), Answers(t, heard))
  }

  lemma WrittenAppend(t: State, heard: seq<Read>, inbox: seq<Read>, t1: State, heard1: seq<Read>, inbox1: seq<Read>)
    requires AnswersFit(t, heard, inbox) && t1 == Absorb(t, Arrivals(heard)).0 && AnswersFit(t1, heard1, inbox1)
    ensures AnswersFit(t, heard + heard1, inbox + inbox1)
  {
    hide IsSubsequence, Answers, SecondaryReads, Absorb;
    SecondaryAppend(inbox, inbox1);
    AnswersAppend(t, heard, heard1);
    SubsequenceAppend(SecondaryReads(inbox), Answers(t, heard), SecondaryReads(inbox1), Answers(t1, heard1));
  }

  lemma NothingRead(t: State, heard: seq<Read>)
    ensures AnswersFit(t, heard, [])
  {
  }

  lemma TransmitWritten(s: State, t: State, p: Payload, fate: Fate)
    requires Sending(s, t, p)
    ensures var x := Transmit(t, s.pending.value, fate); AnswersFit(t, x.heard, x.inbox)
  {
    hide Transmit, Took, Sending, SecondaryFrame, UnconfirmedReads, Answers, Flag;
    SendingMeans(s, t, p);
    TransmitConfirmed(s, t, p, fate);
    var x := Transmit(t, s.pending.value, fate);
    var ack := SecondaryFrame(t, FN_ACK, false);
    var last := if x.answered then Arrived(ack, true, true) else TimedOut;
    UnconfirmedNotSecondary(s, t, fate.unconfirmed);
    SecondaryAppend(UnconfirmedReads(t, fate.unconfirmed), [last]);
    AckCarried(s, t);
    assert [last][1..] == [];
    assert SecondaryReads([last]) == if x.answered then [ack] else [];
    var acks: seq<StrictFrame> := if x.answered then [ack] else [];
    assert x.inbox == UnconfirmedReads(t, fate.unconfirmed) + [last];
    assert SecondaryReads(x.inbox) == [] + acks == acks;
    OneAnswer(ack, Answers(t, x.heard));
  }

  lemma OneAnswer(ack: StrictFrame, answers: seq<StrictFrame>)
    ensures IsSubsequence([], answers)
    ensures answers == [ack] ==> IsSubsequence([ack], answers)
  {
    assert [ack][1..] == [];
  }

  lemma {:induction false} ExchangeWritten(s: State, t: State, p: Payload, attempt: nat, maximumRetries: nat,
                                           fates: seq<Fate>, outbox: seq<bool>)
    requires Sending(s, t, p)
    ensures var x := Exchange(t, s.pending.value, attempt, maximumRetries, fates, outbox); AnswersFit(t, x.heard, x.inbox)
    decreases |fates|
  {
    hide Transmit, Took, Sending, AllHandled, AnswersFit;
    SendingMeans(s, t, p);
    NothingRead(t, []);
    if attempt <= maximumRetries && fates != [] {
      TransmitConfirmed(s, t, p, fates[0]);
      TransmitWritten(s, t, p, fates[0]);
      var x := Transmit(t, s.pending.value, fates[0]);
      NothingRead(t, x.heard);
      if outbox != [] && outbox[0] && !x.answered && AllHandled(t, fates[0].unconfirmed) {
        StillSending(s, t, p, x.peer, x.heard);
        ExchangeWritten(s, x.peer, p, attempt + 1, maximumRetries, fates[1..], outbox[1..]);
        var y := Exchange(x.peer, s.pending.value, attempt + 1, maximumRetries, fates[1..], outbox[1..]);
        TookState(s, t, p, x.peer, x.heard);
        WrittenAppend(t, x.heard, x.inbox, x.peer, y.heard, y.inbox);
      }
    }
  }

  lemma TookState(s: State, t: State, p: Payload, peer: State, heard: seq<Read>)
    requires Took(s, t, p, peer, heard)
    ensures Absorb(t, Arrivals(heard)).0 == peer
  {
    hide Absorb, Arrivals;
  }

  lemma {:induction false} ConverseWritten(s: State, t: State, payloads: seq<Payload>, maximumRetries: nat,
                                           fates: seq<Fate>, outbox: seq<bool>)
    requires LinkNeeds.InStep(s, t) && AllSendable(payloads)
    ensures var talk := Converse(s, t, payloads, maximumRetries, fates, outbox); AnswersFit(t, talk.heard, talk.inbox)
    decreases |payloads|
  {
    hide Exchange, Absorb, Arrivals, SendConfirmed, StartConfirmed, LinkNeeds.InStep, LinkNeeds.Sendable, AnswersFit;
    NothingRead(t, []);
    if payloads != [] {
      var p := payloads[0];
      StartsSending(s, t, p);
      ExchangeWritten(StartConfirmed(s, p).0, t, p, 0, maximumRetries, fates, outbox);
      var x := Exchange(t, StartConfirmed(s, p).1.value, 0, maximumRetries, fates, outbox);
      assert x.inbox == x.inbox + [];
      SendOneConfirmed(Conn(s, x.inbox, outbox, [], []), t, p, maximumRetries, fates, []);
      if x.answered {
        var after := SendConfirmed(Conn(s, x.inbox, outbox, [], []), p, maximumRetries).0;
        ConverseWritten(after.st, x.peer, payloads[1..], maximumRetries, x.left, after.outbox);
        var rest := Converse(after.st, x.peer, payloads[1..], maximumRetries, x.left, after.outbox);
        WrittenAppend(t, x.heard, x.inbox, x.peer, rest.heard, rest.inbox);
      }
    }
  }

  lemma {:induction false} AnswersOnly(t: State, inbox: seq<Read>)
    ensures Answers(t, OnlyArrived(inbox)) == Answers(t, inbox)
    decreases |inbox|
  {
    hide LinkState.Handle;
    if inbox != [] {
      if inbox[0].Arrived? {
        AnswersOnly(LinkState.Handle(t, inbox[0].frame).0, inbox[1..]);
        assert OnlyArrived(inbox)[1..] == OnlyArrived(inbox[1..]);
      } else {
        AnswersOnly(t, inbox[1..]);
        assert OnlyArrived(inbox) == OnlyArrived(inbox[1..]);
      }
    }
  }

  /**
   * The two sides of a conversation fit: every answer that the sender reads is one that the receiving session's own
   * calls write, in the same order.
   */
  lemma {:induction false} AnswersCome(s: State, t: State, payloads: seq<Payload>, maximumRetries: nat,
                                       fates: seq<Fate>, requests: seq<bool>, c: Conn, receiver: Session.State,
                                       peerRetries: nat)
    requires LinkNeeds.InStep(s, t) && AllSendable(payloads) && receiver.input.maximum >= 1 && c.st == t && c.log == []
    requires OnlyArrived(c.inbox) == Converse(s, t, payloads, maximumRetries, fates, requests).heard
    ensures IsSubsequence(SecondaryReads(Converse(s, t, payloads, maximumRetries, fates, requests).inbox),
                          Responses(ReceiveEach(c, receiver, peerRetries).0.log))
  {
    hide IsSubsequence, SecondaryReads, Converse, ReceiveEach, Answers, AcceptAll, Taken;
    ConverseWritten(s, t, payloads, maximumRetries, fates, requests);
    ReceiveEachAccepts(c, receiver, peerRetries);
    AnswersOnly(t, c.inbox);
    assert [] + Answers(t, c.inbox) == Answers(t, c.inbox);
  }
}
