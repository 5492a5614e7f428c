/**
 * Two mirrored link states joined by a network that may lose any frame. A side that has handled a request may also fail
 * to write the answer; it then returns nothing to its caller.
 *
 * Timing assumption of the protocol: responses carry no frame count bit, so a retransmission may fire only when
 * neither the request nor its response is still in flight. LinkNeeds.dfy shows a run that goes wrong without it.
 */
module LinkPeers {
  import opened Bytes
  import opened Frame
  import opened LinkState

  // ---------------------------------------------------------------- mirrored peers accept each other's frames

  predicate Mirrored(s: State, t: State) {
    s.local == t.remote && s.remote == t.local && s.isMaster != t.isMaster
  }

  /** The frame passes the codec and the address, control and direction checks of the peer t. */
  predicate Compatible(f: StrictFrame, t: State) {
    ValidFrame(f) && f.destination == t.local && f.source == t.remote && Flag(f.control, CTRL_DIR) != t.isMaster
  }

  predicate PendingCompatible(s: State, t: State) {
    s.pending.Some? ==> Compatible(s.pending.value, t)
  }

  lemma PrimaryCompatible(s: State, t: State, function_: byte, fcb: bool, userData: seq<byte>)
    requires Mirrored(s, t) && |userData| <= MAX_DATA_SIZE
    requires function_ == FN_RESET || function_ == FN_CONFIRMED || function_ == FN_STATUS
    requires fcb ==> function_ == FN_CONFIRMED
    ensures Compatible(PrimaryFrame(s, function_, fcb, userData), t)
  {
    hide PrimaryControl, Flag, Func;
    PrimaryControlBits(s.isMaster, function_, fcb, function_ == FN_TEST || function_ == FN_CONFIRMED);
  }

  lemma SecondaryCompatible(s: State, t: State, function_: byte)
    requires Mirrored(s, t)
    requires function_ == FN_ACK || function_ == FN_NACK || function_ == FN_LINK_STATUS || function_ == FN_NOT_SUPPORTED
    ensures Compatible(SecondaryFrame(s, function_, false), t)
  {
    hide SecondaryControl, Flag, Func;
    SecondaryControlBits(s.isMaster, function_, false);
  }

  lemma StartsCompatible(s: State, t: State, userData: seq<byte>)
    requires Mirrored(s, t) && PendingCompatible(s, t)
    ensures StartReset(s).1.Ok? ==> Compatible(StartReset(s).1.value, t)
    ensures PendingCompatible(StartReset(s).0, t)
    ensures StartConfirmed(s, userData).1.Ok? ==> Compatible(StartConfirmed(s, userData).1.value, t)
    ensures PendingCompatible(StartConfirmed(s, userData).0, t)
    ensures StartLinkStatus(s).1.Ok? ==> Compatible(StartLinkStatus(s).1.value, t)
    ensures PendingCompatible(StartLinkStatus(s).0, t)
    ensures Retransmission(s).Ok? ==> Compatible(Retransmission(s).value, t)
  {
    hide PrimaryControl, Flag, Func, ValidControl;
    PrimaryCompatible(s, t, FN_RESET, false, []);
    PrimaryCompatible(s, t, FN_STATUS, false, []);
    if |userData| <= MAX_DATA_SIZE {
      PrimaryCompatible(s, t, FN_CONFIRMED, s.nextSendFCB, userData);
    }
  }

  lemma UnconfirmedCompatible(s: State, t: State, userData: seq<byte>)
    requires Mirrored(s, t) && Unconfirmed(s, userData).Ok?
    ensures Compatible(Unconfirmed(s, userData).value, t)
  {
    hide PrimaryControl, Flag, Func;
    PrimaryControlBits(s.isMaster, FN_UNCONFIRMED, false, false);
  }

  /** Whatever frame is handled, the answer suits the peer and the pending request still does. */
  lemma HandleCompatible(s: State, t: State, f: StrictFrame)
    requires Mirrored(s, t) && PendingCompatible(s, t)
    ensures var (s', r) := Handle(s, f);
      Mirrored(s', t) && PendingCompatible(s', t)
      && (r.Ok? && r.value.response.Some? ==> Compatible(r.value.response.value, t))
  {
    hide HandlePrimary, HandleSecondary, Flag, ValidControl, Compatible;
    PrimaryAnswered(s, t, f);
    SecondaryAnswered(s, f);
  }

  lemma PrimaryAnswered(s: State, t: State, f: StrictFrame)
    requires Mirrored(s, t)
    ensures var (s', r) := HandlePrimary(s, f);
      Mirrored(s', t) && (s'.pending == s.pending || s'.pending.None?)
      && (r.Ok? && r.value.response.Some? ==> Compatible(r.value.response.value, t))
  {
    hide SecondaryControl, Flag, Func, ValidControl, Compatible;
    SecondaryCompatible(s, t, FN_ACK);
    SecondaryCompatible(s, t, FN_NACK);
    SecondaryCompatible(s, t, FN_LINK_STATUS);
    SecondaryCompatible(s, t, FN_NOT_SUPPORTED);
  }

  lemma SecondaryAnswered(s: State, f: StrictFrame)
    ensures var (s', r) := HandleSecondary(s, f);
      s'.local == s.local && s'.remote == s.remote && s'.isMaster == s.isMaster
      && (s'.pending == s.pending || s'.pending.None?) && (r.Ok? ==> r.value.response.None?)
  {
    hide Flag, Func;
  }

  // ---------------------------------------------------------------- what a peer makes of each frame

  lemma HandlesReset(s: State, t: State)
    requires Mirrored(s, t)
    ensures Handle(t, PrimaryFrame(s, FN_RESET, false, []))
         == (MarkReset(t), Ok(NO_ACTION.(response := Some(SecondaryFrame(t, FN_ACK, false)), reset := true)))
  {
    hide PrimaryControl, SecondaryControl, Flag, Func;
    PrimaryControlBits(s.isMaster, FN_RESET, false, false);
  }

  lemma HandlesConfirmed(s: State, t: State, fcb: bool, userData: seq<byte>)
    requires Mirrored(s, t) && userData != [] && t.ready
    ensures Handle(t, PrimaryFrame(s, FN_CONFIRMED, fcb, userData)) ==
      if fcb == t.expectedFCB then
        (t.(expectedFCB := !t.expectedFCB),
         Ok(NO_ACTION.(response := Some(SecondaryFrame(t, FN_ACK, false)), userData := userData)))
      else (t, Ok(NO_ACTION.(response := Some(SecondaryFrame(t, FN_ACK, false)), duplicate := true)))
  {
    hide PrimaryControl, SecondaryControl, Flag, Func;
    PrimaryControlBits(s.isMaster, FN_CONFIRMED, fcb, true);
  }

  lemma HandlesStatus(s: State, t: State)
    requires Mirrored(s, t)
    ensures Handle(t, PrimaryFrame(s, FN_STATUS, false, []))
         == (t, Ok(NO_ACTION.(response := Some(SecondaryFrame(t, FN_LINK_STATUS, false)), linkStatus := true)))
  {
    hide PrimaryControl, SecondaryControl, Flag, Func;
    PrimaryControlBits(s.isMaster, FN_STATUS, false, false);
  }

  lemma HandlesAck(s: State, t: State)
    requires Mirrored(s, t) && s.pending.Some? && (s.pendingFn == FN_RESET || s.pendingFn == FN_CONFIRMED)
    ensures Handle(s, SecondaryFrame(t, FN_ACK, false)) ==
      (if s.pendingFn == FN_RESET then s.(pending := None, pendingFn := 0, ready := true, nextSendFCB := true)
       else s.(pending := None, pendingFn := 0, nextSendFCB := !s.nextSendFCB),
       Ok(NO_ACTION.(acknowledged := true)))
  {
    hide SecondaryControl, Flag, Func;
    SecondaryControlBits(t.isMaster, FN_ACK, false);
  }

  lemma HandlesLinkStatus(s: State, t: State)
    requires Mirrored(s, t) && s.pending.Some? && s.pendingFn == FN_STATUS
    ensures Handle(s, SecondaryFrame(t, FN_LINK_STATUS, false))
         == (s.(pending := None, pendingFn := 0), Ok(NO_ACTION.(linkStatus := true)))
  {
    hide SecondaryControl, Flag, Func;
    SecondaryControlBits(t.isMaster, FN_LINK_STATUS, false);
  }

  // ---------------------------------------------------------------- the system

  type Payload = seq<byte>

  /**
   * One peer and its outgoing exchange: the octets of its request and of the answer to it that are in flight, the
   * payloads whose acknowledgement it has consumed, and those that the other side has absorbed: handled as new, so
   * that a repeat is a duplicate. Of these, the other side has returned to its caller the ones whose answer it could
   * write; the others it has missed.
   */
  datatype Peer = Peer(st: State, request: Option<seq<byte>>, response: Option<seq<byte>>,
                       acked: seq<Payload>, absorbed: seq<Payload>, returned: seq<Payload>, missed: seq<Payload>)

  /** When a request arrives, the other side can write the answer, or its write fails. */
  datatype Event = BeginReset | BeginConfirmed(userData: seq<byte>) | BeginStatus | Retransmit
                 | RequestArrives(written: bool) | ResponseArrives | RequestLost | ResponseLost

  predicate Quiet(x: Peer) {
    x.request.None? && x.response.None?
  }

  predicate Resetting(x: Peer) {
    x.st.pending.Some? && x.st.pendingFn == FN_RESET
  }

  /** A reset may begin when the peer's own traffic is idle and the initiator's receive bit is at its initial value. */
  predicate MayReset(x: Peer, y: Peer) {
    x.st.expectedFCB && y.st.pending.None? && Quiet(y)
  }

  function OnWire(f: StrictFrame): Option<seq<byte>> {
    var encoded := EncodeStrictFrame(f);
    if encoded.Ok? then Some(encoded.value) else None
  }

  function Sent(x: Peer, started: (State, StartResult)): Option<Peer> {
    if started.1.Ok? then Some(x.(st := started.0, request := OnWire(started.1.value))) else None
  }

  /** What an event at x does; y is the other peer. None when the event cannot happen. */
  function Next(x: Peer, y: Peer, ev: Event): Option<(Peer, Peer)> {
    match ev
    case BeginReset =>
      if MayReset(x, y) then WithPeer(Sent(x, StartReset(x.st)), y) else None
    case BeginConfirmed(userData) =>
      if Resetting(y) then None else WithPeer(Sent(x, StartConfirmed(x.st, userData)), y)
    case BeginStatus =>
      if Resetting(y) then None else WithPeer(Sent(x, StartLinkStatus(x.st)), y)
    case Retransmit =>
      if Quiet(x) then WithPeer(Sent(x, (x.st, Retransmission(x.st))), y) else None
    case RequestArrives(written) =>
      if x.request.None? then None
      else Some(Receive(x.(request := None), y, DecodeStrictFrame(x.request.value), written))
    case ResponseArrives =>
      if x.response.None? then None
      else Some((Answered(x.(response := None), DecodeStrictFrame(x.response.value)), y))
    case RequestLost =>
      if x.request.None? then None else Some((x.(request := None), y))
    case ResponseLost =>
      if x.response.None? then None else Some((x.(response := None), y))
  }

  function WithPeer(x: Option<Peer>, y: Peer): Option<(Peer, Peer)> {
    if x.Some? then Some((x.value, y)) else None
  }

  /** y handles x's request and then writes the answer, if it can; a frame that is rejected changes nothing. */
  function Receive(x: Peer, y: Peer, frame: Result<StrictFrame, FrameError>, written: bool): (Peer, Peer) {
    if frame.Err? then (x, y)
    else
      var (t, r) := Handle(y.st, frame.value);
      if r.Err? then (x, y.(st := t))
      else
        var answered := if written && r.value.response.Some?
                        then x.(response := OnWire(r.value.response.value)) else x;
        (if r.value.userData == [] then answered
         else TakesData(answered, r.value.userData, written || r.value.response.None?), y.(st := t))
  }

  /** New data is absorbed; it is returned only if its answer was written, or none was due. */
  function TakesData(x: Peer, userData: Payload, written: bool): Peer {
    if written then x.(absorbed := x.absorbed + [userData], returned := x.returned + [userData])
    else x.(absorbed := x.absorbed + [userData], missed := x.missed + [userData])
  }

  /** x handles the answer to its request; an acknowledged confirmed payload counts as sent. */
  function Answered(x: Peer, frame: Result<StrictFrame, FrameError>): Peer {
    if frame.Err? then x
    else
      var (s, r) := Handle(x.st, frame.value);
      x.(st := s,
         acked := if r.Ok? && r.value.acknowledged && x.st.pendingFn == FN_CONFIRMED && x.st.pending.Some?
                  then x.acked + [x.st.pending.value.userData] else x.acked)
  }

  /** Octets that decode to a frame which the state s handles without an error. */
  predicate HandledCleanly(octets: seq<byte>, s: State) {
    var frame := DecodeStrictFrame(octets);
    frame.Ok? && Handle(s, frame.value).1.Ok?
  }

  /** Arriving octets always decode, and the peer that handles them never reports an error. */
  predicate ArrivesCleanly(x: Peer, y: Peer) {
    && (x.request.Some? ==> HandledCleanly(x.request.value, y.st))
    && (x.response.Some? ==> HandledCleanly(x.response.value, x.st))
  }

  // ---------------------------------------------------------------- the invariant

  /** In flight: nothing, or the one given frame. */
  predicate Carries(slot: Option<seq<byte>>, f: StrictFrame) {
    slot.None? || slot == OnWire(f)
  }

  /** One direction: x's requests, y's answers. */
  predicate Direction(x: Peer, y: Peer) {
    var s, t := x.st, y.st;
    && !(x.request.Some? && x.response.Some?)
    && match s.pending
       case None => Quiet(x) && x.absorbed == x.acked && s.nextSendFCB == t.expectedFCB
       case Some(f) =>
         && Carries(x.request, f)
         && if s.pendingFn == FN_RESET then
              && f == PrimaryFrame(s, FN_RESET, false, [])
              && x.absorbed == x.acked && !s.ready && s.nextSendFCB
              && (x.response.Some? ==> t.ready && t.expectedFCB)
              && Carries(x.response, SecondaryFrame(t, FN_ACK, false))
            else if s.pendingFn == FN_CONFIRMED then
              && f == PrimaryFrame(s, FN_CONFIRMED, s.nextSendFCB, f.userData)
              && 0 < |f.userData| <= MAX_DATA_SIZE && s.ready && t.ready
              && (x.response.Some? ==> t.expectedFCB != s.nextSendFCB)
              && Carries(x.response, SecondaryFrame(t, FN_ACK, false))
              && x.absorbed == (if t.expectedFCB == s.nextSendFCB then x.acked else x.acked + [f.userData])
            else
              && s.pendingFn == FN_STATUS
              && f == PrimaryFrame(s, FN_STATUS, false, [])
              && x.absorbed == x.acked && s.nextSendFCB == t.expectedFCB
              && Carries(x.response, SecondaryFrame(t, FN_LINK_STATUS, false))
  }

  /** While one peer resets, the other is silent. */
  predicate ResetAlone(x: Peer, y: Peer) {
    Resetting(x) ==> x.st.expectedFCB && y.st.nextSendFCB && y.st.pending.None? && Quiet(y)
  }

  predicate Inv(x: Peer, y: Peer) {
    && Mirrored(x.st, y.st)
    && Direction(x, y) && Direction(y, x)
    && ResetAlone(x, y) && ResetAlone(y, x)
    && (!Resetting(x) && !Resetting(y) ==> x.st.ready == y.st.ready)
  }

  /** The absorbed payloads are the acknowledged ones, in order, at most with the one pending payload added. */
  predicate ExactlyOnce(x: Peer) {
    x.absorbed == x.acked
    || (x.st.pending.Some? && x.st.pendingFn == FN_CONFIRMED && x.absorbed == x.acked + [x.st.pending.value.userData])
  }

  // ---------------------------------------------------------------- every step keeps the invariant

  lemma WireDecodes(f: StrictFrame)
    requires ValidFrame(f)
    ensures OnWire(f).Some? && DecodeStrictFrame(OnWire(f).value) == Ok(f)
  {
    hide EncodeStrictFrame, DecodeStrictFrame;
    DecodeEncoded(f);
  }

  /** Where the event can happen, it leads to peers with the invariant. */
  predicate KeepsInv(x: Peer, y: Peer, ev: Event) {
    var n := Next(x, y, ev);
    n.Some? ==> Inv(n.value.0, n.value.1)
  }

  lemma BeginKeeps(x: Peer, y: Peer, ev: Event)
    requires Inv(x, y)
    requires ev.BeginReset? || ev.BeginConfirmed? || ev.BeginStatus? || ev.Retransmit?
    ensures KeepsInv(x, y, ev)
  {
    hide EncodeStrictFrame, DecodeStrictFrame, PrimaryControl, SecondaryControl;
  }

  /** What the arrival of x's request keeps. */
  predicate RequestHandled(x: Peer, y: Peer, written: bool)
    requires x.request.Some?
  {
    && KeepsInv(x, y, RequestArrives(written)) && HandledCleanly(x.request.value, y.st)
    && var n := Next(x, y, RequestArrives(written));
       n.Some? ==> n.value.0.st == x.st && n.value.1.request == y.request && n.value.1.response == y.response
                   && (n.value.1.st.pending.Some? ==> y.st.pending.Some?)
  }

  lemma ResetArrives(x: Peer, y: Peer, written: bool)
    requires Inv(x, y) && x.request.Some? && x.st.pendingFn == FN_RESET
    ensures RequestHandled(x, y, written)
  {
    hide DecodeStrictFrame, PrimaryControl, SecondaryControl, Handle, ValidControl, Flag, Compatible, OnWire;
    CompatibleFrame(x.st, y.st, FN_RESET, []);
    WireDecodes(x.st.pending.value);
    HandlesReset(x.st, y.st);
    AnswerOnWire(y.st, x.st, FN_ACK);
  }

  /** What becomes of the peers when x's new payload arrives. */
  lemma NewDataNext(x: Peer, y: Peer, written: bool)
    requires Inv(x, y) && x.request.Some? && x.st.pendingFn == FN_CONFIRMED && y.st.expectedFCB == x.st.nextSendFCB
    ensures HandledCleanly(x.request.value, y.st)
    ensures var ack := OnWire(SecondaryFrame(y.st, FN_ACK, false));
      Next(x, y, RequestArrives(written)) ==
        Some((TakesData(x.(request := None, response := if written then ack else None), x.st.pending.value.userData,
                        written),
              y.(st := y.st.(expectedFCB := !y.st.expectedFCB))))
  {
    hide DecodeStrictFrame, PrimaryControl, SecondaryControl, Handle, ValidControl, Flag, Compatible, OnWire;
    var f := x.st.pending.value;
    CompatibleFrame(x.st, y.st, FN_CONFIRMED, f.userData);
    WireDecodes(f);
    HandlesConfirmed(x.st, y.st, x.st.nextSendFCB, f.userData);
    AnswerOnWire(y.st, x.st, FN_ACK);
  }

  lemma NewDataArrives(x: Peer, y: Peer, written: bool)
    requires Inv(x, y) && x.request.Some? && x.st.pendingFn == FN_CONFIRMED && y.st.expectedFCB == x.st.nextSendFCB
    ensures RequestHandled(x, y, written)
  {
    hide Next, HandledCleanly, OnWire, PrimaryControl, SecondaryControl;
    NewDataNext(x, y, written);
  }

  lemma RepeatArrives(x: Peer, y: Peer, written: bool)
    requires Inv(x, y) && x.request.Some? && x.st.pendingFn == FN_CONFIRMED && y.st.expectedFCB != x.st.nextSendFCB
    ensures RequestHandled(x, y, written)
  {
    hide DecodeStrictFrame, PrimaryControl, SecondaryControl, Handle, ValidControl, Flag, Compatible, OnWire;
    var f := x.st.pending.value;
    CompatibleFrame(x.st, y.st, FN_CONFIRMED, f.userData);
    WireDecodes(f);
    HandlesConfirmed(x.st, y.st, x.st.nextSendFCB, f.userData);
    AnswerOnWire(y.st, x.st, FN_ACK);
  }

  lemma ConfirmedArrives(x: Peer, y: Peer, written: bool)
    requires Inv(x, y) && x.request.Some? && x.st.pendingFn == FN_CONFIRMED
    ensures RequestHandled(x, y, written)
  {
    hide Inv, RequestHandled;
    if y.st.expectedFCB == x.st.nextSendFCB {
      NewDataArrives(x, y, written);
    } else {
      RepeatArrives(x, y, written);
    }
  }

  lemma StatusArrives(x: Peer, y: Peer, written: bool)
    requires Inv(x, y) && x.request.Some? && x.st.pendingFn == FN_STATUS
    ensures RequestHandled(x, y, written)
  {
    hide DecodeStrictFrame, PrimaryControl, SecondaryControl, Handle, ValidControl, Flag, Compatible, OnWire;
    CompatibleFrame(x.st, y.st, FN_STATUS, []);
    WireDecodes(x.st.pending.value);
    HandlesStatus(x.st, y.st);
    AnswerOnWire(y.st, x.st, FN_LINK_STATUS);
  }

  lemma PendingFunction(x: Peer, y: Peer)
    requires Inv(x, y) && x.request.Some?
    ensures x.st.pendingFn == FN_RESET || x.st.pendingFn == FN_CONFIRMED || x.st.pendingFn == FN_STATUS
  {
    hide PrimaryControl, SecondaryControl, OnWire;
  }

  lemma RequestKeeps(x: Peer, y: Peer, written: bool)
    requires Inv(x, y) && x.request.Some?
    ensures RequestHandled(x, y, written)
  {
    hide Inv, RequestHandled;
    PendingFunction(x, y);
    if x.st.pendingFn == FN_RESET {
      ResetArrives(x, y, written);
    } else if x.st.pendingFn == FN_CONFIRMED {
      ConfirmedArrives(x, y, written);
    } else {
      StatusArrives(x, y, written);
    }
  }

  lemma CompatibleFrame(s: State, t: State, function_: byte, userData: seq<byte>)
    requires Mirrored(s, t) && |userData| <= MAX_DATA_SIZE
    requires function_ == FN_RESET || function_ == FN_CONFIRMED || function_ == FN_STATUS
    ensures ValidFrame(PrimaryFrame(s, function_, if function_ == FN_CONFIRMED then s.nextSendFCB else false, userData))
  {
    PrimaryCompatible(s, t, function_, if function_ == FN_CONFIRMED then s.nextSendFCB else false, userData);
  }

  lemma AnswerOnWire(t: State, s: State, function_: byte)
    requires Mirrored(t, s) && (function_ == FN_ACK || function_ == FN_LINK_STATUS)
    ensures OnWire(SecondaryFrame(t, function_, false)).Some?
    ensures DecodeStrictFrame(OnWire(SecondaryFrame(t, function_, false)).value)
         == Ok(SecondaryFrame(t, function_, false))
  {
    hide EncodeStrictFrame, DecodeStrictFrame, SecondaryControl, ValidControl;
    SecondaryCompatible(t, s, function_);
    WireDecodes(SecondaryFrame(t, function_, false));
  }

  lemma ResponseKeeps(x: Peer, y: Peer)
    requires Inv(x, y) && x.response.Some?
    ensures KeepsInv(x, y, ResponseArrives) && HandledCleanly(x.response.value, x.st)
    ensures var n := Next(x, y, ResponseArrives);
      n.Some? ==> n.value.1 == y && n.value.0.st.expectedFCB == x.st.expectedFCB
  {
    hide DecodeStrictFrame, PrimaryControl, SecondaryControl, Handle, OnWire;
    var s, t := x.st, y.st;
    if s.pendingFn == FN_STATUS {
      AnswerOnWire(t, s, FN_LINK_STATUS);
      HandlesLinkStatus(s, t);
    } else {
      AnswerOnWire(t, s, FN_ACK);
      HandlesAck(s, t);
    }
  }

  lemma LossKeeps(x: Peer, y: Peer, ev: Event)
    requires Inv(x, y) && (ev.RequestLost? || ev.ResponseLost?)
    ensures KeepsInv(x, y, ev)
  {
    hide OnWire, PrimaryControl, SecondaryControl, DecodeStrictFrame, Receive, Answered, Sent;
  }

  lemma EventEnabled(x: Peer, y: Peer, ev: Event)
    requires Next(x, y, ev).Some?
    ensures ev.RequestArrives? ==> x.request.Some?
    ensures ev.ResponseArrives? ==> x.response.Some?
  {
    hide Receive, Answered, Sent, DecodeStrictFrame;
  }

  lemma NothingHappens(x: Peer, y: Peer, ev: Event)
    requires Next(x, y, ev).None?
    ensures KeepsInv(x, y, ev)
  {
    hide Next;
  }

  /** Every event, at either peer, keeps the invariant. */
  lemma NextKeeps(x: Peer, y: Peer, ev: Event)
    requires Inv(x, y)
    ensures KeepsInv(x, y, ev)
  {
    hide Inv, Next, KeepsInv;
    if Next(x, y, ev).None? {
      NothingHappens(x, y, ev);
      return;
    }
    EventEnabled(x, y, ev);
    if ev.RequestArrives? {
      RequestKeeps(x, y, ev.written);
    } else if ev.ResponseArrives? {
      ResponseKeeps(x, y);
    } else if ev.RequestLost? || ev.ResponseLost? {
      LossKeeps(x, y, ev);
    } else {
      BeginKeeps(x, y, ev);
    }
  }

  lemma InvClean(x: Peer, y: Peer)
    requires Inv(x, y)
    ensures ArrivesCleanly(x, y)
  {
    hide Inv, KeepsInv, Next, HandledCleanly;
    if x.request.Some? {
      RequestKeeps(x, y, true);
    }
    if x.response.Some? {
      ResponseKeeps(x, y);
    }
  }

  // ---------------------------------------------------------------- all runs

  datatype System = System(a: Peer, b: Peer)

  datatype Move = AtA(ev: Event) | AtB(ev: Event)

  predicate Initial(c: System) {
    FreshStates(c)
    && c.a.request.None? && c.a.response.None? && c.b.request.None? && c.b.response.None?
    && Untouched(c.a) && Untouched(c.b)
  }

  predicate Untouched(x: Peer) {
    x.acked == x.absorbed == x.returned == x.missed == []
  }

  predicate FreshStates(c: System) {
    c.a.st == NewState(c.a.st.local, c.a.st.remote, c.a.st.isMaster)
    && c.b.st == NewState(c.a.st.remote, c.a.st.local, !c.a.st.isMaster)
  }

  /** The system after one move, or unchanged when the move cannot happen. */
  function Step(c: System, m: Move): System {
    match m
    case AtA(ev) =>
      var n := Next(c.a, c.b, ev);
      if n.Some? then System(n.value.0, n.value.1) else c
    case AtB(ev) =>
      var n := Next(c.b, c.a, ev);
      if n.Some? then System(n.value.1, n.value.0) else c
  }

  function Run(c: System, moves: seq<Move>): System
    decreases moves
  {
    if moves == [] then c else Run(Step(c, moves[0]), moves[1..])
  }

  lemma StepKeeps(c: System, m: Move)
    requires Inv(c.a, c.b)
    ensures Inv(Step(c, m).a, Step(c, m).b)
  {
    hide Next, Direction;
    match m {
      case AtA(ev) =>
        if Next(c.a, c.b, ev).Some? {
          NextKeeps(c.a, c.b, ev);
        }
      case AtB(ev) =>
        if Next(c.b, c.a, ev).Some? {
          NextKeeps(c.b, c.a, ev);
        }
    }
  }

  lemma {:induction false} RunKeeps(c: System, moves: seq<Move>)
    requires Inv(c.a, c.b)
    ensures Inv(Run(c, moves).a, Run(c, moves).b)
    decreases moves
  {
    hide Inv, Step;
    if moves != [] {
      StepKeeps(c, moves[0]);
      RunKeeps(Step(c, moves[0]), moves[1..]);
    }
  }

  // ---------------------------------------------------------------- answers that cannot be written

  datatype Side = SideA | SideB

  function Mine(c: System, side: Side): Peer {
    if side.SideA? then c.a else c.b
  }

  function Other(c: System, side: Side): Peer {
    if side.SideA? then c.b else c.a
  }

  /** The request of x that is in flight carries data that is new to y, and an answer to it is due. */
  predicate BringsNewData(x: Peer, y: Peer) {
    x.request.Some? &&
    var frame := DecodeStrictFrame(x.request.value);
    frame.Ok? &&
    var r := Handle(y.st, frame.value).1;
    r.Ok? && r.value.userData != [] && r.value.response.Some?
  }

  /** The move brings new data from the given side, and the other side cannot write the answer. */
  predicate Misses(c: System, m: Move, side: Side) {
    m.AtA? == side.SideA? && m.ev == RequestArrives(false) && BringsNewData(Mine(c, side), Other(c, side))
  }

  /** In the whole run, every answer to new data from the given side is written. */
  predicate AnswersWritten(c: System, moves: seq<Move>, side: Side)
    decreases |moves|
  {
    moves == [] || (!Misses(c, moves[0], side) && AnswersWritten(Step(c, moves[0]), moves[1..], side))
  }

  /** How one step changes what was absorbed, returned and missed. */
  predicate Grows(x: Peer, x': Peer, missing: bool) {
    if x'.absorbed == x.absorbed then !missing && x'.returned == x.returned && x'.missed == x.missed
    else
      x'.absorbed != [] &&
      var d := x'.absorbed[|x'.absorbed| - 1];
      x'.absorbed == x.absorbed + [d]
      && (if missing then x'.missed == x.missed + [d] && x'.returned == x.returned
          else x'.returned == x.returned + [d] && x'.missed == x.missed)
  }

  lemma NextGrows(x: Peer, y: Peer, ev: Event)
    requires Next(x, y, ev).Some?
    ensures var n := Next(x, y, ev).value;
      Grows(x, n.0, ev == RequestArrives(false) && BringsNewData(x, y)) && Grows(y, n.1, false)
  {
    hide OnWire, DecodeStrictFrame, Handle, StartReset, StartConfirmed, StartLinkStatus, Retransmission;
  }

  lemma StepGrows(c: System, m: Move, side: Side)
    ensures Grows(Mine(c, side), Mine(Step(c, m), side), Misses(c, m, side))
  {
    hide Next, BringsNewData;
    var x, y := if m.AtA? then c.a else c.b, if m.AtA? then c.b else c.a;
    if Next(x, y, m.ev).Some? {
      NextGrows(x, y, m.ev);
    } else {
      NothingToMiss(x, y, m.ev);
    }
  }

  lemma NothingToMiss(x: Peer, y: Peer, ev: Event)
    requires Next(x, y, ev).None?
    ensures ev == RequestArrives(false) ==> !BringsNewData(x, y)
  {
    hide Receive, Answered, Sent, DecodeStrictFrame, Handle;
  }

  /** Everything absorbed is returned or missed. */
  predicate Accounts(x: Peer) {
    |x.absorbed| == |x.returned| + |x.missed| && (x.missed == [] ==> x.returned == x.absorbed)
  }

  lemma {:induction false} RunAccounts(c: System, moves: seq<Move>, side: Side)
    requires Accounts(Mine(c, side))
    ensures var x := Mine(Run(c, moves), side);
      Accounts(x) && |x.missed| >= |Mine(c, side).missed|
      && (AnswersWritten(c, moves, side) <==> |x.missed| == |Mine(c, side).missed|)
    decreases |moves|
  {
    hide Step, Misses, Mine;
    if moves != [] {
      StepGrows(c, moves[0], side);
      RunAccounts(Step(c, moves[0]), moves[1..], side);
    }
  }

  /**
   * Exactly-once, in-order delivery in both directions, in every reachable state: whatever is lost, retransmitted
   * or reset, and whichever answers cannot be written, each side has absorbed the payloads that the other has
   * acknowledged, or those plus the pending one; no arriving frame is ever rejected; and what was absorbed has also
   * been returned if and only if every answer to new data was written.
   */
  lemma {:induction false} ExactlyOnceDelivery(c: System, moves: seq<Move>)
    requires Initial(c)
    ensures var e := Run(c, moves);
      && ExactlyOnce(e.a) && ExactlyOnce(e.b) && ArrivesCleanly(e.a, e.b) && ArrivesCleanly(e.b, e.a)
      && (e.a.returned == e.a.absorbed <==> AnswersWritten(c, moves, SideA))
      && (e.b.returned == e.b.absorbed <==> AnswersWritten(c, moves, SideB))
  {
    assert Inv(c.a, c.b);
    RunKeeps(c, moves);
    var e := Run(c, moves);
    hide HandledCleanly, Run, AnswersWritten;
    InvClean(e.a, e.b);
    InvClean(e.b, e.a);
    RunAccounts(c, moves, SideA);
    RunAccounts(c, moves, SideB);
  }

  // ---------------------------------------------------------------- one sender

  /** b never begins a transaction of its own. */
  predicate OneSender(moves: seq<Move>) {
    forall i :: 0 <= i < |moves| ==> !(moves[i].AtB? && Begins(moves[i].ev))
  }

  predicate Begins(ev: Event) {
    ev.BeginReset? || ev.BeginConfirmed? || ev.BeginStatus?
  }

  lemma OneSenderStep(c: System, m: Move)
    requires Inv(c.a, c.b) && MayReset(c.a, c.b) && !(m.AtB? && Begins(m.ev))
    ensures MayReset(Step(c, m).a, Step(c, m).b)
  {
    hide OnWire, DecodeStrictFrame, Handle, Inv, Receive, Answered;
    if m.AtA? && m.ev.RequestArrives? && c.a.request.Some? {
      RequestKeeps(c.a, c.b, m.ev.written);
    }
    if m.AtA? && m.ev.ResponseArrives? && c.a.response.Some? {
      ResponseKeeps(c.a, c.b);
    }
  }

  lemma {:induction false} OneSenderKeepsMayReset(c: System, moves: seq<Move>)
    requires Inv(c.a, c.b) && MayReset(c.a, c.b) && OneSender(moves)
    ensures MayReset(Run(c, moves).a, Run(c, moves).b)
    decreases moves
  {
    hide Inv, Step, MayReset, Begins;
    if moves != [] {
      OneSenderStep(c, moves[0]);
      StepKeeps(c, moves[0]);
      OneSenderKeepsMayReset(Step(c, moves[0]), moves[1..]);
    }
  }

  lemma InitialMayReset(c: System)
    requires Initial(c)
    ensures Inv(c.a, c.b) && MayReset(c.a, c.b)
  {
  }

  /**
   * With a single sender the condition on resets holds in every reachable state: the sender can begin a reset exactly
   * when it has no request pending.
   */
  lemma {:induction false} OneSenderMayAlwaysReset(c: System, moves: seq<Move>)
    requires Initial(c) && OneSender(moves)
    ensures var e := Run(c, moves);
      MayReset(e.a, e.b) && (Next(e.a, e.b, BeginReset).Some? <==> e.a.st.pending.None?)
  {
    hide Inv, Run, Initial, OneSender;
    InitialMayReset(c);
    OneSenderKeepsMayReset(c, moves);
    ResetEnabled(Run(c, moves).a, Run(c, moves).b);
  }

  lemma ResetEnabled(x: Peer, y: Peer)
    requires MayReset(x, y)
    ensures Next(x, y, BeginReset).Some? <==> x.st.pending.None?
  {
    hide OnWire, PrimaryControl;
  }
}
