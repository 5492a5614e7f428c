/**
 * The link state machine as a table of control octets (IEEE Std 1815-2012, clause 9): what is accepted, what is
 * answered and what is sent, octet by octet.
 */
module LinkTable {
  import opened Bytes
  import opened Frame
  import opened LinkState
  import LinkChannel

  // ---------------------------------------------------------------- the table

  /** A control octet of the station s, given the octet that an outstation would use. */
  function Own(s: State, octet: byte): byte
    requires octet < 0x80
  {
    if s.isMaster then octet + 0x80 else octet
  }

  /** The frame without data that s sends its peer. */
  function Reply(s: State, octet: byte): StrictFrame
    requires octet < 0x80
  {
    StrictFrame(Own(s, octet), s.remote, s.local, [])
  }

  /** An accepted request for which the state stays and the given answer is due. */
  function Answer(s: State, octet: byte): Action
    requires octet < 0x80
  {
    NO_ACTION.(response := Some(Reply(s, octet)))
  }

  /** A link that was just reset. */
  function JustReset(s: State): State {
    State(s.local, s.remote, s.isMaster, true, true, true, None, 0)
  }

  /** A request that the frame count bit protects: 0x72 and 0x73 carry the bit, 0x52 and 0x53 do not. */
  function CountedRequest(s: State, bit: bool, data: seq<byte>): (State, HandleResult) {
    if !s.ready then (s, Ok(Answer(s, 0x01).(negative := true)))
    else if bit == s.expectedFCB then (s.(expectedFCB := !bit), Ok(Answer(s, 0x00).(userData := data)))
    else (s, Ok(Answer(s, 0x00).(duplicate := true)))
  }

  /** Requests by their octet, the peer's direction bit taken off. */
  function Request(s: State, octet: byte, data: seq<byte>): (State, HandleResult) {
    if octet in {0x40, 0x49, 0x52, 0x72} && data != [] then (s, Err(UnexpectedUserData))
    else if octet in {0x44, 0x53, 0x73} && data == [] then (s, Err(MissingUserData))
    else if octet == 0x40 then (JustReset(s), Ok(Answer(s, 0x00).(reset := true)))
    else if octet == 0x44 then (s, Ok(NO_ACTION.(userData := data)))
    else if octet == 0x49 then (s, Ok(Answer(s, 0x0B).(linkStatus := true)))
    else CountedRequest(s, octet in {0x72, 0x73}, data)
  }

  /** Nothing is pending any more. */
  function Done(s: State): State {
    s.(pending := None, pendingFn := 0)
  }

  /** Answers by their octet, the peer's direction bit taken off: 0x10 and up tell that its buffers are full. */
  function Response(s: State, octet: byte, data: seq<byte>): (State, HandleResult) {
    var noted := NO_ACTION.(dataFlowControl := octet >= 0x10);
    if data != [] then (s, Err(UnexpectedUserData))
    else if s.pending.None? then (s, Err(UnexpectedResponse))
    else if octet in {0x01, 0x11} then (s, Ok(noted.(negative := true)))
    else if octet in {0x0F, 0x1F} then (Done(s), Ok(noted.(notSupported := true)))
    else if octet in {0x0B, 0x1B} then
      if s.pendingFn == 9 then (Done(s), Ok(noted.(linkStatus := true))) else (s, Err(StatusMismatch))
    else if s.pendingFn == 0 then (Done(s).(ready := true, nextSendFCB := true), Ok(noted.(acknowledged := true)))
    else if s.pendingFn == 2 then (Done(s), Ok(noted.(acknowledged := true)))
    else if s.pendingFn == 3 then (Done(s).(nextSendFCB := !s.nextSendFCB), Ok(noted.(acknowledged := true)))
    else (s, Err(AckMismatch))
  }

  /** The whole table. */
  function Table(s: State, f: StrictFrame): (State, HandleResult) {
    if f.destination != s.local || f.source != s.remote then (s, Err(AddressMismatch))
    else if f.control !in CONTROL_OCTETS then (s, Err(BadControl))
    else if s.isMaster == (f.control >= 0x80) then (s, Err(DirectionMismatch))
    else
      var octet := if s.isMaster then f.control else f.control - 0x80;
      if octet >= 0x40 then Request(s, octet, f.userData) else Response(s, octet, f.userData)
  }

  // ---------------------------------------------------------------- handling is the table

  lemma AnswerIs(s: State)
    ensures SecondaryFrame(s, FN_ACK, false) == Reply(s, 0x00)
    ensures SecondaryFrame(s, FN_NACK, false) == Reply(s, 0x01)
    ensures SecondaryFrame(s, FN_LINK_STATUS, false) == Reply(s, 0x0B)
  {
  }

  /** What the code reads off the octet of a request. */
  lemma RequestBits(control: byte, octet: byte)
    requires control in CONTROL_OCTETS && octet >= 0x40 && octet < 0x80
    requires control == octet || (control >= 0x80 && octet == control - 0x80)
    ensures Flag(control, CTRL_PRM) && Flag(control, CTRL_DIR) == (control >= 0x80)
    ensures Flag(control, CTRL_FCB) == (octet in {0x72, 0x73})
    ensures Func(control) == FN_RESET <==> octet == 0x40
    ensures Func(control) == FN_TEST <==> octet in {0x52, 0x72}
    ensures Func(control) == FN_CONFIRMED <==> octet in {0x53, 0x73}
    ensures Func(control) == FN_UNCONFIRMED <==> octet == 0x44
    ensures Func(control) == FN_STATUS <==> octet == 0x49
    ensures octet in {0x40, 0x44, 0x49, 0x52, 0x53, 0x72, 0x73}
  {
  }

  /** What the code reads off the octet of an answer. */
  lemma ResponseBits(control: byte, octet: byte)
    requires control in CONTROL_OCTETS && octet < 0x40
    requires control == octet || (control >= 0x80 && octet == control - 0x80)
    ensures !Flag(control, CTRL_PRM) && Flag(control, CTRL_DIR) == (control >= 0x80)
    ensures Flag(control, CTRL_FCV) == (octet >= 0x10)
    ensures Func(control) == FN_ACK <==> octet in {0x00, 0x10}
    ensures Func(control) == FN_NACK <==> octet in {0x01, 0x11}
    ensures Func(control) == FN_LINK_STATUS <==> octet in {0x0B, 0x1B}
    ensures Func(control) == FN_NOT_SUPPORTED <==> octet in {0x0F, 0x1F}
    ensures octet in {0x00, 0x01, 0x0B, 0x0F, 0x10, 0x11, 0x1B, 0x1F}
  {
  }

  lemma RequestRow(s: State, f: StrictFrame, octet: byte)
    requires f.control in CONTROL_OCTETS && octet >= 0x40 && octet < 0x80
    requires f.control == octet || (f.control >= 0x80 && octet == f.control - 0x80)
    ensures HandlePrimary(s, f) == Request(s, octet, f.userData)
  {
    RequestBits(f.control, octet);
    AnswerIs(s);
    AnswerIs(MarkReset(s));
    hide Flag, Func, SecondaryFrame, Reply;
  }

  lemma ResponseRow(s: State, f: StrictFrame, octet: byte)
    requires f.control in CONTROL_OCTETS && octet < 0x40
    requires f.control == octet || (f.control >= 0x80 && octet == f.control - 0x80)
    ensures HandleSecondary(s, f) == Response(s, octet, f.userData)
  {
    ResponseBits(f.control, octet);
    hide Flag, Func;
  }

  lemma Undirected(control: byte)
    requires control in CONTROL_OCTETS
    ensures Flag(control, CTRL_DIR) == (control >= 0x80)
    ensures var octet := if control >= 0x80 then control - 0x80 else control;
      octet < 0x80 && Flag(control, CTRL_PRM) == (octet >= 0x40)
  {
  }

  /**
   * For every state and every frame, handling is what the table says: which stations, octets and directions are
   * accepted, which octet answers, what is handed on, what changes, and which error is reported otherwise.
   */
  lemma HandleIsTable(s: State, f: StrictFrame)
    ensures Handle(s, f) == Table(s, f)
  {
    hide HandlePrimary, HandleSecondary, Request, Response, ValidControl, Flag;
    ControlOctets(f.control);
    if f.control in CONTROL_OCTETS {
      Undirected(f.control);
      var octet := if f.control >= 0x80 then f.control - 0x80 else f.control;
      if octet >= 0x40 {
        RequestRow(s, f, octet);
      } else {
        ResponseRow(s, f, octet);
      }
    }
  }

  // ---------------------------------------------------------------- what is sent

  /**
   * What each operation sends, octet by octet, exactly when it sends anything, and the state it leaves: a reset, a
   * payload under the current frame count bit, a status request, unconfirmed data.
   */
  lemma SentOctets(s: State, data: seq<byte>)
    ensures StartReset(s) ==
      if s.pending.Some? then (s, Err(RequestPending))
      else
        var f := Reply(s, 0x40);
        (s.(ready := false, nextSendFCB := true, pending := Some(f), pendingFn := 0), Ok(f))
    ensures StartConfirmed(s, data) ==
      if !s.ready then (s, Err(NotReset))
      else if data == [] then (s, Err(EmptyUserData))
      else if s.pending.Some? then (s, Err(RequestPending))
      else if |data| > 250 then (s, Err(DataTooLong))
      else
        var f := Reply(s, if s.nextSendFCB then 0x73 else 0x53).(userData := data);
        (s.(pending := Some(f), pendingFn := 3), Ok(f))
    ensures StartLinkStatus(s) ==
      if s.pending.Some? then (s, Err(RequestPending))
      else (s.(pending := Some(Reply(s, 0x49)), pendingFn := 9), Ok(Reply(s, 0x49)))
    ensures Unconfirmed(s, data) ==
      if data == [] then Err(EmptyUserData)
      else if |data| > 250 then Err(DataTooLong)
      else Ok(Reply(s, 0x44).(userData := data))
  {
    PrimaryControlIs(s);
    hide PrimaryControl, Own;
  }

  lemma PrimaryControlIs(s: State)
    ensures PrimaryControl(s.isMaster, FN_RESET, false, false) == Own(s, 0x40)
    ensures PrimaryControl(s.isMaster, FN_CONFIRMED, true, true) == Own(s, 0x73)
    ensures PrimaryControl(s.isMaster, FN_CONFIRMED, false, true) == Own(s, 0x53)
    ensures PrimaryControl(s.isMaster, FN_STATUS, false, false) == Own(s, 0x49)
    ensures PrimaryControl(s.isMaster, FN_UNCONFIRMED, false, false) == Own(s, 0x44)
  {
  }

  /** A new link is not ready; the first payload after a reset goes out with the frame count bit, and is expected so. */
  lemma FirstBits(local: u16, remote: u16, isMaster: bool, s: State, data: seq<byte>)
    requires 0 < |data| <= 250
    ensures NewState(local, remote, isMaster) == State(local, remote, isMaster, false, true, true, None, 0)
    ensures MarkReset(s) == JustReset(s)
    ensures StartConfirmed(MarkReset(s), data).1 == Ok(Reply(s, 0x73).(userData := data))
  {
    SentOctets(MarkReset(s), data);
  }

  // ---------------------------------------------------------------- what an acknowledgement means

  /** An acknowledgement of a payload means that it was taken, now or before: an unready link never acknowledges one. */
  lemma AcknowledgedMeansTaken(s: State, f: StrictFrame)
    requires f.control in {0x53, 0x73, 0xD3, 0xF3}
    requires Handle(s, f).1.Ok? && Handle(s, f).1.value.response.Some?
    requires Handle(s, f).1.value.response.value.control in {0x00, 0x80}
    ensures s.ready && (Handle(s, f).1.value.userData == f.userData || Handle(s, f).1.value.duplicate)
  {
    HandleIsTable(s, f);
  }

  /** Everything that arrives is what some link in the given role, which is not ready, answers to the request. */
  ghost predicate AnswersOfUnready(inbox: seq<LinkChannel.Read>, request: StrictFrame) {
    forall i :: 0 <= i < |inbox| && inbox[i].Arrived? ==> AnswerOfUnready(inbox[i].frame, request)
  }

  ghost predicate AnswerOfUnready(answer: StrictFrame, request: StrictFrame) {
    exists t: State :: !t.ready && Handle(t, request).1.Ok? && Handle(t, request).1.value.response == Some(answer)
  }

  /** Nothing that an unready link answers to a payload is an acknowledgement. */
  lemma UnreadyRefuses(answer: StrictFrame, request: StrictFrame)
    requires request.control in {0x53, 0x73, 0xD3, 0xF3} && AnswerOfUnready(answer, request)
    ensures answer.control in {0x01, 0x81} && !LinkChannel.IsAck(answer)
  {
    hide Handle;
    var t: State :| !t.ready && Handle(t, request).1.Ok? && Handle(t, request).1.value.response == Some(answer);
    HandleIsTable(t, request);
  }

  /** Sending to a link that was not reset never succeeds, whatever is lost and however often it is repeated. */
  lemma SendToUnreadyFails(c: LinkChannel.Conn, data: seq<byte>, maximumRetries: nat)
    requires StartConfirmed(c.st, data).1.Ok?
    requires AnswersOfUnready(c.inbox, StartConfirmed(c.st, data).1.value)
    ensures LinkChannel.SendConfirmed(c, data, maximumRetries).1.Err?
  {
    hide LinkChannel.SendConfirmed, AnswerOfUnready, LinkChannel.IsAck, LinkChannel.Withdrawn, StartConfirmed;
    SentOctets(c.st, data);
    var used, sent := LinkChannel.SendConfirmedVerdict(c, data, maximumRetries);
    if LinkChannel.SendConfirmed(c, data, maximumRetries).1.Ok? {
      var last := |used| - 1;
      assert c.inbox[last] == used[last];
      UnreadyRefuses(used[last].frame, StartConfirmed(c.st, data).1.value);
      assert false;
    }
  }
}
