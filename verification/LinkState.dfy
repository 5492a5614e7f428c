/** The strict link primary/secondary state machine (IEEE Std 1815-2012, clause 9). */
module LinkState {
  import opened Bytes
  import opened Frame

  const FN_RESET: byte := 0
  const FN_TEST: byte := 2
  const FN_CONFIRMED: byte := 3
  const FN_UNCONFIRMED: byte := 4
  const FN_STATUS: byte := 9

  const FN_ACK: byte := 0
  const FN_NACK: byte := 1
  const FN_LINK_STATUS: byte := 11
  const FN_NOT_SUPPORTED: byte := 15

  datatype LinkError =
    | RequestPending | NotReset | EmptyUserData | DataTooLong | NoPending
    | AddressMismatch | BadControl | DirectionMismatch
    | UnexpectedUserData | MissingUserData
    | UnexpectedResponse | AckMismatch | StatusMismatch | UnsupportedFunction

  /** What one received frame did. */
  datatype Action = Action(response: Option<StrictFrame>, userData: seq<byte>, reset: bool, duplicate: bool,
                           acknowledged: bool, negative: bool, linkStatus: bool, notSupported: bool,
                           dataFlowControl: bool)

  const NO_ACTION := Action(None, [], false, false, false, false, false, false, false)

  datatype State = State(local: u16, remote: u16, isMaster: bool, ready: bool, nextSendFCB: bool,
                         expectedFCB: bool, pending: Option<StrictFrame>, pendingFn: byte)

  type StartResult = Result<StrictFrame, LinkError>
  type HandleResult = Result<Action, LinkError>

  function NewState(local: u16, remote: u16, isMaster: bool): State {
    State(local, remote, isMaster, false, true, true, None, 0)
  }

  // ---------------------------------------------------------------- frame building

  function PrimaryControl(isMaster: bool, function_: byte, fcb: bool, fcv: bool): byte {
    CTRL_PRM | function_ | (if isMaster then CTRL_DIR else 0) | (if fcb then CTRL_FCB else 0)
    | (if fcv then CTRL_FCV else 0)
  }

  function SecondaryControl(isMaster: bool, function_: byte, dfc: bool): byte {
    function_ | (if isMaster then CTRL_DIR else 0) | (if dfc then CTRL_FCV else 0)
  }

  function PrimaryFrame(s: State, function_: byte, fcb: bool, userData: seq<byte>): StrictFrame {
    StrictFrame(PrimaryControl(s.isMaster, function_, fcb, function_ == FN_TEST || function_ == FN_CONFIRMED),
                s.remote, s.local, userData)
  }

  function SecondaryFrame(s: State, function_: byte, dfc: bool): StrictFrame {
    StrictFrame(SecondaryControl(s.isMaster, function_, dfc), s.remote, s.local, [])
  }

  // ---------------------------------------------------------------- primary side: starting transactions

  function StartPending(s: State, function_: byte, fcb: bool, userData: seq<byte>): (State, StartResult) {
    if s.pending.Some? then (s, Err(RequestPending))
    else if |userData| > MAX_DATA_SIZE then (s, Err(DataTooLong))
    else
      var frame := PrimaryFrame(s, function_, fcb, userData);
      (s.(pending := Some(frame), pendingFn := function_), Ok(frame))
  }

  function StartReset(s: State): (State, StartResult) {
    if s.pending.Some? then (s, Err(RequestPending))
    else StartPending(s.(ready := false, nextSendFCB := true), FN_RESET, false, [])
  }

  function StartConfirmed(s: State, userData: seq<byte>): (State, StartResult) {
    if !s.ready then (s, Err(NotReset))
    else if userData == [] then (s, Err(EmptyUserData))
    else StartPending(s, FN_CONFIRMED, s.nextSendFCB, userData)
  }

  function StartLinkStatus(s: State): (State, StartResult) {
    StartPending(s, FN_STATUS, false, [])
  }

  function Unconfirmed(s: State, userData: seq<byte>): StartResult {
    if userData == [] then Err(EmptyUserData)
    else if |userData| > MAX_DATA_SIZE then Err(DataTooLong)
    else Ok(StrictFrame(PrimaryControl(s.isMaster, FN_UNCONFIRMED, false, false), s.remote, s.local, userData))
  }

  function Retransmission(s: State): StartResult {
    if s.pending.None? then Err(NoPending) else Ok(s.pending.value)
  }

  function MarkReset(s: State): State {
    s.(ready := true, nextSendFCB := true, expectedFCB := true, pending := None, pendingFn := 0)
  }

  // ---------------------------------------------------------------- handling received frames

  function Handle(s: State, frame: StrictFrame): (State, HandleResult) {
    if frame.destination != s.local || frame.source != s.remote then (s, Err(AddressMismatch))
    else if !ValidControl(frame.control) then (s, Err(BadControl))
    else if Flag(frame.control, CTRL_DIR) == s.isMaster then (s, Err(DirectionMismatch))
    else if Flag(frame.control, CTRL_PRM) then HandlePrimary(s, frame)
    else HandleSecondary(s, frame)
  }

  function HandlePrimary(s: State, frame: StrictFrame): (State, HandleResult) {
    var function_ := Func(frame.control);
    if function_ == FN_RESET then
      if frame.userData != [] then (s, Err(UnexpectedUserData))
      else
        var s' := MarkReset(s);
        (s', Ok(NO_ACTION.(response := Some(SecondaryFrame(s', FN_ACK, false)), reset := true)))
    else if function_ == FN_TEST then
      if frame.userData != [] then (s, Err(UnexpectedUserData))
      else HandleConfirmed(s, frame.control, [], false)
    else if function_ == FN_CONFIRMED then
      if frame.userData == [] then (s, Err(MissingUserData))
      else HandleConfirmed(s, frame.control, frame.userData, true)
    else if function_ == FN_UNCONFIRMED then
      if frame.userData == [] then (s, Err(MissingUserData))
      else (s, Ok(NO_ACTION.(userData := frame.userData)))
    else if function_ == FN_STATUS then
      if frame.userData != [] then (s, Err(UnexpectedUserData))
      else (s, Ok(NO_ACTION.(response := Some(SecondaryFrame(s, FN_LINK_STATUS, false)), linkStatus := true)))
    else
      (s, Ok(NO_ACTION.(response := Some(SecondaryFrame(s, FN_NOT_SUPPORTED, false)), notSupported := true)))
  }

  function HandleConfirmed(s: State, control: byte, userData: seq<byte>, deliver: bool): (State, HandleResult) {
    if !s.ready then
      (s, Ok(NO_ACTION.(response := Some(SecondaryFrame(s, FN_NACK, false)), negative := true)))
    else if Flag(control, CTRL_FCB) != s.expectedFCB then
      (s, Ok(NO_ACTION.(response := Some(SecondaryFrame(s, FN_ACK, false)), duplicate := true)))
    else
      (s.(expectedFCB := !s.expectedFCB),
       Ok(NO_ACTION.(response := Some(SecondaryFrame(s, FN_ACK, false)), userData := if deliver then userData else [])))
  }

  function HandleSecondary(s: State, frame: StrictFrame): (State, HandleResult) {
    var function_ := Func(frame.control);
    var action := NO_ACTION.(dataFlowControl := Flag(frame.control, CTRL_FCV));
    var idle := s.(pending := None, pendingFn := 0);
    if frame.userData != [] then (s, Err(UnexpectedUserData))
    else if s.pending.None? then (s, Err(UnexpectedResponse))
    else if function_ == FN_ACK then
      if s.pendingFn != FN_RESET && s.pendingFn != FN_TEST && s.pendingFn != FN_CONFIRMED then (s, Err(AckMismatch))
      else
        var s' := if s.pendingFn == FN_RESET then idle.(ready := true, nextSendFCB := true)
                  else if s.pendingFn == FN_CONFIRMED then idle.(nextSendFCB := !s.nextSendFCB)
                  else idle;
        (s', Ok(action.(acknowledged := true)))
    else if function_ == FN_NACK then (s, Ok(action.(negative := true)))
    else if function_ == FN_LINK_STATUS then
      if s.pendingFn != FN_STATUS then (s, Err(StatusMismatch))
      else (idle, Ok(action.(linkStatus := true)))
    else if function_ == FN_NOT_SUPPORTED then (idle, Ok(action.(notSupported := true)))
    else (s, Err(UnsupportedFunction))
  }

  // ---------------------------------------------------------------- what the control octets say

  lemma PrimaryControlBits(isMaster: bool, function_: byte, fcb: bool, fcv: bool)
    requires function_ < 16
    ensures var c := PrimaryControl(isMaster, function_, fcb, fcv);
      Flag(c, CTRL_PRM) && Func(c) == function_ && Flag(c, CTRL_DIR) == isMaster
      && Flag(c, CTRL_FCB) == fcb && Flag(c, CTRL_FCV) == fcv
  {
    if isMaster {
      if fcb { if fcv { } else { } } else { if fcv { } else { } }
    } else {
      if fcb { if fcv { } else { } } else { if fcv { } else { } }
    }
  }

  lemma SecondaryControlBits(isMaster: bool, function_: byte, dfc: bool)
    requires function_ < 16
    ensures var c := SecondaryControl(isMaster, function_, dfc);
      !Flag(c, CTRL_PRM) && Func(c) == function_ && Flag(c, CTRL_DIR) == isMaster
      && !Flag(c, CTRL_FCB) && Flag(c, CTRL_FCV) == dfc
  {
  }

  // ---------------------------------------------------------------- every frame, in one table

  /** Frames that the frame count bit protects. */
  predicate Counted(frame: StrictFrame) {
    Flag(frame.control, CTRL_PRM) && (Func(frame.control) == FN_TEST || Func(frame.control) == FN_CONFIRMED)
  }

  /** A counted frame that is new to s. */
  predicate Fresh(s: State, frame: StrictFrame) {
    Counted(frame) && s.ready && Flag(frame.control, CTRL_FCB) == s.expectedFCB
  }

  /** The table for one frame: s' and r are what handling it gives. */
  predicate Summary(s: State, frame: StrictFrame, s': State, r: HandleResult) {
    var primary, function_ := Flag(frame.control, CTRL_PRM), Func(frame.control);
    if r.Err? then s' == s
    else
      var a := r.value;
      && (a.response.Some? <==> primary && function_ != FN_UNCONFIRMED)
      && (a.response.Some? ==> ToPeer(s, a.response.value))
      && a.userData == (if primary && (function_ == FN_UNCONFIRMED || (function_ == FN_CONFIRMED && Fresh(s, frame)))
                        then frame.userData else [])
      && (a.duplicate <==> Counted(frame) && s.ready && !Fresh(s, frame))
      && (primary ==> (a.negative <==> Counted(frame) && !s.ready))
      && (a.reset <==> primary && function_ == FN_RESET)
      && s'.expectedFCB == (a.reset || s.expectedFCB != Fresh(s, frame))
  }

  /** An empty secondary frame from s to its peer. */
  predicate ToPeer(s: State, f: StrictFrame) {
    && f.destination == s.remote && f.source == s.local && f.userData == []
    && !Flag(f.control, CTRL_PRM) && Flag(f.control, CTRL_DIR) == s.isMaster
  }

  lemma AnswersToPeer(s: State, function_: byte)
    requires function_ == FN_ACK || function_ == FN_NACK || function_ == FN_LINK_STATUS || function_ == FN_NOT_SUPPORTED
    ensures ToPeer(s, SecondaryFrame(s, function_, false)) && ToPeer(s, SecondaryFrame(MarkReset(s), function_, false))
  {
    hide SecondaryControl, Flag;
    SecondaryControlBits(s.isMaster, function_, false);
  }

  lemma CountedSummary(s: State, frame: StrictFrame)
    requires Counted(frame)
    ensures Summary(s, frame, HandlePrimary(s, frame).0, HandlePrimary(s, frame).1)
  {
    hide Flag, Func, SecondaryFrame, ToPeer;
    AnswersToPeer(s, FN_ACK);
    AnswersToPeer(s, FN_NACK);
  }

  lemma UncountedSummary(s: State, frame: StrictFrame)
    requires Flag(frame.control, CTRL_PRM) && !Counted(frame)
    ensures Summary(s, frame, HandlePrimary(s, frame).0, HandlePrimary(s, frame).1)
  {
    hide Flag, Func, SecondaryFrame, ToPeer, HandleConfirmed;
    AnswersToPeer(s, FN_ACK);
    AnswersToPeer(s, FN_LINK_STATUS);
    AnswersToPeer(s, FN_NOT_SUPPORTED);
  }

  lemma SecondarySummary(s: State, frame: StrictFrame)
    requires !Flag(frame.control, CTRL_PRM)
    ensures Summary(s, frame, HandleSecondary(s, frame).0, HandleSecondary(s, frame).1)
  {
    hide Flag, Func, ToPeer;
  }

  /**
   * Whatever frame arrives: an error changes nothing; every request but unconfirmed data is answered, and nothing
   * else is; data is handed on exactly when it is unconfirmed or new; the receive bit moves exactly on a new counted
   * frame or a reset; repeats and unready links are told apart from new data.
   */
  lemma HandleSummary(s: State, frame: StrictFrame)
    ensures Summary(s, frame, Handle(s, frame).0, Handle(s, frame).1)
  {
    hide Flag, ValidControl, HandlePrimary, HandleSecondary, Summary, Counted;
    ErrorSummary(s, frame, Handle(s, frame).1);
    if !Flag(frame.control, CTRL_PRM) {
      SecondarySummary(s, frame);
    } else if Counted(frame) {
      CountedSummary(s, frame);
    } else {
      UncountedSummary(s, frame);
    }
  }

  lemma ErrorSummary(s: State, frame: StrictFrame, r: HandleResult)
    ensures r.Err? ==> Summary(s, frame, s, r)
  {
    hide Flag, Func;
  }
}
