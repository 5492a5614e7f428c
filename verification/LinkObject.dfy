/** The StrictState object: every method proved against its specification in LinkState. */
module LinkObject {
  import opened Bytes
  import opened Frame
  import opened LinkState

  class StrictState {
    const localAddress: u16
    const remoteAddress: u16
    const localIsMaster: bool
    var ready: bool
    var nextSendFCB: bool
    var expectedFCB: bool
    var pending: Option<StrictFrame>
    var pendingFn: byte

    constructor (localAddress: u16, remoteAddress: u16, localIsMaster: bool)
      ensures Value() == NewState(localAddress, remoteAddress, localIsMaster)
    {
      this.localAddress, this.remoteAddress, this.localIsMaster := localAddress, remoteAddress, localIsMaster;
      ready, nextSendFCB, expectedFCB := false, true, true;
      pending, pendingFn := None, 0;
    }

    function Value(): State
      reads this
    {
      State(localAddress, remoteAddress, localIsMaster, ready, nextSendFCB, expectedFCB, pending, pendingFn)
    }

    method MarkReset()
      modifies this
      ensures Value() == LinkState.MarkReset(old(Value()))
    {
      ready, nextSendFCB, expectedFCB := true, true, true;
      pending, pendingFn := None, 0;
    }

    method StartReset() returns (r: StartResult)
      modifies this
      ensures (Value(), r) == LinkState.StartReset(old(Value()))
    {
      if pending.Some? {
        return Err(RequestPending);
      }
      ready, nextSendFCB := false, true;
      r := StartPending(FN_RESET, false, []);
    }

    method StartConfirmed(userData: seq<byte>) returns (r: StartResult)
      modifies this
      ensures (Value(), r) == LinkState.StartConfirmed(old(Value()), userData)
    {
      if !ready {
        return Err(NotReset);
      }
      if userData == [] {
        return Err(EmptyUserData);
      }
      r := StartPending(FN_CONFIRMED, nextSendFCB, userData);
    }

    method StartLinkStatus() returns (r: StartResult)
      modifies this
      ensures (Value(), r) == LinkState.StartLinkStatus(old(Value()))
    {
      r := StartPending(FN_STATUS, false, []);
    }

    method StartPending(function_: byte, fcb: bool, userData: seq<byte>) returns (r: StartResult)
      modifies this
      ensures (Value(), r) == LinkState.StartPending(old(Value()), function_, fcb, userData)
    {
      if pending.Some? {
        return Err(RequestPending);
      }
      if |userData| > MAX_DATA_SIZE {
        return Err(DataTooLong);
      }
      var frame := PrimaryFrame(Value(), function_, fcb, userData);
      pending, pendingFn := Some(frame), function_;
      r := Ok(frame);
    }

    method Handle(frame: StrictFrame) returns (r: HandleResult)
      modifies this
      ensures (Value(), r) == LinkState.Handle(old(Value()), frame)
    {
      hide Flag, Func, ValidControl, SecondaryControl;
      if frame.destination != localAddress || frame.source != remoteAddress {
        return Err(AddressMismatch);
      }
      if !ValidControl(frame.control) {
        return Err(BadControl);
      }
      if Flag(frame.control, CTRL_DIR) == localIsMaster {
        return Err(DirectionMismatch);
      }
      if Flag(frame.control, CTRL_PRM) {
        r := HandlePrimary(frame);
      } else {
        r := HandleSecondary(frame);
      }
    }

    method HandlePrimary(frame: StrictFrame) returns (r: HandleResult)
      modifies this
      ensures (Value(), r) == LinkState.HandlePrimary(old(Value()), frame)
    {
      hide Flag, Func, ValidControl, SecondaryControl;
      var function_ := Func(frame.control);
      if function_ == FN_RESET {
        if frame.userData != [] {
          return Err(UnexpectedUserData);
        }
        MarkReset();
        r := Ok(NO_ACTION.(response := Some(SecondaryFrame(Value(), FN_ACK, false)), reset := true));
      } else if function_ == FN_TEST {
        if frame.userData != [] {
          return Err(UnexpectedUserData);
        }
        r := HandleConfirmed(frame.control, [], false);
      } else if function_ == FN_CONFIRMED {
        if frame.userData == [] {
          return Err(MissingUserData);
        }
        r := HandleConfirmed(frame.control, frame.userData, true);
      } else if function_ == FN_UNCONFIRMED {
        if frame.userData == [] {
          return Err(MissingUserData);
        }
        r := Ok(NO_ACTION.(userData := frame.userData));
      } else if function_ == FN_STATUS {
        if frame.userData != [] {
          return Err(UnexpectedUserData);
        }
        r := Ok(NO_ACTION.(response := Some(SecondaryFrame(Value(), FN_LINK_STATUS, false)), linkStatus := true));
      } else {
        r := Ok(NO_ACTION.(response := Some(SecondaryFrame(Value(), FN_NOT_SUPPORTED, false)), notSupported := true));
      }
    }

    method HandleConfirmed(control: byte, userData: seq<byte>, deliver: bool) returns (r: HandleResult)
      modifies this
      ensures (Value(), r) == LinkState.HandleConfirmed(old(Value()), control, userData, deliver)
    {
      hide Flag, SecondaryControl;
      if !ready {
        return Ok(NO_ACTION.(response := Some(SecondaryFrame(Value(), FN_NACK, false)), negative := true));
      }
      var action := NO_ACTION.(response := Some(SecondaryFrame(Value(), FN_ACK, false)));
      if Flag(control, CTRL_FCB) != expectedFCB {
        return Ok(action.(duplicate := true));
      }
      expectedFCB := !expectedFCB;
      if deliver {
        action := action.(userData := userData);
      }
      r := Ok(action);
    }

    method HandleSecondary(frame: StrictFrame) returns (r: HandleResult)
      modifies this
      ensures (Value(), r) == LinkState.HandleSecondary(old(Value()), frame)
    {
      hide Flag, Func;
      if frame.userData != [] {
        return Err(UnexpectedUserData);
      }
      if pending.None? {
        return Err(UnexpectedResponse);
      }
      var function_ := Func(frame.control);
      var action := NO_ACTION.(dataFlowControl := Flag(frame.control, CTRL_FCV));
      if function_ == FN_ACK {
        if pendingFn != FN_RESET && pendingFn != FN_TEST && pendingFn != FN_CONFIRMED {
          return Err(AckMismatch);
        }
        action := action.(acknowledged := true);
        if pendingFn == FN_RESET {
          ready, nextSendFCB := true, true;
        } else if pendingFn == FN_CONFIRMED {
          nextSendFCB := !nextSendFCB;
        }
        pending, pendingFn := None, 0;
      } else if function_ == FN_NACK {
        action := action.(negative := true);
      } else if function_ == FN_LINK_STATUS {
        if pendingFn != FN_STATUS {
          return Err(StatusMismatch);
        }
        action := action.(linkStatus := true);
        pending, pendingFn := None, 0;
      } else if function_ == FN_NOT_SUPPORTED {
        action := action.(notSupported := true);
        pending, pendingFn := None, 0;
      } else {
        return Err(UnsupportedFunction);
      }
      r := Ok(action);
    }
  }
}
