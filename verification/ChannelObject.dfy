/** The StrictChannel object: its retry and read loops, proved against LinkChannel. */
module ChannelObject {
  import opened Bytes
  import opened Frame
  import opened LinkState
  import LinkObject
  import opened LinkChannel

  class StrictChannel {
    const state: LinkObject.StrictState
    const maximumRetries: nat
    // The connection: what its reads and writes will do, what it has carried, what the handler was given.
    var inbox: seq<Read>
    var outbox: seq<bool>
    var log: seq<Written>
    var handed: seq<Payload>

    constructor (state: LinkObject.StrictState, maximumRetries: nat, inbox: seq<Read>, outbox: seq<bool>)
      ensures this.state == state && this.maximumRetries == maximumRetries
      ensures Value() == Conn(state.Value(), inbox, outbox, [], [])
    {
      this.state, this.maximumRetries := state, maximumRetries;
      this.inbox, this.outbox, log, handed := inbox, outbox, [], [];
    }

    ghost function Value(): Conn
      reads this, state
    {
      Conn(state.Value(), inbox, outbox, log, handed)
    }

    method WriteFrame(w: Written) returns (ok: bool)
      modifies this`outbox, this`log
      ensures (Value(), ok) == LinkChannel.Write(old(Value()), w)
    {
      ok := outbox != [] && outbox[0];
      outbox := if outbox == [] then [] else outbox[1..];
      if ok {
        log := log + [w];
      }
    }

    method Answer(read: Read) returns (r: Result<Action, Failure>)
      requires read.Arrived?
      modifies this`log, this`handed, state
      ensures (Value(), r) == HandleFrame(old(Value()), read)
    {
      hide LinkState.Handle;
      var handling := state.Handle(read.frame);
      if handling.Err? {
        return Err(LinkFailure(handling.error));
      }
      var action := handling.value;
      if action.response.Some? {
        if !read.answered {
          return Err(WriteFailed);
        }
        log := log + [Response(action.response.value)];
      }
      if action.userData != [] {
        handed := handed + [action.userData];
        if !read.handled {
          return Err(HandlerFailed);
        }
      }
      r := Ok(action);
    }

    method Transact(first: StrictFrame, goal: Goal) returns (r: Outcome)
      modifies this, state
      ensures (Value(), r) == Attempts(old(Value()), first, 0, maximumRetries, goal)
    {
      hide LinkState.Handle, HandleFrame;
      ghost var final := Attempts(Value(), first, 0, maximumRetries, goal);
      var frame := first;
      var attempt := 0;
      while attempt <= maximumRetries
        invariant attempt <= maximumRetries + 1
        invariant Attempts(Value(), first, attempt, maximumRetries, goal) == final
        invariant attempt == 0 ==> frame == first
      {
        if attempt > 0 {
          if state.pending.None? {
            return Err(LinkFailure(NoPending));
          }
          frame := state.pending.value;
        }
        ghost var unsent := Value();
        var ok := WriteFrame(Request(frame));
        if !ok {
          return Err(WriteFailed);
        }
        assert Wait(Value(), first, attempt, maximumRetries, goal)
            == Attempts(unsent, first, attempt, maximumRetries, goal);
        var waiting := true;
        while waiting
          invariant waiting ==> Wait(Value(), first, attempt, maximumRetries, goal) == final
          invariant !waiting ==> Attempts(Value(), first, attempt + 1, maximumRetries, goal) == final
          decreases waiting, |inbox|
        {
          if inbox == [] {
            return Err(ReadFailed);
          }
          var read := inbox[0];
          inbox := inbox[1..];
          match read {
            case Broken =>
              return Err(ReadFailed);
            case TimedOut =>
              waiting := false;
            case Arrived(_, _, _) =>
              ghost var before := Value();
              var handling := Answer(read);
              HandleFrameLog(before, read);
              if handling.Err? {
                return Err(handling.error);
              }
              if Reached(goal, handling.value) {
                return Ok(());
              }
              if handling.value.negative {
                waiting := false;
              }
          }
        }
        attempt := attempt + 1;
      }
      r := Err(Exhausted);
    }

    method Reset() returns (r: Outcome)
      modifies this, state
      ensures (Value(), r) == LinkChannel.Reset(old(Value()), maximumRetries)
    {
      hide Attempts;
      var started := state.StartReset();
      if started.Err? {
        return Err(LinkFailure(started.error));
      }
      r := Transact(started.value, UntilAcknowledged);
    }

    method SendConfirmed(userData: Payload) returns (r: Outcome)
      modifies this, state
      ensures (Value(), r) == LinkChannel.SendConfirmed(old(Value()), userData, maximumRetries)
    {
      hide Attempts;
      var started := state.StartConfirmed(userData);
      if started.Err? {
        return Err(LinkFailure(started.error));
      }
      r := Transact(started.value, UntilAcknowledged);
    }

    method SendUnconfirmed(userData: Payload) returns (r: Outcome)
      modifies this`outbox, this`log
      ensures (Value(), r) == LinkChannel.SendUnconfirmed(old(Value()), userData)
    {
      var frame := Unconfirmed(state.Value(), userData);
      if frame.Err? {
        return Err(LinkFailure(frame.error));
      }
      var ok := WriteFrame(Datagram(frame.value));
      r := if ok then Ok(()) else Err(WriteFailed);
    }

    method KeepAlive() returns (r: Outcome)
      modifies this, state
      ensures (Value(), r) == LinkChannel.KeepAlive(old(Value()), maximumRetries)
    {
      hide Attempts;
      var started := state.StartLinkStatus();
      if started.Err? {
        return Err(LinkFailure(started.error));
      }
      r := Transact(started.value, UntilLinkStatus);
    }

    method Receive() returns (r: Result<Payload, Failure>)
      modifies this, state
      ensures (Value(), r) == LinkChannel.Receive(old(Value()))
    {
      hide LinkState.Handle;
      ghost var final := LinkChannel.Receive(Value());
      while true
        invariant LinkChannel.Receive(Value()) == final
        decreases |inbox|
      {
        if inbox == [] {
          return Err(ReadFailed);
        }
        var read := inbox[0];
        inbox := inbox[1..];
        if !read.Arrived? {
          return Err(ReadFailed);
        }
        var handling := state.Handle(read.frame);
        if handling.Err? {
          return Err(LinkFailure(handling.error));
        }
        var action := handling.value;
        if action.response.Some? {
          if !read.answered {
            return Err(WriteFailed);
          }
          log := log + [Response(action.response.value)];
        }
        if action.userData != [] {
          return Ok(action.userData);
        }
      }
    }
  }
}
