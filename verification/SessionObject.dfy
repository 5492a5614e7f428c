/** The strict session object: its sending and receiving loops, proved against Session. */
module SessionObject {
  import opened Bytes
  import opened Frame
  import opened LinkChannel
  import ChannelObject
  import LinkObject
  import LinkState
  import Transport
  import TransportObject
  import AppFragment
  import AppObject
  import opened Session

  class Strict {
    const channel: ChannelObject.StrictChannel
    const transportInput: TransportObject.StrictReassembler
    const applicationInput: AppObject.StrictReassembler
    const maximumApplication: int
    var nextTransport: byte

    /** NewStrict: the link state, the channel and both reassemblers are the session's own. */
    constructor (inbox: seq<Read>, outbox: seq<bool>, localAddress: u16, remoteAddress: u16, localIsMaster: bool,
                 maximumRetries: nat, maximumApplication: int)
      ensures fresh(channel) && fresh(channel.state) && fresh(transportInput) && fresh(applicationInput)
      ensures channel.Value() == Conn(LinkState.NewState(localAddress, remoteAddress, localIsMaster), inbox, outbox, [], [])
      ensures channel.maximumRetries == maximumRetries && Value() == NewSession(maximumApplication)
    {
      var state := new LinkObject.StrictState(localAddress, remoteAddress, localIsMaster);
      channel := new ChannelObject.StrictChannel(state, maximumRetries, inbox, outbox);
      this.maximumApplication, nextTransport := maximumApplication, 0;
      transportInput := new TransportObject.StrictReassembler(maximumApplication);
      applicationInput := new AppObject.StrictReassembler(maximumApplication);
    }

    ghost function Value(): Session.State
      reads this, transportInput, applicationInput
    {
      State(nextTransport, Input(maximumApplication, transportInput.Value(), applicationInput.Value()))
    }

    method SendFragment(fragment: Fragment, confirmed: bool) returns (r: Result<(), SessionError>)
      modifies this`nextTransport, channel, channel.state
      ensures (channel.Value(), Value(), r)
           == Session.SendFragment(old(channel.Value()), old(Value()), fragment, channel.maximumRetries, confirmed)
    {
      hide LinkChannel.SendConfirmed, LinkChannel.SendUnconfirmed, AppFragment.EncodeStrictFragment;
      hide Transport.SegmentStrict;
      var encoded := AppFragment.EncodeStrictFragment(fragment, maximumApplication);
      if encoded.Err? {
        return Err(ApplicationFailure(encoded.error));
      }
      var segmented := TransportObject.SegmentStrict(encoded.value, nextTransport, MAX_DATA_SIZE);
      if segmented.Err? {
        return Err(TransportFailure(segmented.error));
      }
      var (segments, next) := segmented.value;
      ghost var final := SendPayloads(channel.Value(), segments, channel.maximumRetries, confirmed);
      var index := 0;
      assert segments[0..] == segments;
      while index < |segments|
        invariant 0 <= index <= |segments|
        invariant Value() == old(Value())
        invariant SendPayloads(channel.Value(), segments[index..], channel.maximumRetries, confirmed) == final
      {
        assert segments[index..][1..] == segments[index + 1..];
        var sent;
        if confirmed {
          sent := channel.SendConfirmed(segments[index]);
        } else {
          sent := channel.SendUnconfirmed(segments[index]);
        }
        if sent.Err? {
          return Err(LinkError(sent.error));
        }
        index := index + 1;
      }
      nextTransport := next;
      r := Ok(());
    }

    method SendApplication(fragment: Fragment, confirmed: bool) returns (r: Result<(), SessionError>)
      modifies this`nextTransport, channel, channel.state
      ensures (channel.Value(), Value(), r)
           == Session.SendApplication(old(channel.Value()), old(Value()), fragment, channel.maximumRetries, confirmed)
    {
      hide Session.SendFragment;
      if maximumApplication < 1 {
        return Err(NotInitialized);
      }
      r := SendFragment(fragment, confirmed);
    }

    method Reset() returns (r: Result<(), SessionError>)
      modifies channel, channel.state
      ensures Value() == old(Value())
      ensures maximumApplication < 1 ==> channel.Value() == old(channel.Value()) && r == Err(NotInitialized)
      ensures maximumApplication >= 1 ==>
        var (c, o) := LinkChannel.Reset(old(channel.Value()), channel.maximumRetries);
        channel.Value() == c && r == (if o.Ok? then Ok(()) else Err(LinkError(o.error)))
    {
      hide LinkChannel.Reset;
      if maximumApplication < 1 {
        return Err(NotInitialized);
      }
      var done := channel.Reset();
      r := if done.Ok? then Ok(()) else Err(LinkError(done.error));
    }

    /** The part of the receiving loop's body that follows a received segment. */
    method TakeReceived(segment: Payload) returns (r: Option<Result<Fragment, SessionError>>)
      modifies this`nextTransport, transportInput, applicationInput, channel, channel.state
      ensures (channel.Value(), Value(), r)
           == Session.TakeReceived(old(channel.Value()), old(Value()), segment, channel.maximumRetries)
    {
      hide Transport.Push, AppFragment.Push, AppFragment.DecodeStrictFragment, Session.SendFragment;
      var pushed := transportInput.Push(segment);
      if pushed.Err? {
        return Some(Err(TransportFailure(pushed.error)));
      }
      if pushed.value.None? {
        return None;
      }
      var decoded := AppFragment.DecodeStrictFragment(pushed.value.value, maximumApplication);
      if decoded.Err? {
        return Some(Err(ApplicationFailure(decoded.error)));
      }
      var fragment := decoded.value;
      if fragment.con {
        var confirmed := SendFragment(Confirmation(fragment), false);
        if confirmed.Err? {
          return Some(Err(confirmed.error));
        }
        fragment := fragment.(con := false);
      }
      assert fragment == decoded.value.(con := false);
      var complete := applicationInput.Push(fragment);
      if complete.Err? {
        return Some(Err(ApplicationFailure(complete.error)));
      }
      r := if complete.value.Some? then Some(Ok(complete.value.value)) else None;
    }

    method ReceiveApplication() returns (r: Result<Fragment, SessionError>)
      modifies this`nextTransport, transportInput, applicationInput, channel, channel.state
      ensures (channel.Value(), Value(), r)
           == Session.ReceiveApplication(old(channel.Value()), old(Value()), channel.maximumRetries)
    {
      hide Session.TakeReceived, LinkChannel.Receive;
      if maximumApplication < 1 {
        return Err(NotInitialized);
      }
      ghost var final := ReceiveLoop(channel.Value(), Value(), channel.maximumRetries);
      while true
        invariant ReceiveLoop(channel.Value(), Value(), channel.maximumRetries) == final
        decreases |channel.inbox|
      {
        var segment := channel.Receive();
        if segment.Err? {
          return Err(LinkError(segment.error));
        }
        var done := TakeReceived(segment.value);
        if done.Some? {
          return done.value;
        }
      }
    }
  }
}
