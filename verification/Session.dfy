/** The strict session: link, transport and application layers composed. */
module Session {
  import opened Bytes
  import Frame
  import LinkState
  import opened LinkChannel
  import Transport
  import AppFragment

  type Fragment = AppFragment.Fragment

  datatype SessionError = NotInitialized | LinkError(failure: Failure) | TransportFailure(t: Transport.TransportError)
                        | ApplicationFailure(a: AppFragment.AppError)

  /** The receiving side: the two reassemblers and the limit of a decoded fragment. */
  datatype Input = Input(maximum: int, transport: Transport.Reassembly, application: AppFragment.Reassembly)

  /** The session's own state; the link layer's is in the connection. */
  datatype State = State(nextTransport: byte, input: Input)

  function NewSession(maximumApplication: int): State {
    State(0, Input(maximumApplication, Transport.NewReassembly(maximumApplication),
                   AppFragment.NewReassembly(maximumApplication)))
  }

  // ---------------------------------------------------------------- sending

  /** The link payloads that carry a fragment, and the transport number after them. */
  function Outgoing(f: Fragment, next: byte, maximum: int): Result<(seq<Payload>, byte), SessionError> {
    match AppFragment.EncodeStrictFragment(f, maximum)
    case Err(e) => Err(ApplicationFailure(e))
    case Ok(encoded) =>
      match Transport.SegmentStrict(encoded, next, Frame.MAX_DATA_SIZE)
      case Err(e) => Err(TransportFailure(e))
      case Ok(r) => Ok(r)
  }

  function SendOne(c: Conn, payload: Payload, maximumRetries: nat, confirmed: bool): (Conn, Outcome) {
    if confirmed then SendConfirmed(c, payload, maximumRetries) else SendUnconfirmed(c, payload)
  }

  function SendPayloads(c: Conn, payloads: seq<Payload>, maximumRetries: nat, confirmed: bool): (Conn, Outcome)
    decreases |payloads|
  {
    if payloads == [] then (c, Ok(()))
    else
      var (c1, r) := SendOne(c, payloads[0], maximumRetries, confirmed);
      if r.Err? then (c1, r) else SendPayloads(c1, payloads[1..], maximumRetries, confirmed)
  }

  /** sendApplicationLocked: the transport number advances only when every segment went out. */
  function SendFragment(c: Conn, s: State, f: Fragment, maximumRetries: nat, confirmed: bool)
    : (Conn, State, Result<(), SessionError>)
  {
    match Outgoing(f, s.nextTransport, s.input.maximum)
    case Err(e) => (c, s, Err(e))
    case Ok((payloads, next)) =>
      var (c1, r) := SendPayloads(c, payloads, maximumRetries, confirmed);
      if r.Err? then (c1, s, Err(LinkError(r.error))) else (c1, s.(nextTransport := next), Ok(()))
  }

  /** A session whose limit is not positive refuses every operation. */
  function SendApplication(c: Conn, s: State, f: Fragment, maximumRetries: nat, confirmed: bool)
    : (Conn, State, Result<(), SessionError>)
  {
    if s.input.maximum < 1 then (c, s, Err(NotInitialized)) else SendFragment(c, s, f, maximumRetries, confirmed)
  }

  // ---------------------------------------------------------------- receiving

  /** A received payload through transport reassembly and application decoding. */
  function TakePayload(i: Input, payload: Payload): (Input, Result<Option<Fragment>, SessionError>) {
    var (t, pushed) := Transport.Push(i.transport, payload);
    var i1 := i.(transport := t);
    match pushed
    case Err(e) => (i1, Err(TransportFailure(e)))
    case Ok(None) => (i1, Ok(None))
    case Ok(Some(encoded)) =>
      match AppFragment.DecodeStrictFragment(encoded, i.maximum)
      case Err(e) => (i1, Err(ApplicationFailure(e)))
      case Ok(f) => (i1, Ok(Some(f)))
  }

  /** The confirmation that a fragment asks for. */
  function Confirmation(f: Fragment): Fragment {
    AppFragment.Fragment(true, true, false, f.uns, f.sequence, 0, 0, [])
  }

  /** A decoded and, where asked for, confirmed fragment through application reassembly. */
  function TakeFragment(i: Input, f: Fragment): (Input, Result<Option<Fragment>, SessionError>) {
    var (a, pushed) := AppFragment.Push(i.application, f.(con := false));
    var i1 := i.(application := a);
    match pushed
    case Err(e) => (i1, Err(ApplicationFailure(e)))
    case Ok(r) => (i1, Ok(r))
  }

  lemma {:induction false} SendUnconfirmedInbox(c: Conn, payloads: seq<Payload>, maximumRetries: nat)
    ensures SendPayloads(c, payloads, maximumRetries, false).0.inbox == c.inbox
    ensures SendPayloads(c, payloads, maximumRetries, false).0.st == c.st
    decreases |payloads|
  {
    hide LinkState.Unconfirmed, SendConfirmed;
    if payloads != [] {
      SendUnconfirmedInbox(SendUnconfirmed(c, payloads[0]).0, payloads[1..], maximumRetries);
    }
  }

  /** Confirming leaves the link state and what is still to be read alone. */
  lemma ConfirmingInbox(c: Conn, s: State, f: Fragment, maximumRetries: nat)
    ensures SendFragment(c, s, f, maximumRetries, false).0.inbox == c.inbox
    ensures SendFragment(c, s, f, maximumRetries, false).0.st == c.st
    ensures SendFragment(c, s, f, maximumRetries, false).1.input == s.input
  {
    hide Outgoing, SendPayloads;
    match Outgoing(f, s.nextTransport, s.input.maximum) {
      case Err(_) =>
      case Ok((payloads, _)) => SendUnconfirmedInbox(c, payloads, maximumRetries);
    }
  }

  function Confirm(c: Conn, s: State, f: Fragment, maximumRetries: nat)
    : (r: (Conn, State, Result<(), SessionError>))
    ensures r.0.inbox == c.inbox && r.0.st == c.st && r.1.input == s.input
  {
    ConfirmingInbox(c, s, Confirmation(f), maximumRetries);
    if f.con then SendFragment(c, s, Confirmation(f), maximumRetries, false) else (c, s, Ok(()))
  }

  type Received = (Conn, State, Result<Fragment, SessionError>)

  /** What follows once a payload was received: confirm, reassemble, or go on. None means go on receiving. */
  function TakeReceived(c: Conn, s: State, payload: Payload, maximumRetries: nat)
    : (r: (Conn, State, Option<Result<Fragment, SessionError>>))
    ensures r.0.inbox == c.inbox && r.0.st == c.st && r.1.input.maximum == s.input.maximum
  {
    var (i1, taken) := TakePayload(s.input, payload);
    var s1 := s.(input := i1);
    match taken
    case Err(e) => (c, s1, Some(Err(e)))
    case Ok(None) => (c, s1, None)
    case Ok(Some(f)) =>
      var (c2, s2, confirmed) := Confirm(c, s1, f, maximumRetries);
      if confirmed.Err? then (c2, s2, Some(Err(confirmed.error)))
      else
        var (i3, complete) := TakeFragment(s2.input, f);
        var s3 := s2.(input := i3);
        match complete
        case Err(e) => (c2, s3, Some(Err(e)))
        case Ok(None) => (c2, s3, None)
        case Ok(Some(result)) => (c2, s3, Some(Ok(result)))
  }

  /** The loop of ReceiveApplication: payload after payload until one completes an application fragment. */
  function ReceiveLoop(c: Conn, s: State, maximumRetries: nat): (r: Received)
    ensures r.1.input.maximum == s.input.maximum
    ensures |r.0.inbox| <= |c.inbox| && (c.inbox != [] ==> |r.0.inbox| < |c.inbox|)
    decreases |c.inbox|
  {
    ReceiveShrinks(c);
    var (c1, received) := Receive(c);
    if received.Err? then (c1, s, Err(LinkError(received.error)))
    else
      var (c2, s2, done) := TakeReceived(c1, s, received.value, maximumRetries);
      if done.None? then ReceiveLoop(c2, s2, maximumRetries) else (c2, s2, done.value)
  }

  lemma {:induction false} ReceiveShrinks(c: Conn)
    ensures |Receive(c).0.inbox| <= |c.inbox| && (c.inbox != [] ==> |Receive(c).0.inbox| < |c.inbox|)
    decreases |c.inbox|
  {
    hide LinkState.Handle;
    if c.inbox != [] && c.inbox[0].Arrived? {
      var (s, r) := LinkState.Handle(c.st, c.inbox[0].frame);
      var c2 := c.(inbox := c.inbox[1..], st := s);
      if r.Ok? {
        ReceiveShrinks(c2);
        if r.value.response.Some? {
          ReceiveShrinks(c2.(log := c2.log + [Response(r.value.response.value)]));
        }
      }
    }
  }

  function ReceiveApplication(c: Conn, s: State, maximumRetries: nat): (r: Received)
    ensures r.1.input.maximum == s.input.maximum
    ensures s.input.maximum >= 1 && c.inbox != [] ==> |r.0.inbox| < |c.inbox|
  {
    if s.input.maximum < 1 then (c, s, Err(NotInitialized)) else ReceiveLoop(c, s, maximumRetries)
  }
}
