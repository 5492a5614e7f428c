/** Transactions over one connection: bounded retries, inbound traffic while waiting, and plain reception. */
module LinkChannel {
  import opened Bytes
  import opened Frame
  import opened LinkState

  type Payload = seq<byte>

  /** How one attempt to read a frame ends. For a frame: whether answering it and handing on its data succeed. */
  datatype Read = Arrived(frame: StrictFrame, answered: bool, handled: bool) | TimedOut | Broken

  datatype Written = Request(frame: StrictFrame) | Response(frame: StrictFrame) | Datagram(frame: StrictFrame)

  datatype Failure = LinkFailure(error: LinkError) | WriteFailed | ReadFailed | HandlerFailed | Exhausted

  /** Which action ends a transaction. */
  datatype Goal = UntilAcknowledged | UntilLinkStatus

  /** The connection and the link state: what is still to be read, what writing will do, what was written and handed on. */
  datatype Conn = Conn(st: State, inbox: seq<Read>, outbox: seq<bool>, log: seq<Written>, handed: seq<Payload>)

  type Outcome = Result<(), Failure>

  predicate Reached(goal: Goal, action: Action) {
    match goal
    case UntilAcknowledged => action.acknowledged
    case UntilLinkStatus => action.linkStatus
  }

  // ---------------------------------------------------------------- specification of a transaction

  /** Writes a frame when the connection's next write works. */
  function Write(c: Conn, w: Written): (Conn, bool) {
    if c.outbox != [] && c.outbox[0] then (c.(outbox := c.outbox[1..], log := c.log + [w]), true)
    else (c.(outbox := if c.outbox == [] then [] else c.outbox[1..]), false)
  }

  /** The remaining attempts, beginning with the given one. */
  function Attempts(c: Conn, first: StrictFrame, attempt: nat, maximumRetries: nat, goal: Goal): (Conn, Outcome)
    decreases |c.inbox|, 1
  {
    if attempt > maximumRetries then (c, Err(Exhausted))
    else
      var frame := if attempt > 0 then Retransmission(c.st) else Ok(first);
      if frame.Err? then (c, Err(LinkFailure(frame.error)))
      else
        var (c1, ok) := Write(c, Request(frame.value));
        if !ok then (c1, Err(WriteFailed)) else Wait(c1, first, attempt, maximumRetries, goal)
  }

  /** What handling one frame does to the connection, and whether the transaction goes on. */
  function HandleFrame(c: Conn, read: Read): (Conn, Result<Action, Failure>)
    requires read.Arrived?
  {
    var (s, r) := Handle(c.st, read.frame);
    var c1 := c.(st := s);
    if r.Err? then (c1, Err(LinkFailure(r.error)))
    else
      var action := r.value;
      if action.response.Some? && !read.answered then (c1, Err(WriteFailed))
      else
        var c2 := if action.response.Some? then c1.(log := c1.log + [Response(action.response.value)]) else c1;
        var c3 := if action.userData != [] then c2.(handed := c2.handed + [action.userData]) else c2;
        if action.userData != [] && !read.handled then (c3, Err(HandlerFailed)) else (c3, Ok(action))
  }

  function Wait(c: Conn, first: StrictFrame, attempt: nat, maximumRetries: nat, goal: Goal): (Conn, Outcome)
    decreases |c.inbox|, 0
  {
    if c.inbox == [] then (c, Err(ReadFailed))
    else
      var c1 := c.(inbox := c.inbox[1..]);
      match c.inbox[0]
      case Broken => (c1, Err(ReadFailed))
      case TimedOut => Attempts(c1, first, attempt + 1, maximumRetries, goal)
      case Arrived(_, _, _) =>
        var (c2, r) := HandleFrame(c1, c.inbox[0]);
        if r.Err? then (c2, Err(r.error))
        else if Reached(goal, r.value) then (c2, Ok(()))
        else if r.value.negative then Attempts(c2, first, attempt + 1, maximumRetries, goal)
        else Wait(c2, first, attempt, maximumRetries, goal)
  }

  function Start(c: Conn, started: (State, StartResult), maximumRetries: nat, goal: Goal): (Conn, Outcome) {
    var c1 := c.(st := started.0);
    if started.1.Err? then (c1, Err(LinkFailure(started.1.error)))
    else Attempts(c1, started.1.value, 0, maximumRetries, goal)
  }

  function Reset(c: Conn, maximumRetries: nat): (Conn, Outcome) {
    Start(c, StartReset(c.st), maximumRetries, UntilAcknowledged)
  }

  function SendConfirmed(c: Conn, userData: Payload, maximumRetries: nat): (Conn, Outcome) {
    Start(c, StartConfirmed(c.st, userData), maximumRetries, UntilAcknowledged)
  }

  function KeepAlive(c: Conn, maximumRetries: nat): (Conn, Outcome) {
    Start(c, StartLinkStatus(c.st), maximumRetries, UntilLinkStatus)
  }

  /** One unconfirmed frame: no state changes and nothing is waited for. */
  function SendUnconfirmed(c: Conn, userData: Payload): (Conn, Outcome) {
    var frame := Unconfirmed(c.st, userData);
    if frame.Err? then (c, Err(LinkFailure(frame.error)))
    else
      var (c1, ok) := Write(c, Datagram(frame.value));
      (c1, if ok then Ok(()) else Err(WriteFailed))
  }

  /** Reads and answers frames until one carries user data. */
  function Receive(c: Conn): (r: (Conn, Result<Payload, Failure>))
    ensures r.1.Ok? ==> |r.0.inbox| < |c.inbox| && r.1.value != []
    decreases |c.inbox|
  {
    if c.inbox == [] then (c, Err(ReadFailed))
    else
      var c1 := c.(inbox := c.inbox[1..]);
      if !c.inbox[0].Arrived? then (c1, Err(ReadFailed))
      else
        var (s, r) := Handle(c1.st, c.inbox[0].frame);
        var c2 := c1.(st := s);
        if r.Err? then (c2, Err(LinkFailure(r.error)))
        else if r.value.response.Some? && !c.inbox[0].answered then (c2, Err(WriteFailed))
        else
          var c3 := if r.value.response.Some? then c2.(log := c2.log + [Response(r.value.response.value)]) else c2;
          if r.value.userData != [] then (c3, Ok(r.value.userData)) else Receive(c3)
  }

  // ---------------------------------------------------------------- what handling can do to the pending request

  /** A frame that s accepts as reset-link-state from its peer. */
  predicate ResetsPeer(s: State, f: StrictFrame) {
    Handle(s, f).1.Ok? && Handle(s, f).1.value.reset
  }

  predicate Secondary(f: StrictFrame) {
    !Flag(f.control, CTRL_PRM)
  }

  predicate IsAck(f: StrictFrame) {
    Secondary(f) && Func(f.control) == FN_ACK
  }

  /** A frame that s accepts as its peer's answer that the pending function is not supported. */
  predicate Refuses(s: State, f: StrictFrame) {
    Secondary(f) && Handle(s, f).1.Ok? && Handle(s, f).1.value.notSupported
  }

  /** Nothing but the request, its function, the bits and readiness ever changes. */
  predicate SameLink(s: State, t: State) {
    s.local == t.local && s.remote == t.remote && s.isMaster == t.isMaster
  }

  /** The handled frame takes the pending request away. */
  predicate Removes(f: StrictFrame, r: HandleResult) {
    r.Ok? && (r.value.reset || r.value.acknowledged || (Secondary(f) && (r.value.notSupported || r.value.linkStatus)))
  }

  /** What a handled frame can do to addresses, the pending request, readiness and the send bit. */
  predicate Effects(s: State, f: StrictFrame, s': State, r: HandleResult) {
    && SameLink(s, s')
    && (s'.pending == s.pending || s'.pending.None?)
    && (s'.pending.Some? ==> s'.pendingFn == s.pendingFn)
    && (s.pending.Some? ==> (s'.pending.None? <==> Removes(f, r)))
    && (r.Ok? ==> r.value.acknowledged == IsAck(f))
    && (r.Ok? && r.value.acknowledged ==> AckEffects(s, s', r.value))
    && (r.Ok? && r.value.reset ==> s'.ready && s'.nextSendFCB && s'.pending.None? && !r.value.negative
                                   && !r.value.linkStatus)
    && (!(r.Ok? && (r.value.acknowledged || r.value.reset)) ==> s'.nextSendFCB == s.nextSendFCB)
    && (!(r.Ok? && (r.value.reset || (r.value.acknowledged && s.pendingFn == FN_RESET))) ==> s'.ready == s.ready)
    && (r.Ok? && r.value.linkStatus ==> StatusEffects(s, f, r.value))
  }

  predicate AckEffects(s: State, s': State, a: Action) {
    && s.pending.Some? && s.pendingFn != FN_STATUS && s'.pending.None?
    && a.response.None? && a.userData == [] && !a.reset && !a.notSupported
    && (s.pendingFn == FN_CONFIRMED ==> s'.nextSendFCB == !s.nextSendFCB)
    && (s.pendingFn == FN_RESET ==> s'.ready && s'.nextSendFCB)
  }

  predicate StatusEffects(s: State, f: StrictFrame, a: Action) {
    && !a.acknowledged && !a.reset && !a.notSupported && a.userData == []
    && (Secondary(f) ==> s.pending.Some? && s.pendingFn == FN_STATUS && a.response.None?)
    && Func(f.control) == (if Secondary(f) then FN_LINK_STATUS else FN_STATUS)
  }

  lemma HandleEffects(s: State, f: StrictFrame)
    ensures Effects(s, f, Handle(s, f).0, Handle(s, f).1)
  {
    hide ValidControl, HandlePrimary, HandleSecondary, Effects, Flag;
    if Flag(f.control, CTRL_PRM) {
      PrimaryEffects(s, f);
    } else {
      SecondaryEffects(s, f);
    }
    ErrorEffects(s, f, Handle(s, f).1);
  }

  lemma ErrorEffects(s: State, f: StrictFrame, r: HandleResult)
    ensures r.Err? ==> Effects(s, f, s, r)
  {
    hide Flag, Func;
  }

  lemma PrimaryEffects(s: State, f: StrictFrame)
    requires Flag(f.control, CTRL_PRM)
    ensures Effects(s, f, HandlePrimary(s, f).0, HandlePrimary(s, f).1)
  {
    hide Flag, Func, SecondaryControl, HandlePrimary, HandleConfirmed, Effects;
    if Func(f.control) == FN_RESET {
      ResetRequestEffects(s, f);
    } else if Func(f.control) == FN_TEST || Func(f.control) == FN_CONFIRMED {
      CountedEffects(s, f);
    } else {
      UncountedEffects(s, f);
    }
  }

  lemma ResetRequestEffects(s: State, f: StrictFrame)
    requires Flag(f.control, CTRL_PRM) && Func(f.control) == FN_RESET
    ensures Effects(s, f, HandlePrimary(s, f).0, HandlePrimary(s, f).1)
  {
    hide Flag, Func, SecondaryControl, HandleConfirmed;
  }

  /** At most the receive bit changes, and nothing is acknowledged, reset or reported. */
  predicate Harmless(s: State, s': State, r: HandleResult) {
    && s' == s.(expectedFCB := s'.expectedFCB)
    && (r.Ok? ==> !r.value.acknowledged && !r.value.reset && !r.value.linkStatus)
  }

  lemma HarmlessEffects(s: State, f: StrictFrame, s': State, r: HandleResult)
    requires Flag(f.control, CTRL_PRM) && Harmless(s, s', r)
    ensures Effects(s, f, s', r)
  {
    hide Flag, Func;
  }

  lemma CountedEffects(s: State, f: StrictFrame)
    requires Flag(f.control, CTRL_PRM) && (Func(f.control) == FN_TEST || Func(f.control) == FN_CONFIRMED)
    ensures Effects(s, f, HandlePrimary(s, f).0, HandlePrimary(s, f).1)
  {
    hide Flag, Func, SecondaryFrame, Effects;
    HarmlessEffects(s, f, HandlePrimary(s, f).0, HandlePrimary(s, f).1);
  }

  lemma UncountedEffects(s: State, f: StrictFrame)
    requires Flag(f.control, CTRL_PRM)
    requires Func(f.control) != FN_RESET && Func(f.control) != FN_TEST && Func(f.control) != FN_CONFIRMED
    ensures Effects(s, f, HandlePrimary(s, f).0, HandlePrimary(s, f).1)
  {
    hide Flag, Func, SecondaryControl, HandleConfirmed;
  }

  lemma SecondaryEffects(s: State, f: StrictFrame)
    requires !Flag(f.control, CTRL_PRM)
    ensures Effects(s, f, HandleSecondary(s, f).0, HandleSecondary(s, f).1)
  {
    hide Flag, Func, Effects, HandleSecondary;
    if Func(f.control) == FN_ACK {
      AckedEffects(s, f);
    } else {
      OtherAnswerEffects(s, f);
    }
  }

  lemma AckedEffects(s: State, f: StrictFrame)
    requires !Flag(f.control, CTRL_PRM) && Func(f.control) == FN_ACK
    ensures Effects(s, f, HandleSecondary(s, f).0, HandleSecondary(s, f).1)
  {
    hide Flag, Func;
  }

  lemma OtherAnswerEffects(s: State, f: StrictFrame)
    requires !Flag(f.control, CTRL_PRM) && Func(f.control) != FN_ACK
    ensures Effects(s, f, HandleSecondary(s, f).0, HandleSecondary(s, f).1)
  {
    hide Flag, Func;
  }

  /**
   * Exactly when one frame takes a confirmed or reset request away: it is an accepted reset, an accepted refusal, or
   * its acknowledgement.
   */
  lemma RequestRemovedIff(s: State, f: StrictFrame)
    requires s.pending.Some? && (s.pendingFn == FN_CONFIRMED || s.pendingFn == FN_RESET)
    ensures Handle(s, f).0.pending.None? <==>
      ResetsPeer(s, f) || Refuses(s, f) || (Handle(s, f).1.Ok? && Handle(s, f).1.value.acknowledged)
  {
    hide Handle, Flag, Func;
    HandleEffects(s, f);
  }

  /**
   * Exactly which handled frames make a waiting transaction transmit again at once: the peer's negative answer, and
   * the peer's own counted request while this side has not been reset, which this side answers negatively itself.
   */
  lemma NegativeIff(s: State, f: StrictFrame)
    requires Handle(s, f).1.Ok?
    ensures Handle(s, f).1.value.negative <==>
      (Counted(f) && !s.ready) || (Secondary(f) && Func(f.control) == FN_NACK)
  {
    hide Flag, Func, ValidControl, SecondaryFrame, HandlePrimary, HandleSecondary;
    if Flag(f.control, CTRL_PRM) {
      PrimaryNegative(s, f);
    } else {
      SecondaryNegative(s, f);
    }
  }

  lemma PrimaryNegative(s: State, f: StrictFrame)
    requires HandlePrimary(s, f).1.Ok?
    ensures Flag(f.control, CTRL_PRM) ==> (HandlePrimary(s, f).1.value.negative <==> Counted(f) && !s.ready)
  {
    hide Flag, Func, SecondaryFrame;
  }

  lemma SecondaryNegative(s: State, f: StrictFrame)
    requires HandleSecondary(s, f).1.Ok?
    ensures HandleSecondary(s, f).1.value.negative <==> Func(f.control) == FN_NACK
  {
    hide Flag, Func;
  }

  /** Whether a frame resets the link depends only on addresses and role, which never change. */
  lemma ResetsPeerSame(s: State, t: State, f: StrictFrame)
    requires SameLink(s, t)
    ensures ResetsPeer(s, f) == ResetsPeer(t, f)
  {
    hide Flag, Func, ValidControl, SecondaryControl, HandlePrimary, HandleSecondary;
    PrimaryResets(s, f);
    PrimaryResets(t, f);
    SecondaryRefuses(s, f);
    SecondaryRefuses(t, f);
  }

  lemma PrimaryResets(s: State, f: StrictFrame)
    ensures var r := HandlePrimary(s, f).1;
      (r.Ok? && r.value.reset <==> Func(f.control) == FN_RESET && f.userData == [])
  {
    hide Flag, Func, SecondaryControl;
  }

  lemma SecondaryRefuses(s: State, f: StrictFrame)
    ensures var r := HandleSecondary(s, f).1;
      && !(r.Ok? && r.value.reset)
      && (r.Ok? && r.value.notSupported <==>
            Func(f.control) == FN_NOT_SUPPORTED && f.userData == [] && s.pending.Some?)
  {
    hide Flag, Func;
  }

  /** Whether a frame refuses a request that is pending depends on nothing else that may change. */
  lemma RefusesSame(s: State, t: State, f: StrictFrame)
    requires SameLink(s, t) && s.pending.Some? && t.pending.Some?
    ensures Refuses(s, f) == Refuses(t, f)
  {
    hide Flag, Func, ValidControl, HandlePrimary, HandleSecondary;
    SecondaryRefuses(s, f);
    SecondaryRefuses(t, f);
  }

  // ---------------------------------------------------------------- requests on the wire

  function Requests(log: seq<Written>): seq<StrictFrame> {
    if log == [] then []
    else if log[|log| - 1].Request? then Requests(log[..|log| - 1]) + [log[|log| - 1].frame]
    else Requests(log[..|log| - 1])
  }

  predicate AllAre(frames: seq<StrictFrame>, f: StrictFrame) {
    forall i :: 0 <= i < |frames| ==> frames[i] == f
  }

  lemma RequestsSnoc(log: seq<Written>, w: Written)
    ensures Requests(log + [w]) == if w.Request? then Requests(log) + [w.frame] else Requests(log)
  {
    assert (log + [w])[..|log|] == log;
  }

  lemma HandleFrameLog(c: Conn, read: Read)
    requires read.Arrived?
    ensures Requests(HandleFrame(c, read).0.log) == Requests(c.log)
    ensures HandleFrame(c, read).0.inbox == c.inbox && HandleFrame(c, read).0.st == Handle(c.st, read.frame).0
    ensures HandleFrame(c, read).1.Ok? ==> Handle(c.st, read.frame).1 == Ok(HandleFrame(c, read).1.value)
    ensures HandleFrame(c, read).1.Err? ==>
      (Handle(c.st, read.frame).1.Err?
       || Handle(c.st, read.frame).1.value.response.Some? || Handle(c.st, read.frame).1.value.userData != [])
  {
    hide Handle, Requests;
    var (s, r) := Handle(c.st, read.frame);
    if r.Ok? && r.value.response.Some? {
      RequestsSnoc(c.log, Response(r.value.response.value));
    }
  }

  /**
   * From attempt k on, a transaction writes at most maximumRetries + 1 - k request frames, each of them the first
   * one again; answers to the peer's own requests may be written in between.
   */
  lemma {:induction false} AttemptsWrite(c: Conn, first: StrictFrame, attempt: nat, maximumRetries: nat, goal: Goal)
    returns (sent: seq<StrictFrame>)
    requires c.st.pending == Some(first) || (attempt > 0 && c.st.pending.None?)
    ensures Requests(Attempts(c, first, attempt, maximumRetries, goal).0.log) == Requests(c.log) + sent
    ensures AllAre(sent, first)
    ensures |sent| <= if attempt > maximumRetries then 0 else maximumRetries + 1 - attempt
    decreases |c.inbox|, 1
  {
    hide Handle, Requests, Wait;
    sent := [];
    assert Requests(c.log) + [] == Requests(c.log);
    if attempt <= maximumRetries && (attempt == 0 || c.st.pending.Some?) {
      var (c1, ok) := Write(c, Request(first));
      if ok {
        RequestsSnoc(c.log, Request(first));
        var more := WaitWrites(c1, first, attempt, maximumRetries, goal);
        sent := [first] + more;
        assert Requests(c.log) + sent == Requests(c1.log) + more;
      }
    }
  }

  lemma {:induction false} WaitWrites(c: Conn, first: StrictFrame, attempt: nat, maximumRetries: nat, goal: Goal)
    returns (sent: seq<StrictFrame>)
    requires c.st.pending == Some(first) || c.st.pending.None?
    requires attempt <= maximumRetries
    ensures Requests(Wait(c, first, attempt, maximumRetries, goal).0.log) == Requests(c.log) + sent
    ensures AllAre(sent, first) && |sent| <= maximumRetries - attempt
    decreases |c.inbox|, 0
  {
    hide Handle, Requests, HandleFrame, Attempts;
    sent := [];
    assert Requests(c.log) + [] == Requests(c.log);
    if c.inbox != [] {
      var c1 := c.(inbox := c.inbox[1..]);
      match c.inbox[0] {
        case Broken =>
        case TimedOut =>
          sent := AttemptsWrite(c1, first, attempt + 1, maximumRetries, goal);
        case Arrived(f, _, _) =>
          var (c2, r) := HandleFrame(c1, c.inbox[0]);
          HandleFrameLog(c1, c.inbox[0]);
          HandleEffects(c1.st, f);
          if r.Ok? && !Reached(goal, r.value) {
            if r.value.negative {
              sent := AttemptsWrite(c2, first, attempt + 1, maximumRetries, goal);
            } else {
              sent := WaitWrites(c2, first, attempt, maximumRetries, goal);
            }
          }
      }
    }
  }

  /** Every transaction writes its request at most maximumRetries + 1 times, unchanged. */
  lemma RequestsBounded(c: Conn, started: (State, StartResult), maximumRetries: nat, goal: Goal)
    returns (sent: seq<StrictFrame>)
    requires started.1.Ok? && started.0.pending == Some(started.1.value)
    ensures Requests(Start(c, started, maximumRetries, goal).0.log) == Requests(c.log) + sent
    ensures |sent| <= maximumRetries + 1 && AllAre(sent, started.1.value)
  {
    hide Requests, Attempts;
    sent := AttemptsWrite(c.(st := started.0), started.1.value, 0, maximumRetries, goal);
  }

  // ---------------------------------------------------------------- what the reads carry

  /** The frames among the reads. */
  function Arrivals(inbox: seq<Read>): seq<StrictFrame> {
    if inbox == [] then []
    else (if inbox[0].Arrived? then [inbox[0].frame] else []) + Arrivals(inbox[1..])
  }

  /** The state and the payloads after handling frames one after the other. */
  function Absorb(s: State, frames: seq<StrictFrame>): (State, seq<Payload>)
    decreases frames
  {
    if frames == [] then (s, [])
    else
      var (t, r) := Handle(s, frames[0]);
      var (u, more) := Absorb(t, frames[1..]);
      (u, DataOf(r) + more)
  }

  function DataOf(r: HandleResult): seq<Payload> {
    if r.Ok? && r.value.userData != [] then [r.value.userData] else []
  }

  /** Handling the read's frame fails, or its answer, where there is one, cannot be written. */
  predicate Unwritten(read: Read, r: HandleResult)
    requires read.Arrived?
  {
    r.Ok? && r.value.response.Some? && !read.answered
  }

  /** The payloads that a Receive which meets these reads can return: handled, with the answer written. */
  function Taken(s: State, inbox: seq<Read>): (State, seq<Payload>)
    decreases |inbox|
  {
    if inbox == [] then (s, [])
    else if !inbox[0].Arrived? then Taken(s, inbox[1..])
    else
      var (t, r) := Handle(s, inbox[0].frame);
      var (u, more) := Taken(t, inbox[1..]);
      (u, (if Unwritten(inbox[0], r) then [] else DataOf(r)) + more)
  }

  /** The payloads that were handled, so that a repeat will be a duplicate, but whose answer was not written. */
  function Lost(s: State, inbox: seq<Read>): seq<Payload>
    decreases |inbox|
  {
    if inbox == [] then []
    else if !inbox[0].Arrived? then Lost(s, inbox[1..])
    else
      var (t, r) := Handle(s, inbox[0].frame);
      (if Unwritten(inbox[0], r) then DataOf(r) else []) + Lost(t, inbox[1..])
  }

  /** Every read that carries new data with an answer due has its answer written. */
  predicate NewDataAnswered(s: State, inbox: seq<Read>)
    decreases |inbox|
  {
    inbox == []
    || (if inbox[0].Arrived? then
          var (t, r) := Handle(s, inbox[0].frame);
          (DataOf(r) != [] && r.value.response.Some? ==> inbox[0].answered) && NewDataAnswered(t, inbox[1..])
        else NewDataAnswered(s, inbox[1..]))
  }

  // ---------------------------------------------------------------- how a transaction ends

  predicate HasReset(s: State, used: seq<Read>) {
    exists i :: 0 <= i < |used| && used[i].Arrived? && ResetsPeer(s, used[i].frame)
  }

  predicate HasRefusal(s: State, used: seq<Read>) {
    exists i :: 0 <= i < |used| && used[i].Arrived? && Refuses(s, used[i].frame)
  }

  /** The peer took the request away, by an accepted reset or refusal. */
  predicate Withdrawn(s: State, used: seq<Read>) {
    HasReset(s, used) || HasRefusal(s, used)
  }

  /** Nothing but the last read is an acknowledgement, and that one is. */
  predicate EndsWithItsAck(used: seq<Read>) {
    && used != [] && used[|used| - 1].Arrived? && IsAck(used[|used| - 1].frame)
    && forall i :: 0 <= i < |used| - 1 && used[i].Arrived? ==> !IsAck(used[i].frame)
  }

  /** The last read is a link status: the peer's answer, or the peer's own request for ours. */
  predicate EndsWithStatus(used: seq<Read>) {
    && used != [] && used[|used| - 1].Arrived?
    && var f := used[|used| - 1].frame; Func(f.control) == (if Secondary(f) then FN_LINK_STATUS else FN_STATUS)
  }

  predicate EndsWithAnswer(used: seq<Read>) {
    used != [] && used[|used| - 1].Arrived? && Secondary(used[|used| - 1].frame)
  }

  /** The pending request, if any, is of a kind that the goal fits. */
  predicate Awaits(goal: Goal, s: State) {
    s.pending.Some? ==>
      match goal
      case UntilAcknowledged => s.pendingFn == FN_CONFIRMED || s.pendingFn == FN_RESET
      case UntilLinkStatus => s.pendingFn == FN_STATUS
  }

  /**
   * What becomes of the request of a transaction that began in s with the given reads and ended in s': it is gone
   * exactly when the peer withdrew it or the transaction succeeded on an answer.
   */
  predicate RequestVerdict(s: State, s': State, used: seq<Read>, ok: bool) {
    && (s'.pending == s.pending || s'.pending.None?)
    && (s'.pending.None? <==> s.pending.None? || Withdrawn(s, used) || (ok && EndsWithAnswer(used)))
  }

  /** Without an acknowledgement the send bit and readiness change only by a reset from the peer. */
  predicate BitsKept(s: State, s': State, used: seq<Read>) {
    s'.nextSendFCB == (s.nextSendFCB || HasReset(s, used)) && s'.ready == (s.ready || HasReset(s, used))
  }

  /** Success: exactly one acknowledgement, last; the send bit toggled, or after a reset the link is ready. */
  predicate AckedVerdict(s: State, s': State, used: seq<Read>) {
    && s.pending.Some? && EndsWithItsAck(used) && !Withdrawn(s, used)
    && s'.nextSendFCB == (s.pendingFn == FN_RESET || !s.nextSendFCB)
    && s'.ready == (s.pendingFn == FN_RESET || s.ready)
  }

  /** How a transaction that began in s with the given reads ended in s'. */
  predicate Verdict(goal: Goal, s: State, s': State, used: seq<Read>, ok: bool) {
    && RequestVerdict(s, s', used, ok)
    && match goal
       case UntilAcknowledged => if ok then AckedVerdict(s, s', used) else BitsKept(s, s', used)
       case UntilLinkStatus => BitsKept(s, s', used) && (ok ==> EndsWithStatus(used))
  }

  lemma VerdictEmpty(goal: Goal, s: State)
    ensures Verdict(goal, s, s, [], false)
  {
    hide ResetsPeer, Refuses;
  }

  /** What a first read adds to the predicates above. */
  lemma ReadsCons(s: State, read: Read, used: seq<Read>)
    ensures HasReset(s, [read] + used) <==> (read.Arrived? && ResetsPeer(s, read.frame)) || HasReset(s, used)
    ensures HasRefusal(s, [read] + used) <==> (read.Arrived? && Refuses(s, read.frame)) || HasRefusal(s, used)
    ensures EndsWithItsAck(used) && !(read.Arrived? && IsAck(read.frame)) ==> EndsWithItsAck([read] + used)
    ensures used != [] ==> EndsWithStatus([read] + used) == EndsWithStatus(used)
    ensures used != [] ==> EndsWithAnswer([read] + used) == EndsWithAnswer(used)
  {
    hide ResetsPeer, Refuses, IsAck, Secondary;
    var all := [read] + used;
    assert all[0] == read && forall i :: 0 <= i < |used| ==> all[i + 1] == used[i];
  }

  lemma HasResetSame(s: State, t: State, used: seq<Read>)
    requires SameLink(s, t)
    ensures HasReset(s, used) == HasReset(t, used)
  {
    hide ResetsPeer;
    forall i | 0 <= i < |used| && used[i].Arrived?
      ensures ResetsPeer(s, used[i].frame) == ResetsPeer(t, used[i].frame)
    {
      ResetsPeerSame(s, t, used[i].frame);
    }
  }

  lemma HasRefusalSame(s: State, t: State, used: seq<Read>)
    requires SameLink(s, t) && s.pending.Some? && t.pending.Some?
    ensures HasRefusal(s, used) == HasRefusal(t, used)
  {
    hide Refuses;
    forall i | 0 <= i < |used| && used[i].Arrived?
      ensures Refuses(s, used[i].frame) == Refuses(t, used[i].frame)
    {
      RefusesSame(s, t, used[i].frame);
    }
  }

  lemma VerdictQuietRead(goal: Goal, s: State, s': State, read: Read, used: seq<Read>, ok: bool)
    requires !read.Arrived? && Verdict(goal, s, s', used, ok)
    ensures Verdict(goal, s, s', [read] + used, ok)
  {
    ReadsCons(s, read, used);
    hide HasReset, HasRefusal, EndsWithItsAck, EndsWithAnswer, EndsWithStatus;
    VerdictNeedsReads(goal, s, s', used, ok);
  }

  lemma VerdictNeedsReads(goal: Goal, s: State, s': State, used: seq<Read>, ok: bool)
    requires Verdict(goal, s, s', used, ok)
    ensures ok ==> used != []
  {
    hide HasReset, HasRefusal, IsAck, Secondary;
  }

  /** The frame answers the pending request, as the goal asks for. */
  predicate AnswersGoal(goal: Goal, s: State, f: StrictFrame) {
    Secondary(f) && Handle(s, f).1.Ok? && Reached(goal, Handle(s, f).1.value)
  }

  /** A handled frame that does not answer the request, put in front of what follows it. */
  lemma VerdictFrame(goal: Goal, s: State, read: Read, s': State, used: seq<Read>, ok: bool)
    requires read.Arrived? && Awaits(goal, s) && !AnswersGoal(goal, s, read.frame)
    requires Verdict(goal, Handle(s, read.frame).0, s', used, ok) && (Handle(s, read.frame).1.Err? ==> !ok)
    ensures Verdict(goal, s, s', [read] + used, ok)
  {
    var t, f := Handle(s, read.frame).0, read.frame;
    VerdictNeedsReads(goal, t, s', used, ok);
    ReadsCons(s, read, used);
    FrameRemoves(goal, s, f);
    hide Handle, IsAck, Secondary, EndsWithItsAck, EndsWithAnswer, EndsWithStatus, HasReset, HasRefusal, Refuses;
    HandleEffects(s, f);
    HasResetSame(s, t, used);
    if s.pending.Some? && t.pending.Some? {
      HasRefusalSame(s, t, used);
    }
  }

  lemma FrameRemoves(goal: Goal, s: State, f: StrictFrame)
    requires Awaits(goal, s) && !AnswersGoal(goal, s, f)
    ensures Handle(s, f).0.pending.None? <==> s.pending.None? || ResetsPeer(s, f) || Refuses(s, f)
    ensures goal.UntilAcknowledged? ==> !(Handle(s, f).1.Ok? && IsAck(f))
    ensures !(Handle(s, f).1.Ok? && Handle(s, f).1.value.acknowledged)
  {
    hide Handle, Flag, Func;
    HandleEffects(s, f);
  }

  /** The frame that ends the transaction with success. */
  lemma VerdictEnd(goal: Goal, s: State, read: Read)
    requires read.Arrived? && Awaits(goal, s)
    requires Handle(s, read.frame).1.Ok? && Reached(goal, Handle(s, read.frame).1.value)
    ensures Verdict(goal, s, Handle(s, read.frame).0, [read], true)
  {
    hide Handle, Flag, Func;
    HandleEffects(s, read.frame);
    ReadsCons(s, read, []);
  }

  /** From s, the reads lead to s', and exactly what is taken from them goes to the handler. */
  predicate HandsOn(s: State, handed: seq<Payload>, used: seq<Read>, s': State, handed': seq<Payload>) {
    s' == Taken(s, used).0 && handed' == handed + Taken(s, used).1
  }

  lemma NothingHandedOn(s: State, handed: seq<Payload>)
    ensures HandsOn(s, handed, [], s, handed)
  {
  }

  lemma QuietHandsOn(s: State, handed: seq<Payload>, read: Read, used: seq<Read>, s': State, handed': seq<Payload>)
    requires !read.Arrived? && HandsOn(s, handed, used, s', handed')
    ensures HandsOn(s, handed, [read] + used, s', handed')
  {
    assert ([read] + used)[1..] == used;
  }

  /** A handled frame in front of what follows it. */
  lemma FrameHandsOn(c: Conn, read: Read, used: seq<Read>, s': State, handed': seq<Payload>)
    requires read.Arrived?
    requires var c2 := HandleFrame(c, read).0; HandsOn(c2.st, c2.handed, used, s', handed')
    ensures HandsOn(c.st, c.handed, [read] + used, s', handed')
  {
    hide Handle;
    assert ([read] + used)[1..] == used;
    var (t, r) := Handle(c.st, read.frame);
    var first := if Unwritten(read, r) then [] else DataOf(r);
    assert HandleFrame(c, read).0.handed == c.handed + first;
    assert (c.handed + first) + Taken(t, used).1 == c.handed + (first + Taken(t, used).1);
  }

  lemma {:induction false} AttemptsVerdict(c: Conn, first: StrictFrame, attempt: nat, maximumRetries: nat, goal: Goal)
    returns (used: seq<Read>)
    requires Awaits(goal, c.st)
    ensures var (c', r) := Attempts(c, first, attempt, maximumRetries, goal);
      c.inbox == used + c'.inbox && Verdict(goal, c.st, c'.st, used, r.Ok?)
      && HandsOn(c.st, c.handed, used, c'.st, c'.handed)
    decreases |c.inbox|, 1
  {
    hide Handle, Verdict, Wait, HandsOn;
    used := [];
    VerdictEmpty(goal, c.st);
    NothingHandedOn(c.st, c.handed);
    if attempt <= maximumRetries && (attempt == 0 || c.st.pending.Some?) {
      var (c1, ok) := Write(c, Request(if attempt > 0 then c.st.pending.value else first));
      if ok {
        used := WaitVerdict(c1, first, attempt, maximumRetries, goal);
      }
    }
  }

  lemma {:induction false} WaitVerdict(c: Conn, first: StrictFrame, attempt: nat, maximumRetries: nat, goal: Goal)
    returns (used: seq<Read>)
    requires Awaits(goal, c.st)
    ensures var (c', r) := Wait(c, first, attempt, maximumRetries, goal);
      c.inbox == used + c'.inbox && Verdict(goal, c.st, c'.st, used, r.Ok?)
      && HandsOn(c.st, c.handed, used, c'.st, c'.handed)
    decreases |c.inbox|, 0
  {
    hide Handle, Verdict, Attempts, HandleFrame, HandsOn;
    used := [];
    VerdictEmpty(goal, c.st);
    NothingHandedOn(c.st, c.handed);
    if c.inbox != [] {
      var read, c1 := c.inbox[0], c.(inbox := c.inbox[1..]);
      assert c.inbox == [read] + c1.inbox;
      var rest: seq<Read> := [];
      match read {
        case Broken =>
          VerdictQuietRead(goal, c.st, c.st, read, [], false);
          QuietHandsOn(c.st, c.handed, read, [], c.st, c.handed);
        case TimedOut =>
          rest := AttemptsVerdict(c1, first, attempt + 1, maximumRetries, goal);
          var (c', r) := Attempts(c1, first, attempt + 1, maximumRetries, goal);
          VerdictQuietRead(goal, c.st, c'.st, read, rest, r.Ok?);
          QuietHandsOn(c.st, c.handed, read, rest, c'.st, c'.handed);
        case Arrived(f, _, _) =>
          rest := FrameVerdict(c1, read, first, attempt, maximumRetries, goal);
      }
      used := [read] + rest;
      assert c.inbox == used + Wait(c, first, attempt, maximumRetries, goal).0.inbox;
    }
  }

  lemma {:induction false} FrameVerdict(c1: Conn, read: Read, first: StrictFrame, attempt: nat, maximumRetries: nat,
                                        goal: Goal)
    returns (rest: seq<Read>)
    requires read.Arrived? && Awaits(goal, c1.st)
    ensures var (c', r) := Wait(c1.(inbox := [read] + c1.inbox), first, attempt, maximumRetries, goal);
      c1.inbox == rest + c'.inbox && Verdict(goal, c1.st, c'.st, [read] + rest, r.Ok?)
      && HandsOn(c1.st, c1.handed, [read] + rest, c'.st, c'.handed)
    decreases |c1.inbox|, 2
  {
    hide Handle, Verdict, Attempts, HandleFrame, Secondary, HandsOn;
    var c := c1.(inbox := [read] + c1.inbox);
    assert c.inbox[0] == read && c.(inbox := c.inbox[1..]) == c1;
    var (c2, r) := HandleFrame(c1, read);
    HandleFrameLog(c1, read);
    HandleEffects(c1.st, read.frame);
    NothingHandedOn(c2.st, c2.handed);
    rest := [];
    if r.Ok? && Reached(goal, r.value) {
      VerdictEnd(goal, c1.st, read);
      FrameHandsOn(c1, read, [], c2.st, c2.handed);
      assert [read] + rest == [read];
    } else if r.Err? {
      VerdictEmpty(goal, c2.st);
      VerdictFrame(goal, c1.st, read, c2.st, [], false);
      FrameHandsOn(c1, read, [], c2.st, c2.handed);
    } else if r.value.negative {
      rest := AttemptsVerdict(c2, first, attempt + 1, maximumRetries, goal);
      var (c', o) := Attempts(c2, first, attempt + 1, maximumRetries, goal);
      VerdictFrame(goal, c1.st, read, c'.st, rest, o.Ok?);
      FrameHandsOn(c1, read, rest, c'.st, c'.handed);
    } else {
      rest := WaitVerdict(c2, first, attempt, maximumRetries, goal);
      var (c', o) := Wait(c2, first, attempt, maximumRetries, goal);
      VerdictFrame(goal, c1.st, read, c'.st, rest, o.Ok?);
      FrameHandsOn(c1, read, rest, c'.st, c'.handed);
    }
  }

  /** Every further transaction is refused for a pending request's sake, or none is. */
  ghost predicate StartsRefused(s: State, refused: bool) {
    && (StartReset(s).1 == Err(RequestPending) <==> refused)
    && (StartLinkStatus(s).1 == Err(RequestPending) <==> refused)
    && (forall d :: s.ready && d != [] ==> (StartConfirmed(s, d).1 == Err(RequestPending) <==> refused))
  }

  lemma StartsRefusedIff(s: State)
    ensures StartsRefused(s, s.pending.Some?)
  {
    hide PrimaryControl;
  }

  /**
   * SendConfirmed. On success it consumed exactly one acknowledgement, last, the request is gone and the send bit
   * toggled once. On failure the send bit is unchanged unless the peer reset the link, and the request is gone if and
   * only if an accepted reset or refusal was among the reads: exactly otherwise every further start is refused. In every
   * case exactly what is taken from the reads goes to the user-data handler.
   */
  lemma SendConfirmedVerdict(c: Conn, userData: Payload, maximumRetries: nat)
    returns (used: seq<Read>, sent: seq<StrictFrame>)
    requires StartConfirmed(c.st, userData).1.Ok?
    ensures var s0, first := StartConfirmed(c.st, userData).0, StartConfirmed(c.st, userData).1.value;
      var (c', r) := SendConfirmed(c, userData, maximumRetries);
      && c.inbox == used + c'.inbox
      && (r.Ok? ==> EndsWithItsAck(used) && !Withdrawn(s0, used) && c'.st.pending.None?
                    && c'.st.nextSendFCB == !c.st.nextSendFCB)
      && (r.Err? ==> c'.st.nextSendFCB == (c.st.nextSendFCB || HasReset(s0, used))
                     && (c'.st.pending.None? <==> Withdrawn(s0, used))
                     && StartsRefused(c'.st, !Withdrawn(s0, used)))
      && c'.handed == c.handed + Taken(s0, used).1
      && Requests(c'.log) == Requests(c.log) + sent && |sent| <= maximumRetries + 1 && AllAre(sent, first)
  {
    hide Attempts, Requests, HasReset, HasRefusal, PrimaryControl, StartsRefused, Taken, Flag, Func;
    var started := StartConfirmed(c.st, userData);
    used := AttemptsVerdict(c.(st := started.0), started.1.value, 0, maximumRetries, UntilAcknowledged);
    sent := RequestsBounded(c, started, maximumRetries, UntilAcknowledged);
    StartsRefusedIff(SendConfirmed(c, userData, maximumRetries).0.st);
  }

  /**
   * Reset: on success the link is ready, the send bit set and nothing pending; on failure it is ready only if the peer
   * reset it, and the request is gone, and further starts go ahead, exactly when the peer withdrew it.
   */
  lemma ResetVerdict(c: Conn, maximumRetries: nat) returns (used: seq<Read>, sent: seq<StrictFrame>)
    requires StartReset(c.st).1.Ok?
    ensures var s0, first := StartReset(c.st).0, StartReset(c.st).1.value;
      var (c', r) := Reset(c, maximumRetries);
      && c.inbox == used + c'.inbox
      && (r.Ok? ==> EndsWithItsAck(used) && !Withdrawn(s0, used)
                    && c'.st.ready && c'.st.nextSendFCB && c'.st.pending.None?)
      && (r.Err? ==> c'.st.ready == HasReset(s0, used)
                     && (c'.st.pending.None? <==> Withdrawn(s0, used))
                     && StartsRefused(c'.st, !Withdrawn(s0, used)))
      && c'.handed == c.handed + Taken(s0, used).1
      && Requests(c'.log) == Requests(c.log) + sent && |sent| <= maximumRetries + 1 && AllAre(sent, first)
  {
    hide Attempts, Requests, HasReset, HasRefusal, PrimaryControl, StartsRefused, Taken, Flag, Func;
    var started := StartReset(c.st);
    used := AttemptsVerdict(c.(st := started.0), started.1.value, 0, maximumRetries, UntilAcknowledged);
    sent := RequestsBounded(c, started, maximumRetries, UntilAcknowledged);
    StartsRefusedIff(Reset(c, maximumRetries).0.st);
  }

  /**
   * KeepAlive: success ends on a link status, which may be the peer's answer or the peer's own request. The request is
   * gone if and only if the ending frame was an answer or the peer withdrew the request before; a success on the
   * peer's own request leaves it pending, and then every further start is refused.
   */
  lemma KeepAliveVerdict(c: Conn, maximumRetries: nat) returns (used: seq<Read>, sent: seq<StrictFrame>)
    requires StartLinkStatus(c.st).1.Ok?
    ensures var s0, first := StartLinkStatus(c.st).0, StartLinkStatus(c.st).1.value;
      var (c', r) := KeepAlive(c, maximumRetries);
      && c.inbox == used + c'.inbox
      && (r.Ok? ==> EndsWithStatus(used))
      && (c'.st.pending.None? <==> Withdrawn(s0, used) || (r.Ok? && EndsWithAnswer(used)))
      && StartsRefused(c'.st, !(Withdrawn(s0, used) || (r.Ok? && EndsWithAnswer(used))))
      && BitsKept(c.st, c'.st, used)
      && c'.handed == c.handed + Taken(s0, used).1
      && Requests(c'.log) == Requests(c.log) + sent && |sent| <= maximumRetries + 1 && AllAre(sent, first)
  {
    hide Attempts, Requests, HasRefusal, HasReset, PrimaryControl, StartsRefused, Taken, Flag, Func;
    var started := StartLinkStatus(c.st);
    used := AttemptsVerdict(c.(st := started.0), started.1.value, 0, maximumRetries, UntilLinkStatus);
    sent := RequestsBounded(c, started, maximumRetries, UntilLinkStatus);
    StartsRefusedIff(KeepAlive(c, maximumRetries).0.st);
    HasResetSame(c.st, started.0, used);
  }

  // ---------------------------------------------------------------- plain reception

  /**
   * For all reads: what is absorbed is taken or lost, and everything absorbed is taken if and only if every read with
   * new data is answered.
   */
  lemma {:induction false} TakenIffAnswered(s: State, inbox: seq<Read>)
    ensures var absorbed := Absorb(s, Arrivals(inbox));
      && Taken(s, inbox).0 == absorbed.0
      && |absorbed.1| == |Taken(s, inbox).1| + |Lost(s, inbox)|
      && (NewDataAnswered(s, inbox) <==> Taken(s, inbox).1 == absorbed.1)
      && (NewDataAnswered(s, inbox) <==> Lost(s, inbox) == [])
    decreases |inbox|
  {
    hide Handle;
    if inbox != [] {
      if inbox[0].Arrived? {
        var (t, r) := Handle(s, inbox[0].frame);
        TakenIffAnswered(t, inbox[1..]);
        assert Arrivals(inbox)[1..] == Arrivals(inbox[1..]);
      } else {
        TakenIffAnswered(s, inbox[1..]);
        assert Arrivals(inbox) == Arrivals(inbox[1..]);
      }
    }
  }

  /** The connection after its first read, which arrived, was handled and, where possible, answered. */
  function Answered(c: Conn): Conn
    requires c.inbox != [] && c.inbox[0].Arrived?
  {
    var (s, r) := Handle(c.st, c.inbox[0].frame);
    var c2 := c.(inbox := c.inbox[1..], st := s);
    if r.Ok? && r.value.response.Some? && c.inbox[0].answered then
      c2.(log := c2.log + [Response(r.value.response.value)])
    else c2
  }

  /** The first read decides what one step of Receive does. */
  lemma ReceiveFirst(c: Conn)
    requires c.inbox != []
    ensures !c.inbox[0].Arrived? ==> Receive(c) == (c.(inbox := c.inbox[1..]), Err(ReadFailed))
    ensures c.inbox[0].Arrived? ==>
      var r := Handle(c.st, c.inbox[0].frame).1;
      Receive(c) == if r.Err? then (Answered(c), Err(LinkFailure(r.error)))
                    else if Unwritten(c.inbox[0], r) then (Answered(c), Err(WriteFailed))
                    else if r.value.userData != [] then (Answered(c), Ok(r.value.userData))
                    else Receive(Answered(c))
  {
    hide Handle;
  }

  /**
   * For every connection: Receive goes through some reads and returns exactly what is taken from them. What it loses
   * is at most one payload: that of its last read, exactly when Receive fails because the answer to new data cannot
   * be written.
   */
  lemma {:induction false} ReceiveAbsorbs(c: Conn) returns (used: seq<Read>)
    ensures var (c', r) := Receive(c);
      c.inbox == used + c'.inbox && ReceiveVerdict(c.st, used, c'.st, r)
    decreases |c.inbox|
  {
    hide Handle, ReceiveVerdict, Receive;
    used := [];
    if c.inbox == [] {
      NothingArrives(c);
    } else {
      var read, tail := c.inbox[0], c.inbox[1..];
      assert c.inbox == [read] + tail;
      ReceiveFirst(c);
      used := [read];
      if read.Arrived? && ReadsOn(c.st, read) {
        var rest := ReceiveAbsorbs(Answered(c));
        VerdictFurther(c.st, read, rest, Receive(c).0.st, Receive(c).1);
        used := [read] + rest;
      } else {
        VerdictOnce(c.st, read, Receive(c).0.st, Receive(c).1);
      }
    }
  }

  /** Receive does not return after this read. */
  predicate ReadsOn(s: State, read: Read)
    requires read.Arrived?
  {
    var r := Handle(s, read.frame).1;
    r.Ok? && !Unwritten(read, r) && r.value.userData == []
  }

  /** What the reads that a Receive used say about where it ended. */
  predicate ReceiveVerdict(s: State, used: seq<Read>, s': State, r: Result<Payload, Failure>) {
    && Taken(s, used) == (s', if r.Ok? then [r.value] else [])
    && |Lost(s, used)| <= 1 && (Lost(s, used) != [] ==> r == Err(WriteFailed))
    && (r == Err(WriteFailed) ==>
          used != [] && used[|used| - 1].Arrived? && !used[|used| - 1].answered
          && Lost(s, used) == DataOf(Handle(Taken(s, used[..|used| - 1]).0, used[|used| - 1].frame).1))
  }

  lemma NothingArrives(c: Conn)
    requires c.inbox == []
    ensures Receive(c) == (c, Err(ReadFailed)) && ReceiveVerdict(c.st, [], c.st, Err(ReadFailed))
  {
  }

  /** A single read that ends the Receive. */
  lemma VerdictOnce(s: State, read: Read, s': State, r: Result<Payload, Failure>)
    requires if !read.Arrived? then s' == s && r == Err(ReadFailed)
             else !ReadsOn(s, read)
                  && var h := Handle(s, read.frame);
                     s' == h.0 && r == if h.1.Err? then Err(LinkFailure(h.1.error))
                                       else if Unwritten(read, h.1) then Err(WriteFailed)
                                       else Ok(h.1.value.userData)
    ensures ReceiveVerdict(s, [read], s', r)
  {
    hide Handle;
    OneRead(s, read);
  }

  lemma VerdictFurther(s: State, read: Read, rest: seq<Read>, s': State, r: Result<Payload, Failure>)
    requires read.Arrived? && ReadsOn(s, read) && ReceiveVerdict(Handle(s, read.frame).0, rest, s', r)
    ensures ReceiveVerdict(s, [read] + rest, s', r)
  {
    hide Handle;
    var t, used := Handle(s, read.frame).0, [read] + rest;
    assert used[1..] == rest;
    QuietFirst(s, read, rest);
    if rest != [] {
      var before := rest[..|rest| - 1];
      assert used[..|used| - 1] == [read] + before;
      QuietFirst(s, read, before);
    }
  }

  /** A read without data in front of others changes only the state they are met in. */
  lemma QuietFirst(s: State, read: Read, rest: seq<Read>)
    requires read.Arrived? && ReadsOn(s, read)
    ensures var t := Handle(s, read.frame).0;
      Taken(s, [read] + rest) == Taken(t, rest) && Lost(s, [read] + rest) == Lost(t, rest)
  {
    hide Handle;
    var t := Handle(s, read.frame).0;
    assert ([read] + rest)[1..] == rest;
    assert [] + Taken(t, rest).1 == Taken(t, rest).1 && [] + Lost(t, rest) == Lost(t, rest);
  }

  lemma OneRead(s: State, read: Read)
    ensures [read][..0] == [] && Taken(s, []) == (s, [])
    ensures !read.Arrived? ==> Taken(s, [read]) == (s, []) && Lost(s, [read]) == []
    ensures read.Arrived? ==>
      var (t, r) := Handle(s, read.frame);
      Taken(s, [read]) == (t, if Unwritten(read, r) then [] else DataOf(r))
      && Lost(s, [read]) == if Unwritten(read, r) then DataOf(r) else []
  {
    hide Handle;
    assert [read][1..] == [];
    if read.Arrived? {
      var (t, r) := Handle(s, read.frame);
      var d, none: seq<Payload> := DataOf(r), [];
      assert d + none == d && none + none == none;
      assert Taken(t, []) == (t, []) && Lost(t, []) == [];
    }
  }
}
