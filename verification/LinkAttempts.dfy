/** How many attempts a transaction makes, exactly, and why it gives up. */
module LinkAttempts {
  import opened Bytes
  import opened Frame
  import opened LinkState
  import opened LinkChannel
  import LinkTable

  /** The read ends an attempt: nothing came in time, or a negative answer, to this side or by it, went through. */
  predicate EndsAttempt(s: State, read: Read) {
    match read
    case TimedOut => true
    case Broken => false
    case Arrived(f, _, _) =>
      var r := Handle(s, f).1;
      r.Ok? && r.value.negative && !Unwritten(read, r)
  }

  function AfterRead(s: State, read: Read): State {
    if read.Arrived? then Handle(s, read.frame).0 else s
  }

  /** The attempts that the reads use up. */
  function Spent(s: State, used: seq<Read>): nat
    decreases |used|
  {
    if used == [] then 0
    else (if EndsAttempt(s, used[0]) then 1 else 0) + Spent(AfterRead(s, used[0]), used[1..])
  }

  predicate LastIsBroken(used: seq<Read>) {
    used != [] && used[|used| - 1].Broken?
  }

  /**
   * How reading went, with that many attempts at hand, the running one included: they are used up exactly when the
   * transaction reports so; a broken connection is the last read and the reason.
   */
  predicate Ended(s: State, used: seq<Read>, attempts: nat, r: Outcome, left: seq<Read>) {
    && Spent(s, used) <= attempts
    && (r == Err(Exhausted) <==> Spent(s, used) == attempts)
    && (forall i :: 0 <= i < |used| - 1 ==> !used[i].Broken?)
    && (LastIsBroken(used) ==> r == Err(ReadFailed))
    && (r == Err(ReadFailed) ==> LastIsBroken(used) || left == [])
  }

  /** Requests written after the first: one more for each attempt that was used up, but for the last. */
  predicate Repeated(s: State, used: seq<Read>, attempts: nat, r: Outcome, repeats: nat) {
    && repeats <= Spent(s, used)
    && (r.Ok? ==> repeats == Spent(s, used))
    && (r == Err(Exhausted) ==> repeats + 1 == attempts)
  }

  // ---------------------------------------------------------------- the answers that were written

  /** The answers among the written frames. */
  function Responses(log: seq<Written>): seq<StrictFrame> {
    if log == [] then []
    else
      var last, before := log[|log| - 1], Responses(log[..|log| - 1]);
      if last.Response? then before + [last.frame] else before
  }

  lemma ResponsesSnoc(log: seq<Written>, w: Written)
    ensures Responses(log + [w]) == if w.Response? then Responses(log) + [w.frame] else Responses(log)
  {
    assert (log + [w])[..|log|] == log;
  }

  /** The answer that handling a read writes. */
  function AnswerOf(read: Read, r: HandleResult): seq<StrictFrame>
    requires read.Arrived?
  {
    if r.Ok? && r.value.response.Some? && read.answered then [r.value.response.value] else []
  }

  /** The answers to all reads, in order. */
  function Answers(st: State, inbox: seq<Read>): seq<StrictFrame>
    decreases |inbox|
  {
    if inbox == [] then []
    else if !inbox[0].Arrived? then Answers(st, inbox[1..])
    else
      var (t, r) := Handle(st, inbox[0].frame);
      AnswerOf(inbox[0], r) + Answers(t, inbox[1..])
  }

  lemma ArrivedAnswers(s: State, read: Read, rest: seq<Read>)
    requires read.Arrived?
    ensures Answers(s, [read] + rest)
         == AnswerOf(read, Handle(s, read.frame).1) + Answers(Handle(s, read.frame).0, rest)
  {
    hide Handle;
    assert ([read] + rest)[1..] == rest;
  }

  /** One frame: the answer that is written. */
  lemma FrameAnswers(c: Conn, read: Read)
    requires read.Arrived?
    ensures Responses(HandleFrame(c, read).0.log) == Responses(c.log) + AnswerOf(read, Handle(c.st, read.frame).1)
  {
    hide Handle, Responses;
    var r := Handle(c.st, read.frame).1;
    if r.Ok? && r.value.response.Some? && read.answered {
      ResponsesSnoc(c.log, Response(r.value.response.value));
    } else {
      assert Responses(c.log) + [] == Responses(c.log);
    }
  }

  // ---------------------------------------------------------------- how transactions end

  lemma SpentFirst(s: State, read: Read, rest: seq<Read>)
    ensures Spent(s, [read] + rest) == (if EndsAttempt(s, read) then 1 else 0) + Spent(AfterRead(s, read), rest)
    ensures LastIsBroken([read] + rest) == if rest == [] then read.Broken? else LastIsBroken(rest)
  {
    hide EndsAttempt, AfterRead;
    assert ([read] + rest)[1..] == rest;
  }

  lemma EndedFirst(s: State, read: Read, rest: seq<Read>, attempts: nat, r: Outcome, left: seq<Read>)
    requires !read.Broken?
    requires EndsAttempt(s, read) ==> attempts > 0
    requires Ended(AfterRead(s, read), rest, if EndsAttempt(s, read) then attempts - 1 else attempts, r, left)
    ensures Ended(s, [read] + rest, attempts, r, left)
  {
    hide EndsAttempt, AfterRead, Spent;
    SpentFirst(s, read, rest);
    var used := [read] + rest;
    forall i | 0 <= i < |used| - 1
      ensures !used[i].Broken?
    {
      if i > 0 {
        assert used[i] == rest[i - 1];
      }
    }
  }

  lemma EndedAtOnce(s: State, attempts: nat, r: Outcome, left: seq<Read>)
    requires if attempts == 0 then r == Err(Exhausted) else r != Err(Exhausted)
    requires r == Err(ReadFailed) ==> left == []
    ensures Ended(s, [], attempts, r, left)
  {
    hide EndsAttempt;
  }

  lemma EndedBroken(s: State, attempts: nat, left: seq<Read>)
    requires attempts > 0
    ensures Ended(s, [Broken], attempts, Err(ReadFailed), left)
  {
    SpentFirst(s, Broken, []);
    assert [Broken] + [] == [Broken];
  }

  /** A negative answer neither acknowledges nor reports a link status, and has no data. */
  lemma NegativeOnly(s: State, f: StrictFrame)
    requires Handle(s, f).1.Ok? && Handle(s, f).1.value.negative
    ensures var a := Handle(s, f).1.value; !a.acknowledged && !a.linkStatus && a.userData == []
  {
    hide Flag, Func, ValidControl, SecondaryFrame, HandlePrimary, HandleSecondary;
    PrimaryOnly(s, f);
    SecondaryOnly(s, f);
  }

  lemma PrimaryOnly(s: State, f: StrictFrame)
    ensures var r := HandlePrimary(s, f).1;
      r.Ok? && r.value.negative ==> !r.value.acknowledged && !r.value.linkStatus && r.value.userData == []
  {
    hide Flag, Func, SecondaryFrame;
  }

  lemma SecondaryOnly(s: State, f: StrictFrame)
    ensures var r := HandleSecondary(s, f).1;
      r.Ok? && r.value.negative ==> !r.value.acknowledged && !r.value.linkStatus && r.value.userData == []
  {
    hide Flag, Func;
  }

  /** One frame: whether it ends the attempt. */
  lemma FrameEnds(c: Conn, read: Read, goal: Goal)
    requires read.Arrived?
    ensures var (c2, r) := HandleFrame(c, read);
      && c2.st == AfterRead(c.st, read)
      && (EndsAttempt(c.st, read) <==> r.Ok? && !Reached(goal, r.value) && r.value.negative)
      && (r.Err? ==> r.error != Exhausted && r.error != ReadFailed)
  {
    hide Handle;
    var r := Handle(c.st, read.frame).1;
    if r.Ok? && r.value.negative {
      NegativeOnly(c.st, read.frame);
    }
  }

  lemma {:induction false} AttemptsEnd(c: Conn, first: StrictFrame, attempt: nat, maximumRetries: nat, goal: Goal)
    returns (used: seq<Read>, sent: seq<StrictFrame>)
    requires c.st.pending == Some(first) || (attempt > 0 && c.st.pending.None?)
    ensures var (c', r) := Attempts(c, first, attempt, maximumRetries, goal);
      var attempts := if attempt > maximumRetries then 0 else maximumRetries + 1 - attempt;
      && c.inbox == used + c'.inbox && Ended(c.st, used, attempts, r, c'.inbox)
      && Requests(c'.log) == Requests(c.log) + sent && AllAre(sent, first)
      && Responses(c'.log) == Responses(c.log) + Answers(c.st, used)
      && |sent| <= Spent(c.st, used) + 1
      && (r.Ok? ==> |sent| == Spent(c.st, used) + 1) && (r == Err(Exhausted) ==> |sent| == attempts)
    decreases |c.inbox|, 1
  {
    hide Handle, Requests, Wait, Ended, Spent, Responses, Answers;
    used, sent := [], [];
    assert Requests(c.log) + [] == Requests(c.log) && Responses(c.log) + [] == Responses(c.log);
    var attempts := if attempt > maximumRetries then 0 else maximumRetries + 1 - attempt;
    var (c', r) := Attempts(c, first, attempt, maximumRetries, goal);
    if attempt <= maximumRetries && (attempt == 0 || c.st.pending.Some?) && Write(c, Request(first)).1 {
      var c1 := Write(c, Request(first)).0;
      RequestsSnoc(c.log, Request(first));
      ResponsesSnoc(c.log, Request(first));
      var more: seq<StrictFrame>;
      used, more := WaitEnds(c1, first, attempt, maximumRetries, goal);
      sent := [first] + more;
      assert Requests(c.log) + sent == Requests(c1.log) + more;
    } else {
      EndedAtOnce(c.st, attempts, r, c'.inbox);
      NothingSpent(c.st);
    }
  }

  lemma NothingSpent(s: State)
    ensures Spent(s, []) == 0 && Answers(s, []) == []
  {
  }

  lemma {:induction false} WaitEnds(c: Conn, first: StrictFrame, attempt: nat, maximumRetries: nat, goal: Goal)
    returns (used: seq<Read>, sent: seq<StrictFrame>)
    requires c.st.pending == Some(first) || c.st.pending.None?
    requires attempt <= maximumRetries
    ensures var (c', r) := Wait(c, first, attempt, maximumRetries, goal);
      var attempts := maximumRetries + 1 - attempt;
      && c.inbox == used + c'.inbox && Ended(c.st, used, attempts, r, c'.inbox)
      && Requests(c'.log) == Requests(c.log) + sent && AllAre(sent, first)
      && Responses(c'.log) == Responses(c.log) + Answers(c.st, used)
      && Repeated(c.st, used, attempts, r, |sent|)
    decreases |c.inbox|, 0
  {
    hide Handle, Requests, Attempts, Ended, Spent, HandleFrame, EndsAttempt, AfterRead, Responses, Answers, AnswerOf;
    used, sent := [], [];
    assert Requests(c.log) + [] == Requests(c.log) && Responses(c.log) + [] == Responses(c.log);
    var attempts := maximumRetries + 1 - attempt;
    NothingSpent(c.st);
    if c.inbox == [] {
      EndedAtOnce(c.st, attempts, Err(ReadFailed), []);
    } else {
      var read, c1 := c.inbox[0], c.(inbox := c.inbox[1..]);
      assert c.inbox == [read] + c1.inbox;
      var rest: seq<Read> := [];
      var (c', r) := Wait(c, first, attempt, maximumRetries, goal);
      match read {
        case Broken =>
          EndedBroken(c.st, attempts, c1.inbox);
          QuietAnswers(c.st, read, rest);
          assert [Broken] + rest == [Broken];
        case TimedOut =>
          TimedOutEnds(c.st);
          rest, sent := AttemptsEnd(c1, first, attempt + 1, maximumRetries, goal);
          SpentFirst(c.st, read, rest);
          QuietAnswers(c.st, read, rest);
          EndedFirst(c.st, read, rest, attempts, r, c'.inbox);
        case Arrived(f, _, _) =>
          rest, sent := FrameGoesOn(c1, read, first, attempt, maximumRetries, goal);
      }
      used := [read] + rest;
      assert c.inbox == used + c'.inbox;
      SpentFirst(c.st, read, rest);
    }
  }

  lemma QuietAnswers(s: State, read: Read, rest: seq<Read>)
    requires !read.Arrived?
    ensures Answers(s, [read] + rest) == Answers(s, rest)
  {
    assert ([read] + rest)[1..] == rest;
  }

  lemma TimedOutEnds(s: State)
    ensures EndsAttempt(s, TimedOut) && AfterRead(s, TimedOut) == s
  {
  }

  lemma {:induction false} FrameGoesOn(c1: Conn, read: Read, first: StrictFrame, attempt: nat, maximumRetries: nat,
                                       goal: Goal)
    returns (rest: seq<Read>, sent: seq<StrictFrame>)
    requires read.Arrived? && attempt <= maximumRetries
    requires c1.st.pending == Some(first) || c1.st.pending.None?
    ensures var (c', r) := Wait(c1.(inbox := [read] + c1.inbox), first, attempt, maximumRetries, goal);
      var attempts := maximumRetries + 1 - attempt;
      && c1.inbox == rest + c'.inbox && Ended(c1.st, [read] + rest, attempts, r, c'.inbox)
      && Requests(c'.log) == Requests(c1.log) + sent && AllAre(sent, first)
      && Responses(c'.log) == Responses(c1.log) + Answers(c1.st, [read] + rest)
      && Repeated(c1.st, [read] + rest, attempts, r, |sent|)
    decreases |c1.inbox|, 2
  {
    hide Handle, Requests, Attempts, Ended, Spent, HandleFrame, EndsAttempt, AfterRead, Responses, Answers, AnswerOf;
    rest, sent := [], [];
    var c := c1.(inbox := [read] + c1.inbox);
    assert c.inbox[0] == read && c.(inbox := c.inbox[1..]) == c1;
    var (c2, h) := HandleFrame(c1, read);
    var (c', r) := Wait(c, first, attempt, maximumRetries, goal);
    var attempts := maximumRetries + 1 - attempt;
    HandleFrameLog(c1, read);
    HandleEffects(c1.st, read.frame);
    FrameEnds(c1, read, goal);
    NothingSpent(c2.st);
    assert Requests(c1.log) + [] == Requests(c1.log);
    FrameAnswers(c1, read);
    if h.Err? || Reached(goal, h.value) {
      EndedAtOnce(c2.st, attempts, r, c'.inbox);
    } else if h.value.negative {
      rest, sent := AttemptsEnd(c2, first, attempt + 1, maximumRetries, goal);
    } else {
      rest, sent := WaitEnds(c2, first, attempt, maximumRetries, goal);
    }
    SpentFirst(c1.st, read, rest);
    EndedFirst(c1.st, read, rest, attempts, r, c'.inbox);
    ArrivedAnswers(c1.st, read, rest);
    var a, b := AnswerOf(read, Handle(c1.st, read.frame).1), Answers(c2.st, rest);
    assert (Responses(c1.log) + a) + b == Responses(c1.log) + (a + b);
  }

  /**
   * Every transaction, for all reads and writes: it gives up exactly when its reads have used up all its attempts, and
   * has then written its request maximumRetries + 1 times; when it succeeds it has written it once, and once more for
   * every attempt that a timeout or a negative answer ended; a broken connection ends it at once. In between it writes
   * exactly the answers to its reads.
   */
  lemma TransactionEnds(c: Conn, started: (State, StartResult), maximumRetries: nat, goal: Goal)
    returns (used: seq<Read>, sent: seq<StrictFrame>)
    requires started.1.Ok? && started.0.pending == Some(started.1.value)
    ensures var (c', r) := Start(c, started, maximumRetries, goal);
      && c.inbox == used + c'.inbox && Ended(started.0, used, maximumRetries + 1, r, c'.inbox)
      && Requests(c'.log) == Requests(c.log) + sent && AllAre(sent, started.1.value)
      && Responses(c'.log) == Responses(c.log) + Answers(started.0, used)
      && |sent| <= Spent(started.0, used) + 1
      && (r.Ok? ==> |sent| == Spent(started.0, used) + 1)
      && (r == Err(Exhausted) ==> |sent| == maximumRetries + 1)
  {
    hide Requests, Attempts, Ended, Spent, Responses, Answers;
    used, sent := AttemptsEnd(c.(st := started.0), started.1.value, 0, maximumRetries, goal);
  }

  /** What cannot be started reads and writes nothing, and why it cannot. */
  lemma Refused(c: Conn, data: Payload, maximumRetries: nat)
    ensures c.st.pending.Some? ==>
      Reset(c, maximumRetries) == KeepAlive(c, maximumRetries) == (c, Err(LinkFailure(RequestPending)))
    ensures !c.st.ready ==> SendConfirmed(c, data, maximumRetries) == (c, Err(LinkFailure(NotReset)))
    ensures c.st.ready && data == [] ==> SendConfirmed(c, data, maximumRetries) == (c, Err(LinkFailure(EmptyUserData)))
    ensures c.st.ready && data != [] && c.st.pending.Some? ==>
      SendConfirmed(c, data, maximumRetries) == (c, Err(LinkFailure(RequestPending)))
    ensures c.st.ready && |data| > 250 && c.st.pending.None? ==>
      SendConfirmed(c, data, maximumRetries) == (c, Err(LinkFailure(DataTooLong)))
    ensures data == [] ==> SendUnconfirmed(c, data) == (c, Err(LinkFailure(EmptyUserData)))
    ensures |data| > 250 ==> SendUnconfirmed(c, data) == (c, Err(LinkFailure(DataTooLong)))
  {
    LinkTable.SentOctets(c.st, data);
    hide StartReset, StartConfirmed, StartLinkStatus, Unconfirmed, Attempts;
  }
}
