/**
 * Octets are conserved from payloads to returned fragments: nothing that the receiving side returns was not taken from
 * a payload or held before. So a lost payload cannot go unnoticed in what a list of fragments comes to.
 */
module Conservation {
  import opened Bytes
  import Frame
  import LinkState
  import opened LinkChannel
  import LinkNeeds
  import Transport
  import AppFragment
  import opened Session
  import opened EndToEnd

  /** The octets of a payload behind its transport header. */
  function Content(payload: Payload): nat {
    if payload == [] then 0 else |payload| - 1
  }

  function Contents(payloads: seq<Payload>): nat {
    if payloads == [] then 0 else Content(payloads[0]) + Contents(payloads[1..])
  }

  /** The octets of an encoded fragment. */
  function Size(f: Fragment): nat {
    AppFragment.HeaderLength(f.function_) + |f.objects|
  }

  function Sizes(fragments: seq<Fragment>): nat {
    if fragments == [] then 0 else Size(fragments[0]) + Sizes(fragments[1..])
  }

  /** The octets that an application reassembler holds, with the header of the run under way. */
  function HeldFragment(a: AppFragment.Reassembly): nat {
    |a.objects| + if a.active then AppFragment.HeaderLength(a.function_) else 0
  }

  function Held(i: Input): nat {
    |i.transport.fragment| + HeldFragment(i.application)
  }

  lemma IdleHoldsNothing(i: Input)
    requires Listening(i) && i.transport == Transport.NewReassembly(i.maximum)
    ensures Held(i) == 0
  {
  }

  // ---------------------------------------------------------------- every step conserves

  lemma PushConserves(r: Transport.Reassembly, segment: seq<byte>)
    ensures var (r', pushed) := Transport.Push(r, segment);
      |r'.fragment| + (if pushed.Ok? && pushed.value.Some? then |pushed.value.value| else 0)
      <= |r.fragment| + Content(segment)
  {
    hide Transport.IsFirst, Transport.IsFinal, Transport.SeqOf, Transport.NextSeq;
  }

  lemma JoinConserves(a: AppFragment.Reassembly, f: Fragment)
    ensures var (a', pushed) := AppFragment.Push(a, f);
      HeldFragment(a') + (if pushed.Ok? && pushed.value.Some? then Size(pushed.value.value) else 0)
      <= HeldFragment(a) + Size(f)
  {
    hide AppFragment.IsResponse, AppFragment.Or, AppFragment.NextSeq;
  }

  lemma DecodedSize(data: seq<byte>, maximum: int)
    requires AppFragment.DecodeStrictFragment(data, maximum).Ok?
    ensures Size(AppFragment.DecodeStrictFragment(data, maximum).value) == |data|
  {
    hide AppFragment.IsResponse;
  }

  lemma AcceptConserves(i: Input, outbox: seq<bool>, payload: Payload)
    ensures var (i', _, got) := Accept(i, outbox, payload); Held(i') + Sizes(got) <= Held(i) + Content(payload)
  {
    hide Transport.Push, AppFragment.Push, AppFragment.DecodeStrictFragment, GoesOn, AfterConfirming, HeldFragment, Size;
    PushConserves(i.transport, payload);
    var pushed := Transport.Push(i.transport, payload).1;
    if pushed.Ok? && pushed.value.Some? {
      var decoded := AppFragment.DecodeStrictFragment(pushed.value.value, i.maximum);
      if decoded.Ok? {
        DecodedSize(pushed.value.value, i.maximum);
        JoinConserves(i.application, decoded.value.(con := false));
        SameSize(decoded.value);
      }
    }
  }

  lemma SameSize(f: Fragment)
    ensures Size(f.(con := false)) == Size(f)
  {
  }

  lemma {:induction false} AcceptAllConserves(i: Input, outbox: seq<bool>, payloads: seq<Payload>)
    ensures Sizes(AcceptAll(i, outbox, payloads).2) <= Held(i) + Contents(payloads)
    decreases |payloads|
  {
    hide Accept, Held, Content;
    if payloads != [] {
      var (i1, o1, got) := Accept(i, outbox, payloads[0]);
      AcceptConserves(i, outbox, payloads[0]);
      AcceptAllConserves(i1, o1, payloads[1..]);
      SizesAppend(got, AcceptAll(i1, o1, payloads[1..]).2);
    }
  }

  lemma {:induction false} SizesAppend(a: seq<Fragment>, b: seq<Fragment>)
    ensures Sizes(a + b) == Sizes(a) + Sizes(b)
    decreases |a|
  {
    hide Size;
    if a == [] {
      assert a + b == b;
    } else {
      assert (a + b)[0] == a[0] && (a + b)[1..] == a[1..] + b;
      SizesAppend(a[1..], b);
    }
  }

  lemma {:induction false} SizesCleared(fragments: seq<Fragment>)
    ensures Sizes(Cleared(fragments)) == Sizes(fragments)
    decreases |fragments|
  {
    if fragments != [] {
      SizesCleared(fragments[1..]);
      assert Cleared(fragments)[1..] == Cleared(fragments[1..]);
    }
  }

  // ---------------------------------------------------------------- what is sent

  lemma {:induction false} ContentsAppend(a: seq<Payload>, b: seq<Payload>)
    ensures Contents(a + b) == Contents(a) + Contents(b)
    decreases |a|
  {
    if a == [] {
      assert a + b == b;
    } else {
      assert (a + b)[0] == a[0] && (a + b)[1..] == a[1..] + b;
      ContentsAppend(a[1..], b);
    }
  }

  lemma {:induction false} SegmentsContents(fragment: seq<byte>, current: byte, chunkSize: nat, first: bool)
    requires chunkSize > 0
    ensures Contents(Transport.Segments(fragment, current, chunkSize, first)) == |fragment|
    decreases |fragment|
  {
    hide Transport.HeaderFor, Transport.NextSeq;
    var segments := Transport.Segments(fragment, current, chunkSize, first);
    if |fragment| > chunkSize {
      var rest := fragment[chunkSize..];
      SegmentsContents(rest, Transport.NextSeq(current), chunkSize, false);
      assert segments[1..] == Transport.Segments(rest, Transport.NextSeq(current), chunkSize, false);
    } else if fragment != [] {
      assert segments[1..] == [];
    }
  }

  /** The payloads of a fragment carry exactly its encoding. */
  lemma OutgoingContents(f: Fragment, next: byte, maximum: int)
    requires Outgoing(f, next, maximum).Ok?
    ensures Contents(Outgoing(f, next, maximum).value.0) == Size(f)
  {
    hide AppFragment.IsResponse, AppFragment.Control, Transport.Segments, Transport.Advance, Contents;
    var encoded := AppFragment.EncodeStrictFragment(f, maximum).value;
    SegmentsContents(encoded, Transport.SeqOf(next), Frame.MAX_DATA_SIZE - 1, true);
  }

  lemma {:induction false} OutgoingAllContents(fragments: seq<Fragment>, next: byte, maximum: int)
    requires OutgoingAll(fragments, next, maximum).Ok?
    ensures Contents(OutgoingAll(fragments, next, maximum).value.0) == Sizes(fragments)
    decreases |fragments|
  {
    hide Outgoing, Size, Contents;
    if fragments == [] {
      NoContents();
    } else {
      var (payloads, after) := Outgoing(fragments[0], next, maximum).value;
      OutgoingContents(fragments[0], next, maximum);
      OutgoingAllContents(fragments[1..], after, maximum);
      ContentsAppend(payloads, OutgoingAll(fragments[1..], after, maximum).value.0);
    }
  }

  lemma NoContents()
    ensures Contents([]) == 0
  {
  }

  predicate AllSendable(payloads: seq<Payload>) {
    forall k :: 0 <= k < |payloads| ==> LinkNeeds.Sendable(payloads[k])
  }

  /** Fragments that fit the sender's limit go out as payloads that the link takes. */
  lemma {:induction false} OutgoingSendable(fragments: seq<Fragment>, next: byte, maximum: int)
    requires Crossable(fragments, maximum) && maximum >= 2
    ensures OutgoingAll(fragments, next, maximum).Ok?
    ensures AllSendable(OutgoingAll(fragments, next, maximum).value.0)
    decreases |fragments|
  {
    hide Outgoing, LinkNeeds.Sendable;
    if fragments != [] {
      OneOutgoing(fragments[0], next, maximum);
      OutgoingSendable(fragments[1..], Outgoing(fragments[0], next, maximum).value.1, maximum);
    }
  }

  lemma OneOutgoing(f: Fragment, next: byte, maximum: int)
    requires Whole(f) && Fits(f, maximum) && maximum >= 2
    ensures Outgoing(f, next, maximum).Ok? && AllSendable(Outgoing(f, next, maximum).value.0)
  {
    hide AppFragment.IsResponse, AppFragment.Control, Transport.Segments, Transport.Advance;
    var encoded := AppFragment.EncodeStrictFragment(f, maximum).value;
    Transport.SegmentThenPush(Transport.NewReassembly(|encoded|), encoded, next, Frame.MAX_DATA_SIZE);
  }

  /** Every payload of a fragment carries at least one octet behind its transport header. */
  lemma OutgoingLong(f: Fragment, next: byte, maximum: int)
    requires Outgoing(f, next, maximum).Ok?
    ensures forall p :: p in Outgoing(f, next, maximum).value.0 ==> |p| >= 2
  {
    hide AppFragment.IsResponse, AppFragment.Control, Transport.Segments, Transport.Advance;
    var encoded := AppFragment.EncodeStrictFragment(f, maximum).value;
    Transport.SegmentThenPush(Transport.NewReassembly(|encoded|), encoded, next, Frame.MAX_DATA_SIZE);
  }

  lemma {:induction false} OutgoingAllLong(fragments: seq<Fragment>, next: byte, maximum: int)
    requires OutgoingAll(fragments, next, maximum).Ok?
    ensures forall p :: p in OutgoingAll(fragments, next, maximum).value.0 ==> |p| >= 2
    decreases |fragments|
  {
    hide Outgoing;
    if fragments != [] {
      OutgoingLong(fragments[0], next, maximum);
      OutgoingAllLong(fragments[1..], Outgoing(fragments[0], next, maximum).value.1, maximum);
    }
  }

  // ---------------------------------------------------------------- what is lost

  lemma {:induction false} TakenContents(st: LinkState.State, inbox: seq<Read>)
    ensures Contents(Taken(st, inbox).1) + Contents(Lost(st, inbox)) == Contents(Absorb(st, Arrivals(inbox)).1)
    ensures forall p :: p in Lost(st, inbox) ==> p in Absorb(st, Arrivals(inbox)).1
    decreases |inbox|
  {
    hide LinkState.Handle, Contents;
    if inbox == [] {
      NoContents();
    } else if inbox[0].Arrived? {
      var (t, r) := LinkState.Handle(st, inbox[0].frame);
      assert Arrivals(inbox)[1..] == Arrivals(inbox[1..]);
      TakenContents(t, inbox[1..]);
      NoContents();
      var d := DataOf(r);
      ContentsAppend(d, Absorb(t, Arrivals(inbox[1..])).1);
      ContentsAppend(if Unwritten(inbox[0], r) then [] else d, Taken(t, inbox[1..]).1);
      ContentsAppend(if Unwritten(inbox[0], r) then d else [], Lost(t, inbox[1..]));
    } else {
      assert Arrivals(inbox) == Arrivals(inbox[1..]);
      TakenContents(st, inbox[1..]);
    }
  }

  lemma PositiveContents(payloads: seq<Payload>)
    requires payloads != [] && forall p :: p in payloads ==> |p| >= 2
    ensures Contents(payloads) > 0
  {
    assert payloads[0] in payloads;
  }

  /**
   * When all payloads of a list were absorbed but some answer to new data was not written, a receiving side that held
   * nothing does not return the list, whatever the confirmations do.
   */
  lemma {:induction false} LossShows(st: LinkState.State, inbox: seq<Read>, i: Input, outbox: seq<bool>,
                                     fragments: seq<Fragment>, next: byte, maximum: int)
    requires Held(i) == 0 && OutgoingAll(fragments, next, maximum).Ok?
    requires Absorb(st, Arrivals(inbox)).1 == OutgoingAll(fragments, next, maximum).value.0
    requires !NewDataAnswered(st, inbox)
    ensures AcceptAll(i, outbox, Taken(st, inbox).1).2 != Cleared(fragments)
  {
    hide *;
    TakenIffAnswered(st, inbox);
    TakenContents(st, inbox);
    OutgoingAllLong(fragments, next, maximum);
    PositiveContents(Lost(st, inbox));
    OutgoingAllContents(fragments, next, maximum);
    AcceptAllConserves(i, outbox, Taken(st, inbox).1);
    SizesCleared(fragments);
  }

  /**
   * Why the receiver must hold nothing: one that holds the first payload of a fragment from an earlier attempt returns
   * the whole list of that fragment although it takes only the other payloads.
   */
  lemma {:induction false} HeldStandsIn(i: Input, f: Fragment, next: byte, maximum: int)
    requires Whole(f) && !f.con && Listening(i) && Fits(f, i.maximum) && Outgoing(f, next, maximum).Ok?
    requires |Outgoing(f, next, maximum).value.0| >= 2
    ensures var payloads := Outgoing(f, next, maximum).value.0;
      var held := Accept(i, [], payloads[0]).0;
      Listening(held) && AcceptAll(held, [], payloads[1..]).2 == Cleared([f])
  {
    hide AppFragment.EncodeStrictFragment, AppFragment.DecodeStrictFragment, Transport.SegmentStrict, Transport.Push;
    hide AppFragment.IsResponse;
    var encoded := AppFragment.EncodeStrictFragment(f, maximum).value;
    var payloads := Outgoing(f, next, maximum).value.0;
    FragmentCrosses(i, [], f, next, maximum);
    AppFragment.DecodeEncoded(f, maximum, i.maximum);
    Transport.SegmentThenPush(i.transport, encoded, next, Frame.MAX_DATA_SIZE);
    FirstIsQuiet(i.transport, payloads, encoded);
    PushLimit(i.transport, payloads[0]);
    var held := Accept(i, [], payloads[0]).0;
    assert [] + AcceptAll(held, [], payloads[1..]).2 == AcceptAll(held, [], payloads[1..]).2;
    assert Cleared([f]) == [f.(con := false)];
  }

  lemma FirstIsQuiet(t: Transport.Reassembly, payloads: seq<Payload>, encoded: seq<byte>)
    requires |payloads| >= 2 && Transport.CompletesOnlyAtEnd(Transport.PushAll(t, payloads).1, encoded)
    ensures Transport.Push(t, payloads[0]).1 == Ok(None)
  {
    hide Transport.Push;
    var results := Transport.PushAll(t, payloads).1;
    PushAllLength(t, payloads);
    assert results[0] == Ok(None);
  }

  lemma PushLimit(t: Transport.Reassembly, segment: seq<byte>)
    ensures Transport.Push(t, segment).0.maximumFragment == t.maximumFragment
  {
    hide Transport.IsFirst, Transport.IsFinal, Transport.SeqOf, Transport.NextSeq;
  }
}
