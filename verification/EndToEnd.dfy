/** What the receiving side makes of the payloads of a list of fragments, as its confirmations allow. */
module EndToEnd {
  import opened Bytes
  import Frame
  import Transport
  import AppFragment
  import opened Session

  type Payload = seq<byte>

  // ---------------------------------------------------------------- the receiving side, payload after payload

  /**
   * A fragment that asks for a confirmation goes on only if the next write, which is the confirmation, works. The
   * outbox says what the writes will do.
   */
  predicate GoesOn(f: Fragment, outbox: seq<bool>) {
    f.con ==> outbox != [] && outbox[0]
  }

  /** The writes that are left after the confirmation, if one was due. */
  function AfterConfirming(f: Fragment, outbox: seq<bool>): seq<bool> {
    if f.con && outbox != [] then outbox[1..] else outbox
  }

  /** What a decoded fragment comes to. */
  function Finish(i: Input, outbox: seq<bool>, f: Fragment): (Input, seq<bool>, seq<Fragment>) {
    if !GoesOn(f, outbox) then (i, AfterConfirming(f, outbox), [])
    else
      var (i1, complete) := TakeFragment(i, f);
      (i1, AfterConfirming(f, outbox),
       if complete.Ok? && complete.value.Some? then [complete.value.value] else [])
  }

  /** The fragment, if any, that one payload completes; errors drop the payload. */
  function Accept(i: Input, outbox: seq<bool>, payload: Payload): (Input, seq<bool>, seq<Fragment>) {
    var (i1, taken) := TakePayload(i, payload);
    if taken.Err? || taken.value.None? then (i1, outbox, []) else Finish(i1, outbox, taken.value.value)
  }

  function AcceptAll(i: Input, outbox: seq<bool>, payloads: seq<Payload>): (Input, seq<bool>, seq<Fragment>)
    decreases |payloads|
  {
    if payloads == [] then (i, outbox, [])
    else
      var (i1, o1, first) := Accept(i, outbox, payloads[0]);
      var (i2, o2, rest) := AcceptAll(i1, o1, payloads[1..]);
      (i2, o2, first + rest)
  }

  lemma {:induction false} AcceptAppend(i: Input, outbox: seq<bool>, p: seq<Payload>, q: seq<Payload>)
    ensures var (i1, o1, first) := AcceptAll(i, outbox, p);
      var (i2, o2, rest) := AcceptAll(i1, o1, q);
      AcceptAll(i, outbox, p + q) == (i2, o2, first + rest)
    decreases |p|
  {
    hide Accept;
    if p == [] {
      assert p + q == q;
      assert [] + AcceptAll(i, outbox, q).2 == AcceptAll(i, outbox, q).2;
    } else {
      assert (p + q)[0] == p[0] && (p + q)[1..] == p[1..] + q;
      var (i1, o1, first) := Accept(i, outbox, p[0]);
      AcceptAppend(i1, o1, p[1..], q);
      var (i2, o2, more) := AcceptAll(i1, o1, p[1..]);
      assert first + (more + AcceptAll(i2, o2, q).2) == (first + more) + AcceptAll(i2, o2, q).2;
    }
  }

  // ---------------------------------------------------------------- one fragment

  /** Pushes that complete only at the end hand exactly one fragment on. */
  lemma {:induction false} AcceptCompleting(i: Input, outbox: seq<bool>, payloads: seq<Payload>, encoded: seq<byte>,
                                            f: Fragment)
    requires var (t, results) := Transport.PushAll(i.transport, payloads);
      Transport.CompletesOnlyAtEnd(results, encoded)
    requires AppFragment.DecodeStrictFragment(encoded, i.maximum) == Ok(f)
    ensures AcceptAll(i, outbox, payloads)
         == Finish(i.(transport := Transport.PushAll(i.transport, payloads).0), outbox, f)
    decreases |payloads|
  {
    hide Transport.Push, AppFragment.DecodeStrictFragment, Finish;
    var results := Transport.PushAll(i.transport, payloads).1;
    var (t1, first) := Transport.Push(i.transport, payloads[0]);
    var rest := Transport.PushAll(t1, payloads[1..]).1;
    assert results == [first] + rest;
    if |payloads| == 1 {
      assert rest == [] && payloads[1..] == [];
      var (i1, o1, got) := Accept(i, outbox, payloads[0]);
      assert AcceptAll(i1, o1, []) == (i1, o1, []) && got + [] == got;
    } else {
      PushAllLength(t1, payloads[1..]);
      assert first == results[0] == Ok(None);
      assert rest[|rest| - 1] == results[|results| - 1];
      assert forall k :: 0 <= k < |rest| - 1 ==> rest[k] == results[k + 1];
      var i1 := i.(transport := t1);
      AcceptCompleting(i1, outbox, payloads[1..], encoded, f);
      assert [] + AcceptAll(i1, outbox, payloads[1..]).2 == AcceptAll(i1, outbox, payloads[1..]).2;
    }
  }

  lemma {:induction false} PushAllLength(t: Transport.Reassembly, segments: seq<seq<byte>>)
    ensures |Transport.PushAll(t, segments).1| == |segments|
    decreases |segments|
  {
    hide Transport.Push;
    if segments != [] {
      PushAllLength(Transport.Push(t, segments[0]).0, segments[1..]);
    }
  }

  /** An idle application reassembler returns a FIR+FIN fragment at once. */
  lemma IdlePushes(f: Fragment, limit: int)
    requires f.fir && f.fin && !f.con && f.sequence <= AppFragment.SEQ_MASK && |f.objects| <= limit && limit >= 1
    ensures AppFragment.Push(AppFragment.NewReassembly(limit), f)
         == (AppFragment.NewReassembly(limit), Ok(Some(f)))
  {
    hide AppFragment.Or, AppFragment.NextSeq;
    AppFragment.OrZero(f.iin);
    assert [] + f.objects == f.objects;
  }

  /** Fragments that a session sends whole, and that the wire can carry. */
  predicate Whole(f: Fragment) {
    f.fir && f.fin && AppFragment.Encodable(f)
  }

  /** The receiving side has the given limit everywhere, and no application fragment is under way. */
  predicate Listening(i: Input) {
    i.transport.maximumFragment == i.maximum && i.application == AppFragment.NewReassembly(i.maximum)
  }

  predicate Fits(f: Fragment, maximum: int) {
    AppFragment.HeaderLength(f.function_) + |f.objects| <= maximum
  }

  /**
   * Encode, segment, reassemble, decode: the fragment comes out, whatever transport state it meets, if its
   * confirmation is written or none is due.
   */
  lemma FragmentCrosses(i: Input, outbox: seq<bool>, f: Fragment, next: byte, maximum: int)
    requires Whole(f) && Listening(i) && Fits(f, i.maximum) && Outgoing(f, next, maximum).Ok?
    ensures AcceptAll(i, outbox, Outgoing(f, next, maximum).value.0)
         == (i.(transport := Transport.NewReassembly(i.maximum)), AfterConfirming(f, outbox),
             if GoesOn(f, outbox) then [f.(con := false)] else [])
  {
    hide AppFragment.EncodeStrictFragment, AppFragment.DecodeStrictFragment, Transport.SegmentStrict, AcceptAll;
    hide AppFragment.Push, AppFragment.IsResponse, Transport.PushAll, Transport.CompletesOnlyAtEnd;
    hide GoesOn, AfterConfirming;
    var encoded := AppFragment.EncodeStrictFragment(f, maximum).value;
    AppFragment.DecodeEncoded(f, maximum, i.maximum);
    Transport.SegmentThenPush(i.transport, encoded, next, Frame.MAX_DATA_SIZE);
    AcceptCompleting(i, outbox, Outgoing(f, next, maximum).value.0, encoded, f);
    IdlePushes(f.(con := false), i.maximum);
  }

  // ---------------------------------------------------------------- a list of fragments

  /** The payloads of a list of fragments, with the transport number running on. */
  function OutgoingAll(fragments: seq<Fragment>, next: byte, maximum: int): Result<(seq<Payload>, byte), SessionError>
    decreases |fragments|
  {
    if fragments == [] then Ok(([], next))
    else
      var first := Outgoing(fragments[0], next, maximum);
      if first.Err? then Err(first.error)
      else
        var rest := OutgoingAll(fragments[1..], first.value.1, maximum);
        if rest.Err? then rest else Ok((first.value.0 + rest.value.0, rest.value.1))
  }

  function Cleared(fragments: seq<Fragment>): (r: seq<Fragment>)
    ensures |r| == |fragments|
  {
    seq(|fragments|, k requires 0 <= k < |fragments| => fragments[k].(con := false))
  }

  /** The fragments whose confirmation, where one is asked for, is written. */
  function Confirmed(fragments: seq<Fragment>, outbox: seq<bool>): (r: seq<Fragment>)
    ensures |r| <= |fragments|
    decreases |fragments|
  {
    if fragments == [] then []
    else
      (if GoesOn(fragments[0], outbox) then [fragments[0]] else [])
      + Confirmed(fragments[1..], AfterConfirming(fragments[0], outbox))
  }

  /** The number of fragments that ask for a confirmation. */
  function Asking(fragments: seq<Fragment>): nat {
    if fragments == [] then 0 else (if fragments[0].con then 1 else 0) + Asking(fragments[1..])
  }

  /** As many writes as there are confirmations to send work, from the first on. */
  predicate ConfirmationsWritten(fragments: seq<Fragment>, outbox: seq<bool>) {
    Asking(fragments) <= |outbox| && forall k :: 0 <= k < Asking(fragments) ==> outbox[k]
  }

  /** All fragments are confirmed if and only if all those writes work. */
  lemma {:induction false} ConfirmedIff(fragments: seq<Fragment>, outbox: seq<bool>)
    ensures ConfirmationsWritten(fragments, outbox) <==> |Confirmed(fragments, outbox)| == |fragments|
    ensures ConfirmationsWritten(fragments, outbox) <==> Confirmed(fragments, outbox) == fragments
    decreases |fragments|
  {
    if fragments != [] {
      var f, o1 := fragments[0], AfterConfirming(fragments[0], outbox);
      ConfirmedIff(fragments[1..], o1);
      assert fragments == [f] + fragments[1..];
      if f.con && outbox != [] {
        assert forall k :: 0 <= k < |o1| ==> o1[k] == outbox[k + 1];
        assert outbox[0] && ConfirmationsWritten(fragments[1..], o1) ==>
          forall k :: 0 <= k < Asking(fragments) ==> outbox[k] by {
          if outbox[0] && ConfirmationsWritten(fragments[1..], o1) {
            forall k | 0 <= k < Asking(fragments)
              ensures outbox[k]
            {
              assert k > 0 ==> o1[k - 1];
            }
          }
        }
      }
    }
  }

  predicate Crossable(fragments: seq<Fragment>, limit: int) {
    forall k :: 0 <= k < |fragments| ==> Whole(fragments[k]) && Fits(fragments[k], limit)
  }

  /** All payloads of a list yield the fragments whose confirmation is written, in order, with CON cleared. */
  lemma {:induction false} FragmentsCross(i: Input, outbox: seq<bool>, fragments: seq<Fragment>, next: byte,
                                          maximum: int)
    requires Listening(i) && Crossable(fragments, i.maximum) && OutgoingAll(fragments, next, maximum).Ok?
    ensures AcceptAll(i, outbox, OutgoingAll(fragments, next, maximum).value.0).2 == Cleared(Confirmed(fragments, outbox))
    decreases |fragments|
  {
    hide Whole, Fits, Outgoing, Accept, GoesOn, AfterConfirming;
    if fragments != [] {
      var f, rest := fragments[0], fragments[1..];
      var (payloads, after) := Outgoing(f, next, maximum).value;
      var i1, o1 := i.(transport := Transport.NewReassembly(i.maximum)), AfterConfirming(f, outbox);
      FragmentCrosses(i, outbox, f, next, maximum);
      FragmentsCross(i1, o1, rest, after, maximum);
      AcceptAppend(i, outbox, payloads, OutgoingAll(rest, after, maximum).value.0);
      ClearedAppend(if GoesOn(f, outbox) then [f] else [], Confirmed(rest, o1));
    }
  }

  lemma ClearedAppend(a: seq<Fragment>, b: seq<Fragment>)
    ensures Cleared(a + b) == Cleared(a) + Cleared(b)
  {
  }

  /** Part of the payloads yields part of those fragments, in order. */
  lemma PrefixCrosses(i: Input, outbox: seq<bool>, fragments: seq<Fragment>, next: byte, maximum: int,
                      payloads: seq<Payload>)
    requires Listening(i) && Crossable(fragments, i.maximum) && OutgoingAll(fragments, next, maximum).Ok?
    requires payloads <= OutgoingAll(fragments, next, maximum).value.0
    ensures AcceptAll(i, outbox, payloads).2 <= Cleared(Confirmed(fragments, outbox))
  {
    hide Listening, Crossable, Accept, AcceptAll, OutgoingAll, Cleared, Confirmed;
    var all := OutgoingAll(fragments, next, maximum).value.0;
    FragmentsCross(i, outbox, fragments, next, maximum);
    AcceptAppend(i, outbox, payloads, all[|payloads|..]);
    assert all == payloads + all[|payloads|..];
  }
}
