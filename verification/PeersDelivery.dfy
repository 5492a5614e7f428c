/** Lists of fragments over every run of the two-peer system, in either direction. */
module PeersDelivery {
  import opened Bytes
  import LinkState
  import opened LinkPeers
  import Transport
  import opened Session
  import opened EndToEnd
  import opened Conservation

  type Payload = seq<byte>

  /** The payloads that x has sent, and the one it is sending, are among the given ones, from the first on. */
  predicate SendsInOrder(x: Peer, payloads: seq<Payload>) {
    (if x.st.pending.Some? && x.st.pendingFn == LinkState.FN_CONFIRMED then x.acked + [x.st.pending.value.userData]
     else x.acked) <= payloads
  }

  /** The octets of what was absorbed are those of what was returned and what was missed. */
  predicate Sums(x: Peer) {
    && Contents(x.returned) + Contents(x.missed) == Contents(x.absorbed)
    && forall p :: p in x.missed ==> p in x.absorbed
  }

  lemma GrowthSums(x: Peer, x': Peer, missing: bool)
    requires Grows(x, x', missing) && Sums(x)
    ensures Sums(x')
  {
    hide Contents;
    if x'.absorbed != x.absorbed {
      var d := x'.absorbed[|x'.absorbed| - 1];
      ContentsAppend(x.absorbed, [d]);
      ContentsAppend(x.returned, [d]);
      ContentsAppend(x.missed, [d]);
    }
  }

  lemma {:induction false} RunSums(c: System, moves: seq<Move>, side: Side)
    requires Sums(Mine(c, side))
    ensures Sums(Mine(Run(c, moves), side))
    decreases |moves|
  {
    hide Step, Misses, Mine, Sums, Grows;
    if moves != [] {
      StepGrows(c, moves[0], side);
      GrowthSums(Mine(c, side), Mine(Step(c, moves[0]), side), Misses(c, moves[0], side));
      RunSums(Step(c, moves[0]), moves[1..], side);
    }
  }

  /** What both directions of ExactlyOnceDelivery say of one of them. */
  lemma OneDirection(c: System, moves: seq<Move>, side: Side)
    requires Initial(c)
    ensures var x := Mine(Run(c, moves), side);
      ExactlyOnce(x) && Sums(x) && Accounts(x) && (AnswersWritten(c, moves, side) <==> x.missed == [])
  {
    hide Run, AnswersWritten, ArrivesCleanly;
    ExactlyOnceDelivery(c, moves);
    assert Accounts(Mine(c, side));
    RunAccounts(c, moves, side);
    RunSums(c, moves, side);
  }

  /** A payload that was missed shows in what a receiving side that held nothing returns of a whole list. */
  lemma {:induction false} MissShows(x: Peer, i: Input, outbox: seq<bool>, fragments: seq<Fragment>, next: byte,
                                     maximum: int)
    requires Sums(x) && x.missed != [] && Held(i) == 0 && OutgoingAll(fragments, next, maximum).Ok?
    requires x.absorbed == OutgoingAll(fragments, next, maximum).value.0
    ensures AcceptAll(i, outbox, x.returned).2 != Cleared(fragments)
  {
    hide AcceptAll, OutgoingAll, Contents, Cleared, Held;
    OutgoingAllLong(fragments, next, maximum);
    PositiveContents(x.missed);
    OutgoingAllContents(fragments, next, maximum);
    AcceptAllConserves(i, outbox, x.returned);
    SizesCleared(fragments);
  }

  /**
   * End to end, in every reachable state of the two-peer system and in either direction, whatever frames were lost,
   * retransmitted or reset, and whichever answers and confirmations could not be written: one side sends the payloads
   * of a list of fragments, and returned is what the other side's receiving calls have returned of them.
   *
   * While every answer to new data was written, that is a prefix of the fragments whose confirmation was written, with
   * CON cleared, and all of them once every payload is acknowledged. Once every payload is acknowledged, and if the
   * receiving side held nothing before, it is the whole list if and only if every answer to new data and every
   * confirmation that the list asks for was written.
   */
  lemma {:induction false} FragmentsDelivered(c: System, moves: seq<Move>, side: Side, i: Input, outbox: seq<bool>,
                                              fragments: seq<Fragment>, next: byte, maximum: int)
    requires Initial(c)
    requires Listening(i) && Crossable(fragments, i.maximum) && OutgoingAll(fragments, next, maximum).Ok?
    requires SendsInOrder(Mine(Run(c, moves), side), OutgoingAll(fragments, next, maximum).value.0)
    ensures var x, all := Mine(Run(c, moves), side), OutgoingAll(fragments, next, maximum).value.0;
      var returned, answered := AcceptAll(i, outbox, x.returned).2, AnswersWritten(c, moves, side);
      && (answered ==> returned <= Cleared(Confirmed(fragments, outbox)))
      && (answered && x.acked == all ==> returned == Cleared(Confirmed(fragments, outbox)))
      && (x.acked == all && i.transport == Transport.NewReassembly(i.maximum) ==>
            (returned == Cleared(fragments) <==> answered && ConfirmationsWritten(fragments, outbox)))
  {
    hide Listening, Crossable, AcceptAll, OutgoingAll, Cleared, Confirmed, Run, Initial, Mine, Sums;
    hide AnswersWritten, ConfirmationsWritten;
    var x, all := Mine(Run(c, moves), side), OutgoingAll(fragments, next, maximum).value.0;
    OneDirection(c, moves, side);
    PrefixCrosses(i, outbox, fragments, next, maximum, x.absorbed);
    ConfirmedIff(fragments, outbox);
    if x.acked == all {
      assert x.absorbed == all;
      FragmentsCross(i, outbox, fragments, next, maximum);
      if x.missed != [] && i.transport == Transport.NewReassembly(i.maximum) {
        IdleHoldsNothing(i);
        MissShows(x, i, outbox, fragments, next, maximum);
      }
    }
  }
}
