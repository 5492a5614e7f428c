/** The master's transport layer: one state per outstation address, and why they do not interfere. */
module MasterTransport {
  import opened Bytes
  import opened OlderTransport

  /** Sixteen-bit addresses, which are only ever compared. */
  type Address = a: nat | a < 0x10000

  /** The state kept for each known outstation: its transmit number and its reassembly. */
  type Stations = map<Address, Layer>

  /** Expiry is the firing of a reassembly timer; it may come at any moment. */
  datatype Op = Transmit(to: Address, apdu: seq<byte>) | Take(from: Address, tpdu: seq<byte>) | Expiry(at: Address)
              | ResetOne(at: Address) | ResetAll | Remove(at: Address) | Ask(at: Address)

  /** What the caller of an operation sees. */
  datatype Seen = Segments(frames: seq<seq<byte>>) | Taken(result: ReceiveResult) | Answer(inProgress: bool) | Nothing

  /** A station that is not known yet will be created new. */
  function StationAt(m: Stations, a: Address): Layer {
    if a in m then m[a] else NEW_LAYER
  }

  function Reset(l: Layer): Layer {
    l.(rx := IDLE, txSequence := 0)
  }

  /** An expired timer discards a reassembly that is under way. */
  function Expire(l: Layer): Layer {
    if l.rx.inProgress then l.(rx := IDLE) else l
  }

  /**
   * A reset station is as a new one: idle, and numbering from zero. An expiry discards what is under way, and keeps the
   * number to send with.
   */
  lemma ResetAndExpiry(l: Layer)
    ensures Reset(l) == NEW_LAYER == Layer(Reassembly([], 0, false), 0)
    ensures Expire(l) == if l.rx.inProgress then Layer(Reassembly([], 0, false), l.txSequence) else l
  {
  }

  function Apply(m: Stations, op: Op): (Stations, Seen) {
    match op
    case Transmit(a, apdu) =>
      if apdu == [] then (m, Segments([]))
      else
        var (l, frames) := Send(StationAt(m, a), apdu);
        (m[a := l], Segments(frames))
    case Take(a, tpdu) =>
      if tpdu == [] then (m, Taken(Err(MissingFir)))
      else
        var (l, result) := Receive(StationAt(m, a), tpdu);
        (m[a := l], Taken(result))
    case Expiry(a) => (if a in m then m[a := Expire(m[a])] else m, Nothing)
    case ResetOne(a) => (if a in m then m[a := Reset(m[a])] else m, Nothing)
    case ResetAll => (map a | a in m :: Reset(m[a]), Nothing)
    case Remove(a) => (m - {a}, Nothing)
    case Ask(a) => (m, Answer(a in m && m[a].rx.inProgress))
  }

  predicate Concerns(op: Op, a: Address) {
    match op
    case Transmit(b, _) => a == b
    case Take(b, _) => a == b
    case Expiry(b) => a == b
    case ResetOne(b) => a == b
    case ResetAll => true
    case Remove(b) => a == b
    case Ask(b) => a == b
  }

  /** What the operations that concern one address do to a transport layer of its own. */
  function ApplyAlone(l: Layer, op: Op): (Layer, Seen) {
    match op
    case Transmit(_, apdu) =>
      var (l1, frames) := Send(l, apdu);
      (l1, Segments(frames))
    case Take(_, tpdu) =>
      var (l1, result) := Receive(l, tpdu);
      (l1, Taken(result))
    case Expiry(_) => (Expire(l), Nothing)
    case ResetOne(_) => (Reset(l), Nothing)
    case ResetAll => (Reset(l), Nothing)
    case Remove(_) => (NEW_LAYER, Nothing)
    case Ask(_) => (l, Answer(l.rx.inProgress))
  }

  function Run(m: Stations, ops: seq<Op>): (Stations, seq<Seen>)
    decreases |ops|
  {
    if ops == [] then (m, [])
    else
      var (m1, first) := Apply(m, ops[0]);
      var (m2, rest) := Run(m1, ops[1..]);
      (m2, [first] + rest)
  }

  function RunAlone(l: Layer, ops: seq<Op>): (Layer, seq<Seen>)
    decreases |ops|
  {
    if ops == [] then (l, [])
    else
      var (l1, first) := ApplyAlone(l, ops[0]);
      var (l2, rest) := RunAlone(l1, ops[1..]);
      (l2, [first] + rest)
  }

  function RestrictOps(ops: seq<Op>, a: Address): seq<Op> {
    if ops == [] then []
    else (if Concerns(ops[0], a) then [ops[0]] else []) + RestrictOps(ops[1..], a)
  }

  /** What was seen at one address. */
  function SeenAt(ops: seq<Op>, seen: seq<Seen>, a: Address): seq<Seen>
    requires |ops| == |seen|
    decreases |ops|
  {
    if ops == [] then []
    else (if Concerns(ops[0], a) then [seen[0]] else []) + SeenAt(ops[1..], seen[1..], a)
  }

  lemma {:induction false} RunLength(m: Stations, ops: seq<Op>)
    ensures |Run(m, ops).1| == |ops|
    decreases |ops|
  {
    hide Apply;
    if ops != [] {
      RunLength(Apply(m, ops[0]).0, ops[1..]);
    }
  }

  /** One operation: what it does at an address it concerns, and that it does nothing at the others. */
  lemma ApplyAt(m: Stations, op: Op, a: Address)
    ensures var (m', seen) := Apply(m, op);
      if Concerns(op, a) then (StationAt(m', a), seen) == ApplyAlone(StationAt(m, a), op)
      else StationAt(m', a) == StationAt(m, a)
  {
    hide Send, Receive;
    SendNothing(StationAt(m, a));
    ReceiveNothing(StationAt(m, a));
  }

  lemma SendNothing(l: Layer)
    ensures Send(l, []) == (l, [])
  {
  }

  lemma ReceiveNothing(l: Layer)
    ensures Receive(l, []) == (l, Err(MissingFir))
  {
  }

  /**
   * Isolation, for every interleaving of operations at any addresses: what is seen at one address, and the state it
   * is left in, are those of a single transport layer driven by the operations that concern that address alone.
   */
  lemma {:induction false} Isolated(m: Stations, ops: seq<Op>, a: Address)
    ensures var (m', seen) := Run(m, ops);
      |seen| == |ops|
      && (StationAt(m', a), SeenAt(ops, seen, a)) == RunAlone(StationAt(m, a), RestrictOps(ops, a))
    decreases |ops|
  {
    hide Apply, ApplyAlone, StationAt, Concerns;
    RunLength(m, ops);
    if ops != [] {
      var op, rest := ops[0], ops[1..];
      var (m1, first) := Apply(m, op);
      ApplyAt(m, op, a);
      Isolated(m1, rest, a);
      var seen := Run(m1, rest).1;
      assert ([first] + seen)[1..] == seen;
      var others := RestrictOps(rest, a);
      if Concerns(op, a) {
        assert ([op] + others)[1..] == others;
      } else {
        assert [] + others == others;
        assert [] + SeenAt(rest, seen, a) == SeenAt(rest, seen, a);
      }
    }
  }

  /** Runs that agree on the operations and the state of one address agree on everything that is seen there. */
  lemma SameAtAddress(m: Stations, n: Stations, ops: seq<Op>, others: seq<Op>, a: Address)
    requires StationAt(m, a) == StationAt(n, a) && RestrictOps(ops, a) == RestrictOps(others, a)
    ensures |Run(m, ops).1| == |ops| && |Run(n, others).1| == |others|
    ensures SeenAt(ops, Run(m, ops).1, a) == SeenAt(others, Run(n, others).1, a)
    ensures StationAt(Run(m, ops).0, a) == StationAt(Run(n, others).0, a)
  {
    hide *;
    Isolated(m, ops, a);
    Isolated(n, others, a);
  }

  // ---------------------------------------------------------------- delivery through any interleaving

  /** The transport segments received from one address, in order. */
  function ReceivedFrom(ops: seq<Op>, a: Address): seq<seq<byte>> {
    if ops == [] then []
    else (if ops[0].Take? && ops[0].from == a then [ops[0].tpdu] else []) + ReceivedFrom(ops[1..], a)
  }

  /** What the calls that received them returned. */
  function ResultsAt(ops: seq<Op>, seen: seq<Seen>, a: Address): seq<ReceiveResult>
    requires |ops| == |seen|
    decreases |ops|
  {
    if ops == [] then []
    else
      (if ops[0].Take? && ops[0].from == a && seen[0].Taken? then [seen[0].result] else [])
      + ResultsAt(ops[1..], seen[1..], a)
  }

  /** No timer expires at the address, and it is neither reset nor removed. */
  predicate Undisturbed(ops: seq<Op>, a: Address) {
    forall k :: 0 <= k < |ops| && Concerns(ops[k], a) ==> ops[k].Take? || ops[k].Transmit? || ops[k].Ask?
  }

  /** Sending from a layer does not touch what it is receiving. */
  lemma {:induction false} SameReception(l: Layer, k: Layer, received: seq<seq<byte>>)
    requires l.rx == k.rx
    ensures ReceiveAll(l, received).1 == ReceiveAll(k, received).1
    decreases |received|
  {
    hide Process, ParseSegment;
    if received != [] {
      SameReception(Receive(l, received[0]).0, Receive(k, received[0]).0, received[1..]);
    }
  }

  lemma SendKeepsReception(l: Layer, apdu: seq<byte>)
    ensures Send(l, apdu).0.rx == l.rx
  {
    hide SegmentData, AddCount;
  }

  lemma {:induction false} ReceivedAlone(m: Stations, ops: seq<Op>, a: Address)
    requires Undisturbed(ops, a)
    ensures |Run(m, ops).1| == |ops|
    ensures ResultsAt(ops, Run(m, ops).1, a) == ReceiveAll(StationAt(m, a), ReceivedFrom(ops, a)).1
    decreases |ops|
  {
    hide Apply, StationAt, Receive, Send;
    RunLength(m, ops);
    if ops != [] {
      var op, rest := ops[0], ops[1..];
      var (m1, first) := Apply(m, op);
      assert Undisturbed(rest, a) by {
        assert forall k :: 0 <= k < |rest| ==> rest[k] == ops[k + 1];
      }
      ReceivedAlone(m1, rest, a);
      ApplyAt(m, op, a);
      var seen := Run(m1, rest).1;
      assert ([first] + seen)[1..] == seen;
      var later := ReceivedFrom(rest, a);
      if op.Take? && op.from == a {
        assert ([op.tpdu] + later)[1..] == later;
      } else {
        assert [] + later == later && [] + ResultsAt(rest, seen, a) == ResultsAt(rest, seen, a);
        if Concerns(op, a) && op.Transmit? {
          SendKeepsReception(StationAt(m, a), op.apdu);
        }
        SameReception(StationAt(m1, a), StationAt(m, a), later);
      }
    }
  }

  /**
   * An outstation sends any list of application fragments while the master, in any order, serves other addresses, and
   * sends to and asks about this one: the master reports at that address the fragments of 1 to 2048 octets, in order,
   * and one overflow error for each longer one.
   */
  lemma {:induction false} DeliveredDespiteOthers(m: Stations, ops: seq<Op>, a: Address, outstation: Layer,
                                                  apdus: seq<seq<byte>>)
    requires Undisturbed(ops, a) && ReceivedFrom(ops, a) == SendAll(outstation, apdus).1
    ensures |Run(m, ops).1| == |ops| && Reports(ResultsAt(ops, Run(m, ops).1, a)) == Fates(apdus)
  {
    hide *;
    ReceivedAlone(m, ops, a);
    ListReceived(outstation, StationAt(m, a), apdus);
  }
}
