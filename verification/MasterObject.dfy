/** The master transport object and its map of outstation objects, proved against MasterTransport. */
module MasterObject {
  import opened Bytes
  import opened OlderTransport
  import OlderObject
  import opened MasterTransport

  /** The stations while those in left are still to be reset. */
  ghost function ResetBut(m: Stations, left: set<Address>): Stations {
    map a | a in m :: if a in left then m[a] else NEW_LAYER
  }

  lemma ResetNext(m: Stations, left: set<Address>, a: Address)
    requires a in left && left <= m.Keys
    ensures ResetBut(m, left)[a := NEW_LAYER] == ResetBut(m, left - {a})
  {
  }

  lemma ResetFrame(m: Stations)
    ensures ResetBut(m, m.Keys) == m && ResetBut(m, {}) == Apply(m, ResetAll).0
  {
    assert forall a :: a in m ==> MasterTransport.Reset(m[a]) == NEW_LAYER;
  }

  /** Each known address has its own layer object with its own reassembler. */
  class Master {
    var outstations: map<Address, OlderObject.LayerObject>

    constructor ()
      ensures Valid() && Value() == map[]
    {
      outstations := map[];
    }

    ghost predicate Valid()
      reads this, Parts()
    {
      forall a, b :: a in outstations && b in outstations && a != b ==>
        outstations[a] != outstations[b] && outstations[a].rxReassembler != outstations[b].rxReassembler
    }

    ghost function Parts(): set<object>
      reads this
    {
      (set a | a in outstations :: outstations[a] as object)
      + (set a | a in outstations :: outstations[a].rxReassembler as object)
    }

    ghost function Value(): Stations
      reads this, Parts()
    {
      map a | a in outstations :: outstations[a].Value()
    }

    method GetOrCreate(a: Address) returns (station: OlderObject.LayerObject)
      requires Valid()
      modifies this
      ensures Valid() && a in outstations && outstations[a] == station
      ensures outstations == old(outstations)[a := station]
      ensures a in old(outstations) ==> outstations == old(outstations)
      ensures a !in old(outstations) ==> fresh(station) && fresh(station.rxReassembler) && station.Value() == NEW_LAYER
      ensures Value() == old(Value())[a := StationAt(old(Value()), a)]
    {
      if a in outstations {
        station := outstations[a];
      } else {
        station := new OlderObject.LayerObject();
        outstations := outstations[a := station];
      }
    }

    /** When one station's object changes, one entry of the value changes. */
    twostate lemma OneChanged(a: Address)
      requires old(Valid()) && outstations == old(outstations) && a in outstations
      requires forall b :: b in outstations && b != a ==> outstations[b].Value() == old(outstations[b].Value())
      ensures Valid() && Value() == old(Value())[a := outstations[a].Value()]
    {
    }

    /** An entry that is made and then changed. */
    lemma Overwritten(m: Stations, a: Address, l: Layer, k: Layer)
      ensures m[a := l][a := k] == m[a := k]
    {
    }

    /** Sending through a station that exists. */
    method SendFrom(a: Address, apdu: seq<byte>) returns (frames: seq<seq<byte>>)
      requires Valid() && a in outstations
      modifies Parts()
      ensures Valid() && outstations == old(outstations)
      ensures old(Value())[a] == old(outstations[a].Value())
      ensures var (l, sent) := OlderTransport.Send(old(Value())[a], apdu);
        Value() == old(Value())[a := l] && frames == sent
    {
      hide OlderTransport.Send;
      frames := outstations[a].Send(apdu);
      OneChanged(a);
    }

    method Send(a: Address, apdu: seq<byte>) returns (frames: seq<seq<byte>>)
      requires Valid()
      modifies this, Parts()
      ensures Valid() && fresh(Parts() - old(Parts()))
      ensures (Value(), Segments(frames)) == Apply(old(Value()), Transmit(a, apdu))
    {
      hide OlderTransport.Send, StationAt;
      if apdu == [] {
        return [];
      }
      var station := GetOrCreate(a);
      ghost var before := StationAt(old(Value()), a);
      frames := SendFrom(a, apdu);
      Overwritten(old(Value()), a, before, OlderTransport.Send(before, apdu).0);
    }

    /** Receiving through a station that exists. */
    method ReceiveAt(a: Address, tpdu: seq<byte>) returns (r: ReceiveResult)
      requires Valid() && a in outstations
      modifies Parts()
      ensures Valid() && outstations == old(outstations)
      ensures old(Value())[a] == old(outstations[a].Value())
      ensures var (l, result) := OlderTransport.Receive(old(Value())[a], tpdu);
        Value() == old(Value())[a := l] && r == result
    {
      hide OlderTransport.Receive;
      r := outstations[a].Receive(tpdu);
      OneChanged(a);
    }

    method Receive(a: Address, tpdu: seq<byte>) returns (r: ReceiveResult)
      requires Valid()
      modifies this, Parts()
      ensures Valid() && fresh(Parts() - old(Parts()))
      ensures (Value(), Taken(r)) == Apply(old(Value()), Take(a, tpdu))
    {
      hide OlderTransport.Receive, StationAt;
      if tpdu == [] {
        return Err(MissingFir);
      }
      var station := GetOrCreate(a);
      ghost var before := StationAt(old(Value()), a);
      r := ReceiveAt(a, tpdu);
      Overwritten(old(Value()), a, before, OlderTransport.Receive(before, tpdu).0);
    }

    /** What the timer's callback does. */
    method TimerExpired(a: Address)
      requires Valid()
      modifies Parts()
      ensures Valid() && outstations == old(outstations)
      ensures Value() == Apply(old(Value()), Expiry(a)).0
    {
      if a in outstations && outstations[a].rxReassembler.inProgress {
        outstations[a].rxReassembler.Reset();
      }
    }

    method ResetStation(a: Address)
      requires Valid() && a in outstations
      modifies Parts()
      ensures Valid() && outstations == old(outstations)
      ensures Value() == old(Value())[a := NEW_LAYER]
    {
      outstations[a].Reset();
      OneChanged(a);
    }

    method Reset(a: Address)
      requires Valid()
      modifies Parts()
      ensures Valid() && outstations == old(outstations)
      ensures Value() == Apply(old(Value()), ResetOne(a)).0
    {
      if a in outstations {
        ResetStation(a);
      }
    }

    method ResetEach()
      requires Valid()
      modifies Parts()
      ensures Valid() && outstations == old(outstations)
      ensures Value() == Apply(old(Value()), ResetAll).0
    {
      hide ResetBut, Apply;
      ghost var before := Value();
      ResetFrame(before);
      var left := outstations.Keys;
      while left != {}
        invariant outstations == old(outstations) && Valid()
        invariant left <= before.Keys == outstations.Keys
        invariant Value() == ResetBut(before, left)
        decreases |left|
      {
        var a :| a in left;
        ResetStation(a);
        ResetNext(before, left, a);
        left := left - {a};
      }
    }

    method RemoveOutstation(a: Address)
      requires Valid()
      modifies this
      ensures Valid() && Parts() <= old(Parts())
      ensures Value() == Apply(old(Value()), Remove(a)).0
    {
      outstations := outstations - {a};
    }

    method IsReassembling(a: Address) returns (r: bool)
      requires Valid()
      ensures Apply(Value(), Ask(a)) == (Value(), Answer(r))
    {
      r := a in outstations && outstations[a].rxReassembler.inProgress;
    }
  }
}
