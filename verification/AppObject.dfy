/** The application reassembler object, proved against AppFragment. */
module AppObject {
  import opened Bytes
  import opened AppFragment

  class StrictReassembler {
    const maximumObjects: int
    var active: bool
    var firstSequence: byte
    var nextSequence: byte
    var function_: byte
    var unsolicited: bool
    var confirm: bool
    var iin: u16
    var objects: seq<byte>

    constructor (maximumObjects: int)
      ensures Value() == NewReassembly(maximumObjects)
    {
      this.maximumObjects := maximumObjects;
      active, firstSequence, nextSequence, function_ := false, 0, 0, 0;
      unsolicited, confirm, iin, objects := false, false, 0, [];
    }

    ghost function Value(): Reassembly
      reads this
    {
      Reassembly(maximumObjects, active, firstSequence, nextSequence, function_, unsolicited, confirm, iin, objects)
    }

    method Reset()
      modifies this
      ensures Value() == NewReassembly(maximumObjects)
    {
      active := false;
      firstSequence := 0;
      nextSequence := 0;
      function_ := 0;
      unsolicited := false;
      confirm := false;
      iin := 0;
      objects := [];
    }

    method Push(fragment: Fragment) returns (r: PushResult)
      modifies this
      ensures (Value(), r) == AppFragment.Push(old(Value()), fragment)
    {
      hide Or, NextSeq, Extend;
      if maximumObjects < 1 {
        return Err(BadMaximum);
      }
      if fragment.sequence > SEQ_MASK {
        Reset();
        return Err(BadSequence);
      }
      if fragment.fir {
        if active {
          Reset();
          return Err(RepeatedFir);
        }
        active := true;
        firstSequence := fragment.sequence;
        nextSequence := fragment.sequence;
        function_ := fragment.function_;
        unsolicited := fragment.uns;
      } else if !active {
        return Err(NotStarted);
      }
      assert AppFragment.Push(old(Value()), fragment) == Extend(Value(), fragment);
      r := ExtendRun(fragment);
    }

    /** The rest of Push: the fragment joins the run that is under way. */
    method ExtendRun(fragment: Fragment) returns (r: PushResult)
      modifies this
      ensures (Value(), r) == Extend(old(Value()), fragment)
    {
      hide Or, NextSeq;
      if fragment.sequence != nextSequence {
        Reset();
        return Err(OutOfSequence);
      }
      if fragment.function_ != function_ {
        Reset();
        return Err(FunctionChanged);
      }
      if fragment.uns != unsolicited {
        Reset();
        return Err(UnsolicitedChanged);
      }
      if |fragment.objects| > maximumObjects - |objects| {
        Reset();
        return Err(LimitExceeded);
      }
      objects := objects + fragment.objects;
      confirm := confirm || fragment.con;
      iin := Or(iin, fragment.iin);
      nextSequence := NextSeq(fragment.sequence);
      if !fragment.fin {
        return Ok(None);
      }
      var result := Fragment(true, true, confirm, unsolicited, firstSequence, function_, iin, objects);
      Reset();
      r := Ok(Some(result));
    }
  }
}
