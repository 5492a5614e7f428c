/** The link frame object: fields derived from the control octet, and serialisation through buffers. */
module FrameFields {
  import opened Bytes
  import opened Crc
  import opened CrcBlocks
  import opened Frame

  /** What buildControl makes of the fields. */
  function BuiltControl(functionCode: byte, dir: bool, isPrimary: bool, fcb: bool, fcv: bool): byte {
    (functionCode & CTRL_FUNC_MASK)
    | (if dir then CTRL_DIR else 0)
    | (if isPrimary then CTRL_PRM | (if fcv then CTRL_FCV | (if fcb then CTRL_FCB else 0) else 0) else 0)
  }

  /** The control octet rebuilt from the fields that parseControl reads into a fresh frame. */
  function Rebuilt(control: byte): byte {
    var primary := Flag(control, CTRL_PRM);
    BuiltControl(Func(control), Flag(control, CTRL_DIR), primary,
                 primary && Flag(control, CTRL_FCB), primary && Flag(control, CTRL_FCV))
  }

  /**
   * Parsing and rebuilding keeps the control octet exactly when no bit sits where the fields cannot hold it:
   * a frame count bit without its valid bit, or either of these bits in a secondary frame.
   */
  lemma RebuiltKeeps(control: byte)
    ensures Rebuilt(control) == control <==>
      if Flag(control, CTRL_PRM) then Flag(control, CTRL_FCB) ==> Flag(control, CTRL_FCV)
      else !Flag(control, CTRL_FCB) && !Flag(control, CTRL_FCV)
  {
    var low, dir := control & CTRL_FUNC_MASK, control & CTRL_DIR;
    assert (control & CTRL_FUNC_MASK) & CTRL_FUNC_MASK == low;
    assert Flag(control, CTRL_DIR) ==> dir == CTRL_DIR;
    assert !Flag(control, CTRL_DIR) ==> dir == 0;
    if Flag(control, CTRL_PRM) {
      PrimaryBits(control);
    } else {
      SecondaryBits(control);
    }
  }

  lemma PrimaryBits(control: byte)
    requires Flag(control, CTRL_PRM)
    ensures Rebuilt(control) == control <==> (Flag(control, CTRL_FCB) ==> Flag(control, CTRL_FCV))
  {
    if Flag(control, CTRL_FCV) {
      assert Rebuilt(control) == control;
    } else {
      assert !Flag(Rebuilt(control), CTRL_FCB);
      assert !Flag(control, CTRL_FCB) ==> Rebuilt(control) == control;
    }
  }

  lemma SecondaryBits(control: byte)
    requires !Flag(control, CTRL_PRM)
    ensures Rebuilt(control) == control <==> (!Flag(control, CTRL_FCB) && !Flag(control, CTRL_FCV))
  {
    assert !Flag(Rebuilt(control), CTRL_FCB) && !Flag(Rebuilt(control), CTRL_FCV);
    if !Flag(control, CTRL_FCB) && !Flag(control, CTRL_FCV) {
      assert Rebuilt(control) == control;
    }
  }

  class LinkFrame {
    var control: byte
    var destination: u16
    var source: u16
    var dir: bool
    var isPrimary: bool
    var fcb: bool
    var fcv: bool
    var functionCode: byte
    var userData: seq<byte>

    /** NewFrame. */
    constructor (dir: bool, isPrimary: bool, functionCode: byte, destination: u16, source: u16, userData: seq<byte>)
      ensures control == BuiltControl(functionCode, dir, isPrimary, false, false)
      ensures this.destination == destination && this.source == source && this.userData == userData
      ensures this.dir == dir && this.isPrimary == isPrimary && this.functionCode == functionCode && !fcb && !fcv
    {
      this.dir, this.isPrimary, this.functionCode := dir, isPrimary, functionCode;
      this.destination, this.source, this.userData := destination, source, userData;
      this.fcb, this.fcv := false, false;
      this.control := 0;
      new;
      BuildControl();
    }

    ghost function Value(): StrictFrame
      reads this
    {
      StrictFrame(control, destination, source, userData)
    }

    method BuildControl()
      modifies this`control
      ensures control == BuiltControl(functionCode, dir, isPrimary, fcb, fcv)
    {
      control := functionCode & CTRL_FUNC_MASK;
      if dir {
        control := control | CTRL_DIR;
      }
      if isPrimary {
        control := control | CTRL_PRM;
        if fcv {
          control := control | CTRL_FCV;
          if fcb {
            control := control | CTRL_FCB;
          }
        }
      }
    }

    method ParseControl()
      modifies this`functionCode, this`dir, this`isPrimary, this`fcv, this`fcb
      ensures functionCode == Func(control) && dir == Flag(control, CTRL_DIR) && isPrimary == Flag(control, CTRL_PRM)
      ensures isPrimary ==> fcv == Flag(control, CTRL_FCV) && fcb == Flag(control, CTRL_FCB)
      ensures !isPrimary ==> fcv == old(fcv) && fcb == old(fcb)
    {
      functionCode := control & CTRL_FUNC_MASK;
      dir := control & CTRL_DIR != 0;
      isPrimary := control & CTRL_PRM != 0;
      if isPrimary {
        fcv := control & CTRL_FCV != 0;
        fcb := control & CTRL_FCB != 0;
      }
    }

    method SetFCB(bit: bool)
      modifies this`fcb, this`fcv, this`control
      ensures fcb == bit && fcv && control == BuiltControl(functionCode, dir, isPrimary, bit, true)
    {
      fcb := bit;
      fcv := true;
      BuildControl();
    }

    /** Fills the header buffer octet by octet and appends the CRC blocks. */
    method Serialize(crc: CrcTable) returns (r: Result<seq<byte>, FrameError>)
      requires crc.Valid()
      ensures r == Frame.Serialize(Value())
    {
      hide CalculateCrc, AddCrcs, Lo, Hi, ByteOf;
      var dataLen := |userData|;
      if dataLen > MAX_DATA_SIZE {
        return Err(FrameTooLong);
      }
      var header := new byte[8];
      header[0] := START1;
      header[1] := START2;
      header[2] := ByteOf(dataLen + 5);
      header[3] := control;
      header[4] := Lo(destination);
      header[5] := Hi(destination);
      header[6] := Lo(source);
      header[7] := Hi(source);
      assert header[..] == Header(Value());
      var headerCrc := crc.Calculate(header[..]);
      var result := header[..] + [Lo(headerCrc), Hi(headerCrc)];
      if dataLen == 0 {
        assert AddCrcs(userData) == [] by {
          AddCrcsEmpty();
        }
        assert result + [] == result;
        return Ok(result);
      }
      var dataWithCrcs := crc.Add(userData);
      r := Ok(result + dataWithCrcs);
    }
  }
}
