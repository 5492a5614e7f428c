/** CRC blocks of the link data field: sixteen octets and their CRC at a time, and the stored table. */
module CrcBlocks {
  import opened Bytes
  import opened Crc

  datatype CrcError = InvalidCrc

  // ---------------------------------------------------------------- specification

  /** AppendCRC. */
  function WithCrc(block: seq<byte>): seq<byte> {
    block + [Lo(CalculateCrc(block)), Hi(CalculateCrc(block))]
  }

  lemma WithCrcValid(block: seq<byte>)
    ensures CrcValid(WithCrc(block))
  {
    hide CalculateCrc, Lo, Hi, Join;
    JoinSplit(CalculateCrc(block));
    assert WithCrc(block)[..|block|] == block;
  }

  lemma CrcValidSplits(data: seq<byte>)
    requires CrcValid(data)
    ensures |data| >= 2 && data == WithCrc(data[..|data| - 2])
  {
    hide CalculateCrc, Lo, Hi, Join;
    SplitJoin(data[|data| - 2], data[|data| - 1]);
  }

  function AddCrcs(data: seq<byte>): seq<byte>
    decreases |data|
  {
    if data == [] then []
    else if |data| <= BLOCK_SIZE then WithCrc(data)
    else WithCrc(data[..BLOCK_SIZE]) + AddCrcs(data[BLOCK_SIZE..])
  }

  function RemoveCrcs(wire: seq<byte>): Result<seq<byte>, CrcError>
    decreases |wire|
  {
    if wire == [] then Ok([])
    else
      var blockSize := if BLOCK_SIZE + 2 > |wire| then |wire| - 2 else BLOCK_SIZE;
      if blockSize <= 0 then Err(InvalidCrc)
      else if !CrcValid(wire[..blockSize + 2]) then Err(InvalidCrc)
      else Prefixed(wire[..blockSize], RemoveCrcs(wire[blockSize + 2..]))
  }

  /** The number of blocks that n octets of user data take. */
  function BlockCount(n: nat): nat {
    (n + (BLOCK_SIZE - 1)) / BLOCK_SIZE
  }

  lemma {:induction false} AddCrcsLength(data: seq<byte>)
    ensures |AddCrcs(data)| == |data| + 2 * BlockCount(|data|)
    decreases |data|
  {
    hide CalculateCrc, Lo, Hi;
    if |data| > BLOCK_SIZE {
      AddCrcsLength(data[BLOCK_SIZE..]);
    }
  }

  /** Every data octet moves up by two places for each full block before it. */
  lemma {:induction false} DataAt(data: seq<byte>, i: nat)
    requires i < |data|
    ensures i + 2 * (i / BLOCK_SIZE) < |AddCrcs(data)| && AddCrcs(data)[i + 2 * (i / BLOCK_SIZE)] == data[i]
    decreases |data|
  {
    hide CalculateCrc, Lo, Hi;
    AddCrcsLength(data);
    if |data| > BLOCK_SIZE && i >= BLOCK_SIZE {
      var rest := data[BLOCK_SIZE..];
      DataAt(rest, i - BLOCK_SIZE);
      assert (i - BLOCK_SIZE) / BLOCK_SIZE == i / BLOCK_SIZE - 1;
      assert |WithCrc(data[..BLOCK_SIZE])| == BLOCK_SIZE + 2;
    }
  }

  /** Removing takes off a full block that is followed by more, or a last block. */
  lemma RemoveFirst(block: seq<byte>, rest: seq<byte>)
    requires |block| == BLOCK_SIZE || (0 < |block| < BLOCK_SIZE && rest == [])
    ensures RemoveCrcs(WithCrc(block) + rest) == Prefixed(block, RemoveCrcs(rest))
  {
    hide CalculateCrc, Lo, Hi, CrcValid;
    WithCrcValid(block);
    var wire := WithCrc(block) + rest;
    assert wire[..|block| + 2] == WithCrc(block) && wire[|block| + 2..] == rest;
    assert wire[..|block|] == block;
  }

  /** Removing what AddCRCs inserted gives the data back. */
  lemma {:induction false} RemoveAdded(data: seq<byte>)
    ensures RemoveCrcs(AddCrcs(data)) == Ok(data)
    decreases |data|
  {
    hide WithCrc, CrcValid;
    if |data| > BLOCK_SIZE {
      var block, rest := data[..BLOCK_SIZE], data[BLOCK_SIZE..];
      RemoveFirst(block, AddCrcs(rest));
      RemoveAdded(rest);
      assert data == block + rest;
    } else if data != [] {
      RemoveFirst(data, []);
      assert WithCrc(data) + [] == WithCrc(data) && data + [] == data;
    }
  }

  /** Accepted block strings are exactly what AddCRCs produces. */
  lemma {:induction false} AddRemoved(wire: seq<byte>)
    requires RemoveCrcs(wire).Ok?
    ensures AddCrcs(RemoveCrcs(wire).value) == wire
    decreases |wire|
  {
    hide CalculateCrc, Lo, Hi, CrcValid;
    if wire != [] {
      var blockSize := if BLOCK_SIZE + 2 > |wire| then |wire| - 2 else BLOCK_SIZE;
      var block, tail := wire[..blockSize + 2], wire[blockSize + 2..];
      CrcValidSplits(block);
      assert block[..blockSize] == wire[..blockSize];
      AddRemoved(tail);
      var rest := RemoveCrcs(tail).value;
      var data := wire[..blockSize] + rest;
      assert wire == block + tail;
      if tail == [] {
        assert data == wire[..blockSize];
      } else {
        assert rest != [];
        assert data[..BLOCK_SIZE] == wire[..blockSize] && data[BLOCK_SIZE..] == rest;
      }
    }
  }

  // ---------------------------------------------------------------- a bad block is never accepted

  /** The block that starts at octet 18 * i. */
  function BlockAt(wire: seq<byte>, i: nat): seq<byte>
    requires 18 * i < |wire|
  {
    if 18 * i + 18 <= |wire| then wire[18 * i..18 * i + 18] else wire[18 * i..]
  }

  lemma {:induction false} AcceptedBlocks(wire: seq<byte>, i: nat)
    requires 18 * i < |wire| && RemoveCrcs(wire).Ok?
    ensures CrcValid(BlockAt(wire, i))
    decreases |wire|
  {
    hide CrcValid;
    var blockSize := if BLOCK_SIZE + 2 > |wire| then |wire| - 2 else BLOCK_SIZE;
    if i == 0 {
      assert BlockAt(wire, 0) == wire[..blockSize + 2];
    } else {
      assert BlockAt(wire, i) == BlockAt(wire[18..], i - 1);
      AcceptedBlocks(wire[18..], i - 1);
    }
  }

  /** Exactly which strings RemoveCRCs accepts: each block has data in front of its CRC, and each CRC is valid. */
  lemma {:induction false} RemovesIff(wire: seq<byte>)
    ensures RemoveCrcs(wire).Ok? <==>
      forall i: nat :: 18 * i < |wire| ==> |BlockAt(wire, i)| > 2 && CrcValid(BlockAt(wire, i))
    decreases |wire|
  {
    hide CrcValid;
    if |wire| > 18 {
      var rest := wire[18..];
      RemovesIff(rest);
      assert BlockAt(wire, 0) == wire[..18];
      forall i: nat | 18 * i < |rest|
        ensures BlockAt(rest, i) == BlockAt(wire, i + 1)
      {
      }
      if forall i: nat :: 18 * i < |rest| ==> |BlockAt(rest, i)| > 2 && CrcValid(BlockAt(rest, i)) {
        forall i: nat | 18 * i < |wire| && i > 0
          ensures BlockAt(wire, i) == BlockAt(rest, i - 1)
        {
        }
      }
    } else if wire != [] {
      assert BlockAt(wire, 0) == wire;
      assert wire[..|wire|] == wire && wire[|wire|..] == [];
    }
  }

  lemma BlockOfXor(wire: seq<byte>, e: seq<byte>, i: nat)
    requires |wire| == |e| && 18 * i < |wire|
    ensures |BlockAt(wire, i)| == |BlockAt(e, i)|
    ensures BlockAt(XorBytes(wire, e), i) == XorBytes(BlockAt(wire, i), BlockAt(e, i))
  {
  }

  /** An odd number of flipped bits within one block is rejected, whatever happens to the other blocks. */
  lemma {:induction false} OddBlockRejected(wire: seq<byte>, e: seq<byte>, i: nat)
    requires |wire| == |e| && 18 * i < |wire| && RemoveCrcs(wire).Ok? && Odd(Bits(BlockAt(e, i)))
    ensures RemoveCrcs(XorBytes(wire, e)).Err?
  {
    hide CrcValid, RemoveCrcs, Bits, BlockAt, XorBytes, Odd;
    AcceptedBlocks(wire, i);
    BlockOfXor(wire, e, i);
    OddWeightRejected(BlockAt(wire, i), BlockAt(e, i));
    if RemoveCrcs(XorBytes(wire, e)).Ok? {
      XorLength(wire, e);
      AcceptedBlocks(XorBytes(wire, e), i);
      assert false;
    }
  }

  lemma XorLength(a: seq<byte>, b: seq<byte>)
    requires |a| == |b|
    ensures |XorBytes(a, b)| == |a|
  {
  }

  /** A burst keeps its shape when only part of the bit string is looked at. */
  lemma BurstSlice(e: seq<bool>, i: nat, j: nat)
    requires i <= j <= |e| && Burst(e)
    ensures Burst(e[i..j])
  {
    var p: nat :| WithinWindow(e, p);
    var q: nat := if p >= i then p - i else 0;
    assert WithinWindow(e[i..j], q);
  }

  /** A non-zero burst anywhere in the data blocks, even across a block boundary, is rejected. */
  lemma {:induction false} BurstInBlocksRejected(wire: seq<byte>, e: seq<byte>)
    requires |wire| == |e| && RemoveCrcs(wire).Ok? && Burst(Bits(e)) && true in Bits(e)
    ensures RemoveCrcs(XorBytes(wire, e)).Err?
  {
    hide CrcValid, RemoveCrcs, Bits, XorBytes, Burst;
    var k :| 0 <= k < |Bits(e)| && Bits(e)[k];
    BitsLength(e);
    var i := k / 144;
    var from, to := 18 * i, if 18 * i + 18 <= |e| then 18 * i + 18 else |e|;
    assert BlockAt(e, i) == e[from..to];
    BitsSlice(e, from, to);
    BurstSlice(Bits(e), 8 * from, 8 * to);
    assert Bits(e[from..to])[k - 8 * from];
    AcceptedBlocks(wire, i);
    BlockOfXor(wire, e, i);
    BurstRejected(BlockAt(wire, i), BlockAt(e, i));
    if RemoveCrcs(XorBytes(wire, e)).Ok? {
      XorLength(wire, e);
      AcceptedBlocks(XorBytes(wire, e), i);
      assert false;
    }
  }

  lemma BitsLength(e: seq<byte>)
    ensures |Bits(e)| == 8 * |e|
  {
  }

  // ---------------------------------------------------------------- the stored table and its loops

  lemma {:induction false} TableRegSnoc(r: u16, data: seq<byte>, b: byte)
    ensures TableReg(r, data + [b]) == TableStep(TableReg(r, data), b)
    decreases data
  {
    hide TableStep;
    if data == [] {
      assert data + [b] == [b] && [b][1..] == [];
    } else {
      assert (data + [b])[1..] == data[1..] + [b];
      TableRegSnoc(TableStep(r, data[0]), data[1..], b);
    }
  }

  lemma StepsSnoc(r: u16, n: nat)
    ensures Steps(r, n + 1) == BitStep(Steps(r, n))
  {
    hide BitStep;
    StepsAdd(r, n, 1);
    assert Steps(Steps(r, n), 1) == Steps(BitStep(Steps(r, n)), 0);
  }

  lemma AddCrcsUnfold(data: seq<byte>, i: nat, end: nat)
    requires i < |data| && end == (if i + 16 > |data| then |data| else i + 16)
    ensures AddCrcs(data[i..]) == WithCrc(data[i..end]) + AddCrcs(data[end..])
  {
    hide WithCrc;
    var rest := data[i..];
    if |rest| > BLOCK_SIZE {
      assert rest[..BLOCK_SIZE] == data[i..end] && rest[BLOCK_SIZE..] == data[end..];
    } else {
      assert rest == data[i..end] && data[end..] == [];
      assert WithCrc(rest) + [] == WithCrc(rest);
    }
  }

  lemma LookupIsTableStep(r: u16, b: byte, entry: u16)
    requires entry == TableEntry(Lo(r) ^ b)
    ensures entry ^ (r >> 8) == TableStep(r, b)
  {
    hide TableEntry;
    assert r >> 8 == Wide(Hi(r));
  }

  /** Decoded octets put in front of what the rest of the wire decodes to. */
  function Prefixed(prefix: seq<byte>, r: Result<seq<byte>, CrcError>): Result<seq<byte>, CrcError> {
    match r
    case Ok(rest) => Ok(prefix + rest)
    case Err(e) => Err(e)
  }

  lemma PrefixedRules(a: seq<byte>, b: seq<byte>, r: Result<seq<byte>, CrcError>)
    ensures Prefixed([], r) == r
    ensures Prefixed(a + b, r) == Prefixed(a, Prefixed(b, r))
  {
    if r.Ok? {
      assert [] + r.value == r.value && (a + b) + r.value == a + (b + r.value);
    }
  }

  lemma AddCrcsEmpty()
    ensures AddCrcs([]) == []
  {
  }

  lemma StepTaken(crc: u16, next: u16)
    requires next == if crc & 1 != 0 then (crc >> 1) ^ POLY else crc >> 1
    ensures next == BitStep(crc)
  {
  }

  lemma EntryDone(x: byte, crc: u16)
    requires crc == Steps(Wide(x), 8)
    ensures crc == TableEntry(x)
  {
  }

  lemma NoStepsTaken(r: u16)
    ensures Steps(r, 0) == r
  {
  }

  /** One valid block in front of the rest of the wire, and the two ways a block fails. */
  lemma RemoveStep(wire: seq<byte>, pos: nat, blockSize: nat)
    requires pos < |wire| && blockSize == (if pos + 18 > |wire| then |wire| - pos - 2 else 16) && blockSize > 0
    ensures pos + blockSize + 2 <= |wire|
    ensures RemoveCrcs(wire[pos..]) ==
      if CrcValid(wire[pos..pos + blockSize + 2]) then
        Prefixed(wire[pos..pos + blockSize], RemoveCrcs(wire[pos + blockSize + 2..]))
      else Err(InvalidCrc)
  {
    hide CrcValid;
    var tail := wire[pos..];
    assert tail[..blockSize + 2] == wire[pos..pos + blockSize + 2];
    assert tail[..blockSize] == wire[pos..pos + blockSize];
    assert tail[blockSize + 2..] == wire[pos + blockSize + 2..];
  }

  lemma RemoveNothing()
    ensures RemoveCrcs([]) == Ok([])
  {
  }

  lemma RemoveShort(wire: seq<byte>, pos: nat)
    requires pos < |wire| && |wire| - pos - 2 <= 0
    ensures RemoveCrcs(wire[pos..]) == Err(InvalidCrc)
  {
    hide CrcValid;
  }

  /** The package's CRC table, filled once and then only read. */
  class CrcTable {
    const entries: array<u16>

    ghost predicate Valid()
      reads this, entries
    {
      entries.Length == 256 && forall x: byte :: entries[ValOf(x)] == TableEntry(x)
    }

    constructor ()
      ensures Valid() && fresh(entries)
    {
      hide ByteOf, ValOf, Wide, BitStep, Steps, TableEntry;
      var table := new u16[256];
      for i := 0 to 256
        invariant forall k :: 0 <= k < i ==> table[k] == TableEntry(ByteOf(k))
      {
        var start := Wide(ByteOf(i));
        var crc := start;
        NoStepsTaken(start);
        for j := 0 to 8
          invariant crc == Steps(start, j)
          modifies {}
        {
          StepsSnoc(start, j);
          ghost var before := crc;
          if crc & 1 != 0 {
            crc := (crc >> 1) ^ POLY;
          } else {
            crc := crc >> 1;
          }
          StepTaken(before, crc);
        }
        EntryDone(ByteOf(i), crc);
        table[i] := crc;
      }
      forall x: byte
        ensures table[ValOf(x)] == TableEntry(x)
      {
        ByteOfVal(x);
      }
      entries := table;
    }

    method Calculate(data: seq<byte>) returns (crc: u16)
      requires Valid()
      ensures crc == CalculateCrc(data)
    {
      hide TableStep, TableEntry, Lo, Index;
      var register: u16 := 0;
      for i := 0 to |data|
        invariant register == TableReg(0, data[..i])
      {
        TableRegSnoc(0, data[..i], data[i]);
        assert data[..i] + [data[i]] == data[..i + 1];
        var entry := entries[ValOf(Lo(register) ^ data[i])];
        LookupIsTableStep(register, data[i], entry);
        register := entry ^ (register >> 8);
      }
      assert data[..|data|] == data;
      crc := !register;
    }

    method Verify(data: seq<byte>) returns (ok: bool)
      requires Valid()
      ensures ok == CrcValid(data)
    {
      if |data| < 2 {
        return false;
      }
      var calculated := Calculate(data[..|data| - 2]);
      var received := Join(data[|data| - 2], data[|data| - 1]);
      ok := calculated == received;
    }

    method Add(data: seq<byte>) returns (result: seq<byte>)
      requires Valid()
      ensures result == AddCrcs(data)
    {
      hide CalculateCrc, Lo, Hi, AddCrcs;
      result := [];
      var i := 0;
      assert data[0..] == data;
      while i < |data|
        invariant 0 <= i <= |data|
        invariant AddCrcs(data) == result + AddCrcs(data[i..])
      {
        var end := if i + 16 > |data| then |data| else i + 16;
        AddCrcsUnfold(data, i, end);
        var block := data[i..end];
        var crc := Calculate(block);
        result := result + block + [Lo(crc), Hi(crc)];
        i := end;
      }
      assert AddCrcs(data[i..]) == [] by {
        AddCrcsEmpty();
        assert data[i..] == [];
      }
    }

    method Remove(wire: seq<byte>) returns (r: Result<seq<byte>, CrcError>)
      requires Valid()
      ensures r == RemoveCrcs(wire)
    {
      hide CrcValid, RemoveCrcs;
      var result: seq<byte> := [];
      var pos := 0;
      assert wire[0..] == wire;
      PrefixedRules([], [], RemoveCrcs(wire));
      while pos < |wire|
        invariant 0 <= pos <= |wire|
        invariant RemoveCrcs(wire) == Prefixed(result, RemoveCrcs(wire[pos..]))
      {
        var blockSize := 16;
        if pos + blockSize + 2 > |wire| {
          blockSize := |wire| - pos - 2;
          if blockSize <= 0 {
            RemoveShort(wire, pos);
            return Err(InvalidCrc);
          }
        }
        RemoveStep(wire, pos, blockSize);
        var ok := Verify(wire[pos..pos + blockSize + 2]);
        if !ok {
          return Err(InvalidCrc);
        }
        PrefixedRules(result, wire[pos..pos + blockSize], RemoveCrcs(wire[pos + blockSize + 2..]));
        result := result + wire[pos..pos + blockSize];
        pos := pos + blockSize + 2;
      }
      assert wire[pos..] == [] && result + [] == result;
      RemoveNothing();
      r := Ok(result);
    }
  }
}
