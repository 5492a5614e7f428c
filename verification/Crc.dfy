/** The DNP3 CRC-16 (IEEE Std 1815-2012, clause 9): table construction, register, block CRCs. */
module Crc {
  import opened Bytes

  /** The generator polynomial, bit-reversed. */
  const POLY: u16 := 0xA6BC

  const BLOCK_SIZE: nat := 16

  // ---------------------------------------------------------------- the shift register

  /** One step of the reflected shift register. */
  function BitStep(r: u16): u16 {
    if r & 1 != 0 then (r >> 1) ^ POLY else r >> 1
  }

  function Steps(r: u16, n: nat): u16
    decreases n
  {
    if n == 0 then r else Steps(BitStep(r), n - 1)
  }

  /** A message bit enters at the low end of the register. */
  function BitWord(b: bool): u16 {
    if b then 1 else 0
  }

  /** The bit-at-a-time CRC: each message bit, in wire order, enters the register and the register steps. */
  function RegBits(r: u16, bits: seq<bool>): u16
    decreases bits
  {
    if bits == [] then r else RegBits(BitStep(Xor(r, BitWord(bits[0]))), bits[1..])
  }

  // ---------------------------------------------------------------- the table-driven form

  function TableEntry(x: byte): u16 {
    Steps(Wide(x), 8)
  }

  /** The index that the low half of the register and the next octet select. */
  function Index(r: u16, b: byte): byte {
    Lo(r) ^ b
  }

  function TableStep(r: u16, b: byte): u16 {
    Xor(TableEntry(Index(r, b)), Wide(Hi(r)))
  }

  function TableReg(r: u16, data: seq<byte>): u16
    decreases data
  {
    if data == [] then r else TableReg(TableStep(r, data[0]), data[1..])
  }

  function Complement(x: u16): u16 {
    !x
  }

  /** CalculateCRC. */
  function CalculateCrc(data: seq<byte>): u16 {
    Complement(TableReg(0, data))
  }

  /** VerifyCRC: the last two octets are the CRC, low octet first. */
  predicate CrcValid(data: seq<byte>) {
    |data| >= 2 && CalculateCrc(data[..|data| - 2]) == Join(data[|data| - 2], data[|data| - 1])
  }

  // ---------------------------------------------------------------- register algebra

  /** The feedback term of one step. */
  function Feedback(lsb: bool): u16 {
    if lsb then POLY else 0
  }

  lemma BitStepParts(r: u16)
    ensures BitStep(r) == Xor(Half(r), Feedback(Lsb(r)))
  {
  }

  lemma FeedbackXor(a: bool, b: bool)
    ensures Feedback(a != b) == Xor(Feedback(a), Feedback(b))
  {
  }

  /** One register step is linear over exclusive-or. */
  lemma {:induction false} BitStepXor(x: u16, y: u16)
    ensures BitStep(Xor(x, y)) == Xor(BitStep(x), BitStep(y))
  {
    hide Xor, BitStep, Half, Lsb, Feedback;
    BitStepParts(x);
    BitStepParts(y);
    BitStepParts(Xor(x, y));
    HalfXor(x, y);
    FeedbackXor(Lsb(x), Lsb(y));
    XorRules(Half(x), Half(y), Feedback(Lsb(x)), Feedback(Lsb(y)));
  }

  lemma BitStepInjective(x: u16, y: u16)
    requires BitStep(x) == BitStep(y)
    ensures x == y
  {
  }

  lemma XorRules(a: u16, b: u16, c: u16, d: u16)
    ensures Xor(Xor(a, b), Xor(c, d)) == Xor(Xor(a, c), Xor(b, d))
    ensures Xor(Xor(a, b), c) == Xor(a, Xor(b, c))
    ensures Xor(a, 0) == a && Xor(0, a) == a && Xor(a, a) == 0
    ensures Xor(a, b) == 0 <==> a == b
  {
  }

  lemma BitWordXor(a: bool, b: bool)
    ensures BitWord(a != b) == Xor(BitWord(a), BitWord(b))
  {
  }

  lemma {:induction false} StepsXor(x: u16, y: u16, n: nat)
    ensures Steps(Xor(x, y), n) == Xor(Steps(x, n), Steps(y, n))
    decreases n
  {
    hide Xor, BitStep;
    if n > 0 {
      BitStepXor(x, y);
      StepsXor(BitStep(x), BitStep(y), n - 1);
    }
  }

  lemma {:induction false} StepsInjective(x: u16, y: u16, n: nat)
    requires Steps(x, n) == Steps(y, n)
    ensures x == y
    decreases n
  {
    hide Xor, BitStep;
    if n > 0 {
      StepsInjective(BitStep(x), BitStep(y), n - 1);
      BitStepInjective(x, y);
    }
  }

  lemma {:induction false} StepsAdd(r: u16, m: nat, n: nat)
    ensures Steps(r, m + n) == Steps(Steps(r, m), n)
    decreases m
  {
    hide BitStep;
    if m > 0 {
      StepsAdd(BitStep(r), m - 1, n);
    }
  }

  lemma {:induction false} StepsZero(n: nat)
    ensures Steps(0, n) == 0
    decreases n
  {
    if n > 0 {
      assert BitStep(0) == 0;
      StepsZero(n - 1);
    }
  }

  /** The register is linear: registers and messages of equal length may be combined bit by bit. */
  lemma {:induction false} RegBitsXor(r: u16, s: u16, a: seq<bool>, b: seq<bool>)
    requires |a| == |b|
    ensures RegBits(Xor(r, s), XorBits(a, b)) == Xor(RegBits(r, a), RegBits(s, b))
    decreases |a|
  {
    hide Xor, BitStep, BitWord;
    if a != [] {
      var c := XorBits(a, b);
      assert c[0] == (a[0] != b[0]) && c[1..] == XorBits(a[1..], b[1..]);
      BitWordXor(a[0], b[0]);
      XorRules(r, s, BitWord(a[0]), BitWord(b[0]));
      BitStepXor(Xor(r, BitWord(a[0])), Xor(s, BitWord(b[0])));
      RegBitsXor(BitStep(Xor(r, BitWord(a[0]))), BitStep(Xor(s, BitWord(b[0]))), a[1..], b[1..]);
    }
  }

  lemma {:induction false} RegBitsConcat(r: u16, a: seq<bool>, b: seq<bool>)
    ensures RegBits(r, a + b) == RegBits(RegBits(r, a), b)
    decreases |a|
  {
    hide Xor, BitStep, BitWord;
    if a == [] {
      assert a + b == b;
    } else {
      assert (a + b)[1..] == a[1..] + b;
      RegBitsConcat(BitStep(Xor(r, BitWord(a[0]))), a[1..], b);
    }
  }

  /** Bits of a word entering one by one act like the word entering at once, up to the part left over. */
  lemma {:induction false} RegBitsOfWord(r: u16, x: u16, n: nat)
    ensures Xor(RegBits(r, LsbBits(x, n)), Rest(x, n)) == Steps(Xor(r, x), n)
    decreases n
  {
    hide Xor, BitStep, BitWord, Half, Lsb;
    if n > 0 {
      var r' := BitStep(Xor(r, BitWord(Lsb(x))));
      BitStepOfWord(r, x);
      RegBitsOfWord(r', Half(x), n - 1);
      assert LsbBits(x, n)[0] == Lsb(x) && LsbBits(x, n)[1..] == LsbBits(Half(x), n - 1);
    }
  }

  lemma LowBitParts(x: u16)
    ensures Half(BitWord(Lsb(x))) == 0 && Lsb(BitWord(Lsb(x))) == Lsb(x)
  {
  }

  lemma BitStepOfWord(r: u16, x: u16)
    ensures BitStep(Xor(r, x)) == Xor(BitStep(Xor(r, BitWord(Lsb(x)))), Half(x))
  {
    hide Xor, BitStep, Half, Lsb, Feedback, BitWord;
    var low := BitWord(Lsb(x));
    BitStepXor(r, x);
    BitStepXor(r, low);
    BitStepParts(x);
    BitStepParts(low);
    LowBitParts(x);
    XorRules(BitStep(r), Feedback(Lsb(x)), Half(x), 0);
    XorRules(Feedback(Lsb(x)), 0, 0, 0);
    XorCommutes(Half(x), Feedback(Lsb(x)));
  }

  lemma XorCommutes(x: u16, y: u16)
    ensures Xor(x, y) == Xor(y, x)
  {
  }

  // ---------------------------------------------------------------- the table-driven form refines the bit form

  lemma StepsHigh(x: u16)
    requires x & 0xFF == 0
    ensures Steps(x, 8) == x >> 8
  {
    StepsAdd(x, 4, 4);
    StepsHighHalf(x);
    StepsHighHalf(x >> 4);
  }

  lemma StepsHighHalf(x: u16)
    requires x & 0xF == 0
    ensures Steps(x, 4) == x >> 4
  {
    assert BitStep(BitStep(BitStep(BitStep(x)))) == x >> 4;
    assert Steps(x, 4) == Steps(BitStep(x), 3) == Steps(BitStep(BitStep(x)), 2)
        == Steps(BitStep(BitStep(BitStep(x))), 1) == Steps(BitStep(BitStep(BitStep(BitStep(x)))), 0);
  }

  lemma SplitRegister(r: u16, b: byte)
    ensures Xor(r, Wide(b)) == Xor(Wide(Index(r, b)), r & 0xFF00)
    ensures (r & 0xFF00) & 0xFF == 0 && (r & 0xFF00) >> 8 == Wide(Hi(r))
  {
  }

  /** One table lookup does the work of eight register steps. */
  lemma TableStepIsEightBits(r: u16, b: byte)
    ensures TableStep(r, b) == RegBits(r, LsbBits(Wide(b), 8))
  {
    hide Xor, Wide, Hi, Index, RegBits, LsbBits, Steps, Rest;
    RegBitsOfWord(r, Wide(b), 8);
    RestEight(Wide(b));
    WideSmall(b);
    SplitRegister(r, b);
    var high := r & 0xFF00;
    StepsHigh(high);
    StepsXor(Wide(Index(r, b)), high, 8);
    XorRules(RegBits(r, LsbBits(Wide(b), 8)), 0, 0, 0);
  }

  lemma WideSmall(b: byte)
    ensures Wide(b) >> 8 == 0
  {
  }

  /** The table-driven register agrees with the bit-at-a-time register on every octet string. */
  lemma {:induction false} TableIsBitwise(r: u16, data: seq<byte>)
    ensures TableReg(r, data) == RegBits(r, Bits(data))
    decreases data
  {
    hide TableStep, BitStep, Xor, Wide, LsbBits;
    if data != [] {
      TableStepIsEightBits(r, data[0]);
      TableIsBitwise(TableStep(r, data[0]), data[1..]);
      RegBitsConcat(r, LsbBits(Wide(data[0]), 8), Bits(data[1..]));
    }
  }

  // ---------------------------------------------------------------- the fixed residue

  /** What the register holds after any octet string followed by its own CRC. */
  const RESIDUE: u16 := Steps(0xFFFF, 16)

  lemma ComplementMatches(r: u16, c: u16)
    ensures Complement(r) == c ==> Xor(r, c) == 0xFFFF
    ensures Xor(r, c) == 0xFFFF ==> Complement(r) == c
  {
  }

  lemma WordOfTwoOctets(r: u16, lo: byte, hi: byte)
    ensures RegBits(RegBits(r, LsbBits(Wide(lo), 8)), LsbBits(Wide(hi), 8)) == Steps(Xor(r, Join(lo, hi)), 16)
  {
    hide Xor, Join, Wide, RegBits, LsbBits, Steps, BitStep, Rest;
    var w := Join(lo, hi);
    RegBitsOfOctet(r, lo);
    RegBitsOfOctet(Steps(Xor(r, Wide(lo)), 8), hi);
    JoinParts(lo, hi);
    XorRules(r, Wide(lo), w & 0xFF00, 0);
    StepsHigh(w & 0xFF00);
    StepsXor(Xor(r, Wide(lo)), w & 0xFF00, 8);
    StepsAdd(Xor(r, w), 8, 8);
  }

  lemma RegBitsOfOctet(r: u16, b: byte)
    ensures RegBits(r, LsbBits(Wide(b), 8)) == Steps(Xor(r, Wide(b)), 8)
  {
    hide Xor, Wide, RegBits, LsbBits, Steps, Rest;
    RegBitsOfWord(r, Wide(b), 8);
    RestEight(Wide(b));
    WideSmall(b);
    XorRules(RegBits(r, LsbBits(Wide(b), 8)), 0, 0, 0);
  }

  lemma JoinParts(lo: byte, hi: byte)
    ensures var w := Join(lo, hi);
      w == Xor(Wide(lo), w & 0xFF00) && (w & 0xFF00) & 0xFF == 0 && (w & 0xFF00) >> 8 == Wide(hi)
  {
  }

  lemma RegisterAfterCrc(body: seq<byte>, lo: byte, hi: byte)
    ensures RegBits(0, Bits(body + [lo, hi])) == Steps(Xor(RegBits(0, Bits(body)), Join(lo, hi)), 16)
  {
    hide Xor, Join, Wide, RegBits, LsbBits, Steps;
    var r := RegBits(0, Bits(body));
    BitsConcat(body, [lo, hi]);
    assert [lo, hi][1..] == [hi] && [hi][1..] == [];
    assert Bits([hi]) == LsbBits(Wide(hi), 8);
    assert Bits([lo, hi]) == LsbBits(Wide(lo), 8) + LsbBits(Wide(hi), 8);
    RegBitsConcat(0, Bits(body), Bits([lo, hi]));
    RegBitsConcat(r, LsbBits(Wide(lo), 8), LsbBits(Wide(hi), 8));
    WordOfTwoOctets(r, lo, hi);
  }

  /** VerifyCRC holds exactly when the register, run over data and CRC together, ends at one fixed value. */
  lemma {:induction false} CrcValidIsResidue(data: seq<byte>)
    requires |data| >= 2
    ensures CrcValid(data) <==> RegBits(0, Bits(data)) == RESIDUE
  {
    hide Xor, Join, Bits, RegBits, Steps, Complement, TableReg;
    var n := |data| - 2;
    var body, lo, hi := data[..n], data[n], data[n + 1];
    var r := TableReg(0, body);
    TableIsBitwise(0, body);
    RegisterAfterCrc(body, lo, hi);
    assert data == body + [lo, hi];
    ComplementMatches(r, Join(lo, hi));
    if RegBits(0, Bits(data)) == RESIDUE {
      StepsInjective(Xor(r, Join(lo, hi)), 0xFFFF, 16);
    }
  }

  // ---------------------------------------------------------------- what the register detects

  /** The number of set bits. */
  function Weight(bits: seq<bool>): nat {
    if bits == [] then 0 else (if bits[0] then 1 else 0) + Weight(bits[1..])
  }

  predicate Odd(bits: seq<bool>) {
    Weight(bits) % 2 == 1
  }

  /** Parity of a register. */
  predicate Parity(r: u16) {
    Odd(LsbBits(r, 16))
  }

  lemma {:induction false} OddXor(a: seq<bool>, b: seq<bool>)
    requires |a| == |b|
    ensures Odd(XorBits(a, b)) == (Odd(a) != Odd(b))
  {
    if a != [] {
      OddXor(a[1..], b[1..]);
      assert XorBits(a, b)[1..] == XorBits(a[1..], b[1..]);
    }
  }

  lemma {:induction false} WeightConcat(a: seq<bool>, b: seq<bool>)
    ensures Weight(a + b) == Weight(a) + Weight(b)
  {
    if a == [] {
      assert a + b == b;
    } else {
      assert (a + b)[1..] == a[1..] + b;
      WeightConcat(a[1..], b);
    }
  }

  lemma {:induction false} LsbBitsSnoc(x: u16, n: nat)
    ensures LsbBits(x, n + 1) == LsbBits(x, n) + [Lsb(Rest(x, n))]
    decreases n
  {
    hide Lsb, Half;
    if n > 0 {
      LsbBitsSnoc(Half(x), n - 1);
    }
  }

  function One(b: bool): nat {
    if b then 1 else 0
  }

  lemma WeightStep(x: u16, n: nat)
    ensures Weight(LsbBits(x, n + 1)) == One(Lsb(x)) + Weight(LsbBits(Half(x), n))
  {
    hide Half, Lsb;
    assert LsbBits(x, n + 1)[1..] == LsbBits(Half(x), n);
  }

  lemma ParityHalf(r: u16)
    ensures Parity(Half(r)) == (Parity(r) != Lsb(r))
  {
    hide Half, Lsb, LsbBits, Rest, Weight;
    RestSixteen(r);
    LsbBitsSnoc(r, 16);
    WeightConcat(LsbBits(r, 16), [Lsb(0)]);
    WeightStep(r, 16);
    WeightOfClear();
  }

  lemma WeightOfClear()
    ensures Weight([Lsb(0)]) == 0
  {
  }

  lemma ParityXor(x: u16, y: u16)
    ensures Parity(Xor(x, y)) == (Parity(x) != Parity(y))
  {
    hide LsbBits, Xor, Odd;
    LsbBitsXor(x, y, 16);
    OddXor(LsbBits(x, 16), LsbBits(y, 16));
  }

  lemma WeightPair(x: u16, n: nat)
    ensures Weight(LsbBits(x, n + 2)) == One(Lsb(x)) + One(Lsb(Half(x))) + Weight(LsbBits(Half(Half(x)), n))
  {
    hide *;
    WeightStep(x, n + 1);
    WeightStep(Half(x), n);
  }

  lemma WeightNibble(x: u16, n: nat)
    ensures Weight(LsbBits(x, n + 4)) == One(Lsb(x)) + One(Lsb(Half(x))) + One(Lsb(Half(Half(x))))
          + One(Lsb(Half(Half(Half(x))))) + Weight(LsbBits(x >> 4, n))
  {
    var y := Half(Half(x));
    assert Half(Half(y)) == x >> 4;
    hide *;
    WeightPair(x, n + 2);
    WeightPair(y, n);
  }

  /** The polynomial has nine terms below x^16: an odd number. */
  lemma ParityFeedback(b: bool)
    ensures Parity(Feedback(b)) == b
  {
    hide LsbBits, Weight;
    var x := Feedback(b);
    WeightNibble(x, 12);
    WeightNibble(x >> 4, 8);
    WeightNibble(x >> 8, 4);
    WeightNibble(x >> 12, 0);
    assert Weight(LsbBits(x >> 12 >> 4, 0)) == 0 by {
      WeightNone(x >> 12 >> 4);
    }
  }

  lemma WeightNone(x: u16)
    ensures Weight(LsbBits(x, 0)) == 0
  {
  }

  lemma ParityBitWord(b: bool)
    ensures Parity(BitWord(b)) == b
  {
    hide LsbBits, Weight;
    var x := BitWord(b);
    WeightNibble(x, 12);
    WeightNibble(x >> 4, 8);
    WeightNibble(x >> 8, 4);
    WeightNibble(x >> 12, 0);
    WeightNone(x >> 12 >> 4);
  }

  /** Every step preserves parity, because the feedback flips as many bits, mod 2, as the shift drops. */
  lemma ParityBitStep(r: u16)
    ensures Parity(BitStep(r)) == Parity(r)
  {
    hide Parity, BitStep, Xor, Half, Lsb, Feedback;
    BitStepParts(r);
    ParityXor(Half(r), Feedback(Lsb(r)));
    ParityHalf(r);
    ParityFeedback(Lsb(r));
  }

  /** The register's parity is the parity of everything that entered it. */
  lemma {:induction false} ParityOfRegister(r: u16, bits: seq<bool>)
    ensures Parity(RegBits(r, bits)) == (Parity(r) != Odd(bits))
    decreases bits
  {
    hide Parity, BitStep, Xor, BitWord;
    if bits != [] {
      var entered := Xor(r, BitWord(bits[0]));
      ParityXor(r, BitWord(bits[0]));
      ParityBitWord(bits[0]);
      ParityBitStep(entered);
      ParityOfRegister(BitStep(entered), bits[1..]);
    }
  }

  lemma {:induction false} ClearBits(r: u16, bits: seq<bool>)
    requires forall i :: 0 <= i < |bits| ==> !bits[i]
    ensures RegBits(r, bits) == Steps(r, |bits|)
    decreases bits
  {
    hide BitStep, Xor;
    if bits != [] {
      XorRules(r, 0, 0, 0);
      ClearBits(BitStep(r), bits[1..]);
    }
  }

  /** The bits of e that are set lie within sixteen consecutive places. */
  ghost predicate Burst(e: seq<bool>) {
    exists p: nat :: WithinWindow(e, p)
  }

  predicate WithinWindow(e: seq<bool>, p: nat) {
    forall i :: 0 <= i < |e| && e[i] ==> p <= i < p + 16
  }

  /** A window of up to sixteen bits, not all clear, moves the register away from zero. */
  lemma WindowMovesRegister(window: seq<bool>)
    requires |window| <= 16 && true in window
    ensures RegBits(0, window) != 0
  {
    hide RegBits, Steps, Xor, LsbBits, Rest;
    var x := WordOf(window);
    WordOfBits(window);
    RegBitsOfWord(0, x, |window|);
    XorRules(RegBits(0, window), 0, 0, 0);
    XorRules(x, 0, 0, 0);
    if Steps(x, |window|) == 0 {
      StepsZero(|window|);
      StepsInjective(x, 0, |window|);
      ZeroWordBits(|window|);
      assert false;
    }
  }

  /** Clear bits keep the register away from zero. */
  lemma ClearBitsKeep(r: u16, after: seq<bool>)
    requires r != 0 && forall i :: 0 <= i < |after| ==> !after[i]
    ensures RegBits(r, after) != 0
  {
    hide RegBits, Steps;
    ClearBits(r, after);
    if Steps(r, |after|) == 0 {
      StepsZero(|after|);
      StepsInjective(r, 0, |after|);
      assert false;
    }
  }

  /** A burst is a window of up to sixteen bits between clear bits. */
  lemma BurstParts(e: seq<bool>) returns (before: seq<bool>, window: seq<bool>, after: seq<bool>)
    requires Burst(e) && true in e
    ensures e == before + (window + after) && |window| <= 16 && true in window
    ensures forall i :: 0 <= i < |before| ==> !before[i]
    ensures forall i :: 0 <= i < |after| ==> !after[i]
  {
    var p: nat :| WithinWindow(e, p);
    var i :| 0 <= i < |e| && e[i];
    var end := if p + 16 <= |e| then p + 16 else |e|;
    before, window, after := e[..p], e[p..end], e[end..];
    assert window[i - p];
  }

  /** A burst of up to sixteen bits never leaves the register at zero. */
  lemma BurstMovesRegister(e: seq<bool>)
    requires Burst(e) && true in e
    ensures RegBits(0, e) != 0
  {
    hide RegBits, Steps, Burst;
    var before, window, after := BurstParts(e);
    RegBitsConcat(0, before, window + after);
    RegBitsConcat(0, window, after);
    ClearBits(0, before);
    StepsZero(|before|);
    WindowMovesRegister(window);
    ClearBitsKeep(RegBits(0, window), after);
  }

  lemma {:induction false} ZeroWordBits(n: nat)
    ensures true !in LsbBits(0, n)
    decreases n
  {
    if n > 0 {
      ZeroWordBits(n - 1);
      assert !Lsb(0) && Half(0) == 0;
    }
  }

  /** An error moves the register exactly as it would move an idle one. */
  lemma RegisterOfSum(d: seq<byte>, e: seq<byte>)
    requires |d| == |e|
    ensures RegBits(0, Bits(XorBytes(d, e))) == Xor(RegBits(0, Bits(d)), RegBits(0, Bits(e)))
  {
    hide Xor, RegBits, Bits, XorBits;
    BitsXor(d, e);
    XorRules(0, 0, 0, 0);
    RegBitsXor(0, 0, Bits(d), Bits(e));
  }

  /** A CRC block is rejected whenever the error moves an idle register off zero. */
  lemma ErrorRejected(d: seq<byte>, e: seq<byte>)
    requires |d| == |e| && CrcValid(d) && RegBits(0, Bits(e)) != 0
    ensures !CrcValid(XorBytes(d, e))
  {
    hide RegBits, Bits, CrcValid, XorBytes, Steps;
    CrcLength(d);
    RegisterOfSum(d, e);
    CrcValidIsResidue(d);
    CrcValidIsResidue(XorBytes(d, e));
  }

  lemma CrcLength(d: seq<byte>)
    requires CrcValid(d)
    ensures |d| >= 2
  {
  }

  /** Any burst of up to sixteen consecutive wire bits in a CRC block is detected. */
  lemma {:induction false} BurstRejected(d: seq<byte>, e: seq<byte>)
    requires |d| == |e| && CrcValid(d) && Burst(Bits(e)) && true in Bits(e)
    ensures !CrcValid(XorBytes(d, e))
  {
    hide CrcValid, Bits, RegBits;
    BurstMovesRegister(Bits(e));
    ErrorRejected(d, e);
  }

  /** Any odd number of flipped bits in a CRC block is detected. */
  lemma {:induction false} OddWeightRejected(d: seq<byte>, e: seq<byte>)
    requires |d| == |e| && CrcValid(d) && Odd(Bits(e))
    ensures !CrcValid(XorBytes(d, e))
  {
    hide CrcValid, Bits, RegBits, Odd;
    ParityOfRegister(0, Bits(e));
    assert !Parity(0) by {
      ParityBitWord(false);
    }
    ErrorRejected(d, e);
  }
}
