/** The CRC as polynomial division: the law of the generator, for every message. */
module CrcPolynomial {
  import opened Bytes
  import opened Crc

  /** x^16 + x^13 + x^12 + x^11 + x^10 + x^8 + x^6 + x^5 + x^2 + 1, the coefficient of x^16 first. */
  function Generator(): (g: seq<bool>)
    ensures |g| == 17
  {
    [true, false, false, true, true, true, true, false, true, false, true, true, false, false, true, false, true]
  }

  /** The powers of the generator. */
  lemma GeneratorPowers()
    ensures forall power :: 0 <= power <= 16 ==> (Coefficient(power) <==> power in {16, 13, 12, 11, 10, 8, 6, 5, 2, 0})
  {
  }

  predicate Coefficient(power: nat)
    requires power <= 16
  {
    Generator()[16 - power]
  }

  /** The generator or nothing, n places up. */
  function Scaled(b: bool, n: nat): (r: seq<bool>)
    ensures |r| == 17 + n
  {
    (if b then Generator() else Clear(17)) + Clear(n)
  }

  /** The polynomial q times the generator, over the field of two elements, highest powers first. */
  function Product(q: seq<bool>): (r: seq<bool>)
    ensures |r| == |q| + 16
  {
    if q == [] then Clear(16) else XorBits(Scaled(q[0], |q| - 1), [false] + Product(q[1..]))
  }

  /** The polynomial whose coefficients these are, highest power first, is a multiple of the generator. */
  ghost predicate Multiple(bits: seq<bool>) {
    exists q: seq<bool> :: Product(q) == bits
  }

  // ---------------------------------------------------------------- the register divides

  /** One bit of a message enters the register. */
  lemma Enters(r: u16, bits: seq<bool>, next: u16)
    requires bits != [] && next == BitStep(Xor(r, BitWord(bits[0])))
    ensures RegBits(r, bits) == RegBits(next, bits[1..])
  {
    hide BitStep, Xor, BitWord;
  }

  lemma CoefficientEnters(r: u16, power: nat, b: bool, next: u16)
    requires power <= 16 && Coefficient(power) == b && next == BitStep(Xor(r, BitWord(b)))
    ensures RegBits(r, Generator()[16 - power..]) == RegBits(next, Generator()[17 - power..])
  {
    hide BitStep, Xor, BitWord, Generator;
    Enters(r, Generator()[16 - power..], next);
    assert Generator()[16 - power..][1..] == Generator()[17 - power..];
  }

  /** What the register holds after each of the generator's coefficients. */
  lemma GeneratorSteps()
    ensures BitStep(Xor(0x0000, BitWord(true))) == 0xA6BC
    ensures BitStep(Xor(0xA6BC, BitWord(false))) == 0x535E
    ensures BitStep(Xor(0x535E, BitWord(false))) == 0x29AF
    ensures BitStep(Xor(0x29AF, BitWord(true))) == 0x14D7
    ensures BitStep(Xor(0x14D7, BitWord(true))) == 0x0A6B
    ensures BitStep(Xor(0x0A6B, BitWord(true))) == 0x0535
    ensures BitStep(Xor(0x0535, BitWord(true))) == 0x029A
    ensures BitStep(Xor(0x029A, BitWord(false))) == 0x014D
    ensures BitStep(Xor(0x014D, BitWord(true))) == 0x00A6
    ensures BitStep(Xor(0x00A6, BitWord(false))) == 0x0053
    ensures BitStep(Xor(0x0053, BitWord(true))) == 0x0029
    ensures BitStep(Xor(0x0029, BitWord(true))) == 0x0014
    ensures BitStep(Xor(0x0014, BitWord(false))) == 0x000A
    ensures BitStep(Xor(0x000A, BitWord(false))) == 0x0005
    ensures BitStep(Xor(0x0005, BitWord(true))) == 0x0002
    ensures BitStep(Xor(0x0002, BitWord(false))) == 0x0001
    ensures BitStep(Xor(0x0001, BitWord(true))) == 0x0000
  {
  }

  /** The generator takes the register from zero to zero. */
  lemma GeneratorToZero()
    ensures RegBits(0, Generator()) == 0
  {
    hide RegBits, BitStep, Xor, BitWord, Generator, Coefficient;
    GeneratorSteps();
    GeneratorPowers();
    CoefficientEnters(0x0000, 16, true, 0xA6BC);
    CoefficientEnters(0xA6BC, 15, false, 0x535E);
    CoefficientEnters(0x535E, 14, false, 0x29AF);
    CoefficientEnters(0x29AF, 13, true, 0x14D7);
    CoefficientEnters(0x14D7, 12, true, 0x0A6B);
    CoefficientEnters(0x0A6B, 11, true, 0x0535);
    CoefficientEnters(0x0535, 10, true, 0x029A);
    CoefficientEnters(0x029A, 9, false, 0x014D);
    CoefficientEnters(0x014D, 8, true, 0x00A6);
    CoefficientEnters(0x00A6, 7, false, 0x0053);
    CoefficientEnters(0x0053, 6, true, 0x0029);
    CoefficientEnters(0x0029, 5, true, 0x0014);
    CoefficientEnters(0x0014, 4, false, 0x000A);
    CoefficientEnters(0x000A, 3, false, 0x0005);
    CoefficientEnters(0x0005, 2, true, 0x0002);
    CoefficientEnters(0x0002, 1, false, 0x0001);
    CoefficientEnters(0x0001, 0, true, 0x0000);
    assert Generator()[0..] == Generator();
    NothingEnters(0, Generator()[17..]);
  }

  lemma NothingEnters(r: u16, bits: seq<bool>)
    requires bits == []
    ensures RegBits(r, bits) == r
  {
  }

  lemma ZeroStays(n: nat)
    ensures RegBits(0, Clear(n)) == 0
  {
    hide RegBits, Steps, Clear;
    forall i | 0 <= i < n
      ensures !Clear(n)[i]
    {
      ClearIndex(n, i);
    }
    ClearBits(0, Clear(n));
    StepsZero(n);
  }

  lemma ScaledToZero(b: bool, n: nat)
    ensures RegBits(0, Scaled(b, n)) == 0
  {
    hide RegBits, Clear;
    GeneratorToZero();
    ZeroStays(17);
    ZeroStays(n);
    RegBitsConcat(0, if b then Generator() else Clear(17), Clear(n));
  }

  /** A leading zero coefficient changes nothing. */
  lemma LeadingZero(bits: seq<bool>)
    ensures RegBits(0, [false] + bits) == RegBits(0, bits)
  {
    Enters(0, [false] + bits, 0);
    assert ([false] + bits)[1..] == bits;
  }

  /** A sum enters the idle register as the sum of what its parts make of it. */
  lemma SumEnters(a: seq<bool>, b: seq<bool>)
    requires |a| == |b|
    ensures RegBits(0, XorBits(a, b)) == Xor(RegBits(0, a), RegBits(0, b))
  {
    hide RegBits, XorBits, Xor;
    XorRules(0, 0, 0, 0);
    RegBitsXor(0, 0, a, b);
  }

  lemma {:induction false} ProductToZero(q: seq<bool>)
    ensures RegBits(0, Product(q)) == 0
    decreases q
  {
    hide RegBits, XorBits, Clear, Scaled;
    ZeroStays(16);
    if q != [] {
      ScaledToZero(q[0], |q| - 1);
      LeadingZero(Product(q[1..]));
      ProductToZero(q[1..]);
      SumEnters(Scaled(q[0], |q| - 1), [false] + Product(q[1..]));
      XorRules(0, 0, 0, 0);
    }
  }

  lemma {:induction false} XorBitsTwice(a: seq<bool>, b: seq<bool>)
    requires |a| == |b|
    ensures XorBits(b, XorBits(a, b)) == a
    decreases |a|
  {
    if a != [] {
      XorBitsTwice(a[1..], b[1..]);
      assert XorBits(a, b)[1..] == XorBits(a[1..], b[1..]);
      assert a == [a[0]] + a[1..];
    }
  }

  lemma ScaledLeads(b: bool, n: nat)
    ensures Scaled(b, n)[0] == b
  {
  }

  /** The first coefficient of the quotient is that of the message; what is left has one coefficient less. */
  lemma DivideOnce(bits: seq<bool>) returns (rest: seq<bool>)
    requires |bits| >= 17 && RegBits(0, bits) == 0
    ensures |rest| == |bits| - 1 && RegBits(0, rest) == 0
    ensures bits == XorBits(Scaled(bits[0], |bits| - 17), [false] + rest)
  {
    hide RegBits, Scaled, Xor;
    var taken := Scaled(bits[0], |bits| - 17);
    var left := XorBits(bits, taken);
    rest := left[1..];
    ScaledLeads(bits[0], |bits| - 17);
    assert left == [false] + rest;
    ScaledToZero(bits[0], |bits| - 17);
    SumEnters(bits, taken);
    XorRules(0, 0, 0, 0);
    LeadingZero(rest);
    XorBitsTwice(bits, taken);
  }

  lemma {:induction false} Quotient(bits: seq<bool>) returns (q: seq<bool>)
    requires |bits| >= 16 && RegBits(0, bits) == 0
    ensures Product(q) == bits && |q| == |bits| - 16
    decreases |bits|
  {
    hide RegBits, XorBits, Scaled, Clear;
    if |bits| == 16 {
      q := [];
      if true in bits {
        WindowMovesRegister(bits);
        assert false;
      }
      ClearUnique(bits);
    } else {
      var rest := DivideOnce(bits);
      var more := Quotient(rest);
      q := [bits[0]] + more;
      assert q[1..] == more;
    }
  }

  /** The register ends at zero exactly on the multiples of the generator. */
  lemma ZeroIffMultiple(bits: seq<bool>)
    requires |bits| >= 16
    ensures RegBits(0, bits) == 0 <==> Multiple(bits)
  {
    hide RegBits, Product;
    if RegBits(0, bits) == 0 {
      var q := Quotient(bits);
      assert Product(q) == bits;
    }
    if Multiple(bits) {
      var q :| Product(q) == bits;
      ProductToZero(q);
    }
  }

  // ---------------------------------------------------------------- the CRC is the complemented remainder

  /** A register that meets a word ends at zero exactly when the word is what it held. */
  lemma WordToZero(r: u16, w: u16)
    ensures RegBits(r, LsbBits(w, 16)) == 0 <==> r == w
  {
    hide RegBits, LsbBits, Rest, Xor, Steps;
    RegBitsOfWord(r, w, 16);
    RestSixteen(w);
    XorRules(RegBits(r, LsbBits(w, 16)), 0, 0, 0);
    XorRules(r, w, 0, 0);
    StepsZero(16);
    if Steps(Xor(r, w), 16) == 0 {
      StepsInjective(Xor(r, w), 0, 16);
    }
  }

  lemma ComplementTwice(x: u16)
    ensures Complement(x) ^ 0xFFFF == x && Complement(x ^ 0xFFFF) == x
  {
  }

  /**
   * What CalculateCRC computes, for every octet string: the one word whose complement, appended to the message bits,
   * makes a multiple of the generator.
   */
  lemma CrcIsRemainder(data: seq<byte>, crc: u16)
    ensures crc == CalculateCrc(data) <==> Multiple(Bits(data) + LsbBits(crc ^ 0xFFFF, 16))
  {
    hide RegBits, LsbBits, Bits, TableReg, Multiple, Complement;
    var r := RegBits(0, Bits(data));
    TableIsBitwise(0, data);
    RegBitsConcat(0, Bits(data), LsbBits(crc ^ 0xFFFF, 16));
    WordToZero(r, crc ^ 0xFFFF);
    ZeroIffMultiple(Bits(data) + LsbBits(crc ^ 0xFFFF, 16));
    ComplementTwice(r);
    ComplementTwice(crc);
  }

  lemma LowNibble(x: u16, y: u16)
    requires x & 0xF == y & 0xF
    ensures LsbBits(x, 4) == LsbBits(y, 4)
  {
    FourBits(x);
    FourBits(y);
  }

  lemma LowOctet(x: u16, y: u16)
    requires x & 0xFF == y & 0xFF
    ensures LsbBits(x, 8) == LsbBits(y, 8)
  {
    hide LsbBits, Rest;
    LsbBitsAdd(x, 4, 4);
    LsbBitsAdd(y, 4, 4);
    RestFour(x);
    RestFour(y);
    LowNibble(x, y);
    LowNibble(x >> 4, y >> 4);
  }

  lemma WordOctets(lo: byte, hi: byte)
    ensures LsbBits(Join(lo, hi) ^ 0xFFFF, 16) == Bits([lo ^ 0xFF, hi ^ 0xFF])
  {
    hide LsbBits, Wide, Join, Rest;
    BitsNone();
    var w := Join(lo, hi) ^ 0xFFFF;
    LsbBitsAdd(w, 8, 8);
    RestEight(w);
    JoinHalves(lo, hi);
    LowOctet(w, Wide(lo ^ 0xFF));
    assert [lo ^ 0xFF, hi ^ 0xFF][1..] == [hi ^ 0xFF] && [hi ^ 0xFF][1..] == [];
    assert Bits([hi ^ 0xFF]) == LsbBits(Wide(hi ^ 0xFF), 8) + Bits([]);
  }

  lemma JoinHalves(lo: byte, hi: byte)
    ensures (Join(lo, hi) ^ 0xFFFF) >> 8 == Wide(hi ^ 0xFF)
    ensures (Join(lo, hi) ^ 0xFFFF) & 0xFF == Wide(lo ^ 0xFF) & 0xFF
  {
  }

  /** VerifyCRC, for every octet string: with its last two octets complemented it is a multiple of the generator. */
  lemma CrcValidIffMultiple(data: seq<byte>)
    ensures CrcValid(data) <==>
      |data| >= 2 && Multiple(Bits(data[..|data| - 2] + [data[|data| - 2] ^ 0xFF, data[|data| - 1] ^ 0xFF]))
  {
    hide Bits, LsbBits, CalculateCrc, Multiple, Join;
    if |data| >= 2 {
      var body, lo, hi := data[..|data| - 2], data[|data| - 2], data[|data| - 1];
      CrcIsRemainder(body, Join(lo, hi));
      WordOctets(lo, hi);
      BitsConcat(body, [lo ^ 0xFF, hi ^ 0xFF]);
    }
  }

  // ---------------------------------------------------------------- check values

  /** Eight steps, one by one. */
  lemma EightSteps(x: u16)
    ensures Steps(x, 8) == BitStep(BitStep(BitStep(BitStep(BitStep(BitStep(BitStep(BitStep(x))))))))
  {
    hide BitStep;
    StepsAdd(x, 4, 4);
    FourSteps(x);
    FourSteps(Steps(x, 4));
  }

  lemma FourSteps(x: u16)
    ensures Steps(x, 4) == BitStep(BitStep(BitStep(BitStep(x))))
  {
    hide BitStep;
    assert Steps(x, 4) == Steps(BitStep(x), 3) == Steps(BitStep(BitStep(x)), 2);
    assert Steps(BitStep(BitStep(x)), 2) == Steps(BitStep(BitStep(BitStep(x))), 1);
  }

  /** What one octet of a message makes of the register. */
  lemma OctetEnters(r: u16, data: seq<byte>, k: nat, next: u16)
    requires k < |data|
    requires var x := Wide(Index(r, data[k]));
      next == Xor(BitStep(BitStep(BitStep(BitStep(BitStep(BitStep(BitStep(BitStep(x)))))))), Wide(Hi(r)))
    ensures TableReg(r, data[k..]) == TableReg(next, data[k + 1..])
  {
    hide BitStep, Xor, Wide, Index, Hi, Steps;
    EightSteps(Wide(Index(r, data[k])));
    assert data[k..][1..] == data[k + 1..];
  }

  lemma NoOctets(r: u16)
    ensures TableReg(r, []) == r
  {
  }

  /** The octets of 123456789. */
  lemma CheckValue()
    ensures CalculateCrc([0x31, 0x32, 0x33, 0x34, 0x35, 0x36, 0x37, 0x38, 0x39]) == 0xEA82
  {
    hide TableReg;
    var data := [0x31, 0x32, 0x33, 0x34, 0x35, 0x36, 0x37, 0x38, 0x39];
    OctetEnters(0x0000, data, 0, 0xAD9A);
    OctetEnters(0xAD9A, data, 1, 0x7037);
    OctetEnters(0x7037, data, 2, 0xD908);
    OctetEnters(0xD908, data, 3, 0xBDEC);
    OctetEnters(0xBDEC, data, 4, 0x8EE3);
    OctetEnters(0x8EE3, data, 5, 0xA821);
    OctetEnters(0xA821, data, 6, 0x0707);
    OctetEnters(0x0707, data, 7, 0xE7D0);
    OctetEnters(0xE7D0, data, 8, 0x157D);
    NoOctets(0x157D);
    assert data[0..] == data && data[9..] == [];
  }

  /** The header of a reset-link-state frame. */
  lemma ResetHeaderValue()
    ensures CalculateCrc([0x05, 0x64, 0x05, 0xC0, 0x01, 0x00, 0x00, 0x04]) == 0x21E9
  {
    hide TableReg;
    var data := [0x05, 0x64, 0x05, 0xC0, 0x01, 0x00, 0x00, 0x04];
    OctetEnters(0x0000, data, 0, 0xEF26);
    OctetEnters(0xEF26, data, 1, 0x3F0D);
    OctetEnters(0x3F0D, data, 2, 0xFFB6);
    OctetEnters(0xFFB6, data, 3, 0x7DA1);
    OctetEnters(0x7DA1, data, 4, 0x8F6E);
    OctetEnters(0x8F6E, data, 5, 0x3033);
    OctetEnters(0x3033, data, 6, 0xC116);
    OctetEnters(0xC116, data, 7, 0xDE16);
    NoOctets(0xDE16);
    assert data[0..] == data && data[8..] == [];
  }
}
