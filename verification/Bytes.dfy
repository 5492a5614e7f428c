/** Octets, little-endian integers and bit strings shared by every layer. */
module Bytes {

  type byte = bv8
  type u16 = bv16

  /** What a fallible operation returns; each module names its own error type. */
  datatype Result<+T, +E> = Ok(value: T) | Err(error: E)

  datatype Option<+T> = None | Some(value: T)

  // ---------------------------------------------------------------- octets as integers

  function ValOf(b: byte): (v: nat)
    ensures v < 256
  {
    b as int
  }

  function ByteOf(n: nat): byte
    requires n < 256
  {
    n as bv8
  }

  lemma ByteOfVal(b: byte)
    ensures ByteOf(ValOf(b)) == b
  {
  }

  lemma ValSucc(b: byte)
    requires b < 255
    ensures ValOf(b + 1) == ValOf(b) + 1
  {
  }

  lemma {:induction false} ByteExists(n: nat) returns (b: byte)
    requires n < 256
    ensures ValOf(b) == n
  {
    if n == 0 {
      b := 0;
    } else {
      var c := ByteExists(n - 1);
      ValSucc(c);
      b := c + 1;
    }
  }

  lemma ValOfByte(n: nat)
    requires n < 256
    ensures ValOf(ByteOf(n)) == n
  {
    var b := ByteExists(n);
    ByteOfVal(b);
  }

  // ---------------------------------------------------------------- 16-bit little endian

  function Lo(x: u16): byte {
    (x & 0xFF) as bv8
  }

  function Hi(x: u16): byte {
    (x >> 8) as bv8
  }

  function Join(lo: byte, hi: byte): u16 {
    (lo as bv16) | ((hi as bv16) << 8)
  }

  lemma JoinSplit(x: u16)
    ensures Join(Lo(x), Hi(x)) == x
  {
  }

  lemma SplitJoin(lo: byte, hi: byte)
    ensures Lo(Join(lo, hi)) == lo && Hi(Join(lo, hi)) == hi
  {
  }

  // ---------------------------------------------------------------- unbounded little endian

  /** 256 to the power w: one more than the largest value w octets can hold. */
  function Pow256(w: nat): (p: nat)
    ensures p > 0
  {
    if w == 0 then 1 else 256 * Pow256(w - 1)
  }

  function ToLE(v: nat, w: nat): (s: seq<byte>)
    ensures |s| == w
  {
    if w == 0 then [] else [ByteOf(v % 256)] + ToLE(v / 256, w - 1)
  }

  function FromLE(s: seq<byte>): nat {
    if s == [] then 0 else ValOf(s[0]) + 256 * FromLE(s[1..])
  }

  lemma {:induction false} FromLEBound(s: seq<byte>)
    ensures FromLE(s) < Pow256(|s|)
  {
    if s != [] {
      FromLEBound(s[1..]);
    }
  }

  lemma {:induction false} FromToLE(v: nat, w: nat)
    requires v < Pow256(w)
    ensures FromLE(ToLE(v, w)) == v
  {
    if w > 0 {
      FromToLE(v / 256, w - 1);
      ValOfByte(v % 256);
      assert ToLE(v, w)[1..] == ToLE(v / 256, w - 1);
    }
  }

  lemma {:induction false} ToFromLE(s: seq<byte>)
    ensures ToLE(FromLE(s), |s|) == s
  {
    if s != [] {
      var v, low, rest := FromLE(s), ValOf(s[0]), FromLE(s[1..]);
      assert v == low + 256 * rest;
      DigitSplit(low, rest);
      ByteOfVal(s[0]);
      ToFromLE(s[1..]);
      assert ToLE(v, |s|) == [ByteOf(v % 256)] + ToLE(v / 256, |s| - 1);
    }
  }

  lemma DigitSplit(low: nat, rest: nat)
    requires low < 256
    ensures (low + 256 * rest) % 256 == low && (low + 256 * rest) / 256 == rest
  {
  }

  /** From position at on, a number of the given width stands in s, low octet first. */
  predicate LowFirst(s: seq<byte>, at: nat, width: nat, number: int) {
    && at + width <= |s|
    && (width == 1 ==> number == ValOf(s[at]))
    && (width == 2 ==> number == ValOf(s[at]) + 256 * ValOf(s[at + 1]))
    && (width == 4 ==> number == ValOf(s[at]) + 256 * ValOf(s[at + 1]) + 65536 * ValOf(s[at + 2])
                                 + 16777216 * ValOf(s[at + 3]))
    && (width == 6 ==> number == ValOf(s[at]) + 256 * ValOf(s[at + 1]) + 65536 * ValOf(s[at + 2])
                                 + 16777216 * ValOf(s[at + 3]) + 0x1_0000_0000 * ValOf(s[at + 4])
                                 + 0x100_0000_0000 * ValOf(s[at + 5]))
    && (width == 8 ==> number == ValOf(s[at]) + 256 * ValOf(s[at + 1]) + 65536 * ValOf(s[at + 2])
                                 + 16777216 * ValOf(s[at + 3]) + 0x1_0000_0000 * ValOf(s[at + 4])
                                 + 0x100_0000_0000 * ValOf(s[at + 5]) + 0x1_0000_0000_0000 * ValOf(s[at + 6])
                                 + 0x100_0000_0000_0000 * ValOf(s[at + 7]))
  }

  lemma FirstDigit(s: seq<byte>, i: nat, j: nat)
    requires i < j <= |s|
    ensures FromLE(s[i..j]) == ValOf(s[i]) + 256 * FromLE(s[i + 1..j])
  {
    assert s[i..j][1..] == s[i + 1..j];
  }

  lemma NoDigit(s: seq<byte>, i: nat)
    requires i <= |s|
    ensures FromLE(s[i..i]) == 0
  {
  }

  /** The octets that FromLE reads stand low octet first. */
  lemma ReadsLowFirst(s: seq<byte>, at: nat, width: nat)
    requires at + width <= |s| && (width == 1 || width == 2 || width == 4 || width == 6 || width == 8)
    ensures LowFirst(s, at, width, FromLE(s[at..at + width]))
  {
    hide FromLE, ValOf;
    var end := at + width;
    NoDigit(s, end);
    FirstDigit(s, at, end);
    if width > 1 {
      FirstDigit(s, at + 1, end);
    }
    if width > 2 {
      FirstDigit(s, at + 2, end);
      FirstDigit(s, at + 3, end);
    }
    if width > 4 {
      FirstDigit(s, at + 4, end);
      FirstDigit(s, at + 5, end);
    }
    if width > 6 {
      FirstDigit(s, at + 6, end);
      FirstDigit(s, at + 7, end);
    }
  }

  /** The octets that ToLE makes stand low octet first, wherever they are put. */
  lemma WritesLowFirst(s: seq<byte>, at: nat, width: nat, number: nat)
    requires number < Pow256(width) && (width == 1 || width == 2 || width == 4 || width == 6 || width == 8)
    requires at + width <= |s| && s[at..at + width] == ToLE(number, width)
    ensures LowFirst(s, at, width, number)
  {
    hide FromLE, ToLE, LowFirst;
    FromToLE(number, width);
    ReadsLowFirst(s, at, width);
  }

  // ---------------------------------------------------------------- bit strings, least significant first

  predicate Lsb(x: u16) {
    x & 1 != 0
  }

  function Half(x: u16): u16 {
    x >> 1
  }

  function Xor(x: u16, y: u16): u16 {
    x ^ y
  }

  /** The low n bits of x, least significant first. */
  function LsbBits(x: u16, n: nat): (bits: seq<bool>)
    ensures |bits| == n
    decreases n
  {
    if n == 0 then [] else [Lsb(x)] + LsbBits(Half(x), n - 1)
  }

  lemma FourBits(a: u16)
    ensures LsbBits(a, 4) == [Lsb(a), Lsb(Half(a)), Lsb(Half(Half(a))), Lsb(Half(Half(Half(a))))]
  {
    hide Lsb, Half;
    var b := Half(a);
    var c := Half(b);
    var d := Half(c);
    assert LsbBits(d, 1) == [Lsb(d)] + LsbBits(Half(d), 0);
    assert LsbBits(c, 2) == [Lsb(c)] + LsbBits(d, 1);
    assert LsbBits(b, 3) == [Lsb(b)] + LsbBits(c, 2);
    assert LsbBits(a, 4) == [Lsb(a)] + LsbBits(b, 3);
  }

  /** The wire bits of an octet string: each octet least significant bit first. */
  function Bits(data: seq<byte>): (bits: seq<bool>)
    ensures |bits| == 8 * |data|
  {
    if data == [] then [] else LsbBits(Wide(data[0]), 8) + Bits(data[1..])
  }

  lemma {:induction false} BitsConcat(a: seq<byte>, b: seq<byte>)
    ensures Bits(a + b) == Bits(a) + Bits(b)
  {
    if a == [] {
      assert a + b == b;
    } else {
      assert (a + b)[1..] == a[1..] + b;
      BitsConcat(a[1..], b);
    }
  }

  lemma MiddleBits(x: seq<bool>, y: seq<bool>, z: seq<bool>)
    ensures ((x + y) + z)[|x|..|x| + |y|] == y
  {
  }

  lemma BitsSlice(data: seq<byte>, i: nat, j: nat)
    requires i <= j <= |data|
    ensures Bits(data[i..j]) == Bits(data)[8 * i..8 * j]
  {
    hide *;
    var a, b, c := data[..i], data[i..j], data[j..];
    assert data == (a + b) + c;
    BitsConcat(a + b, c);
    BitsConcat(a, b);
    MiddleBits(Bits(a), Bits(b), Bits(c));
    assert |Bits(a)| == 8 * i && |Bits(b)| == 8 * (j - i);
  }

  function XorBytes(a: seq<byte>, b: seq<byte>): (c: seq<byte>)
    requires |a| == |b|
    ensures |c| == |a|
  {
    seq(|a|, i requires 0 <= i < |a| => a[i] ^ b[i])
  }

  function XorBits(a: seq<bool>, b: seq<bool>): (c: seq<bool>)
    requires |a| == |b|
    ensures |c| == |a|
  {
    if a == [] then [] else [a[0] != b[0]] + XorBits(a[1..], b[1..])
  }

  lemma HalfXor(x: u16, y: u16)
    ensures Half(Xor(x, y)) == Xor(Half(x), Half(y))
    ensures Lsb(Xor(x, y)) == (Lsb(x) != Lsb(y))
  {
  }

  lemma {:induction false} LsbBitsXor(x: u16, y: u16, n: nat)
    ensures LsbBits(Xor(x, y), n) == XorBits(LsbBits(x, n), LsbBits(y, n))
    decreases n
  {
    hide Lsb, Half, Xor;
    if n > 0 {
      HalfXor(x, y);
      LsbBitsXor(Half(x), Half(y), n - 1);
    }
  }

  lemma {:induction false} XorBitsConcat(a: seq<bool>, b: seq<bool>, c: seq<bool>, d: seq<bool>)
    requires |a| == |b| && |c| == |d|
    ensures XorBits(a + c, b + d) == XorBits(a, b) + XorBits(c, d)
  {
    if a == [] {
      assert a + c == c && b + d == d;
    } else {
      assert (a + c)[1..] == a[1..] + c && (b + d)[1..] == b[1..] + d;
      XorBitsConcat(a[1..], b[1..], c, d);
    }
  }

  /** The octet x as a 16-bit word. */
  function Wide(x: byte): u16 {
    x as bv16
  }

  lemma WideXor(x: byte, y: byte)
    ensures Wide(x ^ y) == Xor(Wide(x), Wide(y))
  {
  }

  lemma {:induction false} BitsXor(a: seq<byte>, b: seq<byte>)
    requires |a| == |b|
    ensures Bits(XorBytes(a, b)) == XorBits(Bits(a), Bits(b))
  {
    hide Lsb, Half, Xor, Wide;
    if a != [] {
      assert XorBytes(a, b)[1..] == XorBytes(a[1..], b[1..]);
      BitsXor(a[1..], b[1..]);
      WideXor(a[0], b[0]);
      LsbBitsXor(Wide(a[0]), Wide(b[0]), 8);
      XorBitsConcat(LsbBits(Wide(a[0]), 8), LsbBits(Wide(b[0]), 8), Bits(a[1..]), Bits(b[1..]));
    }
  }

  /** x shifted right n times: the bits that LsbBits(x, n) leaves out. */
  function Rest(x: u16, n: nat): u16
    decreases n
  {
    if n == 0 then x else Rest(Half(x), n - 1)
  }

  lemma HalfDetermines(x: u16, y: u16)
    requires Lsb(x) == Lsb(y) && Half(x) == Half(y)
    ensures x == y
  {
  }

  lemma {:induction false} LsbBitsDetermine(x: u16, y: u16, n: nat)
    requires LsbBits(x, n) == LsbBits(y, n) && Rest(x, n) == Rest(y, n)
    ensures x == y
    decreases n
  {
    hide Lsb, Half;
    if n > 0 {
      assert LsbBits(x, n)[0] == LsbBits(y, n)[0];
      assert LsbBits(x, n)[1..] == LsbBits(Half(x), n - 1) && LsbBits(y, n)[1..] == LsbBits(Half(y), n - 1);
      LsbBitsDetermine(Half(x), Half(y), n - 1);
      HalfDetermines(x, y);
    }
  }

  lemma {:induction false} RestAdd(x: u16, m: nat, n: nat)
    ensures Rest(x, m + n) == Rest(Rest(x, m), n)
    decreases m
  {
    if m > 0 {
      RestAdd(Half(x), m - 1, n);
    }
  }

  lemma RestFour(x: u16)
    ensures Rest(x, 4) == x >> 4
  {
    assert Half(Half(Half(Half(x)))) == x >> 4;
    assert Rest(x, 4) == Rest(Half(x), 3) == Rest(Half(Half(x)), 2) == Rest(Half(Half(Half(x))), 1)
        == Rest(Half(Half(Half(Half(x)))), 0);
  }

  lemma RestEight(x: u16)
    ensures Rest(x, 8) == x >> 8
  {
    RestAdd(x, 4, 4);
    RestFour(x);
    RestFour(x >> 4);
  }

  lemma RestSixteen(x: u16)
    ensures Rest(x, 16) == 0
  {
    RestAdd(x, 8, 8);
    RestEight(x);
    RestEight(x >> 8);
  }

  lemma {:induction false} LsbBitsAdd(x: u16, m: nat, n: nat)
    ensures LsbBits(x, m + n) == LsbBits(x, m) + LsbBits(Rest(x, m), n)
    decreases m
  {
    hide Lsb, Half;
    if m > 0 {
      LsbBitsAdd(Half(x), m - 1, n);
    }
  }

  /** Up to sixteen bits as a word, the first bit lowest. */
  function WordOf(bits: seq<bool>): u16 {
    if bits == [] then 0 else Below(bits[0], WordOf(bits[1..]))
  }

  /** x moved up one place, with a new lowest bit. */
  function Below(low: bool, x: u16): u16 {
    if low then (x << 1) | 1 else x << 1
  }

  lemma HalfBelow(low: bool, x: u16)
    requires x >> 8 >> 7 == 0
    ensures Half(Below(low, x)) == x && Lsb(Below(low, x)) == low
  {
  }

  lemma {:induction false} RestZero(n: nat)
    ensures Rest(0, n) == 0
    decreases n
  {
    if n > 0 {
      RestZero(n - 1);
    }
  }

  lemma RestFifteen(x: u16)
    ensures Rest(x, 15) == x >> 8 >> 7
  {
    RestAdd(x, 8, 7);
    RestEight(x);
    var y := x >> 8;
    RestAdd(y, 4, 3);
    RestFour(y);
    assert Rest(y >> 4, 3) == Half(Half(Half(y >> 4)));
  }

  lemma RoomAbove(x: u16, n: nat)
    requires n <= 15 && Rest(x, n) == 0
    ensures x >> 8 >> 7 == 0
  {
    hide Half, Rest;
    RestAdd(x, n, 15 - n);
    RestZero(15 - n);
    RestFifteen(x);
  }

  lemma {:induction false} WordOfBits(bits: seq<bool>)
    requires |bits| <= 16
    ensures LsbBits(WordOf(bits), |bits|) == bits && Rest(WordOf(bits), |bits|) == 0
    decreases bits
  {
    hide Half, Lsb, Below;
    if bits != [] {
      var n := |bits| - 1;
      var high, x := WordOf(bits[1..]), WordOf(bits);
      WordOfBits(bits[1..]);
      RoomAbove(high, n);
      HalfBelow(bits[0], high);
      assert LsbBits(x, |bits|) == [Lsb(x)] + LsbBits(Half(x), n);
      assert bits == [bits[0]] + bits[1..];
    }
  }

  lemma OctetBits(x: byte, y: byte)
    requires LsbBits(Wide(x), 8) == LsbBits(Wide(y), 8)
    ensures x == y
  {
    RestEight(Wide(x));
    RestEight(Wide(y));
    LsbBitsDetermine(x as bv16, Wide(y), 8);
  }

  lemma {:induction false} BitsInjective(a: seq<byte>, b: seq<byte>)
    requires |a| == |b| && Bits(a) == Bits(b)
    ensures a == b
  {
    if a != [] {
      assert Bits(a)[..8] == LsbBits(Wide(a[0]), 8) && Bits(b)[..8] == LsbBits(Wide(b[0]), 8);
      OctetBits(a[0], b[0]);
      assert Bits(a)[8..] == Bits(a[1..]) && Bits(b)[8..] == Bits(b[1..]);
      BitsInjective(a[1..], b[1..]);
      assert a == [a[0]] + a[1..] && b == [b[0]] + b[1..];
    }
  }

  // ---------------------------------------------------------------- bits back into octets

  function Clear(n: nat): (bits: seq<bool>)
    ensures |bits| == n && true !in bits
  {
    if n == 0 then [] else [false] + Clear(n - 1)
  }

  lemma {:induction false} ClearIndex(n: nat, i: nat)
    requires i < n
    ensures !Clear(n)[i]
  {
    if i > 0 {
      ClearIndex(n - 1, i - 1);
    }
  }

  lemma ClearUnique(bits: seq<bool>)
    requires forall i :: 0 <= i < |bits| ==> !bits[i]
    ensures bits == Clear(|bits|)
  {
    forall i | 0 <= i < |bits|
      ensures bits[i] == Clear(|bits|)[i]
    {
      ClearIndex(|bits|, i);
    }
  }

  function OctetOf(bits: seq<bool>): byte
    requires |bits| <= 8
  {
    Lo(WordOf(bits))
  }

  lemma WideLo(x: u16)
    requires x >> 8 == 0
    ensures Wide(Lo(x)) == x
  {
  }

  lemma NothingAboveOctet(x: u16)
    requires Rest(x, 8) == 0
    ensures Wide(Lo(x)) == x
  {
    RestEight(x);
    WideLo(x);
  }

  lemma {:induction false} LsbBitsZero(n: nat)
    ensures LsbBits(0, n) == Clear(n)
    decreases n
  {
    if n > 0 {
      assert !Lsb(0) && Half(0) == 0;
      LsbBitsZero(n - 1);
    }
  }

  lemma OctetOfBits(bits: seq<bool>)
    requires |bits| <= 8
    ensures LsbBits(Wide(OctetOf(bits)), 8) == bits + Clear(8 - |bits|)
  {
    hide Wide, Lo, WordOf, LsbBits, Rest, Clear;
    WordFills(bits, 8 - |bits|);
    NothingAboveOctet(WordOf(bits));
  }

  /** Above its own bits a word is clear. */
  lemma WordFills(bits: seq<bool>, more: nat)
    requires |bits| <= 16
    ensures Rest(WordOf(bits), |bits| + more) == 0
    ensures LsbBits(WordOf(bits), |bits| + more) == bits + Clear(more)
  {
    hide WordOf, LsbBits, Rest, Clear;
    WordOfBits(bits);
    RestAdd(WordOf(bits), |bits|, more);
    RestZero(more);
    LsbBitsAdd(WordOf(bits), |bits|, more);
    LsbBitsZero(more);
  }

  /** Bits packed into octets, the last octet padded with clear bits. */
  function PackBits(bits: seq<bool>): (data: seq<byte>)
    ensures |data| == (|bits| + 7) / 8
    decreases |bits|
  {
    if bits == [] then []
    else if |bits| <= 8 then [OctetOf(bits)]
    else [OctetOf(bits[..8])] + PackBits(bits[8..])
  }

  lemma BitsCons(x: byte, rest: seq<byte>)
    ensures Bits([x] + rest) == LsbBits(Wide(x), 8) + Bits(rest)
  {
    hide LsbBits, Wide;
    assert ([x] + rest)[1..] == rest;
  }

  lemma BitsNone()
    ensures Bits([]) == []
  {
  }

  lemma {:induction false} BitsOfPacked(bits: seq<bool>)
    ensures Bits(PackBits(bits)) == bits + Clear(8 * |PackBits(bits)| - |bits|)
    decreases |bits|
  {
    hide OctetOf, LsbBits, Wide, Bits, Clear;
    BitsNone();
    if bits == [] {
      assert Clear(0) == [];
    } else if |bits| <= 8 {
      var x := OctetOf(bits);
      OctetOfBits(bits);
      BitsCons(x, []);
      assert [x] + [] == [x];
    } else {
      var head, tail := bits[..8], bits[8..];
      OctetOfBits(head);
      BitsOfPacked(tail);
      BitsCons(OctetOf(head), PackBits(tail));
      assert head + Clear(0) == head;
      assert bits == head + tail;
      assert head + (tail + Clear(8 * |PackBits(tail)| - |tail|)) == bits + Clear(8 * |PackBits(tail)| - |tail|);
    }
  }

  // ---------------------------------------------------------------- lists of octet strings

  lemma Times(k: nat, n: nat)
    requires k > 0
    ensures k * n == n + (k - 1) * n
  {
  }

  /** A piece of an octet string is found between what stands before and after it. */
  lemma Piece(before: seq<byte>, piece: seq<byte>, after: seq<byte>)
    ensures var w := before + piece + after;
      |w| == |before| + |piece| + |after| && w[|before|..|before| + |piece|] == piece
  {
  }

  function Concat(parts: seq<seq<byte>>): seq<byte> {
    if parts == [] then [] else parts[0] + Concat(parts[1..])
  }

  lemma {:induction false} ConcatAppend(a: seq<seq<byte>>, b: seq<seq<byte>>)
    ensures Concat(a + b) == Concat(a) + Concat(b)
  {
    if a == [] {
      assert a + b == b;
    } else {
      assert (a + b)[1..] == a[1..] + b;
      ConcatAppend(a[1..], b);
    }
  }
}
