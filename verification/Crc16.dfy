/** The Modbus CRC: the byte-wise loop of the client and its bit-serial reading.
    A frame is read as a bit string, each byte least significant bit first, as it travels on the wire.
    Proofs that only need the algebra of Xor and Shift hide their bit-level bodies. */
module Crc16 {
  const INIT: bv16 := 0xFFFF
  const REFLECTED_POLY: bv16 := 0xA001

  function Xor(a: bv16, b: bv16): bv16 { a ^ b }

  /** One turn of the inner loop: the register shifts by one bit position. */
  function Shift(c: bv16): bv16 {
    if c & 1 == 1 then (c >> 1) ^ REFLECTED_POLY else c >> 1
  }

  function Shifts(c: bv16, n: nat): bv16 {
    if n == 0 then c else Shift(Shifts(c, n - 1))
  }

  function Bit(b: bool): bv16 { if b then 1 else 0 }

  /** Bit-serial shift register: one message bit enters at the low end. */
  function Feed(c: bv16, bit: bool): bv16 {
    Shift(Xor(c, Bit(bit)))
  }

  function Register(c: bv16, bits: seq<bool>): bv16 {
    if |bits| == 0 then c else Feed(Register(c, bits[..|bits| - 1]), bits[|bits| - 1])
  }

  function Half(w: bv16): bv16 { w >> 1 }

  function Odd(w: bv16): bool { w & 1 == 1 }

  /** The n low bits of a word, least significant first. */
  function WordBits(w: bv16, n: nat): (bits: seq<bool>)
    ensures |bits| == n
  {
    if n == 0 then [] else [Odd(w)] + WordBits(Half(w), n - 1)
  }

  function Wide(b: bv8): bv16 { b as bv16 }

  function ByteBits(b: bv8): seq<bool> { WordBits(Wide(b), 8) }

  function Bits(data: seq<bv8>): (bits: seq<bool>)
    ensures |bits| == 8 * |data|
  {
    if |data| == 0 then [] else Bits(data[..|data| - 1]) + ByteBits(data[|data| - 1])
  }

  function Crc(data: seq<bv8>): bv16 {
    Register(INIT, Bits(data))
  }

  function Low(c: bv16): bv8 { (c & 0xFF) as bv8 }

  function High(c: bv16): bv8 { (c >> 8) as bv8 }

  function Word(low: bv8, high: bv8): bv16 { (low as bv16) | ((high as bv16) << 8) }

  // ---- the register as a function of bit strings ----

  lemma {:induction false} RegisterConcat(c: bv16, a: seq<bool>, b: seq<bool>)
    ensures Register(c, a + b) == Register(Register(c, a), b)
  {
    hide Feed;
    if |b| == 0 {
      assert a + b == a;
    } else {
      assert (a + b)[..|a + b| - 1] == a + b[..|b| - 1];
      RegisterConcat(c, a, b[..|b| - 1]);
    }
  }

  lemma RegisterOne(c: bv16, bit: bool)
    ensures Register(c, [bit]) == Feed(c, bit)
  {
    hide Feed;
    assert [bit][..0] == [];
    assert Register(c, [bit][..0]) == c;
  }

  lemma RegisterHead(c: bv16, bits: seq<bool>)
    requires |bits| > 0
    ensures Register(c, bits) == Register(Feed(c, bits[0]), bits[1..])
  {
    hide Feed;
    assert bits == [bits[0]] + bits[1..];
    RegisterConcat(c, [bits[0]], bits[1..]);
    RegisterOne(c, bits[0]);
  }

  lemma {:induction false} BitsConcat(a: seq<bv8>, b: seq<bv8>)
    ensures Bits(a + b) == Bits(a) + Bits(b)
  {
    hide ByteBits;
    if |b| == 0 {
      assert a + b == a;
    } else {
      assert (a + b)[..|a + b| - 1] == a + b[..|b| - 1];
      BitsConcat(a, b[..|b| - 1]);
    }
  }

  lemma BitsOne(b: bv8)
    ensures Bits([b]) == ByteBits(b)
  {
    hide ByteBits;
    assert [b][..0] == [];
    assert Bits([b]) == Bits([b][..0]) + ByteBits(b);
  }

  // ---- algebra of one shift ----

  lemma XorCommutes(a: bv16, b: bv16)
    ensures Xor(a, b) == Xor(b, a)
  {}

  lemma XorAssociates(a: bv16, b: bv16, c: bv16)
    ensures Xor(Xor(a, b), c) == Xor(a, Xor(b, c))
  {}

  lemma XorIdentity(a: bv16)
    ensures Xor(a, 0) == a
  {}

  lemma XorSelf(a: bv16)
    ensures Xor(a, a) == 0
  {}

  lemma XorCancels(a: bv16, b: bv16)
    requires Xor(a, b) == 0
    ensures a == b
  {
    hide Xor;
    XorSelf(b);
    XorAssociates(a, b, b);
    XorIdentity(a);
    XorCommutes(0, b);
    XorIdentity(b);
  }

  lemma XorZero(a: bv16, b: bv16)
    ensures Xor(a, 0) == a
    ensures Xor(a, b) == 0 <==> a == b
  {
    hide Xor;
    XorIdentity(a);
    XorSelf(a);
    if Xor(a, b) == 0 { XorCancels(a, b); }
  }

  lemma ShiftOddOdd(a: bv16, b: bv16)
    requires Odd(a) && Odd(b)
    ensures Shift(Xor(a, b)) == Xor(Shift(a), Shift(b))
  {}

  lemma ShiftOddEven(a: bv16, b: bv16)
    requires Odd(a) && !Odd(b)
    ensures Shift(Xor(a, b)) == Xor(Shift(a), Shift(b))
  {
    assert (a ^ b) & 1 == 1;
  }

  lemma ShiftEvenEven(a: bv16, b: bv16)
    requires !Odd(a) && !Odd(b)
    ensures Shift(Xor(a, b)) == Xor(Shift(a), Shift(b))
  {}

  lemma ShiftLinear(a: bv16, b: bv16)
    ensures Shift(Xor(a, b)) == Xor(Shift(a), Shift(b))
  {
    hide Xor, Shift, Odd;
    if Odd(a) && Odd(b) {
      ShiftOddOdd(a, b);
    } else if Odd(a) {
      ShiftOddEven(a, b);
    } else if Odd(b) {
      ShiftOddEven(b, a);
      XorCommutes(a, b);
      XorCommutes(Shift(a), Shift(b));
    } else {
      ShiftEvenEven(a, b);
    }
  }

  lemma ShiftKernel(a: bv16)
    ensures Shift(a) == 0 <==> a == 0
  {}

  lemma ShiftCases(c: bv16)
    ensures Shift(c) == if Odd(c) then Xor(Half(c), REFLECTED_POLY) else Half(c)
  {}

  lemma XorOddHalf(a: bv16, b: bv16)
    ensures Odd(Xor(a, b)) == (Odd(a) != Odd(b))
    ensures Half(Xor(a, b)) == Xor(Half(a), Half(b))
  {}

  /** Flipping the lowest bit. */
  lemma FlipLow(c: bv16)
    ensures Half(Xor(c, 1)) == Half(c) && Odd(Xor(c, 1)) == !Odd(c)
  {}

  lemma {:induction false} ShiftsLinear(a: bv16, b: bv16, n: nat)
    ensures Shifts(Xor(a, b), n) == Xor(Shifts(a, n), Shifts(b, n))
  {
    hide Xor, Shift;
    if n > 0 {
      ShiftsLinear(a, b, n - 1);
      ShiftLinear(Shifts(a, n - 1), Shifts(b, n - 1));
    }
  }

  lemma {:induction false} ShiftsKernel(a: bv16, n: nat)
    ensures Shifts(a, n) == 0 <==> a == 0
  {
    hide Shift;
    if n > 0 {
      ShiftsKernel(a, n - 1);
      ShiftKernel(Shifts(a, n - 1));
    }
  }

  /** Shifting is injective, so no information is ever lost by feeding zero bits. */
  lemma ShiftsInjective(a: bv16, b: bv16, n: nat)
    ensures Shifts(a, n) == Shifts(b, n) <==> a == b
  {
    hide Xor, Shifts;
    ShiftsLinear(a, b, n);
    ShiftsKernel(Xor(a, b), n);
    XorZero(a, b);
    XorZero(Shifts(a, n), Shifts(b, n));
  }

  lemma {:induction false} ShiftsAdd(c: bv16, m: nat, n: nat)
    ensures Shifts(c, m + n) == Shifts(Shifts(c, m), n)
  {
    hide Shift;
    if n > 0 { ShiftsAdd(c, m, n - 1); }
  }

  lemma ShiftsHead(c: bv16, n: nat)
    requires n > 0
    ensures Shifts(c, n) == Shifts(Shift(c), n - 1)
  {
    hide Shift;
    ShiftsAdd(c, 1, n - 1);
    assert Shifts(c, 1) == Shift(Shifts(c, 0));
  }

  // ---- absorbing a whole byte at once ----

  function Drop(w: bv16, n: nat): bv16 {
    if n == 0 then w else Drop(Half(w), n - 1)
  }

  lemma LowBitOff(w: bv16)
    ensures Xor(Bit(Odd(w)), Xor(w, Bit(Odd(w)))) == w
    ensures Shift(Xor(w, Bit(Odd(w)))) == Half(w)
  {}

  lemma AbsorbStep(c: bv16, w: bv16)
    ensures Shift(Xor(c, w)) == Xor(Feed(c, Odd(w)), Half(w))
  {
    hide Xor, Shift, Odd, Half, Bit;
    var b := Bit(Odd(w));
    XorAssociates(c, b, Xor(w, b));
    ShiftLinear(Xor(c, b), Xor(w, b));
    LowBitOff(w);
  }

  /** Xoring a word in at once and shifting equals feeding its bits one at a time, up to the bits
      that were not shifted out yet. */
  lemma {:induction false} Absorb(c: bv16, w: bv16, n: nat)
    ensures Shifts(Xor(c, w), n) == Xor(Register(c, WordBits(w, n)), Drop(w, n))
    decreases n
  {
    hide Xor, Shift, Odd, Half, Feed;
    if n > 0 {
      var bits := WordBits(w, n);
      assert bits[0] == Odd(w) && bits[1..] == WordBits(Half(w), n - 1);
      RegisterHead(c, bits);
      ShiftsHead(Xor(c, w), n);
      AbsorbStep(c, w);
      Absorb(Feed(c, bits[0]), Half(w), n - 1);
    }
  }

  function Half4(w: bv16): bv16 { w >> 4 }

  lemma Drop4(w: bv16)
    ensures Drop(w, 4) == Half4(w)
  {
    HalfHalf(w);
    hide Half, Half4;
    assert Drop(w, 4) == Drop(Half(w), 3) == Drop(Half(Half(w)), 2) == Drop(Half(Half(Half(w))), 1);
    assert Drop(w, 4) == Drop(Half(Half(Half(Half(w)))), 0);
  }

  lemma HalfHalf(w: bv16)
    ensures Half(Half(Half(Half(w)))) == Half4(w)
  {}

  lemma {:induction false} DropAdd(w: bv16, m: nat, n: nat)
    ensures Drop(w, m + n) == Drop(Drop(w, m), n)
    decreases m
  {
    hide Half;
    if m > 0 { DropAdd(Half(w), m - 1, n); }
  }

  lemma ByteHalves(b: bv8)
    ensures Half4(Half4(Wide(b))) == 0
  {}

  lemma ByteDrops(b: bv8)
    ensures Drop(Wide(b), 8) == 0
  {
    hide Half4, Wide, Drop;
    DropAdd(Wide(b), 4, 4);
    Drop4(Wide(b));
    Drop4(Half4(Wide(b)));
    ByteHalves(b);
  }

  lemma WordDrops(w: bv16)
    ensures Drop(w, 16) == 0
  {
    hide Half, Half4;
    DropAdd(w, 4, 12);
    Drop4(w);
    DropAdd(Half4(w), 4, 8);
    Drop4(Half4(w));
    DropAdd(Half4(Half4(w)), 4, 4);
    Drop4(Half4(Half4(w)));
    Drop4(Half4(Half4(Half4(w))));
    AllHalves(w);
  }

  lemma AllHalves(w: bv16)
    ensures Half4(Half4(Half4(Half4(w)))) == 0
  {}

  /** The byte-wise loop body (xor the byte in, shift eight times) is the bit-serial register. */
  lemma ByteStep(c: bv16, b: bv8)
    ensures Register(c, ByteBits(b)) == Shifts(Xor(c, Wide(b)), 8)
  {
    hide Xor, Wide, Shifts, Register, Drop, WordBits;
    Absorb(c, Wide(b), 8);
    ByteDrops(b);
    XorZero(Register(c, ByteBits(b)), 0);
  }

  // ---- acceptance ----

  function Raise(b: bv8, n: bv4): bv16 { (b as bv16) << n }

  lemma RaisedByte(b: bv8)
    ensures Shift(Raise(b, 8)) == Raise(b, 7) && Shift(Raise(b, 7)) == Raise(b, 6)
    ensures Shift(Raise(b, 6)) == Raise(b, 5) && Shift(Raise(b, 5)) == Raise(b, 4)
    ensures Shift(Raise(b, 4)) == Raise(b, 3) && Shift(Raise(b, 3)) == Raise(b, 2)
    ensures Shift(Raise(b, 2)) == Raise(b, 1) && Shift(Raise(b, 1)) == Wide(b)
  {}

  lemma HighByteShiftsDown(b: bv8)
    ensures Shifts(Raise(b, 8), 8) == Wide(b)
  {
    RaisedByte(b);
    hide Shift, Raise, Wide;
    assert Shifts(Raise(b, 8), 1) == Shift(Shifts(Raise(b, 8), 0)) == Raise(b, 7);
    assert Shifts(Raise(b, 8), 2) == Raise(b, 6);
    assert Shifts(Raise(b, 8), 3) == Raise(b, 5);
    assert Shifts(Raise(b, 8), 4) == Raise(b, 4);
    assert Shifts(Raise(b, 8), 5) == Raise(b, 3);
    assert Shifts(Raise(b, 8), 6) == Raise(b, 2);
    assert Shifts(Raise(b, 8), 7) == Raise(b, 1);
  }

  predicate Accepted(frame: seq<bv8>) {
    |frame| >= 2 && Crc(frame[..|frame| - 2]) == Word(frame[|frame| - 2], frame[|frame| - 1])
  }

  lemma WordSplits(c: bv16, low: bv8, high: bv8)
    ensures Xor(Xor(c, Wide(low)), Raise(high, 8)) == Xor(c, Word(low, high))
  {}

  lemma TwoBytes(c: bv16, low: bv8, high: bv8)
    ensures Register(c, ByteBits(low) + ByteBits(high)) == Shifts(Xor(c, Word(low, high)), 16)
  {
    hide Xor, Wide, Word, Raise, Shifts, Register, ByteBits;
    var x := Xor(c, Wide(low));
    RegisterConcat(c, ByteBits(low), ByteBits(high));
    ByteStep(c, low);
    ByteStep(Shifts(x, 8), high);
    HighByteShiftsDown(high);
    ShiftsLinear(x, Raise(high, 8), 8);
    WordSplits(c, low, high);
    ShiftsAdd(Xor(c, Word(low, high)), 8, 8);
  }

  lemma BitsOfTwo(low: bv8, high: bv8)
    ensures Bits([low, high]) == ByteBits(low) + ByteBits(high)
  {
    hide ByteBits;
    BitsConcat([low], [high]);
    BitsOne(low);
    BitsOne(high);
    assert [low] + [high] == [low, high];
  }

  /** A frame of at least two bytes verifies exactly when the CRC over the whole of it is zero. */
  lemma AcceptedIsZeroCrc(frame: seq<bv8>)
    requires |frame| >= 2
    ensures Accepted(frame) <==> Crc(frame) == 0
  {
    hide Xor, Word, Shifts, Register, ByteBits;
    var n := |frame| - 2;
    var low, high := frame[n], frame[n + 1];
    assert frame == frame[..n] + [low, high];
    BitsConcat(frame[..n], [low, high]);
    BitsOfTwo(low, high);
    var c := Crc(frame[..n]);
    RegisterConcat(INIT, Bits(frame[..n]), ByteBits(low) + ByteBits(high));
    TwoBytes(c, low, high);
    ShiftsKernel(Xor(c, Word(low, high)), 16);
    XorZero(c, Word(low, high));
  }

  lemma WordHalves(c: bv16, low: bv8, high: bv8)
    ensures Word(Low(c), High(c)) == c
    ensures Low(Word(low, high)) == low && High(Word(low, high)) == high
  {}

  function WithCrc(data: seq<bv8>): (frame: seq<bv8>)
    ensures |frame| == |data| + 2
  {
    data + [Low(Crc(data)), High(Crc(data))]
  }

  /** Appending the CRC makes a frame acceptable, and it is the only pair of bytes that does. */
  lemma WithCrcAccepted(data: seq<bv8>, low: bv8, high: bv8)
    ensures Accepted(data + [low, high]) <==> data + [low, high] == WithCrc(data)
  {
    hide Word, Low, High, Crc;
    var frame := data + [low, high];
    assert frame[..|frame| - 2] == data;
    WordHalves(Crc(data), low, high);
    if frame == WithCrc(data) {
      assert frame[|data|] == Low(Crc(data)) && frame[|data| + 1] == High(Crc(data));
    }
  }
}
