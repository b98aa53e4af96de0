/** Casts between counts and the fixed-width integers on the wire, as binary digits. */
module WireNumbers {
  import opened Crc16
  import opened CrcErrors

  function Power(k: nat): (p: nat)
    ensures p >= 1
  {
    if k == 0 then 1 else 2 * Power(k - 1)
  }

  function Digits(low: bool, rest: bv16): bv16 { Bit(low) | (rest << 1) }

  /** The word made of the k low binary digits of n. */
  function ToWord(n: nat, k: nat): bv16 {
    if k == 0 then 0 else Digits(n % 2 == 1, ToWord(n / 2, k - 1))
  }

  /** The number written by the k low digits of a word. */
  function ToNat(w: bv16, k: nat): (n: nat)
    ensures n < Power(k)
  {
    if k == 0 then 0 else (if Odd(w) then 1 else 0) + 2 * ToNat(Half(w), k - 1)
  }

  function U16(n: nat): bv16 { ToWord(n, 16) }

  function U8(n: nat): bv8 { Low(ToWord(n, 8)) }

  function Nat16(w: bv16): (n: nat)
    ensures n < 0x10000
  {
    Powers();
    ToNat(w, 16)
  }

  function Nat8(b: bv8): (n: nat)
    ensures n < 0x100
  {
    Powers();
    ToNat(Wide(b), 8)
  }

  lemma Powers()
    ensures Power(8) == 0x100 && Power(16) == 0x10000
  {
    assert Power(4) == 16;
    assert Power(12) == 16 * Power(8);
  }

  lemma DigitsBack(low: bool, rest: bv16)
    requires rest & 0x8000 == 0
    ensures Odd(Digits(low, rest)) == low && Half(Digits(low, rest)) == rest
  {
    if low { OddDigits(rest); } else { EvenDigits(rest); }
    hide Odd, Half, Digits;
  }

  lemma OddDigits(rest: bv16)
    requires rest & 0x8000 == 0
    ensures Odd(Digits(true, rest)) && Half(Digits(true, rest)) == rest
  {}

  lemma EvenDigits(rest: bv16)
    requires rest & 0x8000 == 0
    ensures !Odd(Digits(false, rest)) && Half(Digits(false, rest)) == rest
  {}

  lemma DigitsOf(w: bv16)
    ensures Digits(Odd(w), Half(w)) == w
  {}

  lemma {:induction false} ToWordBack(n: nat, k: nat)
    requires k <= 16 && n < Power(k)
    ensures Drop(ToWord(n, k), k) == 0 && ToNat(ToWord(n, k), k) == n
    decreases k
  {
    hide Digits, Odd, Half;
    if k > 0 {
      var rest := ToWord(n / 2, k - 1);
      ToWordBack(n / 2, k - 1);
      SmallTop(rest, k - 1);
      DigitsBack(n % 2 == 1, rest);
    }
  }

  lemma {:induction false} ToNatBack(w: bv16, k: nat)
    requires Drop(w, k) == 0
    ensures ToWord(ToNat(w, k), k) == w
    decreases k
  {
    hide Digits, Odd, Half;
    if k > 0 {
      ToNatBack(Half(w), k - 1);
      DigitsOf(w);
    }
  }

  lemma WordCount(n: nat)
    requires n < 0x10000
    ensures Nat16(U16(n)) == n
  {
    Powers();
    hide ToWord, ToNat, Power;
    ToWordBack(n, 16);
  }

  lemma CountWord(w: bv16)
    ensures U16(Nat16(w)) == w
  {
    hide ToWord, ToNat, Power, Drop;
    WordDrops(w);
    ToNatBack(w, 16);
  }

  lemma ByteCount(n: nat)
    requires n < 0x100
    ensures Nat8(U8(n)) == n
  {
    Powers();
    hide ToWord, ToNat, Power, Drop, Low, Wide;
    var w := ToWord(n, 8);
    ToWordBack(n, 8);
    LowByte(w);
  }

  // ---- what the digits mean ----

  lemma DigitBits(w: bv16)
    ensures Odd(w) == (w & 1 != 0) && Odd(Half(w)) == (w & 2 != 0)
    ensures Odd(Half(Half(w))) == (w & 4 != 0) && Odd(Half(Half(Half(w)))) == (w & 8 != 0)
  {}

  lemma HighDigitBits(w: bv16)
    ensures Half4(w) & 1 != 0 <==> w & 16 != 0
    ensures Half4(w) & 2 != 0 <==> w & 32 != 0
    ensures Half4(w) & 4 != 0 <==> w & 64 != 0
    ensures Half4(w) & 8 != 0 <==> w & 128 != 0
  {}

  function Weigh(on: bool, weight: nat): nat { if on then weight else 0 }

  lemma NibbleValue(w: bv16, n: nat)
    ensures ToNat(w, 4 + n) == Weigh(w & 1 != 0, 1) + Weigh(w & 2 != 0, 2) + Weigh(w & 4 != 0, 4)
                               + Weigh(w & 8 != 0, 8) + 16 * ToNat(Half4(w), n)
  {
    DigitBits(w);
    HalfHalf(w);
    hide Odd, Half, Half4;
    var w1, w2, w3 := Half(w), Half(Half(w)), Half(Half(Half(w)));
    assert ToNat(w3, 1 + n) == (if Odd(w3) then 1 else 0) + 2 * ToNat(Half4(w), n);
    assert ToNat(w2, 2 + n) == (if Odd(w2) then 1 else 0) + 2 * ToNat(w3, 1 + n);
    assert ToNat(w1, 3 + n) == (if Odd(w1) then 1 else 0) + 2 * ToNat(w2, 2 + n);
    assert ToNat(w, 4 + n) == (if Odd(w) then 1 else 0) + 2 * ToNat(w1, 3 + n);
  }

  lemma LowByteValue(w: bv16, n: nat)
    ensures ToNat(w, 8 + n) == Weigh(w & 1 != 0, 1) + Weigh(w & 2 != 0, 2) + Weigh(w & 4 != 0, 4)
                               + Weigh(w & 8 != 0, 8) + Weigh(w & 16 != 0, 16) + Weigh(w & 32 != 0, 32)
                               + Weigh(w & 64 != 0, 64) + Weigh(w & 128 != 0, 128)
                               + 256 * ToNat(Half4(Half4(w)), n)
  {
    HighDigitBits(w);
    hide ToNat, Half4;
    NibbleValue(w, 4 + n);
    NibbleValue(Half4(w), n);
  }

  lemma WideBits(b: bv8)
    ensures (Wide(b) & 1 != 0 <==> b & 1 != 0) && (Wide(b) & 2 != 0 <==> b & 2 != 0)
    ensures (Wide(b) & 4 != 0 <==> b & 4 != 0) && (Wide(b) & 8 != 0 <==> b & 8 != 0)
    ensures (Wide(b) & 16 != 0 <==> b & 16 != 0) && (Wide(b) & 32 != 0 <==> b & 32 != 0)
    ensures (Wide(b) & 64 != 0 <==> b & 64 != 0) && (Wide(b) & 128 != 0 <==> b & 128 != 0)
  {}

  /** The number of a byte is the sum of the weights of its set bits. */
  lemma ByteValue(b: bv8)
    ensures Nat8(b) == Weigh(b & 1 != 0, 1) + Weigh(b & 2 != 0, 2) + Weigh(b & 4 != 0, 4) + Weigh(b & 8 != 0, 8)
                       + Weigh(b & 16 != 0, 16) + Weigh(b & 32 != 0, 32) + Weigh(b & 64 != 0, 64)
                       + Weigh(b & 128 != 0, 128)
  {
    WideBits(b);
    assert ToNat(Half4(Half4(Wide(b))), 0) == 0;
    hide ToNat, Half4, Wide;
    LowByteValue(Wide(b), 0);
  }

  lemma LowBits(w: bv16)
    ensures (Low(w) & 1 != 0 <==> w & 1 != 0) && (Low(w) & 2 != 0 <==> w & 2 != 0)
    ensures (Low(w) & 4 != 0 <==> w & 4 != 0) && (Low(w) & 8 != 0 <==> w & 8 != 0)
    ensures (Low(w) & 16 != 0 <==> w & 16 != 0) && (Low(w) & 32 != 0 <==> w & 32 != 0)
    ensures (Low(w) & 64 != 0 <==> w & 64 != 0) && (Low(w) & 128 != 0 <==> w & 128 != 0)
  {}

  lemma HighIsDropped(w: bv16)
    ensures Half4(Half4(w)) == Wide(High(w))
  {}

  /** A word is 256 times its high byte plus its low byte. */
  lemma WordValue(w: bv16)
    ensures Nat16(w) == 256 * Nat8(High(w)) + Nat8(Low(w))
  {
    LowBits(w);
    HighIsDropped(w);
    hide ToNat, Half4, Wide, Low, High;
    LowByteValue(w, 8);
    ByteValue(Low(w));
  }

  lemma LowByte(w: bv16)
    requires Drop(w, 8) == 0
    ensures Wide(Low(w)) == w
  {
    hide Drop;
    Drop4(w);
    Drop4(Half4(w));
    DropAdd(w, 4, 4);
    HighHalf(w);
  }

  lemma HighHalf(w: bv16)
    requires Half4(Half4(w)) == 0
    ensures Wide(Low(w)) == w
  {}

  lemma CountByte(b: bv8)
    ensures U8(Nat8(b)) == b
  {
    hide ToWord, ToNat, Power, Drop, Low, Wide;
    ByteDrops(b);
    ToNatBack(Wide(b), 8);
    LowOfWide(b);
  }

  lemma LowOfWide(b: bv8)
    ensures Low(Wide(b)) == b
  {}
}
