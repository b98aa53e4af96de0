/** Which transmission errors the CRC check catches, for frames of any length. */
module CrcErrors {
  import opened Crc16

  // ---- errors as bit strings ----

  function Diff(a: seq<bool>, b: seq<bool>): (d: seq<bool>)
    requires |a| == |b|
    ensures |d| == |a|
  {
    seq(|a|, i requires 0 <= i < |a| => a[i] != b[i])
  }

  predicate Quiet(e: seq<bool>) {
    forall j :: 0 <= j < |e| ==> !e[j]
  }

  lemma BitXor(a: bool, b: bool)
    ensures Bit(a != b) == Xor(Bit(a), Bit(b))
  {}

  lemma XorShuffle(a: bv16, b: bv16, c: bv16, d: bv16)
    ensures Xor(Xor(a, b), Xor(c, d)) == Xor(Xor(a, c), Xor(b, d))
  {
    hide Xor;
    XorAssociates(a, b, Xor(c, d));
    XorAssociates(b, c, d);
    XorCommutes(b, c);
    XorAssociates(c, b, d);
    XorAssociates(a, c, Xor(b, d));
  }

  lemma FeedLinear(c: bv16, d: bv16, a: bool, b: bool)
    ensures Feed(Xor(c, d), a != b) == Xor(Feed(c, a), Feed(d, b))
  {
    hide Xor, Shift, Bit;
    BitXor(a, b);
    XorShuffle(c, d, Bit(a), Bit(b));
    ShiftLinear(Xor(c, Bit(a)), Xor(d, Bit(b)));
  }

  lemma {:induction false} RegisterLinear(c: bv16, d: bv16, a: seq<bool>, b: seq<bool>)
    requires |a| == |b|
    ensures Register(Xor(c, d), Diff(a, b)) == Xor(Register(c, a), Register(d, b))
  {
    hide Xor, Feed;
    if |a| > 0 {
      var n := |a| - 1;
      assert Diff(a, b)[..n] == Diff(a[..n], b[..n]);
      RegisterLinear(c, d, a[..n], b[..n]);
      FeedLinear(Register(c, a[..n]), Register(d, b[..n]), a[n], b[n]);
    }
  }

  /** A corrupted copy of an accepted frame is accepted exactly when the error alone, fed into a
      zero register, leaves it zero. */
  lemma CorruptedAccepted(frame: seq<bv8>, bad: seq<bv8>)
    requires Accepted(frame) && |bad| == |frame|
    ensures Accepted(bad) <==> Register(0, Diff(Bits(frame), Bits(bad))) == 0
  {
    AcceptedIsZeroCrc(frame);
    AcceptedIsZeroCrc(bad);
    RegisterLinear(INIT, INIT, Bits(frame), Bits(bad));
    XorZero(INIT, INIT);
    hide Xor, Register, Bits, Accepted;
    XorCommutes(Crc(frame), Crc(bad));
    XorZero(Crc(bad), 0);
  }

  lemma FeedZero(c: bv16)
    ensures Feed(c, false) == Shift(c)
  {
    hide Shift;
    XorZero(c, c);
  }

  lemma {:induction false} RegisterQuiet(c: bv16, e: seq<bool>)
    requires Quiet(e)
    ensures Register(c, e) == Shifts(c, |e|)
  {
    hide Feed, Shift;
    if |e| > 0 {
      RegisterQuiet(c, e[..|e| - 1]);
      FeedZero(Shifts(c, |e| - 1));
    }
  }

  /** Feeding one set bit into a zero register after any number of clear bits. */
  lemma RegisterFirst(e: seq<bool>, i: nat)
    requires i < |e| && e[i] && Quiet(e[..i])
    ensures Register(0, e) == Register(Shift(1), e[i + 1..])
  {
    hide Feed, Shift;
    assert e == e[..i] + ([e[i]] + e[i + 1..]);
    RegisterConcat(0, e[..i], [e[i]] + e[i + 1..]);
    RegisterQuiet(0, e[..i]);
    ShiftsKernel(0, i);
    RegisterHead(0, [e[i]] + e[i + 1..]);
    FeedOne();
  }

  lemma FeedOne()
    ensures Feed(0, true) == Shift(1)
  {}

  // ---- bursts ----

  predicate Confined(e: seq<bool>, p: nat, width: nat) {
    forall j :: 0 <= j < |e| && e[j] ==> p <= j < p + width
  }

  lemma FeedSmall(s: bv16, b: bool)
    requires Feed(s, b) & 0x8000 == 0
    ensures Half(Feed(s, b)) == Half(Half(s)) && Feed(s, b) == Half(s)
  {}

  lemma HalfZero()
    ensures Half(0) == 0
  {}

  lemma {:induction false} DropZero(n: nat)
    ensures Drop(0, n) == 0
  {
    hide Half;
    HalfZero();
    if n > 0 { DropZero(n - 1); }
  }

  lemma TopBit(w: bv16)
    requires Half(Half(Half(Half4(Half4(Half4(w)))))) == 0
    ensures w & 0x8000 == 0
  {}

  /** A word that fits below bit n <= 15 has its top bit clear. */
  lemma SmallTop(w: bv16, n: nat)
    requires n <= 15 && Drop(w, n) == 0
    ensures w & 0x8000 == 0
  {
    assert Drop(w, 15) == 0 by { DropAdd(w, n, 15 - n); DropZero(15 - n); }
    hide Half, Half4;
    DropAdd(w, 4, 11);
    Drop4(w);
    DropAdd(Half4(w), 4, 7);
    Drop4(Half4(w));
    DropAdd(Half4(Half4(w)), 4, 3);
    Drop4(Half4(Half4(w)));
    var x := Half4(Half4(Half4(w)));
    assert Drop(x, 3) == Drop(Half(x), 2) == Drop(Half(Half(x)), 1) == Half(Half(Half(x)));
    TopBit(w);
  }

  /** Running the register backwards from zero: only a state below 2^n is cleared by n <= 16 bits. */
  lemma {:induction false} ClearedIsSmall(s: bv16, e: seq<bool>)
    requires |e| <= 16 && Register(s, e) == 0
    ensures Drop(s, |e|) == 0
    decreases |e|
  {
    hide Feed, Half;
    if |e| > 0 {
      RegisterHead(s, e);
      var t := Feed(s, e[0]);
      ClearedIsSmall(t, e[1..]);
      SmallTop(t, |e| - 1);
      FeedSmall(s, e[0]);
    }
  }

  lemma ShiftOneTop()
    ensures Shift(1) & 0x8000 != 0
  {}

  lemma BurstSyndrome(e: seq<bool>, i: nat)
    requires i < |e| && e[i] && Confined(e, i, 16)
    ensures Register(0, e) != 0
  {
    hide Shift, Shifts, Register, Feed;
    RegisterFirst(e, i);
    var tail := e[i + 1..];
    var k := if |tail| < 15 then |tail| else 15;
    assert tail == tail[..k] + tail[k..];
    RegisterConcat(Shift(1), tail[..k], tail[k..]);
    var r := Register(Shift(1), tail[..k]);
    RegisterQuiet(r, tail[k..]);
    ShiftsKernel(r, |tail| - k);
    if r == 0 {
      ClearedIsSmall(Shift(1), tail[..k]);
      SmallTop(Shift(1), k);
      ShiftOneTop();
    }
  }

  lemma FirstSet(e: seq<bool>) returns (i: nat)
    requires !Quiet(e)
    ensures i < |e| && e[i] && Quiet(e[..i])
    ensures forall j :: 0 <= j < |e| && e[j] ==> i <= j
  {
    i := 0;
    while !e[i]
      invariant i < |e| && Quiet(e[..i])
      invariant forall j :: 0 <= j < i ==> !e[j]
      invariant exists j :: i <= j < |e| && e[j]
      decreases |e| - i
    {
      i := i + 1;
    }
  }

  lemma QuietDiff(a: seq<bool>, b: seq<bool>)
    requires |a| == |b| && Quiet(Diff(a, b))
    ensures a == b
  {
    forall j | 0 <= j < |a| ensures a[j] == b[j] { assert !Diff(a, b)[j]; }
  }

  lemma ByteBitsInjective(a: bv8, b: bv8)
    requires ByteBits(a) == ByteBits(b)
    ensures a == b
  {
    hide Xor, Wide, Shifts, Register, ByteBits;
    ByteStep(0, a);
    ByteStep(0, b);
    ShiftsInjective(Xor(0, Wide(a)), Xor(0, Wide(b)), 8);
    XorCommutes(0, Wide(a));
    XorCommutes(0, Wide(b));
    XorIdentity(Wide(a));
    XorIdentity(Wide(b));
    WideInjective(a, b);
  }

  lemma WideInjective(a: bv8, b: bv8)
    requires Wide(a) == Wide(b)
    ensures a == b
  {}

  lemma {:induction false} BitsInjective(a: seq<bv8>, b: seq<bv8>)
    requires |a| == |b| && Bits(a) == Bits(b)
    ensures a == b
  {
    hide ByteBits;
    if |a| == 0 {
      assert a == [] == b;
    } else {
      var n := |a| - 1;
      assert Bits(a)[..8 * n] == Bits(a[..n]) && Bits(b)[..8 * n] == Bits(b[..n]);
      assert Bits(a)[8 * n..] == ByteBits(a[n]) && Bits(b)[8 * n..] == ByteBits(b[n]);
      BitsInjective(a[..n], b[..n]);
      ByteBitsInjective(a[n], b[n]);
      assert a == a[..n] + [a[n]] && b == b[..n] + [b[n]];
    }
  }

  /** Any nonzero error confined to 16 consecutive wire bits, anywhere in an accepted frame of any
      length (CRC bytes included, byte boundaries ignored), makes the frame rejected. */
  lemma BurstDetected(frame: seq<bv8>, bad: seq<bv8>, p: nat)
    requires Accepted(frame) && |bad| == |frame|
    requires frame != bad
    requires Confined(Diff(Bits(frame), Bits(bad)), p, 16)
    ensures !Accepted(bad)
  {
    hide Accepted, Bits, Register;
    var e := Diff(Bits(frame), Bits(bad));
    CorruptedAccepted(frame, bad);
    if Quiet(e) {
      QuietDiff(Bits(frame), Bits(bad));
      BitsInjective(frame, bad);
    } else {
      var i := FirstSet(e);
      BurstSyndrome(e, i);
    }
  }

  // ---- odd numbers of flipped bits ----

  /** Whether an odd number of the n low bits is set. */
  function ParityOf(w: bv16, n: nat): bool {
    if n == 0 then false else Odd(w) != ParityOf(Half(w), n - 1)
  }

  function Parity(w: bv16): bool { ParityOf(w, 16) }

  lemma ParityFlip(w: bv16)
    ensures Parity(Xor(w, 1)) != Parity(w)
  {
    FlipLow(w);
    hide Xor, Odd, Half;
  }

  lemma {:induction false} ParityMore(w: bv16, n: nat)
    ensures ParityOf(w, n + 1) == (ParityOf(w, n) != Odd(Drop(w, n)))
    decreases n
  {
    hide Odd, Half;
    if n > 0 {
      ParityMore(Half(w), n - 1);
      assert ParityOf(w, n + 1) == (Odd(w) != ParityOf(Half(w), n));
    } else {
      assert ParityOf(w, 1) == (Odd(w) != ParityOf(Half(w), 0));
    }
  }

  lemma ParityHalf(w: bv16)
    ensures Parity(w) == (Odd(w) != Parity(Half(w)))
  {
    ParityMore(w, 16);
    WordDrops(w);
    assert !Odd(0);
    hide Odd, Half, Drop;
    assert ParityOf(w, 17) == (Odd(w) != ParityOf(Half(w), 16));
  }

  lemma {:induction false} ParityXor(a: bv16, b: bv16, n: nat)
    ensures ParityOf(Xor(a, b), n) == (ParityOf(a, n) != ParityOf(b, n))
    decreases n
  {
    hide Xor, Odd, Half;
    if n > 0 {
      XorOddHalf(a, b);
      ParityXor(Half(a), Half(b), n - 1);
    }
  }

  lemma NibbleParity(w: bv16, n: nat)
    ensures ParityOf(w, 4 + n) ==
            (Odd(w) != (Odd(Half(w)) != (Odd(Half(Half(w))) != (Odd(Half(Half(Half(w)))) != ParityOf(Half4(w), n)))))
  {
    HalfHalf(w);
    hide Odd, Half, Half4;
    var w1, w2, w3 := Half(w), Half(Half(w)), Half(Half(Half(w)));
    assert ParityOf(w3, 1 + n) == (Odd(w3) != ParityOf(Half4(w), n));
    assert ParityOf(w2, 2 + n) == (Odd(w2) != ParityOf(w3, 1 + n));
    assert ParityOf(w1, 3 + n) == (Odd(w1) != ParityOf(w2, 2 + n));
  }

  lemma ParityOfPoly()
    ensures Parity(REFLECTED_POLY)
  {
    NibbleParity(0xA001, 12);
    NibbleParity(0x0A00, 8);
    NibbleParity(0x00A0, 4);
    NibbleParity(0x000A, 0);
  }

  /** The polynomial has an odd number of low terms, so a shift keeps the parity. */
  lemma ParityShift(w: bv16)
    ensures Parity(Shift(w)) == Parity(w)
  {
    ShiftCases(w);
    ParityHalf(w);
    ParityOfPoly();
    ParityXor(Half(w), REFLECTED_POLY, 16);
    hide Xor, Shift, Odd, Half, ParityOf;
  }

  lemma ParityFeed(w: bv16, b: bool)
    ensures Parity(Feed(w, b)) == (Parity(w) != b)
  {
    ParityShift(Xor(w, Bit(b)));
    ParityFlip(w);
    XorZero(w, w);
    BitCases(b);
    hide Parity, Xor, Shift, Bit;
  }

  lemma BitCases(b: bool)
    ensures Bit(b) == if b then 1 else 0
  {}

  function CountSet(e: seq<bool>): nat {
    if |e| == 0 then 0 else CountSet(e[..|e| - 1]) + (if e[|e| - 1] then 1 else 0)
  }

  lemma {:induction false} ParityRegister(c: bv16, e: seq<bool>)
    ensures Parity(Register(c, e)) == (Parity(c) != (CountSet(e) % 2 == 1))
  {
    hide Parity, Feed;
    if |e| > 0 {
      ParityRegister(c, e[..|e| - 1]);
      ParityFeed(Register(c, e[..|e| - 1]), e[|e| - 1]);
    }
  }

  lemma ParityOfZero()
    ensures !Parity(0)
  {
    NibbleParity(0, 12);
    NibbleParity(0, 8);
    NibbleParity(0, 4);
    NibbleParity(0, 0);
  }

  /** Flipping an odd number of bits of an accepted frame, of any length, makes it rejected. */
  lemma OddErrorDetected(frame: seq<bv8>, bad: seq<bv8>)
    requires Accepted(frame) && |bad| == |frame|
    requires CountSet(Diff(Bits(frame), Bits(bad))) % 2 == 1
    ensures !Accepted(bad)
  {
    hide Accepted, Bits, Register, Parity;
    CorruptedAccepted(frame, bad);
    ParityRegister(0, Diff(Bits(frame), Bits(bad)));
    ParityOfZero();
  }
}
