/** The order of x modulo the CRC polynomial is 32767, so a two-bit error slips through exactly when
    its bits are a multiple of 32767 apart. */
module CrcOrder {
  import opened Crc16
  import opened CrcErrors

  /** The register holding the polynomial 1; shifting n times gives x^n. */
  const ONE: bv16 := 0x8000

  // ---- multiplication of register polynomials ----

  /** Horner evaluation of bits at b: shift the sum, add b for a set bit. */
  function Horner(bits: seq<bool>, b: bv16): bv16 {
    if |bits| == 0 then 0
    else Xor(Shift(Horner(bits[..|bits| - 1], b)), if bits[|bits| - 1] then b else 0)
  }

  lemma ShiftZero()
    ensures Shift(0) == 0
  {}

  lemma ShiftChoice(c: bool, b: bv16)
    ensures Shift(if c then b else 0) == if c then Shift(b) else 0
  {
    hide Shift;
    ShiftZero();
  }

  lemma {:induction false} HornerShift(bits: seq<bool>, b: bv16)
    ensures Horner(bits, Shift(b)) == Shift(Horner(bits, b))
  {
    hide Xor, Shift;
    ShiftZero();
    if |bits| > 0 {
      var n := |bits| - 1;
      HornerShift(bits[..n], b);
      ShiftLinear(Shift(Horner(bits[..n], b)), if bits[n] then b else 0);
      ShiftChoice(bits[n], b);
    }
  }

  lemma {:induction false} HornerShifts(bits: seq<bool>, b: bv16, n: nat)
    ensures Horner(bits, Shifts(b, n)) == Shifts(Horner(bits, b), n)
  {
    hide Shift, Horner;
    if n > 0 {
      HornerShifts(bits, b, n - 1);
      HornerShift(bits, Shifts(b, n - 1));
    }
  }

  lemma {:induction false} RegisterIsHorner(bits: seq<bool>)
    ensures Register(0, bits) == Horner(bits, Shift(1))
  {
    hide Xor, Shift;
    if |bits| > 0 {
      var n := |bits| - 1;
      RegisterIsHorner(bits[..n]);
      ShiftLinear(Register(0, bits[..n]), Bit(bits[n]));
      ShiftZero();
    }
  }

  lemma HalvingOne()
    ensures Shifts(ONE, 15) == 1
  {
    assert Shifts(ONE, 5) == 0x0400;
    ShiftsAdd(ONE, 5, 5);
    assert Shifts(0x0400, 5) == 0x0020;
    ShiftsAdd(ONE, 10, 5);
    assert Shifts(0x0020, 5) == 1;
  }

  /** Shifting p by n positions is multiplying it by x^n. */
  lemma ShiftsIsProduct(p: bv16, n: nat)
    ensures Shifts(p, n) == Horner(WordBits(p, 16), Shifts(ONE, n))
  {
    hide Xor, Shift, Shifts, Horner, Register, WordBits;
    var bits := WordBits(p, 16);
    var one := Shift(1);
    assert Shifts(p, 16) == Horner(bits, one) by {
      Absorb(0, p, 16);
      WordDrops(p);
      XorZero(Register(0, bits), 0);
      XorZero(p, p);
      XorCommutes(0, p);
      RegisterIsHorner(bits);
    }
    assert one == Shifts(ONE, 16) by { HalvingOne(); SixteenIsNext(); }
    calc {
      Shifts(Shifts(p, n), 16);
      { ShiftsAdd(p, n, 16); ShiftsAdd(p, 16, n); }
      Shifts(Horner(bits, one), n);
      { HornerShifts(bits, one, n); }
      Horner(bits, Shifts(one, n));
      { ShiftsAdd(ONE, 16, n); ShiftsAdd(ONE, n, 16); }
      Horner(bits, Shifts(Shifts(ONE, n), 16));
      { HornerShifts(bits, Shifts(ONE, n), 16); }
      Shifts(Horner(bits, Shifts(ONE, n)), 16);
    }
    ShiftsInjective(Shifts(p, n), Horner(bits, Shifts(ONE, n)), 16);
  }

  lemma SixteenIsNext()
    ensures Shifts(ONE, 16) == Shift(Shifts(ONE, 15))
  {}

  /** One turn of Horner evaluation for the low bit of w. */
  function Turn(sum: bv16, w: bv16, b: bv16): bv16 {
    Xor(Shift(sum), if Odd(w) then b else 0)
  }

  function Turn4(sum: bv16, w: bv16, b: bv16): bv16 {
    Turn(Turn(Turn(Turn(sum, w, b), Half(w), b), Half(Half(w)), b), Half(Half(Half(w))), b)
  }

  /** The square of a register polynomial, in closed form so that constants compute. */
  function Square(v: bv16): bv16 {
    var v4, v8 := Half4(v), Half4(Half4(v));
    Turn4(Turn4(Turn4(Turn4(0, v, v), v4, v), v8, v), Half4(v8), v)
  }

  function Turns(sum: bv16, w: bv16, b: bv16, n: nat): bv16
    decreases n
  {
    if n == 0 then sum else Turns(Turn(sum, w, b), Half(w), b, n - 1)
  }

  lemma TurnExtends(done: seq<bool>, w: bv16, b: bv16)
    ensures Turn(Horner(done, b), w, b) == Horner(done + [Odd(w)], b)
  {
    hide Xor, Shift, Odd;
    var next := done + [Odd(w)];
    assert next[..|next| - 1] == done;
  }

  lemma {:induction false} TurnsIsHorner(done: seq<bool>, w: bv16, b: bv16, n: nat)
    ensures Turns(Horner(done, b), w, b, n) == Horner(done + WordBits(w, n), b)
    decreases n
  {
    hide Turn, Horner, Odd, Half;
    if n == 0 {
      assert done + WordBits(w, n) == done;
    } else {
      TurnExtends(done, w, b);
      var bit, rest := [Odd(w)], WordBits(Half(w), n - 1);
      assert WordBits(w, n) == bit + rest;
      assert done + (bit + rest) == (done + bit) + rest;
      TurnsIsHorner(done + [Odd(w)], Half(w), b, n - 1);
    }
  }

  lemma FourTurns(sum: bv16, w: bv16, b: bv16, n: nat)
    requires n >= 4
    ensures Turns(sum, w, b, n) == Turns(Turn4(sum, w, b), Half4(w), b, n - 4)
  {
    HalfHalf(w);
    hide Turn, Half, Half4;
    var s1 := Turn(sum, w, b);
    var s2 := Turn(s1, Half(w), b);
    var s3 := Turn(s2, Half(Half(w)), b);
    assert Turns(sum, w, b, n) == Turns(s1, Half(w), b, n - 1) == Turns(s2, Half(Half(w)), b, n - 2);
    assert Turns(s2, Half(Half(w)), b, n - 2) == Turns(s3, Half(Half(Half(w))), b, n - 3);
  }

  lemma SquareIsTurns(v: bv16)
    ensures Turns(0, v, v, 16) == Square(v)
  {
    hide Turn4, Half4;
    var v4, v8 := Half4(v), Half4(Half4(v));
    var a := Turn4(0, v, v);
    var b := Turn4(a, v4, v);
    var c := Turn4(b, v8, v);
    FourTurns(0, v, v, 16);
    FourTurns(a, v4, v, 12);
    FourTurns(b, v8, v, 8);
    FourTurns(c, Half4(v8), v, 4);
  }

  lemma SquareDoubles(n: nat, v: bv16)
    requires Shifts(ONE, n) == v
    ensures Shifts(ONE, 2 * n) == Square(v)
  {
    hide Shift, Shifts, Turns, Horner, WordBits, Square;
    ShiftsAdd(ONE, n, n);
    assert n + n == 2 * n;
    ShiftsIsProduct(v, n);
    HornerNone(v);
    TurnsIsHorner([], v, v, 16);
    assert [] + WordBits(v, 16) == WordBits(v, 16);
    SquareIsTurns(v);
  }

  lemma HornerNone(b: bv16)
    ensures Horner([], b) == 0
  {}

  lemma Double(n: nat, v: bv16, square: bv16)
    requires Shifts(ONE, n) == v && Square(v) == square
    ensures Shifts(ONE, 2 * n) == square
  {
    hide Shift, Shifts, Square;
    SquareDoubles(n, v);
  }

  lemma DoubleAndOne(n: nat, v: bv16, next: bv16)
    requires Shifts(ONE, n) == v && Shift(Square(v)) == next
    ensures Shifts(ONE, 2 * n + 1) == next
  {
    hide Shift, Square;
    SquareDoubles(n, v);
  }

  lemma X()
    ensures Shifts(ONE, 1) == 0x4000
  {
    assert Shifts(ONE, 0) == ONE;
  }

  lemma Power217()
    ensures Shifts(ONE, 217) == 0x3e55
  {
    hide Shifts;
    X();
    DoubleAndOne(1, 0x4000, 0x1000);
    Double(3, 0x1000, 0x200);
    DoubleAndOne(6, 0x200, 0x4);
    DoubleAndOne(13, 0x4, 0xc00d);
    Double(27, 0xc00d, 0xc079);
    Double(54, 0xc079, 0xdfe1);
    DoubleAndOne(108, 0xdfe1, 0x3e55);
  }

  lemma Power1057()
    ensures Shifts(ONE, 1057) == 0xce41
  {
    hide Shifts;
    X();
    Double(1, 0x4000, 0x2000);
    Double(2, 0x2000, 0x800);
    Double(4, 0x800, 0x80);
    Double(8, 0x80, 0xa001);
    DoubleAndOne(16, 0xa001, 0xd401);
    Double(33, 0xd401, 0xc221);
    Double(66, 0xc221, 0x608);
    Double(132, 0x608, 0xc049);
    Double(264, 0xc049, 0xd861);
    DoubleAndOne(528, 0xd861, 0xce41);
  }

  lemma Power4681()
    ensures Shifts(ONE, 4681) == 0x8c69
  {
    hide Shifts;
    X();
    Double(1, 0x4000, 0x2000);
    Double(2, 0x2000, 0x800);
    DoubleAndOne(4, 0x800, 0x40);
    Double(9, 0x40, 0xd801);
    Double(18, 0xd801, 0xc281);
    DoubleAndOne(36, 0xc281, 0x3004);
    Double(73, 0x3004, 0xca19);
    Double(146, 0xca19, 0xc169);
    DoubleAndOne(292, 0xc169, 0xf31);
    Double(585, 0xf31, 0x672b);
    Double(1170, 0x672b, 0x8e4c);
    DoubleAndOne(2340, 0x8e4c, 0x8c69);
  }

  lemma Power32767()
    ensures Shifts(ONE, 32767) == 0x8000
  {
    hide Shifts;
    X();
    DoubleAndOne(1, 0x4000, 0x1000);
    DoubleAndOne(3, 0x1000, 0x100);
    DoubleAndOne(7, 0x100, 0x1);
    DoubleAndOne(15, 0x1, 0x9001);
    DoubleAndOne(31, 0x9001, 0xd101);
    DoubleAndOne(63, 0xd101, 0xc100);
    DoubleAndOne(127, 0xc100, 0x5001);
    DoubleAndOne(255, 0x5001, 0x8101);
    DoubleAndOne(511, 0x8101, 0xd000);
    DoubleAndOne(1023, 0xd000, 0x5100);
    DoubleAndOne(2047, 0x5100, 0x1101);
    DoubleAndOne(4095, 0x1101, 0x9100);
    DoubleAndOne(8191, 0x9100, 0x4101);
    DoubleAndOne(16383, 0x4101, 0x8000);
  }

  // ---- the order ----

  predicate Returns(n: nat) { Shifts(ONE, n) == ONE }

  lemma ReturnsAdd(a: nat, b: nat)
    requires Returns(a)
    ensures Returns(a + b) <==> Returns(b)
  {
    hide Shifts;
    ShiftsAdd(ONE, a, b);
  }

  lemma {:induction false} ReturnsMultiple(a: nat, k: nat)
    requires Returns(a)
    ensures Returns(a * k)
  {
    if k == 0 {
      assert a * k == 0;
    } else {
      ReturnsMultiple(a, k - 1);
      ReturnsAdd(a, a * (k - 1));
      assert a + a * (k - 1) == a * k;
    }
  }

  /** The prime factors of 32767. */
  predicate PrimeFactor(p: nat) { p == 7 || p == 31 || p == 151 }

  lemma NoSmallFactor(p: nat, a: nat, b: nat)
    requires PrimeFactor(p) && 2 <= a <= 12 && 2 <= b
    ensures a * b != p
  {
    if a == 2 {} else if a == 3 {} else if a == 4 {} else if a == 5 {} else if a == 6 {}
    else if a == 7 {} else if a == 8 {} else if a == 9 {} else if a == 10 {} else if a == 11 {}
    else { assert a == 12; }
  }

  lemma NoDivisor(p: nat, s: nat)
    requires PrimeFactor(p) && 2 <= s < p
    ensures p % s != 0
  {
    var q := p / s;
    if p % s == 0 {
      assert s * q == p;
      if s <= 12 {
        NoSmallFactor(p, s, q);
      } else {
        assert s * q >= 13 * q;
        NoSmallFactor(p, q, s);
      }
    }
  }

  /** Euclid on the multiples of m: if p is prime, m*p and m*s return and 0 < s < p, then m returns. */
  lemma {:induction false} Descend(p: nat, m: nat, s: nat)
    requires PrimeFactor(p)
    requires Returns(m * p) && Returns(m * s) && 0 < s < p
    ensures Returns(m)
    decreases s
  {
    hide Returns;
    if s == 1 {
      assert m * s == m;
    } else {
      NoDivisor(p, s);
      var k, t := p / s, p % s;
      ReturnsMultiple(m * s, k);
      Regroup(m, s, k, t, p);
      ReturnsAdd(m * s * k, m * t);
      Descend(p, m, t);
    }
  }

  lemma Regroup(m: nat, s: nat, k: nat, t: nat, p: nat)
    requires p == s * k + t
    ensures m * p == m * s * k + m * t
  {
    assert m * p == m * (s * k) + m * t;
  }

  lemma PrimeDivides(p: nat, m: nat, d: nat)
    requires PrimeFactor(p)
    requires Returns(m * p) && !Returns(m) && Returns(d)
    ensures d % p == 0
  {
    hide Returns;
    var k, s := d / p, d % p;
    if s != 0 {
      ReturnsMultiple(d, m);
      ReturnsMultiple(m * p, k);
      Regroup(m, p, k, s, d);
      assert d * m == m * d;
      ReturnsAdd(m * p * k, m * s);
      Descend(p, m, s);
    }
  }

  lemma ByPrimes(d: nat)
    requires d % 7 == 0 && d % 31 == 0 && d % 151 == 0
    ensures d % 32767 == 0
  {
    var a, b, e := d / 7, d / 31, d / 151;
    assert a == 31 * (9 * b - 2 * a);
    var c := 9 * b - 2 * a;
    assert d == 217 * c;
    assert c == 151 * (23 * c - 16 * e);
    assert d == 32767 * (23 * c - 16 * e);
  }

  /** x^n is 1 modulo the CRC polynomial exactly for the multiples of 32767. */
  lemma OrderIs32767(n: nat)
    ensures Returns(n) <==> n % 32767 == 0
  {
    assert !Returns(4681) && !Returns(1057) && !Returns(217) && Returns(32767) by {
      Power217(); Power1057(); Power4681(); Power32767();
    }
    hide Returns;
    if Returns(n) {
      assert 4681 * 7 == 1057 * 31 == 217 * 151 == 32767;
      PrimeDivides(7, 4681, n);
      PrimeDivides(31, 1057, n);
      PrimeDivides(151, 217, n);
      ByPrimes(n);
    }
    if n % 32767 == 0 {
      ReturnsMultiple(32767, n / 32767);
    }
  }

  // ---- two flipped bits ----

  lemma OneReturns(d: nat)
    ensures Shifts(1, d) == 1 <==> d % 32767 == 0
  {
    hide Shifts;
    HalvingOne();
    ShiftsAdd(ONE, 15, d);
    ShiftsAdd(ONE, d, 15);
    ShiftsInjective(Shifts(ONE, d), ONE, 15);
    OrderIs32767(d);
  }

  predicate ExactlyAt(e: seq<bool>, i: nat, j: nat) {
    i < j < |e| && forall k :: 0 <= k < |e| ==> (e[k] <==> k == i || k == j)
  }

  lemma PairSyndrome(e: seq<bool>, i: nat, j: nat)
    requires ExactlyAt(e, i, j)
    ensures Register(0, e) == 0 <==> (j - i) % 32767 == 0
  {
    hide Shift, Shifts, Register, Feed, Xor;
    RegisterFirst(e, i);
    var d := j - i;
    var tail := e[i + 1..];
    var quiet, rest := tail[..d - 1], tail[d..];
    assert tail == quiet + ([true] + rest);
    RegisterConcat(Shift(1), quiet, [true] + rest);
    RegisterQuiet(Shift(1), quiet);
    ShiftsHead(1, d);
    var c := Shifts(1, d);
    RegisterHead(c, [true] + rest);
    var f := Feed(c, true);
    RegisterQuiet(f, rest);
    ShiftsKernel(f, |rest|);
    FeedSet(c);
    OneReturns(d);
    assert Quiet(quiet) && Quiet(rest);
    assert ([true] + rest)[1..] == rest;
  }

  lemma FeedSet(c: bv16)
    ensures Feed(c, true) == 0 <==> c == 1
  {
    hide Shift, Xor;
    ShiftKernel(Xor(c, 1));
    XorZero(c, 1);
  }

  /** Flipping exactly two bits of an accepted frame, of any length, is missed exactly when the two
      bits are a multiple of 32767 apart. */
  lemma DoubleErrorExact(frame: seq<bv8>, bad: seq<bv8>, i: nat, j: nat)
    requires Accepted(frame) && |bad| == |frame|
    requires ExactlyAt(Diff(Bits(frame), Bits(bad)), i, j)
    ensures Accepted(bad) <==> (j - i) % 32767 == 0
  {
    hide Accepted, Bits, Register;
    CorruptedAccepted(frame, bad);
    PairSyndrome(Diff(Bits(frame), Bits(bad)), i, j);
  }

  /** No frame of at most 4095 bytes, so no Modbus frame (256 bytes), can hide a two-bit error. */
  lemma DoubleErrorDetected(frame: seq<bv8>, bad: seq<bv8>, i: nat, j: nat)
    requires Accepted(frame) && |bad| == |frame| <= 4095
    requires ExactlyAt(Diff(Bits(frame), Bits(bad)), i, j)
    ensures !Accepted(bad)
  {
    hide Accepted;
    DoubleErrorExact(frame, bad, i, j);
    assert 0 < j - i < 32767;
  }
}
