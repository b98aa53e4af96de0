/** The bit-serial register computes polynomial division over GF(2): its content is the one remainder
    modulo x^16 + x^15 + x^2 + 1. A polynomial is its coefficient string, leading coefficient first. */
module CrcPolynomial {
  import opened Crc16
  import opened CrcErrors

  const GENERATOR: seq<bool> :=
    [true, true, false, false, false, false, false, false, false,
     false, false, false, false, false, true, false, true]

  function Zeros(n: nat): (z: seq<bool>)
    ensures |z| == n && Quiet(z)
  {
    seq(n, _ => false)
  }

  function Scale(b: bool, g: seq<bool>): (p: seq<bool>)
    ensures |p| == |g|
  {
    if b then g else Zeros(|g|)
  }

  /** Schoolbook product: one shifted copy of g for each set coefficient of q; Diff is the sum. */
  function Times(q: seq<bool>, g: seq<bool>): (p: seq<bool>)
    requires |g| >= 1
    ensures |p| == |q| + |g| - 1
  {
    if |q| == 0 then Zeros(|g| - 1)
    else
      var n := |q| - 1;
      Diff(Times(q[..n], g) + [false], Zeros(n) + Scale(q[n], g))
  }

  /** M(x) * x^16 with the initial register value added to its sixteen leading coefficients. */
  function Dividend(c: bv16, bits: seq<bool>): (d: seq<bool>)
    ensures |d| == |bits| + 16
  {
    Diff(bits + Zeros(16), WordBits(c, 16) + Zeros(|bits|))
  }

  ghost predicate IsRemainder(d: seq<bool>, r: seq<bool>) {
    |d| >= 16 && |r| == 16 &&
    exists q :: |q| == |d| - 16 && d == Diff(Times(q, GENERATOR), Zeros(|d| - 16) + r)
  }

  /** From 0xFFFF the sixteen leading coefficients of M(x) * x^16 are complemented. */
  lemma InitialComplement(bits: seq<bool>)
    ensures Dividend(0xFFFF, bits) ==
            seq(|bits| + 16, i requires 0 <= i < |bits| + 16 => (i < 16) != (i < |bits| && bits[i]))
  {
    AllOnes();
    hide WordBits;
  }

  lemma AllOnes()
    ensures forall i :: 0 <= i < 16 ==> WordBits(0xFFFF, 16)[i]
  {
    NibbleBits(0xFFFF, 12);
    NibbleBits(0x0FFF, 8);
    NibbleBits(0x00FF, 4);
    NibbleBits(0x000F, 0);
  }

  function Quotient(c: bv16, bits: seq<bool>): (q: seq<bool>)
    ensures |q| == |bits|
  {
    if |bits| == 0 then []
    else
      var n := |bits| - 1;
      Quotient(c, bits[..n]) + [Odd(Register(c, bits[..n])) != bits[n]]
  }

  // ---- one step of the register, coefficient by coefficient ----

  lemma {:induction false} WordBitsXor(a: bv16, b: bv16, n: nat)
    ensures WordBits(Xor(a, b), n) == Diff(WordBits(a, n), WordBits(b, n))
    decreases n
  {
    hide Xor, Odd, Half;
    if n > 0 {
      XorOddHalf(a, b);
      WordBitsXor(Half(a), Half(b), n - 1);
    }
  }

  lemma {:induction false} WordBitsMore(w: bv16, n: nat)
    ensures WordBits(w, n + 1) == WordBits(w, n) + [Odd(Drop(w, n))]
    decreases n
  {
    hide Odd, Half;
    if n > 0 {
      WordBitsMore(Half(w), n - 1);
      assert WordBits(w, n + 1) == [Odd(w)] + WordBits(Half(w), n);
    } else {
      assert WordBits(w, 1) == [Odd(w)] + WordBits(Half(w), 0);
    }
  }

  lemma HalfBits(w: bv16)
    ensures WordBits(Half(w), 16) == WordBits(w, 16)[1..] + [false]
  {
    WordBitsMore(w, 16);
    WordDrops(w);
    assert !Odd(0);
    hide Odd, Half, Drop;
    assert WordBits(w, 17) == [Odd(w)] + WordBits(Half(w), 16);
    assert WordBits(Half(w), 16) == WordBits(w, 17)[1..];
  }

  lemma ReflectedBits()
    ensures WordBits(REFLECTED_POLY, 16) == GENERATOR[1..]
  {
    var p := REFLECTED_POLY;
    NibbleBits(p, 12);
    NibbleBits(0x0A00, 8);
    NibbleBits(0x00A0, 4);
    NibbleBits(0x000A, 0);
  }

  lemma NibbleBits(w: bv16, n: nat)
    ensures WordBits(w, 4 + n)
         == [Odd(w), Odd(Half(w)), Odd(Half(Half(w))), Odd(Half(Half(Half(w))))] + WordBits(Half4(w), n)
  {
    HalfHalf(w);
    hide Odd, Half, Half4;
    var w1, w2, w3, rest := Half(w), Half(Half(w)), Half(Half(Half(w))), WordBits(Half4(w), n);
    assert WordBits(w3, 1 + n) == [Odd(w3)] + rest;
    assert WordBits(w2, 2 + n) == [Odd(w2)] + WordBits(w3, 1 + n);
    assert WordBits(w1, 3 + n) == [Odd(w1)] + WordBits(w2, 2 + n);
    assert WordBits(w, 4 + n) == [Odd(w)] + WordBits(w1, 3 + n);
    assert [Odd(w)] + ([Odd(w1)] + ([Odd(w2)] + ([Odd(w3)] + rest))) == [Odd(w), Odd(w1), Odd(w2), Odd(w3)] + rest;
  }

  lemma FeedForm(c: bv16, m: bool)
    ensures Feed(c, m) == Xor(Half(c), if Odd(c) != m then REFLECTED_POLY else 0)
  {
    XorZero(c, c);
    XorZero(Half(c), Half(c));
    ShiftCases(c);
    if m { ShiftOfFlip(c); }
    hide Xor, Shift, Half, Odd;
  }

  lemma ShiftOfFlip(c: bv16)
    ensures Shift(Xor(c, 1)) == if Odd(c) then Half(c) else Xor(Half(c), REFLECTED_POLY)
  {
    FlipLow(c);
    ShiftCases(Xor(c, 1));
    hide Xor, Shift, Half, Odd;
  }

  lemma ZeroBits()
    ensures WordBits(0, 16) == Zeros(16)
  {
    NibbleBits(0, 12);
    NibbleBits(0, 8);
    NibbleBits(0, 4);
    NibbleBits(0, 0);
  }

  lemma FeedBits(c: bv16, m: bool)
    ensures WordBits(Feed(c, m), 16)
         == Diff(WordBits(c, 16)[1..] + [false], Scale(Odd(c) != m, GENERATOR[1..]))
  {
    hide Feed, Xor, Half, Odd, WordBits;
    FeedForm(c, m);
    WordBitsXor(Half(c), if Odd(c) != m then REFLECTED_POLY else 0, 16);
    HalfBits(c);
    ReflectedBits();
    ZeroBits();
  }

  // ---- division ----

  lemma LeadingBit(c: bv16)
    ensures WordBits(c, 16)[0] == Odd(c)
  {}

  /** Dividing out one more coefficient. The five strings are the old and new product and remainder. */
  lemma DivisionStep(n: nat, m: bool, b: bool, t: seq<bool>, r: seq<bool>, r': seq<bool>)
    requires |t| == n + 16 && |r| == |r'| == 16
    requires b == (r[0] != m)
    requires r' == Diff(r[1..] + [false], Scale(b, GENERATOR[1..]))
    ensures Diff(Diff(t + [false], Zeros(n) + Scale(b, GENERATOR)), Zeros(n + 1) + r')
         == Diff(Diff(t, Zeros(n) + r) + [false], Zeros(n) + [m] + Zeros(16))
  {
    var left := Diff(Diff(t + [false], Zeros(n) + Scale(b, GENERATOR)), Zeros(n + 1) + r');
    var right := Diff(Diff(t, Zeros(n) + r) + [false], Zeros(n) + [m] + Zeros(16));
    forall i | 0 <= i < n + 17 ensures left[i] == right[i] {
      if i > n {
        assert r'[i - n - 1] == ((r[1..] + [false])[i - n - 1] != Scale(b, GENERATOR[1..])[i - n - 1]);
        assert Scale(b, GENERATOR[1..])[i - n - 1] == Scale(b, GENERATOR)[i - n];
      }
    }
  }

  lemma DividendStep(c: bv16, bits: seq<bool>)
    requires |bits| > 0
    ensures Dividend(c, bits) == Diff(Dividend(c, bits[..|bits| - 1]) + [false],
                                      Zeros(|bits| - 1) + [bits[|bits| - 1]] + Zeros(16))
  {
    hide WordBits;
    var n := |bits| - 1;
    var before, added := Dividend(c, bits[..n]) + [false], Zeros(n) + [bits[n]] + Zeros(16);
    forall i | 0 <= i < n + 17 ensures Dividend(c, bits)[i] == (before[i] != added[i]) {
      if i < n + 16 {
        assert Dividend(c, bits[..n])[i]
            == ((bits[..n] + Zeros(16))[i] != (WordBits(c, 16) + Zeros(n))[i]);
      }
    }
  }

  lemma {:induction false} Division(c: bv16, bits: seq<bool>)
    ensures Dividend(c, bits)
         == Diff(Times(Quotient(c, bits), GENERATOR), Zeros(|bits|) + WordBits(Register(c, bits), 16))
  {
    hide WordBits, Feed, Odd;
    if |bits| == 0 {
      assert Quotient(c, bits) == [];
      assert Dividend(c, bits) == WordBits(c, 16);
    } else {
      var n := |bits| - 1;
      var q := Quotient(c, bits[..n]);
      var w := Register(c, bits[..n]);
      var b := Odd(w) != bits[n];
      Division(c, bits[..n]);
      DividendStep(c, bits);
      FeedBits(w, bits[n]);
      LeadingBit(w);
      DivisionStep(n, bits[n], b, Times(q, GENERATOR), WordBits(w, 16), WordBits(Feed(w, bits[n]), 16));
      assert Quotient(c, bits)[..n] == q;
    }
  }

  lemma TimesUnfolds(q: seq<bool>, g: seq<bool>)
    requires |q| > 0 && |g| >= 1
    ensures Times(q, g) == Diff(Times(q[..|q| - 1], g) + [false], Zeros(|q| - 1) + Scale(q[|q| - 1], g))
  {}

  lemma LeadingProduct(q: seq<bool>, g: seq<bool>, i: nat)
    requires i < |q| && |g| > 1 && g[0]
    ensures Times(q, g)[i] == (Times(q[..|q| - 1], g)[i] != (i == |q| - 1 && q[i]))
  {
    TimesUnfolds(q, g);
    hide Times;
    var n := |q| - 1;
    var t, s := Times(q[..n], g) + [false], Zeros(n) + Scale(q[n], g);
    assert Diff(t, s)[i] == (t[i] != s[i]);
    assert t[i] == Times(q[..n], g)[i];
    assert i == n ==> s[i] == Scale(q[n], g)[0];
  }

  lemma {:induction false} QuotientUnique(q: seq<bool>, q2: seq<bool>)
    requires |q| == |q2|
    requires forall i :: 0 <= i < |q| ==> Times(q, GENERATOR)[i] == Times(q2, GENERATOR)[i]
    ensures q == q2
  {
    hide Times;
    if |q| == 0 {
      assert q == [] == q2;
    } else {
      var n := |q| - 1;
      forall i | 0 <= i < n ensures Times(q[..n], GENERATOR)[i] == Times(q2[..n], GENERATOR)[i] {
        LeadingProduct(q, GENERATOR, i);
        LeadingProduct(q2, GENERATOR, i);
      }
      QuotientUnique(q[..n], q2[..n]);
      LeadingProduct(q, GENERATOR, n);
      LeadingProduct(q2, GENERATOR, n);
      assert Times(q, GENERATOR)[n] == Times(q2, GENERATOR)[n];
      assert q == q[..n] + [q[n]] && q2 == q2[..n] + [q2[n]];
    }
  }

  /** The register is the remainder, and the remainder is unique: a string is a remainder of the
      dividend modulo the generator exactly when it is the register's content. */
  lemma RegisterIsRemainder(c: bv16, bits: seq<bool>, r: seq<bool>)
    ensures IsRemainder(Dividend(c, bits), r) <==> r == WordBits(Register(c, bits), 16)
  {
    hide WordBits, Register, Dividend;
    var d, n, s := Dividend(c, bits), |bits|, WordBits(Register(c, bits), 16);
    var q := Quotient(c, bits);
    Division(c, bits);
    assert IsRemainder(d, s);
    if IsRemainder(d, r) {
      var q2 :| |q2| == n && d == Diff(Times(q2, GENERATOR), Zeros(n) + r);
      SameDividend(q, q2, s, r, d);
    }
  }

  lemma SameDividend(q: seq<bool>, q2: seq<bool>, s: seq<bool>, r: seq<bool>, d: seq<bool>)
    requires |s| == |r| == 16 && |q| == |q2|
    requires d == Diff(Times(q, GENERATOR), Zeros(|q|) + s)
    requires d == Diff(Times(q2, GENERATOR), Zeros(|q|) + r)
    ensures s == r
  {
    var n, t, t2 := |q|, Times(q, GENERATOR), Times(q2, GENERATOR);
    hide Times;
    forall i | 0 <= i < n ensures t[i] == t2[i] {
      assert d[i] == t[i] && d[i] == t2[i];
    }
    QuotientUnique(q, q2);
    forall i | 0 <= i < 16 ensures s[i] == r[i] {
      assert d[n + i] == (t[n + i] != s[i]) && d[n + i] == (t[n + i] != r[i]);
    }
  }

  // ---- the burst bound is exact ----

  lemma GeneratorSyndrome(i: nat, k: nat)
    ensures Register(0, Zeros(i) + GENERATOR + Zeros(k)) == 0
  {
    var g := Zeros(i) + GENERATOR + Zeros(k);
    assert g[..i] == Zeros(i) && g[i] && g[i + 1..] == GENERATOR[1..] + Zeros(k);
    RegisterFirst(g, i);
    ReflectedBits();
    ShiftOfOne();
    hide Xor, Shift, Shifts, Register, WordBits, Drop;
    var p := REFLECTED_POLY;
    RegisterConcat(p, WordBits(p, 16), Zeros(k));
    Absorb(p, p, 16);
    WordDrops(p);
    XorZero(p, p);
    XorZero(Register(p, WordBits(p, 16)), 0);
    ShiftsKernel(0, 16);
    RegisterQuiet(0, Zeros(k));
    ShiftsKernel(0, k);
  }

  lemma ShiftOfOne()
    ensures Shift(1) == REFLECTED_POLY
  {}

  /** The generator at bit i, and nothing else. */
  function Placed(i: nat, k: nat): (g: seq<bool>)
    ensures |g| == i + 17 + k && g[i..i + 17] == GENERATOR
  {
    Zeros(i) + GENERATOR + Zeros(k)
  }

  lemma PlacedBits(i: nat, k: nat, b: nat)
    requires b < i + 17 + k && Placed(i, k)[b]
    ensures i <= b < i + 17
  {}

  lemma PlacedFirst(i: nat, k: nat)
    ensures Placed(i, k)[i]
  {
    assert Placed(i, k)[i] == Placed(i, k)[i..i + 17][0];
  }

  /** What is left after adding the generator starts later and is caught as a short burst. */
  lemma LeftOver(e: seq<bool>, i: nat, k: nat)
    requires |e| == i + 17 + k && e[i] && Confined(e, i, 17) && e != Placed(i, k)
    ensures Register(0, Diff(e, Placed(i, k))) != 0
  {
    var d := Diff(e, Placed(i, k));
    PlacedFirst(i, k);
    forall b | 0 <= b < |d| && d[b] ensures i < b < i + 17 {
      if Placed(i, k)[b] { PlacedBits(i, k, b); }
    }
    hide Register, Placed;
    if Quiet(d) {
      QuietDiff(e, Placed(i, k));
    } else {
      var j := FirstSet(d);
      BurstSyndrome(d, j);
    }
  }

  lemma WindowSyndrome(e: seq<bool>, i: nat, k: nat)
    requires |e| == i + 17 + k && e[i] && Confined(e, i, 17)
    ensures Register(0, e) == 0 <==> e[i..i + 17] == GENERATOR
  {
    var g := Placed(i, k);
    GeneratorSyndrome(i, k);
    assert Register(0, g) == 0;
    hide Register, Xor;
    if e != g {
      LeftOver(e, i, k);
      forall b | 0 <= b < |e| && e[b] != g[b] ensures i <= b < i + 17 {
        if g[b] { PlacedBits(i, k, b); }
      }
      OutsideWindow(e, g, i);
      RegisterLinear(0, 0, e, g);
      XorZero(0, 0);
      XorZero(Register(0, e), 0);
    }
  }

  /** Among the errors that start at bit i and span at most 17 bits exactly one is missed: the generator
      itself. So the 16-bit burst bound cannot be raised. */
  lemma SeventeenBitBurst(frame: seq<bv8>, bad: seq<bv8>, i: nat)
    requires Accepted(frame) && |bad| == |frame| && i < 8 * |frame|
    requires Diff(Bits(frame), Bits(bad))[i] && Confined(Diff(Bits(frame), Bits(bad)), i, 17)
    ensures Accepted(bad) <==>
            i + 17 <= 8 * |frame| && Diff(Bits(frame), Bits(bad))[i..i + 17] == GENERATOR
  {
    hide Accepted, Bits, Register;
    var e := Diff(Bits(frame), Bits(bad));
    CorruptedAccepted(frame, bad);
    if i + 17 > |e| {
      BurstSyndrome(e, i);
    } else {
      WindowSyndrome(e, i, |e| - i - 17);
    }
  }

  lemma OutsideWindow(e: seq<bool>, g: seq<bool>, i: nat)
    requires |e| == |g| && i + 17 <= |e| && e != g
    requires forall b :: 0 <= b < |e| && e[b] != g[b] ==> i <= b < i + 17
    ensures e[i..i + 17] != g[i..i + 17]
  {
    if e[i..i + 17] == g[i..i + 17] {
      forall b | 0 <= b < |e| ensures e[b] == g[b] {
        if i <= b < i + 17 { assert e[b] == e[i..i + 17][b - i] && g[b] == g[i..i + 17][b - i]; }
      }
    }
  }
}
