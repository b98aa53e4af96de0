/** The frames byte by byte, in plain numbers, and the example messages of the standard. */
module RtuLayout {
  import opened Crc16
  import opened WireNumbers
  import opened RtuCodec
  import opened RtuClient

  // ---- every frame, as numbers ----

  /** Two bytes of a frame read as a number, high byte first. */
  function Number(frame: seq<bv8>, at: nat): nat
    requires at + 1 < |frame|
  {
    256 * Nat8(frame[at]) + Nat8(frame[at + 1])
  }

  lemma NumberOfBe(frame: seq<bv8>, at: nat, v: bv16)
    requires at + 1 < |frame| && frame[at..at + 2] == Be(v)
    ensures Number(frame, at) == Nat16(v)
  {
    WordValue(v);
    hide High, Low, Nat8, Nat16;
    assert frame[at] == frame[at..at + 2][0] && frame[at + 1] == frame[at..at + 2][1];
  }

  lemma HeadNumbers(frame: seq<bv8>, unit: bv8, code: bv8, addr: bv16, word: bv16)
    requires |frame| >= 6 && frame[..6] == [unit, code] + Be(addr) + Be(word)
    ensures frame[0] == unit && frame[1] == code && Number(frame, 2) == Nat16(addr) && Number(frame, 4) == Nat16(word)
  {
    hide Be, Number, Nat16;
    var head := [unit, code] + Be(addr) + Be(word);
    assert frame[0] == head[0] && frame[1] == head[1];
    assert frame[2..4] == head[2..4] == Be(addr) && frame[4..6] == head[4..6] == Be(word);
    NumberOfBe(frame, 2, addr);
    NumberOfBe(frame, 4, word);
  }

  lemma {:induction false} NumbersOfBeAll(vs: seq<bv16>, i: nat)
    requires i < |vs|
    ensures Number(BeAll(vs), 2 * i) == Nat16(vs[i])
  {
    BeAllAt(vs, i);
    WordValue(vs[i]);
    hide High, Low, Nat8, Nat16, BeAll;
  }

  /** A request on the wire: unit, function code 3, 6 or 16, address, then quantity or value, high bytes
      first; a write of several registers adds the byte count and the registers. */
  lemma RequestLayout(r: Request)
    requires r.Valid()
    ensures var frame := Encode(r);
            && frame[0] == r.unit && Number(frame, 2) == Nat16(r.addr)
            && match r
               case ReadHolding(_, _, qty) => |frame| == 8 && frame[1] == 0x03 && Number(frame, 4) == qty
               case WriteSingle(_, _, value) => |frame| == 8 && frame[1] == 0x06 && Number(frame, 4) == Nat16(value)
               case WriteMultiple(_, _, values) =>
                 && |frame| == 9 + 2 * |values| && frame[1] == 0x10 && Number(frame, 4) == |values|
                 && Nat8(frame[6]) == 2 * |values|
                 && forall i :: 0 <= i < |values| ==> Number(frame, 7 + 2 * i) == Nat16(values[i])
  {
    hide Be, BeAll, U16, U8, Nat16, Nat8, Crc, Low, High, Number;
    var frame := Encode(r);
    match r
    case ReadHolding(unit, addr, qty) =>
      assert frame[..6] == Body(r);
      HeadNumbers(frame, unit, FC_READ_HOLDING, addr, U16(qty));
      WordCount(qty);
    case WriteSingle(unit, addr, value) =>
      assert frame[..6] == Body(r);
      HeadNumbers(frame, unit, FC_WRITE_SINGLE, addr, value);
    case WriteMultiple(unit, addr, values) =>
      MultipleShape(r);
      hide Encode;
      HeadNumbers(frame, unit, FC_WRITE_MULTIPLE, addr, U16(|values|));
      WordCount(|values|);
      ByteCount(2 * |values|);
      forall i | 0 <= i < |values| ensures Number(frame, 7 + 2 * i) == Nat16(values[i]) {
        NumbersOfBeAll(values, i);
        SameNumber(frame, 7, BeAll(values), 2 * i);
      }
  }

  lemma SameNumber(frame: seq<bv8>, from: nat, part: seq<bv8>, at: nat)
    requires from + |part| <= |frame| && frame[from..from + |part|] == part && at + 1 < |part|
    ensures Number(frame, from + at) == Number(part, at)
  {
    assert frame[from + at] == part[at] && frame[from + at + 1] == part[at + 1];
  }

  /** The reply to a read: unit, function code 3, byte count, registers with high bytes first. */
  lemma ReplyLayout(unit: bv8, regs: seq<bv16>)
    requires |regs| <= MAX_READ
    ensures var frame := ReadReply(unit, regs);
            && |frame| == 5 + 2 * |regs| && frame[0] == unit && frame[1] == 0x03 && Nat8(frame[2]) == 2 * |regs|
            && forall i :: 0 <= i < |regs| ==> Number(frame, 3 + 2 * i) == Nat16(regs[i])
  {
    hide BeAll, U8, Nat8, Nat16, Crc, Low, High, Number;
    var frame := ReadReply(unit, regs);
    ByteCount(2 * |regs|);
    assert frame[3..3 + 2 * |regs|] == BeAll(regs);
    hide ReadReply;
    forall i | 0 <= i < |regs| ensures Number(frame, 3 + 2 * i) == Nat16(regs[i]) {
      NumbersOfBeAll(regs, i);
      SameNumber(frame, 3, BeAll(regs), 2 * i);
    }
  }

  // ---- CRCs of given bytes ----

  /** A byte xored in and eight shifts. */
  function Absorbed(c: bv16, b: bv8): bv16 {
    Shift(Shift(Shift(Shift(Shift(Shift(Shift(Shift(Xor(c, Wide(b))))))))))
  }

  lemma EightShifts(x: bv16)
    ensures Shifts(x, 8) == Shift(Shift(Shift(Shift(Shift(Shift(Shift(Shift(x))))))))
  {
    hide Shift;
    assert Shifts(x, 2) == Shift(Shift(Shifts(x, 0)));
    assert Shifts(x, 4) == Shift(Shift(Shifts(x, 2)));
    assert Shifts(x, 6) == Shift(Shift(Shifts(x, 4)));
  }

  lemma Absorb(data: seq<bv8>, b: bv8, longer: seq<bv8>, c: bv16, d: bv16)
    requires longer == data + [b] && Crc(data) == c && Absorbed(c, b) == d
    ensures Crc(longer) == d
  {
    hide Crc, Shift, Xor, Wide;
    CrcExtends(data, b);
    EightShifts(Xor(c, Wide(b)));
  }

  /** A well-known request: its CRC is 0xCDC5, sent low byte first. */
  lemma KnownCrc()
    ensures Crc([0x01, 0x03, 0x00, 0x00, 0x00, 0x0A]) == 0xCDC5
    ensures Accepted([0x01, 0x03, 0x00, 0x00, 0x00, 0x0A, 0xC5, 0xCD])
  {
    TenRegistersCrc();
    LowHigh(0xCDC5);
    hide Crc, Low, High;
    var data: seq<bv8> := [0x01, 0x03, 0x00, 0x00, 0x00, 0x0A];
    assert data + [0xC5, 0xCD] == [0x01, 0x03, 0x00, 0x00, 0x00, 0x0A, 0xC5, 0xCD];
    WithCrcAccepted(data, 0xC5, 0xCD);
  }

  lemma TenRegistersCrc()
    ensures Crc([0x01, 0x03, 0x00, 0x00, 0x00, 0x0A]) == 0xCDC5
  {
    hide Crc;
    EmptyCrc();
    Absorb([], 0x01, [0x01], 0xFFFF, 0x807E);
    Absorb([0x01], 0x03, [0x01, 0x03], 0x807E, 0x2140);
    Absorb([0x01, 0x03], 0x00, [0x01, 0x03, 0x00], 0x2140, 0xF020);
    Absorb([0x01, 0x03, 0x00], 0x00, [0x01, 0x03, 0x00, 0x00], 0xF020, 0xD8F1);
    Absorb([0x01, 0x03, 0x00, 0x00], 0x00, [0x01, 0x03, 0x00, 0x00, 0x00], 0xD8F1, 0x8419);
    Absorb([0x01, 0x03, 0x00, 0x00, 0x00], 0x0A, [0x01, 0x03, 0x00, 0x00, 0x00, 0x0A], 0x8419, 0xCDC5);
  }

  lemma ReadRequestCrc()
    ensures Crc([0x11, 0x03, 0x00, 0x6B, 0x00, 0x03]) == 0x8776
  {
    hide Crc;
    EmptyCrc();
    Absorb([], 0x11, [0x11], 0xFFFF, 0x4C7F);
    Absorb([0x11], 0x03, [0x11, 0x03], 0x4C7F, 0xE14D);
    Absorb([0x11, 0x03], 0x00, [0x11, 0x03, 0x00], 0xE14D, 0x3521);
    Absorb([0x11, 0x03, 0x00], 0x6B, [0x11, 0x03, 0x00, 0x6B], 0x3521, 0xF7B4);
    Absorb([0x11, 0x03, 0x00, 0x6B], 0x00, [0x11, 0x03, 0x00, 0x6B, 0x00], 0xF7B4, 0x77F7);
    Absorb([0x11, 0x03, 0x00, 0x6B, 0x00], 0x03, [0x11, 0x03, 0x00, 0x6B, 0x00, 0x03], 0x77F7, 0x8776);
  }

  lemma ReadReplyCrc()
    ensures Crc([0x11, 0x03, 0x06, 0x02, 0x2B, 0x00, 0x00, 0x00, 0x64]) == 0xBAC8
  {
    hide Crc;
    EmptyCrc();
    Absorb([], 0x11, [0x11], 0xFFFF, 0x4C7F);
    Absorb([0x11], 0x03, [0x11, 0x03], 0x4C7F, 0xE14D);
    Absorb([0x11, 0x03], 0x06, [0x11, 0x03, 0x06], 0xE14D, 0x37A1);
    Absorb([0x11, 0x03, 0x06], 0x02, [0x11, 0x03, 0x06, 0x02], 0x37A1, 0x7977);
    Absorb([0x11, 0x03, 0x06, 0x02], 0x2B, [0x11, 0x03, 0x06, 0x02, 0x2B], 0x7977, 0x3979);
    Absorb([0x11, 0x03, 0x06, 0x02, 0x2B], 0x00, [0x11, 0x03, 0x06, 0x02, 0x2B, 0x00], 0x3979, 0xE2F8);
    Absorb([0x11, 0x03, 0x06, 0x02, 0x2B, 0x00], 0x00, [0x11, 0x03, 0x06, 0x02, 0x2B, 0x00, 0x00], 0xE2F8, 0x82E3);
    Absorb([0x11, 0x03, 0x06, 0x02, 0x2B, 0x00, 0x00],
           0x00, [0x11, 0x03, 0x06, 0x02, 0x2B, 0x00, 0x00, 0x00], 0x82E3, 0x89C3);
    Absorb([0x11, 0x03, 0x06, 0x02, 0x2B, 0x00, 0x00, 0x00],
           0x64, [0x11, 0x03, 0x06, 0x02, 0x2B, 0x00, 0x00, 0x00, 0x64], 0x89C3, 0xBAC8);
  }

  lemma WriteSingleCrc()
    ensures Crc([0x11, 0x06, 0x00, 0x01, 0x00, 0x03]) == 0x9B9A
  {
    hide Crc;
    EmptyCrc();
    Absorb([], 0x11, [0x11], 0xFFFF, 0x4C7F);
    Absorb([0x11], 0x06, [0x11, 0x06], 0x4C7F, 0xE28D);
    Absorb([0x11, 0x06], 0x00, [0x11, 0x06, 0x00], 0xE28D, 0x6522);
    Absorb([0x11, 0x06, 0x00], 0x01, [0x11, 0x06, 0x00, 0x01], 0x6522, 0xD924);
    Absorb([0x11, 0x06, 0x00, 0x01], 0x00, [0x11, 0x06, 0x00, 0x01, 0x00], 0xD924, 0x1BD9);
    Absorb([0x11, 0x06, 0x00, 0x01, 0x00], 0x03, [0x11, 0x06, 0x00, 0x01, 0x00, 0x03], 0x1BD9, 0x9B9A);
  }

  lemma WriteMultipleCrc()
    ensures Crc([0x11, 0x10, 0x00, 0x01, 0x00, 0x02, 0x04, 0x00, 0x0A, 0x01, 0x02]) == 0xF0C6
  {
    hide Crc;
    EmptyCrc();
    Absorb([], 0x11, [0x11], 0xFFFF, 0x4C7F);
    Absorb([0x11], 0x10, [0x11, 0x10], 0x4C7F, 0x2C0C);
    Absorb([0x11, 0x10], 0x00, [0x11, 0x10, 0x00], 0x2C0C, 0x052C);
    Absorb([0x11, 0x10, 0x00], 0x01, [0x11, 0x10, 0x00, 0x01], 0x052C, 0x1DC5);
    Absorb([0x11, 0x10, 0x00, 0x01], 0x00, [0x11, 0x10, 0x00, 0x01, 0x00], 0x1DC5, 0x53DD);
    Absorb([0x11, 0x10, 0x00, 0x01, 0x00], 0x02, [0x11, 0x10, 0x00, 0x01, 0x00, 0x02], 0x53DD, 0x9812);
    Absorb([0x11, 0x10, 0x00, 0x01, 0x00, 0x02], 0x04, [0x11, 0x10, 0x00, 0x01, 0x00, 0x02, 0x04], 0x9812, 0xCE19);
    Absorb([0x11, 0x10, 0x00, 0x01, 0x00, 0x02, 0x04],
           0x00, [0x11, 0x10, 0x00, 0x01, 0x00, 0x02, 0x04, 0x00], 0xCE19, 0xCA0F);
    Absorb([0x11, 0x10, 0x00, 0x01, 0x00, 0x02, 0x04, 0x00],
           0x0A, [0x11, 0x10, 0x00, 0x01, 0x00, 0x02, 0x04, 0x00, 0x0A], 0xCA0F, 0x030A);
    Absorb([0x11, 0x10, 0x00, 0x01, 0x00, 0x02, 0x04, 0x00, 0x0A],
           0x01, [0x11, 0x10, 0x00, 0x01, 0x00, 0x02, 0x04, 0x00, 0x0A, 0x01], 0x030A, 0xC742);
    Absorb([0x11, 0x10, 0x00, 0x01, 0x00, 0x02, 0x04, 0x00, 0x0A, 0x01],
           0x02, [0x11, 0x10, 0x00, 0x01, 0x00, 0x02, 0x04, 0x00, 0x0A, 0x01, 0x02], 0xC742, 0xF0C6);
  }

  // ---- the example messages of the standard, sent to unit 17 ----

  lemma LowHigh(c: bv16)
    ensures Low(c) == (c & 0xFF) as bv8 && High(c) == (c >> 8) as bv8
  {}

  lemma SmallCount(b: bv8, n: nat)
    requires Nat8(b) == n
    ensures U16(n) == Wide(b) && U8(n) == b
  {
    HighLowOfWide(b);
    ByteValue(0);
    WordValue(Wide(b));
    hide Nat8, Nat16, U16, U8, Low, High, Wide;
    CountWord(Wide(b));
    CountByte(b);
  }

  lemma Counts()
    ensures U16(2) == Wide(2) && U16(3) == Wide(3) && U8(4) == 4 && U8(6) == 6
  {
    hide U16, U8, Nat8, Wide;
    ByteValue(2);
    ByteValue(3);
    ByteValue(4);
    ByteValue(6);
    SmallCount(2, 2);
    SmallCount(3, 3);
    SmallCount(4, 4);
    SmallCount(6, 6);
  }

  lemma HighLowOfWide(b: bv8)
    ensures High(Wide(b)) == 0 && Low(Wide(b)) == b
  {}

  lemma Halves(w: bv16, high: bv8, low: bv8)
    requires High(w) == high && Low(w) == low
    ensures Be(w) == [high, low]
  {}

  /** Section 6.3: read registers 108 to 110. */
  lemma ReadExample()
    ensures Encode(ReadHolding(0x11, 0x006B, 3)) == [0x11, 0x03, 0x00, 0x6B, 0x00, 0x03, 0x76, 0x87]
  {
    ReadRequestCrc();
    LowHigh(0x8776);
    Counts();
    Halves(0x006B, 0x00, 0x6B);
    Halves(Wide(3), 0x00, 0x03);
    hide Crc, Low, High, Be, U16, Wide;
    assert Body(ReadHolding(0x11, 0x006B, 3)) == [0x11, 0x03, 0x00, 0x6B, 0x00, 0x03];
  }

  /** Its answer: registers 0x022B, 0 and 0x0064. */
  lemma ReadReplyExample()
    ensures ReadReply(0x11, [0x022B, 0x0000, 0x0064]) ==
            [0x11, 0x03, 0x06, 0x02, 0x2B, 0x00, 0x00, 0x00, 0x64, 0xC8, 0xBA]
  {
    ReadReplyCrc();
    LowHigh(0xBAC8);
    Counts();
    Halves(0x022B, 0x02, 0x2B);
    Halves(0x0000, 0x00, 0x00);
    Halves(0x0064, 0x00, 0x64);
    BytesOfThree(0x022B, 0x0000, 0x0064);
    hide Crc, Low, High, Be, U8, Wide, BeAll;
    assert ReadHead(0x11, 3) + BeAll([0x022B, 0x0000, 0x0064])
        == [0x11, 0x03, 0x06, 0x02, 0x2B, 0x00, 0x00, 0x00, 0x64];
  }

  lemma BytesOfTwo(a: bv16, b: bv16)
    ensures BeAll([a, b]) == Be(a) + Be(b)
  {
    hide Be;
    assert [a, b][..1] == [a] && [a][..0] == [];
    assert BeAll([a]) == BeAll([]) + Be(a);
  }

  lemma BytesOfThree(a: bv16, b: bv16, c: bv16)
    ensures BeAll([a, b, c]) == Be(a) + Be(b) + Be(c)
  {
    hide Be;
    BytesOfTwo(a, b);
    assert [a, b, c][..2] == [a, b];
  }

  /** Section 6.6: write 3 to register 2. */
  lemma WriteSingleExample()
    ensures Encode(WriteSingle(0x11, 0x0001, 0x0003)) == [0x11, 0x06, 0x00, 0x01, 0x00, 0x03, 0x9A, 0x9B]
  {
    WriteSingleCrc();
    LowHigh(0x9B9A);
    Halves(0x0001, 0x00, 0x01);
    Halves(0x0003, 0x00, 0x03);
    hide Crc, Low, High, Be;
    assert Body(WriteSingle(0x11, 0x0001, 0x0003)) == [0x11, 0x06, 0x00, 0x01, 0x00, 0x03];
  }

  /** Section 6.12: write 0x000A and 0x0102 to registers 2 and 3. */
  lemma WriteMultipleExample()
    ensures Encode(WriteMultiple(0x11, 0x0001, [0x000A, 0x0102])) ==
            [0x11, 0x10, 0x00, 0x01, 0x00, 0x02, 0x04, 0x00, 0x0A, 0x01, 0x02, 0xC6, 0xF0]
  {
    WriteMultipleCrc();
    LowHigh(0xF0C6);
    Counts();
    Halves(0x0001, 0x00, 0x01);
    Halves(Wide(2), 0x00, 0x02);
    Halves(0x000A, 0x00, 0x0A);
    Halves(0x0102, 0x01, 0x02);
    BytesOfTwo(0x000A, 0x0102);
    hide Crc, Low, High, Be, U16, U8, Wide, BeAll;
    assert Body(WriteMultiple(0x11, 0x0001, [0x000A, 0x0102])) ==
           [0x11, 0x10, 0x00, 0x01, 0x00, 0x02, 0x04, 0x00, 0x0A, 0x01, 0x02];
  }
}
