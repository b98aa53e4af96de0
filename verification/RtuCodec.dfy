/** Modbus RTU frames: what the client puts on the wire, and how a server reads it back under
    sections 6.3, 6.6 and 6.12 of MODBUS Application Protocol V1.1b3. */
module RtuCodec {
  import opened Options
  import opened Crc16
  import opened WireNumbers

  const FC_READ_HOLDING: bv8 := 0x03
  const FC_WRITE_SINGLE: bv8 := 0x06
  const FC_WRITE_MULTIPLE: bv8 := 0x10
  const MAX_READ := 125
  const MAX_WRITE := 123
  const MAX_ADU := 256

  datatype Request =
    | ReadHolding(unit: bv8, addr: bv16, qty: nat)
    | WriteSingle(unit: bv8, addr: bv16, value: bv16)
    | WriteMultiple(unit: bv8, addr: bv16, values: seq<bv16>)
  {
    predicate Valid() {
      match this
      case ReadHolding(_, _, qty) => 1 <= qty <= MAX_READ
      case WriteSingle(_, _, _) => true
      case WriteMultiple(_, _, values) => 1 <= |values| <= MAX_WRITE
    }
  }

  function Be(v: bv16): (bytes: seq<bv8>)
    ensures |bytes| == 2
  {
    [High(v), Low(v)]
  }

  function BeAll(vs: seq<bv16>): (bytes: seq<bv8>)
    ensures |bytes| == 2 * |vs|
  {
    if |vs| == 0 then [] else BeAll(vs[..|vs| - 1]) + Be(vs[|vs| - 1])
  }

  function Registers(bytes: seq<bv8>): (vs: seq<bv16>)
    ensures |vs| == |bytes| / 2
  {
    seq(|bytes| / 2, i requires 0 <= i < |bytes| / 2 => Word(bytes[2 * i + 1], bytes[2 * i]))
  }

  function Body(r: Request): (bytes: seq<bv8>)
    requires r.Valid()
    ensures 6 <= |bytes| <= 253
  {
    match r
    case ReadHolding(unit, addr, qty) => [unit, FC_READ_HOLDING] + Be(addr) + Be(U16(qty))
    case WriteSingle(unit, addr, value) => [unit, FC_WRITE_SINGLE] + Be(addr) + Be(value)
    case WriteMultiple(unit, addr, values) =>
      [unit, FC_WRITE_MULTIPLE] + Be(addr) + Be(U16(|values|)) + [U8(2 * |values|)] + BeAll(values)
  }

  /** The frame transmitted for a request. */
  function Encode(r: Request): (frame: seq<bv8>)
    requires r.Valid()
    ensures 8 <= |frame| <= 255
  {
    WithCrc(Body(r))
  }

  function Field(frame: seq<bv8>, at: nat): bv16
    requires at + 1 < |frame|
  {
    Word(frame[at + 1], frame[at])
  }

  /** The server's side: discard a frame with a bad CRC, a wrong length, a quantity out of range or
      a byte count that is not twice the quantity. */
  function Decode(frame: seq<bv8>): Option<Request> {
    if |frame| < 8 || !Accepted(frame) then None
    else
      var unit, addr, word := frame[0], Field(frame, 2), Field(frame, 4);
      var n := Nat16(word);
      if frame[1] == FC_READ_HOLDING then
        if |frame| == 8 && 1 <= n <= MAX_READ then Some(ReadHolding(unit, addr, n)) else None
      else if frame[1] == FC_WRITE_SINGLE then
        if |frame| == 8 then Some(WriteSingle(unit, addr, word)) else None
      else if frame[1] == FC_WRITE_MULTIPLE then
        if 1 <= n <= MAX_WRITE && |frame| == 9 + 2 * n && Nat8(frame[6]) == 2 * n
        then Some(WriteMultiple(unit, addr, Registers(frame[7..|frame| - 2])))
        else None
      else None
  }

  function ReadHead(unit: bv8, qty: nat): (bytes: seq<bv8>)
    ensures |bytes| == 3
  {
    [unit, FC_READ_HOLDING, U8(2 * qty)]
  }

  /** The reply of unit to a read of these registers. */
  function ReadReply(unit: bv8, regs: seq<bv16>): (frame: seq<bv8>)
    requires |regs| <= MAX_READ
    ensures |frame| == 5 + 2 * |regs|
  {
    WithCrc(ReadHead(unit, |regs|) + BeAll(regs))
  }

  // ---- registers and bytes ----

  lemma {:induction false} BeAllAt(vs: seq<bv16>, i: nat)
    requires i < |vs|
    ensures BeAll(vs)[2 * i] == High(vs[i]) && BeAll(vs)[2 * i + 1] == Low(vs[i])
  {
    hide High, Low;
    if i < |vs| - 1 { BeAllAt(vs[..|vs| - 1], i); }
  }

  lemma RegistersOfBeAll(vs: seq<bv16>)
    ensures Registers(BeAll(vs)) == vs
  {
    hide High, Low, Word, BeAll;
    forall i | 0 <= i < |vs| ensures Registers(BeAll(vs))[i] == vs[i] {
      BeAllAt(vs, i);
      WordHalves(vs[i], 0, 0);
    }
  }

  lemma BeAllOfRegisters(bytes: seq<bv8>)
    requires |bytes| % 2 == 0
    ensures BeAll(Registers(bytes)) == bytes
  {
    hide High, Low, Word, BeAll;
    var vs := Registers(bytes);
    forall k | 0 <= k < |bytes| ensures BeAll(vs)[k] == bytes[k] {
      var i := k / 2;
      BeAllAt(vs, i);
      WordHalves(0, bytes[2 * i + 1], bytes[2 * i]);
    }
  }

  lemma WithCrcIsAccepted(data: seq<bv8>)
    ensures Accepted(WithCrc(data))
  {
    hide Accepted;
    WithCrcAccepted(data, Low(Crc(data)), High(Crc(data)));
  }

  lemma AcceptedIsWithCrc(frame: seq<bv8>)
    requires Accepted(frame)
    ensures frame == WithCrc(frame[..|frame| - 2])
  {
    var n := |frame| - 2;
    assert frame == frame[..n] + [frame[n], frame[n + 1]];
    hide Crc;
    WithCrcAccepted(frame[..n], frame[n], frame[n + 1]);
  }

  // ---- round trips ----

  lemma FieldOfBe(frame: seq<bv8>, at: nat, v: bv16)
    requires at + 1 < |frame| && frame[at] == Be(v)[0] && frame[at + 1] == Be(v)[1]
    ensures Field(frame, at) == v
  {
    WordHalves(v, 0, 0);
  }

  lemma DecodeRead(r: Request)
    requires r.Valid() && r.ReadHolding?
    ensures Decode(Encode(r)) == Some(r)
  {
    WithCrcIsAccepted(Body(r));
    hide Accepted, Be, Field, Crc, U16, Nat16, Low, High;
    var body, frame := Body(r), Encode(r);
    assert frame[..6] == body;
    HeadFields(frame, r.unit, FC_READ_HOLDING, r.addr, U16(r.qty));
    WordCount(r.qty);
  }

  lemma DecodeSingle(r: Request)
    requires r.Valid() && r.WriteSingle?
    ensures Decode(Encode(r)) == Some(r)
  {
    WithCrcIsAccepted(Body(r));
    hide Accepted, Be, Field, Crc, Low, High;
    var body, frame := Body(r), Encode(r);
    assert frame[..6] == body;
    HeadFields(frame, r.unit, FC_WRITE_SINGLE, r.addr, r.value);
  }

  lemma MultipleShape(r: Request)
    requires r.Valid() && r.WriteMultiple?
    ensures var frame, n := Encode(r), |r.values|;
            |frame| == 9 + 2 * n
            && frame[..6] == [r.unit, FC_WRITE_MULTIPLE] + Be(r.addr) + Be(U16(n))
            && frame[6] == U8(2 * n) && frame[7..|frame| - 2] == BeAll(r.values)
  {
    hide Be, BeAll, Crc, U16, U8, Low, High;
    var n, body, frame := |r.values|, Body(r), Encode(r);
    var head := [r.unit, FC_WRITE_MULTIPLE] + Be(r.addr) + Be(U16(n));
    Sections(head, U8(2 * n), BeAll(r.values), frame[|body|..]);
    assert frame == body + frame[|body|..];
  }

  lemma EncodeAccepted(r: Request)
    requires r.Valid()
    ensures Accepted(Encode(r))
  {
    WithCrcIsAccepted(Body(r));
  }

  lemma DecodeAsMultiple(frame: seq<bv8>, n: nat)
    requires 1 <= n <= MAX_WRITE && |frame| == 9 + 2 * n && Accepted(frame)
    requires frame[1] == FC_WRITE_MULTIPLE && Nat16(Field(frame, 4)) == n && Nat8(frame[6]) == 2 * n
    ensures Decode(frame) == Some(WriteMultiple(frame[0], Field(frame, 2), Registers(frame[7..|frame| - 2])))
  {
    hide Accepted, Field, Nat16, Nat8, Registers;
  }

  lemma DecodeMultiple(r: Request)
    requires r.Valid() && r.WriteMultiple?
    ensures Decode(Encode(r)) == Some(r)
  {
    EncodeAccepted(r);
    MultipleShape(r);
    hide Decode, Accepted, Be, BeAll, Field, Encode, U16, U8, Nat16, Nat8, Registers;
    var n, frame := |r.values|, Encode(r);
    HeadFields(frame, r.unit, FC_WRITE_MULTIPLE, r.addr, U16(n));
    WordCount(n);
    ByteCount(2 * n);
    RegistersOfBeAll(r.values);
    DecodeAsMultiple(frame, n);
  }

  lemma Sections(head: seq<bv8>, count: bv8, data: seq<bv8>, tail: seq<bv8>)
    ensures var frame, n := head + [count] + data + tail, |head|;
            frame[..n] == head && frame[n] == count && frame[n + 1..n + 1 + |data|] == data
  {}

  lemma HeadFields(frame: seq<bv8>, unit: bv8, code: bv8, addr: bv16, word: bv16)
    requires |frame| >= 6 && frame[..6] == [unit, code] + Be(addr) + Be(word)
    ensures frame[0] == unit && frame[1] == code && Field(frame, 2) == addr && Field(frame, 4) == word
  {
    hide Be, Field;
    var head := [unit, code] + Be(addr) + Be(word);
    assert forall k :: 0 <= k < 6 ==> frame[k] == head[k];
    FieldOfBe(frame, 2, addr);
    FieldOfBe(frame, 4, word);
  }

  /** A server recovers unit, address, count and values from every request the client builds. */
  lemma EncodeThenDecode(r: Request)
    requires r.Valid()
    ensures Decode(Encode(r)) == Some(r)
  {
    hide Decode, Encode;
    match r
    case ReadHolding(_, _, _) => DecodeRead(r);
    case WriteSingle(_, _, _) => DecodeSingle(r);
    case WriteMultiple(_, _, _) => DecodeMultiple(r);
  }

  lemma FrameFields(frame: seq<bv8>)
    requires |frame| >= 8
    ensures [frame[0], frame[1]] + Be(Field(frame, 2)) + Be(Field(frame, 4)) == frame[..6]
  {
    hide High, Low, Word;
    WordHalves(0, frame[3], frame[2]);
    WordHalves(0, frame[5], frame[4]);
  }

  lemma BodyOfDecoded(frame: seq<bv8>)
    requires Decode(frame).Some?
    ensures Decode(frame).value.Valid() && Body(Decode(frame).value) == frame[..|frame| - 2]
  {
    hide Accepted, Be, BeAll, Field, U16, U8, Nat16, Nat8, Registers;
    FrameFields(frame);
    var n := |frame| - 2;
    CountWord(Field(frame, 4));
    CountByte(frame[6]);
    if frame[1] == FC_WRITE_MULTIPLE {
      BeAllOfRegisters(frame[7..n]);
      assert frame[..n] == frame[..6] + [frame[6]] + frame[7..n];
    } else {
      assert frame[..n] == frame[..6];
    }
  }

  /** The encoding is canonical: a frame a server understands is the encoding of what it decodes to. */
  lemma DecodeThenEncode(frame: seq<bv8>)
    requires Decode(frame).Some?
    ensures Decode(frame).value.Valid() && Encode(Decode(frame).value) == frame
  {
    BodyOfDecoded(frame);
    AcceptedIsWithCrc(frame);
  }

  /** A reply's registers are determined by its bytes. */
  lemma ReadReplyInjective(unit: bv8, regs: seq<bv16>, regs2: seq<bv16>)
    requires |regs| == |regs2| <= MAX_READ && ReadReply(unit, regs) == ReadReply(unit, regs2)
    ensures regs == regs2
  {
    hide BeAll, Crc, ReadHead;
    assert BeAll(regs) == ReadReply(unit, regs)[3..3 + 2 * |regs|];
    assert BeAll(regs2) == ReadReply(unit, regs2)[3..3 + 2 * |regs|];
    RegistersOfBeAll(regs);
    RegistersOfBeAll(regs2);
  }
}
