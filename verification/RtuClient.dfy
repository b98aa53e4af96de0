/** The Modbus RTU client: CRC over a buffer, reassembly of short reads, one request and one reply.
    The serial line is an oracle: for each request it says whether the write was complete and what
    select and read then report, in order. */
module RtuClient {
  import opened Crc16
  import opened CrcPolynomial
  import opened WireNumbers
  import opened RtuCodec

  const OK := 0
  const ERR_ARG := -1
  const ERR_NOT_OPEN := -2
  const ERR_TRANSPORT := -3
  const ERR_TIMEOUT := -4
  const ERR_FRAME := -5
  const ERR_CRC := -6

  /** One wait-then-read. An empty chunk is a read that returned nothing or failed. */
  datatype PortEvent = Timeout | SelectFailed | Chunk(bytes: seq<bv8>)

  /** Nothing arrives after the listed events. */
  datatype Exchange = Exchange(written: bool, events: seq<PortEvent>)

  function Flows(events: seq<PortEvent>): bool {
    |events| > 0 && events[0].Chunk? && |events[0].bytes| > 0
  }

  /** The bytes that arrive before the first timeout or failure. */
  function Incoming(events: seq<PortEvent>): seq<bv8> {
    if !Flows(events) then [] else events[0].bytes + Incoming(events[1..])
  }

  predicate EndsInTimeout(events: seq<PortEvent>) {
    if Flows(events) then EndsInTimeout(events[1..]) else |events| == 0 || events[0].Timeout?
  }

  predicate Exceptional(code: bv8) { code & 0x80 != 0 }

  /** What do_transaction returns for an expected reply length. */
  function TransactionCode(unit: bv8, ex: Exchange, length: nat): int
    requires length >= 5
  {
    var bytes := Incoming(ex.events);
    if !ex.written then ERR_TRANSPORT
    else if |bytes| < length then (if EndsInTimeout(ex.events) then ERR_TIMEOUT else ERR_TRANSPORT)
    else if !Accepted(bytes[..length]) then ERR_CRC
    else if bytes[0] != unit then ERR_FRAME
    else if Exceptional(bytes[1]) then Nat8(bytes[2])
    else OK
  }

  function ReadCode(open: bool, unit: bv8, qty: nat, ex: Exchange): int {
    if qty == 0 || qty > MAX_READ then ERR_ARG
    else if !open then ERR_NOT_OPEN
    else
      var code, bytes := TransactionCode(unit, ex, 5 + 2 * qty), Incoming(ex.events);
      if code == OK && (bytes[1] != FC_READ_HOLDING || bytes[2] != U8(2 * qty)) then ERR_FRAME else code
  }

  /** The registers an accepted read delivers. */
  function ReadValues(qty: nat, ex: Exchange): (regs: seq<bv16>)
    requires |Incoming(ex.events)| >= 5 + 2 * qty
    ensures |regs| == qty
  {
    Registers(Incoming(ex.events)[3..3 + 2 * qty])
  }

  function WriteCode(open: bool, unit: bv8, fc: bv8, ex: Exchange): int {
    if !open then ERR_NOT_OPEN
    else
      var code := TransactionCode(unit, ex, 8);
      if code == OK && Incoming(ex.events)[1] != fc then ERR_FRAME else code
  }

  // ---- buffers ----

  lemma CrcExtends(data: seq<bv8>, b: bv8)
    ensures Crc(data + [b]) == Shifts(Xor(Crc(data), Wide(b)), 8)
  {
    hide Register, ByteBits, Xor, Shifts;
    BitsConcat(data, [b]);
    BitsOne(b);
    RegisterConcat(INIT, Bits(data), ByteBits(b));
    ByteStep(Crc(data), b);
  }

  /** The nested in-place loops compute the remainder of the frame's bit string with its first sixteen bits
      complemented (zeros stand in for the bits of a shorter string). */
  method ComputeCrc16(data: array<bv8>, length: nat) returns (crc: bv16)
    requires length <= data.Length
    ensures crc == Crc(data[..length])
    ensures var b := Bits(data[..length]);
            IsRemainder(seq(|b| + 16, i requires 0 <= i < |b| + 16 => (i < 16) != (i < |b| && b[i])),
                        WordBits(crc, 16))
  {
    hide Xor, Half, Odd, Shift, Wide, Crc, WordBits, IsRemainder, Bits;
    crc := INIT;
    EmptyCrc();
    assert data[..0] == [];
    for i := 0 to length
      invariant crc == Crc(data[..i])
    {
      crc := Xor(crc, Wide(data[i]));
      ghost var mixed := crc;
      for bit := 0 to 8
        invariant crc == Shifts(mixed, bit)
      {
        ShiftCases(crc);
        if Odd(crc) {
          crc := Xor(Half(crc), REFLECTED_POLY);
        } else {
          crc := Half(crc);
        }
      }
      CrcExtends(data[..i], data[i]);
      assert data[..i + 1] == data[..i] + [data[i]];
    }
    RemainderOfFrame(data[..length]);
  }

  lemma EmptyCrc()
    ensures Crc([]) == INIT
  {}

  lemma RemainderOfFrame(data: seq<bv8>)
    ensures var b := Bits(data);
            IsRemainder(seq(|b| + 16, i requires 0 <= i < |b| + 16 => (i < 16) != (i < |b| && b[i])),
                        WordBits(Crc(data), 16))
  {
    hide Bits, WordBits, IsRemainder, Register;
    InitialComplement(Bits(data));
    RegisterIsRemainder(0xFFFF, Bits(data), WordBits(Crc(data), 16));
  }

  method AppendByte(buf: array<bv8>, pos: nat, b: bv8) returns (next: nat)
    requires pos < buf.Length
    modifies buf
    ensures next == pos + 1 && buf[..next] == old(buf[..pos]) + [b]
  {
    buf[pos] := b;
    next := pos + 1;
  }

  method AppendUint16Be(buf: array<bv8>, pos: nat, value: bv16) returns (next: nat)
    requires pos + 2 <= buf.Length
    modifies buf
    ensures next == pos + 2 && buf[..next] == old(buf[..pos]) + Be(value)
  {
    hide High, Low;
    buf[pos] := High(value);
    buf[pos + 1] := Low(value);
    next := pos + 2;
  }

  method AppendCrc(buf: array<bv8>, pos: nat) returns (next: nat)
    requires pos + 2 <= buf.Length
    modifies buf
    ensures next == pos + 2 && buf[..next] == WithCrc(old(buf[..pos]))
  {
    hide High, Low, Crc, WordBits, IsRemainder;
    var crc := ComputeCrc16(buf, pos);
    buf[pos] := Low(crc);
    buf[pos + 1] := High(crc);
    next := pos + 2;
  }

  method VerifyResponseCrc(buf: array<bv8>, length: nat) returns (ok: bool)
    requires length <= buf.Length
    ensures ok == Accepted(buf[..length])
    ensures length >= 2 ==> (ok <==> Crc(buf[..length]) == 0)
  {
    hide Word, Crc, WordBits, IsRemainder;
    if length < 2 {
      return false;
    }
    var computed := ComputeCrc16(buf, length - 2);
    ok := computed == Word(buf[length - 2], buf[length - 1]);
    assert buf[..length][..length - 2] == buf[..length - 2];
    AcceptedIsZeroCrc(buf[..length]);
  }

  lemma NextEvent(events: seq<PortEvent>, e: nat)
    requires e < |events|
    ensures Flows(events[e..]) ==> Incoming(events[e..]) == events[e].bytes + Incoming(events[e + 1..])
    ensures Flows(events[e..]) ==> EndsInTimeout(events[e..]) == EndsInTimeout(events[e + 1..])
    ensures !Flows(events[e..]) ==> Incoming(events[e..]) == []
    ensures !Flows(events[e..]) ==> EndsInTimeout(events[e..]) == events[e].Timeout?
  {
    assert events[e..][1..] == events[e + 1..];
  }

  method Receive(buf: array<bv8>, at: nat, chunk: seq<bv8>)
    requires at + |chunk| <= buf.Length
    modifies buf
    ensures buf[..at + |chunk|] == old(buf[..at]) + chunk
  {
    forall k | 0 <= k < |chunk| {
      buf[at + k] := chunk[k];
    }
  }

  /** Collects exactly n bytes however the line fragments them: the result depends only on the bytes
      that arrive before the line goes quiet or fails. */
  method ReadExact(buf: array<bv8>, n: nat, events: seq<PortEvent>) returns (result: int)
    requires 0 < n <= buf.Length
    modifies buf
    ensures |Incoming(events)| >= n ==> result == n && buf[..n] == Incoming(events)[..n]
    ensures |Incoming(events)| < n ==> result == if EndsInTimeout(events) then 0 else -1
  {
    var received, e := 0, 0;
    ghost var bytes := Incoming(events);
    assert events[0..] == events;
    while received < n
      invariant received <= n && e <= |events|
      invariant received < n ==> bytes == buf[..received] + Incoming(events[e..])
      invariant received < n ==> EndsInTimeout(events) == EndsInTimeout(events[e..])
      invariant received == n ==> |bytes| >= n && buf[..n] == bytes[..n]
      decreases |events| - e
    {
      if e == |events| {
        return 0;
      }
      NextEvent(events, e);
      hide Incoming, EndsInTimeout;
      if events[e].Timeout? {
        return 0;
      }
      if events[e].SelectFailed? || |events[e].bytes| == 0 {
        return -1;
      }
      var chunk := events[e].bytes;
      var got := if |chunk| <= n - received then |chunk| else n - received;
      Receive(buf, received, chunk[..got]);
      received := received + got;
      e := e + 1;
    }
    return received;
  }

  // ---- requests ----

  method BuildFixed(buf: array<bv8>, unit: bv8, code: bv8, addr: bv16, word: bv16) returns (n: nat)
    requires buf.Length >= 8
    modifies buf
    ensures n == 8 && buf[..n] == WithCrc([unit, code] + Be(addr) + Be(word))
  {
    hide Be, WithCrc;
    n := AppendByte(buf, 0, unit);
    n := AppendByte(buf, n, code);
    n := AppendUint16Be(buf, n, addr);
    n := AppendUint16Be(buf, n, word);
    assert buf[..n] == [unit, code] + Be(addr) + Be(word);
    n := AppendCrc(buf, n);
  }

  method AppendAll(buf: array<bv8>, pos: nat, values: seq<bv16>) returns (n: nat)
    requires pos + 2 * |values| <= buf.Length
    modifies buf
    ensures n == pos + 2 * |values| && buf[..n] == old(buf[..pos]) + BeAll(values)
  {
    hide Be;
    n := pos;
    for i := 0 to |values|
      invariant n == pos + 2 * i && buf[..n] == old(buf[..pos]) + BeAll(values[..i])
    {
      n := AppendUint16Be(buf, n, values[i]);
      assert values[..i + 1][..i] == values[..i];
    }
    assert values[..|values|] == values;
  }

  method BuildMultiple(buf: array<bv8>, unit: bv8, addr: bv16, values: seq<bv16>) returns (n: nat)
    requires buf.Length >= MAX_ADU && 1 <= |values| <= MAX_WRITE
    modifies buf
    ensures n == 9 + 2 * |values| && buf[..n] == Encode(WriteMultiple(unit, addr, values))
  {
    hide Be, BeAll, WithCrc, U16, U8, Encode;
    var qty := |values|;
    n := AppendByte(buf, 0, unit);
    n := AppendByte(buf, n, FC_WRITE_MULTIPLE);
    n := AppendUint16Be(buf, n, addr);
    n := AppendUint16Be(buf, n, U16(qty));
    ghost var head := [unit, FC_WRITE_MULTIPLE] + Be(addr) + Be(U16(qty));
    assert buf[..n] == head;
    n := AppendByte(buf, n, U8(qty * 2));
    n := AppendAll(buf, n, values);
    assert buf[..n] == head + [U8(2 * qty)] + BeAll(values);
    MultipleBody(unit, addr, values);
    n := AppendCrc(buf, n);
  }

  lemma MultipleBody(unit: bv8, addr: bv16, values: seq<bv16>)
    requires 1 <= |values| <= MAX_WRITE
    ensures Encode(WriteMultiple(unit, addr, values))
         == WithCrc([unit, FC_WRITE_MULTIPLE] + Be(addr) + Be(U16(|values|)) + [U8(2 * |values|)] + BeAll(values))
  {}

  class Client {
    var fd: int
    var unit: bv8

    constructor ()
      ensures fd == -1
    {
      fd := -1;
      unit := 0;
    }

    predicate IsOpen()
      reads this
    {
      fd >= 0
    }

    method Connect(unitId: bv8, openedFd: int, configured: bool) returns (result: int)
      modifies this
      ensures result == 0 <==> openedFd >= 0 && configured
      ensures unit == unitId && (IsOpen() <==> result == 0) && (result == 0 || result == -1)
    {
      unit := unitId;
      fd := openedFd;
      if fd < 0 {
        return -1;
      }
      if !configured {
        fd := -1;
        return -1;
      }
      return 0;
    }

    method Disconnect()
      modifies this
      ensures !IsOpen() && unit == old(unit)
    {
      if fd >= 0 {
        fd := -1;
      }
    }

    method DoTransaction(resp: array<bv8>, length: nat, ex: Exchange) returns (code: int)
      requires 5 <= length <= resp.Length
      modifies resp
      ensures code == TransactionCode(unit, ex, length)
      ensures code == OK ==> |Incoming(ex.events)| >= length
      ensures code == OK ==> forall k :: 0 <= k < length ==> resp[k] == Incoming(ex.events)[k]
    {
      hide Accepted, Exceptional, Nat8;
      if !ex.written {
        return ERR_TRANSPORT;
      }
      var received := ReadExact(resp, length, ex.events);
      if received == 0 {
        return ERR_TIMEOUT;
      }
      if received < 0 {
        return ERR_TRANSPORT;
      }
      ghost var bytes := Incoming(ex.events);
      forall k | 0 <= k < length ensures resp[k] == bytes[k] {
        assert resp[..length][k] == bytes[..length][k];
      }
      var valid := VerifyResponseCrc(resp, length);
      if !valid {
        return ERR_CRC;
      }
      if resp[0] != unit {
        return ERR_FRAME;
      }
      if Exceptional(resp[1]) {
        return Nat8(resp[2]);
      }
      return OK;
    }

    /** FC03. The frames handed to the serial port are returned in sent. */
    method ReadHoldingRegisters(addr: bv16, qty: nat, out: array<bv16>, ex: Exchange)
      returns (code: int, sent: seq<seq<bv8>>)
      requires 1 <= qty <= MAX_READ ==> qty <= out.Length
      modifies out
      ensures code == ReadCode(IsOpen(), unit, qty, ex)
      ensures code == OK ==> out[..qty] == ReadValues(qty, ex) && out[qty..] == old(out[qty..])
      ensures code != OK ==> out[..] == old(out[..])
      ensures sent == if IsOpen() && 1 <= qty <= MAX_READ then [Encode(ReadHolding(unit, addr, qty))] else []
    {
      hide TransactionCode, Incoming, Be, WithCrc, U16, U8, ReadValues, Registers;
      ghost var bytes := Incoming(ex.events);
      if qty == 0 || qty > MAX_READ {
        return ERR_ARG, [];
      }
      if fd < 0 {
        return ERR_NOT_OPEN, [];
      }
      var req := new bv8[MAX_ADU];
      var n := BuildFixed(req, unit, FC_READ_HOLDING, addr, U16(qty));
      sent := [req[..n]];
      assert sent == [Encode(ReadHolding(unit, addr, qty))];
      hide Encode;

      var length := 5 + qty * 2;
      var resp := new bv8[MAX_ADU];
      code := DoTransaction(resp, length, ex);
      if code == OK {
        if resp[1] != FC_READ_HOLDING || resp[2] != U8(qty * 2) {
          code := ERR_FRAME;
        } else {
          assert resp[3..3 + 2 * qty] == bytes[3..3 + 2 * qty];
          CopyRegisters(resp, qty, out);
          DeliveredValues(qty, ex);
        }
      }
    }

    method ProbeDevice(addr: bv16, qty: nat, ex: Exchange) returns (code: int, sent: seq<seq<bv8>>)
      ensures code == ReadCode(IsOpen(), unit, qty, ex)
      ensures sent == if IsOpen() && 1 <= qty <= MAX_READ then [Encode(ReadHolding(unit, addr, qty))] else []
    {
      hide ReadCode, ReadValues, Encode;
      var probe := new bv16[MAX_READ];
      if qty == 0 || qty > MAX_READ {
        ProbeRange(IsOpen(), unit, qty, ex);
        return ERR_ARG, [];
      }
      code, sent := ReadHoldingRegisters(addr, qty, probe, ex);
    }

    /** FC06. */
    method WriteSingleRegister(addr: bv16, value: bv16, ex: Exchange) returns (code: int, sent: seq<seq<bv8>>)
      ensures code == WriteCode(IsOpen(), unit, FC_WRITE_SINGLE, ex)
      ensures sent == if IsOpen() then [Encode(WriteSingle(unit, addr, value))] else []
    {
      hide TransactionCode, Incoming, Be, WithCrc;
      if fd < 0 {
        return ERR_NOT_OPEN, [];
      }
      var req := new bv8[MAX_ADU];
      var n := BuildFixed(req, unit, FC_WRITE_SINGLE, addr, value);
      sent := [req[..n]];

      var resp := new bv8[MAX_ADU];
      code := DoTransaction(resp, n, ex);
      if code == OK {
        if resp[1] != FC_WRITE_SINGLE {
          code := ERR_FRAME;
        }
      }
    }

    /** FC16. */
    method WriteMultipleRegisters(addr: bv16, values: seq<bv16>, ex: Exchange) returns (code: int, sent: seq<seq<bv8>>)
      ensures code == if 1 <= |values| <= MAX_WRITE then WriteCode(IsOpen(), unit, FC_WRITE_MULTIPLE, ex) else ERR_ARG
      ensures sent == if IsOpen() && 1 <= |values| <= MAX_WRITE then [Encode(WriteMultiple(unit, addr, values))] else []
    {
      hide TransactionCode, Incoming, Be, WithCrc, U16, U8;
      var qty := |values|;
      if qty == 0 || qty > MAX_WRITE {
        return ERR_ARG, [];
      }
      if fd < 0 {
        return ERR_NOT_OPEN, [];
      }
      var req := new bv8[MAX_ADU];
      var n := BuildMultiple(req, unit, addr, values);
      sent := [req[..n]];

      var resp := new bv8[MAX_ADU];
      code := DoTransaction(resp, 8, ex);
      if code == OK {
        if resp[1] != FC_WRITE_MULTIPLE {
          code := ERR_FRAME;
        }
      }
    }
  }

  lemma ProbeRange(open: bool, unit: bv8, qty: nat, ex: Exchange)
    requires qty == 0 || qty > MAX_READ
    ensures ReadCode(open, unit, qty, ex) == ERR_ARG
  {}

  lemma DeliveredValues(qty: nat, ex: Exchange)
    requires |Incoming(ex.events)| >= 5 + 2 * qty
    ensures ReadValues(qty, ex) == Registers(Incoming(ex.events)[3..3 + 2 * qty])
  {}

  method CopyRegisters(resp: array<bv8>, qty: nat, out: array<bv16>)
    requires 3 + 2 * qty <= resp.Length && qty <= out.Length
    modifies out
    ensures out[..qty] == Registers(resp[3..3 + 2 * qty]) && out[qty..] == old(out[qty..])
  {
    hide Word;
    for i := 0 to qty
      invariant forall k :: 0 <= k < i ==> out[k] == Word(resp[3 + 2 * k + 1], resp[3 + 2 * k])
      invariant out[qty..] == old(out[qty..])
    {
      out[i] := Word(resp[3 + i * 2 + 1], resp[3 + i * 2]);
    }
  }
}
