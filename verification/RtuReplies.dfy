/** Exactly which bytes on the line the client reports as success. */
module RtuReplies {
  import opened Crc16
  import opened CrcErrors
  import opened CrcOrder
  import opened WireNumbers
  import opened RtuCodec
  import opened RtuClient

  ghost predicate Answered(unit: bv8, qty: nat, ex: Exchange, regs: seq<bv16>)
    requires qty <= MAX_READ
  {
    ex.written && |regs| == qty && ReadReply(unit, regs) <= Incoming(ex.events)
  }

  lemma NotExceptional()
    ensures !Exceptional(FC_READ_HOLDING) && !Exceptional(FC_WRITE_SINGLE) && !Exceptional(FC_WRITE_MULTIPLE)
  {}

  lemma ReplyFrom(unit: bv8, qty: nat, bytes: seq<bv8>)
    requires qty <= MAX_READ && |bytes| >= 5 + 2 * qty && Accepted(bytes[..5 + 2 * qty])
    requires bytes[..3] == ReadHead(unit, qty)
    ensures ReadReply(unit, Registers(bytes[3..3 + 2 * qty])) <= bytes
  {
    hide Accepted, BeAll, ReadHead, Registers, WithCrc;
    var n := 3 + 2 * qty;
    var frame := bytes[..n + 2];
    AcceptedIsWithCrc(frame);
    BeAllOfRegisters(bytes[3..n]);
    assert frame[..n] == bytes[..3] + bytes[3..n];
    assert frame <= bytes;
  }

  lemma AcceptedReadIsReply(unit: bv8, qty: nat, ex: Exchange)
    requires ReadCode(true, unit, qty, ex) == OK
    ensures 1 <= qty <= MAX_READ && |Incoming(ex.events)| >= 5 + 2 * qty
    ensures Answered(unit, qty, ex, ReadValues(qty, ex))
  {
    NotZeroException(unit, ex, 5 + 2 * qty);
    hide Accepted, Incoming, BeAll, U8, Exceptional, Nat8, Registers, ReadReply;
    var bytes := Incoming(ex.events);
    assert bytes[..3] == [bytes[0], bytes[1], bytes[2]];
    ReplyFrom(unit, qty, bytes);
  }

  /** An exception frame passes as OK at the transaction level only with code byte 0; the function
      code check of every request then refuses it. */
  lemma NotZeroException(unit: bv8, ex: Exchange, length: nat)
    requires length >= 5 && TransactionCode(unit, ex, length) == OK
    ensures var bytes := Incoming(ex.events);
            ex.written && |bytes| >= length && Accepted(bytes[..length]) && bytes[0] == unit
            && (Exceptional(bytes[1]) ==> Nat8(bytes[2]) == 0)
  {
    hide Accepted, Incoming, Exceptional, Nat8;
  }

  lemma Parts<T>(head: seq<T>, data: seq<T>, rest: seq<T>, s: seq<T>, i: nat, k: nat)
    requires s == head + data + rest && i == |head| && k == i + |data|
    ensures s[..i] == head && s[i..k] == data
  {}

  lemma ReplyPrefix(unit: bv8, regs: seq<bv16>, bytes: seq<bv8>)
    requires |regs| <= MAX_READ && ReadReply(unit, regs) <= bytes
    ensures |bytes| >= 5 + 2 * |regs| && bytes[..5 + 2 * |regs|] == ReadReply(unit, regs)
  {
    hide ReadReply;
  }

  lemma Beginning<T>(a: seq<T>, b: seq<T>, s: seq<T>)
    requires a + b <= s
    ensures |a| <= |s| && s == a + s[|a|..]
  {}

  lemma ReplySplits(unit: bv8, regs: seq<bv16>, bytes: seq<bv8>)
    requires |regs| <= MAX_READ && ReadReply(unit, regs) <= bytes
    ensures exists rest :: bytes == ReadHead(unit, |regs|) + BeAll(regs) + rest
  {
    hide BeAll, Crc, Low, High, ReadHead;
    var data := ReadHead(unit, |regs|) + BeAll(regs);
    Beginning(data, [Low(Crc(data)), High(Crc(data))], bytes);
    hide ReadReply;
    assert bytes == ReadHead(unit, |regs|) + BeAll(regs) + bytes[|data|..];
  }

  lemma ReplyParts(unit: bv8, regs: seq<bv16>, bytes: seq<bv8>)
    requires |regs| <= MAX_READ && ReadReply(unit, regs) <= bytes
    ensures |bytes| >= 5 + 2 * |regs| && bytes[..5 + 2 * |regs|] == ReadReply(unit, regs)
    ensures bytes[..3] == ReadHead(unit, |regs|)
    ensures bytes[3..3 + 2 * |regs|] == BeAll(regs)
  {
    hide BeAll, ReadHead, ReadReply;
    ReplyPrefix(unit, regs, bytes);
    ReplySplits(unit, regs, bytes);
    var rest :| bytes == ReadHead(unit, |regs|) + BeAll(regs) + rest;
    Parts(ReadHead(unit, |regs|), BeAll(regs), rest, bytes, 3, 3 + 2 * |regs|);
  }

  lemma ReplyAccepted(unit: bv8, regs: seq<bv16>)
    requires |regs| <= MAX_READ
    ensures Accepted(ReadReply(unit, regs))
  {
    WithCrcIsAccepted(ReadHead(unit, |regs|) + BeAll(regs));
  }

  lemma TransactionOk(unit: bv8, ex: Exchange, length: nat)
    requires length >= 5 && ex.written && |Incoming(ex.events)| >= length
    requires Accepted(Incoming(ex.events)[..length])
    requires Incoming(ex.events)[0] == unit && !Exceptional(Incoming(ex.events)[1])
    ensures TransactionCode(unit, ex, length) == OK
  {
    hide Accepted, Incoming, Exceptional, Nat8;
  }

  lemma HeadOf(bytes: seq<bv8>, unit: bv8, code: bv8, count: bv8)
    requires |bytes| >= 3 && bytes[..3] == [unit, code, count]
    ensures bytes[0] == unit && bytes[1] == code && bytes[2] == count
  {
    assert bytes[0] == bytes[..3][0] && bytes[1] == bytes[..3][1] && bytes[2] == bytes[..3][2];
  }

  lemma ReadOk(unit: bv8, qty: nat, ex: Exchange)
    requires 1 <= qty <= MAX_READ && ex.written && |Incoming(ex.events)| >= 5 + 2 * qty
    requires Accepted(Incoming(ex.events)[..5 + 2 * qty])
    requires Incoming(ex.events)[..3] == ReadHead(unit, qty)
    ensures ReadCode(true, unit, qty, ex) == OK
  {
    NotExceptional();
    hide Accepted, Incoming, U8, Exceptional, TransactionCode;
    HeadOf(Incoming(ex.events), unit, FC_READ_HOLDING, U8(2 * qty));
    TransactionOk(unit, ex, 5 + 2 * qty);
  }

  lemma ReplyIsAccepted(unit: bv8, qty: nat, ex: Exchange, regs: seq<bv16>)
    requires 1 <= qty <= MAX_READ && Answered(unit, qty, ex, regs)
    ensures ReadCode(true, unit, qty, ex) == OK && |Incoming(ex.events)| >= 5 + 2 * qty
    ensures ReadValues(qty, ex) == regs
  {
    hide Accepted, Incoming, BeAll, U8, Registers, ReadReply, ReadCode;
    ReplyParts(unit, regs, Incoming(ex.events));
    ReplyAccepted(unit, regs);
    RegistersOfBeAll(regs);
    ReadOk(unit, qty, ex);
  }

  /** FC03 returns OK exactly when the arguments are in range, the port is open, the request went out
      and the bytes that arrive, however fragmented, begin with the reply encoding qty registers of
      this unit; those registers are then what it delivers. */
  lemma ReadAcceptsExactly(open: bool, unit: bv8, qty: nat, ex: Exchange)
    ensures ReadCode(open, unit, qty, ex) == 0 <==>
            1 <= qty <= 125 && open && exists regs :: Answered(unit, qty, ex, regs)
    ensures forall regs :: 1 <= qty <= 125 && Answered(unit, qty, ex, regs) ==>
            |Incoming(ex.events)| >= 5 + 2 * qty && ReadValues(qty, ex) == regs
  {
    hide ReadCode, Answered, ReadValues;
    ReadGuards(open, unit, qty, ex);
    if 1 <= qty <= MAX_READ && open {
      if ReadCode(true, unit, qty, ex) == OK {
        AcceptedReadIsReply(unit, qty, ex);
        assert Answered(unit, qty, ex, ReadValues(qty, ex));
      }
    }
    forall regs | 1 <= qty <= MAX_READ && Answered(unit, qty, ex, regs)
      ensures ReadCode(true, unit, qty, ex) == OK
      ensures |Incoming(ex.events)| >= 5 + 2 * qty && ReadValues(qty, ex) == regs
    {
      ReplyIsAccepted(unit, qty, ex, regs);
    }
  }

  lemma ReadGuards(open: bool, unit: bv8, qty: nat, ex: Exchange)
    ensures !(1 <= qty <= MAX_READ) ==> ReadCode(open, unit, qty, ex) == ERR_ARG
    ensures 1 <= qty <= MAX_READ && !open ==> ReadCode(open, unit, qty, ex) == ERR_NOT_OPEN
  {
    hide TransactionCode, Incoming, U8;
  }

  /** The error codes of a read: -1 for a bad count, -2 for a closed port, -3 when the line fails, -4 when it
      falls silent too early, -6 for a bad CRC, -5 for a good frame that is not this reply. */
  lemma ReadFailures(open: bool, unit: bv8, qty: nat, ex: Exchange)
    ensures var code, bytes, n := ReadCode(open, unit, qty, ex), Incoming(ex.events), 5 + 2 * qty;
            if !(1 <= qty <= 125) then code == -1
            else if !open then code == -2
            else if !ex.written then code == -3
            else if |bytes| < n then code == if EndsInTimeout(ex.events) then -4 else -3
            else if !Accepted(bytes[..n]) then code == -6
            else if bytes[0] != unit then code == -5
            else if bytes[1] & 0x80 != 0 then code == if Nat8(bytes[2]) == 0 then -5 else Nat8(bytes[2])
            else code == if bytes[1] == 0x03 && Nat8(bytes[2]) == 2 * qty then 0 else -5
  {
    NotExceptional();
    if 1 <= qty <= 125 {
      ByteCount(2 * qty);
      if |Incoming(ex.events)| >= 5 { CountByte(Incoming(ex.events)[2]); }
    }
    hide Accepted, Incoming, EndsInTimeout, Nat8, U8;
  }

  lemma WriteFailures(open: bool, unit: bv8, fc: bv8, ex: Exchange)
    requires fc == 0x06 || fc == 0x10
    ensures var code, bytes := WriteCode(open, unit, fc, ex), Incoming(ex.events);
            if !open then code == -2
            else if !ex.written then code == -3
            else if |bytes| < 8 then code == if EndsInTimeout(ex.events) then -4 else -3
            else if !Accepted(bytes[..8]) then code == -6
            else if bytes[0] != unit then code == -5
            else if bytes[1] & 0x80 != 0 then code == if Nat8(bytes[2]) == 0 then -5 else Nat8(bytes[2])
            else code == if bytes[1] == fc then 0 else -5
  {
    NotExceptional();
    hide Accepted, Incoming, EndsInTimeout, Nat8;
  }

  /** What arrives is what the nonempty chunks carry up to the first event that is not one; the line ends in
      a timeout when that event is one, or when nothing follows at all. */
  lemma {:induction false} FragmentsArrive(parts: seq<seq<bv8>>, rest: seq<PortEvent>)
    requires forall i :: 0 <= i < |parts| ==> |parts[i]| > 0
    requires |rest| > 0 ==> rest[0] in {Timeout, SelectFailed, Chunk([])}
    ensures var events := Chunks(parts) + rest;
            Incoming(events) == Joined(parts) && (EndsInTimeout(events) <==> rest == [] || rest[0] == Timeout)
  {
    if |parts| == 0 {
      assert Chunks(parts) + rest == rest;
    } else {
      FragmentsArrive(parts[1..], rest);
      var events := Chunks(parts) + rest;
      assert events[0] == Chunk(parts[0]) && events[1..] == Chunks(parts[1..]) + rest;
    }
  }

  function Chunks(parts: seq<seq<bv8>>): (events: seq<PortEvent>)
    ensures |events| == |parts|
  {
    seq(|parts|, i requires 0 <= i < |parts| => Chunk(parts[i]))
  }

  function Joined(parts: seq<seq<bv8>>): seq<bv8> {
    if |parts| == 0 then [] else parts[0] + Joined(parts[1..])
  }

  /** A reply frame with the exception bit set is never reported as OK, not even with code byte 0. */
  lemma ExceptionNeverOk(open: bool, unit: bv8, qty: nat, ex: Exchange)
    requires |Incoming(ex.events)| >= 2 && Exceptional(Incoming(ex.events)[1])
    ensures ReadCode(open, unit, qty, ex) != OK
  {
    NotExceptional();
    hide TransactionCode, Incoming, U8, Exceptional;
  }

  /** The documented positive return needs more than an exception frame: it is returned exactly when a full
      reply's worth of bytes arrives, CRC-valid and from this unit, whose exception bit is set and whose
      third byte is not zero. */
  lemma PositiveCode(open: bool, unit: bv8, qty: nat, ex: Exchange)
    ensures ReadCode(open, unit, qty, ex) > 0 <==>
            var bytes := Incoming(ex.events);
            1 <= qty <= MAX_READ && open && ex.written && |bytes| >= 5 + 2 * qty
            && Accepted(bytes[..5 + 2 * qty]) && bytes[0] == unit && Exceptional(bytes[1]) && Nat8(bytes[2]) > 0
  {
    hide Accepted, Incoming, Exceptional, Nat8, U8;
  }

  /** So the standard's five-byte exception reply to a read ends in a timeout. */
  lemma BareExceptionTimesOut(unit: bv8, qty: nat, ex: Exchange)
    requires 1 <= qty <= MAX_READ && ex.written && |Incoming(ex.events)| == 5 && EndsInTimeout(ex.events)
    ensures ReadCode(true, unit, qty, ex) == ERR_TIMEOUT
  {
    hide Incoming, EndsInTimeout, Accepted, Exceptional, Nat8, U8;
  }

  /** The same for FC06 and FC16, whose replies have eight bytes. */
  lemma PositiveWriteCode(open: bool, unit: bv8, fc: bv8, ex: Exchange)
    ensures WriteCode(open, unit, fc, ex) > 0 <==>
            var bytes := Incoming(ex.events);
            open && ex.written && |bytes| >= 8
            && Accepted(bytes[..8]) && bytes[0] == unit && Exceptional(bytes[1]) && Nat8(bytes[2]) > 0
  {
    hide Accepted, Incoming, Exceptional, Nat8;
  }

  lemma BareExceptionTimesOutOnWrite(unit: bv8, fc: bv8, ex: Exchange)
    requires ex.written && |Incoming(ex.events)| == 5 && EndsInTimeout(ex.events)
    ensures WriteCode(true, unit, fc, ex) == ERR_TIMEOUT
  {
    hide Incoming, EndsInTimeout, Accepted, Exceptional, Nat8;
  }

  /** The damage the CRC is proved to catch. */
  ghost predicate Damaged(good: seq<bv8>, got: seq<bv8>) {
    |good| == |got| && good != got &&
    var e := Diff(Bits(good), Bits(got));
    || (exists p: nat :: Confined(e, p, 16))
    || CountSet(e) % 2 == 1
    || (|good| <= 4095 && exists i: nat, j: nat :: ExactlyAt(e, i, j))
  }

  lemma DamageIsRejected(good: seq<bv8>, got: seq<bv8>)
    requires Accepted(good) && Damaged(good, got)
    ensures !Accepted(got)
  {
    hide Accepted, Bits, CountSet, Diff, ExactlyAt, Confined;
    var e := Diff(Bits(good), Bits(got));
    if CountSet(e) % 2 == 1 {
      OddErrorDetected(good, got);
    } else if i: nat, j: nat :| ExactlyAt(e, i, j) && |good| <= 4095 {
      DoubleErrorDetected(good, got, i, j);
    } else {
      var p: nat :| Confined(e, p, 16);
      BurstDetected(good, got, p);
    }
  }

  /** No register of a genuine reply is ever delivered from a copy damaged by a 16-bit burst, an odd
      number of flips or two flips: the read fails. */
  lemma DamagedReplyFails(open: bool, unit: bv8, qty: nat, ex: Exchange, regs: seq<bv16>)
    requires 1 <= qty <= MAX_READ && |regs| == qty && |Incoming(ex.events)| >= 5 + 2 * qty
    requires Damaged(ReadReply(unit, regs), Incoming(ex.events)[..5 + 2 * qty])
    ensures ReadCode(open, unit, qty, ex) != OK
  {
    ReplyAccepted(unit, regs);
    hide Damaged, Accepted, Incoming;
    DamageIsRejected(ReadReply(unit, regs), Incoming(ex.events)[..5 + 2 * qty]);
    RejectedReadFails(open, unit, qty, ex);
  }

  lemma RejectedReadFails(open: bool, unit: bv8, qty: nat, ex: Exchange)
    requires |Incoming(ex.events)| >= 5 + 2 * qty && !Accepted(Incoming(ex.events)[..5 + 2 * qty])
    ensures ReadCode(open, unit, qty, ex) != OK
  {
    hide Accepted, Incoming, U8, Nat8, Exceptional;
  }

  /** A write reports OK exactly when eight bytes arrive that are any CRC-valid frame of this unit with
      the request's function code. The echoed address and value are not compared. */
  lemma WriteAcceptsExactly(open: bool, unit: bv8, fc: bv8, ex: Exchange)
    requires fc == FC_WRITE_SINGLE || fc == FC_WRITE_MULTIPLE
    ensures WriteCode(open, unit, fc, ex) == OK <==>
            open && ex.written
            && exists addr, word :: WithCrc([unit, fc] + Be(addr) + Be(word)) <= Incoming(ex.events)
  {
    if WriteCode(open, unit, fc, ex) == OK {
      AcknowledgementForm(unit, fc, ex);
    }
    forall addr, word | open && ex.written && WithCrc([unit, fc] + Be(addr) + Be(word)) <= Incoming(ex.events)
      ensures WriteCode(open, unit, fc, ex) == OK
    {
      FormAcknowledges(unit, fc, ex, addr, word);
    }
  }

  lemma AcknowledgementForm(unit: bv8, fc: bv8, ex: Exchange)
    requires WriteCode(true, unit, fc, ex) == OK
    ensures ex.written && |Incoming(ex.events)| >= 8
    ensures WithCrc([unit, fc] + Be(Field(Incoming(ex.events), 2)) + Be(Field(Incoming(ex.events), 4)))
         <= Incoming(ex.events)
  {
    NotZeroException(unit, ex, 8);
    hide Accepted, Incoming, Be, Field, Exceptional, Nat8, Crc, Low, High;
    var bytes := Incoming(ex.events);
    FrameFields(bytes[..8]);
    AcceptedIsWithCrc(bytes[..8]);
    FieldOfPrefix(bytes, 2);
    FieldOfPrefix(bytes, 4);
    assert bytes[..8][..6] == bytes[..6];
  }

  lemma FieldOfPrefix(bytes: seq<bv8>, at: nat)
    requires at + 1 < 8 <= |bytes|
    ensures Field(bytes[..8], at) == Field(bytes, at)
  {}

  lemma FormAcknowledges(unit: bv8, fc: bv8, ex: Exchange, addr: bv16, word: bv16)
    requires fc == FC_WRITE_SINGLE || fc == FC_WRITE_MULTIPLE
    requires ex.written && WithCrc([unit, fc] + Be(addr) + Be(word)) <= Incoming(ex.events)
    ensures WriteCode(true, unit, fc, ex) == OK
  {
    NotExceptional();
    var data := [unit, fc] + Be(addr) + Be(word);
    WithCrcIsAccepted(data);
    hide Accepted, Incoming, Be, Exceptional, Crc, Low, High, TransactionCode;
    var bytes := Incoming(ex.events);
    assert bytes[..8] == WithCrc(data);
    assert bytes[0] == data[0] && bytes[1] == data[1];
    TransactionOk(unit, ex, 8);
  }

  /** The echo check of FC06 is weaker than the standard's: an acknowledgement for another register
      and value is accepted as well. */
  lemma ForeignEchoAccepted(unit: bv8, addr: bv16, value: bv16)
    ensures var other := Encode(WriteSingle(unit, addr, value));
            WriteCode(true, unit, FC_WRITE_SINGLE, Exchange(true, [Chunk(other)])) == OK
  {
    var other := Encode(WriteSingle(unit, addr, value));
    var ex := Exchange(true, [Chunk(other)]);
    assert ex.events[1..] == [];
    assert Incoming(ex.events) == other + Incoming([]);
    hide Incoming, WithCrc, Be;
    FormAcknowledges(unit, FC_WRITE_SINGLE, ex, addr, value);
  }
}
