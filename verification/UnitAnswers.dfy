/** What the unit does with an answer, said of the bytes on the line. */
module UnitAnswers {
  import opened Options
  import opened Crc16
  import opened WireNumbers
  import opened RtuCodec
  import opened RtuClient
  import opened RtuReplies
  import opened RegisterMap
  import opened SegmentScan
  import opened CommandQueue
  import opened UnitModel

  /** The port opens and a device answers a read of the first row with one register; an empty table needs
      no answer. */
  ghost predicate DeviceAnswers(cfg: Config, fd: int, configured: bool, probe: Exchange) {
    fd >= 0 && configured && (|cfg.table| == 0 || exists reg: bv16 :: Answered(cfg.unit, 1, probe, [reg]))
  }

  lemma ProbedExactly(cfg: Config, fd: int, configured: bool, probe: Exchange)
    ensures Probed(cfg, Init(fd, configured, probe)) <==> DeviceAnswers(cfg, fd, configured, probe)
  {
    hide ReadCode, Answered;
    ReadAcceptsExactly(true, cfg.unit, 1, probe);
    if regs :| Answered(cfg.unit, 1, probe, regs) {
      OneRegister(cfg.unit, probe, regs);
    }
  }

  lemma OneRegister(unit: bv8, probe: Exchange, regs: seq<bv16>)
    requires Answered(unit, 1, probe, regs)
    ensures |regs| == 1 && Answered(unit, 1, probe, [regs[0]])
  {
    assert regs == [regs[0]];
  }

  /** An unconnected unit comes up exactly when the device answers; otherwise only the attempt is noted and
      the port stays closed. */
  lemma InitDecides(cfg: Config, s: UnitState, fd: int, configured: bool, probe: Exchange)
    requires |s.pool| == POOL_SIZE && s.phase == Down && !s.open
    ensures var t := Step(cfg, s, Init(fd, configured, probe));
            if DeviceAnswers(cfg, fd, configured, probe)
            then t.phase == Draining && t.open && t.connection == Connected && t.fails == 0
            else t == s.(attempts := t.attempts, probes := t.probes)
  {
    hide Probed, ProbeFrames, DeviceAnswers;
    ProbedExactly(cfg, fd, configured, probe);
  }

  ghost predicate Replied(unit: bv8, qty: nat, ex: Exchange)
    requires qty <= MAX_READ
  {
    exists regs :: Answered(unit, qty, ex, regs)
  }

  /** A segment read succeeds exactly when the arriving bytes begin with the reply of this unit for the
      segment's length; only then is anything stored and the counter cleared. */
  lemma SegmentDecides(cfg: Config, s: UnitState, ex: Exchange)
    requires |s.pool| == POOL_SIZE && s.open && s.phase.Scanning? && s.phase.row < |cfg.table|
    ensures var t, b := Step(cfg, s, Segment(ex)), NextBatch(cfg, s.phase.row);
            if b.end - b.start <= 125 && Replied(cfg.unit, b.end - b.start, ex)
            then t.fails == 0
            else t.fails == s.fails + 1 && t.pool == s.pool && (t.phase == Failing <==> s.fails + 1 >= 5)
  {
    hide ReadCode, ReadValues, Answered, NextBatch, ReadFrames, StoreAll;
    var b := NextBatch(cfg, s.phase.row);
    ReadAcceptsExactly(s.open, cfg.unit, b.end - b.start, ex);
    ReadHasBytes(s.open, cfg.unit, b.end - b.start, ex);
  }

  lemma ReadHasBytes(open: bool, unit: bv8, qty: nat, ex: Exchange)
    ensures ReadCode(open, unit, qty, ex) == OK ==> |Incoming(ex.events)| >= 5 + 2 * qty && qty <= MAX_READ
  {
    hide Incoming, Accepted, Exceptional, Nat8, U8;
  }

  /** An acknowledgement with this function code begins what arrives. */
  ghost predicate Acknowledged(unit: bv8, code: bv8, ex: Exchange) {
    ex.written && exists addr, word :: WithCrc([unit, code] + Be(addr) + Be(word)) <= Incoming(ex.events)
  }

  /** The write was performed and acknowledged. */
  predicate Written(open: bool, unit: bv8, c: Command, ex: Exchange) {
    WriteCodeOf(c).Some? && WriteCode(open, unit, WriteCodeOf(c).value, ex) == OK
  }

  /** One register is acknowledged with function code 6 unless 16 is forced, several with 16; several under
      forced FC06 are refused. */
  lemma WrittenExactly(open: bool, unit: bv8, c: Command, ex: Exchange)
    requires Sendable(c)
    ensures |c.values| == 1 && (c.mode == Auto || c.mode == ForceSingle) ==>
              (Written(open, unit, c, ex) <==> open && Acknowledged(unit, 0x06, ex))
    ensures c.mode == ForceMultiple || (c.mode == Auto && |c.values| >= 2) ==>
              (Written(open, unit, c, ex) <==> open && Acknowledged(unit, 0x10, ex))
    ensures c.mode == ForceSingle && |c.values| >= 2 ==> !Written(open, unit, c, ex)
  {
    hide WriteCode, WithCrc, Be, Incoming;
    WriteAcceptsExactly(open, unit, 0x06, ex);
    WriteAcceptsExactly(open, unit, 0x10, ex);
  }
}
