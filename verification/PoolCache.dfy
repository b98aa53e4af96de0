/** The pool as a cache of the device: what a scan leaves in it. */
module PoolCache {
  import opened Options
  import opened WireNumbers
  import opened RtuCodec
  import opened RtuClient
  import opened RtuReplies
  import opened RegisterMap
  import opened SegmentScan
  import opened UnitModel

  ghost predicate OwnCells(table: Table) {
    && (forall i :: 0 <= i < |table| ==> table[i].pool < POOL_SIZE)
    && (forall i, j :: 0 <= i < j < |table| ==> table[i].pool != table[j].pool)
  }

  predicate Consecutive(table: Table, b: Batch) {
    b.start < b.end <= |table| && forall i :: b.start < i < b.end ==> Adjacent(table, i)
  }

  lemma {:induction false} RunAddress(table: Table, b: Batch, j: nat)
    requires Consecutive(table, b) && b.start <= j < b.end
    ensures table[j].device == table[b.start].device + (j - b.start)
  {
    if j > b.start {
      RunAddress(table, b, j - 1);
      assert Adjacent(table, j);
    }
  }

  lemma StoreRow(pool: seq<bv16>, table: Table, row: nat, value: bv16)
    requires |pool| == POOL_SIZE && Sorted(table) && OwnCells(table) && row < |table|
    ensures StoreOne(pool, table, table[row].device, value) == pool[table[row].pool := value]
  {
    hide Sorted, Slot;
    SlotOfRow(table, row);
  }

  lemma StoreLast(pool: seq<bv16>, table: Table, values: seq<bv16>, start: uint16, row: nat, n: nat)
    requires |pool| == POOL_SIZE && Sorted(table) && OwnCells(table) && row < |table|
    requires |values| == n + 1 && table[row].device == start + n
    ensures StoreAll(pool, table, values, start) ==
            StoreAll(pool, table, values[..n], start)[table[row].pool := values[n]]
  {
    hide Sorted, StoreOne;
    StoreRow(StoreAll(pool, table, values[..n], start), table, row, values[n]);
  }

  /** The cells of the first rows of the run hold these values and every other cell is as in pool. */
  ghost predicate RunStored(pool: seq<bv16>, result: seq<bv16>, table: Table, b: Batch, values: seq<bv16>)
    requires |pool| == |result| == POOL_SIZE && OwnCells(table) && b.start + |values| <= |table|
  {
    && (forall j :: b.start <= j < b.start + |values| ==> result[table[j].pool] == values[j - b.start])
    && (forall c :: 0 <= c < POOL_SIZE
          && (forall j :: b.start <= j < b.start + |values| ==> table[j].pool != c)
          ==> result[c] == pool[c])
  }

  lemma RunStep(pool: seq<bv16>, before: seq<bv16>, result: seq<bv16>, table: Table, b: Batch,
                values: seq<bv16>, n: nat)
    requires |pool| == |before| == POOL_SIZE && OwnCells(table) && |values| == n + 1 && b.start + |values| <= |table|
    requires RunStored(pool, before, table, b, values[..n]) && result == before[table[b.start + n].pool := values[n]]
    ensures RunStored(pool, result, table, b, values)
  {}

  /** Storing the first values of a run fills exactly those rows' cells. */
  lemma {:induction false} StoreRun(pool: seq<bv16>, table: Table, b: Batch, values: seq<bv16>)
    requires |pool| == POOL_SIZE && Sorted(table) && OwnCells(table) && Consecutive(table, b)
    requires |values| <= b.end - b.start
    ensures RunStored(pool, StoreAll(pool, table, values, table[b.start].device), table, b, values)
  {
    assert b.start + |values| <= |table|;
    hide RunStored, Sorted, StoreAll, OwnCells, Consecutive;
    if |values| == 0 {
      StoreNone(pool, table, b, values);
    } else {
      var n, start := |values| - 1, table[b.start].device;
      StoreRun(pool, table, b, values[..n]);
      RunAddress(table, b, b.start + n);
      StoreLast(pool, table, values, start, b.start + n, n);
      RunStep(pool, StoreAll(pool, table, values[..n], start), StoreAll(pool, table, values, start),
              table, b, values, n);
    }
  }

  lemma StoreNone(pool: seq<bv16>, table: Table, b: Batch, values: seq<bv16>)
    requires |pool| == POOL_SIZE && |values| == 0 && OwnCells(table) && b.start < |table|
    ensures RunStored(pool, StoreAll(pool, table, values, table[b.start].device), table, b, values)
  {}

  predicate InOrder(batches: seq<Batch>) {
    forall i, j :: 0 <= i < j < |batches| ==> batches[i].end <= batches[j].start
  }

  lemma {:induction false} PartitionInOrder(table: Table, chunk: nat, s: nat, batches: seq<Batch>)
    requires Partition(table, chunk, s, batches)
    ensures forall i :: 0 <= i < |batches| ==> s <= batches[i].start && Consecutive(table, batches[i])
    ensures InOrder(batches)
    decreases |batches|
  {
    if |batches| > 0 {
      PartitionInOrder(table, chunk, batches[0].end, batches[1..]);
      forall i | 0 <= i < |batches|
        ensures s <= batches[i].start && Consecutive(table, batches[i])
        ensures i > 0 ==> batches[0].end <= batches[i].start
      {
        if i > 0 { assert batches[i] == batches[1..][i - 1]; }
      }
      forall i, j | 0 <= i < j < |batches| ensures batches[i].end <= batches[j].start {
        if i > 0 { assert batches[i] == batches[1..][i - 1] && batches[j] == batches[1..][j - 1]; }
      }
    }
  }

  ghost predicate Orderly(table: Table, readings: seq<Reading>) {
    && (forall i :: 0 <= i < |readings| ==> Placed(table, readings[i]) && Consecutive(table, readings[i].batch))
    && (forall i, j :: 0 <= i < j < |readings| ==> readings[i].batch.end <= readings[j].batch.start)
  }

  /** Row j was read successfully by reading k. */
  predicate Filled(readings: seq<Reading>, k: nat, j: nat) {
    k < |readings| && readings[k].values.Some? && readings[k].batch.start <= j < readings[k].batch.end
  }

  ghost predicate FilledWell(pool: seq<bv16>, result: seq<bv16>, table: Table, readings: seq<Reading>)
    requires |pool| == |result| == POOL_SIZE && OwnCells(table) && Orderly(table, readings)
  {
    && (forall k, j :: 0 <= k && 0 <= j && Filled(readings, k, j) ==>
          result[table[j].pool] == readings[k].values.value[j - readings[k].batch.start])
    && (forall c :: 0 <= c < POOL_SIZE
          && (forall k, j :: 0 <= k && 0 <= j && Filled(readings, k, j) ==> table[j].pool != c)
          ==> result[c] == pool[c])
  }

  /** What a stored reading changes: the cells of its rows, and no others. */
  lemma StoredReading(before: seq<bv16>, table: Table, r: Reading)
    requires |before| == POOL_SIZE && Sorted(table) && OwnCells(table)
    requires Placed(table, r) && Consecutive(table, r.batch)
    ensures var result := StoreReading(before, table, r);
            && (r.values.Some? ==> forall j :: r.batch.start <= j < r.batch.end ==>
                  result[table[j].pool] == r.values.value[j - r.batch.start])
            && (forall c :: 0 <= c < POOL_SIZE
                  && (r.values.Some? ==> forall j :: r.batch.start <= j < r.batch.end ==> table[j].pool != c)
                  ==> result[c] == before[c])
  {
    if r.values.Some? { StoreRun(before, table, r.batch, r.values.value); }
    hide StoreAll;
  }

  /** One more reading: its rows are new, so earlier rows keep their values. */
  lemma FillOneMore(pool: seq<bv16>, before: seq<bv16>, table: Table, readings: seq<Reading>)
    requires |pool| == |before| == POOL_SIZE && Sorted(table) && OwnCells(table) && Orderly(table, readings)
    requires |readings| > 0 && FilledWell(pool, before, table, readings[..|readings| - 1])
    requires readings[|readings| - 1].batch.start < |table|
    ensures FilledWell(pool, StoreReading(before, table, readings[|readings| - 1]), table, readings)
  {
    hide StoreReading, StoreAll, Consecutive, Sorted;
    var n := |readings| - 1;
    var last := readings[n];
    StoredReading(before, table, last);
    var result := StoreReading(before, table, last);
    forall k, j | 0 <= k && 0 <= j && Filled(readings, k, j)
      ensures result[table[j].pool] == readings[k].values.value[j - readings[k].batch.start]
    {
      if k < n { assert Filled(readings[..n], k, j); }
    }
    forall c | 0 <= c < POOL_SIZE
      && (forall k, j :: 0 <= k && 0 <= j && Filled(readings, k, j) ==> table[j].pool != c)
      ensures result[c] == pool[c]
    {
      forall k, j | 0 <= k && 0 <= j && Filled(readings[..n], k, j) ensures table[j].pool != c {
        assert Filled(readings, k, j);
      }
      forall j | last.values.Some? && last.batch.start <= j < last.batch.end ensures table[j].pool != c {
        assert Filled(readings, n, j);
      }
    }
  }

  lemma {:induction false} ReadingsFill(pool: seq<bv16>, table: Table, readings: seq<Reading>)
    requires |pool| == POOL_SIZE && Sorted(table) && OwnCells(table) && Orderly(table, readings)
    ensures FilledWell(pool, StoreReadings(pool, table, readings), table, readings)
  {
    if |readings| > 0 {
      var n := |readings| - 1;
      ReadingsFill(pool, table, readings[..n]);
      assert Placed(table, readings[n]);
      hide FilledWell, StoreReading;
      FillOneMore(pool, StoreReadings(pool, table, readings[..n]), table, readings);
    }
  }

  lemma ScanIsOrderly(cfg: Config, s: UnitState)
    requires ScanAgrees(cfg, s)
    ensures Orderly(cfg.table, s.readings)
  {
    var all := Greedy(cfg.table, cfg.chunk, 0);
    GreedyPartitions(cfg.table, cfg.chunk, 0);
    PartitionInOrder(cfg.table, cfg.chunk, 0, all);
    hide Greedy, Partition, StoreReadings;
    var bs := Batches(s.readings);
    forall i | 0 <= i < |bs| ensures bs[i] == all[i] == s.readings[i].batch {}
  }

  /** At every point of every run, for the scan in progress or just completed: each row of a segment that
      was read holds the value read for its device address, and no other cell has changed. */
  lemma CacheAgrees(cfg: Config, s: UnitState, events: seq<Event>)
    requires Fresh(s) && Sorted(cfg.table) && OwnCells(cfg.table)
    ensures var t := Run(cfg, s, events);
            && |t.pool| == |t.scanPool| == POOL_SIZE
            && (forall k, j :: 0 <= k && 0 <= j && Filled(t.readings, k, j) ==>
                  j < |cfg.table| && Placed(cfg.table, t.readings[k])
                  && t.pool[cfg.table[j].pool] == t.readings[k].values.value[j - t.readings[k].batch.start])
            && (forall c :: 0 <= c < POOL_SIZE
                  && (forall k, j :: 0 <= k && 0 <= j < |cfg.table| && Filled(t.readings, k, j) ==>
                        cfg.table[j].pool != c)
                  ==> t.pool[c] == t.scanPool[c])
  {
    hide PortAgrees, CounterAgrees, FifoAgrees, WireAgrees, Run, StoreReadings;
    RunKeepsInv(cfg, s, events);
    var t := Run(cfg, s, events);
    ScanIsOrderly(cfg, t);
    ReadingsFill(t.scanPool, cfg.table, t.readings);
  }

  // ---- the cache and the device ----

  /** The registers of a device at one moment, by address. */
  type Memory = nat -> bv16

  function Window(memory: Memory, address: nat, n: nat): (regs: seq<bv16>)
    ensures |regs| == n
  {
    seq(n, i requires 0 <= i < n => memory(address + i))
  }

  /** What may arrive instead of a reply: nothing or too little of it, an exception reply, or the reply with
      errors of the kinds the CRC catches. */
  ghost predicate Mishap(reply: seq<bv8>, ex: Exchange)
    requires |reply| >= 2
  {
    var bytes := Incoming(ex.events);
    || !ex.written || |bytes| < |reply| || Exceptional(bytes[1]) || Damaged(reply, bytes[..|reply|])
  }

  /** The line's answer to one frame: the reply with the registers the frame asks for, or a mishap. */
  ghost predicate Answers(memory: Memory, frame: seq<bv8>, ex: Exchange) {
    match Decode(frame)
    case Some(ReadHolding(unit, addr, qty)) =>
      var reply := ReadReply(unit, Window(memory, Nat16(addr), qty));
      reply <= Incoming(ex.events) || Mishap(reply, ex)
    case _ => true
  }

  /** Every frame this action puts on the wire for a segment is answered by the device. */
  ghost predicate AnsweredBy(cfg: Config, t: UnitState, e: Event, memory: Memory) {
    e.Segment? && t.phase.Scanning? && t.phase.row < |cfg.table| ==>
      forall q :: q in ReadFrames(cfg, t.open, NextBatch(cfg, t.phase.row)) ==> Answers(memory, q, e.ex)
  }

  /** Over the whole run; memories[n] is the device at the time of action n. */
  ghost predicate LineIsReal(cfg: Config, s: UnitState, events: seq<Event>, memories: nat -> Memory)
    requires |s.pool| == POOL_SIZE
  {
    forall n :: 0 <= n < |events| ==> AnsweredBy(cfg, Run(cfg, s, events[..n]), events[n], memories(n))
  }

  lemma MishapFails(open: bool, unit: bv8, regs: seq<bv16>, ex: Exchange)
    requires 1 <= |regs| <= MAX_READ && Mishap(ReadReply(unit, regs), ex)
    ensures ReadCode(open, unit, |regs|, ex) != OK
  {
    hide Incoming, Exceptional, Damaged, ReadReply, ReadCode;
    var n := 5 + 2 * |regs|;
    assert |ReadReply(unit, regs)| == n;
    if ex.written && |Incoming(ex.events)| >= n {
      if Exceptional(Incoming(ex.events)[1]) {
        ExceptionNeverOk(open, unit, |regs|, ex);
      } else {
        DamagedReplyFails(open, unit, |regs|, ex, regs);
      }
    } else {
      ShortReadFails(open, unit, |regs|, ex);
    }
  }

  lemma ShortReadFails(open: bool, unit: bv8, qty: nat, ex: Exchange)
    requires !ex.written || |Incoming(ex.events)| < 5 + 2 * qty
    ensures ReadCode(open, unit, qty, ex) != OK
  {
    hide Incoming, Exceptional, Nat8, U8;
  }

  lemma AnswerToAsk(cfg: Config, b: Batch, ex: Exchange, memory: Memory)
    requires b.start < b.end <= |cfg.table| && b.end - b.start <= MAX_READ
    requires Answers(memory, Encode(Ask(cfg, b)), ex)
    ensures var reply := ReadReply(cfg.unit, Window(memory, cfg.table[b.start].device, b.end - b.start));
            reply <= Incoming(ex.events) || Mishap(reply, ex)
  {
    hide Encode, Decode, U16, Nat16, Window, ReadReply, Incoming, Mishap;
    AskDecodes(cfg, b);
    WordCount(cfg.table[b.start].device);
  }

  /** What a segment read delivers is the device's registers, address by address, because the frame that
      was sent asked for them. */
  lemma DeliveredIsDevices(cfg: Config, open: bool, b: Batch, ex: Exchange, memory: Memory)
    requires b.start < b.end <= |cfg.table| && Delivered(cfg, open, b, ex).Some?
    requires forall q :: q in ReadFrames(cfg, open, b) ==> Answers(memory, q, ex)
    ensures Delivered(cfg, open, b, ex) == Some(Window(memory, cfg.table[b.start].device, b.end - b.start))
  {
    hide ReadCode, ReadValues, Encode, Ask, Answers, Window, ReadReply, Incoming, Mishap;
    var n := b.end - b.start;
    var regs := Window(memory, cfg.table[b.start].device, n);
    ReadGuards(open, cfg.unit, n, ex);
    AnswerToAsk(cfg, b, ex, memory);
    if Mishap(ReadReply(cfg.unit, regs), ex) {
      MishapFails(open, cfg.unit, regs, ex);
    } else {
      OkMeansWritten(open, cfg.unit, n, ex);
      ReplyIsAccepted(cfg.unit, n, ex, regs);
    }
  }

  lemma OkMeansWritten(open: bool, unit: bv8, qty: nat, ex: Exchange)
    requires ReadCode(open, unit, qty, ex) == OK
    ensures ex.written
  {
    hide Incoming, Exceptional, Nat8, U8;
  }

  // ---- which action a reading came from ----

  /** The k-th reading of the scan is what action n read. */
  ghost predicate ReadBy(cfg: Config, s: UnitState, events: seq<Event>, k: nat, n: nat)
    requires |s.pool| == POOL_SIZE
  {
    var r, t := Run(cfg, s, events).readings, if n < |events| then Run(cfg, s, events[..n]) else s;
    && k < |r| && n < |events| && events[n].Segment? && t.phase.Scanning? && t.phase.row < |cfg.table|
    && var b := NextBatch(cfg, t.phase.row);
       r[k] == Reading(b, Delivered(cfg, t.open, b, events[n].ex))
  }

  /** The first k readings of the scan have been part of it ever since action n. */
  ghost predicate KeptSince(cfg: Config, s: UnitState, events: seq<Event>, k: nat, n: nat)
    requires |s.pool| == POOL_SIZE && k <= |Run(cfg, s, events).readings|
  {
    forall m :: n < m <= |events| ==> Run(cfg, s, events).readings[..k] <= Run(cfg, s, events[..m]).readings
  }

  /** The k-th reading of the scan was made by action n, in this very scan. */
  ghost predicate MadeBy(cfg: Config, s: UnitState, events: seq<Event>, k: nat, n: nat)
    requires |s.pool| == POOL_SIZE
  {
    ReadBy(cfg, s, events, k, n) && KeptSince(cfg, s, events, k + 1, n)
  }

  lemma StepReadings(cfg: Config, t: UnitState, e: Event)
    requires |t.pool| == POOL_SIZE
    ensures var r := Step(cfg, t, e).readings;
            || r == t.readings || r == []
            || (e.Segment? && t.phase.Scanning? && t.phase.row < |cfg.table|
                && var b := NextBatch(cfg, t.phase.row);
                   r == t.readings + [Reading(b, Delivered(cfg, t.open, b, e.ex))])
  {
    hide Delivered, StoreReading, Frames, ReadFrames, ProbeFrames, Probed, NextBatch;
  }

  lemma MadeByStays(cfg: Config, s: UnitState, events: seq<Event>, k: nat, n: nat)
    requires |s.pool| == POOL_SIZE && |events| > 0 && MadeBy(cfg, s, events[..|events| - 1], k, n)
    requires Run(cfg, s, events[..|events| - 1]).readings <= Run(cfg, s, events).readings
    ensures MadeBy(cfg, s, events, k, n)
  {
    hide Run, Delivered, NextBatch;
    var before := events[..|events| - 1];
    var r := Run(cfg, s, events).readings;
    assert r[..k + 1] == Run(cfg, s, before).readings[..k + 1];
    forall m | n < m <= |events| ensures r[..k + 1] <= Run(cfg, s, events[..m]).readings {
      if m < |events| { assert before[..m] == events[..m]; } else { assert events[..m] == events; }
    }
    assert before[..n] == events[..n];
  }

  lemma {:induction false} ReadingsAreMade(cfg: Config, s: UnitState, events: seq<Event>, k: nat)
    requires Fresh(s) && k < |Run(cfg, s, events).readings|
    ensures exists n :: MadeBy(cfg, s, events, k, n)
  {
    hide Step, Delivered, NextBatch, MadeBy;
    if |events| > 0 {
      var last := |events| - 1;
      var t := Run(cfg, s, events[..last]);
      StepReadings(cfg, t, events[last]);
      if k < |t.readings| {
        ReadingsAreMade(cfg, s, events[..last], k);
        var n :| MadeBy(cfg, s, events[..last], k, n);
        MadeByStays(cfg, s, events, k, n);
      } else {
        MadeByLast(cfg, s, events, k);
      }
    }
  }

  lemma MadeByLast(cfg: Config, s: UnitState, events: seq<Event>, k: nat)
    requires |s.pool| == POOL_SIZE && |events| > 0
    requires k == |Run(cfg, s, events[..|events| - 1]).readings| < |Run(cfg, s, events).readings|
    ensures MadeBy(cfg, s, events, k, |events| - 1)
  {
    hide Run, ReadBy, KeptSince;
    ReadByLast(cfg, s, events, k);
    KeptAtLast(cfg, s, events, k + 1);
  }

  lemma ReadByLast(cfg: Config, s: UnitState, events: seq<Event>, k: nat)
    requires |s.pool| == POOL_SIZE && |events| > 0
    requires k == |Run(cfg, s, events[..|events| - 1]).readings| < |Run(cfg, s, events).readings|
    ensures ReadBy(cfg, s, events, k, |events| - 1)
  {
    hide Run, Step, Delivered, NextBatch;
    LastStep(cfg, s, events);
    StepReadings(cfg, Run(cfg, s, events[..|events| - 1]), events[|events| - 1]);
  }

  lemma KeptAtLast(cfg: Config, s: UnitState, events: seq<Event>, k: nat)
    requires |s.pool| == POOL_SIZE && |events| > 0 && k <= |Run(cfg, s, events).readings|
    ensures KeptSince(cfg, s, events, k, |events| - 1)
  {
    hide Run;
    assert events[..|events|] == events;
  }

  lemma LastStep(cfg: Config, s: UnitState, events: seq<Event>)
    requires |s.pool| == POOL_SIZE && |events| > 0
    ensures Run(cfg, s, events) == Step(cfg, Run(cfg, s, events[..|events| - 1]), events[|events| - 1])
  {
    hide Step;
  }

  lemma LineAt(cfg: Config, s: UnitState, events: seq<Event>, memories: nat -> Memory, n: nat)
    requires |s.pool| == POOL_SIZE && LineIsReal(cfg, s, events, memories) && n < |events|
    ensures AnsweredBy(cfg, Run(cfg, s, events[..n]), events[n], memories(n))
  {
    hide Run, AnsweredBy;
  }

  lemma MadeValues(cfg: Config, s: UnitState, events: seq<Event>, memories: nat -> Memory, k: nat, n: nat)
    requires |s.pool| == POOL_SIZE && LineIsReal(cfg, s, events, memories) && ReadBy(cfg, s, events, k, n)
    requires Run(cfg, s, events).readings[k].values.Some?
    ensures var r := Run(cfg, s, events).readings[k];
            r.batch.start < r.batch.end <= |cfg.table|
            && r.values.value == Window(memories(n), cfg.table[r.batch.start].device, r.batch.end - r.batch.start)
  {
    hide Run, Delivered, Answers, ReadFrames, Window, NextBatch, LineIsReal;
    LineAt(cfg, s, events, memories, n);
    var t := Run(cfg, s, events[..n]);
    DeliveredIsDevices(cfg, t.open, NextBatch(cfg, t.phase.row), events[n].ex, memories(n));
  }

  lemma CellOfReading(cfg: Config, s: UnitState, events: seq<Event>, k: nat, j: nat)
    requires Fresh(s) && Sorted(cfg.table) && OwnCells(cfg.table)
    requires Filled(Run(cfg, s, events).readings, k, j)
    ensures var r := Run(cfg, s, events).readings[k];
            && Consecutive(cfg.table, r.batch) && |r.values.value| == r.batch.end - r.batch.start
            && Cached(Run(cfg, s, events).pool, cfg.table, cfg.table[j].device)
               == Some(r.values.value[j - r.batch.start])
  {
    RunKeepsInv(cfg, s, events);
    CacheAgrees(cfg, s, events);
    hide PortAgrees, CounterAgrees, FifoAgrees, WireAgrees, Run, StoreReadings;
    ScanIsOrderly(cfg, Run(cfg, s, events));
    SlotOfRow(cfg.table, j);
  }

  ghost predicate CachedAsRead(cfg: Config, s: UnitState, events: seq<Event>, memories: nat -> Memory,
                               k: nat, j: nat, n: nat)
    requires |s.pool| == POOL_SIZE && j < |cfg.table|
  {
    && MadeBy(cfg, s, events, k, n)
    && Cached(Run(cfg, s, events).pool, cfg.table, cfg.table[j].device) == Some(memories(n)(cfg.table[j].device))
  }

  /** Every row of a successfully read segment caches the value the device had at its address when this scan
      read it. */
  lemma CacheHoldsDeviceValues(cfg: Config, s: UnitState, events: seq<Event>, memories: nat -> Memory, k: nat, j: nat)
    requires Fresh(s) && Sorted(cfg.table) && OwnCells(cfg.table) && LineIsReal(cfg, s, events, memories)
    requires Filled(Run(cfg, s, events).readings, k, j)
    ensures j < |cfg.table| && exists n :: CachedAsRead(cfg, s, events, memories, k, j, n)
  {
    hide Run, ReadBy, KeptSince, LineIsReal, Cached;
    CellOfReading(cfg, s, events, k, j);
    ReadingsAreMade(cfg, s, events, k);
    var n :| MadeBy(cfg, s, events, k, n);
    MadeValues(cfg, s, events, memories, k, n);
    RunAddress(cfg.table, Run(cfg, s, events).readings[k].batch, j);
    assert CachedAsRead(cfg, s, events, memories, k, j, n);
  }

  // ---- every cell of the pool, over any number of scans ----

  ghost predicate Stored(table: Table, memories: nat -> Memory, n: nat, j: nat, c: nat, value: bv16) {
    j < |table| && table[j].pool == c && value == memories(n)(table[j].device)
  }

  lemma {:induction false} StoreOrigin(pool: seq<bv16>, table: Table, values: seq<bv16>, start: uint16, c: nat)
    requires |pool| == POOL_SIZE && c < POOL_SIZE && start + |values| <= 0x10000
    ensures var v := StoreAll(pool, table, values, start)[c];
            v == pool[c]
            || exists i, j :: 0 <= i < |values| && 0 <= j < |table|
                 && table[j].pool == c && table[j].device == start + i && v == values[i]
  {
    hide Slot;
    if |values| > 0 {
      var n := |values| - 1;
      StoreOrigin(pool, table, values[..n], start, c);
      var before := StoreAll(pool, table, values[..n], start);
      if StoreAll(pool, table, values, start)[c] == before[c] && before[c] != pool[c] {
        var i, j :| 0 <= i < n && 0 <= j < |table|
          && table[j].pool == c && table[j].device == start + i && before[c] == values[..n][i];
        assert values[i] == before[c];
      } else if before[c] != StoreAll(pool, table, values, start)[c] {
        var j := Slot(table, start + n).value;
        assert table[j].pool == c && table[j].device == start + n;
      }
    }
  }

  /** One action changes a cell only to a value the device has for a row kept there. */
  lemma StepOrigin(cfg: Config, t: UnitState, e: Event, memory: Memory, c: nat)
    requires |t.pool| == POOL_SIZE && c < POOL_SIZE && AnsweredBy(cfg, t, e, memory)
    ensures var v := Step(cfg, t, e).pool[c];
            v == t.pool[c]
            || exists j :: 0 <= j < |cfg.table| && cfg.table[j].pool == c && v == memory(cfg.table[j].device)
  {
    hide Frames, ProbeFrames, Probed, Answers, ReadFrames, StoreAll, Window;
    if e.Segment? && t.phase.Scanning? && t.phase.row < |cfg.table| {
      var b := NextBatch(cfg, t.phase.row);
      RunEndReadable(cfg.table, cfg.chunk, b.start, b.start + 1);
      hide RunEnd, NextBatch;
      var d := Delivered(cfg, t.open, b, e.ex);
      if d.Some? {
        DeliveredIsDevices(cfg, t.open, b, e.ex, memory);
        hide Delivered;
        RunOrigin(t.pool, cfg.table, b, memory, c);
      }
    }
  }

  lemma RunOrigin(pool: seq<bv16>, table: Table, b: Batch, memory: Memory, c: nat)
    requires |pool| == POOL_SIZE && c < POOL_SIZE && Consecutive(table, b)
    ensures var start := table[b.start].device;
            var v := StoreAll(pool, table, Window(memory, start, b.end - b.start), start)[c];
            v == pool[c] || exists j :: 0 <= j < |table| && table[j].pool == c && v == memory(table[j].device)
  {
    RunAddress(table, b, b.end - 1);
    var start := table[b.start].device;
    var values := Window(memory, start, b.end - b.start);
    StoreOrigin(pool, table, values, start, c);
    hide StoreAll;
  }

  /** At every point of every run, reconnects and any number of scans included: whatever the line does to the
      replies, a pool cell holds its initial value or one the device had at the address of a row kept there. */
  lemma {:induction false} PoolHoldsOnlyDeviceValues(cfg: Config, s: UnitState, events: seq<Event>,
                                                     memories: nat -> Memory, c: nat)
    requires |s.pool| == POOL_SIZE && LineIsReal(cfg, s, events, memories) && c < POOL_SIZE
    ensures var v := Run(cfg, s, events).pool[c];
            v == s.pool[c] || exists n: nat, j: nat :: n < |events| && Stored(cfg.table, memories, n, j, c, v)
  {
    hide Step, Run, LineIsReal, Stored;
    if |events| == 0 {
      RunNothing(cfg, s);
    } else {
      var last := |events| - 1;
      LineBefore(cfg, s, events, memories);
      PoolHoldsOnlyDeviceValues(cfg, s, events[..last], memories, c);
      LastStep(cfg, s, events);
      LineAt(cfg, s, events, memories, last);
      var t := Run(cfg, s, events[..last]);
      StepOrigin(cfg, t, events[last], memories(last), c);
      var v := Run(cfg, s, events).pool[c];
      if v != t.pool[c] {
        var j :| 0 <= j < |cfg.table| && cfg.table[j].pool == c && v == memories(last)(cfg.table[j].device);
        StoredNow(cfg.table, memories, last, j, c, v);
      }
    }
  }

  lemma RunNothing(cfg: Config, s: UnitState)
    requires |s.pool| == POOL_SIZE
    ensures Run(cfg, s, []) == s
  {}

  lemma LineBefore(cfg: Config, s: UnitState, events: seq<Event>, memories: nat -> Memory)
    requires |s.pool| == POOL_SIZE && LineIsReal(cfg, s, events, memories) && |events| > 0
    ensures LineIsReal(cfg, s, events[..|events| - 1], memories)
  {
    hide Run, AnsweredBy;
    var before := events[..|events| - 1];
    forall n | 0 <= n < |before| ensures AnsweredBy(cfg, Run(cfg, s, before[..n]), before[n], memories(n)) {
      assert before[..n] == events[..n];
      LineAt(cfg, s, events, memories, n);
    }
  }

  lemma StoredNow(table: Table, memories: nat -> Memory, n: nat, j: nat, c: nat, value: bv16)
    requires j < |table| && table[j].pool == c && value == memories(n)(table[j].device)
    ensures Stored(table, memories, n, j, c, value)
  {}

  /** A segment delivers these registers exactly when the port is open and the bytes that arrive begin
      with the reply encoding them, for the segment's length. */
  lemma DeliveredExactly(cfg: Config, open: bool, b: Batch, ex: Exchange, regs: seq<bv16>)
    requires b.start < b.end
    ensures Delivered(cfg, open, b, ex) == Some(regs) <==>
            b.end - b.start <= MAX_READ && open && Answered(cfg.unit, b.end - b.start, ex, regs)
  {
    hide ReadCode, ReadValues, Answered;
    var n := b.end - b.start;
    ReadAcceptsExactly(open, cfg.unit, n, ex);
    if n <= MAX_READ && open && ReadCode(open, cfg.unit, n, ex) == OK {
      AcceptedReadIsReply(cfg.unit, n, ex);
    }
  }
}
