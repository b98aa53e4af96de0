/** One polled unit as a state machine. An event is one atomic action of the polling thread or of the
    thread that pushes write commands; histories record what happened. */
module UnitModel {
  import opened Options
  import opened WireNumbers
  import opened RtuCodec
  import opened RtuClient
  import opened RegisterMap
  import opened SegmentScan
  import opened CommandQueue

  datatype Config = Config(unit: bv8, table: Table, chunk: nat)

  datatype Connection = Disconnected | Connected | Unknown

  /** Where the polling thread is: before init, in process_callback before a pop, before the read that
      starts at a row, or after process_callback returned -1. */
  datatype Phase = Down | Draining | Scanning(row: nat) | Failing

  /** One FC03 of the current scan and what it delivered. */
  datatype Reading = Reading(batch: Batch, values: Option<seq<bv16>>)

  datatype UnitState = UnitState(
    phase: Phase, queue: seq<Command>, fails: nat, open: bool, connection: Connection, pool: seq<bv16>,
    // histories: pushes that returned 0, pops, frames of queued writes and of probes, outcomes of segment
    // reads since the last successful init; and of the current scan the frames of its reads, what they
    // delivered, and the pool it started from; last the numbers of init attempts and of drained queues
    accepted: seq<Command>, popped: seq<Command>, written: seq<seq<bv8>>, probes: seq<seq<bv8>>,
    outcomes: seq<bool>, requests: seq<seq<bv8>>, readings: seq<Reading>, scanPool: seq<bv16>,
    attempts: nat, passes: nat)

  datatype Event =
    | Push(addr: bv16, values: seq<bv16>, n: nat, mode: WriteMode)
    | Init(fd: int, configured: bool, probe: Exchange)
    | Drain(ex: Exchange)
    | Segment(ex: Exchange)
    | Error

  predicate Pushable(n: nat, values: seq<bv16>, pending: nat) {
    1 <= n <= MAX_WRITE && n <= |values| && pending < CAPACITY
  }

  predicate Sendable(c: Command) { 1 <= |c.values| <= MAX_WRITE }

  /** The function code a command is written with: its mode and register count choose it; a forced FC06
      with several registers is refused. */
  function WriteCodeOf(c: Command): Option<bv8> {
    if c.mode == ForceMultiple || (c.mode == Auto && |c.values| != 1) then Some(FC_WRITE_MULTIPLE)
    else if |c.values| == 1 then Some(FC_WRITE_SINGLE)
    else None
  }

  /** The frames a popped command puts on the wire. */
  function Frames(unit: bv8, c: Command): (frames: seq<seq<bv8>>)
    requires Sendable(c)
    ensures |frames| <= 1
  {
    if WriteCodeOf(c) == Some(FC_WRITE_MULTIPLE) then [Encode(WriteMultiple(unit, c.addr, c.values))]
    else if WriteCodeOf(c) == Some(FC_WRITE_SINGLE) then [Encode(WriteSingle(unit, c.addr, c.values[0]))]
    else []
  }

  /** What a server reads from the frame of a command: one register goes out as FC06 unless FC16 is forced,
      several as FC16; several under forced FC06 are not sent at all. */
  lemma CommandDecodes(unit: bv8, c: Command)
    requires Sendable(c)
    ensures |c.values| == 1 && (c.mode == Auto || c.mode == ForceSingle) ==>
              |Frames(unit, c)| == 1 && Decode(Frames(unit, c)[0]) == Some(WriteSingle(unit, c.addr, c.values[0]))
    ensures c.mode == ForceMultiple || (c.mode == Auto && |c.values| >= 2) ==>
              |Frames(unit, c)| == 1 && Decode(Frames(unit, c)[0]) == Some(WriteMultiple(unit, c.addr, c.values))
    ensures c.mode == ForceSingle && |c.values| >= 2 <==> Frames(unit, c) == []
    ensures forall q :: q in Frames(unit, c) ==> 8 <= |q| <= 255
  {
    hide Encode, Decode;
    EncodeThenDecode(WriteMultiple(unit, c.addr, c.values));
    EncodeThenDecode(WriteSingle(unit, c.addr, c.values[0]));
  }

  function AllFrames(unit: bv8, cs: seq<Command>): seq<seq<bv8>>
    requires forall c :: c in cs ==> Sendable(c)
  {
    if |cs| == 0 then [] else AllFrames(unit, cs[..|cs| - 1]) + Frames(unit, cs[|cs| - 1])
  }

  /** How many reads at the end of the list failed in a row. */
  function Trailing(outcomes: seq<bool>): nat {
    if |outcomes| == 0 || outcomes[|outcomes| - 1] then 0 else 1 + Trailing(outcomes[..|outcomes| - 1])
  }

  lemma {:induction false} TrailingMeaning(outcomes: seq<bool>)
    ensures var n := Trailing(outcomes);
            && n <= |outcomes| && (forall i :: |outcomes| - n <= i < |outcomes| ==> !outcomes[i])
            && (n < |outcomes| ==> outcomes[|outcomes| - n - 1])
  {
    if |outcomes| > 0 && !outcomes[|outcomes| - 1] {
      TrailingMeaning(outcomes[..|outcomes| - 1]);
    }
  }

  function NextBatch(cfg: Config, row: nat): (b: Batch)
    requires row < |cfg.table|
    ensures b.start == row < b.end <= |cfg.table|
  {
    Batch(row, RunEnd(cfg.table, cfg.chunk, row, row + 1))
  }

  /** The request for a run of rows, from its first device address on. */
  function Ask(cfg: Config, b: Batch): (r: Request)
    requires b.start < |cfg.table| && b.start <= b.end
  {
    ReadHolding(cfg.unit, U16(cfg.table[b.start].device), b.end - b.start)
  }

  /** The frames a segment read puts on the wire. */
  function ReadFrames(cfg: Config, open: bool, b: Batch): (frames: seq<seq<bv8>>)
    requires b.start < b.end <= |cfg.table|
    ensures |frames| <= 1
  {
    if open && b.end - b.start <= MAX_READ then [Encode(Ask(cfg, b))] else []
  }

  /** The frame an init puts on the wire once the port is open. */
  function ProbeFrames(cfg: Config, e: Event): (frames: seq<seq<bv8>>)
    requires e.Init?
    ensures |frames| <= 1
  {
    if e.fd >= 0 && e.configured && |cfg.table| > 0 then [Encode(Ask(cfg, Batch(0, 1)))] else []
  }

  /** What one segment read delivers. */
  function Delivered(cfg: Config, open: bool, b: Batch, ex: Exchange): (values: Option<seq<bv16>>)
    requires b.start <= b.end
    ensures values.Some? ==> |values.value| == b.end - b.start
  {
    var n := b.end - b.start;
    if ReadCode(open, cfg.unit, n, ex) == OK && |Incoming(ex.events)| >= 5 + 2 * n
    then Some(ReadValues(n, ex)) else None
  }

  function StoreReading(pool: seq<bv16>, table: Table, r: Reading): (result: seq<bv16>)
    requires |pool| == POOL_SIZE && r.batch.start < |table|
    ensures |result| == POOL_SIZE
  {
    if r.values.None? then pool else StoreAll(pool, table, r.values.value, table[r.batch.start].device)
  }

  /** The state after connecting: the port opens, then an FC03 probe of the first row must succeed. */
  function Probed(cfg: Config, e: Event): bool
    requires e.Init?
  {
    e.fd >= 0 && e.configured && (|cfg.table| == 0 || ReadCode(true, cfg.unit, 1, e.probe) == OK)
  }

  /** One atomic action; an event the thread cannot perform in this phase changes nothing. */
  function Step(cfg: Config, s: UnitState, e: Event): (s': UnitState)
    requires |s.pool| == POOL_SIZE
    ensures |s'.pool| == POOL_SIZE
  {
    match e
    case Push(addr, values, n, mode) =>
      if Pushable(n, values, |s.queue|) then
        var c := Command(addr, values[..n], mode);
        s.(queue := s.queue + [c], accepted := s.accepted + [c])
      else s
    case Init(_, _, _) =>
      if s.phase != Down then s
      else
        var tried := s.(attempts := s.attempts + 1, probes := s.probes + ProbeFrames(cfg, e));
        if !Probed(cfg, e) then tried
        else tried.(phase := Draining, open := true, connection := Connected, fails := 0, outcomes := [])
    case Drain(_) =>
      if s.phase != Draining then s
      else if |s.queue| == 0 then
        var drained := s.(passes := s.passes + 1);
        if |cfg.table| == 0 then drained
        else drained.(phase := Scanning(0), requests := [], readings := [], scanPool := s.pool)
      else
        var c := s.queue[0];
        s.(queue := s.queue[1..], popped := s.popped + [c],
           written := s.written + if Sendable(c) && s.open then Frames(cfg.unit, c) else [])
    case Segment(ex) =>
      if !s.phase.Scanning? || s.phase.row >= |cfg.table| then s
      else
        var b := NextBatch(cfg, s.phase.row);
        var r := Reading(b, Delivered(cfg, s.open, b, ex));
        var fails := if r.values.Some? then 0 else s.fails + 1;
        s.(fails := fails, outcomes := s.outcomes + [r.values.Some?],
           requests := s.requests + ReadFrames(cfg, s.open, b), readings := s.readings + [r],
           pool := StoreReading(s.pool, cfg.table, r),
           phase := if fails >= FAIL_THRESHOLD then Failing
                    else if b.end < |cfg.table| then Scanning(b.end)
                    else Draining)
    case Error =>
      if s.phase != Failing then s
      else s.(phase := Down, open := false, connection := Disconnected, fails := 0)
  }

  function Run(cfg: Config, s: UnitState, events: seq<Event>): (s': UnitState)
    requires |s.pool| == POOL_SIZE
    ensures |s'.pool| == POOL_SIZE
  {
    if |events| == 0 then s
    else Step(cfg, Run(cfg, s, events[..|events| - 1]), events[|events| - 1])
  }

  /** A unit as start_inverter_modules leaves it. */
  predicate Fresh(s: UnitState) {
    s.phase == Down && s.queue == [] && s.fails == 0 && !s.open && |s.pool| == POOL_SIZE
    && s.accepted == [] && s.popped == [] && s.written == [] && s.probes == [] && s.outcomes == []
    && s.requests == [] && s.readings == [] && s.scanPool == s.pool
  }

  // ---- the invariant ----

  predicate PortAgrees(s: UnitState) {
    if s.phase == Down then !s.open else s.open && s.connection == Connected
  }

  predicate CounterAgrees(s: UnitState) {
    && (s.phase == Down ==> s.fails == 0)
    && (s.phase != Down ==> s.fails == Trailing(s.outcomes) <= FAIL_THRESHOLD)
    && (s.phase != Down ==> (s.phase == Failing <==> Trailing(s.outcomes) == FAIL_THRESHOLD))
  }

  predicate FifoAgrees(cfg: Config, s: UnitState) {
    && s.accepted == s.popped + s.queue && |s.queue| <= CAPACITY
    && (forall c :: c in s.queue ==> Sendable(c))
    && (forall c :: c in s.popped ==> Sendable(c))
    && s.written == AllFrames(cfg.unit, s.popped)
  }

  function Batches(readings: seq<Reading>): (bs: seq<Batch>)
    ensures |bs| == |readings|
  {
    seq(|readings|, i requires 0 <= i < |readings| => readings[i].batch)
  }

  predicate Placed(table: Table, r: Reading) {
    r.batch.start < r.batch.end <= |table|
    && (r.values.Some? ==> |r.values.value| == r.batch.end - r.batch.start)
  }

  function StoreReadings(pool: seq<bv16>, table: Table, readings: seq<Reading>): (result: seq<bv16>)
    requires |pool| == POOL_SIZE && forall i :: 0 <= i < |readings| ==> Placed(table, readings[i])
    ensures |result| == POOL_SIZE
  {
    if |readings| == 0 then pool
    else
      var n := |readings| - 1;
      var before := StoreReadings(pool, table, readings[..n]);
      assert Placed(table, readings[n]);
      StoreReading(before, table, readings[n])
  }

  predicate ScanAgrees(cfg: Config, s: UnitState) {
    && |s.scanPool| == |s.pool| == POOL_SIZE
    && (forall i :: 0 <= i < |s.readings| ==> Placed(cfg.table, s.readings[i]))
    && s.pool == StoreReadings(s.scanPool, cfg.table, s.readings)
    && Batches(s.readings) <= Greedy(cfg.table, cfg.chunk, 0)
    && (s.phase.Scanning? ==>
          s.phase.row < |cfg.table|
          && Batches(s.readings) + Greedy(cfg.table, cfg.chunk, s.phase.row) == Greedy(cfg.table, cfg.chunk, 0))
  }

  predicate Inside(table: Table, batches: seq<Batch>) {
    forall i :: 0 <= i < |batches| ==> batches[i].start < batches[i].end <= |table|
  }

  /** The requests for these runs; a run longer than FC03 allows is refused before anything is sent. */
  function Requests(cfg: Config, batches: seq<Batch>): (rs: seq<Request>)
    requires Inside(cfg.table, batches)
    ensures |rs| <= |batches|
  {
    if |batches| == 0 then []
    else
      var b := batches[|batches| - 1];
      Requests(cfg, batches[..|batches| - 1]) + if b.end - b.start <= MAX_READ then [Ask(cfg, b)] else []
  }

  /** A server reads exactly these requests from these frames. */
  predicate Conveys(frames: seq<seq<bv8>>, rs: seq<Request>) {
    |frames| == |rs| && forall i :: 0 <= i < |frames| ==> Decode(frames[i]) == Some(rs[i])
  }

  predicate WireAgrees(cfg: Config, s: UnitState) {
    && Inside(cfg.table, Batches(s.readings))
    && Conveys(s.requests, Requests(cfg, Batches(s.readings)))
    && (forall q :: q in s.probes ==> |cfg.table| > 0 && Decode(q) == Some(Ask(cfg, Batch(0, 1))))
  }

  predicate Inv(cfg: Config, s: UnitState) {
    PortAgrees(s) && CounterAgrees(s) && FifoAgrees(cfg, s) && ScanAgrees(cfg, s) && WireAgrees(cfg, s)
  }

  lemma TrailingGrows(outcomes: seq<bool>, ok: bool)
    ensures Trailing(outcomes + [ok]) == if ok then 0 else 1 + Trailing(outcomes)
  {
    assert (outcomes + [ok])[..|outcomes|] == outcomes;
  }

  lemma StepKeepsPort(cfg: Config, s: UnitState, e: Event)
    requires |s.pool| == POOL_SIZE && PortAgrees(s)
    ensures PortAgrees(Step(cfg, s, e))
  {
    hide ReadCode, Delivered, StoreReading, Frames, RunEnd;
  }

  lemma StepKeepsCounter(cfg: Config, s: UnitState, e: Event)
    requires |s.pool| == POOL_SIZE && CounterAgrees(s)
    ensures CounterAgrees(Step(cfg, s, e))
  {
    hide ReadCode, StoreReading, Frames, RunEnd;
    if e.Segment? && s.phase.Scanning? && s.phase.row < |cfg.table| {
      var d := Delivered(cfg, s.open, NextBatch(cfg, s.phase.row), e.ex);
      hide Delivered;
      TrailingGrows(s.outcomes, d.Some?);
    }
  }

  lemma StepKeepsFifo(cfg: Config, s: UnitState, e: Event)
    requires |s.pool| == POOL_SIZE && PortAgrees(s) && FifoAgrees(cfg, s)
    ensures FifoAgrees(cfg, Step(cfg, s, e))
  {
    hide ReadCode, Delivered, StoreReading, Frames, RunEnd;
    if e.Drain? && s.phase == Draining && |s.queue| > 0 {
      var c := s.queue[0];
      var popped := s.popped + [c];
      assert popped[..|s.popped|] == s.popped;
      assert s.popped + s.queue == popped + s.queue[1..];
    }
  }

  lemma SegmentKeepsScan(cfg: Config, s: UnitState, e: Event)
    requires ScanAgrees(cfg, s) && e.Segment? && s.phase.Scanning?
    ensures ScanAgrees(cfg, Step(cfg, s, e))
  {
    hide ReadCode, StoreReading, ReadFrames, RunEnd;
    var s' := Step(cfg, s, e);
    var row := s.phase.row;
    var b := NextBatch(cfg, row);
    hide Delivered;
    assert s'.readings[..|s.readings|] == s.readings;
    assert Batches(s'.readings) == Batches(s.readings) + [b];
    assert Greedy(cfg.table, cfg.chunk, row) == [b] + Greedy(cfg.table, cfg.chunk, b.end);
    assert Batches(s'.readings) + Greedy(cfg.table, cfg.chunk, b.end) == Greedy(cfg.table, cfg.chunk, 0);
  }

  lemma StepKeepsScan(cfg: Config, s: UnitState, e: Event)
    requires ScanAgrees(cfg, s)
    ensures ScanAgrees(cfg, Step(cfg, s, e))
  {
    if e.Segment? && s.phase.Scanning? {
      SegmentKeepsScan(cfg, s, e);
    } else {
      hide Frames, ProbeFrames, Probed, Delivered, ReadFrames, StoreReading, NextBatch;
      if e.Drain? && Step(cfg, s, e).readings == [] {
        assert Batches(Step(cfg, s, e).readings) == [];
      }
    }
  }

  lemma AskDecodes(cfg: Config, b: Batch)
    requires b.start < b.end <= |cfg.table| && b.end - b.start <= MAX_READ
    ensures Decode(Encode(Ask(cfg, b))) == Some(Ask(cfg, b))
  {
    EncodeThenDecode(Ask(cfg, b));
  }

  lemma StepKeepsWire(cfg: Config, s: UnitState, e: Event)
    requires |s.pool| == POOL_SIZE && PortAgrees(s) && WireAgrees(cfg, s)
    ensures WireAgrees(cfg, Step(cfg, s, e))
  {
    hide ReadCode, StoreReading, Frames, RunEnd, Encode, Decode;
    var s' := Step(cfg, s, e);
    match e
    case Segment(ex) =>
      if s.phase.Scanning? && s.phase.row < |cfg.table| {
        var b := NextBatch(cfg, s.phase.row);
        hide Delivered, Ask;
        assert Batches(s'.readings) == Batches(s.readings) + [b];
        assert Batches(s'.readings)[..|s.readings|] == Batches(s.readings);
        if b.end - b.start <= MAX_READ { AskDecodes(cfg, b); }
      }
    case Init(_, _, _) =>
      hide Probed, Requests, Ask;
      if |cfg.table| > 0 { AskDecodes(cfg, Batch(0, 1)); }
    case _ =>
  }

  /** Every action keeps the invariant. */
  lemma StepKeepsInv(cfg: Config, s: UnitState, e: Event)
    requires Inv(cfg, s)
    ensures Inv(cfg, Step(cfg, s, e))
  {
    hide Step, PortAgrees, CounterAgrees, FifoAgrees, WireAgrees;
    StepKeepsPort(cfg, s, e);
    StepKeepsCounter(cfg, s, e);
    StepKeepsFifo(cfg, s, e);
    StepKeepsScan(cfg, s, e);
    StepKeepsWire(cfg, s, e);
  }

  lemma FreshInv(cfg: Config, s: UnitState)
    requires Fresh(s)
    ensures Inv(cfg, s)
  {
    assert Batches(s.readings) == [];
  }

  /** The invariant holds after every interleaving of pushes, inits, pops, reads and errors. */
  lemma {:induction false} RunKeepsInv(cfg: Config, s: UnitState, events: seq<Event>)
    requires Fresh(s)
    ensures Inv(cfg, Run(cfg, s, events))
  {
    hide Step, Inv;
    if |events| == 0 {
      FreshInv(cfg, s);
    } else {
      RunKeepsInv(cfg, s, events[..|events| - 1]);
      StepKeepsInv(cfg, Run(cfg, s, events[..|events| - 1]), events[|events| - 1]);
    }
  }

  lemma RunExtends(cfg: Config, s: UnitState, events: seq<Event>, e: Event)
    requires |s.pool| == POOL_SIZE
    ensures Run(cfg, s, events + [e]) == Step(cfg, Run(cfg, s, events), e)
  {
    hide Step;
    assert (events + [e])[..|events|] == events;
  }

  // ---- what the invariant means for a whole run ----

  /** Through every interleaving, reconnects included, commands leave in the order they were accepted,
      none is lost or duplicated, and each popped command sends exactly the frame it prescribes. */
  lemma CommandsAreFifo(cfg: Config, s: UnitState, events: seq<Event>)
    requires Fresh(s)
    ensures var t := Run(cfg, s, events);
            t.accepted == t.popped + t.queue && |t.queue| <= CAPACITY
            && (forall c :: c in t.popped ==> Sendable(c)) && t.written == AllFrames(cfg.unit, t.popped)
  {
    hide Run, PortAgrees, CounterAgrees, ScanAgrees, WireAgrees, Fresh;
    RunKeepsInv(cfg, s, events);
  }

  /** While connected the counter is the number of segment reads that failed in a row since the last
      successful init, over as many scans as it takes; the unit fails exactly when that reaches 5. */
  lemma FailureCounter(cfg: Config, s: UnitState, events: seq<Event>)
    requires Fresh(s)
    ensures var t := Run(cfg, s, events);
            t.phase != Down ==> t.open && t.connection == Connected && t.fails == Trailing(t.outcomes) <= 5
                                && (t.phase == Failing <==> Trailing(t.outcomes) == 5)
  {
    hide Run, FifoAgrees, ScanAgrees, WireAgrees, Fresh, Trailing;
    RunKeepsInv(cfg, s, events);
  }

  /** What the scan in progress has put on the wire is, as a server reads it, the requests for a prefix of
      the optimal partition; when the scan completes without abort, for all of it. */
  lemma ScanIssuesPartition(cfg: Config, s: UnitState, events: seq<Event>, e: Event)
    requires Fresh(s)
    ensures var t, all := Run(cfg, s, events), Greedy(cfg.table, cfg.chunk, 0);
            && Inside(cfg.table, all) && Batches(t.readings) <= all
            && Conveys(t.requests, Requests(cfg, all[..|t.readings|]))
    ensures var t, all := Run(cfg, s, events), Greedy(cfg.table, cfg.chunk, 0);
            t.phase.Scanning? && Step(cfg, t, e).phase == Draining ==>
              Batches(Step(cfg, t, e).readings) == all && Conveys(Step(cfg, t, e).requests, Requests(cfg, all))
  {
    hide Run, CounterAgrees, FifoAgrees, Step, Conveys, Requests, Greedy, PortAgrees;
    RunKeepsInv(cfg, s, events);
    GreedyReadable(cfg.table, cfg.chunk, 0);
    var t, all := Run(cfg, s, events), Greedy(cfg.table, cfg.chunk, 0);
    assert Batches(t.readings) == all[..|t.readings|];
    if t.phase.Scanning? && Step(cfg, t, e).phase == Draining {
      StepKeepsWire(cfg, t, e);
      LastSegment(cfg, t, e);
    }
  }

  lemma LastSegment(cfg: Config, t: UnitState, e: Event)
    requires ScanAgrees(cfg, t) && t.phase.Scanning? && Step(cfg, t, e).phase == Draining
    ensures Batches(Step(cfg, t, e).readings) == Greedy(cfg.table, cfg.chunk, 0)
  {
    hide ReadCode, Delivered, StoreReading, Frames, ReadFrames, ProbeFrames, RunEnd;
    var b := NextBatch(cfg, t.phase.row);
    assert Greedy(cfg.table, cfg.chunk, t.phase.row) == [b] + Greedy(cfg.table, cfg.chunk, b.end);
    assert Greedy(cfg.table, cfg.chunk, b.end) == [];
    assert Batches(Step(cfg, t, e).readings) == Batches(t.readings) + [b];
  }

  lemma {:induction false} EveryBatchAsked(cfg: Config, batches: seq<Batch>)
    requires Inside(cfg.table, batches)
    requires forall i :: 0 <= i < |batches| ==> batches[i].end - batches[i].start <= MAX_READ
    ensures |Requests(cfg, batches)| == |batches|
    ensures forall i :: 0 <= i < |batches| ==> Requests(cfg, batches)[i] == Ask(cfg, batches[i])
  {
    hide Ask;
    if |batches| > 0 { EveryBatchAsked(cfg, batches[..|batches| - 1]); }
  }

  /** With a chunk FC03 allows, the requests correspond to the batches one to one: the k-th request names
      the unit, the first device address and the length of the k-th batch. */
  lemma OneRequestPerBatch(cfg: Config)
    requires cfg.chunk <= MAX_READ
    ensures var all := Greedy(cfg.table, cfg.chunk, 0);
            && Inside(cfg.table, all) && |Requests(cfg, all)| == |all|
            && forall i :: 0 <= i < |all| ==>
                 var r := Requests(cfg, all)[i];
                 && r.ReadHolding? && r.unit == cfg.unit && r.qty == all[i].end - all[i].start
                 && Nat16(r.addr) == cfg.table[all[i].start].device
  {
    hide Greedy, Requests, U16, Nat16;
    var all := Greedy(cfg.table, cfg.chunk, 0);
    GreedyReadable(cfg.table, cfg.chunk, 0);
    EveryBatchAsked(cfg, all);
    forall i | 0 <= i < |all| ensures Nat16(Requests(cfg, all)[i].addr) == cfg.table[all[i].start].device {
      WordCount(cfg.table[all[i].start].device);
    }
  }
}
