/** The polling code of one unit: callbacks, the thread loop, and the pushes of the other thread. Every
    method is proved to perform exactly the actions of UnitModel. */
module InverterUnit {
  import opened Crc16
  import opened WireNumbers
  import opened Options
  import opened RtuCodec
  import opened RtuClient
  import opened RegisterMap
  import opened SegmentScan
  import opened CommandQueue
  import opened UnitModel
  import opened UnitRuns
  import opened UnitAnswers

  class Unit {
    const cfg: Config
    const client: Client
    const queue: Queue
    const pool: RegisterPool
    var commFailCount: nat
    var connection: Connection
    ghost var phase: Phase
    ghost var accepted: seq<Command>
    ghost var popped: seq<Command>
    ghost var written: seq<seq<bv8>>
    ghost var probes: seq<seq<bv8>>
    ghost var outcomes: seq<bool>
    ghost var requests: seq<seq<bv8>>
    ghost var readings: seq<Reading>
    ghost var scanPool: seq<bv16>
    ghost var attempts: nat
    ghost var passes: nat

    ghost predicate Valid()
      reads this, client, queue, queue.entries, pool, pool.cells
    {
      && queue.Valid() && pool.Valid() && Inv(cfg, State())
      && (client.IsOpen() ==> client.unit == cfg.unit)
    }

    ghost function State(): UnitState
      reads this, client, queue, pool, pool.cells
    {
      UnitState(phase, queue.pending, commFailCount, client.IsOpen(), connection, pool.cells[..],
                accepted, popped, written, probes, outcomes, requests, readings, scanPool, attempts, passes)
    }

    constructor (cfg: Config, connection: Connection)
      ensures Valid() && Fresh(State()) && this.cfg == cfg
      ensures fresh(client) && fresh(queue) && fresh(queue.entries) && fresh(pool) && fresh(pool.cells)
    {
      var c := new Client();
      var q := new Queue();
      var p := new RegisterPool();
      this.cfg, this.client, this.queue, this.pool := cfg, c, q, p;
      this.commFailCount, this.connection := 0, connection;
      phase, accepted, popped, written, probes, outcomes := Down, [], [], [], [], [];
      requests, readings, attempts, passes := [], [], 0, 0;
      scanPool := p.cells[..];
      new;
      FreshInv(cfg, State());
    }

    /** A push to this unit's queue, from the other thread at any time. */
    method CmdPush(a: Arrival) returns (ok: bool)
      requires Valid() && a.Sound()
      modifies this, queue, queue.entries
      ensures Valid() && State() == Step(cfg, old(State()), PushOf(a))
      ensures ok <==> 1 <= a.n <= 123 && |old(State().queue)| < 16
    {
      hide Inv;
      StepKeepsInv(cfg, State(), PushOf(a));
      ok := queue.Push(a.addr, a.values, a.n, a.mode);
      if ok {
        accepted := accepted + [Command(a.addr, a.values[..a.n], a.mode)];
      }
    }

    /** Opens the port and makes sure a device answers on it; sent is what went to the serial port. */
    method OpenAndProbe(fd: int, configured: bool, probe: Exchange) returns (ready: bool, sent: seq<seq<bv8>>)
      requires !client.IsOpen()
      modifies client
      ensures ready <==> DeviceAnswers(cfg, fd, configured, probe)
      ensures sent == ProbeFrames(cfg, Init(fd, configured, probe))
      ensures client.IsOpen() == ready && (ready ==> client.unit == cfg.unit)
    {
      hide ReadCode, Encode, DeviceAnswers;
      ProbedExactly(cfg, fd, configured, probe);
      sent := [];
      var connected := client.Connect(cfg.unit, fd, configured);
      if connected != 0 {
        return false, [];
      }
      if |cfg.table| > 0 {
        var code;
        code, sent := client.ProbeDevice(U16(cfg.table[0].device), 1, probe);
        if code != OK {
          client.Disconnect();
          return false, sent;
        }
      }
      return true, sent;
    }

    method InitCallback(fd: int, configured: bool, probe: Exchange) returns (result: int)
      requires Valid() && phase == Down
      modifies this, client
      ensures Valid() && State() == Step(cfg, old(State()), Init(fd, configured, probe))
      ensures result == if DeviceAnswers(cfg, fd, configured, probe) then 0 else -1
      ensures client.IsOpen() <==> result == 0
      ensures phase == if result == 0 then Draining else Down
    {
      hide Inv, Probed, ProbeFrames, DeviceAnswers;
      ProbedExactly(cfg, fd, configured, probe);
      ghost var e := Init(fd, configured, probe);
      StepKeepsInv(cfg, State(), e);
      InvPool(cfg, State());
      var ready, sent := OpenAndProbe(fd, configured, probe);
      probes, attempts := probes + sent, attempts + 1;
      if !ready {
        return -1;
      }
      commFailCount := 0;
      connection := Connected;
      phase, outcomes := Draining, [];
      return 0;
    }

    /** FC06 or FC16, as mode and count prescribe; sent is what went to the serial port. */
    method WriteRegisters(cmd: Entry, ex: Exchange) returns (result: int, sent: seq<seq<bv8>>)
      requires cmd.Live()
      ensures sent == if client.IsOpen() then Frames(client.unit, cmd.Payload()) else []
      ensures result == 0 || result == -1
      ensures cmd.count == 1 && (cmd.mode == Auto || cmd.mode == ForceSingle) ==>
                (result == 0 <==> client.IsOpen() && Acknowledged(client.unit, 0x06, ex))
      ensures cmd.mode == ForceMultiple || (cmd.mode == Auto && cmd.count >= 2) ==>
                (result == 0 <==> client.IsOpen() && Acknowledged(client.unit, 0x10, ex))
      ensures cmd.mode == ForceSingle && cmd.count >= 2 ==> result == -1 && sent == []
    {
      hide Encode, WriteCode, Acknowledged;
      WrittenExactly(client.IsOpen(), client.unit, cmd.Payload(), ex);
      var code: int;
      sent := [];
      match cmd.mode {
        case ForceSingle =>
          if cmd.count != 1 {
            return -1, [];
          }
          code, sent := client.WriteSingleRegister(cmd.addr, cmd.values[0], ex);
        case ForceMultiple =>
          code, sent := client.WriteMultipleRegisters(cmd.addr, cmd.values[..cmd.count], ex);
        case Auto =>
          if cmd.count == 1 {
            code, sent := client.WriteSingleRegister(cmd.addr, cmd.values[0], ex);
          } else {
            code, sent := client.WriteMultipleRegisters(cmd.addr, cmd.values[..cmd.count], ex);
          }
      }
      result := if code == OK then 0 else -1;
    }

    /** Pushes of the other thread, in order. */
    method Arrivals(arrivals: seq<Arrival>)
      requires Valid() && forall a :: a in arrivals ==> a.Sound()
      modifies this, queue, queue.entries
      ensures Valid() && State() == Pushes(cfg, old(State()), arrivals)
    {
      hide Step, Inv;
      ghost var s := State();
      for i := 0 to |arrivals|
        invariant Valid() && State() == Pushes(cfg, s, arrivals[..i])
      {
        var ok := CmdPush(arrivals[i]);
        assert arrivals[..i + 1][..i] == arrivals[..i];
      }
      assert arrivals[..|arrivals|] == arrivals;
    }

    /** The queue is empty: the scan begins, if there is anything to read. */
    method BeginScan()
      modifies this`phase, this`requests, this`readings, this`scanPool, this`passes
      ensures State() == Begun(cfg, old(State()))
    {
      passes := passes + 1;
      if |cfg.table| > 0 {
        phase, requests, readings, scanPool := Scanning(0), [], [], pool.cells[..];
      }
    }

    /** Writes a popped command; a failed write changes nothing else. */
    method WriteOut(cmd: Entry, ex: Exchange)
      requires cmd.Live() && client.IsOpen() && client.unit == cfg.unit
      modifies this`popped, this`written
      ensures popped == old(popped) + [cmd.Payload()] && written == old(written) + Frames(cfg.unit, cmd.Payload())
    {
      hide Frames, Acknowledged;
      var result, sent := WriteRegisters(cmd, ex);
      popped, written := popped + [cmd.Payload()], written + sent;
    }

    /** One turn of the drain loop: pop a command and write it out, or find the queue empty. */
    method DrainTurn(ex: Exchange) returns (more: bool)
      requires Valid() && phase == Draining
      modifies this, queue
      ensures Valid() && State() == Step(cfg, old(State()), Drain(ex))
      ensures more <==> old(queue.pending) != []
      ensures more ==> phase == Draining && |queue.pending| + 1 == |old(queue.pending)|
      ensures !more ==> queue.pending == [] && phase == if |cfg.table| == 0 then Draining else Scanning(0)
    {
      hide Inv, Frames, Step;
      ghost var s := State();
      StepKeepsInv(cfg, s, Drain(ex));
      InvPool(cfg, s);
      DrainStep(cfg, s, ex);
      var entry := queue.Pop();
      if entry.None? {
        BeginScan();
        return false;
      }
      WriteOut(entry.value, ex);
      return true;
    }

    /** FC03 for a run of rows; what goes to the serial port is recorded. */
    method Request(b: Batch, buf: array<bv16>, ex: Exchange) returns (code: int)
      requires client.IsOpen() && client.unit == cfg.unit && b.start < b.end <= |cfg.table| && buf.Length == MAX_READ
      modifies this`requests, buf
      ensures code == ReadCode(true, cfg.unit, b.end - b.start, ex)
      ensures code == OK ==> |Incoming(ex.events)| >= 5 + 2 * (b.end - b.start) && b.end - b.start <= MAX_READ
      ensures code == OK ==> buf[..b.end - b.start] == ReadValues(b.end - b.start, ex)
      ensures requests == old(requests) + ReadFrames(cfg, true, b)
    {
      hide ReadCode, ReadValues, Incoming, Encode, U16;
      ReadHasBytes(true, cfg.unit, b.end - b.start, ex);
      var sent;
      code, sent := client.ReadHoldingRegisters(U16(cfg.table[b.start].device), b.end - b.start, buf, ex);
      requests := requests + sent;
    }

    /** Takes the outcome of a segment read: on success the values go to the pool, on failure the counter grows. */
    method Account(b: Batch, buf: array<bv16>, code: int, ex: Exchange) returns (failed: bool)
      requires queue.Valid() && pool.Valid() && buf != pool.cells && buf.Length == MAX_READ
      requires b.start < b.end <= |cfg.table| && code == ReadCode(true, cfg.unit, b.end - b.start, ex)
      requires code == OK ==> |Incoming(ex.events)| >= 5 + 2 * (b.end - b.start) && b.end - b.start <= MAX_READ
      requires code == OK ==> buf[..b.end - b.start] == ReadValues(b.end - b.start, ex)
      modifies this`commFailCount, this`phase, this`outcomes, this`readings, pool.cells
      ensures queue.Valid() && pool.Valid() && State() == Accounted(cfg, old(State()), b, ex)
      ensures failed <==> phase == Failing
    {
      hide ReadCode, ReadValues, Incoming, StoreAll, Delivered;
      ghost var r := Reading(b, Delivered(cfg, true, b, ex));
      readings, outcomes := readings + [r], outcomes + [code == OK];
      if code != OK {
        commFailCount := commFailCount + 1;
        if commFailCount >= FAIL_THRESHOLD {
          phase := Failing;
          return true;
        }
      } else {
        commFailCount := 0;
        pool.ReadToPool(cfg.table, buf, cfg.table[b.start].device, b.end - b.start);
      }
      phase := if b.end < |cfg.table| then Scanning(b.end) else Draining;
      return false;
    }

    /** One segment read and its outcome. */
    method ReadSegment(start: nat, length: nat, buf: array<bv16>, ex: Exchange) returns (failed: bool)
      requires Valid() && phase == Scanning(start) && buf.Length == MAX_READ && buf != pool.cells
      requires start < |cfg.table| && start + length == RunEnd(cfg.table, cfg.chunk, start, start + 1)
      modifies this, pool.cells, buf
      ensures Valid() && State() == Step(cfg, old(State()), Segment(ex))
      ensures failed <==> phase == Failing
      ensures !failed ==> phase == if start + length < |cfg.table| then Scanning(start + length) else Draining
    {
      hide Inv, ReadCode, ReadValues, RunEnd, Step, ReadFrames, Incoming, Accounted;
      ghost var s := State();
      var b := Batch(start, start + length);
      StepKeepsInv(cfg, s, Segment(ex));
      InvPool(cfg, s);
      SegmentStep(cfg, s, b, ex);
      AccountedPhase(cfg, s, b, ex);
      var code := Request(b, buf, ex);
      failed := Account(b, buf, code, ex);
    }

    /** Drains the queue; pushes of the other thread may arrive before every pop. */
    method DrainQueue(turns: seq<Turn>)
      requires Valid() && phase == Draining && SoundTurns(turns)
      modifies this, queue, queue.entries
      ensures Valid() && State() == DrainRun(cfg, old(State()), turns, 0)
    {
      hide Step, Inv, Pushes, DrainRun;
      ghost var s := State();
      var t, more := 0, true;
      while more
        invariant Valid()
        invariant more ==> phase == Draining && DrainRun(cfg, s, turns, 0) == DrainRun(cfg, State(), turns, t)
        invariant !more ==> State() == DrainRun(cfg, s, turns, 0)
        decreases more, if t < |turns| then |turns| - t else 0, |queue.pending|
      {
        DrainUnfolds(cfg, State(), turns, t);
        var turn := TurnAt(turns, t);
        Arrivals(turn.arrivals);
        more := DrainTurn(turn.ex);
        t := t + 1;
      }
    }

    /** The segmented scan. */
    method Scan(turns: seq<Turn>) returns (result: int)
      requires Valid() && phase == Scanning(0) && |cfg.table| > 0 && SoundTurns(turns)
      modifies this, queue, queue.entries, pool.cells
      ensures Valid() && State() == ScanRun(cfg, old(State()), turns, 0)
      ensures result == if phase == Failing then -1 else 0
    {
      hide Step, Inv, Pushes, ScanRun;
      ghost var s := State();
      var table := cfg.table;
      var buf := new bv16[MAX_READ];
      var segStart, segLen, t := 0, 1, 0;
      for i := 1 to |table| + 1
        invariant Valid()
        invariant i <= |table| ==> phase == Scanning(segStart) && segStart + segLen == i
        invariant i <= |table| ==> ScanRun(cfg, s, turns, 0) == ScanRun(cfg, State(), turns, t)
        invariant i <= |table| ==>
                    RunEnd(table, cfg.chunk, segStart, segStart + 1) == RunEnd(table, cfg.chunk, segStart, i)
        invariant i == |table| + 1 ==> phase == Draining && State() == ScanRun(cfg, s, turns, 0)
      {
        var contiguous := i < |table| && table[i].device == table[i - 1].device + 1;
        var chunkFull := segLen >= cfg.chunk;
        if contiguous && !chunkFull {
          segLen := segLen + 1;
          continue;
        }
        ScanUnfolds(cfg, State(), turns, t);
        var turn := TurnAt(turns, t);
        Arrivals(turn.arrivals);
        var failed := ReadSegment(segStart, segLen, buf, turn.ex);
        if failed {
          return -1;
        }
        t := t + 1;
        segStart, segLen := i, 1;
      }
      return 0;
    }

    /** Drain, then scan. Returns -1 exactly when the fifth read in a row has failed. */
    method ProcessCallback(cycle: Cycle) returns (result: int)
      requires Valid() && phase == Draining && SoundTurns(cycle.drain) && SoundTurns(cycle.scan)
      modifies this, queue, queue.entries, pool.cells
      ensures Valid() && State() == ProcessRun(cfg, old(State()), cycle)
      ensures result == if Trailing(outcomes) == 5 then -1 else 0
      ensures phase == if result == -1 then Failing else Draining
    {
      hide Step, Inv, DrainRun, ScanRun;
      DrainQueue(cycle.drain);
      if |cfg.table| == 0 {
        result := 0;
      } else {
        result := Scan(cycle.scan);
      }
      InvPool(cfg, State());
    }

    method ErrorCallback()
      requires Valid() && phase == Failing
      modifies this, client
      ensures Valid() && State() == Step(cfg, old(State()), Error)
      ensures phase == Down && !client.IsOpen() && connection == Disconnected && commFailCount == 0
      ensures queue.pending == old(queue.pending)
    {
      hide Inv;
      StepKeepsInv(cfg, State(), Error);
      client.Disconnect();
      commFailCount := 0;
      connection := Disconnected;
      phase := Down;
    }

    /** The thread loop until it sees the stop flag: init, then process until it fails, then the error
        callback and init again. */
    method RunThread(lives: seq<Life>)
      requires Valid() && phase == Down && forall i :: 0 <= i < |lives| ==> SoundLife(lives[i])
      modifies this, client, queue, queue.entries, pool.cells
      ensures Valid() && State() == ThreadRun(cfg, old(State()), lives, 0)
    {
      hide Step, Inv, Pushes, ProcessRun, CyclesRun, ThreadRun;
      ghost var s := State();
      for k := 0 to |lives|
        invariant Valid() && phase == Down
        invariant ThreadRun(cfg, s, lives, 0) == ThreadRun(cfg, State(), lives, k)
      {
        var life := lives[k];
        ThreadUnfolds(cfg, State(), lives, k);
        Arrivals(life.arrivals);
        var result := InitCallback(life.fd, life.configured, life.probe);
        if result != 0 {
          continue;
        }
        ghost var up := State();
        var c := 0;
        while c < |life.cycles| && result == 0
          invariant Valid() && phase == if result == 0 then Draining else Failing
          invariant CyclesRun(cfg, up, life.cycles, 0) == CyclesRun(cfg, State(), life.cycles, c)
          decreases |life.cycles| - c
        {
          CyclesUnfolds(cfg, State(), life.cycles, c);
          result := ProcessCallback(life.cycles[c]);
          c := c + 1;
        }
        CyclesUnfolds(cfg, State(), life.cycles, c);
        if result == 0 {
          return;
        }
        ErrorCallback();
      }
      ThreadUnfolds(cfg, State(), lives, |lives|);
    }
  }

  // ---- pushes by unit id ----

  /** The unit a uid names is the first that has it. */
  predicate Named(units: seq<Unit>, uid: bv8, k: nat) {
    k < |units| && units[k].cfg.unit == uid && forall i :: 0 <= i < k ==> units[i].cfg.unit != uid
  }

  ghost predicate Apart(units: seq<Unit>) {
    forall i, j :: 0 <= i < j < |units| ==>
      units[i] != units[j] && units[i].queue != units[j].queue && units[i].queue.entries != units[j].queue.entries
  }

  method UnitFromUid(units: seq<Unit>, uid: bv8) returns (at: Option<nat>)
    ensures at.Some? ==> Named(units, uid, at.value)
    ensures at.None? ==> forall k :: 0 <= k < |units| ==> units[k].cfg.unit != uid
  {
    for k := 0 to |units|
      invariant forall i :: 0 <= i < k ==> units[i].cfg.unit != uid
    {
      if units[k].cfg.unit == uid {
        return Some(k);
      }
    }
    return None;
  }

  /** inverter_cmd_push: refused exactly when the count is out of range, no unit has the uid, or sixteen
      commands of that unit are pending; no other unit is touched. */
  method CmdPush(units: seq<Unit>, uid: bv8, a: Arrival) returns (ok: bool)
    requires Apart(units) && (forall k :: 0 <= k < |units| ==> units[k].Valid()) && a.Sound()
    modifies units, set u | u in units :: u.queue, set u | u in units :: u.queue.entries
    ensures ok <==> 1 <= a.n <= 123 && exists k: nat :: Named(units, uid, k) && |old(units[k].queue.pending)| < 16
    ensures forall k :: 0 <= k < |units| ==>
              units[k].Valid()
              && units[k].State() == if Named(units, uid, k) then Step(units[k].cfg, old(units[k].State()), PushOf(a))
                                     else old(units[k].State())
  {
    hide Inv, Step;
    if a.n == 0 || a.n > MAX_WRITE {
      forall k | 0 <= k < |units| { PushOutOfRange(units[k].cfg, units[k].State(), a); }
      return false;
    }
    var at := UnitFromUid(units, uid);
    if at.None? {
      return false;
    }
    ok := units[at.value].CmdPush(a);
  }

  lemma PushOutOfRange(cfg: Config, s: UnitState, a: Arrival)
    requires |s.pool| == POOL_SIZE && !(1 <= a.n <= MAX_WRITE)
    ensures Step(cfg, s, PushOf(a)) == s
  {}

  lemma DrainUnfolds(cfg: Config, s: UnitState, turns: seq<Turn>, t: nat)
    requires Inv(cfg, s) && s.phase == Draining
    ensures var pushed := Pushes(cfg, s, TurnAt(turns, t).arrivals);
            var next := Act(cfg, pushed, Drain(TurnAt(turns, t).ex));
            if pushed.queue == [] then DrainRun(cfg, s, turns, t) == next
            else next.phase == Draining && DrainRun(cfg, s, turns, t) == DrainRun(cfg, next, turns, t + 1)
  {
    hide Inv, Step, Pushes;
    var pushed := Pushes(cfg, s, TurnAt(turns, t).arrivals);
    InvPool(cfg, pushed);
    DrainPhases(cfg, pushed, TurnAt(turns, t).ex);
  }

  lemma ScanUnfolds(cfg: Config, s: UnitState, turns: seq<Turn>, t: nat)
    requires Inv(cfg, s) && s.phase.Scanning?
    ensures var next := Act(cfg, Pushes(cfg, s, TurnAt(turns, t).arrivals), Segment(TurnAt(turns, t).ex));
            ScanRun(cfg, s, turns, t) == if next.phase.Scanning? then ScanRun(cfg, next, turns, t + 1) else next
  {
    hide Inv, Step, Pushes;
  }

  lemma CyclesUnfolds(cfg: Config, s: UnitState, cycles: seq<Cycle>, c: nat)
    requires Inv(cfg, s) && (s.phase == Failing || s.phase == Draining)
    ensures CyclesRun(cfg, s, cycles, c) ==
            if c >= |cycles| || s.phase == Failing then s
            else CyclesRun(cfg, ProcessRun(cfg, s, cycles[c]), cycles, c + 1)
  {
    hide Inv, ProcessRun;
  }

  lemma ThreadUnfolds(cfg: Config, s: UnitState, lives: seq<Life>, k: nat)
    requires Inv(cfg, s) && s.phase == Down
    ensures k >= |lives| ==> ThreadRun(cfg, s, lives, k) == s
    ensures k < |lives| ==>
              var next := LifeRun(cfg, s, lives[k]);
              ThreadRun(cfg, s, lives, k) == if next.phase == Draining then next else ThreadRun(cfg, next, lives, k + 1)
  {
    hide Inv, LifeRun;
  }

  ghost function Sent(cfg: Config, s: UnitState): UnitState
    requires s.queue != [] && Sendable(s.queue[0])
  {
    s.(queue := s.queue[1..], popped := s.popped + [s.queue[0]],
       written := s.written + Frames(cfg.unit, s.queue[0]))
  }

  function Begun(cfg: Config, s: UnitState): UnitState {
    var drained := s.(passes := s.passes + 1);
    if |cfg.table| == 0 then drained
    else drained.(phase := Scanning(0), requests := [], readings := [], scanPool := s.pool)
  }

  lemma DrainStep(cfg: Config, s: UnitState, ex: Exchange)
    requires Inv(cfg, s) && s.phase == Draining
    ensures s.queue == [] ==>
              Step(cfg, s, Drain(ex)) == Begun(cfg, s)
    ensures s.queue != [] ==>
              Sendable(s.queue[0]) && Step(cfg, s, Drain(ex)) == Sent(cfg, s)
  {
    hide Frames, ScanAgrees, WireAgrees, AllFrames;
  }

  /** The state after taking the outcome of a segment read. */
  ghost function Accounted(cfg: Config, s: UnitState, b: Batch, ex: Exchange): (t: UnitState)
    requires |s.pool| == POOL_SIZE && b.start < b.end <= |cfg.table|
    ensures |t.pool| == POOL_SIZE
  {
    ReadHasBytes(true, cfg.unit, b.end - b.start, ex);
    var ok := ReadCode(true, cfg.unit, b.end - b.start, ex) == OK;
    var fails := if ok then 0 else s.fails + 1;
    s.(fails := fails, outcomes := s.outcomes + [ok],
       readings := s.readings + [Reading(b, Delivered(cfg, true, b, ex))],
       pool := if ok then StoreAll(s.pool, cfg.table, ReadValues(b.end - b.start, ex), cfg.table[b.start].device)
               else s.pool,
       phase := if fails >= FAIL_THRESHOLD then Failing
                else if b.end < |cfg.table| then Scanning(b.end)
                else Draining)
  }

  lemma SegmentStep(cfg: Config, s: UnitState, b: Batch, ex: Exchange)
    requires |s.pool| == POOL_SIZE && s.open && s.phase == Scanning(b.start)
    requires b.start < |cfg.table| && b == NextBatch(cfg, b.start)
    ensures Step(cfg, s, Segment(ex)) ==
            Accounted(cfg, s.(requests := s.requests + ReadFrames(cfg, true, b)), b, ex)
  {
    ReadHasBytes(true, cfg.unit, b.end - b.start, ex);
    hide ReadCode, ReadValues, ReadFrames, RunEnd, Incoming, StoreAll;
  }

  lemma AccountedPhase(cfg: Config, s: UnitState, b: Batch, ex: Exchange)
    requires |s.pool| == POOL_SIZE && b.start < b.end <= |cfg.table|
    ensures forall t: UnitState :: |t.pool| == POOL_SIZE ==>
              var p := Accounted(cfg, t, b, ex).phase;
              p == Failing || p == if b.end < |cfg.table| then Scanning(b.end) else Draining
  {
    hide ReadCode, ReadValues, Delivered, Incoming, StoreAll;
  }
}
