/** The callbacks and the thread loop of one unit as functions on its state, for any environment. Each
    is proved to be a sequence of UnitModel actions and to keep its invariant. */
module UnitRuns {
  import opened RtuCodec
  import opened RtuClient
  import opened RegisterMap
  import opened SegmentScan
  import opened CommandQueue
  import opened UnitModel

  /** A push of the other thread. */
  datatype Arrival = Arrival(addr: bv16, values: seq<bv16>, n: nat, mode: WriteMode)
  {
    predicate Sound() { 1 <= n <= MAX_WRITE ==> n <= |values| }
  }

  /** What happens around one action of the thread: pushes that come first, then the line's answer. */
  datatype Turn = Turn(arrivals: seq<Arrival>, ex: Exchange)

  predicate SoundTurn(turn: Turn) { forall a :: a in turn.arrivals ==> a.Sound() }

  const QUIET := Turn([], Exchange(false, []))

  /** Once the listed turns are over nothing more arrives. */
  function TurnAt(turns: seq<Turn>, t: nat): (turn: Turn) {
    if t < |turns| then turns[t] else QUIET
  }

  datatype Cycle = Cycle(drain: seq<Turn>, scan: seq<Turn>)

  /** One attempt to connect and the calls of process_callback it leads to. */
  datatype Life = Life(arrivals: seq<Arrival>, fd: int, configured: bool, probe: Exchange, cycles: seq<Cycle>)

  predicate SoundTurns(turns: seq<Turn>) {
    forall i :: 0 <= i < |turns| ==> SoundTurn(turns[i])
  }

  predicate SoundLife(life: Life) {
    && (forall a :: a in life.arrivals ==> a.Sound())
    && forall c :: 0 <= c < |life.cycles| ==>
         SoundTurns(life.cycles[c].drain) && SoundTurns(life.cycles[c].scan)
  }

  ghost predicate Reaches(cfg: Config, s: UnitState, t: UnitState)
    requires |s.pool| == POOL_SIZE
  {
    exists events :: Run(cfg, s, events) == t
  }

  lemma {:induction false} RunConcat(cfg: Config, s: UnitState, a: seq<Event>, b: seq<Event>)
    requires |s.pool| == POOL_SIZE
    ensures Run(cfg, s, a + b) == Run(cfg, Run(cfg, s, a), b)
  {
    hide Step;
    if |b| == 0 {
      assert a + b == a;
    } else {
      assert (a + b)[..|a + b| - 1] == a + b[..|b| - 1];
      RunConcat(cfg, s, a, b[..|b| - 1]);
    }
  }

  lemma ReachesStep(cfg: Config, s: UnitState, t: UnitState, e: Event)
    requires |s.pool| == POOL_SIZE && Reaches(cfg, s, t) && |t.pool| == POOL_SIZE
    ensures Reaches(cfg, s, Step(cfg, t, e))
  {
    hide Step, Run;
    var a :| Run(cfg, s, a) == t;
    RunExtends(cfg, s, a, e);
  }

  lemma ReachesOn(cfg: Config, s: UnitState, t: UnitState, u: UnitState)
    requires |s.pool| == |t.pool| == POOL_SIZE && Reaches(cfg, s, t) && Reaches(cfg, t, u)
    ensures Reaches(cfg, s, u)
  {
    hide Step, Run;
    var a :| Run(cfg, s, a) == t;
    var b :| Run(cfg, t, b) == u;
    RunConcat(cfg, s, a, b);
  }

  lemma ReachesSelf(cfg: Config, s: UnitState)
    requires |s.pool| == POOL_SIZE
    ensures Reaches(cfg, s, s)
  {
    assert Run(cfg, s, []) == s;
  }

  /** One action, with what every run needs to know about it. */
  ghost function Act(cfg: Config, s: UnitState, e: Event): (t: UnitState)
    requires Inv(cfg, s)
    ensures Inv(cfg, t) && |s.pool| == POOL_SIZE && Reaches(cfg, s, t) && t == Step(cfg, s, e)
  {
    StepKeepsInv(cfg, s, e);
    ReachesSelf(cfg, s);
    ReachesStep(cfg, s, s, e);
    Step(cfg, s, e)
  }

  function PushOf(a: Arrival): Event { Push(a.addr, a.values, a.n, a.mode) }

  lemma PushKeepsPhase(cfg: Config, s: UnitState, a: Arrival)
    requires |s.pool| == POOL_SIZE
    ensures var t := Step(cfg, s, PushOf(a));
            t.phase == s.phase && t.attempts == s.attempts && t.passes == s.passes
  {}

  function PushEvents(arrivals: seq<Arrival>): (events: seq<Event>)
    ensures |events| == |arrivals|
  {
    seq(|arrivals|, i requires 0 <= i < |arrivals| => PushOf(arrivals[i]))
  }

  lemma OneMorePush(cfg: Config, s: UnitState, arrivals: seq<Arrival>)
    requires |s.pool| == POOL_SIZE && |arrivals| > 0
    ensures var n := |arrivals| - 1;
            Run(cfg, s, PushEvents(arrivals)) ==
            Step(cfg, Run(cfg, s, PushEvents(arrivals[..n])), PushOf(arrivals[n]))
  {
    hide Step, PushOf;
    assert PushEvents(arrivals)[..|arrivals| - 1] == PushEvents(arrivals[..|arrivals| - 1]);
  }

  ghost function Pushes(cfg: Config, s: UnitState, arrivals: seq<Arrival>): (t: UnitState)
    requires Inv(cfg, s)
    ensures Inv(cfg, t) && |s.pool| == POOL_SIZE && Reaches(cfg, s, t) && t.phase == s.phase
    ensures t == Run(cfg, s, PushEvents(arrivals)) && t.attempts == s.attempts && t.passes == s.passes
  {
    hide Inv, Step, Reaches, PushOf;
    InvPool(cfg, s);
    ReachesSelf(cfg, s);
    if |arrivals| == 0 then s
    else
      var n := |arrivals| - 1;
      var before := Pushes(cfg, s, arrivals[..n]);
      PushKeepsPhase(cfg, before, arrivals[n]);
      OneMorePush(cfg, s, arrivals);
      var t := Act(cfg, before, PushOf(arrivals[n]));
      ReachesOn(cfg, s, before, t);
      t
  }

  lemma InvPool(cfg: Config, s: UnitState)
    requires Inv(cfg, s)
    ensures |s.pool| == POOL_SIZE
    ensures s.phase.Scanning? ==> s.phase.row < |cfg.table|
    ensures s.phase != Down ==> (s.phase == Failing <==> Trailing(s.outcomes) == FAIL_THRESHOLD)
    ensures s.phase == Down ==> !s.open
    ensures s.phase != Down ==> s.open && s.connection == Connected
  {
    hide FifoAgrees, Trailing, Greedy, StoreReadings;
  }

  lemma DrainPhases(cfg: Config, s: UnitState, ex: Exchange)
    requires |s.pool| == POOL_SIZE && s.phase == Draining
    ensures var t := Step(cfg, s, Drain(ex));
            if s.queue != [] then t.phase == Draining && t.queue == s.queue[1..]
            else t.queue == [] && t.phase == if |cfg.table| == 0 then Draining else Scanning(0)
    ensures var t := Step(cfg, s, Drain(ex));
            t.attempts == s.attempts && t.passes == s.passes + if s.queue != [] then 0 else 1
  {
    hide Frames;
  }

  /** The drain loop: before every pop the pushes of the next turn may arrive; stops at an empty queue. */
  ghost function DrainRun(cfg: Config, s: UnitState, turns: seq<Turn>, t: nat): (u: UnitState)
    requires Inv(cfg, s) && s.phase == Draining
    ensures Inv(cfg, u) && |s.pool| == POOL_SIZE && Reaches(cfg, s, u)
    ensures u.queue == [] && u.phase == if |cfg.table| == 0 then Draining else Scanning(0)
    ensures u.attempts == s.attempts && u.passes == s.passes + 1
    decreases if t < |turns| then |turns| - t else 0, |s.queue|
  {
    hide Inv, Step, Reaches;
    InvPool(cfg, s);
    var pushed := Pushes(cfg, s, TurnAt(turns, t).arrivals);
    InvPool(cfg, pushed);
    DrainPhases(cfg, pushed, TurnAt(turns, t).ex);
    var next := Act(cfg, pushed, Drain(TurnAt(turns, t).ex));
    ReachesOn(cfg, s, pushed, next);
    if pushed.queue == [] then next
    else
      var u := DrainRun(cfg, next, turns, t + 1);
      ReachesOn(cfg, s, next, u);
      u
  }

  lemma SegmentPhases(cfg: Config, s: UnitState, ex: Exchange)
    requires |s.pool| == POOL_SIZE && s.phase.Scanning? && s.phase.row < |cfg.table|
    ensures var t := Step(cfg, s, Segment(ex));
            t.phase == Failing || t.phase == Draining
            || (t.phase.Scanning? && s.phase.row < t.phase.row < |cfg.table|)
    ensures var t := Step(cfg, s, Segment(ex)); t.attempts == s.attempts && t.passes == s.passes
  {
    hide Delivered, StoreReading, RunEnd;
  }

  /** The segmented scan, to its end or to the fifth failure in a row. */
  ghost function ScanRun(cfg: Config, s: UnitState, turns: seq<Turn>, t: nat): (u: UnitState)
    requires Inv(cfg, s) && s.phase.Scanning?
    ensures Inv(cfg, u) && |s.pool| == POOL_SIZE && Reaches(cfg, s, u)
    ensures u.phase == Failing || u.phase == Draining
    ensures u.attempts == s.attempts && u.passes == s.passes
    decreases |cfg.table| - s.phase.row
  {
    hide Inv, Step, Reaches;
    InvPool(cfg, s);
    var pushed := Pushes(cfg, s, TurnAt(turns, t).arrivals);
    InvPool(cfg, pushed);
    SegmentPhases(cfg, pushed, TurnAt(turns, t).ex);
    var next := Act(cfg, pushed, Segment(TurnAt(turns, t).ex));
    ReachesOn(cfg, s, pushed, next);
    if !next.phase.Scanning? then next
    else
      var u := ScanRun(cfg, next, turns, t + 1);
      ReachesOn(cfg, s, next, u);
      u
  }

  ghost function ProcessRun(cfg: Config, s: UnitState, cycle: Cycle): (u: UnitState)
    requires Inv(cfg, s) && s.phase == Draining
    ensures Inv(cfg, u) && |s.pool| == POOL_SIZE && Reaches(cfg, s, u)
    ensures u.phase == Failing || u.phase == Draining
    ensures u.attempts == s.attempts && u.passes == s.passes + 1
  {
    hide Inv, Reaches;
    var drained := DrainRun(cfg, s, cycle.drain, 0);
    InvPool(cfg, drained);
    if !drained.phase.Scanning? then drained
    else
      var u := ScanRun(cfg, drained, cycle.scan, 0);
      ReachesOn(cfg, s, drained, u);
      u
  }

  /** Calls of process_callback until one returns -1. */
  ghost function CyclesRun(cfg: Config, s: UnitState, cycles: seq<Cycle>, c: nat): (u: UnitState)
    requires Inv(cfg, s) && (s.phase == Failing || s.phase == Draining)
    ensures Inv(cfg, u) && |s.pool| == POOL_SIZE && Reaches(cfg, s, u)
    ensures u.phase == Failing || u.phase == Draining
    ensures u.attempts == s.attempts && (c <= |cycles| ==> s.passes <= u.passes <= s.passes + |cycles| - c)
    ensures u.phase == Draining && c <= |cycles| ==> u.passes == s.passes + |cycles| - c
    decreases |cycles| - c
  {
    hide Inv, Reaches;
    InvPool(cfg, s);
    ReachesSelf(cfg, s);
    if c >= |cycles| || s.phase == Failing then s
    else
      var next := ProcessRun(cfg, s, cycles[c]);
      InvPool(cfg, next);
      var u := CyclesRun(cfg, next, cycles, c + 1);
      ReachesOn(cfg, s, next, u);
      u
  }

  lemma InitPhases(cfg: Config, s: UnitState, e: Event)
    requires |s.pool| == POOL_SIZE && e.Init? && s.phase == Down
    ensures Step(cfg, s, e).phase == Down || Step(cfg, s, e).phase == Draining
    ensures Step(cfg, s, e).attempts == s.attempts + 1 && Step(cfg, s, e).passes == s.passes
  {
    hide Probed;
  }

  lemma ErrorPhase(cfg: Config, s: UnitState)
    requires |s.pool| == POOL_SIZE && s.phase == Failing
    ensures var t := Step(cfg, s, Error);
            t.phase == Down && t.connection == Disconnected && t.attempts == s.attempts && t.passes == s.passes
  {}

  /** One pass of the outer loop: one attempt to connect, then all the given calls of process_callback unless
      one fails. */
  ghost function LifeRun(cfg: Config, s: UnitState, life: Life): (u: UnitState)
    requires Inv(cfg, s) && s.phase == Down
    ensures Inv(cfg, u) && |s.pool| == POOL_SIZE && Reaches(cfg, s, u)
    ensures u.phase == Down || u.phase == Draining
    ensures u.attempts == s.attempts + 1 && s.passes <= u.passes <= s.passes + |life.cycles|
    ensures u.phase == Draining ==> u.passes == s.passes + |life.cycles|
  {
    hide Inv, Reaches, Step;
    var pushed := Pushes(cfg, s, life.arrivals);
    var e := Init(life.fd, life.configured, life.probe);
    InvPool(cfg, pushed);
    InitPhases(cfg, pushed, e);
    var up := Act(cfg, pushed, e);
    ReachesOn(cfg, s, pushed, up);
    if up.phase == Down then up
    else
      var worked := CyclesRun(cfg, up, life.cycles, 0);
      InvPool(cfg, up);
      ReachesOn(cfg, s, up, worked);
      if worked.phase == Draining then worked
      else
        InvPool(cfg, worked);
        ErrorPhase(cfg, worked);
        var closed := Act(cfg, worked, Error);
        ReachesOn(cfg, s, worked, closed);
        closed
  }

  /** The thread loop until the stop flag is seen, which is when a live connection's cycles run out. */
  ghost function ThreadRun(cfg: Config, s: UnitState, lives: seq<Life>, k: nat): (u: UnitState)
    requires Inv(cfg, s) && s.phase == Down
    ensures Inv(cfg, u) && |s.pool| == POOL_SIZE && Reaches(cfg, s, u)
    ensures u.phase == Down || u.phase == Draining
    ensures k <= |lives| ==> s.attempts <= u.attempts <= s.attempts + |lives| - k
    ensures u.phase == Down && k <= |lives| ==> u.attempts == s.attempts + |lives| - k
    decreases |lives| - k
  {
    hide Inv, Reaches;
    InvPool(cfg, s);
    ReachesSelf(cfg, s);
    if k >= |lives| then s
    else
      var next := LifeRun(cfg, s, lives[k]);
      InvPool(cfg, next);
      if next.phase == Draining then next
      else
        var u := ThreadRun(cfg, next, lives, k + 1);
        ReachesOn(cfg, s, next, u);
        u
  }
}
