/** The alarm engine: sticky and change detectors, one per table row. */
module AlarmEngine {
  import opened Options
  import Crc16

  datatype Condition = Bitmask | Range | Change | Other

  datatype Row = Row(condition: Condition, low: bv16, high: bv16)

  datatype RowState = RowState(isActive: bool, prevValue: bv16)

  const ZEROED := RowState(false, 0)

  datatype Kind = Trigger | Clear

  datatype Event = Event(row: nat, value: bv16, kind: Kind)

  function And(v: bv16, m: bv16): bv16 { v & m }

  predicate EvalBitmask(row: Row, value: bv16) { And(value, row.high) == row.high }

  predicate Outside(low: bv16, value: bv16, high: bv16) { value < low || value > high }

  predicate EvalRange(row: Row, value: bv16) { Outside(row.low, value, row.high) }

  predicate EvalChange(s: RowState, value: bv16) { value != s.prevValue }

  /** The condition of a sticky row. */
  predicate Holds(row: Row, value: bv16) {
    match row.condition
    case Bitmask => EvalBitmask(row, value)
    case Range => EvalRange(row, value)
    case Change => false
    case Other => false
  }

  predicate Sticky(row: Row) { row.condition == Bitmask || row.condition == Range }

  // ---- one row, one value ----

  function NextState(row: Row, s: RowState, value: bv16): RowState {
    if Sticky(row) then s.(isActive := Holds(row, value))
    else if row.condition == Change then s.(prevValue := value)
    else s
  }

  function Emitted(row: Row, i: nat, s: RowState, value: bv16): seq<Event> {
    if Sticky(row) then
      if Holds(row, value) && !s.isActive then [Event(i, value, Trigger)]
      else if !Holds(row, value) && s.isActive then [Event(i, value, Clear)]
      else []
    else if row.condition == Change && EvalChange(s, value) then [Event(i, value, Trigger)]
    else []
  }

  /** A failed read leaves the row alone. */
  function StateAfter(row: Row, s: RowState, read: Option<bv16>): RowState {
    if read.None? then s else NextState(row, s, read.value)
  }

  function EventsOf(row: Row, i: nat, s: RowState, read: Option<bv16>): seq<Event> {
    if read.None? then [] else Emitted(row, i, s, read.value)
  }

  // ---- one pass ----

  /** The events of the first n rows of a pass. */
  function PassEvents(table: seq<Row>, states: seq<RowState>, values: seq<Option<bv16>>, n: nat): seq<Event>
    requires n <= |table| == |states| == |values|
  {
    if n == 0 then []
    else PassEvents(table, states, values, n - 1) + EventsOf(table[n - 1], n - 1, states[n - 1], values[n - 1])
  }

  function PassStates(table: seq<Row>, states: seq<RowState>, values: seq<Option<bv16>>): (next: seq<RowState>)
    requires |table| == |states| == |values|
    ensures |next| == |states|
  {
    seq(|table|, i requires 0 <= i < |table| => StateAfter(table[i], states[i], values[i]))
  }

  class Engine {
    const table: seq<Row>
    const states: array<RowState>

    ghost predicate Valid() reads this { states.Length == |table| }

    constructor (table: seq<Row>)
      ensures Valid() && this.table == table && fresh(states)
      ensures forall i :: 0 <= i < |table| ==> states[i] == ZEROED
    {
      this.table := table;
      states := new RowState[|table|](_ => ZEROED);
    }

    /** apply_sticky. */
    method ApplySticky(i: nat, value: bv16, triggered: bool) returns (events: seq<Event>)
      requires Valid() && i < |table| && Sticky(table[i]) && triggered == Holds(table[i], value)
      modifies states
      ensures events == Emitted(table[i], i, old(states[i]), value)
      ensures states[..] == old(states[..])[i := NextState(table[i], old(states[i]), value)]
    {
      events := [];
      if triggered && !states[i].isActive {
        states[i] := states[i].(isActive := true);
        events := [Event(i, value, Trigger)];
      } else if !triggered && states[i].isActive {
        states[i] := states[i].(isActive := false);
        events := [Event(i, value, Clear)];
      }
    }

    /** The switch of alarm_engine_run for one successfully read row. */
    method RunRow(i: nat, value: bv16) returns (events: seq<Event>)
      requires Valid() && i < |table|
      modifies states
      ensures events == Emitted(table[i], i, old(states[i]), value)
      ensures states[..] == old(states[..])[i := NextState(table[i], old(states[i]), value)]
    {
      hide EvalBitmask, EvalRange;
      var row := table[i];
      events := [];
      match row.condition {
        case Bitmask =>
          events := ApplySticky(i, value, EvalBitmask(row, value));
        case Range =>
          events := ApplySticky(i, value, EvalRange(row, value));
        case Change =>
          var changed := EvalChange(states[i], value);
          states[i] := states[i].(prevValue := value);
          if changed {
            events := [Event(i, value, Trigger)];
          }
        case Other =>
      }
    }

    /** One pass over the table; values are what read_fn answers for each row. */
    method Run(values: seq<Option<bv16>>) returns (events: seq<Event>)
      requires Valid() && |values| == |table|
      modifies states
      ensures events == PassEvents(table, old(states[..]), values, |table|)
      ensures states[..] == PassStates(table, old(states[..]), values)
    {
      hide Emitted, NextState;
      ghost var before := states[..];
      events := [];
      for i := 0 to |table|
        invariant events == PassEvents(table, before, values, i)
        invariant forall k :: 0 <= k < i ==> states[..][k] == StateAfter(table[k], before[k], values[k])
        invariant forall k :: i <= k < |table| ==> states[..][k] == before[k]
      {
        if values[i].None? {
          continue;
        }
        assert states[i] == states[..][i];
        var more := RunRow(i, values[i].value);
        events := events + more;
      }
    }
  }

  // ---- whole runs ----

  /** States and events after the first n passes from zeroed states. */
  function RunStates(table: seq<Row>, passes: seq<seq<Option<bv16>>>, n: nat): (states: seq<RowState>)
    requires n <= |passes| && forall p :: 0 <= p < |passes| ==> |passes[p]| == |table|
    ensures |states| == |table|
  {
    if n == 0 then seq(|table|, _ => ZEROED)
    else PassStates(table, RunStates(table, passes, n - 1), passes[n - 1])
  }

  function RunEvents(table: seq<Row>, passes: seq<seq<Option<bv16>>>, n: nat): seq<Event>
    requires n <= |passes| && forall p :: 0 <= p < |passes| ==> |passes[p]| == |table|
  {
    if n == 0 then []
    else
      RunEvents(table, passes, n - 1)
      + PassEvents(table, RunStates(table, passes, n - 1), passes[n - 1], |table|)
  }

  /** The trace of one row: value and kind of its events, in order. */
  function TraceOf(events: seq<Event>, i: nat): seq<(bv16, Kind)> {
    if |events| == 0 then []
    else
      var n := |events| - 1;
      TraceOf(events[..n], i) + if events[n].row == i then [(events[n].value, events[n].kind)] else []
  }

  /** The values row i read successfully in the first n passes. */
  function GoodReads(passes: seq<seq<Option<bv16>>>, i: nat, n: nat): seq<bv16>
    requires n <= |passes| && forall p :: 0 <= p < |passes| ==> i < |passes[p]|
  {
    if n == 0 then []
    else
      GoodReads(passes, i, n - 1) + if passes[n - 1][i].Some? then [passes[n - 1][i].value] else []
  }

  // ---- what the traces should be ----

  /** Whether the condition holds at the last value; it does not before the first. */
  predicate Level(row: Row, values: seq<bv16>) {
    |values| > 0 && Holds(row, values[|values| - 1])
  }

  /** The rising and falling edges of the condition. */
  function Edges(row: Row, values: seq<bv16>): seq<(bv16, Kind)> {
    if |values| == 0 then []
    else
      var n := |values| - 1;
      Edges(row, values[..n])
      + if Level(row, values) == Level(row, values[..n]) then []
        else [(values[n], if Level(row, values) then Trigger else Clear)]
  }

  function Last(values: seq<bv16>): bv16 { if |values| == 0 then 0 else values[|values| - 1] }

  /** The values that differ from the one before, where zero comes before the first. */
  function Changes(values: seq<bv16>): seq<(bv16, Kind)> {
    if |values| == 0 then []
    else
      var n := |values| - 1;
      Changes(values[..n]) + if values[n] == Last(values[..n]) then [] else [(values[n], Trigger)]
  }

  function ExpectedTrace(row: Row, values: seq<bv16>): seq<(bv16, Kind)> {
    if Sticky(row) then Edges(row, values) else if row.condition == Change then Changes(values) else []
  }

  predicate StateAgrees(row: Row, s: RowState, values: seq<bv16>) {
    && (Sticky(row) ==> s.isActive == Level(row, values))
    && (row.condition == Change ==> s.prevValue == Last(values))
  }

  lemma {:induction false} TraceConcat(a: seq<Event>, b: seq<Event>, i: nat)
    ensures TraceOf(a + b, i) == TraceOf(a, i) + TraceOf(b, i)
  {
    if |b| == 0 {
      assert a + b == a;
    } else {
      assert (a + b)[..|a + b| - 1] == a + b[..|b| - 1];
      TraceConcat(a, b[..|b| - 1], i);
    }
  }

  lemma TraceOfRow(row: Row, k: nat, s: RowState, read: Option<bv16>, i: nat)
    ensures k != i ==> TraceOf(EventsOf(row, k, s, read), i) == []
  {
    var es := EventsOf(row, k, s, read);
    if |es| == 1 {
      assert es[..0] == [];
      assert TraceOf(es[..0], i) == [];
    }
  }

  lemma NothingTraced(i: nat)
    ensures TraceOf([], i) == []
  {}

  /** In a pass a row's events are its own, whatever the other rows do. */
  lemma {:induction false} PassTrace(table: seq<Row>, states: seq<RowState>, values: seq<Option<bv16>>, n: nat, i: nat)
    requires n <= |table| == |states| == |values| && i < |table|
    ensures TraceOf(PassEvents(table, states, values, n), i) ==
            if i < n then TraceOf(EventsOf(table[i], i, states[i], values[i]), i) else []
  {
    hide EventsOf, TraceOf;
    NothingTraced(i);
    if n > 0 {
      PassTrace(table, states, values, n - 1, i);
      var es := EventsOf(table[n - 1], n - 1, states[n - 1], values[n - 1]);
      TraceConcat(PassEvents(table, states, values, n - 1), es, i);
      TraceOfRow(table[n - 1], n - 1, states[n - 1], values[n - 1], i);
    }
  }

  /** The rows of the events ascend and stay below n. */
  predicate InRowOrder(es: seq<Event>, n: nat) {
    && (forall i :: 0 <= i < |es| ==> es[i].row < n)
    && (forall i, j :: 0 <= i < j < |es| ==> es[i].row < es[j].row)
  }

  /** The events of a pass come in the order of the rows, at most one for each. */
  lemma {:induction false} PassInOrder(table: seq<Row>, states: seq<RowState>, values: seq<Option<bv16>>, n: nat)
    requires n <= |table| == |states| == |values|
    ensures InRowOrder(PassEvents(table, states, values, n), n)
  {
    hide EventsOf, InRowOrder;
    if n == 0 {
      NoRows();
    } else {
      PassInOrder(table, states, values, n - 1);
      OwnEvents(table[n - 1], n - 1, states[n - 1], values[n - 1]);
      AppendInOrder(PassEvents(table, states, values, n - 1),
                    EventsOf(table[n - 1], n - 1, states[n - 1], values[n - 1]), n - 1);
    }
  }

  lemma NoRows()
    ensures InRowOrder([], 0)
  {}

  lemma AppendInOrder(before: seq<Event>, own: seq<Event>, n: nat)
    requires InRowOrder(before, n)
    requires |own| <= 1 && forall k :: 0 <= k < |own| ==> own[k].row == n
    ensures InRowOrder(before + own, n + 1)
  {}

  lemma OwnEvents(row: Row, i: nat, s: RowState, read: Option<bv16>)
    ensures |EventsOf(row, i, s, read)| <= 1
    ensures forall k :: 0 <= k < |EventsOf(row, i, s, read)| ==> EventsOf(row, i, s, read)[k].row == i
  {
    hide Holds;
  }

  lemma RowStep(row: Row, i: nat, s: RowState, values: seq<bv16>, value: bv16)
    requires StateAgrees(row, s, values)
    ensures StateAgrees(row, NextState(row, s, value), values + [value])
    ensures ExpectedTrace(row, values + [value]) == ExpectedTrace(row, values) + TraceOf(Emitted(row, i, s, value), i)
  {
    hide Holds;
    assert (values + [value])[..|values|] == values;
    var es := Emitted(row, i, s, value);
    if |es| == 1 {
      assert es[..0] == [];
      assert TraceOf(es, i) == [] + [(value, es[0].kind)];
    }
  }

  /** A pass adds to a row's trace what that row emits. */
  lemma TraceGrows(table: seq<Row>, passes: seq<seq<Option<bv16>>>, n: nat, i: nat)
    requires n < |passes| && forall p :: 0 <= p < |passes| ==> |passes[p]| == |table|
    requires i < |table|
    ensures TraceOf(RunEvents(table, passes, n + 1), i) ==
            TraceOf(RunEvents(table, passes, n), i)
            + TraceOf(EventsOf(table[i], i, RunStates(table, passes, n)[i], passes[n][i]), i)
  {
    hide EventsOf, RunStates, TraceOf, PassEvents;
    var states := RunStates(table, passes, n);
    TraceConcat(RunEvents(table, passes, n), PassEvents(table, states, passes[n], |table|), i);
    PassTrace(table, states, passes[n], |table|, i);
  }

  lemma RowRead(row: Row, i: nat, s: RowState, values: seq<bv16>, read: Option<bv16>)
    requires StateAgrees(row, s, values)
    ensures var now := if read.Some? then values + [read.value] else values;
            StateAgrees(row, StateAfter(row, s, read), now)
            && ExpectedTrace(row, now) == ExpectedTrace(row, values) + TraceOf(EventsOf(row, i, s, read), i)
  {
    hide Emitted, NextState, ExpectedTrace, StateAgrees;
    if read.Some? {
      RowStep(row, i, s, values, read.value);
    } else {
      assert TraceOf([], i) == [];
    }
  }

  /** Over any passes with any read failures, each row's trace is the edges of its condition (or the changes
      of its value) on the values it read, and its state is that of the last good read. */
  lemma {:induction false} AlarmTrace(table: seq<Row>, passes: seq<seq<Option<bv16>>>, n: nat, i: nat)
    requires n <= |passes| && forall p :: 0 <= p < |passes| ==> |passes[p]| == |table|
    requires i < |table|
    ensures TraceOf(RunEvents(table, passes, n), i) == ExpectedTrace(table[i], GoodReads(passes, i, n))
    ensures StateAgrees(table[i], RunStates(table, passes, n)[i], GoodReads(passes, i, n))
  {
    hide EventsOf, StateAfter, ExpectedTrace, StateAgrees, TraceOf, RunEvents;
    if n == 0 {
      NothingYet(table[i]);
      NoEvents(table, passes, i);
    } else {
      AlarmTrace(table, passes, n - 1, i);
      TraceGrows(table, passes, n - 1, i);
      RowRead(table[i], i, RunStates(table, passes, n - 1)[i], GoodReads(passes, i, n - 1), passes[n - 1][i]);
      assert passes[n - 1][i].None? ==> GoodReads(passes, i, n) == GoodReads(passes, i, n - 1);
    }
  }

  lemma NoEvents(table: seq<Row>, passes: seq<seq<Option<bv16>>>, i: nat)
    requires forall p :: 0 <= p < |passes| ==> |passes[p]| == |table|
    ensures TraceOf(RunEvents(table, passes, 0), i) == []
  {}

  lemma NothingYet(row: Row)
    ensures ExpectedTrace(row, []) == [] && StateAgrees(row, ZEROED, [])
  {}

  // ---- what the conditions mean ----

  /** The k-th binary digit of a register. */
  function Digit(w: bv16, k: nat): bool { Crc16.Odd(Crc16.Drop(w, k)) }

  lemma AndOdd(v: bv16, m: bv16)
    ensures Crc16.Odd(And(v, m)) == (Crc16.Odd(v) && Crc16.Odd(m))
  {}

  lemma AndHalf(v: bv16, m: bv16)
    ensures Crc16.Half(And(v, m)) == And(Crc16.Half(v), Crc16.Half(m))
  {}

  function Joined(odd: bool, half: bv16): bv16 { (half << 1) | Crc16.Bit(odd) }

  lemma JoinedIs(w: bv16)
    ensures w == Joined(Crc16.Odd(w), Crc16.Half(w))
  {}

  lemma MaskStep(v: bv16, m: bv16)
    ensures And(v, m) == m <==>
            (Crc16.Odd(m) ==> Crc16.Odd(v)) && And(Crc16.Half(v), Crc16.Half(m)) == Crc16.Half(m)
  {
    hide And, Joined, Crc16.Odd, Crc16.Half;
    AndOdd(v, m);
    AndHalf(v, m);
    JoinedIs(m);
    JoinedIs(And(v, m));
  }

  lemma AndZero(v: bv16)
    ensures And(v, 0) == 0
  {}

  lemma {:induction false} MaskDigits(value: bv16, mask: bv16, n: nat)
    requires Crc16.Drop(mask, n) == 0
    ensures And(value, mask) == mask <==> forall k :: 0 <= k < n && Digit(mask, k) ==> Digit(value, k)
    decreases n
  {
    hide Crc16.Odd, Crc16.Half, And;
    if n == 0 {
      AndZero(value);
    } else {
      var v, m := Crc16.Half(value), Crc16.Half(mask);
      MaskStep(value, mask);
      MaskDigits(v, m, n - 1);
      DigitsShift(value);
      DigitsShift(mask);
      hide Digit, Crc16.Drop;
      if And(value, mask) == mask {
        forall k | 0 <= k < n && Digit(mask, k) ensures Digit(value, k) {
          assert k > 0 ==> Digit(m, k - 1) && Digit(v, k - 1);
        }
      }
    }
  }

  lemma DigitsShift(w: bv16)
    ensures Digit(w, 0) == Crc16.Odd(w)
    ensures forall k: nat :: k > 0 ==> Digit(w, k) == Digit(Crc16.Half(w), k - 1)
    ensures forall k: nat {:trigger Digit(Crc16.Half(w), k)} :: Digit(Crc16.Half(w), k) == Digit(w, k + 1)
  {
    hide Crc16.Odd, Crc16.Half;
  }

  predicate MaskSet(value: bv16, mask: bv16) {
    forall k :: 0 <= k < 16 && Digit(mask, k) ==> Digit(value, k)
  }

  lemma MaskMeaning(value: bv16, mask: bv16)
    ensures And(value, mask) == mask <==> MaskSet(value, mask)
  {
    Crc16.WordDrops(mask);
    hide Digit, Crc16.Drop, And;
    MaskDigits(value, mask, 16);
  }

  predicate Within(low: bv16, value: bv16, high: bv16) { low <= value <= high }

  lemma OutsideMeaning(low: bv16, value: bv16, high: bv16)
    ensures Outside(low, value, high) <==> !Within(low, value, high)
  {}

  /** A bitmask row's condition is that every bit of the mask is set, a range row's that the value does not lie
      within the two limits. */
  predicate Alarming(row: Row, value: bv16) {
    match row.condition
    case Bitmask => MaskSet(value, row.high)
    case Range => !Within(row.low, value, row.high)
    case _ => false
  }

  lemma HoldsMeaning(row: Row, value: bv16)
    ensures Holds(row, value) <==> Alarming(row, value)
  {
    MaskMeaning(value, row.high);
    OutsideMeaning(row.low, value, row.high);
    hide And, Outside, Within, MaskSet;
  }

  /** Quiet reads give no event; the first alarming one gives the first TRIGGER. */
  lemma {:induction false} FirstTrigger(row: Row, values: seq<bv16>)
    requires Sticky(row) && |values| > 0
    requires forall k :: 0 <= k < |values| - 1 ==> !Alarming(row, values[k])
    ensures Edges(row, values) ==
            if Alarming(row, values[|values| - 1]) then [(values[|values| - 1], Trigger)] else []
  {
    hide Holds, Alarming;
    var n := |values| - 1;
    HoldsMeaning(row, values[n]);
    if n > 0 {
      FirstTrigger(row, values[..n]);
      HoldsMeaning(row, values[n - 1]);
    } else {
      assert values[..0] == [] && Edges(row, values[..0]) == [];
    }
  }

  /** The events of a sticky row alternate TRIGGER, CLEAR, TRIGGER, ..., and the last tells its level. */
  lemma {:induction false} EdgesAlternate(row: Row, values: seq<bv16>)
    ensures forall k :: 0 <= k < |Edges(row, values)| ==>
              Edges(row, values)[k].1 == if k % 2 == 0 then Trigger else Clear
    ensures |Edges(row, values)| % 2 == if Level(row, values) then 1 else 0
  {
    hide Holds;
    if |values| > 0 {
      EdgesAlternate(row, values[..|values| - 1]);
    }
  }

  /** Rows do not affect each other: a row's trace and state depend on its own reads only. */
  lemma RowsIndependent(table: seq<Row>, table2: seq<Row>,
                        passes: seq<seq<Option<bv16>>>, passes2: seq<seq<Option<bv16>>>, n: nat, i: nat)
    requires n <= |passes| && n <= |passes2|
    requires forall p :: 0 <= p < |passes| ==> |passes[p]| == |table|
    requires forall p :: 0 <= p < |passes2| ==> |passes2[p]| == |table2|
    requires i < |table| && i < |table2| && table[i] == table2[i]
    requires forall p :: 0 <= p < n ==> passes[p][i] == passes2[p][i]
    ensures TraceOf(RunEvents(table, passes, n), i) == TraceOf(RunEvents(table2, passes2, n), i)
    ensures RunStates(table, passes, n)[i] == RunStates(table2, passes2, n)[i]
  {
    SameStates(table, table2, passes, passes2, n, i);
    AlarmTrace(table, passes, n, i);
    AlarmTrace(table2, passes2, n, i);
    SameReads(passes, passes2, i, n);
  }

  lemma {:induction false} SameStates(table: seq<Row>, table2: seq<Row>,
                                      passes: seq<seq<Option<bv16>>>, passes2: seq<seq<Option<bv16>>>, n: nat, i: nat)
    requires n <= |passes| && n <= |passes2|
    requires forall p :: 0 <= p < |passes| ==> |passes[p]| == |table|
    requires forall p :: 0 <= p < |passes2| ==> |passes2[p]| == |table2|
    requires i < |table| && i < |table2| && table[i] == table2[i]
    requires forall p :: 0 <= p < n ==> passes[p][i] == passes2[p][i]
    ensures RunStates(table, passes, n)[i] == RunStates(table2, passes2, n)[i]
  {
    hide NextState;
    if n > 0 { SameStates(table, table2, passes, passes2, n - 1, i); }
  }

  lemma {:induction false} SameReads(passes: seq<seq<Option<bv16>>>, passes2: seq<seq<Option<bv16>>>, i: nat, n: nat)
    requires n <= |passes| && n <= |passes2|
    requires forall p :: 0 <= p < |passes| ==> i < |passes[p]|
    requires forall p :: 0 <= p < |passes2| ==> i < |passes2[p]|
    requires forall p :: 0 <= p < n ==> passes[p][i] == passes2[p][i]
    ensures GoodReads(passes, i, n) == GoodReads(passes2, i, n)
  {
    if n > 0 { SameReads(passes, passes2, i, n - 1); }
  }
}
