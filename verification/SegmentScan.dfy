/** The FC03 scan: consecutive device addresses are batched greedily, each batch is read and stored. */
module SegmentScan {
  import opened RegisterMap

  const FAIL_THRESHOLD := 5

  /** Rows [start, end) of the table, read with one request. */
  datatype Batch = Batch(start: nat, end: nat)

  predicate Adjacent(table: Table, i: nat)
    requires 0 < i < |table|
  {
    table[i].device == table[i - 1].device + 1
  }

  function Limit(chunk: nat): nat { if chunk == 0 then 1 else chunk }

  /** A nonempty run of consecutive addresses that one request may read. */
  predicate Readable(table: Table, chunk: nat, b: Batch) {
    b.start < b.end <= |table| && b.end - b.start <= Limit(chunk)
    && forall i :: b.start < i < b.end ==> Adjacent(table, i)
  }

  /** The batches cover the rows from s on, in order and without overlap. */
  predicate Partition(table: Table, chunk: nat, s: nat, batches: seq<Batch>)
    decreases |batches|
  {
    if |batches| == 0 then s == |table|
    else
      batches[0].start == s && Readable(table, chunk, batches[0])
      && Partition(table, chunk, batches[0].end, batches[1..])
  }

  // ---- the greedy batching of the scan loop ----

  /** Where the run that holds rows [s, e) ends. */
  function RunEnd(table: Table, chunk: nat, s: nat, e: nat): (end: nat)
    requires s < e <= |table|
    ensures e <= end <= |table|
    decreases |table| - e
  {
    if e < |table| && Adjacent(table, e) && e - s < chunk then RunEnd(table, chunk, s, e + 1) else e
  }

  function Greedy(table: Table, chunk: nat, s: nat): seq<Batch>
    decreases |table| - s
  {
    if s >= |table| then []
    else
      var e := RunEnd(table, chunk, s, s + 1);
      [Batch(s, e)] + Greedy(table, chunk, e)
  }

  lemma {:induction false} RunEndReadable(table: Table, chunk: nat, s: nat, e: nat)
    requires Readable(table, chunk, Batch(s, e))
    ensures Readable(table, chunk, Batch(s, RunEnd(table, chunk, s, e)))
    decreases |table| - e
  {
    if e < |table| && Adjacent(table, e) && e - s < chunk {
      RunEndReadable(table, chunk, s, e + 1);
    }
  }

  /** No readable run reaches past the greedy end of the run that starts with it. */
  lemma {:induction false} RunEndFarthest(table: Table, chunk: nat, e: nat, b: Batch)
    requires Readable(table, chunk, b) && b.start < e <= b.end
    ensures b.end <= RunEnd(table, chunk, b.start, e)
    decreases |table| - e
  {
    if e < b.end {
      RunEndFarthest(table, chunk, e + 1, b);
    }
  }

  lemma {:induction false} GreedyPartitions(table: Table, chunk: nat, s: nat)
    requires s <= |table|
    ensures Partition(table, chunk, s, Greedy(table, chunk, s))
    decreases |table| - s
  {
    if s < |table| {
      RunEndReadable(table, chunk, s, s + 1);
      GreedyPartitions(table, chunk, RunEnd(table, chunk, s, s + 1));
    }
  }

  lemma {:induction false} GreedyReadable(table: Table, chunk: nat, s: nat)
    ensures forall i :: 0 <= i < |Greedy(table, chunk, s)| ==> Readable(table, chunk, Greedy(table, chunk, s)[i])
    decreases |table| - s
  {
    if s < |table| {
      RunEndReadable(table, chunk, s, s + 1);
      GreedyReadable(table, chunk, RunEnd(table, chunk, s, s + 1));
    }
  }

  /** Starting later never ends earlier. */
  lemma {:induction false} RunEndMonotone(table: Table, chunk: nat, s: nat, e: nat, t: nat)
    requires s <= t < e <= |table| && s < |table|
    requires Readable(table, chunk, Batch(s, e))
    ensures e <= RunEnd(table, chunk, t, t + 1)
  {
    RunEndFarthest(table, chunk, t + 1, Batch(t, e));
  }

  lemma {:induction false} GreedyMonotone(table: Table, chunk: nat, s: nat, t: nat)
    requires s <= t <= |table|
    ensures |Greedy(table, chunk, t)| <= |Greedy(table, chunk, s)|
    decreases |table| - s
  {
    if t < |table| {
      var e, f := RunEnd(table, chunk, s, s + 1), RunEnd(table, chunk, t, t + 1);
      if t < e {
        RunEndReadable(table, chunk, s, s + 1);
        RunEndMonotone(table, chunk, s, e, t);
        GreedyMonotone(table, chunk, e, f);
      } else {
        GreedyMonotone(table, chunk, e, t);
      }
    }
  }

  lemma {:induction false} GreedyFewest(table: Table, chunk: nat, s: nat, batches: seq<Batch>)
    requires Partition(table, chunk, s, batches)
    ensures |Greedy(table, chunk, s)| <= |batches|
    decreases |batches|
  {
    if |batches| > 0 {
      var b := batches[0];
      var e := RunEnd(table, chunk, s, s + 1);
      RunEndFarthest(table, chunk, s + 1, b);
      GreedyMonotone(table, chunk, b.end, e);
      GreedyFewest(table, chunk, b.end, batches[1..]);
    }
  }

  /** One request covers rows with consecutive addresses, no more than the chunk allows. */
  predicate OneRequest(table: Table, chunk: nat, b: Batch) {
    b.start < b.end <= |table| && b.end - b.start <= (if chunk == 0 then 1 else chunk)
    && forall j :: b.start < j < b.end ==> table[j].device == table[j - 1].device + 1
  }

  lemma ReadableMeaning(table: Table, chunk: nat, b: Batch)
    ensures Readable(table, chunk, b) <==> OneRequest(table, chunk, b)
  {
    assert forall j :: 0 < j < |table| ==> Adjacent(table, j) == (table[j].device == table[j - 1].device + 1);
  }

  /** The scan's batches partition the table into readable runs, and no partition has fewer. */
  lemma GreedyOptimal(table: Table, chunk: nat, batches: seq<Batch>)
    requires Partition(table, chunk, 0, batches)
    ensures Partition(table, chunk, 0, Greedy(table, chunk, 0))
    ensures |Greedy(table, chunk, 0)| <= |batches|
    ensures forall i :: 0 <= i < |Greedy(table, chunk, 0)| ==> OneRequest(table, chunk, Greedy(table, chunk, 0)[i])
  {
    GreedyReadable(table, chunk, 0);
    forall b ensures Readable(table, chunk, b) <==> OneRequest(table, chunk, b) {
      ReadableMeaning(table, chunk, b);
    }
    GreedyPartitions(table, chunk, 0);
    GreedyFewest(table, chunk, 0, batches);
  }
}
