/** The per-unit ring of write commands. Each method is one mutex-protected section of the source. */
module CommandQueue {
  import opened Options
  import opened RtuCodec

  const CAPACITY := 16

  datatype WriteMode = Auto | ForceSingle | ForceMultiple

  /** What a producer asks for and a consumer gets. */
  datatype Command = Command(addr: bv16, values: seq<bv16>, mode: WriteMode)

  /** A ring slot: only the first count of its MAX_WRITE values mean anything, the rest are leftovers. */
  datatype Entry = Entry(addr: bv16, values: seq<bv16>, count: nat, mode: WriteMode)
  {
    predicate Live() { |values| == MAX_WRITE && 1 <= count <= MAX_WRITE }

    function Payload(): Command
      requires count <= |values|
    {
      Command(addr, values[..count], mode)
    }
  }

  /** The slot of the i-th pending command. */
  function At(head: nat, i: nat): (slot: nat)
    requires head < CAPACITY && i < CAPACITY
    ensures slot < CAPACITY && slot == (head + i) % CAPACITY
  {
    if head + i < CAPACITY then head + i else head + i - CAPACITY
  }

  class Queue {
    const entries: array<Entry>
    var head: nat
    var tail: nat
    var count: nat
    ghost var pending: seq<Command>  // oldest first

    ghost predicate Valid()
      reads this, entries
    {
      && entries.Length == CAPACITY
      && head < CAPACITY && |pending| == count <= CAPACITY && tail == (head + count) % CAPACITY
      && (forall k :: 0 <= k < CAPACITY ==> |entries[k].values| == MAX_WRITE)
      && (forall i :: 0 <= i < count ==> entries[At(head, i)].Live() && entries[At(head, i)].Payload() == pending[i])
    }

    constructor ()
      ensures Valid() && pending == [] && fresh(entries)
    {
      var blank := seq(MAX_WRITE, _ => 0 as bv16);
      entries := new Entry[CAPACITY](_ => Entry(0, blank, 0, Auto));
      head, tail, count, pending := 0, 0, 0, [];
    }

    /** Refused exactly when the register count is out of range or sixteen commands are pending. */
    method Push(addr: bv16, values: seq<bv16>, n: nat, mode: WriteMode) returns (ok: bool)
      requires Valid()
      requires 1 <= n <= MAX_WRITE ==> n <= |values|
      modifies this, entries
      ensures Valid()
      ensures ok <==> 1 <= n <= 123 && |old(pending)| < 16
      ensures pending == if ok then old(pending) + [Command(addr, values[..n], mode)] else old(pending)
    {
      if n == 0 || n > MAX_WRITE {
        return false;
      }
      if count >= CAPACITY {
        return false;
      }
      var stored := values[..n] + entries[tail].values[n..];
      assert stored[..n] == values[..n];
      assert forall i :: 0 <= i < count ==> At(head, i) != tail;
      entries[tail] := Entry(addr, stored, n, mode);
      assert tail == At(head, count);
      tail := (tail + 1) % CAPACITY;
      count := count + 1;
      pending := pending + [Command(addr, values[..n], mode)];
      return true;
    }

    method Pop() returns (entry: Option<Entry>)
      requires Valid()
      modifies this
      ensures Valid()
      ensures entry.None? <==> old(pending) == []
      ensures entry.None? ==> pending == []
      ensures entry.Some? ==> entry.value.Live() && old(pending) == [entry.value.Payload()] + pending
    {
      if count == 0 {
        return None;
      }
      entry := Some(entries[head]);
      assert At(head, 0) == head;
      var next := (head + 1) % CAPACITY;
      assert forall i :: 0 <= i < count - 1 ==> At(next, i) == At(head, i + 1);
      head := next;
      count := count - 1;
      pending := pending[1..];
    }
  }
}
