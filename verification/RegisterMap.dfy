/** Device register tables: binary-search lookup, storing a read into the pool, access checks. */
module RegisterMap {
  import opened Options

  const POOL_SIZE := 65535

  type uint16 = n: int | 0 <= n < 0x10000

  datatype Access = RO | RW | WO

  datatype Row = Row(device: uint16, pool: uint16, access: Access)

  type Table = seq<Row>

  ghost predicate Sorted(table: Table) {
    forall i, j :: 0 <= i < j < |table| ==> table[i].device < table[j].device
  }

  // ---- lookup ----

  /** The first row for a device address, by scanning from a row on. */
  function LinearSlot(table: Table, address: int, from: nat): (slot: Option<nat>)
    ensures slot.Some? ==> from <= slot.value < |table| && table[slot.value].device == address
    ensures slot.None? ==> forall i :: from <= i < |table| ==> table[i].device != address
    decreases |table| - from
  {
    if from >= |table| then None
    else if table[from].device == address then Some(from)
    else LinearSlot(table, address, from + 1)
  }

  /** The probes binary search makes in [low, high). */
  function BinarySlot(table: Table, address: int, low: nat, high: nat): (slot: Option<nat>)
    requires low <= high <= |table|
    ensures slot.Some? ==> low <= slot.value < high && table[slot.value].device == address
    decreases high - low
  {
    if low == high then None
    else
      var mid := low + (high - low) / 2;
      if table[mid].device == address then Some(mid)
      else if table[mid].device < address then BinarySlot(table, address, mid + 1, high)
      else BinarySlot(table, address, low, mid)
  }

  function Slot(table: Table, address: int): (slot: Option<nat>)
    ensures slot.Some? ==> slot.value < |table| && table[slot.value].device == address
  {
    BinarySlot(table, address, 0, |table|)
  }

  lemma {:induction false} BinarySlotMisses(table: Table, address: int, low: nat, high: nat)
    requires Sorted(table) && low <= high <= |table| && BinarySlot(table, address, low, high).None?
    ensures forall i :: low <= i < high ==> table[i].device != address
    decreases high - low
  {
    if low < high {
      var mid := low + (high - low) / 2;
      if table[mid].device < address {
        BinarySlotMisses(table, address, mid + 1, high);
      } else {
        BinarySlotMisses(table, address, low, mid);
      }
    }
  }

  /** On a strictly sorted table binary search finds the row a linear scan finds. */
  lemma BinaryIsLinear(table: Table, address: int)
    requires Sorted(table)
    ensures Slot(table, address) == LinearSlot(table, address, 0)
  {
    if Slot(table, address).None? {
      BinarySlotMisses(table, address, 0, |table|);
    }
  }

  lemma SlotOfRow(table: Table, i: nat)
    requires Sorted(table) && i < |table|
    ensures Slot(table, table[i].device) == Some(i)
  {
    BinaryIsLinear(table, table[i].device);
  }

  method FindSlot(table: Table, address: uint16) returns (slot: Option<nat>)
    ensures slot == Slot(table, address)
    ensures Sorted(table) ==> slot == LinearSlot(table, address, 0)
  {
    if Sorted(table) { BinaryIsLinear(table, address); }
    var low, high := 0, |table|;
    while low < high
      invariant low <= high <= |table|
      invariant Slot(table, address) == BinarySlot(table, address, low, high)
    {
      var mid := low + (high - low) / 2;
      if table[mid].device == address {
        return Some(mid);
      }
      if table[mid].device < address {
        low := mid + 1;
      } else {
        high := mid;
      }
    }
    return None;
  }

  // ---- storing a read ----

  function StoreOne(pool: seq<bv16>, table: Table, address: int, value: bv16): (result: seq<bv16>)
    requires |pool| == POOL_SIZE
    ensures |result| == POOL_SIZE
  {
    match Slot(table, address)
    case None => pool
    case Some(i) => if table[i].pool >= POOL_SIZE then pool else pool[table[i].pool := value]
  }

  /** The pool after storing values read from start on; the 16-bit address wraps. */
  function StoreAll(pool: seq<bv16>, table: Table, values: seq<bv16>, start: uint16): (result: seq<bv16>)
    requires |pool| == POOL_SIZE
    ensures |result| == POOL_SIZE
  {
    if |values| == 0 then pool
    else
      var n := |values| - 1;
      StoreOne(StoreAll(pool, table, values[..n], start), table, (start + n) % 0x10000, values[n])
  }

  class RegisterPool {
    const cells: array<bv16>

    ghost predicate Valid()
      reads this
    {
      cells.Length == POOL_SIZE
    }

    constructor ()
      ensures Valid() && fresh(cells)
      ensures forall i :: 0 <= i < POOL_SIZE ==> cells[i] == 0
    {
      cells := new bv16[POOL_SIZE](_ => 0);
    }

    method ReadToPool(table: Table, buffer: array<bv16>, start: uint16, count: nat)
      requires Valid() && buffer != cells && count <= buffer.Length
      modifies cells
      ensures cells[..] == StoreAll(old(cells[..]), table, buffer[..count], start)
    {
      if count == 0 || |table| == 0 {
        EmptyTable(cells[..], table, buffer[..count], start);
        return;
      }
      for i := 0 to count
        invariant cells[..] == StoreAll(old(cells[..]), table, buffer[..i], start)
      {
        assert buffer[..i + 1][..i] == buffer[..i];
        var address := (start + i) % 0x10000;
        var slot := FindSlot(table, address);
        if slot.Some? && table[slot.value].pool < POOL_SIZE {
          cells[table[slot.value].pool] := buffer[i];
        }
      }
    }

    method ReadRegister(address: uint16) returns (value: Option<bv16>)
      requires Valid()
      ensures value == if address < 65535 then Some(cells[address]) else None
    {
      if address >= POOL_SIZE {
        return None;
      }
      return Some(cells[address]);
    }

    method ReadByDeviceAddr(table: Table, address: uint16) returns (value: Option<bv16>)
      requires Valid()
      ensures value == Cached(cells[..], table, address)
    {
      var slot := FindSlot(table, address);
      if slot.None? {
        return None;
      }
      value := ReadRegister(table[slot.value].pool);
    }

    method WriteByDeviceAddr(table: Table, address: uint16, value: bv16) returns (ok: bool)
      requires Valid()
      modifies cells
      ensures ok == Cached(old(cells[..]), table, address).Some?
      ensures cells[..] == StoreOne(old(cells[..]), table, address, value)
    {
      var slot := FindSlot(table, address);
      if slot.None? || table[slot.value].pool >= POOL_SIZE {
        return false;
      }
      cells[table[slot.value].pool] := value;
      return true;
    }
  }

  /** What a consumer reads for a device address. */
  function Cached(pool: seq<bv16>, table: Table, address: int): Option<bv16>
    requires |pool| == POOL_SIZE
  {
    match Slot(table, address)
    case None => None
    case Some(i) => if table[i].pool >= POOL_SIZE then None else Some(pool[table[i].pool])
  }

  /** A row's cell is what a consumer reads under its device address, and no other address can be read. */
  lemma CachedMeaning(pool: seq<bv16>, table: Table, address: int)
    requires |pool| == POOL_SIZE && Sorted(table)
    ensures forall i :: 0 <= i < |table| && table[i].device == address ==>
              Cached(pool, table, address) == if table[i].pool < 65535 then Some(pool[table[i].pool]) else None
    ensures (forall i :: 0 <= i < |table| ==> table[i].device != address) ==> Cached(pool, table, address) == None
  {
    hide Slot;
    BinaryIsLinear(table, address);
    forall i | 0 <= i < |table| && table[i].device == address ensures Slot(table, address) == Some(i) {
      SlotOfRow(table, i);
    }
  }

  /** A write by device address is what the next read by that address returns, and it changes nothing a
      consumer can read under an address kept in another cell. */
  lemma WriteThenRead(pool: seq<bv16>, table: Table, address: int, value: bv16, other: int)
    requires |pool| == POOL_SIZE
    ensures var next := StoreOne(pool, table, address, value);
            && (Cached(pool, table, address).Some? ==> Cached(next, table, address) == Some(value))
            && (Slot(table, address).None? || Slot(table, other).None?
                || table[Slot(table, address).value].pool != table[Slot(table, other).value].pool
                ==> Cached(next, table, other) == Cached(pool, table, other))
  {
    hide BinarySlot;
  }

  lemma {:induction false} EmptyTable(pool: seq<bv16>, table: Table, values: seq<bv16>, start: uint16)
    requires |pool| == POOL_SIZE && (|table| == 0 || |values| == 0)
    ensures StoreAll(pool, table, values, start) == pool
  {
    if |values| > 0 { EmptyTable(pool, table, values[..|values| - 1], start); }
  }

  // ---- access check ----

  const ILLEGAL_FUNCTION := 1
  const ILLEGAL_DATA_ADDRESS := 2

  function PoolRow(table: Table, address: int, from: nat): (row: Option<Row>)
    ensures row.Some? ==> row.value in table && row.value.pool == address
    ensures row.None? ==> forall i :: from <= i < |table| ==> table[i].pool != address
    decreases |table| - from
  {
    if from >= |table| then None
    else if table[from].pool == address then Some(table[from])
    else PoolRow(table, address, from + 1)
  }

  predicate Permits(have: Access, required: Access) {
    !(required == RO && have == WO) && !(required == WO && have == RO)
  }

  /** The verdict on one pool address: the first row mapped there decides. */
  function Verdict(table: Table, address: int, required: Access): int {
    match PoolRow(table, address, 0)
    case None => ILLEGAL_DATA_ADDRESS
    case Some(row) => if Permits(row.access, required) then 0 else ILLEGAL_FUNCTION
  }

  /** The k-th address from start on, as a 16-bit counter runs through them. */
  function Counted(start: uint16, k: nat): uint16 { (start + k) % 0x10000 }

  predicate Clear(table: Table, required: Access, start: uint16, n: nat) {
    forall k :: 0 <= k < n ==> Verdict(table, Counted(start, k), required) == 0
  }

  lemma ClearGrows(table: Table, required: Access, start: uint16, n: nat)
    ensures Clear(table, required, start, 0)
    ensures Clear(table, required, start, n + 1) <==>
            Clear(table, required, start, n) && Verdict(table, Counted(start, n), required) == 0
  {
    hide Verdict, Counted;
  }

  lemma CountedNext(start: uint16, n: nat)
    ensures Counted(start, 0) == start && Counted(start, n + 1) == (Counted(start, n) + 1) % 0x10000
    ensures start + n < 0x10000 ==> Counted(start, n) == start + n
  {}

  lemma ClearUpTo(table: Table, required: Access, start: uint16, n: nat, k: nat)
    requires Clear(table, required, start, n) && k < n
    ensures Verdict(table, Counted(start, k), required) == 0
  {}

  /** The inner search of the range check. */
  method CheckAddress(table: Table, address: uint16, required: Access) returns (code: int)
    ensures code == Verdict(table, address, required)
  {
    for i := 0 to |table|
      invariant PoolRow(table, address, 0) == PoolRow(table, address, i)
    {
      if table[i].pool != address {
        continue;
      }
      var have := table[i].access;
      if required == RO && have == WO {
        return ILLEGAL_FUNCTION;
      }
      if required == WO && have == RO {
        return ILLEGAL_FUNCTION;
      }
      return 0;
    }
    return ILLEGAL_DATA_ADDRESS;
  }

  /** A range below 0xFFFF: 0 exactly when every address passes, otherwise the code of the lowest one that
      does not. A range that ends at 0xFFFF never ends the loop, which wraps around until an address fails;
      without such an address it does not return. A range that wraps past 0xFFFF is not examined. */
  method CheckAccessRange(table: Table, start: uint16, count: uint16, required: Access) returns (code: int)
    requires start + count == 0x10000 ==> exists n: nat :: Verdict(table, Counted(start, n), required) != 0
    ensures count == 0 ==> code == 2
    ensures start + count > 0x10000 ==> code == 0
    ensures count >= 1 && start + count <= 0xFFFF ==> (code == 0 <==> Clear(table, required, start, count))
    ensures count >= 1 && start + count <= 0x10000 && code != 0 ==>
              exists n: nat :: code == Verdict(table, Counted(start, n), required) && Clear(table, required, start, n)
                               && (start + count <= 0xFFFF ==> n < count)
    ensures start + count == 0x10000 ==> code != 0
  {
    hide Verdict, Clear, Counted;
    ClearGrows(table, required, start, 0);
    CountedNext(start, 0);
    if count == 0 {
      return ILLEGAL_DATA_ADDRESS;
    }
    ghost var failing: nat := 0;
    if start + count == 0x10000 {
      failing :| Verdict(table, Counted(start, failing), required) != 0;
    }
    var end := (start + count - 1) % 0x10000;
    var a := start;
    ghost var n: nat := 0;
    while a <= end
      invariant a == Counted(start, n) && Clear(table, required, start, n)
      invariant start + count <= 0xFFFF ==> n <= count
      invariant start + count > 0x10000 ==> n == 0
      invariant start + count == 0x10000 ==> n <= failing
      decreases if start + count == 0x10000 then failing - n else count - n
    {
      ClearGrows(table, required, start, n);
      CountedNext(start, n);
      CountedNext(start, n + 1);
      code := CheckAddress(table, a, required);
      if code != 0 {
        if start + count <= 0xFFFF && Clear(table, required, start, count) {
          ClearUpTo(table, required, start, count, n);
        }
        return;
      }
      a := (a + 1) % 0x10000;
      n := n + 1;
    }
    CountedNext(start, n);
    code := 0;
  }

  /** With distinct pool addresses the verdict is plain: 0 for a mapped row, except that a write-only row
      cannot be read nor a read-only row written, which is code 1; 2 where nothing is mapped. */
  lemma VerdictMeaning(table: Table, address: int, required: Access)
    requires forall i, j :: 0 <= i < j < |table| ==> table[i].pool != table[j].pool
    ensures forall i :: 0 <= i < |table| && table[i].pool == address ==>
              Verdict(table, address, required) ==
              if (required == RO && table[i].access == WO) || (required == WO && table[i].access == RO) then 1 else 0
    ensures (forall i :: 0 <= i < |table| ==> table[i].pool != address) ==> Verdict(table, address, required) == 2
  {
    var found := PoolRow(table, address, 0);
    if found.Some? {
      var j :| 0 <= j < |table| && table[j] == found.value;
      forall i | 0 <= i < |table| && table[i].pool == address ensures table[i] == found.value {
        assert i == j;
      }
    }
  }
}
