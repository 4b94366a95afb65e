/** The resize step of the stores, at the level of the heap buffer: the
    capacity a list records against the number of slots actually allocated.
    The inserts and the loaders both update the recorded capacity before they
    know whether the reallocation succeeded; the `AsWritten` members model
    that, the others the repaired order in which the capacity changes only
    once the new buffer exists. The outcome of the allocation is a parameter. */
module Growth {
  import Lists

  datatype Buffer = Buffer(count: int, capacity: int, slots: int)

  /** The recorded capacity is the real one and the items fit in it. */
  predicate Sound(b: Buffer) {
    0 < b.capacity && b.capacity == b.slots && 0 <= b.count <= b.capacity
  }

  /** What an insert did: wrote the item into a slot, or refused it. */
  datatype Outcome = Wrote(slot: int) | Refused

  // ---------------------------------------------------------------------------
  // Insert

  /** An insert as the stores write it: on a full buffer the capacity is
      doubled first and the insert refused if the reallocation then fails.
      Returns the buffer and the slot written. */
  function InsertAsWritten(b: Buffer, allocOk: bool): (r: (Buffer, Outcome))
    ensures r.1.Wrote? ==> r.1.slot == b.count && r.0.count == b.count + 1
    ensures r.1.Refused? ==> r.0.count == b.count && r.0.slots == b.slots
    ensures b.count < b.capacity ==> r.1 == Wrote(b.count) && r.0.slots == b.slots
    ensures r.1.Refused? <==> b.count >= b.capacity && !allocOk
    ensures b.count >= b.capacity ==> r.0.capacity == 2 * b.capacity
    ensures b.count < b.capacity ==> r.0.capacity == b.capacity
  {
    if b.count >= b.capacity then
      if !allocOk then (b.(capacity := 2 * b.capacity), Refused)
      else (Buffer(b.count + 1, 2 * b.capacity, 2 * b.capacity), Wrote(b.count))
    else (b.(count := b.count + 1), Wrote(b.count))
  }

  /** An insert that records the doubled capacity only once the buffer has it. */
  function Insert(b: Buffer, allocOk: bool): (r: (Buffer, Outcome))
    ensures r.1.Refused? <==> b.count >= b.capacity && !allocOk
    ensures r.1.Refused? ==> r.0 == b
    ensures r.1.Wrote? ==> r.1.slot == b.count && r.0.count == b.count + 1
    ensures Sound(b) ==> Sound(r.0)
    ensures Sound(b) && r.1.Wrote? ==> 0 <= r.1.slot < r.0.slots
  {
    if b.count >= b.capacity then
      if !allocOk then (b, Refused)
      else (Buffer(b.count + 1, 2 * b.capacity, 2 * b.capacity), Wrote(b.count))
    else (b.(count := b.count + 1), Wrote(b.count))
  }

  /** When the allocation succeeds the two agree, and the capacity is the one
      the list model records. */
  lemma InsertAgreesWhenAllocationSucceeds(b: Buffer, items: seq<int>)
    requires |items| == b.count
    ensures InsertAsWritten(b, true) == Insert(b, true)
    ensures Insert(b, true).0.capacity == Lists.GrownCapacity(Lists.List(items, b.capacity))
  {
  }

  /** The buffer after one insert per entry of `oks`, each entry the outcome
      of the allocation that insert may need. */
  function Inserts(b: Buffer, oks: seq<bool>): Buffer
    decreases |oks|
  {
    if |oks| == 0 then b else Inserts(Insert(b, oks[0]).0, oks[1..])
  }

  /** Whatever the allocations do, the repaired inserts keep the buffer sound,
      so by `Insert`'s contract every slot they write is allocated. */
  lemma {:induction false} InsertsStaySound(b: Buffer, oks: seq<bool>)
    requires Sound(b)
    ensures Sound(Inserts(b, oks))
    decreases |oks|
  {
    if |oks| > 0 {
      InsertsStaySound(Insert(b, oks[0]).0, oks[1..]);
    }
  }

  /** `n` successful inserts as written. */
  function InsertsAsWritten(b: Buffer, n: nat): Buffer
    decreases n
  {
    if n == 0 then b else InsertsAsWritten(InsertAsWritten(b, true).0, n - 1)
  }

  /** Below the recorded capacity the inserts as written only count up. */
  lemma {:induction false} InsertsBelowCapacity(b: Buffer, n: nat)
    requires b.count + n <= b.capacity
    ensures InsertsAsWritten(b, n) == b.(count := b.count + n)
    decreases n
  {
    if n > 0 {
      InsertsBelowCapacity(InsertAsWritten(b, true).0, n - 1);
    }
  }

  /** A full list of 100 whose reallocation fails keeps a recorded capacity of
      200 over 100 real slots; the next insert writes slot 100, past the end. */
  lemma FailedGrowthOverrunsAsWritten()
    ensures var b := Buffer(100, 100, 100);
      var failed := InsertAsWritten(b, false);
      var next := InsertAsWritten(failed.0, true);
      && Sound(b)
      && failed.1 == Refused
      && !Sound(failed.0)
      && next.1 == Wrote(100)
      && next.1.slot >= next.0.slots
  {
  }

  // ---------------------------------------------------------------------------
  // Reserve before loading

  /** The loaders' reservation for a file announcing `count` records, as
      written: the capacity becomes twice the count before the reallocation
      is known to succeed. Returns the buffer and whether loading goes on. */
  function ReserveAsWritten(b: Buffer, count: int, allocOk: bool): (r: (Buffer, bool))
    ensures r.0.count == b.count && r.0.slots <= Max(b.slots, 2 * count)
    ensures !r.1 ==> r.0.slots == b.slots && r.0.capacity == 2 * count
    ensures !r.1 <==> count > b.capacity && !allocOk
    ensures count > b.capacity ==> r.0.capacity == 2 * count
    ensures count > b.capacity && allocOk ==> r.0.slots == 2 * count
    ensures count <= b.capacity ==> r.0 == b
  {
    if count > b.capacity then
      if !allocOk then (b.(capacity := 2 * count), false)
      else (b.(capacity := 2 * count, slots := 2 * count), true)
    else (b, true)
  }

  function Max(a: int, b: int): (m: int)
    ensures m >= a && m >= b && (m == a || m == b)
  {
    if a >= b then a else b
  }

  /** The reservation with the capacity recorded only after success. */
  function Reserve(b: Buffer, count: int, allocOk: bool): (r: (Buffer, bool))
    ensures !r.1 <==> count > b.capacity && !allocOk
    ensures !r.1 ==> r.0 == b
    ensures r.0.count == b.count
    ensures Sound(b) ==> Sound(r.0)
    ensures Sound(b) && r.1 ==> count <= r.0.slots
  {
    if count > b.capacity then
      if !allocOk then (b, false)
      else (b.(capacity := 2 * count, slots := 2 * count), true)
    else (b, true)
  }

  /** An empty store whose load announces 300 records and cannot grow is left
      recording 600 slots over 100 real ones; after 100 inserts the next one
      writes slot 100, past the end. */
  lemma FailedReserveOverrunsAsWritten()
    ensures var b := Buffer(0, 100, 100);
      var failed := ReserveAsWritten(b, 300, false);
      var filled := InsertsAsWritten(failed.0, 100);
      var next := InsertAsWritten(filled, true);
      && Sound(b)
      && !failed.1
      && !Sound(failed.0)
      && next.1 == Wrote(100)
      && next.1.slot >= next.0.slots
  {
    var failed := ReserveAsWritten(Buffer(0, 100, 100), 300, false);
    InsertsBelowCapacity(failed.0, 100);
  }
}
