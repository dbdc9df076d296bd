/**
 Every run of additions, saves and deletions on the ring of slots is a run of a plain
 first-in-first-out queue of numbered rows.
 */
module RowRuns {
  import opened RowRing
  import opened RowBuffer

  /** The calls; a save takes over the block that the newest row's descriptor has at that time. */
  datatype Op = Add(resinfo: nat) | Save(block: nat) | Delete(count: int)

  /** A row in the queue: its descriptor and its number. */
  datatype Numbered = Numbered(resinfo: nat, row: nat)

  /** The queue that the ring stands for. */
  datatype Fifo = Fifo(capacity: nat, rows: seq<Numbered>, received: nat)
  {
    /** Adding is refused when the queue is full; without buffering the new row replaces the old. */
    function Step(op: Op): Fifo {
      match op
      case Add(d) =>
        if |rows| == capacity > 1 then this
        else Fifo(capacity, (if capacity == 1 then [] else rows) + [Numbered(d, received + 1)], received + 1)
      case Save(_) => this
      case Delete(count) => this.(rows := if 0 <= count <= |rows| then rows[count..] else [])
    }
  }

  function DeleteOldest(r: Ring, k: nat): Ring
    decreases k
  {
    if k == 0 || r.tail >= |r.slots| then r else DeleteOldest(r.Dropped(), k - 1)
  }

  function Newest(r: Ring): int {
    if r.head == 0 then |r.slots| - 1 else r.head - 1
  }

  function SaveNewest(r: Ring, block: nat): Ring
    requires 0 <= Newest(r) < |r.slots|
  {
    var i := Newest(r);
    if r.slots[i].resinfo.Some? && r.slots[i].block == None
    then r.(slots := r.slots[i := r.slots[i].(block := Some(block))])
    else r
  }

  function StepRing(r: Ring, op: Op): Ring {
    match op
    case Add(d) => if r.IsFull() || r.head >= |r.slots| then r else r.Added(Slot(Some(d), None, r.received + 1))
    case Save(block) => if |r.slots| <= 1 || Newest(r) >= |r.slots| then r else SaveNewest(r, block)
    case Delete(count) => if r.Count() < 0 then r else DeleteOldest(r, Bounded(count, r.Count()))
  }

  function RunRing(r: Ring, ops: seq<Op>): Ring {
    if ops == [] then r else StepRing(RunRing(r, ops[..|ops| - 1]), ops[|ops| - 1])
  }

  function RunFifo(f: Fifo, ops: seq<Op>): Fifo {
    if ops == [] then f else RunFifo(f, ops[..|ops| - 1]).Step(ops[|ops| - 1])
  }

  ghost function Rows(q: seq<Slot>): seq<Numbered> {
    seq(|q|, i requires 0 <= i < |q| =>
      Numbered(if q[i].resinfo.Some? then q[i].resinfo.value else 0, q[i].row))
  }

  ghost function Abstract(r: Ring): Fifo
    requires r.Shape()
  {
    Fifo(|r.slots|, Rows(r.Queue()), r.received)
  }

  function Allocated(capacity: nat): Ring {
    Ring(seq(capacity, _ => EMPTY), 0, capacity, 0)
  }

  lemma {:induction false} DeletedQueue(r: Ring, k: nat)
    requires r.Valid() && k <= r.Count()
    ensures var t := DeleteOldest(r, k);
            t.Valid() && t.Queue() == r.Queue()[k..] && t.received == r.received && |t.slots| == |r.slots|
    decreases k
  {
    if k > 0 {
      DroppedRow(r);
      assert r.Dropped().Count() == |r.Dropped().Queue()| == r.Count() - 1;
      DeletedQueue(r.Dropped(), k - 1);
      assert r.Queue()[1..][k - 1..] == r.Queue()[k..];
    }
  }

  lemma SavedQueue(r: Ring, block: nat)
    requires r.Valid() && |r.slots| > 1
    ensures 0 <= Newest(r) < |r.slots|
    ensures SaveNewest(r, block).Valid() && Abstract(SaveNewest(r, block)) == Abstract(r)
  {
    var n := r.Count();
    NewestSlot(r, Newest(r));
    if n > 0 {
      ReblockedRow(r, n - 1, Some(block));
      assert Rows(r.Queue()[n - 1 := r.Queue()[n - 1].(block := Some(block))]) == Rows(r.Queue());
    }
  }

  lemma DeletedRows(r: Ring, count: int)
    requires r.Valid()
    ensures var t := DeleteOldest(r, Bounded(count, r.Count()));
            t.Valid() && Abstract(t) == Abstract(r).Step(Delete(count))
  {
    var k := Bounded(count, r.Count());
    DeletedQueue(r, k);
    assert Rows(r.Queue()[k..]) == Rows(r.Queue())[k..];
    assert |Rows(r.Queue())| == r.Count();
  }

  /** Each call keeps the ring sound and does to it what it does to the queue. */
  lemma StepRefines(r: Ring, op: Op)
    requires r.Valid()
    ensures StepRing(r, op).Valid() && Abstract(StepRing(r, op)) == Abstract(r).Step(op)
  {
    match op
    case Add(d) =>
      if !r.IsFull() {
        AddedRow(r, Slot(Some(d), None, r.received + 1));
      }
    case Save(block) =>
      if |r.slots| > 1 {
        SavedQueue(r, block);
      }
    case Delete(count) =>
      DeletedRows(r, count);
  }

  /** From allocation on, whatever the calls: the ring is sound and stands for the queue. */
  lemma {:induction false} EveryRunIsAQueue(capacity: nat, ops: seq<Op>)
    requires capacity >= 1
    ensures var r := RunRing(Allocated(capacity), ops);
            r.Valid() && Checked(r) && Abstract(r) == RunFifo(Fifo(capacity, [], 0), ops)
  {
    if ops == [] {
      EmptyRing(capacity, Allocated(capacity));
      assert Rows([]) == [];
    } else {
      EveryRunIsAQueue(capacity, ops[..|ops| - 1]);
      StepRefines(RunRing(Allocated(capacity), ops[..|ops| - 1]), ops[|ops| - 1]);
    }
    CheckAlwaysHolds(RunRing(Allocated(capacity), ops));
  }
}
