/**
 The ring of row slots behind DB-Library's row buffering, as a value: where the rows
 are, which numbers they carry, and what adding, saving and deleting do to them.

 "Empty" is head 0 and tail equal to the capacity; head equal to tail means full; a
 capacity of one means that there is no buffering and the one slot is overwritten.
 */
module RowRing {

  datatype Option<T> = None | Some(value: T)

  /**
   One slot: the result descriptor of the row, the block that holds the row's data (none
   while the row still lies in the descriptor's own block), and the row number.
   */
  datatype Slot = Slot(resinfo: Option<nat>, block: Option<nat>, row: nat)

  const EMPTY := Slot(None, None, 0)

  /** The slot `j` places after `tail`, going round. */
  function Idx(tail: nat, j: nat, capacity: nat): nat {
    if tail + j >= capacity then tail + j - capacity else tail + j
  }

  /** The next slot, going round. */
  function Increment(i: nat, capacity: nat): nat {
    if i + 1 >= capacity then 0 else i + 1
  }

  datatype Ring = Ring(slots: seq<Slot>, head: nat, tail: nat, received: nat)
  {
    function Count(): int {
      if head > tail then head - tail else |slots| - (tail - head)
    }

    predicate IsFull() {
      |slots| == Count() && |slots| > 1
    }

    ghost predicate Shape() {
      && |slots| >= 1
      && head < |slots| && tail <= |slots|
      && (tail == |slots| ==> head == 0)
    }

    /** The slot of the `j`-th oldest place. */
    ghost function At(j: nat): Slot
      requires Shape() && j < |slots|
    {
      slots[Idx(tail, j, |slots|)]
    }

    /** The row number that belongs in the `j`-th oldest place. */
    ghost function Number(j: nat): int {
      received - Count() + 1 + j
    }

    /**
     The slots from tail round to head hold the rows with the consecutive numbers that end
     at `received`; every other slot is empty.
     */
    ghost predicate Valid() {
      && Shape()
      && Count() <= received
      && forall j: nat | j < |slots| ::
           if j < Count() then At(j).resinfo.Some? && At(j).row == Number(j) else At(j) == EMPTY
    }

    /** The buffered rows, oldest first. */
    ghost function Queue(): (q: seq<Slot>)
      requires Shape()
      ensures |q| == Count()
    {
      seq(Count(), (j: nat) requires Shape() && j < Count() => At(j))
    }

    function Reset(): Ring {
      this.(head := 0, tail := |slots|)
    }

    function Added(s: Slot): Ring
      requires head < |slots|
    {
      Ring(slots[head := s], Increment(head, |slots|), if tail == |slots| then 0 else tail, received + 1)
    }

    function Dropped(): Ring
      requires tail < |slots|
    {
      var t := Increment(tail, |slots|);
      var r := this.(slots := slots[tail := EMPTY], tail := t);
      if t == head then r.Reset() else r
    }
  }

  /** The slot is met on the way from tail to head. */
  ghost predicate Filled(r: Ring, i: nat) {
    if r.head > r.tail then r.tail <= i < r.head else r.tail <= i || i < r.head
  }

  /** What the program's own consistency check asserts of an allocated buffer. */
  ghost predicate Checked(r: Ring) {
    if |r.slots| == 1 then
      r.head == 0 && (r.tail == 0 || r.tail == 1)
    else
      && 0 <= r.head < |r.slots| && 0 <= r.tail <= |r.slots|
      && if r.tail == |r.slots| then
           r.head == 0 && forall i | 0 <= i < |r.slots| :: r.slots[i] == EMPTY
         else
           && (forall i | 0 <= i < |r.slots| && Filled(r, i) ::
                 r.slots[i].resinfo.Some? && 0 < r.slots[i].row <= r.received)
           && (forall i | 0 <= i < |r.slots| && !Filled(r, i) :: r.slots[i] == EMPTY)
  }

  /** The place of a slot, counted from the oldest. */
  ghost function Place(r: Ring, i: nat): nat
    requires r.Shape() && i < |r.slots|
  {
    if r.tail == |r.slots| then i else if i >= r.tail then i - r.tail else i + |r.slots| - r.tail
  }

  lemma PlaceOfSlot(r: Ring, i: nat)
    requires r.Shape() && i < |r.slots|
    ensures Place(r, i) < |r.slots| && Idx(r.tail, Place(r, i), |r.slots|) == i
    ensures r.tail < |r.slots| ==> (Filled(r, i) <==> Place(r, i) < r.Count())
  {
  }

  /** Everything the consistency check asserts always holds. */
  lemma CheckAlwaysHolds(r: Ring)
    requires r.Valid()
    ensures Checked(r)
  {
    forall i: nat | i < |r.slots|
      ensures r.tail < |r.slots| && Filled(r, i) ==> r.slots[i].resinfo.Some? && 0 < r.slots[i].row <= r.received
      ensures r.tail < |r.slots| && !Filled(r, i) ==> r.slots[i] == EMPTY
      ensures r.tail == |r.slots| ==> r.slots[i] == EMPTY
    {
      PlaceOfSlot(r, i);
      assert r.At(Place(r, i)) == r.slots[i];
    }
  }

  // -------------------------------------------------------------- the steps

  lemma EmptyRing(capacity: nat, r: Ring)
    requires capacity >= 1
    requires r == Ring(seq(capacity, _ => EMPTY), 0, capacity, 0)
    ensures r.Valid() && r.Queue() == []
  {
  }

  /** Adding puts the row at the end of the queue; without buffering it replaces the old one. */
  lemma AddedRow(r: Ring, s: Slot)
    requires r.Valid() && !r.IsFull()
    requires s.resinfo.Some? && s.row == r.received + 1
    ensures r.Added(s).Valid()
    ensures r.Added(s).Queue() == (if |r.slots| == 1 then [] else r.Queue()) + [s]
  {
    var n, cap, t := r.Count(), |r.slots|, r.Added(s);
    if cap > 1 {
      assert r.head == Idx(r.tail, n, cap);
      assert t.Count() == n + 1;
      forall j: nat | j < cap
        ensures t.At(j) == if j == n then s else r.At(j)
      {
      }
    }
  }

  /** Dropping takes the oldest row off the queue. */
  lemma DroppedRow(r: Ring)
    requires r.Valid() && r.Count() > 0
    ensures r.tail < |r.slots|
    ensures r.Dropped().Valid()
    ensures r.Dropped().Queue() == r.Queue()[1..]
  {
    var n, cap, t := r.Count(), |r.slots|, r.Dropped();
    if n == 1 {
      forall i: nat | i < cap
        ensures t.slots[i] == EMPTY
      {
        PlaceOfSlot(r, i);
        assert r.At(Place(r, i)) == r.slots[i];
      }
    } else {
      assert t.Count() == n - 1;
      forall j: nat | j < cap
        ensures t.At(j) == if j + 1 < cap then r.At(j + 1) else EMPTY
      {
      }
    }
  }

  /** Changing which block a buffered row uses leaves the ring as it was. */
  lemma ReblockedRow(r: Ring, j: nat, block: Option<nat>)
    requires r.Valid() && j < r.Count()
    ensures var i := Idx(r.tail, j, |r.slots|);
            var t := r.(slots := r.slots[i := r.slots[i].(block := block)]);
            t.Valid() && t.Queue() == r.Queue()[j := r.Queue()[j].(block := block)]
  {
    var i := Idx(r.tail, j, |r.slots|);
    var t := r.(slots := r.slots[i := r.slots[i].(block := block)]);
    forall k: nat | k < |r.slots|
      ensures t.At(k) == if k == j then r.At(j).(block := block) else r.At(k)
    {
    }
  }

  /** The slot of a buffered row, by arithmetic on its number. */
  ghost function SlotOf(r: Ring, row: int): int
    requires r.Valid()
  {
    if r.received - r.Count() < row <= r.received
    then Idx(r.tail, row - (r.received - r.Count()) - 1, |r.slots|)
    else -1
  }

  lemma BufferedRow(r: Ring, row: int)
    requires r.Valid() && r.received - r.Count() < row <= r.received
    ensures exists j: nat :: j < r.Count() && r.At(j).row == row
  {
    assert r.At(row - (r.received - r.Count()) - 1).row == row;
  }

  /** A row number that no buffered row carries has no slot. */
  lemma NotBuffered(r: Ring, row: int)
    requires r.Valid() && forall j: nat | j < r.Count() :: r.At(j).row != row
    ensures SlotOf(r, row) == -1
  {
    if r.received - r.Count() < row <= r.received { BufferedRow(r, row); }
  }

  // ------------------------------------------------------------ the cursor

  /** The answer about the current row; `Aborted` is a failed assertion of the program. */
  datatype Current = NoRow | Index(i: nat) | Aborted

  function CurrentIndex(r: Ring, current: nat): Current {
    if |r.slots| <= 1 then NoRow
    else if current == r.head || current == |r.slots| then NoRow
    else if r.tail < r.head then
      if r.tail < current < r.head then Index(current) else Aborted
    else
      if current > r.head && !(current > r.tail) then Aborted else Index(current)
  }

  /**
   With buffering, the cursor's answer is exact: no row at head or at the capacity, the
   slot itself on every buffered row but the oldest, and an abort on the oldest row of a
   buffer that is not full and on unused slots.
   */
  lemma CurrentIndexExact(r: Ring, current: nat)
    requires r.Valid() && |r.slots| > 1 && current < |r.slots|
    ensures CurrentIndex(r, current) == NoRow <==> current == r.head
    ensures CurrentIndex(r, current) == Index(current) <==> 0 < Place(r, current) < r.Count()
    ensures CurrentIndex(r, current) == Aborted <==>
              current != r.head && (Place(r, current) == 0 || Place(r, current) >= r.Count())
  {
    PlaceOfSlot(r, current);
  }

  /** The number of the row that the cursor delivers next. */
  ghost function NextNumber(r: Ring, current: nat): int
    requires r.Valid() && current <= |r.slots|
  {
    match CurrentIndex(r, current)
    case Index(i) => if i < |r.slots| then r.Number(Place(r, i)) else 0
    case _ => r.received + 1
  }

  /** Where a jump to a buffered row puts the cursor, and what the cursor then says. */
  lemma JumpTo(r: Ring, row: int)
    requires r.Valid() && |r.slots| > 1
    requires r.received - r.Count() < row <= r.received
    ensures 0 <= SlotOf(r, row) < |r.slots|
    ensures var oldest := row == r.received - r.Count() + 1;
            && CurrentIndex(r, SlotOf(r, row)) ==
               (if !oldest then Index(SlotOf(r, row)) else if r.IsFull() then NoRow else Aborted)
            && NextNumber(r, SlotOf(r, row)) == (if oldest then r.received + 1 else row)
  {
    var i := SlotOf(r, row);
    PlaceOfSlot(r, i);
    assert Place(r, i) == row - (r.received - r.Count()) - 1;
    CurrentIndexExact(r, i);
  }

  /** After a delivery of a buffered row the cursor is at the row with the next number. */
  lemma StepFrom(r: Ring, row: int)
    requires r.Valid() && |r.slots| > 1
    requires r.received - r.Count() < row <= r.received
    ensures 0 <= SlotOf(r, row) < |r.slots|
    ensures var c := Increment(SlotOf(r, row), |r.slots|);
            CurrentIndex(r, c) != Aborted && NextNumber(r, c) == row + 1
  {
    if row < r.received {
      JumpTo(r, row + 1);
      var i := SlotOf(r, row + 1);
      PlaceOfSlot(r, i);
      assert i == Increment(SlotOf(r, row), |r.slots|);
    }
  }

  /** The cursor on a buffered row is that row's slot. */
  lemma CursorSlot(r: Ring, current: nat)
    requires r.Valid() && current <= |r.slots| && CurrentIndex(r, current).Index?
    ensures |r.slots| > 1 && CurrentIndex(r, current) == Index(current) && current < |r.slots|
    ensures r.received - r.Count() + 1 < NextNumber(r, current) <= r.received
    ensures current == SlotOf(r, NextNumber(r, current))
  {
    CurrentIndexExact(r, current);
    PlaceOfSlot(r, current);
  }

  /**
   Deleting the `k` oldest rows, but not all: the cursor then aborts exactly when it was on
   a buffered row and that row is now the oldest one or gone.
   */
  lemma CursorAfterDelete(r: Ring, t: Ring, current: nat, k: nat)
    requires r.Valid() && t.Valid() && |t.slots| == |r.slots| > 1 && current <= |r.slots|
    requires t.received == r.received && t.head == r.head
    requires k < r.Count() && t.Count() == r.Count() - k
    requires CurrentIndex(r, current) != Aborted
    ensures CurrentIndex(t, current) == Aborted <==>
              NextNumber(r, current) <= r.received && NextNumber(r, current) <= t.received - t.Count() + 1
    ensures CurrentIndex(t, current) != Aborted ==> NextNumber(t, current) == NextNumber(r, current)
  {
    if current < |r.slots| {
      CurrentIndexExact(r, current);
      CurrentIndexExact(t, current);
      PlaceOfSlot(r, current);
      PlaceOfSlot(t, current);
    }
  }

  /** How many rows clearing `n` of `c` rows leaves: never none, if there were any. */
  function Left(n: int, c: nat): nat {
    if n <= 0 || c == 0 then c else if n >= c then 1 else c - n
  }

  /** Ring and cursor after clearing, without (`t == r`) or with rows deleted. */
  lemma CursorAfterClear(r: Ring, t: Ring, current: nat)
    requires r.Valid() && t.Valid() && |t.slots| == |r.slots| && current <= |r.slots|
    requires t.received == r.received && t.head == r.head
    requires t == r || 0 < t.Count() <= r.Count()
    requires CurrentIndex(r, current) != Aborted
    ensures |r.slots| > 1 ==>
              (CurrentIndex(t, current) == Aborted <==>
                 NextNumber(r, current) <= r.received && NextNumber(r, current) <= t.received - t.Count() + 1)
    ensures CurrentIndex(t, current) != Aborted ==> NextNumber(t, current) == NextNumber(r, current)
  {
    if t == r {
      if CurrentIndex(r, current).Index? { CursorSlot(r, current); }
    } else if |r.slots| > 1 {
      CursorAfterDelete(r, t, current, r.Count() - t.Count());
    }
  }

  /** A cursor whose use fails an assertion stays one when rows are cleared. */
  lemma LostAfterClear(r: Ring, t: Ring, current: nat)
    requires r.Valid() && t.Valid() && |t.slots| == |r.slots| && current <= |r.slots|
    requires t.received == r.received && t.head == r.head
    requires t == r || 0 < t.Count() <= r.Count()
    requires CurrentIndex(r, current) == Aborted
    ensures CurrentIndex(t, current) == Aborted
  {
    if t != r && current < |r.slots| {
      CurrentIndexExact(r, current);
      CurrentIndexExact(t, current);
      PlaceOfSlot(r, current);
      PlaceOfSlot(t, current);
    }
  }

  /** Both together: what clearing does to any cursor. */
  lemma ClearedCursor(r: Ring, t: Ring, current: nat)
    requires r.Valid() && t.Valid() && |t.slots| == |r.slots| && current <= |r.slots|
    requires t.received == r.received && t.head == r.head
    requires t == r || 0 < t.Count() <= r.Count()
    ensures CurrentIndex(r, current) == Aborted ==> CurrentIndex(t, current) == Aborted
    ensures CurrentIndex(r, current) != Aborted && |r.slots| > 1 ==>
              (CurrentIndex(t, current) == Aborted <==>
                 NextNumber(r, current) <= r.received && NextNumber(r, current) <= t.received - t.Count() + 1)
    ensures CurrentIndex(t, current) != Aborted ==> NextNumber(t, current) == NextNumber(r, current)
  {
    if CurrentIndex(r, current) == Aborted {
      LostAfterClear(r, t, current);
    } else {
      CursorAfterClear(r, t, current);
    }
  }

  /** The cursor does not depend on what is in the slots. */
  lemma SameCursor(r: Ring, t: Ring, current: nat)
    requires r.Valid() && t.Valid() && |t.slots| == |r.slots| && current <= |r.slots|
    requires t.head == r.head && t.tail == r.tail && t.received == r.received
    ensures CurrentIndex(t, current) == CurrentIndex(r, current) && NextNumber(t, current) == NextNumber(r, current)
    ensures t.Count() == r.Count()
  {
  }

  /** A cursor at head is behind all rows. */
  lemma AtHead(r: Ring)
    requires r.Valid()
    ensures CurrentIndex(r, r.head) == NoRow && NextNumber(r, r.head) == r.received + 1
  {
  }

  lemma AddedCount(r: Ring, s: Slot)
    requires r.Valid() && !r.IsFull()
    ensures r.Added(s).Count() == if |r.slots| == 1 then 1 else r.Count() + 1
  {
  }

  /** A row just added is in the slot that head was at, and head is next. */
  lemma AddedSlot(r: Ring, s: Slot)
    requires r.Valid() && !r.IsFull() && r.Added(s).Valid()
    ensures SlotOf(r.Added(s), r.received + 1) == r.head
    ensures Increment(r.head, |r.slots|) == r.Added(s).head
  {
  }
}
