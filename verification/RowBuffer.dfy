/**
 DB-Library's row buffer and the calls that work on it: dbnextrow, dbgetrow, dbsetrow
 and dbclrbuf.  Rows from the server are numbered as they arrive; `log` records them.
 The buffer always hands out, under a row's number, the data with which it arrived.

 The sizes saved with a row and the copying into bound variables are not modelled.
 */
module RowBuffer {
  import opened RowRing
  import opened RowStore

  datatype Fetched = Row(number: nat, data: Data) | NoMoreRows | BufFull

  /** How many rows a request to delete `count` of `n` deletes. */
  function Bounded(count: int, n: nat): nat {
    if count < 0 || count > n then n else count
  }

  lemma Shorter(q: seq<Slot>, i: nat)
    requires i < |q|
    ensures q[i..][1..] == q[i + 1..] && |q[i + 1..]| == |q| - i - 1
  {
  }

  /** Ring and store fit together. */
  ghost predicate Sound(r: Ring, st: Store) {
    r.Valid() && Owned(st, r.Queue())
  }

  /** They also hold, under each number, what arrived under it. */
  ghost predicate Good(r: Ring, st: Store, log: seq<Arrived>) {
    Sound(r, st) && |log| == r.received && Faithful(st, r.Queue(), log)
  }

  lemma FaithfulTail(st: Store, st1: Store, q: seq<Slot>, log: seq<Arrived>)
    requires Owned(st, q) && q != [] && Owned(st1, q[1..]) && Faithful(st, q, log)
    requires forall j | 1 <= j < |q| :: st1.DataOf(q[j]) == st.DataOf(q[j])
    ensures Faithful(st1, q[1..], log)
  {
    assert forall j | 0 <= j < |q| - 1 :: q[1..][j] == q[j + 1];
  }

  lemma GoodDrop(r: Ring, st: Store, log: seq<Arrived>)
    requires Good(r, st, log) && r.Count() > 0
    ensures r.tail < |r.slots| && r.slots[r.tail] == r.Queue()[0]
    ensures r.Dropped().Queue() == r.Queue()[1..]
    ensures Good(r.Dropped(), st.Freed(r.Queue()[0]), log)
  {
    DroppedRow(r);
    assert r.slots[r.tail] == r.At(0) == r.Queue()[0];
    DropOldest(st, r.Queue());
    FaithfulTail(st, st.Freed(r.Queue()[0]), r.Queue(), log);
  }

  /** The slot before head holds the newest row, if there is one. */
  lemma NewestSlot(r: Ring, i: nat)
    requires r.Valid() && i == if r.head == 0 then |r.slots| - 1 else r.head - 1
    ensures r.Count() == 0 ==> r.slots[i] == EMPTY
    ensures r.Count() > 0 ==> i == Idx(r.tail, r.Count() - 1, |r.slots|) && r.slots[i] == r.Queue()[r.Count() - 1]
  {
    if r.Count() == 0 {
      assert r.At(i) == r.slots[i];
    } else {
      assert r.At(r.Count() - 1) == r.slots[i];
    }
  }

  lemma FaithfulKept(st: Store, q: seq<Slot>, st1: Store, q1: seq<Slot>, log: seq<Arrived>)
    requires Owned(st, q) && Owned(st1, q1) && Faithful(st, q, log) && |q| == |q1|
    requires forall j | 0 <= j < |q| :: q1[j].row == q[j].row && q1[j].resinfo == q[j].resinfo
    requires forall j | 0 <= j < |q| :: st1.DataOf(q1[j]) == st.DataOf(q[j])
    ensures Faithful(st1, q1, log)
  {
  }

  lemma GoodSave(r: Ring, st: Store, log: seq<Arrived>, i: nat)
    requires Good(r, st, log) && r.Count() > 0
    requires i == Idx(r.tail, r.Count() - 1, |r.slots|) && r.slots[i] == r.Queue()[r.Count() - 1]
    requires r.slots[i].block == None
    ensures r.slots[i].resinfo.Some? && r.slots[i].resinfo.value in st.own
    ensures var d := r.slots[i].resinfo.value;
            var t := r.(slots := r.slots[i := r.slots[i].(block := Some(st.own[d]))]);
            Good(t, st.Reallocated(d), log) && AllSaved(t.Queue())
  {
    var n, q := r.Count() - 1, r.Queue();
    assert RowOk(st, q[n]);
    var d := q[n].resinfo.value;
    SaveNewest(st, q);
    ReblockedRow(r, n, Some(st.own[d]));
    FaithfulKept(st, q, st.Reallocated(d), q[n := q[n].(block := Some(st.own[d]))], log);
  }

  /** The store after a slot, free or not, was taken for a row of descriptor `d`. */
  function Retaken(st: Store, slot: Slot, d: nat): Store {
    (if slot.resinfo.Some? then st.Freed(slot) else st).AddRef(d)
  }

  lemma FaithfulAdded(st: Store, q: seq<Slot>, s: Slot, d: nat, log: seq<Arrived>)
    requires Owned(st, q) && AllSaved(q) && Faithful(st, q, log) && d in st.own
    requires s == Slot(Some(d), None, |log| + 1)
    ensures Owned(st.AddRef(d), q + [s])
    ensures Faithful(st.AddRef(d), q + [s], log + [Arrived(d, st.blocks[st.own[d]])])
  {
    AddNewest(st, q, d, s.row);
  }

  lemma GoodAdd(r: Ring, st: Store, log: seq<Arrived>, d: nat)
    requires Good(r, st, log) && AllSaved(r.Queue()) && |r.slots| > 1 && !r.IsFull() && d in st.own
    ensures Good(r.Added(Slot(Some(d), None, r.received + 1)), Retaken(st, r.slots[r.head], d),
                 log + [Arrived(d, st.blocks[st.own[d]])])
  {
    var s := Slot(Some(d), None, r.received + 1);
    assert r.At(r.Count()) == r.slots[r.head];
    AddedRow(r, s);
    FaithfulAdded(st, r.Queue(), s, d, log);
  }

  /** Without buffering, giving up the one slot leaves nothing. */
  lemma OneSlotFreed(r: Ring, st: Store)
    requires Sound(r, st) && |r.slots| == 1
    ensures Owned(st.Freed(r.slots[0]), []) && st.Freed(r.slots[0]).own == st.own
    ensures forall d | d in st.own :: st.Freed(r.slots[0]).blocks[st.own[d]] == st.blocks[st.own[d]]
  {
    assert r.At(0) == r.slots[0];
    if r.Count() == 1 {
      assert r.slots[0] == r.Queue()[0];
      DropOldest(st, r.Queue());
      assert r.Queue()[1..] == [];
      assert RowOk(st, r.Queue()[0]);
    } else {
      assert r.Queue() == [];
    }
  }

  /** Without buffering the one slot is given up and taken again. */
  lemma GoodReplace(r: Ring, st: Store, log: seq<Arrived>, d: nat)
    requires Sound(r, st) && |r.slots| == 1 && |log| == r.received && d in st.own
    ensures Good(r.Added(Slot(Some(d), None, r.received + 1)), Retaken(st, r.slots[0], d),
                 log + [Arrived(d, st.blocks[st.own[d]])])
  {
    var s := Slot(Some(d), None, r.received + 1);
    AddedRow(r, s);
    OneSlotFreed(r, st);
    assert r.slots[0].resinfo == None ==> st.Freed(r.slots[0]) == st by { assert r.At(0) == r.slots[0]; }
    FaithfulAdded(st.Freed(r.slots[0]), [], s, d, log);
    assert [] + [s] == [s];
  }

  /** A row may be added: earlier rows are saved, or there is no buffering. */
  ghost predicate Ready(r: Ring, st: Store, log: seq<Arrived>) {
    && Sound(r, st) && |log| == r.received
    && (|r.slots| > 1 ==> Good(r, st, log) && AllSaved(r.Queue()))
  }

  lemma GoodNext(r: Ring, st: Store, log: seq<Arrived>, d: nat)
    requires Ready(r, st, log) && !r.IsFull() && d in st.own
    ensures Good(r.Added(Slot(Some(d), None, r.received + 1)), Retaken(st, r.slots[r.head], d),
                 log + [Arrived(d, st.blocks[st.own[d]])])
    ensures SlotOf(r.Added(Slot(Some(d), None, r.received + 1)), r.received + 1) == r.head
  {
    AddedRow(r, Slot(Some(d), None, r.received + 1));
    AddedSlot(r, Slot(Some(d), None, r.received + 1));
    if |r.slots| > 1 { GoodAdd(r, st, log, d); } else { GoodReplace(r, st, log, d); }
  }

  /** Reading the next row from the server makes it ready to be added. */
  lemma ReadReady(r: Ring, st: Store, log: seq<Arrived>, a: Arrived)
    requires Good(r, st, log) && (|r.slots| > 1 ==> AllSaved(r.Queue())) && a.resinfo in st.own
    ensures Ready(r, st.ReadInto(a.resinfo, a.data), log)
  {
    ReadNext(st, r.Queue(), a.resinfo, a.data);
  }

  /** What saving does to the slot before head, and to the store. */
  function SavedSlot(s: Slot, st: Store): (Slot, Store) {
    if s.resinfo.Some? && s.block == None && s.resinfo.value in st.own
    then (s.(block := Some(st.own[s.resinfo.value])), st.Reallocated(s.resinfo.value))
    else (s, st)
  }

  lemma GoodSaved(r: Ring, st: Store, log: seq<Arrived>, i: nat)
    requires Good(r, st, log)
    requires i == if r.head == 0 then |r.slots| - 1 else r.head - 1
    ensures r.slots[i].resinfo.Some? ==> r.slots[i].resinfo.value in st.own
    ensures var (s, st1) := SavedSlot(r.slots[i], st);
            var t := r.(slots := r.slots[i := s]);
            Good(t, st1, log) && AllSaved(t.Queue()) && st1.own.Keys == st.own.Keys
  {
    NewestSlot(r, i);
    var n := r.Count();
    if n == 0 {
      assert r.slots[i := r.slots[i]] == r.slots;
    } else {
      assert RowOk(st, r.Queue()[n - 1]);
      if r.slots[i].block == None {
        GoodSave(r, st, log, i);
      } else {
        assert r.slots[i := r.slots[i]] == r.slots;
      }
    }
  }

  /** A buffered row's slot holds its number and the data that arrived under it. */
  lemma SlotHolds(r: Ring, st: Store, log: seq<Arrived>, row: int)
    requires Good(r, st, log) && r.received - r.Count() < row <= r.received
    ensures 0 <= SlotOf(r, row) < |r.slots|
    ensures var s := r.slots[SlotOf(r, row)];
            s.row == row && RowOk(st, s) && st.DataOf(s) == log[row - 1].data
  {
    var j := row - (r.received - r.Count()) - 1;
    assert r.Queue()[j] == r.At(j) == r.slots[SlotOf(r, row)];
  }

  /** The data of the rows that arrived after the first `from`, in order. */
  ghost predicate Delivered(out: seq<Data>, log: seq<Arrived>, from: nat) {
    from + |out| <= |log| && forall k | 0 <= k < |out| :: out[k] == log[from + k].data
  }

  lemma DeliveredMore(out: seq<Data>, log: seq<Arrived>, from: nat, data: Data)
    requires Delivered(out, log, from) && from + |out| < |log| && data == log[from + |out|].data
    ensures Delivered(out + [data], log, from)
  {
  }

  /** Where a client stands: the number of the row that comes next, or a cursor that must not be used. */
  datatype Place = At(next: int) | Lost

  /** What a client knows of the buffer: capacity, arrivals, how many are buffered, cursor, descriptors. */
  datatype Held = Held(capacity: nat, log: seq<Arrived>, count: int, cursor: Place, descriptors: set<nat>)
  {
    predicate Full() {
      count == capacity > 1
    }

    predicate Has(row: int) {
      |log| - count < row <= |log|
    }

    /** With one more arrival, which was handed out. */
    function Grown(a: Arrived): Held {
      Held(capacity, log + [a], if capacity == 1 then 1 else count + 1, At(|log| + 2), descriptors)
    }

    /** With a buffered row made current: the oldest one cannot be. */
    function Jumped(row: int): Held {
      this.(cursor := if capacity == 1 then At(|log| + 1)
                      else if row > |log| - count + 1 then At(row)
                      else if Full() then At(|log| + 1) else Lost)
    }

    /** With some of the oldest rows cleared: a cursor on the oldest row left, or before it, is lost. */
    function Cleared(n: int): Held {
      if capacity <= 1 || count < 0 then this
      else
        var c := Left(n, count);
        this.(count := c,
              cursor := if cursor.At? && cursor.next <= |log| && cursor.next <= |log| - c + 1 then Lost else cursor)
    }
  }

  ghost predicate Same(a: Held, b: Held) {
    a == b
  }

  class RowBuffer {
    const rows: array<Slot>
    var head: nat
    var tail: nat
    var current: nat
    var received: nat
    var store: Store

    /** All rows that arrived; row number `k` is `log[k - 1]`. */
    ghost var log: seq<Arrived>

    ghost function View(): Ring
      reads this, rows
    {
      Ring(rows[..], head, tail, received)
    }

    ghost predicate Structure()
      reads this, rows
    {
      Sound(View(), store) == true && current <= rows.Length && |log| == received
    }

    ghost predicate Valid()
      reads this, rows
    {
      // (comparing with true keeps the verifier from taking the predicate apart)
      Good(View(), store, log) == true && current <= rows.Length
    }

    function Cursor(): Current
      reads this, rows
    {
      CurrentIndex(Ring(rows[..], head, tail, received), current)
    }

    ghost function Next(): int
      requires Structure()
      reads this, rows
    {
      NextNumber(View(), current)
    }

    constructor (capacity: nat, store: Store)
      requires capacity >= 1
      requires store.Valid() && store.refs == multiset{}
      ensures Valid() && fresh(rows) && rows.Length == capacity
      ensures View().Queue() == [] && log == []
      ensures this.store == store
      ensures Cursor() == NoRow && Next() == 1
    {
      rows := new Slot[capacity](_ => EMPTY);
      head, tail, current, received := 0, capacity, capacity, 0;
      this.store, log := store, [];
      new;
      EmptyRing(capacity, View());
      assert Descriptors([]) == [];
    }

    function Count(): int
      reads this`head, this`tail
    {
      if head > tail then head - tail else rows.Length - (tail - head)
    }

    predicate IsFull()
      reads this`head, this`tail
    {
      rows.Length == Count() && rows.Length > 1
    }

    /** The option for buffering; setting it sets a capacity of two or more, clearing it one of one. */
    predicate Buffering()
    {
      rows.Length > 1
    }

    /** Marches from tail to head; the answer is what arithmetic on the row number gives. */
    method Row2Idx(row: int) returns (i: int)
      requires Structure()
      ensures i == SlotOf(View(), row)
    {
      if tail == rows.Length {
        return -1;
      }
      i := tail;
      ghost var k: nat := 0;
      ghost var r := View();
      while true
        invariant 0 <= k < r.Count() && i == Idx(r.tail, k, |r.slots|)
        invariant forall j: nat | j < k :: r.At(j).row != row
        decreases r.Count() - k
      {
        assert rows[i] == r.At(k);
        if rows[i].row == row {
          return i;
        }
        i := Increment(i, rows.Length);
        k := k + 1;
        if i == head {
          break;
        }
      }
      NotBuffered(r, row);
      return -1;
    }

    method Reset()
      modifies this`head, this`tail, this`current
      ensures head == 0 && tail == current == rows.Length
    {
      head, tail, current := 0, rows.Length, rows.Length;
    }

    /** The assignments of deleting the oldest row. */
    method FreeOldest()
      requires tail < rows.Length
      modifies this, rows
      ensures View() == old(View()).Dropped()
      ensures store == old(store).Freed(old(rows[tail])) && log == old(log)
      ensures current == if tail == rows.Length then rows.Length else old(current)
    {
      store := store.Freed(rows[tail]);
      rows[tail] := EMPTY;
      tail := Increment(tail, rows.Length);
      if tail == head {
        Reset();
      }
      assert rows[..] == old(rows[..])[old(tail) := EMPTY];
    }

    /** One round of deleting: the oldest row is freed. */
    method DropOne()
      requires Valid() && Count() > 0
      modifies this, rows
      ensures Valid() && log == old(log)
      ensures View() == old(View()).Dropped()
      ensures View().Queue() == old(View().Queue())[1..]
      ensures current == if tail == rows.Length then rows.Length else old(current)
      ensures store.own == old(store.own)
    {
      GoodDrop(View(), store, log);
      ghost var r, st := View().Dropped(), store.Freed(rows[tail]);
      FreeOldest();
      assert View() == r && store == st;
      assert Good(r, st, log) == true;
    }

    /** One round, when `i` of the rows `q` are gone already. */
    method DropNext(ghost q: seq<Slot>, ghost i: nat)
      requires Valid() && i < |q| && View().Queue() == q[i..]
      modifies this, rows
      ensures Valid() && log == old(log) && store.own == old(store.own)
      ensures View().Queue() == q[i + 1..]
      ensures tail == rows.Length <==> i + 1 == |q|
      ensures if i + 1 < |q| then head == old(head) && current == old(current) else current == rows.Length
    {
      Shorter(q, i);
      assert Count() == |View().Queue()|;
      DropOne();
      assert Count() == |View().Queue()| == |q| - i - 1;
    }

    /** The rounds of deleting the `k` oldest rows. */
    method DropRows(k: nat)
      requires Valid() && 0 < k <= Count()
      modifies this, rows
      ensures Valid() && log == old(log) && store.own == old(store.own)
      ensures View().Queue() == old(View().Queue())[k..]
      ensures if k < old(Count()) then head == old(head) && current == old(current) else current == rows.Length
    {
      ghost var q := View().Queue();
      assert q[0..] == q;
      var i := 0;
      while i < k
        invariant 0 <= i <= k && Valid() && log == old(log) && store.own == old(store.own)
        invariant View().Queue() == q[i..]
        invariant if i < |q| then head == old(head) && current == old(current) else current == rows.Length
        decreases k - i
      {
        DropNext(q, i);
        i := i + 1;
        if tail == rows.Length {
          break;
        }
      }
    }

    /** Deletes the `count` oldest rows, all of them if `count` is negative or too big. */
    method DeleteRows(count: int)
      requires Valid()
      modifies this, rows
      ensures Valid() && log == old(log) && store.own == old(store.own)
      ensures View().Queue() == old(View().Queue())[Bounded(count, old(Count()))..]
      ensures View().Queue() ==
              if 0 <= count <= |old(View().Queue())| then old(View().Queue())[count..] else []
      ensures Bounded(count, old(Count())) < old(Count()) ==> head == old(head) && current == old(current)
      ensures Bounded(count, old(Count())) == old(Count()) > 0 ==> current == rows.Length
      ensures old(Count()) == 0 ==> View() == old(View()) && current == old(current)
    {
      var k := Bounded(count, Count());
      ghost var q := View().Queue();
      assert q[0..] == q;
      if k > 0 {
        DropRows(k);
      }
    }

    /** Saves the newest row's data: its slot takes over the descriptor's block. */
    method SaveRow()
      requires Valid()
      modifies this, rows
      ensures Valid() && log == old(log)
      ensures rows.Length > 1 ==> AllSaved(View().Queue())
      ensures rows.Length == 1 ==> View() == old(View()) && store == old(store)
      ensures head == old(head) && tail == old(tail) && current == old(current) && received == old(received)
      ensures store.own.Keys == old(store.own.Keys)
    {
      if rows.Length <= 1 {
        return;
      }
      var idx := if head == 0 then rows.Length - 1 else head - 1;
      GoodSaved(View(), store, log, idx);
      ghost var (s, st) := SavedSlot(rows[idx], store);
      ghost var r := View().(slots := rows[..][idx := s]);
      if rows[idx].resinfo.Some? && rows[idx].block == None {
        var d := rows[idx].resinfo.value;
        rows[idx] := rows[idx].(block := Some(store.own[d]));
        store := store.Reallocated(d);
      }
      assert View() == r && store == st;
    }

    /** The assignments of adding a row. */
    method PutRow(d: nat)
      requires head < rows.Length && tail <= rows.Length && d in store.own && store.own[d] in store.blocks
      modifies this, rows
      ensures View() == old(View()).Added(Slot(Some(d), None, old(received) + 1))
      ensures store == Retaken(old(store), old(rows[head]), d)
      ensures log == old(log) + [Arrived(d, old(store.blocks[store.own[d]]))]
      ensures current == old(head)
    {
      log := log + [Arrived(d, store.blocks[store.own[d]])];
      store := Retaken(store, rows[head], d);
      received := received + 1;
      rows[head] := Slot(Some(d), None, received);
      tail := if tail == rows.Length then 0 else tail;
      current := head;
      head := Increment(head, rows.Length);
      assert rows[..] == old(rows[..])[old(head) := Slot(Some(d), None, received)];
    }

    /** Adds a row where there is room, after the other rows. */
    method AddToRoom(d: nat)
      requires Ready(View(), store, log) && d in store.own && !IsFull()
      modifies this, rows
      ensures Valid()
      ensures View() == old(View()).Added(Slot(Some(d), None, old(received) + 1))
      ensures log == old(log) + [Arrived(d, old(store.blocks[store.own[d]]))]
      ensures current == old(head) == SlotOf(View(), received)
      ensures store.own == old(store.own)
    {
      GoodNext(View(), store, log, d);
      ghost var r, st := View().Added(Slot(Some(d), None, received + 1)), Retaken(store, rows[head], d);
      ghost var l := log + [Arrived(d, store.blocks[store.own[d]])];
      PutRow(d);
      assert View() == r && store == st && log == l;
      assert Good(View(), store, log) == true;
    }

    /**
     Adds the row that was just read into its descriptor's block.  The answer is -1 exactly
     when the queue holds as many rows as the capacity, with buffering.
     */
    method AddRow(d: nat) returns (i: int)
      requires Ready(View(), store, log) && d in store.own
      modifies this, rows
      ensures i == -1 <==> old(IsFull())
      ensures i == -1 ==> View() == old(View()) && store == old(store) && log == old(log) && current == old(current)
      ensures i != -1 ==>
                && Valid()
                && View() == old(View()).Added(Slot(Some(d), None, old(received) + 1))
                && log == old(log) + [Arrived(d, old(store.blocks[store.own[d]]))]
                && i == current == old(head) == SlotOf(View(), received)
                && store.own == old(store.own)
    {
      if IsFull() {
        return -1;
      }
      AddToRoom(d);
      i := current;
    }

    /** Hands out the row in a slot and moves the cursor to the slot after the current one. */
    method Transfer(i: nat, ghost row: int) returns (number: nat, data: Data)
      requires Valid() && i == SlotOf(View(), row)
      modifies this`current
      ensures Valid() && View() == old(View())
      ensures number == row && data == log[row - 1].data
      ensures current == Increment(old(current), rows.Length)
    {
      SlotHolds(View(), store, log, row);
      number, data := rows[i].row, store.DataOf(rows[i]);
      current := Increment(current, rows.Length);
    }

    /** Fetches a buffered row by number; the next row is then the one with the next number. */
    method GetRow(row: int) returns (f: Fetched)
      requires Valid()
      modifies this`current
      ensures Valid() && View() == old(View())
      ensures SlotOf(View(), row) == -1 ==> f == NoMoreRows && current == old(current)
      ensures SlotOf(View(), row) != -1 ==>
                && 0 < row <= |log| && f == Row(row, log[row - 1].data)
                && (rows.Length > 1 ==> Cursor() != Aborted && Next() == row + 1)
    {
      var i := Row2Idx(row);
      if i == -1 {
        return NoMoreRows;
      }
      if rows.Length > 1 { StepFrom(View(), row); }
      current := i;
      var number, data := Transfer(i, row);
      f := Row(number, data);
    }

    /** Makes a buffered row current without fetching it. */
    method SetRow(row: int) returns (found: bool)
      requires Valid()
      modifies this`current
      ensures Valid() && View() == old(View())
      ensures found <==> received - Count() < row <= received
      ensures !found ==> current == old(current)
      ensures found && rows.Length > 1 ==>
                Cursor() == if row > received - Count() + 1 then Index(SlotOf(View(), row))
                            else if IsFull() then NoRow else Aborted
      ensures found && rows.Length > 1 ==> Next() == if row > received - Count() + 1 then row else received + 1
    {
      var i := Row2Idx(row);
      if i == -1 {
        return false;
      }
      if rows.Length > 1 { JumpTo(View(), row); }
      current := i;
      found := true;
    }

    lemma CountsQueue()
      requires Valid()
      ensures Count() == |View().Queue()|
    {
      ghost var r := View();
      assert r.Count() == |r.Queue()|;
    }

    /** Deletes fewer rows than there are, or nothing from an empty buffer. */
    method ClearRows(k: int)
      requires Valid() && (0 <= k < Count() || Count() == 0)
      modifies this, rows
      ensures Valid() && log == old(log)
      ensures Count() == (if old(Count()) == 0 then 0 else old(Count()) - k)
      ensures head == old(head) && current == old(current) && received == old(received)
      ensures old(Count()) == 0 ==> View() == old(View())
      ensures store.own == old(store.own)
    {
      CountsQueue();
      DeleteRows(k);
      CountsQueue();
    }

    /** Clears up to `n` of the oldest rows, never the newest one. */
    method ClrBuf(n: int)
      requires Valid()
      modifies this, rows
      ensures Valid() && log == old(log) && received == old(received)
      ensures Count() == Left(n, old(Count()))
      ensures Count() == if n <= 0 || rows.Length == 1 || old(Count()) == 0 then old(Count())
                         else if n >= old(Count()) then 1 else old(Count()) - n
      ensures old(Cursor()) == Aborted ==> Cursor() == Aborted
      ensures old(Cursor()) != Aborted && rows.Length > 1 ==>
                (Cursor() == Aborted <==> old(Next()) <= received && old(Next()) <= received - Count() + 1)
      ensures Cursor() != Aborted ==> Next() == old(Next())
      ensures store.own == old(store.own)
    {
      ghost var r := View();
      if n > 0 && Buffering() {
        var c := Count();
        ClearRows(if n >= c then c - 1 else n);
      }
      ghost var t := View();
      assert t.received == r.received && t.head == r.head && (t == r || 0 < t.Count() <= r.Count());
      ClearedCursor(r, t, current);
    }

    /** The same where there is room, with the number of rows afterwards. */
    method AddCounted(d: nat) returns (i: nat)
      requires Ready(View(), store, log) && d in store.own && !IsFull()
      modifies this, rows
      ensures Valid() && received == old(received) + 1
      ensures log == old(log) + [Arrived(d, old(store.blocks[store.own[d]]))]
      ensures i == current == old(head) == SlotOf(View(), received) && Increment(current, rows.Length) == head
      ensures store.own == old(store.own)
      ensures Count() == if rows.Length == 1 then 1 else old(Count()) + 1
    {
      AddedCount(View(), Slot(Some(d), None, received + 1));
      i := AddRow(d);
    }

    /** Saves the newest row, reads one more from the server and adds it. */
    method FetchRow(a: Arrived) returns (i: nat)
      requires Valid() && !IsFull() && a.resinfo in store.own
      modifies this, rows
      ensures Valid() && log == old(log) + [a] && received == old(received) + 1
      ensures i == current == SlotOf(View(), received)
      ensures Increment(current, rows.Length) == head
      ensures Count() == if rows.Length == 1 then 1 else old(Count()) + 1
      ensures store.own.Keys == old(store.own.Keys)
    {
      SaveRow();
      ReadReady(View(), store, log, a);
      store := store.ReadInto(a.resinfo, a.data);
      i := AddCounted(a.resinfo);
    }

    /** Hands out the newest row, which is current. */
    method GiveNewest(i: nat) returns (f: Fetched)
      requires Valid() && i == current == SlotOf(View(), received) && Increment(current, rows.Length) == head
      modifies this`current
      ensures Valid() && View() == old(View()) && 0 < received <= |log| && f == Row(received, log[received - 1].data)
      ensures Cursor() == NoRow && Next() == received + 1
    {
      AtHead(View());
      var number, data := Transfer(i, received);
      f := Row(number, data);
    }

    lemma ReceivedAll()
      requires Valid()
      ensures received == |log|
    {
    }

    /** Fetches a row from the server and hands it out. */
    method HandOut(a: Arrived) returns (f: Fetched)
      requires Valid() && !IsFull() && a.resinfo in store.own
      modifies this, rows
      ensures Valid() && log == old(log) + [a] && f == Row(|log|, a.data)
      ensures Count() == if rows.Length == 1 then 1 else old(Count()) + 1
      ensures Cursor() == NoRow && Next() == |log| + 1
      ensures store.own.Keys == old(store.own.Keys)
    {
      var i := FetchRow(a);
      f := GiveNewest(i);
      ReceivedAll();
    }

    /** Delivers the row at the cursor. */
    method Buffered(i: nat) returns (f: Fetched)
      requires Valid() && Cursor() == Index(i)
      modifies this`current
      ensures Valid() && Cursor() != Aborted && View() == old(View())
      ensures 0 < old(Next()) <= received
      ensures f == Row(old(Next()), log[old(Next()) - 1].data) && Next() == old(Next()) + 1
    {
      ghost var row := Next();
      CursorSlot(View(), current);
      StepFrom(View(), row);
      var number, data := Transfer(i, row);
      f := Row(number, data);
    }

    /** One more buffered row for a client that has `out` already. */
    method ReplayOne(out: seq<Data>, ghost from: nat) returns (more: seq<Data>)
      requires Valid() && Cursor().Index? && Delivered(out, log, from) && Next() == from + |out| + 1
      modifies this`current
      ensures Valid() && Cursor() != Aborted && View() == old(View())
      ensures Delivered(more, log, from) && |more| == |out| + 1 && Next() == from + |more| + 1 <= received + 1
    {
      var f := Buffered(Cursor().i);
      more := out + [f.data];
    }

    /** A jump back to a buffered row, and then all the rows after it. */
    method Replay(row: int) returns (out: seq<Data>)
      requires Valid() && rows.Length > 1 && received - Count() < row <= received
      modifies this`current
      ensures Valid() && View() == old(View()) && Cursor() == NoRow
      ensures 0 < row && |out| == received - row + 1
      ensures Delivered(out, log, row - 1)
    {
      var f := GetRow(row);
      out := [f.data];
      while Cursor().Index?
        invariant Valid() && Cursor() != Aborted && 0 < row
        invariant View() == old(View()) && Next() == row + |out| <= received + 1
        invariant Delivered(out, log, row - 1)
        decreases received + 1 - row - |out|
      {
        out := ReplayOne(out, row - 1);
      }
    }

    // -------------------------------------------- the buffer as a client sees it

    ghost predicate Holds(h: Held)
      reads this, rows
    {
      // (the quantifier keeps the verifier from taking the predicate apart where it is only passed on)
      forall g | Same(h, g) ::
        && Valid() && rows.Length == g.capacity && log == g.log && Count() == g.count
        && store.own.Keys == g.descriptors
        && g.cursor == (if Cursor() == Aborted then Lost else At(Next()))
    }

    /** Looks at the cursor and at the room, without changing anything. */
    method Look(ghost h: Held) returns (c: Current, full: bool)
      requires Holds(h) == true
      ensures full == h.Full() && (c == Aborted <==> h.cursor == Lost)
      ensures h.cursor.At? ==> (c.Index? <==> h.cursor.next <= |h.log|)
    {
      assert Same(h, h);
      c, full := Cursor(), IsFull();
    }

    /** The row at the cursor. */
    method NextBuffered(ghost h: Held) returns (f: Fetched)
      requires Holds(h) == true && h.cursor.At? && h.cursor.next <= |h.log|
      modifies this`current
      ensures 0 < h.cursor.next && f == Row(h.cursor.next, h.log[h.cursor.next - 1].data)
      ensures Holds(h.(cursor := At(h.cursor.next + 1))) == true
    {
      assert Same(h, h);
      f := Buffered(Cursor().i);
    }

    /** No row from the server: what was read last is saved all the same. */
    method NextNone(ghost h: Held)
      requires Holds(h) == true
      modifies this, rows
      ensures Holds(h) == true
    {
      assert Same(h, h);
      ghost var r := View();
      SaveRow();
      ghost var t := View();
      SameCursor(r, t, current);
      assert Cursor() == CurrentIndex(t, current) && Next() == NextNumber(t, current) && Count() == t.Count();
    }

    /** A row from the server, into a buffer that has room. */
    method NextFetched(a: Arrived, ghost h: Held) returns (f: Fetched)
      requires Holds(h) == true && !h.Full() && a.resinfo in h.descriptors
      modifies this, rows
      ensures f == Row(|h.log| + 1, a.data) && Holds(h.Grown(a)) == true
    {
      assert Same(h, h);
      f := HandOut(a);
    }

    /** A buffered row by its number. */
    method GetHeld(row: int, ghost h: Held) returns (f: Fetched)
      requires Holds(h) == true
      modifies this`current
      ensures h.Has(row) ==> 0 < row <= |h.log| && f == Row(row, h.log[row - 1].data)
      ensures h.Has(row) ==> Holds(h.(cursor := At(row + 1))) == true
      ensures !h.Has(row) ==> f == NoMoreRows && Holds(h) == true
    {
      assert Same(h, h);
      f := GetRow(row);
    }

    /** A buffered row made current. */
    method SetHeld(row: int, ghost h: Held) returns (found: bool)
      requires Holds(h) == true
      modifies this`current
      ensures found <==> h.Has(row)
      ensures Holds(if h.Has(row) then h.Jumped(row) else h) == true
    {
      assert Same(h, h);
      found := SetRow(row);
    }

    /** Some of the oldest rows cleared. */
    method ClearHeld(n: int, ghost h: Held)
      requires Holds(h) == true
      modifies this, rows
      ensures Holds(h.Cleared(n)) == true
    {
      assert Same(h, h);
      ClrBuf(n);
    }
  }

  lemma HoldsMeans(b: RowBuffer, h: Held)
    requires b.Holds(h) == true
    ensures h.capacity >= 1 && 0 <= h.count <= |h.log| && h.count <= h.capacity
    ensures h.cursor.At? ==> |h.log| - h.count + 1 < h.cursor.next <= |h.log| + 1 || h.cursor.next == |h.log| + 1
  {
    assert Same(h, h);
    if b.Cursor().Index? { CursorSlot(b.View(), b.current); }
  }
}
