/**
 Who owns the data of buffered rows.  A result descriptor has one block of its own
 into which the next row from the server is read.  Saving a row hands that block to
 the row's slot and gives the descriptor a new one.
 */
module RowStore {
  import opened Bytes
  import opened RowRing

  type Data = seq<Byte>

  /** A row as the server sent it. */
  datatype Arrived = Arrived(resinfo: nat, data: Data)

  /**
   The descriptors' own blocks, the contents of all allocated blocks, the references that
   the buffer holds on descriptors, and the number of the next block to be allocated.
   */
  datatype Store = Store(own: map<nat, nat>, blocks: map<nat, Data>, refs: multiset<nat>, next: nat)
  {
    ghost predicate Valid() {
      && (forall d | d in own :: own[d] in blocks)
      && (forall d, e | d in own && e in own && own[d] == own[e] :: d == e)
      && (forall b | b in blocks :: b < next)
    }

    /** The server's next row is read into the descriptor's own block. */
    function ReadInto(d: nat, data: Data): Store
      requires d in own
    {
      this.(blocks := blocks[own[d] := data])
    }

    /** The descriptor gets a new block; its old one now belongs to a slot. */
    function Reallocated(d: nat): Store {
      Store(own[d := next], blocks[next := []], refs, next + 1)
    }

    function AddRef(d: nat): Store {
      this.(refs := refs + multiset{d})
    }

    /** A slot is given up: its block is freed, and its reference. */
    function Freed(s: Slot): Store {
      Store(own,
            if s.block.Some? then blocks - {s.block.value} else blocks,
            if s.resinfo.Some? then refs - multiset{s.resinfo.value} else refs,
            next)
    }

    /** The data of a buffered row. */
    function DataOf(s: Slot): Data
      requires s.resinfo.Some? && s.resinfo.value in own
      requires (if s.block.Some? then s.block.value else own[s.resinfo.value]) in blocks
    {
      blocks[if s.block.Some? then s.block.value else own[s.resinfo.value]]
    }
  }

  /** A saved row owns its block: no descriptor uses it. */
  ghost predicate Saved(st: Store, s: Slot) {
    s.block.Some? && s.block.value in st.blocks && forall d | d in st.own :: st.own[d] != s.block.value
  }

  ghost predicate Known(st: Store, s: Slot) {
    s.resinfo.Some? && s.resinfo.value in st.own
  }

  ghost predicate RowOk(st: Store, s: Slot) {
    Known(st, s) && (s.block.Some? ==> Saved(st, s))
  }

  ghost function Descriptors(q: seq<Slot>): seq<nat> {
    seq(|q|, i requires 0 <= i < |q| => if q[i].resinfo.Some? then q[i].resinfo.value else 0)
  }

  /** Only the newest row may still lie in its descriptor's block; the others own distinct blocks. */
  ghost predicate Owned(st: Store, q: seq<Slot>) {
    && st.Valid()
    && (forall j | 0 <= j < |q| :: RowOk(st, q[j]))
    && (forall j | 0 <= j < |q| - 1 :: q[j].block.Some?)
    && (forall i, j | 0 <= i < j < |q| && q[j].block.Some? :: q[i].block != q[j].block)
    && st.refs == multiset(Descriptors(q))
  }

  ghost predicate AllSaved(q: seq<Slot>) {
    forall j | 0 <= j < |q| :: q[j].block.Some?
  }

  /** Every buffered row still has the descriptor and the data with which it arrived. */
  ghost predicate Faithful(st: Store, q: seq<Slot>, log: seq<Arrived>)
    requires Owned(st, q)
  {
    forall j | 0 <= j < |q| ::
      && 0 < q[j].row <= |log|
      && q[j].resinfo.value == log[q[j].row - 1].resinfo
      && st.DataOf(q[j]) == log[q[j].row - 1].data
  }

  // ---------------------------------------------------------------- steps

  lemma NewBlockKeepsRow(st: Store, d: nat, s: Slot)
    requires st.Valid() && d in st.own && RowOk(st, s) && s.block.Some?
    ensures var st1 := st.Reallocated(d);
            RowOk(st1, s) && st1.DataOf(s) == st.DataOf(s) && s.block != Some(st.own[d])
  {
  }

  lemma NewBlockSavesRow(st: Store, s: Slot)
    requires st.Valid() && RowOk(st, s) && s.block == None
    ensures var d := s.resinfo.value;
            var s1, st1 := s.(block := Some(st.own[d])), st.Reallocated(d);
            st1.Valid() && RowOk(st1, s1) && st1.DataOf(s1) == st.DataOf(s)
  {
  }

  /** Saving the newest row changes nobody's data, and then every row owns its block. */
  lemma SaveNewest(st: Store, q: seq<Slot>)
    requires Owned(st, q) && q != [] && q[|q| - 1].block == None
    ensures var n := |q| - 1;
            var d := q[n].resinfo.value;
            var q1 := q[n := q[n].(block := Some(st.own[d]))];
            var st1 := st.Reallocated(d);
            && Owned(st1, q1) && AllSaved(q1)
            && forall j | 0 <= j < |q| :: st1.DataOf(q1[j]) == st.DataOf(q[j])
  {
    var n := |q| - 1;
    var d := q[n].resinfo.value;
    var q1 := q[n := q[n].(block := Some(st.own[d]))];
    assert Descriptors(q1) == Descriptors(q);
    NewBlockSavesRow(st, q[n]);
    forall j | 0 <= j < n
      ensures RowOk(st.Reallocated(d), q1[j]) && st.Reallocated(d).DataOf(q1[j]) == st.DataOf(q[j])
      ensures q1[j].block != q1[n].block
    {
      NewBlockKeepsRow(st, d, q[j]);
    }
  }

  /** Reading the next row from the server disturbs no saved row. */
  lemma ReadNext(st: Store, q: seq<Slot>, d: nat, data: Data)
    requires Owned(st, q) && d in st.own
    ensures Owned(st.ReadInto(d, data), q)
    ensures forall j | 0 <= j < |q| && q[j].block.Some? :: st.ReadInto(d, data).DataOf(q[j]) == st.DataOf(q[j])
  {
    var st1 := st.ReadInto(d, data);
    assert st1.Valid();
    forall j | 0 <= j < |q|
      ensures RowOk(st1, q[j])
    {
      assert RowOk(st, q[j]);
    }
  }

  /** A row added behind saved rows lies in its descriptor's block. */
  lemma AddNewest(st: Store, q: seq<Slot>, d: nat, row: nat)
    requires Owned(st, q) && AllSaved(q) && d in st.own
    ensures var s := Slot(Some(d), None, row);
            var st1 := st.AddRef(d);
            && Owned(st1, q + [s])
            && st1.DataOf(s) == st.blocks[st.own[d]]
            && forall j | 0 <= j < |q| :: st1.DataOf(q[j]) == st.DataOf(q[j])
  {
    var s, st1 := Slot(Some(d), None, row), st.AddRef(d);
    var q1 := q + [s];
    assert Descriptors(q1) == Descriptors(q) + [d];
    assert st1.Valid();
    forall j | 0 <= j < |q1|
      ensures RowOk(st1, q1[j])
    {
      assert j < |q| ==> RowOk(st, q[j]);
    }
  }

  lemma FreedKeepsRow(st: Store, s: Slot, other: Slot)
    requires st.Valid() && RowOk(st, s) && RowOk(st, other)
    requires s.block.Some? && other.block.Some? ==> s.block != other.block
    ensures var st1 := st.Freed(s);
            st1.Valid() && RowOk(st1, other) && st1.DataOf(other) == st.DataOf(other)
  {
  }

  lemma FreedRefs(st: Store, q: seq<Slot>)
    requires q != [] && q[0].resinfo.Some? && st.refs == multiset(Descriptors(q))
    ensures st.Freed(q[0]).refs == multiset(Descriptors(q[1..]))
  {
    assert Descriptors(q) == [q[0].resinfo.value] + Descriptors(q[1..]);
  }

  /** Freeing the oldest row touches no other row. */
  lemma DropOldest(st: Store, q: seq<Slot>)
    requires Owned(st, q) && q != []
    ensures var st1 := st.Freed(q[0]);
            && Owned(st1, q[1..])
            && forall j | 1 <= j < |q| :: st1.DataOf(q[j]) == st.DataOf(q[j])
  {
    FreedRefs(st, q);
    assert st.Freed(q[0]).Valid();
    forall j | 1 <= j < |q|
      ensures RowOk(st.Freed(q[0]), q[j]) && st.Freed(q[0]).DataOf(q[j]) == st.DataOf(q[j])
    {
      FreedKeepsRow(st, q[0], q[j]);
    }
  }
}
