/**
 A connection's row buffer as its client uses it.  Once the server has no more rows the
 result is closed, and from then on the next-row call answers that there are no more rows
 without looking at the buffer; buffered rows can still be fetched by number.

 Every sequence of calls is a run of a small machine, about which the laws are stated.
 */
module RowClient {
  import opened RowRing
  import opened RowStore
  import opened RowBuffer

  // ------------------------------------------------------------- the machine

  datatype Call = NextRow(server: Option<Arrived>) | GetRow(row: int) | SetRow(row: int) | ClrBuf(n: int)

  /** What a call answers; `Abort` is a failed assertion of the program. */
  datatype Answer = Fetch(f: Fetched) | Found(yes: bool) | Done | Abort

  datatype Client = Client(held: Held, open: bool)
  {
    ghost predicate Valid() {
      && held.capacity >= 1 && 0 <= held.count <= |held.log| && held.count <= held.capacity
      && (held.cursor.At? ==> |held.log| - held.count + 1 < held.cursor.next <= |held.log| + 1 || held.cursor.next == |held.log| + 1)
    }

    /** The client has read all rows that have arrived, and more may come. */
    predicate ReadOn() {
      open && held.cursor == At(|held.log| + 1)
    }

    /** The next row, for a cursor that may be used. */
    function Next(server: Option<Arrived>): (Client, Fetched)
      requires held.cursor.At?
    {
      var next := held.cursor.next;
      if 0 < next <= |held.log| then (this.(held := held.(cursor := At(next + 1))), Row(next, held.log[next - 1].data))
      else if held.Full() then (this, BufFull)
      else if server == None then (this.(open := false), NoMoreRows)
      else (this.(held := held.Grown(server.value)), Row(|held.log| + 1, server.value.data))
    }

    function Step(call: Call): (Client, Answer) {
      match call
      case NextRow(server) =>
        if !open then (this, Fetch(NoMoreRows))
        else if held.cursor == Lost then (this, Abort)
        else
          var (c, f) := Next(server);
          (c, Fetch(f))
      case GetRow(row) =>
        if held.Has(row) && 0 < row then
          (this.(held := held.(cursor := At(row + 1))), Fetch(Row(row, held.log[row - 1].data)))
        else (this, Fetch(NoMoreRows))
      case SetRow(row) =>
        (this.(held := if held.Has(row) then held.Jumped(row) else held), Found(held.Has(row)))
      case ClrBuf(n) => (this.(held := held.Cleared(n)), Done)
    }
  }

  /** The answers to a sequence of calls; an abort is the last one. */
  function Answers(c: Client, calls: seq<Call>): seq<Answer>
    decreases |calls|
  {
    if calls == [] then []
    else
      var (c1, a) := c.Step(calls[0]);
      [a] + (if a == Abort then [] else Answers(c1, calls[1..]))
  }

  /** The machine after a sequence of calls. */
  function After(c: Client, calls: seq<Call>): Client
    decreases |calls|
  {
    if calls == [] then c
    else
      var (c1, a) := c.Step(calls[0]);
      if a == Abort then c1 else After(c1, calls[1..])
  }

  // ------------------------------------------------------------ laws of runs

  lemma StepValid(c: Client, call: Call)
    requires c.Valid()
    ensures var c1 := c.Step(call).0;
            c1.Valid() && c1.held.capacity == c.held.capacity && c.held.log <= c1.held.log
  {
  }

  /** The rows among the answers arrived, under their numbers and with their data. */
  ghost predicate Genuine(answers: seq<Answer>, log: seq<Arrived>) {
    forall a | a in answers && a.Fetch? && a.f.Row? :: 0 < a.f.number <= |log| && a.f.data == log[a.f.number - 1].data
  }

  lemma StepGenuine(c: Client, call: Call, log: seq<Arrived>)
    requires c.Valid() && c.Step(call).0.held.log <= log
    ensures Genuine([c.Step(call).1], log)
  {
  }

  lemma GenuineMore(a: Answer, answers: seq<Answer>, log: seq<Arrived>)
    requires Genuine([a], log) && Genuine(answers, log)
    ensures Genuine([a] + answers, log)
  {
    assert a in [a];
  }

  /** Every row that a client ever gets is one that arrived, under its number and with its data. */
  lemma {:induction false} RowsAreArrivals(c: Client, calls: seq<Call>)
    requires c.Valid()
    ensures After(c, calls).Valid() && c.held.log <= After(c, calls).held.log
    ensures Genuine(Answers(c, calls), After(c, calls).held.log)
    decreases |calls|
  {
    if calls == [] {
      assert Answers(c, calls) == [];
    } else {
      var (c1, a) := c.Step(calls[0]);
      var log := After(c, calls).held.log;
      StepValid(c, calls[0]);
      if a != Abort {
        RowsAreArrivals(c1, calls[1..]);
        StepGenuine(c, calls[0], log);
        GenuineMore(a, Answers(c1, calls[1..]), log);
      }
    }
  }

  /** A client that neither makes rows current nor clears any never fails an assertion. */
  lemma {:induction false} ReadersNeverAbort(c: Client, calls: seq<Call>)
    requires c.Valid() && c.held.cursor.At?
    requires forall i | 0 <= i < |calls| :: calls[i].NextRow? || calls[i].GetRow?
    ensures Abort !in Answers(c, calls) && |Answers(c, calls)| == |calls|
    decreases |calls|
  {
    if calls == [] {
      assert Answers(c, calls) == [];
    } else {
      StepValid(c, calls[0]);
      ReadersNeverAbort(c.Step(calls[0]).0, calls[1..]);
    }
  }

  /** The call that fails is a next-row call on an open result after one of two others. */
  lemma LostBy(c: Client, call: Call)
    requires c.Valid() && c.held.cursor.At?
    ensures c.Step(call).1 != Abort
    ensures c.Step(call).0.held.cursor == Lost <==>
              match call
              case SetRow(row) => c.held.capacity > 1 && row == |c.held.log| - c.held.count + 1 <= |c.held.log| && !c.held.Full()
              case ClrBuf(n) =>
                && c.held.capacity > 1 && c.held.cursor.next <= |c.held.log| && n > 0
                && c.held.cursor.next <= (if n >= c.held.count then |c.held.log| else |c.held.log| - c.held.count + n + 1)
              case _ => false
  {
  }

  /**
   The rows that are left after clearing `n`: of the rows held, those numbered above the `n`
   oldest, and the newest one in any case; all of them without buffering or if `n` is not
   positive.  Arrivals and the result's state stay.
   */
  lemma KeptRows(c: Client, n: int, row: int)
    requires c.Valid()
    ensures var (c1, a) := c.Step(Call.ClrBuf(n));
            && a == Done && c1.open == c.open && c1.held.log == c.held.log && c1.held.capacity == c.held.capacity
            && (c1.held.Has(row) <==>
                  && |c.held.log| - c.held.count < row <= |c.held.log|
                  && (c.held.capacity == 1 || n <= 0 || row > |c.held.log| - c.held.count + n || row == |c.held.log|))
  {
  }

  /** Rows are found by number exactly if they are among the last `count` that arrived. */
  lemma OnlyBuffered(c: Client, row: int)
    requires c.Valid()
    ensures var there := |c.held.log| - c.held.count < row <= |c.held.log|;
            && c.Step(Call.SetRow(row)).1 == Found(there)
            && (if there then c.Step(Call.GetRow(row)).1 == Fetch(Row(row, c.held.log[row - 1].data))
                else c.Step(Call.GetRow(row)) == (c, Fetch(NoMoreRows)) && c.Step(Call.SetRow(row)).0 == c)
  {
  }

  /**
   A client that has had all rows: a full buffer is reported as such, and no row is taken
   from the server; otherwise the server's next row is numbered, buffered and handed out,
   with one row more buffered, or in place of the old one without buffering.
   */
  lemma AtTheEnd(c: Client, server: Option<Arrived>)
    requires c.Valid() && c.ReadOn()
    ensures var (c1, a) := c.Step(Call.NextRow(server));
            if c.held.capacity > 1 && c.held.count == c.held.capacity then c1 == c && a == Fetch(BufFull)
            else match server
              case None => c1 == c.(open := false) && a == Fetch(NoMoreRows)
              case Some(r) =>
                && c1.open && c1.held.log == c.held.log + [r] && a == Fetch(Row(|c.held.log| + 1, r.data))
                && c1.held.count == (if c.held.capacity == 1 then 1 else c.held.count + 1)
  {
  }

  lemma OneAnswer(c: Client, call: Call)
    ensures Answers(c, [call]) == [c.Step(call).1]
  {
    assert [call][1..] == [];
  }

  /** A buffered row made current comes next; the oldest one does not. */
  lemma JumpedTo(c: Client, row: int, server: Option<Arrived>)
    requires c.Valid() && c.open && c.held.capacity > 1 && c.held.Has(row)
    ensures var oldest := row == |c.held.log| - c.held.count + 1;
            Answers(c, [Call.SetRow(row), Call.NextRow(server)])
            == [Found(true),
                if !oldest then Fetch(Row(row, c.held.log[row - 1].data))
                else if c.held.count == c.held.capacity then Fetch(BufFull) else Abort]
  {
    var calls := [Call.SetRow(row), Call.NextRow(server)];
    var c1 := c.Step(calls[0]).0;
    assert calls[1..] == [Call.NextRow(server)];
    OneAnswer(c1, Call.NextRow(server));
  }

  /** The next-row call, `n` times. */
  function Nexts(n: nat): seq<Call> {
    if n == 0 then [] else [Call.NextRow(None)] + Nexts(n - 1)
  }

  /** The rows from number `k` on, `n` of them. */
  function RowsFrom(log: seq<Arrived>, k: int, n: nat): seq<Answer>
    requires n > 0 ==> 0 < k && k + n - 1 <= |log|
    decreases n
  {
    if n == 0 then [] else [Fetch(Row(k, log[k - 1].data))] + RowsFrom(log, k + 1, n - 1)
  }

  function NoneLeft(n: nat): seq<Answer> {
    if n == 0 then [] else [Fetch(NoMoreRows)] + NoneLeft(n - 1)
  }

  lemma NextsTail(n: nat)
    requires n > 0
    ensures Nexts(n)[0] == Call.NextRow(None) && Nexts(n)[1..] == Nexts(n - 1)
  {
  }

  lemma {:induction false} OpenNexts(c: Client, n: nat)
    requires c.open && c.held.cursor.At? && 0 < c.held.cursor.next && c.held.cursor.next + n - 1 <= |c.held.log|
    ensures Answers(c, Nexts(n)) == RowsFrom(c.held.log, c.held.cursor.next, n)
    decreases n
  {
    if n == 0 {
      assert Nexts(n) == [];
    } else {
      NextsTail(n);
      OpenNexts(c.Step(Call.NextRow(None)).0, n - 1);
    }
  }

  lemma {:induction false} ClosedNexts(c: Client, n: nat)
    requires !c.open
    ensures Answers(c, Nexts(n)) == NoneLeft(n)
  {
    if n == 0 {
      assert Nexts(n) == [];
    } else {
      NextsTail(n);
      ClosedNexts(c, n - 1);
    }
  }

  /**
   A client that goes back to a buffered row and then asks for the next row as often as
   there are rows behind it gets all of them while the result is open, and none of them
   once it is closed.
   */
  lemma Replayed(c: Client, row: int)
    requires c.Valid() && c.held.Has(row)
    ensures var n := |c.held.log| - row;
            Answers(c, [Call.GetRow(row)] + Nexts(n))
            == [Fetch(Row(row, c.held.log[row - 1].data))]
               + if c.open then RowsFrom(c.held.log, row + 1, n) else NoneLeft(n)
  {
    var n := |c.held.log| - row;
    var c1 := c.Step(Call.GetRow(row)).0;
    assert ([Call.GetRow(row)] + Nexts(n))[1..] == Nexts(n);
    if c.open { OpenNexts(c1, n); } else { ClosedNexts(c1, n); }
  }

  lemma EmptyQueue(r: Ring)
    requires r.Shape() && r.Queue() == []
    ensures r.Count() == 0
  {
  }

  // ------------------------------------------------------------- the program

  /** Rows from the server belong to descriptors of the result. */
  predicate Provided(call: Call, descriptors: set<nat>) {
    call.NextRow? && call.server.Some? ==> call.server.value.resinfo in descriptors
  }

  /** One more answer of a run. */
  lemma NextAnswer(answers: seq<Answer>, c: Client, rest: seq<Call>)
    requires rest != []
    ensures var (c1, a) := c.Step(rest[0]);
            && answers + Answers(c, rest) == (answers + [a]) + (if a == Abort then [] else Answers(c1, rest[1..]))
            && After(c, rest) == (if a == Abort then c1 else After(c1, rest[1..]))
            && c1.held.descriptors == c.held.descriptors
  {
  }

  /** Clearing when the buffer is full makes room and changes nothing else for such a client. */
  lemma SpaceMade(c: Client, clear: nat)
    requires c.ReadOn() && c.held.Full() && clear >= 1
    ensures var c1 := c.Step(Call.ClrBuf(clear)).0;
            && c1.ReadOn() && !c1.held.Full()
            && c1.held.log == c.held.log && c1.held.descriptors == c.held.descriptors
  {
  }

  /** And then the next row is the one that arrives, or the end. */
  lemma ReadsOn(c: Client, server: Option<Arrived>)
    requires c.ReadOn() && !c.held.Full()
    ensures var (c1, a) := c.Step(Call.NextRow(server));
            && c1.held.descriptors == c.held.descriptors
            && match server
               case None => a == Fetch(NoMoreRows) && !c1.open && c1.held.log == c.held.log
               case Some(r) =>
                 && a.Fetch? && a.f.Row? && a.f.data == r.data
                 && c1.ReadOn() && c1.held.log == c.held.log + [r]
  {
  }

  class Process {
    const buf: RowBuffer

    /** Whether rows of the current result may still come. */
    var open: bool

    /** The process is in the given state of the machine. */
    ghost predicate Is(c: Client)
      reads this, buf, buf.rows
    {
      // (comparing with true keeps the verifier from taking the predicate apart)
      buf.Holds(c.held) == true && open == c.open
    }

    /** A result that has rows begins. */
    constructor (capacity: nat, store: Store)
      requires capacity >= 1 && store.Valid() && store.refs == multiset{}
      ensures fresh(buf) && fresh(buf.rows)
      ensures Is(Client(Held(capacity, [], 0, At(1), store.own.Keys), true))
    {
      var b := new RowBuffer(capacity, store);
      EmptyQueue(b.View());
      buf, open := b, true;
    }

    /** No more rows from the server: the result is closed. */
    method Close(ghost c: Client)
      requires Is(c)
      modifies this, buf, buf.rows
      ensures Is(c.(open := false))
    {
      buf.NextNone(c.held);
      open := false;
    }

    /** The buffered row at the cursor. */
    method NextBuffered(ghost c: Client, ghost server: Option<Arrived>) returns (f: Fetched)
      requires Is(c) && c.held.cursor.At? && c.held.cursor.next <= |c.held.log|
      modifies buf
      ensures Is(c.Next(server).0) && f == c.Next(server).1
    {
      f := buf.NextBuffered(c.held);
      assert c.Next(server).0 == c.(held := c.held.(cursor := At(c.held.cursor.next + 1)));
    }

    /** A row from the server. */
    method NextFetched(a: Arrived, ghost c: Client) returns (f: Fetched)
      requires Is(c) && c.held.cursor.At? && c.held.cursor.next > |c.held.log| && !c.held.Full() && a.resinfo in c.held.descriptors
      modifies buf, buf.rows
      ensures Is(c.Next(Some(a)).0) && f == c.Next(Some(a)).1
    {
      f := buf.NextFetched(a, c.held);
      assert c.Next(Some(a)).0 == c.(held := c.held.Grown(a));
    }

    /** The next row by a cursor that may be used: buffered, or from the server unless the buffer is full. */
    method NextUsable(server: Option<Arrived>, ghost c: Client) returns (f: Fetched)
      requires Is(c) && open && c.held.cursor.At? && Provided(Call.NextRow(server), c.held.descriptors)
      modifies this, buf, buf.rows
      ensures Is(c.Next(server).0) && f == c.Next(server).1
    {
      var cursor, full := buf.Look(c.held);
      if cursor.Index? {
        f := NextBuffered(c, server);
      } else if full {
        f := BufFull;
      } else if server == None {
        Close(c);
        f := NoMoreRows;
      } else {
        f := NextFetched(server.value, c);
      }
    }

    /** The next row of the result; nothing at all happens once the result is closed. */
    method NextRow(server: Option<Arrived>, ghost c: Client) returns (a: Answer)
      requires Is(c) && Provided(Call.NextRow(server), c.held.descriptors)
      modifies this, buf, buf.rows
      ensures Is(c.Step(Call.NextRow(server)).0) && a == c.Step(Call.NextRow(server)).1
    {
      if !open {
        return Fetch(NoMoreRows);
      }
      var cursor, full := buf.Look(c.held);
      if cursor == Aborted {
        return Abort;
      }
      var f := NextUsable(server, c);
      a := Fetch(f);
    }

    /** A row by its number. */
    method GetRow(row: int, ghost c: Client) returns (a: Answer)
      requires Is(c)
      modifies buf
      ensures Is(c.Step(Call.GetRow(row)).0) && a == c.Step(Call.GetRow(row)).1
    {
      HoldsMeans(buf, c.held);
      var f := buf.GetHeld(row, c.held);
      a := Fetch(f);
    }

    /** A row made current by its number. */
    method SetRow(row: int, ghost c: Client) returns (a: Answer)
      requires Is(c)
      modifies buf
      ensures Is(c.Step(Call.SetRow(row)).0) && a == c.Step(Call.SetRow(row)).1
    {
      var found := buf.SetHeld(row, c.held);
      a := Found(found);
    }

    /** Rows cleared. */
    method ClrBuf(n: int, ghost c: Client) returns (a: Answer)
      requires Is(c)
      modifies buf, buf.rows
      ensures Is(c.Step(Call.ClrBuf(n)).0) && a == c.Step(Call.ClrBuf(n)).1
    {
      buf.ClearHeld(n, c.held);
      a := Done;
    }

    /** Any of the calls. */
    method Do(call: Call, ghost c: Client) returns (a: Answer)
      requires Is(c) && Provided(call, c.held.descriptors)
      modifies this, buf, buf.rows
      ensures Is(c.Step(call).0) && a == c.Step(call).1
    {
      match call
      case NextRow(server) => a := NextRow(server, c);
      case GetRow(row) => a := GetRow(row, c);
      case SetRow(row) => a := SetRow(row, c);
      case ClrBuf(n) => a := ClrBuf(n, c);
    }

    /** Any sequence of calls: the answers are those of the machine. */
    method Run(calls: seq<Call>, ghost c: Client) returns (answers: seq<Answer>)
      requires Is(c) && forall i | 0 <= i < |calls| :: Provided(calls[i], c.held.descriptors)
      modifies this, buf, buf.rows
      ensures Is(After(c, calls)) && answers == Answers(c, calls)
    {
      answers := [];
      ghost var now := c;
      var rest := calls;
      while rest != []
        invariant Is(now) && forall i | 0 <= i < |rest| :: Provided(rest[i], now.held.descriptors)
        invariant answers + Answers(now, rest) == Answers(c, calls) && After(now, rest) == After(c, calls)
        decreases |rest|
      {
        var a := Do(rest[0], now);
        NextAnswer(answers, now, rest);
        now := now.Step(rest[0]).0;
        answers := answers + [a];
        if a == Abort {
          return;
        }
        rest := rest[1..];
      }
    }

    /** Room for another row, after clearing some if the buffer was full. */
    method MakeSpace(clear: nat, ghost c: Client) returns (ghost c1: Client)
      requires Is(c) && c.ReadOn() && clear >= 1
      modifies this, buf, buf.rows
      ensures Is(c1) && c1.ReadOn() && !c1.held.Full()
      ensures c1.held.log == c.held.log && c1.held.descriptors == c.held.descriptors
    {
      c1 := c;
      var cursor, full := buf.Look(c.held);
      if full {
        SpaceMade(c, clear);
        c1 := c.Step(Call.ClrBuf(clear)).0;
        var answer := ClrBuf(clear, c);
      }
    }

    /** One row for a client that reads straight on, clearing rows when the buffer is full. */
    method ReadOn(a: Arrived, clear: nat, ghost c: Client) returns (data: Data, ghost c1: Client)
      requires Is(c) && c.ReadOn() && clear >= 1 && a.resinfo in c.held.descriptors
      modifies this, buf, buf.rows
      ensures Is(c1) && c1.ReadOn() && c1.held.descriptors == c.held.descriptors
      ensures data == a.data && c1.held.log == c.held.log + [a]
    {
      ghost var c0 := MakeSpace(clear, c);
      ReadsOn(c0, Some(a));
      c1 := c0.Step(Call.NextRow(Some(a))).0;
      var answer := NextRow(Some(a), c0);
      data := answer.f.data;
    }

    /** The end of the result for such a client. */
    method ReadEnd(clear: nat, ghost c: Client) returns (f: Fetched, ghost c1: Client)
      requires Is(c) && c.ReadOn() && clear >= 1
      modifies this, buf, buf.rows
      ensures Is(c1) && !c1.open && f == NoMoreRows && c1.held.log == c.held.log
    {
      ghost var c0 := MakeSpace(clear, c);
      ReadsOn(c0, None);
      c1 := c0.Step(Call.NextRow(None)).0;
      var answer := NextRow(None, c0);
      f := answer.f;
    }
  }

  /** The machine's states that the program can be in are valid ones. */
  lemma StateValid(p: Process, c: Client)
    requires p.Is(c)
    ensures c.Valid()
  {
    HoldsMeans(p.buf, c.held);
  }

  /**
   A client that reads a whole result, clearing `clear` rows whenever the buffer is full,
   gets every row once, in order, with the data that the server sent, and then the end.
   */
  method ReadAll(capacity: nat, store: Store, arrivals: seq<Arrived>, clear: nat) returns (out: seq<Data>, end: Fetched)
    requires capacity >= 1 && clear >= 1 && store.Valid() && store.refs == multiset{}
    requires forall a | a in arrivals :: a.resinfo in store.own
    ensures |out| == |arrivals| && Delivered(out, arrivals, 0) && end == NoMoreRows
  {
    var p := new Process(capacity, store);
    ghost var c := Client(Held(capacity, [], 0, At(1), store.own.Keys), true);
    out := [];
    for i := 0 to |arrivals|
      invariant p.Is(c) && c.ReadOn() && c.held.descriptors == store.own.Keys
      invariant fresh(p) && fresh(p.buf) && fresh(p.buf.rows)
      invariant |out| == i && Delivered(out, arrivals, 0)
    {
      assert arrivals[i] in arrivals;
      var data;
      data, c := p.ReadOn(arrivals[i], clear, c);
      DeliveredMore(out, arrivals, 0, data);
      out := out + [data];
    }
    end, c := p.ReadEnd(clear, c);
  }
}
