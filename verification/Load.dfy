/**
 The loading loop of the bulk copy: rows from a host file are skipped, rejected or
 offered to the server, and committed in batches.

 The server is open: it may refuse any row, and any commit may fail.  Which rows fail to
 convert is the parameter `bad`, by row number.  The error file is not modelled.
 */
module Load {
  import opened Bytes
  import opened TermScan
  import opened HostCodec
  import opened HostLaws
  import opened HostFileLaws
  import opened HostFile
  type Fields = seq<Value>

  /** The rows of `a` are among those of `b`, in the same order. */
  ghost predicate Subsequence(a: seq<Fields>, b: seq<Fields>)
    decreases |b|
  {
    if b == [] then a == []
    else
      var n, m := |b| - 1, |a| - 1;
      Subsequence(a, b[..n]) || (a != [] && a[m] == b[n] && Subsequence(a[..m], b[..n]))
  }

  lemma SubsequenceSnoc(a: seq<Fields>, b: seq<Fields>, row: Fields)
    requires Subsequence(a, b)
    ensures Subsequence(a, b + [row]) && Subsequence(a + [row], b + [row])
  {
    assert (b + [row])[..|b|] == b && (a + [row])[..|a|] == a;
  }

  /** The server's side of a bulk load. */
  class Server {
    /** Rows accepted since the last commit, and rows committed. */
    var outstanding: seq<Fields>
    var committed: seq<Fields>
    /** All rows offered, the most rows that were ever outstanding, and the sizes of the commits. */
    ghost var offered: seq<Fields>
    ghost var peak: nat
    ghost var commits: seq<nat>

    ghost predicate Valid()
      reads this
    {
      // (comparing with true keeps the verifier from taking the predicate apart)
      |outstanding| <= peak && Subsequence(committed + outstanding, offered) == true
    }

    constructor ()
      ensures Valid() && outstanding == [] && committed == [] && offered == [] && peak == 0 && commits == []
    {
      outstanding, committed, offered, peak, commits := [], [], [], 0, [];
    }

    method Send(row: Fields) returns (ok: bool)
      requires Valid()
      modifies this
      ensures Valid() && offered == old(offered) + [row] && committed == old(committed) && commits == old(commits)
      ensures outstanding == old(outstanding) + (if ok then [row] else [])
      ensures peak == if |outstanding| > old(peak) then |outstanding| else old(peak)
    {
      ok := *;
      SubsequenceSnoc(committed + outstanding, offered, row);
      assert committed + (outstanding + [row]) == committed + outstanding + [row];
      offered := offered + [row];
      if ok {
        outstanding := outstanding + [row];
        peak := if |outstanding| > peak then |outstanding| else peak;
      }
    }

    /** Commits, and reports how many rows; after a failure the rows stay in doubt. */
    method Done() returns (ok: bool, n: nat)
      requires Valid()
      modifies this
      ensures Valid() && offered == old(offered) && peak == old(peak)
      ensures ok ==> n == |old(outstanding)| && outstanding == [] && committed == old(committed) + old(outstanding)
      ensures !ok ==> outstanding == old(outstanding) && committed == old(committed) && commits == old(commits)
      ensures ok ==> commits == old(commits) + [|old(outstanding)|]
    {
      ok, n := *, 0;
      if ok {
        n := |outstanding|;
        assert (committed + outstanding) + [] == committed + outstanding;
        commits := commits + [|outstanding|];
        committed, outstanding := committed + outstanding, [];
      }
    }
  }

  /** Values below one are never stored in these fields. */
  type Positive = n: int | n >= 1 witness 1

  /** What the load is asked to do. */
  datatype Options = Options(firstrow: Positive, lastrow: int, maxerrs: Positive, batch: int)

  datatype Field = MaxErrs | First | Last | Batch

  /** The options at first. */
  const DEFAULTS := Options(1, 0, 10, 0)

  /** Setting one of the options; a value below one stands for the first one. */
  function Control(o: Options, field: Field, value: int): Options {
    match field
    case MaxErrs => o.(maxerrs := if value < 1 then DEFAULTS.maxerrs else value)
    case First => o.(firstrow := if value < 1 then DEFAULTS.firstrow else value)
    case Last => o.(lastrow := value)
    case Batch => o.(batch := value)
  }

  datatype Setting = Setting(field: Field, value: int)

  /** The options after a sequence of settings. */
  function Configured(settings: seq<Setting>): Options {
    if settings == [] then DEFAULTS
    else
      var last := settings[|settings| - 1];
      Control(Configured(settings[..|settings| - 1]), last.field, last.value)
  }

  /** The value of an option that was set last, or nothing. */
  function LastSet(settings: seq<Setting>, field: Field): seq<int> {
    if settings == [] then []
    else
      var last := settings[|settings| - 1];
      if last.field == field then [last.value] else LastSet(settings[..|settings| - 1], field)
  }

  /**
   After any settings each option has the value set last.  A limit on rejected rows below one
   stands for ten and a first row below one for the first; at first they are ten and one, and
   there is neither a last row nor a batch size.
   */
  lemma {:induction false} OptionsAre(settings: seq<Setting>)
    ensures var o := Configured(settings);
            var errs, first, last, batch :=
              LastSet(settings, MaxErrs), LastSet(settings, First), LastSet(settings, Last), LastSet(settings, Batch);
            && o.maxerrs == (if errs != [] && errs[0] >= 1 then errs[0] else 10)
            && o.firstrow == (if first != [] && first[0] >= 1 then first[0] else 1)
            && o.lastrow == (if last != [] then last[0] else 0)
            && o.batch == (if batch != [] then batch[0] else 0)
  {
    if settings == [] {
      assert Configured(settings) == DEFAULTS;
    } else {
      OptionsAre(settings[..|settings| - 1]);
    }
  }

  // -------------------------------------------------- accounting of the rows

  /** The rows offered to the server, of the rows read. */
  ghost function Offered(rows: seq<Fields>, firstrow: int, bad: nat -> bool): seq<Fields> {
    if rows == [] then []
    else
      var n := |rows|;
      Offered(rows[..n - 1], firstrow, bad) + (if firstrow > n || bad(n) then [] else [rows[n - 1]])
  }

  ghost function Rejected(n: nat, firstrow: int, bad: nat -> bool): nat {
    if n == 0 then 0
    else Rejected(n - 1, firstrow, bad) + (if firstrow <= n && bad(n) then 1 else 0)
  }

  /** The rows skipped because of `firstrow`, of `n` rows read. */
  function Skipped(n: nat, firstrow: int): nat {
    if firstrow - 1 <= 0 then 0 else if firstrow - 1 < n then firstrow - 1 else n
  }

  /** Every row read is skipped, rejected or offered. */
  lemma {:induction false} EveryRowAccounted(rows: seq<Fields>, firstrow: int, bad: nat -> bool)
    ensures |rows| == Skipped(|rows|, firstrow) + Rejected(|rows|, firstrow, bad) + |Offered(rows, firstrow, bad)|
  {
    if rows == [] {
      // base case
    } else {
      EveryRowAccounted(rows[..|rows| - 1], firstrow, bad);
    }
  }

  /** The numbers of the rows that are offered, of `n` rows. */
  ghost function OfferedNumbers(n: nat, firstrow: int, bad: nat -> bool): seq<nat> {
    if n == 0 then []
    else OfferedNumbers(n - 1, firstrow, bad) + (if firstrow > n || bad(n) then [] else [n])
  }

  /** Numbers from 1 to `n`, each greater than the one before. */
  ghost predicate Ascending(numbers: seq<nat>, n: nat) {
    && (forall i | 0 <= i < |numbers| :: 1 <= numbers[i] <= n)
    && forall i, j | 0 <= i < j < |numbers| :: numbers[i] < numbers[j]
  }

  lemma AscendingMore(numbers: seq<nat>, n: nat)
    requires n >= 1 && Ascending(numbers, n - 1)
    ensures Ascending(numbers, n) && Ascending(numbers + [n], n)
  {
  }

  lemma {:induction false} NumbersInOrder(n: nat, firstrow: int, bad: nat -> bool)
    ensures Ascending(OfferedNumbers(n, firstrow, bad), n)
  {
    if n == 0 {
      assert OfferedNumbers(n, firstrow, bad) == [];
    } else {
      NumbersInOrder(n - 1, firstrow, bad);
      AscendingMore(OfferedNumbers(n - 1, firstrow, bad), n);
    }
  }

  /** The numbers are those not below `firstrow` whose conversion did not fail. */
  lemma {:induction false} NumbersAre(n: nat, firstrow: int, bad: nat -> bool, k: nat)
    ensures k in OfferedNumbers(n, firstrow, bad) <==> 1 <= k <= n && firstrow <= k && !bad(k)
  {
    if n == 0 {
      // base case
    } else {
      NumbersAre(n - 1, firstrow, bad, k);
    }
  }

  /** The rows with the given numbers. */
  ghost predicate Picked(numbers: seq<nat>, rows: seq<Fields>, picked: seq<Fields>) {
    |numbers| == |picked| && forall i | 0 <= i < |numbers| :: 1 <= numbers[i] <= |rows| && picked[i] == rows[numbers[i] - 1]
  }

  lemma PickedMore(numbers: seq<nat>, rows: seq<Fields>, picked: seq<Fields>, row: Fields)
    requires Picked(numbers, rows, picked)
    ensures Picked(numbers, rows + [row], picked)
    ensures Picked(numbers + [|rows| + 1], rows + [row], picked + [row])
  {
  }

  /** The rows that are offered are those with these numbers, in order. */
  lemma {:induction false} OfferedAre(rows: seq<Fields>, firstrow: int, bad: nat -> bool)
    ensures Picked(OfferedNumbers(|rows|, firstrow, bad), rows, Offered(rows, firstrow, bad)) == true
  {
    if rows == [] {
      assert OfferedNumbers(|rows|, firstrow, bad) == [];
    } else {
      var m := |rows| - 1;
      OfferedAre(rows[..m], firstrow, bad);
      PickedMore(OfferedNumbers(m, firstrow, bad), rows[..m], Offered(rows[..m], firstrow, bad), rows[m]);
      assert rows == rows[..m] + [rows[m]];
    }
  }

  /** The numbers of the rows from `firstrow` on, of `n` rows, whose conversion failed. */
  ghost function BadRows(n: nat, firstrow: int, bad: nat -> bool): set<nat> {
    set k: nat | 1 <= k <= n && firstrow <= k && bad(k)
  }

  lemma BadRowsStep(n: nat, firstrow: int, bad: nat -> bool)
    requires n > 0
    ensures BadRows(n, firstrow, bad) == BadRows(n - 1, firstrow, bad) + (if firstrow <= n && bad(n) then {n} else {})
    ensures n !in BadRows(n - 1, firstrow, bad)
  {
  }

  lemma OneMore(s: set<nat>, n: nat)
    requires n !in s
    ensures |s + {n}| == |s| + 1 && |s + {}| == |s|
  {
    assert s + {} == s;
  }

  /** How many rows are rejected: those from `firstrow` on whose conversion failed. */
  lemma {:induction false} RejectedAre(n: nat, firstrow: int, bad: nat -> bool)
    ensures Rejected(n, firstrow, bad) == |BadRows(n, firstrow, bad)|
  {
    if n == 0 {
      assert BadRows(n, firstrow, bad) == {};
    } else {
      RejectedAre(n - 1, firstrow, bad);
      BadRowsStep(n, firstrow, bad);
      OneMore(BadRows(n - 1, firstrow, bad), n);
    }
  }

  lemma OfferedSnoc(rows: seq<Fields>, row: Fields, firstrow: int, bad: nat -> bool)
    ensures Offered(rows + [row], firstrow, bad)
         == Offered(rows, firstrow, bad) + (if firstrow > |rows| + 1 || bad(|rows| + 1) then [] else [row])
  {
    assert (rows + [row])[..|rows|] == rows;
  }

  /** Reading row after row from `s` gives `rows` and leaves `rest`. */
  ghost predicate Reads(f: Format, s: seq<Byte>, rows: seq<Fields>, rest: seq<Byte>)
    decreases |rows|
  {
    if rows == [] then s == rest
    else
      var r := ReadRow(f, s);
      r.MoreRows? && r.fields == rows[0] && Reads(f, r.rest, rows[1..], rest)
  }

  lemma {:induction false} ReadsSnoc(f: Format, s: seq<Byte>, rows: seq<Fields>, mid: seq<Byte>, rest: seq<Byte>, row: Fields)
    requires Reads(f, s, rows, mid) && ReadRow(f, mid) == MoreRows(row, rest)
    ensures Reads(f, s, rows + [row], rest)
    decreases |rows|
  {
    if rows == [] {
      assert (rows + [row])[1..] == [];
    } else {
      ReadsSnoc(f, ReadRow(f, s).rest, rows[1..], mid, rest, row);
      assert (rows + [row])[1..] == rows[1..] + [row];
    }
  }

  // ---------------------------------------------------------------- the loop

  /** Why a load stopped. */
  datatype Stop = Running | EndOfData | ReadError | TooManyErrors | RowLimit | BatchFailed

  /** The counters of the loop. */
  datatype Counters = Counters(rowOfHostfile: nat, written: nat, copied: nat, errors: nat)

  /** Every commit was of a full batch. */
  ghost predicate AllBatches(commits: seq<nat>, batch: int) {
    (commits != [] ==> batch > 0) && forall i | 0 <= i < |commits| :: commits[i] == batch
  }

  lemma OneMoreBatch(commits: seq<nat>, batch: int)
    requires AllBatches(commits, batch) && batch > 0
    ensures AllBatches(commits + [batch], batch)
  {
  }

  /** Offers a row; when a batch is complete it is committed. */
  method OfferRow(server: Server, row: Fields, batch: int, written: nat, copied: nat)
    returns (ok: bool, written1: nat, copied1: nat)
    requires server.Valid() && written == |server.outstanding|
    requires copied == |server.committed|
    requires batch > 0 ==> written < batch && server.peak <= batch
    requires AllBatches(server.commits, batch) == true
    modifies server
    ensures server.Valid() && server.offered == old(server.offered) + [row]
    ensures batch > 0 ==> server.peak <= batch
    ensures copied1 == |server.committed|
    ensures ok ==> written1 == |server.outstanding| && (batch > 0 ==> written1 < batch)
    ensures !ok ==> batch > 0 && |server.outstanding| == batch
    ensures AllBatches(server.commits, batch) == true
  {
    ok, written1, copied1 := true, written, copied;
    if batch > 0 { OneMoreBatch(server.commits, batch); }
    var sent := server.Send(row);
    if sent {
      written1 := written1 + 1;
      if batch > 0 && written1 == batch {
        var done, n := server.Done();
        if !done {
          ok := false;
          return;
        }
        copied1 := copied1 + n;
        written1 := 0;
      }
    }
  }

  /** What holds of file, server and counters after some rows. */
  ghost predicate InStep(f: Format, s: seq<Byte>, rest: seq<Byte>, rows: seq<Fields>, o: Options, bad: nat -> bool,
                         offered: seq<Fields>, errors: nat)
  {
    Reads(f, s, rows, rest) && offered == Offered(rows, o.firstrow, bad) && errors == Rejected(|rows|, o.firstrow, bad)
  }

  lemma StepOn(f: Format, s: seq<Byte>, mid: seq<Byte>, rest: seq<Byte>, rows: seq<Fields>, o: Options, bad: nat -> bool,
               offered: seq<Fields>, errors: nat, row: Fields)
    requires InStep(f, s, mid, rows, o, bad, offered, errors)
    requires ReadRow(f, mid) == MoreRows(row, rest)
    ensures var n := |rows| + 1;
            InStep(f, s, rest, rows + [row], o, bad,
                   if o.firstrow > n || bad(n) then offered else offered + [row],
                   if o.firstrow <= n && bad(n) then errors + 1 else errors)
  {
    ReadsSnoc(f, s, rows, mid, rest, row);
    OfferedSnoc(rows, row, o.firstrow, bad);
    assert offered + [] == offered;
  }

  /** Every commit but the last was of a full batch. */
  ghost predicate FullButLast(commits: seq<nat>, batch: int) {
    (|commits| > 1 ==> batch > 0) && forall i | 0 <= i < |commits| - 1 :: commits[i] == batch
  }

  lemma BatchesAndOne(commits: seq<nat>, batch: int, n: nat)
    requires AllBatches(commits, batch)
    ensures FullButLast(commits, batch) && FullButLast(commits + [n], batch)
  {
  }

  /** Counters and server agree, and no batch is overdue. */
  ghost predicate Tally(server: Server, c: Counters, batch: int)
    reads server
  {
    && server.Valid()
    && c.written == |server.outstanding| && c.copied == |server.committed|
    && (batch > 0 ==> c.written < batch && server.peak <= batch)
    && AllBatches(server.commits, batch) == true
  }

  /** What is known when a load stops. */
  ghost predicate StoppedFor(why: Stop, f: Format, rest: seq<Byte>, n: nat, o: Options) {
    match why
    case Running => true
    case EndOfData => ReadRow(f, rest) == NoMoreRows
    case ReadError => ReadRow(f, rest) == Fail
    case TooManyErrors => true
    case RowLimit => n >= RowBound(o.lastrow)
    case BatchFailed => o.batch > 0
  }

  /** Fewer rows than the limit were rejected, or the load stopped because of it, at the limit. */
  ghost predicate Within(why: Stop, errors: nat, o: Options) {
    errors <= o.maxerrs && (errors == o.maxerrs <==> why == TooManyErrors)
  }

  /** What becomes of a row that was read: skipped, rejected or offered. */
  method Dispose(server: Server, o: Options, c: Counters, row: Fields, skip: bool, isBad: bool)
    returns (c1: Counters, why: Stop)
    requires Tally(server, c, o.batch) && c.errors < o.maxerrs
    modifies server
    ensures server.Valid() && c1.rowOfHostfile == c.rowOfHostfile
    ensures server.offered == if skip || isBad then old(server.offered) else old(server.offered) + [row]
    ensures c1.errors == if !skip && isBad then c.errors + 1 else c.errors
    ensures Within(why, c1.errors, o) && why in {Running, TooManyErrors, BatchFailed}
    ensures why != BatchFailed ==> Tally(server, c1, o.batch) == true
    ensures why == BatchFailed ==>
              && o.batch > 0 && c1.copied == |server.committed| && server.peak <= o.batch
              && AllBatches(server.commits, o.batch) == true && |server.outstanding| == o.batch
  {
    c1, why := c, Running;
    if !skip && isBad {
      c1 := c1.(errors := c.errors + 1);
      if c1.errors >= o.maxerrs {
        why := TooManyErrors;
      }
      return;
    }
    if skip {
      return;
    }
    var ok, written, copied := OfferRow(server, row, o.batch, c.written, c.copied);
    c1 := c1.(written := written, copied := copied);
    why := if ok then Running else BatchFailed;
  }

  /** One round of the loop: `rows` and `rest` are the rows read so far and the bytes behind them. */
  method Round(file: File, f: Format, server: Server, o: Options, bad: nat -> bool, c: Counters,
               ghost s: seq<Byte>, ghost rows: seq<Fields>)
    returns (c1: Counters, why: Stop, ghost rows1: seq<Fields>, ghost rest: seq<Byte>)
    requires file.Valid() && f.Valid() && Tally(server, c, o.batch) && c.rowOfHostfile == |rows|
    requires InStep(f, s, file.Rest(), rows, o, bad, server.offered, c.errors)
    requires c.errors < o.maxerrs
    modifies file, server
    ensures file.Valid() && server.Valid()
    ensures InStep(f, s, rest, rows1, o, bad, server.offered, c1.errors) == true
    ensures StoppedFor(why, f, rest, |rows1|, o) == true && Within(why, c1.errors, o)
    ensures why != BatchFailed ==> Tally(server, c1, o.batch) == true
    ensures why == BatchFailed ==> c1.copied == |server.committed| && server.peak <= o.batch
    ensures why == BatchFailed ==> AllBatches(server.commits, o.batch) == true && |server.outstanding| == o.batch
    ensures why == Running ==> c1.rowOfHostfile == |rows1| == |rows| + 1 <= RowBound(o.lastrow)
    ensures why == Running ==> rest == file.Rest()
  {
    rows1, rest, why := rows, file.Rest(), Running;
    var n := c.rowOfHostfile + 1;
    c1 := c.(rowOfHostfile := n);
    if n > RowBound(o.lastrow) {
      why := RowLimit;
      return;
    }
    var skip := o.firstrow > n;
    var st := ReadHostfile(file, f);
    if !st.More? {
      why := if st == NoMore then EndOfData else ReadError;
      return;
    }
    StepOn(f, s, rest, file.Rest(), rows, o, bad, server.offered, c.errors, st.fields);
    rows1, rest := rows + [st.fields], file.Rest();
    c1, why := Dispose(server, o, c1, st.fields, skip, bad(n));
  }

  /**
   Loads a file.  The ghost results are the rows read, the bytes behind them, and why the
   load stopped.  The last commit's outcome is ignored, so rows in doubt are counted too.
   */
  method ExecIn(file: File, f: Format, server: Server, o: Options, bad: nat -> bool)
    returns (copied: nat, ok: bool, ghost rows: seq<Fields>, ghost rest: seq<Byte>, ghost why: Stop)
    requires file.Valid() && f.Valid() && server.Valid()
    requires server.outstanding == [] && server.committed == [] && server.offered == [] && server.peak == 0 && server.commits == []
    modifies file, server
    ensures file.Valid() && server.Valid()
    ensures Reads(f, old(file.Rest()), rows, rest)
    ensures server.offered == Offered(rows, o.firstrow, bad)
    ensures Subsequence(server.committed + server.outstanding, server.offered) == true
    ensures StoppedFor(why, f, rest, |rows|, o) && why != Running
    ensures Rejected(|rows|, o.firstrow, bad) <= o.maxerrs
    ensures Rejected(|rows|, o.firstrow, bad) == o.maxerrs <==> why == TooManyErrors
    ensures o.batch > 0 ==> server.peak <= o.batch
    ensures why == BatchFailed ==> AllBatches(server.commits, o.batch) == true && |server.outstanding| == o.batch
    ensures why != BatchFailed ==> FullButLast(server.commits, o.batch) == true
    ensures why != BatchFailed && server.outstanding != [] ==> AllBatches(server.commits, o.batch)
    ensures copied == |server.committed| + (if why == BatchFailed then 0 else |server.outstanding|)
    ensures ok <==> why == EndOfData
  {
    var c := Counters(0, 0, 0, 0);
    ghost var s := file.Rest();
    rows, rest := [], s;
    var stop := Running;
    while stop == Running
      invariant file.Valid() && server.Valid()
      invariant InStep(f, s, rest, rows, o, bad, server.offered, c.errors) == true
      invariant StoppedFor(stop, f, rest, |rows|, o) == true && Within(stop, c.errors, o)
      invariant stop != BatchFailed ==> Tally(server, c, o.batch) == true
      invariant stop == BatchFailed ==> c.copied == |server.committed| && server.peak <= o.batch
      invariant stop == BatchFailed ==> AllBatches(server.commits, o.batch) == true && |server.outstanding| == o.batch
      invariant stop == Running ==> c.rowOfHostfile == |rows| <= RowBound(o.lastrow)
      invariant stop == Running ==> rest == file.Rest()
      decreases if stop == Running then 1 + RowBound(o.lastrow) - c.rowOfHostfile else 0
    {
      c, stop, rows, rest := Round(file, f, server, o, bad, c, s, rows);
    }
    why := stop;
    copied, ok := c.copied, false;
    if stop == BatchFailed {
      return;
    }
    ghost var before := server.commits;
    BatchesAndOne(before, o.batch, |server.outstanding|);
    var done, n := server.Done();
    copied := copied + (if done then n else c.written);
    ok := stop == EndOfData;
  }

  // ------------------------------------------------------ there and back again

  /** The rows from `firstrow` on. */
  function From(rows: seq<Fields>, firstrow: int): seq<Fields> {
    if firstrow <= 1 then rows else if firstrow > |rows| then [] else rows[firstrow - 1..]
  }

  /** No conversion fails. */
  function Never(n: nat): bool {
    false
  }

  lemma FromSnoc(rows: seq<Fields>, firstrow: int)
    requires rows != []
    ensures var n := |rows|;
            From(rows, firstrow) == From(rows[..n - 1], firstrow) + (if firstrow > n then [] else [rows[n - 1]])
  {
    var n := |rows|;
    assert rows == rows[..n - 1] + [rows[n - 1]];
    if 1 < firstrow < n {
      assert rows[firstrow - 1..] == rows[..n - 1][firstrow - 1..] + [rows[n - 1]];
    }
  }

  lemma {:induction false} OfferedFrom(rows: seq<Fields>, firstrow: int)
    ensures Offered(rows, firstrow, Never) == From(rows, firstrow)
  {
    if rows == [] {
      // base case
    } else {
      OfferedFrom(rows[..|rows| - 1], firstrow);
      FromSnoc(rows, firstrow);
    }
  }

  /** On tables of fewer than 2^31 rows a `lastrow` selects nothing less than none does. */
  lemma {:induction false} LastrowHasNoEffect(table: seq<seq<Value>>, firstrow: int, lastrow: int)
    requires |table| <= 0x7fff_ffff
    ensures Selected(table, firstrow, lastrow) == From(table, firstrow)
  {
    if table == [] {
      // base case
    } else {
      LastrowHasNoEffect(table[..|table| - 1], firstrow, lastrow);
      FromSnoc(table, firstrow);
    }
  }

  lemma ReadsTail(f: Format, table: seq<seq<Value>>, rows: seq<Fields>, rest: seq<Byte>)
    requires RowsInSync(f, table) && NeedsBytes(f) && table != [] && rows != []
    requires Reads(f, EncodeRows(f, table), rows, rest)
    ensures rows[0] == FieldsFrom(f, 0, table[0]) && Reads(f, EncodeRows(f, table[1..]), rows[1..], rest)
  {
    var more := EncodeRows(f, table[1..]);
    assert EncodeRows(f, table) == EncodeRow(f, table[0]) + more;
    RowReadsBack(f, table[0], more);
  }

  lemma Behind<T>(s: seq<T>, n: nat)
    requires 0 < n <= |s|
    ensures s[1..][n - 1..] == s[n..]
  {
  }

  lemma Ahead<T>(s: seq<T>, first: T, more: seq<T>)
    requires s != [] && s[0] == first && |s| - 1 <= |more| && s[1..] == more[..|s| - 1]
    ensures s == ([first] + more)[..|s|]
  {
    assert s == [first] + s[1..];
  }

  /** However far a file that was copied out is read, it gives the first rows and leaves the others. */
  lemma {:induction false} ReadsFirstRows(f: Format, table: seq<seq<Value>>, rows: seq<Fields>, rest: seq<Byte>)
    requires RowsInSync(f, table) && NeedsBytes(f)
    requires Reads(f, EncodeRows(f, table), rows, rest)
    ensures |rows| <= |table| && rows == AllFields(f, table)[..|rows|]
    ensures rest == EncodeRows(f, table[|rows|..])
    decreases |rows|
  {
    if rows == [] {
      assert table[0..] == table;
    } else if table == [] {
      EndOfFile(f);
    } else {
      ReadsTail(f, table, rows, rest);
      ReadsFirstRows(f, table[1..], rows[1..], rest);
      Behind(table, |rows|);
      Ahead(rows, FieldsFrom(f, 0, table[0]), AllFields(f, table[1..]));
    }
  }

  /** Reading on from there fails never, and ends when all rows were read. */
  lemma ReadsOn(f: Format, table: seq<seq<Value>>, n: nat)
    requires RowsInSync(f, table) && NeedsBytes(f) && n <= |table|
    ensures var r := ReadRow(f, EncodeRows(f, table[n..]));
            r != Fail && (r == NoMoreRows <==> n == |table|)
  {
    if n == |table| {
      EndOfFile(f);
    } else {
      RowReadsBack(f, table[n], EncodeRows(f, table[n..][1..]));
    }
  }

  lemma {:induction false} NoneRejected(n: nat, firstrow: int)
    ensures Rejected(n, firstrow, Never) == 0
  {
    if n == 0 {
      // base case
    } else {
      NoneRejected(n - 1, firstrow);
    }
  }

  lemma FromPrefix(rows: seq<Fields>, n: nat, firstrow: int)
    requires n <= |rows|
    ensures From(rows[..n], firstrow) <= From(rows, firstrow)
  {
  }

  /** What a load of a file that was copied out has read and offered, wherever it stopped. */
  lemma LoadedRows(f: Format, table: seq<seq<Value>>, rows: seq<Fields>, rest: seq<Byte>, firstrow: int)
    requires RowsInSync(f, table) && NeedsBytes(f)
    requires Reads(f, EncodeRows(f, table), rows, rest)
    ensures |rows| <= |table| && rows == AllFields(f, table)[..|rows|]
    ensures ReadRow(f, rest) != Fail && (ReadRow(f, rest) == NoMoreRows <==> |rows| == |table|)
    ensures Rejected(|rows|, firstrow, Never) == 0
    ensures Offered(rows, firstrow, Never) <= From(AllFields(f, table), firstrow)
    ensures |rows| == |table| ==> Offered(rows, firstrow, Never) == From(AllFields(f, table), firstrow)
  {
    ReadsFirstRows(f, table, rows, rest);
    ReadsOn(f, table, |rows|);
    OfferedFrom(rows, firstrow);
    NoneRejected(|rows|, firstrow);
    FromPrefix(AllFields(f, table), |rows|, firstrow);
  }

  /**
   A table copied out and loaded again, all of it in sync and no conversion failing.  The
   server is offered the copied rows from `firstrow` on, in order, and all of them unless
   a batch fails.
   */
  method CopyOutAndIn(f: Format, table: seq<seq<Value>>, o: Options, server: Server)
    returns (copied: nat, ok: bool, ghost why: Stop)
    requires f.Valid() && RowsInSync(f, table) && NeedsBytes(f) && |table| < 0x7fff_ffff
    requires server.Valid()
    requires server.outstanding == [] && server.committed == [] && server.offered == [] && server.peak == 0 && server.commits == []
    modifies server
    ensures server.Valid()
    ensures server.offered <= From(AllFields(f, table), o.firstrow)
    ensures if ok then why == EndOfData else why == BatchFailed && o.batch > 0
    ensures ok ==> server.offered == From(AllFields(f, table), o.firstrow)
    ensures copied == |server.committed| + (if ok then |server.outstanding| else 0)
  {
    var bytes, n, fine := ExecOut(f, table, 1, 0);
    LastrowHasNoEffect(table, 1, 0);
    var file := new File(bytes);
    ghost var rows, rest;
    copied, ok, rows, rest, why := ExecIn(file, f, server, o, Never);
    LoadedRows(f, table, rows, rest, o.firstrow);
  }
}
