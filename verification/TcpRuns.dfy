/**
 Whole runs of the dump writer, with a file that may refuse a packet or take only part of
 it at any time.  The program ignores the failure and goes on, so a capture can have gaps;
 these laws say exactly which captures a reader accepts and what it gets from them.
 */
module TcpRuns {
  import opened Bytes
  import opened Checksum
  import opened TcpDump
  import opened TcpReceiver
  import opened Capture

  // --------------------------------------------------------------- one step

  /** The counters agree with what the reader has, as far as 32 bits tell. */
  predicate Aligned(st: Streams, c: Counters) {
    |st.client| % TWO32 == c.client % TWO32 && |st.server| % TWO32 == c.server % TWO32
  }

  /** In either direction, a segment continues the streams exactly when the counters agree with them. */
  lemma SegmentAccepted(e: Ends, st: Streams, c: Counters, dir: Direction, payload: seq<Byte>)
    requires Distinct(e)
    ensures StepSegment(e, st, SegmentOf(e, c, dir, payload))
         == if Aligned(st, c) then Accepted(st.Append(dir, payload)) else Rejected
  {
  }

  lemma {:induction false} ReceiveAppend(e: Ends, st: Streams, packets: seq<seq<Byte>>, p: seq<Byte>)
    ensures Receive(e, st, packets + [p]) ==
            match Receive(e, st, packets)
            case Accepted(st1) => Step(e, st1, p)
            case Rejected => Rejected
    decreases |packets|
  {
    if packets == [] {
      assert (packets + [p])[1..] == [];
    } else {
      assert (packets + [p])[1..] == packets[1..] + [p];
      match Step(e, st, packets[0])
      case Accepted(st1) => ReceiveAppend(e, st1, packets[1..], p);
      case Rejected =>
    }
  }

  // -------------------------------------------------------------- whole runs

  /** Each segment tried continues the counters of all that were tried before. */
  ghost predicate InRun(e: Ends, log: seq<Attempt>) {
    forall i | 0 <= i < |log| ::
      log[i].s == SegmentOf(e, SentBy(Counters(0, 0), log[..i]), log[i].dir, log[i].s.payload)
  }

  /** The streams that the stored segments make up. */
  ghost function StoredStreams(log: seq<Attempt>): Streams {
    if log == [] then Streams([], [])
    else
      var n := |log| - 1;
      var st := StoredStreams(log[..n]);
      if log[n].fate.Stored? then st.Append(log[n].dir, log[n].s.payload) else st
  }

  /** The bytes of the segments that are not in the file whole. */
  ghost function Gap(log: seq<Attempt>): Counters {
    if log == [] then Counters(0, 0)
    else
      var n := |log| - 1;
      var g := Gap(log[..n]);
      if log[n].fate.Stored? then g else g.Advance(log[n].dir, |log[n].s.payload|)
  }

  ghost predicate Invisible(g: Counters) {
    g.client % TWO32 == 0 && g.server % TWO32 == 0
  }

  /** No packet was stored behind a gap that its numbers show. */
  ghost predicate Consistent(log: seq<Attempt>) {
    forall i | 0 <= i < |log| :: log[i].fate.Stored? ==> Invisible(Gap(log[..i]))
  }

  /** Every byte sent is stored or lost. */
  lemma {:induction false} SentIsStoredOrLost(log: seq<Attempt>)
    ensures var c, st, g := SentBy(Counters(0, 0), log), StoredStreams(log), Gap(log);
            c.client == |st.client| + g.client && c.server == |st.server| + g.server
  {
    if log == [] {
      // base case
    } else {
      SentIsStoredOrLost(log[..|log| - 1]);
    }
  }

  lemma ConsistentSnoc(log: seq<Attempt>)
    requires log != []
    ensures var n := |log| - 1;
            Consistent(log) <==> Consistent(log[..n]) && (log[n].fate.Stored? ==> Invisible(Gap(log[..n])))
  {
    var n := |log| - 1;
    assert forall i | 0 <= i < n :: log[..n][..i] == log[..i] && log[..n][i] == log[i];
  }

  lemma InRunPrefix(e: Ends, log: seq<Attempt>, n: nat)
    requires InRun(e, log) && n <= |log|
    ensures InRun(e, log[..n])
  {
    assert forall i | 0 <= i < n :: log[..n][..i] == log[..i] && log[..n][i] == log[i];
  }

  lemma SameRest(n: nat, g: nat)
    ensures (n + g) % TWO32 == n % TWO32 <==> g % TWO32 == 0
  {
    AddWrapped(n, g);
    AddWrapped(g, n % TWO32);
  }

  lemma GapSeen(st: Streams, g: Counters, c: Counters)
    requires c.client == |st.client| + g.client && c.server == |st.server| + g.server
    ensures Aligned(st, c) <==> Invisible(g)
  {
    SameRest(|st.client|, g.client);
    SameRest(|st.server|, g.server);
  }

  /** What the reader makes of one more attempt, after it accepted those before. */
  lemma LastAttempt(order: Order, e: Ends, log: seq<Attempt>)
    requires e.Valid() && Distinct(e) && log != [] && AllValid(log) && InRun(e, log)
    requires var n := |log| - 1;
             Receive(e, Streams([], []), StoredPackets(order, log[..n])) == Accepted(StoredStreams(log[..n]))
    ensures Receive(e, Streams([], []), StoredPackets(order, log))
         == if log[|log| - 1].fate.Stored? && !Invisible(Gap(log[..|log| - 1])) then Rejected
            else Accepted(StoredStreams(log))
  {
    var n := |log| - 1;
    var a, before := log[n], StoredPackets(order, log[..n]);
    var st, g, c := StoredStreams(log[..n]), Gap(log[..n]), SentBy(Counters(0, 0), log[..n]);
    if a.fate.Stored? {
      ReceiveAppend(e, Streams([], []), before, Packet(order, a.s));
      StepIsExact(order, e, st, a.s);
      SegmentAccepted(e, st, c, a.dir, a.s.payload);
      SentIsStoredOrLost(log[..n]);
      GapSeen(st, g, c);
    } else {
      assert before + [] == before;
    }
  }

  lemma RejectedStays(order: Order, e: Ends, log: seq<Attempt>)
    requires e.Valid() && log != [] && AllValid(log)
    requires Receive(e, Streams([], []), StoredPackets(order, log[..|log| - 1])) == Rejected
    ensures Receive(e, Streams([], []), StoredPackets(order, log)) == Rejected
  {
    var n := |log| - 1;
    var before := StoredPackets(order, log[..n]);
    if log[n].fate.Stored? {
      ReceiveAppend(e, Streams([], []), before, Packet(order, log[n].s));
    } else {
      assert before + [] == before;
    }
  }

  /**
   The stored packets of every run: the reader accepts them if and only if none stands
   behind a visible gap, and then it gets the stored bytes of both directions in order.
   */
  lemma {:induction false} PacketsAccepted(order: Order, e: Ends, log: seq<Attempt>)
    requires e.Valid() && Distinct(e) && AllValid(log) && InRun(e, log)
    ensures Receive(e, Streams([], []), StoredPackets(order, log))
         == if Consistent(log) then Accepted(StoredStreams(log)) else Rejected
  {
    if log == [] {
      assert StoredPackets(order, log) == [];
    } else {
      var n := |log| - 1;
      InRunPrefix(e, log, n);
      PacketsAccepted(order, e, log[..n]);
      ConsistentSnoc(log);
      if Consistent(log[..n]) {
        LastAttempt(order, e, log);
      } else {
        RejectedStays(order, e, log);
      }
    }
  }

  /** Reading a capture file: it has to be whole, and its packets in order. */
  function ReadStreams(e: Ends, file: seq<Byte>): Outcome {
    var c := ReadFile(file);
    if c.whole then Receive(e, Streams([], []), c.packets) else Rejected
  }

  /** The program did not go on behind a torn record. */
  ghost predicate TornOnlyLast(log: seq<Attempt>) {
    forall i | 0 <= i < |log| - 1 :: !log[i].fate.Torn?
  }

  lemma LastIsTorn(log: seq<Attempt>)
    requires TornOnlyLast(log) && !NoneTorn(log)
    ensures log != [] && NoneTorn(log[..|log| - 1]) && log[|log| - 1].fate.Torn?
  {
  }

  /**
   The file of every run that does not go on behind a torn record: the reader accepts it if
   and only if no record is torn and no packet stands behind a visible gap, and then it gets
   the stored bytes of both directions in order.
   */
  lemma EveryCapture(order: Order, e: Ends, log: seq<Attempt>)
    requires e.Valid() && Distinct(e) && AllValid(log) && InRun(e, log) && TornOnlyLast(log)
    ensures ReadStreams(e, FileOf(order, log))
         == if NoneTorn(log) && Consistent(log) then Accepted(StoredStreams(log)) else Rejected
  {
    if NoneTorn(log) {
      WholeFile(order, log);
      PacketsAccepted(order, e, log);
    } else {
      LastIsTorn(log);
      TornFile(order, log);
    }
  }

  /**
   Every file, whatever was torn and followed by more: the reader finds the packets before
   the first tear, and has the stored bytes of those attempts after them exactly when none
   of them stands behind a visible gap.
   */
  lemma UpToTheTear(order: Order, e: Ends, log: seq<Attempt>, n: nat)
    requires e.Valid() && Distinct(e) && AllValid(log) && InRun(e, log)
    requires n <= |log| && NoneTorn(log[..n])
    ensures var first := StoredPackets(order, log[..n]);
            && first <= ReadFile(FileOf(order, log)).packets
            && Receive(e, Streams([], []), first) == if Consistent(log[..n]) then Accepted(StoredStreams(log[..n])) else Rejected
  {
    BeforeTheTear(order, log, n);
    InRunPrefix(e, log, n);
    PacketsAccepted(order, e, log[..n]);
  }

  // ------------------------------------------------------- losses below 2^32

  /** Nothing was stored after a segment that was not. */
  ghost predicate LostAtTheEnd(log: seq<Attempt>) {
    forall i, j | 0 <= i < j < |log| :: log[j].fate.Stored? ==> log[i].fate.Stored?
  }

  ghost predicate NoEmptySegment(log: seq<Attempt>) {
    forall i | 0 <= i < |log| :: log[i].s.payload != []
  }

  /** The gap is nothing exactly when all was stored; it only grows. */
  lemma {:induction false} GapMeans(log: seq<Attempt>)
    requires NoEmptySegment(log)
    ensures Gap(log) == Counters(0, 0) <==> AllStored(log)
  {
    if log == [] {
      assert AllStored(log);
    } else {
      var n := |log| - 1;
      GapMeans(log[..n]);
      assert AllStored(log) <==> AllStored(log[..n]) && log[n].fate.Stored?;
    }
  }

  lemma {:induction false} GapGrows(log: seq<Attempt>, i: nat)
    requires i <= |log|
    ensures Gap(log[..i]).client <= Gap(log).client && Gap(log[..i]).server <= Gap(log).server
  {
    if i == |log| {
      assert log[..i] == log;
    } else {
      var n := |log| - 1;
      GapGrows(log[..n], i);
      assert log[..n][..i] == log[..i];
    }
  }

  /** A gap of fewer than 2^32 bytes shows as soon as there is one. */
  lemma SmallGap(log: seq<Attempt>, i: nat)
    requires i <= |log| && NoEmptySegment(log) && Gap(log).client < TWO32 && Gap(log).server < TWO32
    ensures Invisible(Gap(log[..i])) <==> AllStored(log[..i])
  {
    GapGrows(log, i);
    GapMeans(log[..i]);
  }

  /** The segments before the `i`-th were all stored. */
  lemma StoredBefore(log: seq<Attempt>, i: nat)
    requires i <= |log|
    ensures AllStored(log[..i]) <==> forall j | 0 <= j < i :: log[j].fate.Stored?
  {
    assert forall j | 0 <= j < i :: log[..i][j] == log[j];
  }

  /**
   As long as fewer than 2^32 bytes are lost in each direction, the capture is accepted
   exactly when nothing was stored after a loss.
   */
  lemma SmallLosses(log: seq<Attempt>)
    requires NoEmptySegment(log) && Gap(log).client < TWO32 && Gap(log).server < TWO32
    ensures Consistent(log) <==> LostAtTheEnd(log)
  {
    forall i | 0 <= i < |log|
      ensures Invisible(Gap(log[..i])) <==> forall j | 0 <= j < i :: log[j].fate.Stored?
    {
      SmallGap(log, i);
      StoredBefore(log, i);
    }
  }

  /** A packet of either direction that is stored after a loss makes the reader refuse the capture. */
  lemma RefusedWriteLeavesAGap(order: Order, e: Ends, log: seq<Attempt>, i: nat, j: nat)
    requires e.Valid() && Distinct(e) && AllValid(log) && InRun(e, log) && NoEmptySegment(log)
    requires Gap(log).client < TWO32 && Gap(log).server < TWO32
    requires i < j < |log| && !log[i].fate.Stored? && log[j].fate.Stored?
    ensures Receive(e, Streams([], []), StoredPackets(order, log)) == Rejected
    ensures TornOnlyLast(log) ==> ReadStreams(e, FileOf(order, log)) == Rejected
  {
    SmallLosses(log);
    PacketsAccepted(order, e, log);
    if TornOnlyLast(log) { EveryCapture(order, e, log); }
  }

  lemma OneAttempt(e: Ends, log: seq<Attempt>, a: Attempt)
    requires InRun(e, log) && NoEmptySegment(log) && a.s.payload != []
    requires a.s == SegmentOf(e, SentBy(Counters(0, 0), log), a.dir, a.s.payload)
    ensures InRun(e, log + [a]) && NoEmptySegment(log + [a])
    ensures SentBy(Counters(0, 0), log + [a]) == SentBy(Counters(0, 0), log).Advance(a.dir, |a.s.payload|)
    ensures StoredStreams(log + [a])
         == if a.fate.Stored? then StoredStreams(log).Append(a.dir, a.s.payload) else StoredStreams(log)
  {
    var all := log + [a];
    assert all[..|log|] == log;
    forall i | 0 <= i < |all|
      ensures all[i].s == SegmentOf(e, SentBy(Counters(0, 0), all[..i]), all[i].dir, all[i].s.payload)
    {
      assert i < |log| ==> all[..i] == log[..i];
    }
  }

  lemma GapOfOne(a: Attempt)
    requires !a.fate.Stored?
    ensures Gap([a]) == Counters(0, 0).Advance(a.dir, |a.s.payload|)
  {
    assert [a][..0] == [];
  }

  /** A run of two packets: the server's one byte is refused, and then the client's is stored. */
  ghost predicate LostThenKept(e: Ends, log: seq<Attempt>) {
    && |log| == 2
    && log[0].dir == Server && log[0].fate == Refused && log[0].s == SegmentOf(e, Counters(0, 0), Server, [65])
    && log[1].dir == Client && log[1].fate.Stored? && log[1].s == SegmentOf(e, Counters(0, 1), Client, [66])
  }

  lemma OneLost(e: Ends, lost: Attempt)
    requires lost.dir == Server && lost.fate == Refused && lost.s == SegmentOf(e, Counters(0, 0), Server, [65])
    ensures InRun(e, [lost]) && NoEmptySegment([lost])
    ensures SentBy(Counters(0, 0), [lost]) == Counters(0, 1) == Gap([lost])
  {
    OneAttempt(e, [], lost);
    assert [] + [lost] == [lost];
    GapOfOne(lost);
  }

  lemma OneKept(e: Ends, log: seq<Attempt>, kept: Attempt)
    requires InRun(e, log) && NoEmptySegment(log) && SentBy(Counters(0, 0), log) == Counters(0, 1) == Gap(log)
    requires kept.dir == Client && kept.fate.Stored? && kept.s == SegmentOf(e, Counters(0, 1), Client, [66])
    ensures InRun(e, log + [kept]) && !Consistent(log + [kept])
  {
    OneAttempt(e, log, kept);
    assert (log + [kept])[..|log|] == log;
    ConsistentSnoc(log + [kept]);
  }

  lemma TwoAttempts(e: Ends, log: seq<Attempt>)
    requires e.Valid() && LostThenKept(e, log)
    ensures AllValid(log) && InRun(e, log) && NoneTorn(log) && !Consistent(log)
  {
    OneLost(e, log[0]);
    OneKept(e, [log[0]], log[1]);
    assert log == [log[0]] + [log[1]];
  }

  /** A reader refuses such a run, although the packet in it goes the other way. */
  lemma AnswerBehindAGap(order: Order, e: Ends, log: seq<Attempt>)
    requires e.Valid() && Distinct(e) && LostThenKept(e, log)
    ensures AllValid(log) && InRun(e, log) && ReadStreams(e, FileOf(order, log)) == Rejected
  {
    TwoAttempts(e, log);
    EveryCapture(order, e, log);
  }

  // ---------------------------------------------------------- runs of writes

  ghost function Size(st: Streams): nat {
    |st.client| + |st.server|
  }

  /** What a write adds to a run, and what has to be known to go on. */
  ghost predicate Extends(e: Ends, log: seq<Attempt>, tried: seq<Attempt>, dir: Direction, data: seq<Byte>) {
    var before, after := StoredStreams(log), StoredStreams(log + tried);
    && InRun(e, log + tried) && NoEmptySegment(log + tried)
    && if AllStored(tried) then after == before.Append(dir, data) else Size(after) < Size(before) + |data|
  }

  lemma TriesRest(dir: Direction, all: seq<Segment>, tried: seq<Attempt>)
    requires Tries(dir, all, tried) && all != []
    ensures tried != [] && tried[0].dir == dir && tried[0].s == all[0]
    ensures tried[0].fate.Stored? ==> Tries(dir, all[1..], tried[1..]) && AllStored(tried) == AllStored(tried[1..])
    ensures !tried[0].fate.Stored? ==> tried == [tried[0]] && !AllStored(tried)
  {
    if tried[0].fate.Stored? {
      assert forall i | 0 <= i < |tried| - 1 :: tried[1..][i] == tried[i + 1];
      assert AllStored(tried[1..]) ==> forall i | 0 < i < |tried| :: tried[i] == tried[1..][i - 1];
    }
  }

  /** A first segment that was stored, and then the others. */
  lemma FirstStored(e: Ends, log: seq<Attempt>, tried: seq<Attempt>, dir: Direction, data: seq<Byte>, n: nat)
    requires tried != [] && n <= |data| && AllStored(tried) == AllStored(tried[1..])
    requires StoredStreams(log + [tried[0]]) == StoredStreams(log).Append(dir, data[..n])
    requires Extends(e, log + [tried[0]], tried[1..], dir, data[n..])
    ensures Extends(e, log, tried, dir, data)
  {
    assert log + tried == log + [tried[0]] + tried[1..];
    AppendTwice(StoredStreams(log), dir, data, n);
  }

  /** The segments of one write, tried up to the first failure, extend the run. */
  lemma {:induction false} WriteExtends(e: Ends, log: seq<Attempt>, dir: Direction, data: seq<Byte>, tried: seq<Attempt>)
    requires InRun(e, log) && NoEmptySegment(log)
    requires Tries(dir, Segments(e, SentBy(Counters(0, 0), log), dir, data), tried)
    ensures Extends(e, log, tried, dir, data)
    decreases |data|
  {
    var c, st := SentBy(Counters(0, 0), log), StoredStreams(log);
    var all := Segments(e, c, dir, data);
    if data == [] {
      assert log + tried == log;
      AppendTwice(st, dir, data, 0);
    } else {
      var n := Chunk(|data|);
      TriesRest(dir, all, tried);
      var a := tried[0];
      OneAttempt(e, log, a);
      if a.fate.Stored? {
        assert all[1..] == Segments(e, c.Advance(dir, n), dir, data[n..]);
        WriteExtends(e, log + [a], dir, data[n..], tried[1..]);
        FirstStored(e, log, tried, dir, data, n);
      }
    }
  }

  lemma {:induction false} SentByConcat(c: Counters, a: seq<Attempt>, b: seq<Attempt>)
    ensures SentBy(c, a + b) == SentBy(SentBy(c, a), b)
  {
    if b == [] {
      assert a + b == a;
    } else {
      var n := |b| - 1;
      SentByConcat(c, a, b[..n]);
      assert (a + b)[..|a| + n] == a + b[..n];
    }
  }

  lemma SnocTail<T>(s: seq<T>, x: T)
    requires s != []
    ensures (s + [x])[1..] == s[1..] + [x] && (s + [x])[0] == s[0]
  {
  }

  lemma {:induction false} WrittenSnoc(writes: seq<Write>, w: Write, dir: Direction)
    ensures Written(writes + [w], dir) == Written(writes, dir) + (if w.dir == dir then w.data else [])
  {
    var last := if w.dir == dir then w.data else [];
    if writes == [] {
      assert (writes + [w])[1..] == [];
    } else {
      var first := if writes[0].dir == dir then writes[0].data else [];
      WrittenSnoc(writes[1..], w, dir);
      SnocTail(writes, w);
      Assoc(first, Written(writes[1..], dir), last);
    }
  }

  /** Both streams as they were written. */
  ghost function Both(writes: seq<Write>): Streams {
    Streams(Written(writes, Client), Written(writes, Server))
  }

  lemma BothSnoc(writes: seq<Write>, w: Write)
    ensures Both(writes + [w]) == Both(writes).Append(w.dir, w.data)
  {
    WrittenSnoc(writes, w, Client);
    WrittenSnoc(writes, w, Server);
  }

  /** After some writes: all of them succeeded and all is stored, or less is stored than was written. */
  ghost predicate RunOf(e: Ends, log: seq<Attempt>, writes: seq<Write>, ok: bool) {
    && InRun(e, log) && NoEmptySegment(log)
    && if ok then AllStored(log) && StoredStreams(log) == Both(writes) else Size(StoredStreams(log)) < Size(Both(writes))
  }

  lemma NextWrite(e: Ends, log: seq<Attempt>, writes: seq<Write>, ok: bool, w: Write, tried: seq<Attempt>)
    requires RunOf(e, log, writes, ok)
    requires Tries(w.dir, Segments(e, SentBy(Counters(0, 0), log), w.dir, w.data), tried)
    ensures RunOf(e, log + tried, writes + [w], ok && AllStored(tried))
  {
    WriteExtends(e, log, w.dir, w.data, tried);
    BothSnoc(writes, w);
  }

  lemma {:induction false} NoGap(log: seq<Attempt>)
    requires AllStored(log)
    ensures Gap(log) == Counters(0, 0)
  {
    if log == [] {
      // base case
    } else {
      NoGap(log[..|log| - 1]);
    }
  }

  lemma {:induction false} AllStoredIsConsistent(log: seq<Attempt>)
    requires AllStored(log)
    ensures Consistent(log)
  {
    if log == [] {
      // base case
    } else {
      var n := |log| - 1;
      AllStoredIsConsistent(log[..n]);
      ConsistentSnoc(log);
      NoGap(log[..n]);
    }
  }

  /** What a reader gets from the file of a run. */
  ghost predicate Outcomes(e: Ends, file: seq<Byte>, log: seq<Attempt>, writes: seq<Write>, ok: bool) {
    var r := ReadStreams(e, file);
    && (ok ==> r == Accepted(Both(writes)))
    && (TornOnlyLast(log) ==>
          && r == (if NoneTorn(log) && Consistent(log) then Accepted(StoredStreams(log)) else Rejected)
          && (r == Accepted(Both(writes)) ==> ok))
  }

  /** The outcome of a run: which captures are read, and which give everything back. */
  lemma RunRead(order: Order, e: Ends, log: seq<Attempt>, writes: seq<Write>, ok: bool)
    requires e.Valid() && Distinct(e) && AllValid(log) && RunOf(e, log, writes, ok)
    ensures Outcomes(e, FileOf(order, log), log, writes, ok)
  {
    if ok { AllStoredIsConsistent(log); }
    if TornOnlyLast(log) { EveryCapture(order, e, log); }
  }

  lemma StoredConcat(a: seq<Attempt>, b: seq<Attempt>)
    ensures AllStored(a + b) <==> AllStored(a) && AllStored(b)
  {
    assert AllStored(a + b) ==> forall i | 0 <= i < |b| :: b[i] == (a + b)[|a| + i];
    assert AllStored(a + b) ==> forall i | 0 <= i < |a| :: a[i] == (a + b)[i];
  }

  ghost predicate Given(writes: seq<Write>, these: seq<Write>) {
    writes == these
  }

  /** The state of a run after some writes. */
  ghost predicate Dumped(e: Ends, log: seq<Attempt>, sent: Counters, writes: seq<Write>, ok: bool) {
    // (the quantifier keeps the verifier from taking the predicate apart where it is only passed on)
    forall these | Given(writes, these) ::
      RunOf(e, log, these, ok) && sent == SentBy(Counters(0, 0), log) && (ok <==> AllStored(log))
  }

  lemma NothingDumped(e: Ends)
    ensures Dumped(e, [], Counters(0, 0), [], true) == true
  {
  }

  lemma DumpedMore(e: Ends, log: seq<Attempt>, sent: Counters, writes: seq<Write>, ok: bool, w: Write, tried: seq<Attempt>)
    requires Dumped(e, log, sent, writes, ok) == true && Tries(w.dir, Segments(e, sent, w.dir, w.data), tried)
    ensures Dumped(e, log + tried, SentBy(sent, tried), writes + [w], ok && AllStored(tried)) == true
  {
    assert Given(writes, writes);
    NextWrite(e, log, writes, ok, w, tried);
    SentByConcat(Counters(0, 0), log, tried);
    StoredConcat(log, tried);
  }

  lemma DumpedAll(order: Order, e: Ends, log: seq<Attempt>, sent: Counters, writes: seq<Write>, ok: bool)
    requires e.Valid() && Distinct(e) && AllValid(log) && Dumped(e, log, sent, writes, ok) == true
    ensures InRun(e, log) && NoEmptySegment(log) && (ok <==> AllStored(log))
    ensures Outcomes(e, FileOf(order, log), log, writes, ok) == true
    ensures ok ==> ReadStreams(e, FileOf(order, log)) == Accepted(Both(writes))
  {
    assert Given(writes, writes);
    RunRead(order, e, log, writes, ok);
  }

  /**
   A connection dumped from beginning to end; writes that fail are passed over.  If every
   write succeeded the reader gets back both streams as they were written.  If not, it does
   not, and what it gets is determined, unless the program went on behind a torn record.
   */
  method DumpConnection(order: Order, e: Ends, writes: seq<Write>)
    returns (file: seq<Byte>, ok: bool, ghost log: seq<Attempt>)
    requires e.Valid() && Distinct(e)
    ensures ok ==> ReadStreams(e, file) == Accepted(Both(writes))
    ensures AllValid(log) && InRun(e, log) && NoEmptySegment(log) && file == FileOf(order, log)
    ensures ok <==> AllStored(log)
    ensures Outcomes(e, file, log, writes, ok) == true
  {
    var flow := new Flow(order, e);
    var writer := new Writer(order);
    ok := true;
    NothingDumped(e);
    assert writes[..0] == [];
    var i := 0;
    while i < |writes|
      invariant 0 <= i <= |writes|
      invariant flow.Valid() && writer.Valid() && flow.ends == e && flow.order == writer.order == order
      // (comparing with true keeps the verifier from taking the predicate apart)
      invariant Dumped(e, writer.log, flow.sent, writes[..i], ok) == true
    {
      ghost var before, sent := writer.log, flow.sent;
      NextPrefix(writes, i);
      var r, tried := flow.WriteData(writer, writes[i].ts, writes[i].dir, writes[i].data);
      DumpedMore(e, before, sent, writes[..i], ok, writes[i], tried);
      ok := ok && r != -1;
      i := i + 1;
    }
    assert writes[..i] == writes;
    file, log := writer.bytes, writer.log;
    DumpedAll(order, e, log, flow.sent, writes, ok);
  }
}
