/**
 The TCP dump writer: it turns the two byte streams of a connection into IPv4/TCP
 packets with sequence numbers, acknowledgements and checksums.

 Fields that the source keeps in network order are modelled by their bytes in memory.
 The time stamp of a write is a parameter.
 */
module TcpDump {
  import opened Bytes
  import opened Checksum

  const MAX_PACKET := 1460

  datatype Direction = Client | Server

  /** The two ends of a connection, as they stand in memory. */
  datatype Ends = Ends(saddr: seq<Byte>, daddr: seq<Byte>, sport: seq<Byte>, dport: seq<Byte>)
  {
    ghost predicate Valid() {
      |saddr| == |daddr| == 4 && |sport| == |dport| == 2
    }

    /** The ends as seen by the sender. */
    function From(dir: Direction): Ends {
      if dir == Client then this else Ends(daddr, saddr, dport, sport)
    }
  }

  // ------------------------------------------------------------- one packet

  /** Version, service type, total length, identification, fragment, time to live, protocol. */
  function IpBefore(len: nat): (h: seq<Byte>)
    requires len <= MAX_PACKET
    ensures |h| == 10
  {
    [0x45, 0] + Store16(BigEndian, len + 40) + [0x12, 0x34, 0, 0, 64, 6]
  }

  function IpHeader(e: Ends, len: nat, sum: seq<Byte>): (h: seq<Byte>)
    requires e.Valid() && len <= MAX_PACKET && |sum| == 2
    ensures |h| == 20
  {
    IpBefore(len) + sum + (e.saddr + e.daddr)
  }

  /** Ports, sequence number, acknowledgement, header length, flags, window. */
  function TcpBefore(e: Ends, seqno: nat, ack: nat): (h: seq<Byte>)
    requires e.Valid() && seqno < TWO32 && ack < TWO32
    ensures |h| == 16
  {
    (e.sport + e.dport) + Store32(BigEndian, seqno) + Store32(BigEndian, ack) + [0x50, 0x10, 0x20, 0]
  }

  function TcpHeader(e: Ends, seqno: nat, ack: nat, sum: seq<Byte>): (h: seq<Byte>)
    requires e.Valid() && seqno < TWO32 && ack < TWO32 && |sum| == 2
    ensures |h| == 20
  {
    TcpBefore(e, seqno, ack) + sum + [0, 0]
  }

  /** Addresses, a zero and the protocol number, over which the TCP checksum also runs. */
  function PseudoHeader(e: Ends): (h: seq<Byte>)
    requires e.Valid()
    ensures |h| == 10
  {
    e.saddr + e.daddr + [0, 6]
  }

  function IpSum(order: Order, e: Ends, len: nat): (c: nat)
    requires e.Valid() && len <= MAX_PACKET
    ensures c < TWO16
  {
    Cksum(order, IpHeader(e, len, [0, 0]), 0)
  }

  /** The TCP checksum of a packet in one pass over pseudo header, length, header and payload. */
  function TcpSum(order: Order, e: Ends, seqno: nat, ack: nat, payload: seq<Byte>): (c: nat)
    requires e.Valid() && seqno < TWO32 && ack < TWO32 && |payload| <= MAX_PACKET
    ensures c < TWO16
  {
    Cksum(order, PseudoHeader(e) + Store16(BigEndian, |payload| + 20)
                 + (TcpHeader(e, seqno, ack, [0, 0]) + payload), 0)
  }

  /** Headers with the given checksums, and the payload. */
  function Assemble(order: Order, e: Ends, seqno: nat, ack: nat, ipSum: nat, tcpSum: nat, payload: seq<Byte>)
    : (p: seq<Byte>)
    requires e.Valid() && seqno < TWO32 && ack < TWO32 && |payload| <= MAX_PACKET
    requires ipSum < TWO16 && tcpSum < TWO16
    ensures |p| == 40 + |payload|
  {
    IpHeader(e, |payload|, Store16(order, 0xffff - ipSum))
    + TcpHeader(e, seqno, ack, Store16(order, 0xffff - tcpSum))
    + payload
  }

  /** One segment of a stream, with the ends as its sender sees them. */
  datatype Segment = Segment(e: Ends, seqno: nat, ack: nat, payload: seq<Byte>)
  {
    ghost predicate Valid() {
      e.Valid() && seqno < TWO32 && ack < TWO32 && |payload| <= MAX_PACKET
    }
  }

  /** The packet of one segment, with both checksums stored in the machine's order. */
  function Packet(order: Order, s: Segment): (p: seq<Byte>)
    requires s.Valid()
    ensures |p| == 40 + |s.payload|
  {
    Assemble(order, s.e, s.seqno, s.ack, IpSum(order, s.e, |s.payload|),
             TcpSum(order, s.e, s.seqno, s.ack, s.payload), s.payload)
  }

  // ------------------------------------------------------------ the writer

  /** How many bytes were sent in the two directions. */
  datatype Counters = Counters(client: nat, server: nat)
  {
    function Of(dir: Direction): nat {
      if dir == Client then client else server
    }

    function Advance(dir: Direction, n: nat): Counters {
      if dir == Client then Counters(client + n, server) else Counters(client, server + n)
    }
  }

  function Other(dir: Direction): Direction {
    if dir == Client then Server else Client
  }

  function Chunk(n: nat): nat {
    if n > MAX_PACKET then MAX_PACKET else n
  }

  /** The segment with the first of the data. */
  function FirstSegment(e: Ends, c: Counters, dir: Direction, data: seq<Byte>): Segment {
    Segment(e.From(dir), c.Of(dir) % TWO32, c.Of(Other(dir)) % TWO32, data[..Chunk(|data|)])
  }

  /** The segments that one call writes. */
  function Segments(e: Ends, c: Counters, dir: Direction, data: seq<Byte>): seq<Segment>
    decreases |data|
  {
    if data == [] then []
    else
      var n := Chunk(|data|);
      [FirstSegment(e, c, dir, data)] + Segments(e, c.Advance(dir, n), dir, data[n..])
  }

  /** All segments of a write but the last carry 1460 bytes, and the last one no more. */
  lemma {:induction false} SegmentSizes(e: Ends, c: Counters, dir: Direction, data: seq<Byte>)
    ensures var all := Segments(e, c, dir, data);
            && |all| == (|data| + 1459) / 1460
            && forall i | 0 <= i < |all| :: |all[i].payload| == if i < |all| - 1 then 1460 else |data| - 1460 * i
    decreases |data|
  {
    if data == [] {
      assert Segments(e, c, dir, data) == [];
    } else {
      var n := Chunk(|data|);
      SegmentSizes(e, c.Advance(dir, n), dir, data[n..]);
    }
  }

  // --------------------------------------------------------------- the file

  /** Seconds and microseconds, as they stand in memory. */
  type Stamp = ts: seq<Byte> | |ts| == 8 witness [0, 0, 0, 0, 0, 0, 0, 0]

  /** The header of a capture file: magic number, version, zone, accuracy, longest packet, link type. */
  function FileHeader(order: Order): (h: seq<Byte>)
    ensures |h| == 24
  {
    Store32(order, 0xa1b2c3d4) + Store16(order, 2) + Store16(order, 4)
    + Store32(order, 0) + Store32(order, 0) + Store32(order, 65535) + Store32(order, 101)
  }

  /** A packet in the file: time stamp, length in the file, length on the wire, bytes. */
  function Record(order: Order, ts: Stamp, packet: seq<Byte>): (r: seq<Byte>)
    requires |packet| < TWO32
    ensures |r| == 16 + |packet|
  {
    ts + Store32(order, |packet|) + Store32(order, |packet|) + packet
  }

  /** What became of a record: all of it is in the file, none of it, or its first `kept` bytes. */
  datatype Fate = Stored(ts: Stamp) | Refused | Torn(ts: Stamp, kept: nat)

  /** One segment handed to the file. */
  datatype Attempt = Attempt(dir: Direction, s: Segment, fate: Fate)
  {
    ghost predicate Valid() {
      s.Valid() && (fate.Torn? ==> 0 < fate.kept < 56 + |s.payload|)
    }
  }

  ghost predicate AllValid(log: seq<Attempt>) {
    forall i | 0 <= i < |log| :: log[i].Valid()
  }

  /** What an attempt leaves in the file. */
  ghost function LeftBy(order: Order, a: Attempt): seq<Byte>
    requires a.Valid()
  {
    match a.fate
    case Stored(ts) => Record(order, ts, Packet(order, a.s))
    case Refused => []
    case Torn(ts, kept) => Record(order, ts, Packet(order, a.s))[..kept]
  }

  /** What a sequence of attempts leaves in the file, behind its header. */
  ghost function Contents(order: Order, log: seq<Attempt>): seq<Byte>
    requires AllValid(log)
  {
    if log == [] then [] else Contents(order, log[..|log| - 1]) + LeftBy(order, log[|log| - 1])
  }

  lemma ContentsSnoc(order: Order, log: seq<Attempt>, a: Attempt)
    requires AllValid(log) && a.Valid()
    ensures AllValid(log + [a]) && Contents(order, log + [a]) == Contents(order, log) + LeftBy(order, a)
  {
    assert (log + [a])[..|log|] == log;
  }

  /** The file after a sequence of attempts. */
  ghost function FileOf(order: Order, log: seq<Attempt>): seq<Byte>
    requires AllValid(log)
  {
    FileHeader(order) + Contents(order, log)
  }

  lemma FileGrows(order: Order, log: seq<Attempt>, a: Attempt)
    requires AllValid(log) && a.Valid()
    ensures AllValid(log + [a]) && FileOf(order, log + [a]) == FileOf(order, log) + LeftBy(order, a)
  {
    ContentsSnoc(order, log, a);
    Assoc(FileHeader(order), Contents(order, log), LeftBy(order, a));
  }

  /** The capture file.  It may refuse a record, or take part of it, at any time, and go on. */
  class Writer {
    const order: Order
    var bytes: seq<Byte>
    ghost var log: seq<Attempt>

    ghost predicate Valid()
      reads this
    {
      AllValid(log) && bytes == FileOf(order, log)
    }

    constructor (order: Order)
      ensures Valid() && log == [] && this.order == order
    {
      this.order, bytes, log := order, FileHeader(order), [];
    }

    /** The two writes of one record: headers, and payload. */
    method Put(ts: Stamp, packet: seq<Byte>, ghost dir: Direction, ghost s: Segment) returns (ok: bool, ghost fate: Fate)
      requires Valid() && s.Valid() && packet == Packet(order, s)
      modifies this
      ensures Valid() && log == old(log) + [Attempt(dir, s, fate)]
      ensures ok <==> fate.Stored?
    {
      var record := Record(order, ts, packet);
      var kept: nat :| kept <= |record|;
      bytes := bytes + record[..kept];
      ok := kept == |record|;
      assert ok ==> record[..kept] == record;
      fate := if ok then Stored(ts) else if kept == 0 then Refused else Torn(ts, kept);
      FileGrows(order, log, Attempt(dir, s, fate));
      log := log + [Attempt(dir, s, fate)];
    }
  }

  /** The segments were tried in turn, up to the first that was not stored. */
  ghost predicate Tries(dir: Direction, all: seq<Segment>, tried: seq<Attempt>) {
    && |tried| <= |all|
    && (forall i | 0 <= i < |tried| :: tried[i].dir == dir && tried[i].s == all[i])
    && (forall i | 0 <= i < |tried| - 1 :: tried[i].fate.Stored?)
    && (|tried| == |all| || (tried != [] && !tried[|tried| - 1].fate.Stored?))
  }

  ghost predicate AllStored(log: seq<Attempt>) {
    forall i | 0 <= i < |log| :: log[i].fate.Stored?
  }

  /** The bytes of the segments tried, stored or not, on top of what was sent before. */
  ghost function SentBy(c: Counters, log: seq<Attempt>): Counters {
    if log == [] then c
    else
      var a := log[|log| - 1];
      SentBy(c, log[..|log| - 1]).Advance(a.dir, |a.s.payload|)
  }

  lemma SentBySnoc(c: Counters, log: seq<Attempt>, a: Attempt)
    ensures SentBy(c, log + [a]) == SentBy(c, log).Advance(a.dir, |a.s.payload|)
  {
    assert (log + [a])[..|log|] == log;
  }

  /** The first of the segments were tried and stored, and the others are left. */
  ghost predicate SoFar(dir: Direction, all: seq<Segment>, done: seq<Attempt>, left: seq<Segment>) {
    && AllStored(done) && |done| <= |all| && left == all[|done|..]
    && forall i | 0 <= i < |done| :: done[i].dir == dir && done[i].s == all[i]
  }

  lemma TryNext(dir: Direction, all: seq<Segment>, done: seq<Attempt>, left: seq<Segment>, fate: Fate)
    requires SoFar(dir, all, done, left) && left != []
    ensures var next := done + [Attempt(dir, left[0], fate)];
            && AllStored(next) == (fate.Stored?)
            && if fate.Stored? then SoFar(dir, all, next, left[1..]) else Tries(dir, all, next)
  {
    var next := done + [Attempt(dir, left[0], fate)];
    assert next[|done|].fate == fate;
  }

  ghost predicate Asked(data: seq<Byte>, given: seq<Byte>) {
    data == given
  }

  /** The state of a write: what was tried of the data, and what is left of it. */
  ghost predicate Writing(e: Ends, c: Counters, dir: Direction, data: seq<Byte>, tried: seq<Attempt>, sent: Counters,
                          rest: seq<Byte>)
  {
    // (the quantifier keeps the verifier from taking the predicate apart where it is only passed on)
    forall all | Asked(data, all) ::
      && SoFar(dir, Segments(e, c, dir, all), tried, Segments(e, sent, dir, rest))
      && sent == SentBy(c, tried)
  }

  lemma WriteBegins(e: Ends, c: Counters, dir: Direction, data: seq<Byte>)
    ensures Writing(e, c, dir, data, [], c, data) == true
  {
  }

  lemma WriteGoesOn(e: Ends, c: Counters, dir: Direction, data: seq<Byte>, tried: seq<Attempt>, sent: Counters,
                    rest: seq<Byte>, fate: Fate)
    requires Writing(e, c, dir, data, tried, sent, rest) == true && rest != []
    ensures var n := Chunk(|rest|);
            var next := tried + [Attempt(dir, FirstSegment(e, sent, dir, rest), fate)];
            && sent.Advance(dir, n) == SentBy(c, next)
            && AllStored(next) == (fate.Stored?)
            && if fate.Stored? then Writing(e, c, dir, data, next, sent.Advance(dir, n), rest[n..]) == true
               else Tries(dir, Segments(e, c, dir, data), next) == true
  {
    assert Asked(data, data);
    var all, left := Segments(e, c, dir, data), Segments(e, sent, dir, rest);
    var a := Attempt(dir, FirstSegment(e, sent, dir, rest), fate);
    TryNext(dir, all, tried, left, fate);
    SentBySnoc(c, tried, a);
    assert left[1..] == Segments(e, sent.Advance(dir, Chunk(|rest|)), dir, rest[Chunk(|rest|)..]);
  }

  lemma WriteEnds(e: Ends, c: Counters, dir: Direction, data: seq<Byte>, tried: seq<Attempt>, sent: Counters)
    requires Writing(e, c, dir, data, tried, sent, []) == true
    ensures Tries(dir, Segments(e, c, dir, data), tried) == true && AllStored(tried) && sent == SentBy(c, tried)
  {
    assert Asked(data, data);
  }

  /** Swapping the addresses does not change the sum of the pseudo header. */
  lemma PseudoSum(order: Order, e: Ends, dir: Direction)
    requires e.Valid()
    ensures WordSum(order, PseudoHeader(e.From(dir))) == WordSum(order, PseudoHeader(e))
  {
    var tail: seq<Byte> := [0, 6];
    WordSumConcat(order, e.saddr + e.daddr, tail);
    WordSumConcat(order, e.daddr + e.saddr, tail);
    WordSumConcat(order, e.saddr, e.daddr);
    WordSumConcat(order, e.daddr, e.saddr);
  }

  lemma LogGrows(log: seq<Attempt>, tried: seq<Attempt>, a: Attempt)
    ensures (log + tried) + [a] == log + (tried + [a])
  {
  }

  class Flow {
    const order: Order
    const ends: Ends
    var sseqSum: nat
    var dseqSum: nat
    const pseudoCksum: nat
    /** The bytes sent so far, which the sequence numbers count modulo 2^32. */
    ghost var sent: Counters

    ghost predicate Valid()
      reads this
    {
      && ends.Valid()
      && sseqSum == sent.client % TWO32 && dseqSum == sent.server % TWO32
      && pseudoCksum == Cksum(order, PseudoHeader(ends), 0)
    }

    constructor (order: Order, ends: Ends)
      requires ends.Valid()
      ensures Valid() && this.ends == ends && this.order == order
      ensures sent == Counters(0, 0)
    {
      this.order, this.ends := order, ends;
      sseqSum, dseqSum, sent := 0, 0, Counters(0, 0);
      NoOverflow(order, PseudoHeader(ends), 0);
      var sum := ComputeCksum(order, PseudoHeader(ends), 0);
      pseudoCksum := sum;
    }

    /** The checksum of a segment, from the cached sum of the pseudo header. */
    method SegmentSum(e: Ends, dir: Direction, tcp: seq<Byte>, payload: seq<Byte>) returns (sum: nat)
      requires Valid() && e == ends.From(dir)
      requires |tcp| == 20 && |payload| <= MAX_PACKET
      ensures sum < TWO16
      ensures sum == Cksum(order, PseudoHeader(e) + Store16(BigEndian, |payload| + 20) + (tcp + payload), 0)
    {
      var length := Store16(BigEndian, |payload| + 20);
      sum := pseudoCksum + Load16(order, length[0], length[1]);
      CksumChain(order, tcp, payload, sum);
      PseudoSum(order, ends, dir);
      CksumWord(order, PseudoHeader(e), length, tcp + payload);
      NoOverflow(order, tcp, sum);
      sum := ComputeCksum(order, tcp, sum);
      NoOverflow(order, payload, sum);
      sum := ComputeCksum(order, payload, sum);
    }

    /** The sequence number and the acknowledgement of the next segment. */
    method TakeNumbers(dir: Direction, len: nat) returns (seqno: nat, ack: nat)
      requires Valid()
      modifies this
      ensures Valid() && sent == old(sent).Advance(dir, len)
      ensures seqno == old(sent).Of(dir) % TWO32 && ack == old(sent).Of(Other(dir)) % TWO32
    {
      AddWrapped(sent.Of(dir), len);
      sent := sent.Advance(dir, len);
      if dir == Client {
        seqno, ack := sseqSum, dseqSum;
        sseqSum := (sseqSum + len) % TWO32;
      } else {
        seqno, ack := dseqSum, sseqSum;
        dseqSum := (dseqSum + len) % TWO32;
      }
    }

    /** The header and the checksums of the next packet; the direction's counter moves on. */
    method NextPacket(dir: Direction, payload: seq<Byte>) returns (packet: seq<Byte>, ghost s: Segment)
      requires Valid() && |payload| <= MAX_PACKET
      modifies this
      ensures Valid()
      ensures s == Segment(ends.From(dir), old(sent).Of(dir) % TWO32, old(sent).Of(Other(dir)) % TWO32, payload)
      ensures s.Valid() && packet == Packet(order, s)
      ensures sent == old(sent).Advance(dir, |payload|)
    {
      var e := ends.From(dir);
      var seqno, ack := TakeNumbers(dir, |payload|);
      s := Segment(e, seqno, ack, payload);
      var ipSum := ComputeCksum(order, IpHeader(e, |payload|, [0, 0]), 0);
      NoOverflow(order, IpHeader(e, |payload|, [0, 0]), 0);
      var tcpSum := SegmentSum(e, dir, TcpHeader(e, seqno, ack, [0, 0]), payload);
      packet := Assemble(order, e, seqno, ack, ipSum, tcpSum, payload);
    }

    /** One round: the first segment of what is left is tried; it counts as sent in any case. */
    method WriteSegment(writer: Writer, ts: Stamp, dir: Direction, rest: seq<Byte>) returns (ok: bool, len: nat, ghost fate: Fate)
      requires Valid() && writer.Valid() && writer.order == order && rest != []
      modifies this, writer
      ensures Valid() && writer.Valid() && len == Chunk(|rest|)
      ensures sent == old(sent).Advance(dir, len)
      ensures ok <==> fate.Stored?
      ensures writer.log == old(writer.log) + [Attempt(dir, FirstSegment(ends, old(sent), dir, rest), fate)]
    {
      len := Chunk(|rest|);
      var packet, s := NextPacket(dir, rest[..len]);
      ok, fate := writer.Put(ts, packet, dir, s);
    }

    /**
     Writes the data in segments, up to the first that the file does not take whole.  When
     the file takes them all the result is the size of the data, otherwise -1.  The segment
     that failed counts as sent.
     */
    method WriteData(writer: Writer, ts: Stamp, dir: Direction, data: seq<Byte>) returns (r: int, ghost tried: seq<Attempt>)
      requires Valid() && writer.Valid() && writer.order == order
      modifies this, writer
      ensures Valid() && writer.Valid()
      ensures writer.log == old(writer.log) + tried
      ensures Tries(dir, Segments(ends, old(sent), dir, data), tried) == true
      ensures sent == SentBy(old(sent), tried)
      ensures r == if AllStored(tried) then |data| else -1
    {
      ghost var c := sent;
      tried := [];
      var pos, rest := 0, data;
      WriteBegins(ends, c, dir, data);
      while rest != []
        invariant Valid() && writer.Valid() && pos + |rest| == |data|
        // (comparing with true keeps the verifier from taking the predicate apart)
        invariant Writing(ends, c, dir, data, tried, sent, rest) == true
        invariant writer.log == old(writer.log) + tried
        decreases |rest|
      {
        ghost var now, log := sent, writer.log;
        var ok, len, fate := WriteSegment(writer, ts, dir, rest);
        ghost var a := Attempt(dir, FirstSegment(ends, now, dir, rest), fate);
        WriteGoesOn(ends, c, dir, data, tried, now, rest, fate);
        assert writer.log == log + [a];
        LogGrows(old(writer.log), tried, a);
        tried := tried + [a];
        if !ok {
          return -1, tried;
        }
        pos, rest := pos + len, rest[len..];
      }
      WriteEnds(ends, c, dir, data, tried, sent);
      r := |data|;
    }
  }
}
