/**
 An independent reader of the dumped packets.  It checks headers and checksums in
 network byte order and puts the two streams together by sequence number, following
 section 3.1 of RFC 791 and sections 3.1 and 3.4 of RFC 9293.  It sees in every packet of
 the writer exactly the segment that was put there.
 */
module TcpReceiver {
  import opened Bytes
  import opened Checksum
  import opened TcpDump

  datatype Streams = Streams(client: seq<Byte>, server: seq<Byte>)
  {
    function Of(dir: Direction): seq<Byte> {
      if dir == Client then client else server
    }

    function Append(dir: Direction, data: seq<Byte>): Streams {
      if dir == Client then Streams(client + data, server) else Streams(client, server + data)
    }

    function Count(): Counters {
      Counters(|client|, |server|)
    }
  }

  datatype Outcome = Accepted(streams: Streams) | Rejected

  /** A number in network order. */
  function Net32(s: seq<Byte>): nat
    requires |s| == 4
  {
    0x1_0000 * Digits(s[0], s[1]) + Digits(s[2], s[3])
  }

  lemma NetNumbers(s: seq<Byte>)
    requires |s| == 4
    ensures Load32(BigEndian, s) == Net32(s) && Load16(BigEndian, s[0], s[1]) == Digits(s[0], s[1])
  {
  }

  /** The words, in network order, add up to all ones. */
  predicate SumsToOnes(data: seq<Byte>) {
    Weighted(data, true) > 0 && Weighted(data, true) % 0xffff == 0
  }

  predicate IpOk(p: seq<Byte>) {
    && 40 <= |p| <= 1500
    && p[0] == 0x45 && p[9] == 6
    && Digits(p[2], p[3]) == |p|
    && SumsToOnes(p[..20])
  }

  predicate TcpOk(p: seq<Byte>) {
    && 40 <= |p| <= 1500
    && p[32] == 0x50
    && SumsToOnes(p[12..20] + [0, 6] + [(|p| - 20) / 256, (|p| - 20) % 256] + p[20..])
  }

  /** The packet goes from one end to the other in the given direction. */
  predicate Addressed(e: Ends, dir: Direction, p: seq<Byte>)
    requires |p| >= 40
  {
    p[12..24] == if dir == Client then e.saddr + e.daddr + e.sport + e.dport else e.daddr + e.saddr + e.dport + e.sport
  }

  /** It continues that direction's stream and acknowledges all of the other one. */
  predicate InSequence(st: Streams, dir: Direction, p: seq<Byte>)
    requires |p| >= 40
  {
    && Net32(p[24..28]) == |st.Of(dir)| % 0x1_0000_0000
    && Net32(p[28..32]) == |st.Of(if dir == Client then Server else Client)| % 0x1_0000_0000
  }

  function Step(e: Ends, st: Streams, p: seq<Byte>): Outcome {
    if !IpOk(p) || !TcpOk(p) then Rejected
    else if Addressed(e, Client, p) && InSequence(st, Client, p) then Accepted(st.Append(Client, p[40..]))
    else if Addressed(e, Server, p) && InSequence(st, Server, p) then Accepted(st.Append(Server, p[40..]))
    else Rejected
  }

  /** Reads the packets one after the other. */
  function Receive(e: Ends, st: Streams, packets: seq<seq<Byte>>): Outcome
    decreases |packets|
  {
    if packets == [] then Accepted(st)
    else match Step(e, st, packets[0])
      case Accepted(st1) => Receive(e, st1, packets[1..])
      case Rejected => Rejected
  }

  // ------------------------------------------------------------- one packet

  lemma Slices(ip: seq<Byte>, tcp: seq<Byte>, payload: seq<Byte>)
    requires |ip| == |tcp| == 20
    ensures var p := ip + tcp + payload;
            p[..20] == ip && p[20..40] == tcp && p[20..] == tcp + payload && p[40..] == payload
  {
  }

  lemma PacketParts(order: Order, s: Segment) returns (ipSum: seq<Byte>, tcpSum: seq<Byte>)
    requires s.Valid()
    ensures |ipSum| == |tcpSum| == 2
    ensures ipSum == Store16(order, 0xffff - IpSum(order, s.e, |s.payload|))
    ensures tcpSum == Store16(order, 0xffff - TcpSum(order, s.e, s.seqno, s.ack, s.payload))
    ensures var p := Packet(order, s);
            && p[..20] == IpHeader(s.e, |s.payload|, ipSum)
            && p[20..40] == TcpHeader(s.e, s.seqno, s.ack, tcpSum)
            && p[20..] == TcpHeader(s.e, s.seqno, s.ack, tcpSum) + s.payload
            && p[40..] == s.payload
  {
    ipSum := Store16(order, 0xffff - IpSum(order, s.e, |s.payload|));
    tcpSum := Store16(order, 0xffff - TcpSum(order, s.e, s.seqno, s.ack, s.payload));
    Slices(IpHeader(s.e, |s.payload|, ipSum), TcpHeader(s.e, s.seqno, s.ack, tcpSum), s.payload);
  }

  lemma IpFields(e: Ends, len: nat, sum: seq<Byte>)
    requires e.Valid() && len <= MAX_PACKET && |sum| == 2
    ensures var h := IpHeader(e, len, sum);
            && h[0] == 0x45 && h[9] == 6
            && Load16(BigEndian, h[2], h[3]) == len + 40
            && h[12..20] == e.saddr + e.daddr
  {
    var b := IpBefore(len);
    var l := Store16(BigEndian, len + 40);
    assert b[2] == l[0] && b[3] == l[1] && b[0] == 0x45 && b[9] == 6;
  }

  lemma TcpFields(e: Ends, seqno: nat, ack: nat, sum: seq<Byte>)
    requires e.Valid() && seqno < TWO32 && ack < TWO32 && |sum| == 2
    ensures var h := TcpHeader(e, seqno, ack, sum);
            && h[..4] == e.sport + e.dport
            && h[4..8] == Store32(BigEndian, seqno) && h[8..12] == Store32(BigEndian, ack)
            && h[12] == 0x50
  {
    var b := TcpBefore(e, seqno, ack);
    var s, a := Store32(BigEndian, seqno), Store32(BigEndian, ack);
    assert b[..4] == e.sport + e.dport;
    assert b[4..8] == s && b[8..12] == a && b[12] == 0x50;
    var h := TcpHeader(e, seqno, ack, sum);
    assert h[..4] == b[..4] && h[4..8] == b[4..8] && h[8..12] == b[8..12];
  }

  lemma IpAccepted(order: Order, s: Segment)
    requires s.Valid()
    ensures IpOk(Packet(order, s))
    ensures Packet(order, s)[12..20] == s.e.saddr + s.e.daddr
  {
    var p, len := Packet(order, s), |s.payload|;
    var ipSum, tcpSum := PacketParts(order, s);
    IpFields(s.e, len, ipSum);
    assert p[0] == p[..20][0] && p[2] == p[..20][2] && p[3] == p[..20][3] && p[9] == p[..20][9];
    assert p[12..20] == p[..20][12..20];
    StoredChecksumVerifies(order, IpBefore(len), s.e.saddr + s.e.daddr, BigEndian);
    AllOnesMeans(p[..20]);
  }

  /** The bytes that the TCP checksum runs over, with the given checksum field. */
  function Covered(s: Segment, sum: seq<Byte>): seq<Byte>
    requires s.Valid() && |sum| == 2
  {
    PseudoHeader(s.e) + Store16(BigEndian, |s.payload| + 20) + (TcpHeader(s.e, s.seqno, s.ack, sum) + s.payload)
  }

  lemma CoveredParts(s: Segment, sum: seq<Byte>)
    requires s.Valid() && |sum| == 2
    ensures var a := PseudoHeader(s.e) + Store16(BigEndian, |s.payload| + 20) + TcpBefore(s.e, s.seqno, s.ack);
            |a| == 28 && Covered(s, sum) == a + sum + ([0, 0] + s.payload)
  {
  }

  lemma TcpChecksumOk(order: Order, s: Segment)
    requires s.Valid()
    ensures Cksum(BigEndian, Covered(s, Store16(order, 0xffff - TcpSum(order, s.e, s.seqno, s.ack, s.payload))), 0)
            == 0xffff
  {
    var a := PseudoHeader(s.e) + Store16(BigEndian, |s.payload| + 20) + TcpBefore(s.e, s.seqno, s.ack);
    var zeros: seq<Byte> := [0, 0];
    CoveredParts(s, zeros);
    CoveredParts(s, Store16(order, 0xffff - TcpSum(order, s.e, s.seqno, s.ack, s.payload)));
    StoredChecksumVerifies(order, a, zeros + s.payload, BigEndian);
  }

  lemma TcpAccepted(order: Order, s: Segment)
    requires s.Valid()
    ensures TcpOk(Packet(order, s))
  {
    var p := Packet(order, s);
    var ipSum, tcpSum := PacketParts(order, s);
    IpAccepted(order, s);
    TcpFields(s.e, s.seqno, s.ack, tcpSum);
    assert p[32] == p[20..40][12];
    TcpChecksumOk(order, s);
    AllOnesMeans(Covered(s, tcpSum));
    assert p[12..20] + [0, 6] == PseudoHeader(s.e);
    var n := |p| - 20;
    assert Store16(BigEndian, n) == [n / 256, n % 256];
    assert p[12..20] + [0, 6] + [n / 256, n % 256] + p[20..] == Covered(s, tcpSum);
  }

  /**
   The bytes of a packet that do not depend on the connection: service type, identification,
   fragment, time to live; flags (ACK), window and urgent pointer.
   */
  lemma HeaderConstants(order: Order, s: Segment)
    requires s.Valid()
    ensures var p := Packet(order, s);
            && p[1] == 0 && p[4..9] == [0x12, 0x34, 0, 0, 64]
            && p[33] == 0x10 && p[34..36] == [0x20, 0] && p[38..40] == [0, 0]
  {
    var p := Packet(order, s);
    var ipSum, tcpSum := PacketParts(order, s);
    var ip, tcp := IpHeader(s.e, |s.payload|, ipSum), TcpHeader(s.e, s.seqno, s.ack, tcpSum);
    assert p[1] == p[..20][1] && p[4..9] == p[..20][4..9];
    assert p[33] == p[20..40][13] && p[34..36] == p[20..40][14..16] && p[38..40] == p[20..40][18..20];
    assert ip[1] == 0 && ip[4..9] == [0x12, 0x34, 0, 0, 64];
    assert tcp[..16] == TcpBefore(s.e, s.seqno, s.ack) && tcp[18..20] == [0, 0];
    assert tcp[13] == tcp[..16][13] && tcp[14..16] == tcp[..16][14..16];
  }

  lemma PacketNumbers(order: Order, s: Segment)
    requires s.Valid()
    ensures var p := Packet(order, s);
            && Net32(p[24..28]) == s.seqno
            && Net32(p[28..32]) == s.ack
            && p[12..24] == s.e.saddr + s.e.daddr + s.e.sport + s.e.dport
            && p[40..] == s.payload
  {
    var p := Packet(order, s);
    var ipSum, tcpSum := PacketParts(order, s);
    IpAccepted(order, s);
    TcpFields(s.e, s.seqno, s.ack, tcpSum);
    assert p[24..28] == p[20..40][4..8] && p[28..32] == p[20..40][8..12] && p[20..24] == p[20..40][..4];
    assert p[12..24] == p[12..20] + p[20..24];
    NetNumbers(p[24..28]);
    NetNumbers(p[28..32]);
    LoadStore32(BigEndian, s.seqno);
    LoadStore32(BigEndian, s.ack);
  }

  lemma FourParts(a: seq<Byte>, b: seq<Byte>, c: seq<Byte>, d: seq<Byte>)
    requires |a| == |b| == 4 && |c| == |d| == 2
    ensures var s := a + b + c + d;
            s[..4] == a && s[4..8] == b && s[8..10] == c && s[10..12] == d
  {
  }

  lemma AddressedMeans(order: Order, e: Ends, s: Segment, dir: Direction)
    requires e.Valid() && s.Valid()
    ensures Addressed(e, dir, Packet(order, s)) <==> s.e == e.From(dir)
  {
    PacketNumbers(order, s);
    var f := e.From(dir);
    FourParts(f.saddr, f.daddr, f.sport, f.dport);
    FourParts(s.e.saddr, s.e.daddr, s.e.sport, s.e.dport);
  }

  /** The segment that continues a direction. */
  function SegmentOf(e: Ends, c: Counters, dir: Direction, payload: seq<Byte>): Segment {
    Segment(e.From(dir), c.Of(dir) % TWO32, c.Of(Other(dir)) % TWO32, payload)
  }

  /** The same reading on segments instead of packets. */
  function StepSegment(e: Ends, st: Streams, s: Segment): Outcome {
    if s == SegmentOf(e, st.Count(), Client, s.payload) then Accepted(st.Append(Client, s.payload))
    else if s == SegmentOf(e, st.Count(), Server, s.payload) then Accepted(st.Append(Server, s.payload))
    else Rejected
  }

  lemma ContinuesMeans(order: Order, e: Ends, st: Streams, s: Segment, dir: Direction)
    requires e.Valid() && s.Valid()
    ensures Addressed(e, dir, Packet(order, s)) && InSequence(st, dir, Packet(order, s))
       <==> s == SegmentOf(e, st.Count(), dir, s.payload)
  {
    AddressedMeans(order, e, s, dir);
    PacketNumbers(order, s);
  }

  /** The reader sees in a packet the segment that was put there, and nothing else. */
  lemma StepIsExact(order: Order, e: Ends, st: Streams, s: Segment)
    requires e.Valid() && s.Valid()
    ensures Step(e, st, Packet(order, s)) == StepSegment(e, st, s)
  {
    IpAccepted(order, s);
    TcpAccepted(order, s);
    PacketNumbers(order, s);
    ContinuesMeans(order, e, st, s, Client);
    ContinuesMeans(order, e, st, s, Server);
  }

  // ------------------------------------------------------------- whole runs

  /** The two ends can be told apart. */
  ghost predicate Distinct(e: Ends) {
    e.saddr != e.daddr || e.sport != e.dport
  }

  lemma AppendTwice(st: Streams, dir: Direction, data: seq<Byte>, n: nat)
    requires n <= |data|
    ensures st.Append(dir, data[..n]).Append(dir, data[n..]) == st.Append(dir, data)
    ensures st.Append(dir, []) == st
  {
    assert data == data[..n] + data[n..];
  }

  datatype Write = Write(ts: Stamp, dir: Direction, data: seq<Byte>)

  /** Everything written in one direction. */
  function Written(writes: seq<Write>, dir: Direction): seq<Byte> {
    if writes == [] then []
    else (if writes[0].dir == dir then writes[0].data else []) + Written(writes[1..], dir)
  }
}
