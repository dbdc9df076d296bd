/**
 An independent reader of capture files.  It takes the byte order from the magic number,
 and then record after record by the lengths in their headers.
 */
module Capture {
  import opened Bytes
  import opened TcpDump

  /** A number of four bytes, the first or the last of them the most significant. */
  function Number(order: Order, s: seq<Byte>): nat
    requires |s| == 4
  {
    if order == BigEndian then 0x1_0000 * Digits(s[0], s[1]) + Digits(s[2], s[3])
    else 0x1_0000 * Digits(s[3], s[2]) + Digits(s[1], s[0])
  }

  lemma NumberIs(order: Order, s: seq<Byte>)
    requires |s| == 4
    ensures Number(order, s) == Load32(order, s)
  {
  }

  /** The packets of a file, and whether the file ended with a whole record. */
  datatype Packets = Packets(packets: seq<seq<Byte>>, whole: bool)

  function ReadRecords(order: Order, s: seq<Byte>): Packets
    decreases |s|
  {
    if s == [] then Packets([], true)
    else if |s| < 16 then Packets([], false)
    else
      var n := Number(order, s[8..12]);
      if |s| < 16 + n then Packets([], false)
      else
        var more := ReadRecords(order, s[16 + n..]);
        Packets([s[16..16 + n]] + more.packets, more.whole)
  }

  /** The header is that of a file of raw IP packets in version 2.4 of the format. */
  predicate HeaderOk(order: Order, h: seq<Byte>)
    requires |h| == 24
  {
    && Number(order, h[0..4]) == 0xa1b2c3d4
    && Number(order, h[4..8]) == (if order == BigEndian then 0x2_0004 else 0x4_0002)
    && Number(order, h[8..12]) == 0 && Number(order, h[12..16]) == 0
    && Number(order, h[16..20]) == 65535 && Number(order, h[20..24]) == 101
  }

  function ReadFile(s: seq<Byte>): Packets {
    if |s| < 24 then Packets([], false)
    else if HeaderOk(BigEndian, s[..24]) then ReadRecords(BigEndian, s[24..])
    else if HeaderOk(LittleEndian, s[..24]) then ReadRecords(LittleEndian, s[24..])
    else Packets([], false)
  }

  lemma StoredNumber(order: Order, n: int)
    requires 0 <= n < 0x1_0000_0000
    ensures Number(order, Store32(order, n)) == n
  {
    LoadStore32(order, n);
    NumberIs(order, Store32(order, n));
  }

  lemma HeaderParts(a: seq<Byte>, b: seq<Byte>, c: seq<Byte>, d: seq<Byte>, e: seq<Byte>, f: seq<Byte>, g: seq<Byte>)
    requires |a| == |d| == |e| == |f| == |g| == 4 && |b| == |c| == 2
    ensures var h := a + b + c + d + e + f + g;
            && h[0..4] == a && h[4..8] == b + c && h[8..12] == d && h[12..16] == e && h[16..20] == f && h[20..24] == g
  {
  }

  lemma Magic()
    ensures Number(BigEndian, Store32(LittleEndian, 0xa1b2c3d4)) != 0xa1b2c3d4
  {
    assert Store16(LittleEndian, 0xc3d4) == [0xd4, 0xc3];
    assert Store32(LittleEndian, 0xa1b2c3d4)[0] == 0xd4;
  }

  lemma Version(order: Order)
    ensures Number(order, Store16(order, 2) + Store16(order, 4)) == if order == BigEndian then 0x2_0004 else 0x4_0002
  {
  }

  lemma WrittenHeader(order: Order)
    ensures HeaderOk(order, FileHeader(order))
    ensures order == LittleEndian ==> !HeaderOk(BigEndian, FileHeader(order))
  {
    var magic, zero, most, link := Store32(order, 0xa1b2c3d4), Store32(order, 0), Store32(order, 65535), Store32(order, 101);
    HeaderParts(magic, Store16(order, 2), Store16(order, 4), zero, zero, most, link);
    StoredNumber(order, 0xa1b2c3d4);
    StoredNumber(order, 0);
    StoredNumber(order, 65535);
    StoredNumber(order, 101);
    Version(order);
    Magic();
  }

  /** The reader finds out the byte order of the machine that wrote the file. */
  lemma ReadHeader(order: Order, s: seq<Byte>)
    ensures ReadFile(FileHeader(order) + s) == ReadRecords(order, s)
  {
    var f := FileHeader(order) + s;
    WrittenHeader(order);
    assert f[..24] == FileHeader(order) && f[24..] == s;
  }

  /** A record's header: time stamp, length in the file, length on the wire. */
  lemma RecordParts(order: Order, ts: Stamp, packet: seq<Byte>)
    requires |packet| < TWO32
    ensures var r := Record(order, ts, packet);
            && r[..8] == ts && Number(order, r[8..12]) == Number(order, r[12..16]) == |packet|
            && r[16..] == packet
  {
    var r := Record(order, ts, packet);
    assert r[8..12] == Store32(order, |packet|) == r[12..16];
    StoredNumber(order, |packet|);
  }

  /** A record at the front is read, and what follows it behind it. */
  lemma ReadRecord(order: Order, ts: Stamp, packet: seq<Byte>, rest: seq<Byte>)
    requires |packet| < TWO32
    ensures var more := ReadRecords(order, rest);
            ReadRecords(order, Record(order, ts, packet) + rest) == Packets([packet] + more.packets, more.whole)
  {
    var r, n := Record(order, ts, packet), |packet|;
    var s := r + rest;
    RecordParts(order, ts, packet);
    assert s[8..12] == r[8..12] && s[16..16 + n] == r[16..] && s[16 + n..] == rest;
  }

  /** A file that ends inside a record is not whole, wherever the record was cut. */
  lemma ReadTorn(order: Order, ts: Stamp, packet: seq<Byte>, k: nat)
    requires |packet| < TWO32 && 0 < k < 16 + |packet|
    ensures ReadRecords(order, Record(order, ts, packet)[..k]) == Packets([], false)
  {
    var r := Record(order, ts, packet);
    RecordParts(order, ts, packet);
    if k >= 16 {
      assert r[..k][8..12] == r[8..12];
    }
  }

  // ------------------------------------------------------------ whole files

  ghost predicate NoneTorn(log: seq<Attempt>) {
    forall i | 0 <= i < |log| :: !log[i].fate.Torn?
  }

  /** The packets of the attempts that were stored. */
  ghost function StoredPackets(order: Order, log: seq<Attempt>): seq<seq<Byte>>
    requires AllValid(log)
  {
    if log == [] then []
    else
      var a := log[|log| - 1];
      StoredPackets(order, log[..|log| - 1]) + (if a.fate.Stored? then [Packet(order, a.s)] else [])
  }

  lemma Regroup(a: seq<seq<Byte>>, b: seq<seq<Byte>>, c: seq<seq<Byte>>)
    ensures (a + b) + c == a + (b + c) && a + [] == a
  {
  }

  /** Up to the first tear, the stored packets are read one for one, whatever follows. */
  lemma {:induction false} ReadContents(order: Order, log: seq<Attempt>, rest: seq<Byte>)
    requires AllValid(log) && NoneTorn(log)
    ensures var more := ReadRecords(order, rest);
            ReadRecords(order, Contents(order, log) + rest)
            == Packets(StoredPackets(order, log) + more.packets, more.whole)
    decreases |log|
  {
    if log == [] {
      assert Contents(order, log) + rest == rest;
      Regroup([], [], ReadRecords(order, rest).packets);
    } else {
      var n := |log| - 1;
      var a, before := log[n], log[..n];
      var left := LeftBy(order, a);
      Assoc(Contents(order, before), left, rest);
      ReadContents(order, before, left + rest);
      if a.fate.Stored? {
        ReadRecord(order, a.fate.ts, Packet(order, a.s), rest);
        Regroup(StoredPackets(order, before), [Packet(order, a.s)], ReadRecords(order, rest).packets);
      } else {
        assert left + rest == rest;
        Regroup(StoredPackets(order, before), [], ReadRecords(order, rest).packets);
      }
    }
  }

  /** Nothing torn: the file is whole and holds exactly the stored packets. */
  lemma WholeFile(order: Order, log: seq<Attempt>)
    requires AllValid(log) && NoneTorn(log)
    ensures ReadFile(FileOf(order, log)) == Packets(StoredPackets(order, log), true)
  {
    ReadHeader(order, Contents(order, log));
    ReadContents(order, log, []);
    assert Contents(order, log) + [] == Contents(order, log);
  }

  /** The last record torn: the stored packets are read, and the file is not whole. */
  lemma TornFile(order: Order, log: seq<Attempt>)
    requires AllValid(log) && log != [] && NoneTorn(log[..|log| - 1]) && log[|log| - 1].fate.Torn?
    ensures ReadFile(FileOf(order, log)) == Packets(StoredPackets(order, log[..|log| - 1]), false)
  {
    var before, a := log[..|log| - 1], log[|log| - 1];
    ReadHeader(order, Contents(order, log));
    ReadContents(order, before, LeftBy(order, a));
    ReadTorn(order, a.fate.ts, Packet(order, a.s), a.fate.kept);
  }

  lemma LastContents(order: Order, log: seq<Attempt>) returns (left: seq<Byte>)
    requires AllValid(log) && log != []
    ensures Contents(order, log) == Contents(order, log[..|log| - 1]) + left
  {
    left := LeftBy(order, log[|log| - 1]);
  }

  lemma ShorterPrefix<T>(s: seq<T>, n: nat)
    requires n < |s|
    ensures s[..|s| - 1][..n] == s[..n]
  {
  }

  /** What later attempts leave stands behind what earlier ones left. */
  lemma {:induction false} ContentsPrefix(order: Order, log: seq<Attempt>, n: nat) returns (more: seq<Byte>)
    requires AllValid(log) && n <= |log|
    ensures Contents(order, log) == Contents(order, log[..n]) + more
  {
    if n == |log| {
      more := [];
      assert log[..n] == log;
    } else {
      var some := ContentsPrefix(order, log[..|log| - 1], n);
      ShorterPrefix(log, n);
      var left := LastContents(order, log);
      Assoc(Contents(order, log[..n]), some, left);
      more := some + left;
    }
  }

  /** In every file, torn anywhere and gone on with: what is before the first tear is read. */
  lemma BeforeTheTear(order: Order, log: seq<Attempt>, n: nat)
    requires AllValid(log) && n <= |log| && NoneTorn(log[..n])
    ensures StoredPackets(order, log[..n]) <= ReadFile(FileOf(order, log)).packets
  {
    var more := ContentsPrefix(order, log, n);
    ReadHeader(order, Contents(order, log));
    ReadContents(order, log[..n], more);
  }
}
