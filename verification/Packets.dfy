/**
 TDS packets on the wire: an eight-byte header with type, status and length, and a
 payload (section 2.2.3.1 of [MS-TDS]).
 */
module Packets {
  import opened Bytes

  const PACKET_TYPE: Byte := 0x12
  const MAX := 4096
  const HEADER := 8

  /** A packet; `tail` is the second half of the header, which nobody here looks at. */
  datatype Packet = Packet(status: Byte, tail: seq<Byte>, payload: seq<Byte>)
  {
    ghost predicate Valid() {
      status <= 1 && |tail| == 4 && |payload| <= MAX - HEADER
    }

    function Encode(): (b: seq<Byte>)
      requires |payload| <= MAX - HEADER && |tail| == 4
      ensures |b| == HEADER + |payload|
    {
      [PACKET_TYPE, status] + Store16(BigEndian, HEADER + |payload|) + tail + payload
    }
  }

  datatype Parsed = Whole(len: nat) | TooSmall | TooLarge | Short

  /** What stands at the beginning of a stream. */
  function Parse(s: seq<Byte>): (p: Parsed)
    ensures p.Whole? ==> HEADER <= p.len <= |s| && p.len <= MAX
  {
    if |s| < 4 then Short
    else
      var len := Load16(BigEndian, s[2], s[3]);
      if len < HEADER then TooSmall
      else if len > MAX then TooLarge
      else if |s| < len then Short
      else Whole(len)
  }

  /** The payloads of the whole packets at the beginning of a stream. */
  function Payloads(s: seq<Byte>): seq<Byte>
    decreases |s|
  {
    match Parse(s)
    case Whole(len) => s[HEADER..len] + Payloads(s[len..])
    case _ => []
  }

  /** The payload of the packet at the beginning of a stream. */
  function FirstPayload(s: seq<Byte>): seq<Byte> {
    match Parse(s)
    case Whole(len) => s[HEADER..len]
    case _ => []
  }

  /** Every packet of the stream carries something, and no length field is out of range. */
  predicate WellFormed(s: seq<Byte>)
    decreases |s|
  {
    match Parse(s)
    case Whole(len) => len > HEADER && WellFormed(s[len..])
    case Short => true
    case _ => false
  }

  ghost predicate AllValid(log: seq<Packet>) {
    forall i | 0 <= i < |log| :: log[i].Valid()
  }

  ghost function EncodeAll(log: seq<Packet>): seq<Byte>
    requires AllValid(log)
  {
    if log == [] then [] else EncodeAll(log[..|log| - 1]) + log[|log| - 1].Encode()
  }

  ghost function PayloadOf(log: seq<Packet>): seq<Byte> {
    if log == [] then [] else PayloadOf(log[..|log| - 1]) + log[|log| - 1].payload
  }

  lemma Snoc(log: seq<Packet>, p: Packet)
    requires AllValid(log) && p.Valid()
    ensures AllValid(log + [p])
    ensures EncodeAll(log + [p]) == EncodeAll(log) + p.Encode()
    ensures PayloadOf(log + [p]) == PayloadOf(log) + p.payload
  {
    assert (log + [p])[..|log|] == log;
  }

  /** A packet at the beginning of a stream is recognised, and its payload found. */
  lemma ParseEncoded(p: Packet, rest: seq<Byte>)
    requires p.Valid()
    ensures Parse(p.Encode() + rest) == Whole(HEADER + |p.payload|)
    ensures (p.Encode() + rest)[HEADER..HEADER + |p.payload|] == p.payload
    ensures (p.Encode() + rest)[HEADER + |p.payload|..] == rest
  {
    var l := Store16(BigEndian, HEADER + |p.payload|);
    var s := p.Encode() + rest;
    assert s[2] == l[0] && s[3] == l[1];
  }

  /** The header of a packet: type 0x12, status, and the whole length, high byte first. */
  lemma EncodedHeader(p: Packet)
    requires p.Valid()
    ensures var b := p.Encode();
            && |b| == 8 + |p.payload| <= 4096
            && b[0] == 0x12 && b[1] == p.status && b[2] == |b| / 256 && b[3] == |b| % 256 && b[4..8] == p.tail && b[8..] == p.payload
  {
  }

  lemma PayloadsHead(p: Packet, rest: seq<Byte>)
    requires p.Valid()
    ensures Payloads(p.Encode() + rest) == p.payload + Payloads(rest)
    ensures WellFormed(p.Encode() + rest) <==> p.payload != [] && WellFormed(rest)
  {
    ParseEncoded(p, rest);
  }

  /** Whatever was put in packets can be taken out of the wire again. */
  lemma {:induction false} PayloadsOfWire(log: seq<Packet>, rest: seq<Byte>)
    requires AllValid(log)
    ensures Payloads(EncodeAll(log) + rest) == PayloadOf(log) + Payloads(rest)
    decreases |log|
  {
    if log == [] {
      assert [] + rest == rest;
    } else {
      var front, p := log[..|log| - 1], log[|log| - 1];
      PayloadsOfWire(front, p.Encode() + rest);
      PayloadsHead(p, rest);
      Assoc(EncodeAll(front), p.Encode(), rest);
      Assoc(PayloadOf(front), p.payload, Payloads(rest));
    }
  }

  lemma {:induction false} WellFormedWire(log: seq<Packet>, rest: seq<Byte>)
    requires AllValid(log) && WellFormed(rest)
    requires forall i | 0 <= i < |log| :: log[i].payload != []
    ensures WellFormed(EncodeAll(log) + rest)
    decreases |log|
  {
    if log == [] {
      assert [] + rest == rest;
    } else {
      var front, p := log[..|log| - 1], log[|log| - 1];
      PayloadsHead(p, rest);
      WellFormedWire(front, p.Encode() + rest);
      Assoc(EncodeAll(front), p.Encode(), rest);
    }
  }

  /** A buffer with type and length in place is the encoding of a packet. */
  lemma EncodedBuffer(b: seq<Byte>)
    requires HEADER <= |b| <= MAX && b[0] == PACKET_TYPE && Load16(BigEndian, b[2], b[3]) == |b|
    ensures b == Packet(b[1], b[4..8], b[8..]).Encode()
  {
    var p := Packet(b[1], b[4..8], b[8..]);
    assert Store16(BigEndian, |b|) == [b[2], b[3]];
    assert b == [b[0], b[1]] + [b[2], b[3]] + b[4..8] + b[8..];
  }

  /** Only full packets are marked as not the last of their message. */
  ghost predicate Framed(log: seq<Packet>) {
    forall i | 0 <= i < |log| :: log[i].status == 0 ==> |log[i].payload| == MAX - HEADER
  }

  lemma PayloadsWhole(s: seq<Byte>)
    requires Parse(s).Whole?
    ensures Payloads(s) == s[HEADER..Parse(s).len] + Payloads(s[Parse(s).len..])
  {
  }
}
