/**
 The framing layer of the bounce proxy: bytes pushed by the TLS library are collected
 into TDS packets, and packets from the peer are taken apart for it again.  One buffer
 serves both directions.

 The peer and the network are the `Socket`: how much of a send is taken, how much a
 receive returns, and when an error occurs are all left open.  A result of -1 from push
 or pull stands for the program's exit.
 */
module Framing {
  import opened Bytes
  import opened Packets

  class Socket {
    var input: seq<Byte>
    var output: seq<Byte>
    var failed: bool

    constructor (input: seq<Byte>)
      ensures this.input == input && output == [] && !failed
    {
      this.input, output, failed := input, [], false;
    }

    /** Up to `max` bytes of what is left, 0 at the end of the stream, or an error. */
    method Recv(max: nat) returns (l: int, data: seq<Byte>)
      requires max > 0
      modifies this
      ensures -1 <= l <= max && output == old(output)
      ensures l > 0 ==> l <= |old(input)| && data == old(input)[..l] && input == old(input)[l..]
      ensures l <= 0 ==> input == old(input)
      ensures l == 0 ==> input == []
      ensures failed <==> l < 0 || old(failed)
    {
      l, data := -1, [];
      if * {
        failed := true;
      } else if input == [] {
        l := 0;
      } else {
        var n: nat :| 1 <= n <= max && n <= |input|;
        l, data, input := n, input[..n], input[n..];
      }
    }

    /** Takes some of the bytes, or fails. */
    method Send(bytes: seq<Byte>) returns (l: int)
      requires bytes != []
      modifies this
      ensures l <= |bytes| && input == old(input)
      ensures l > 0 ==> output == old(output) + bytes[..l] && failed == old(failed)
      ensures l <= 0 ==> output == old(output) && failed
    {
      l := -1;
      if * {
        failed := true;
      } else {
        var n: nat :| 1 <= n <= |bytes|;
        l, output := n, output + bytes[..n];
      }
    }
  }

  lemma Pieces(s: seq<Byte>, k: nat, l: nat)
    requires k + l <= |s|
    ensures s[..k] + s[k..][..l] == s[..k + l] && s[k..][l..] == s[k + l..]
  {
  }

  /** Copies the bytes into the buffer. */
  method Fill(packet: array<Byte>, at: nat, data: seq<Byte>)
    requires at + |data| <= packet.Length
    modifies packet
    ensures packet[..at + |data|] == old(packet[..at]) + data
    ensures packet[at + |data|..] == old(packet[at + |data|..])
  {
    for i := 0 to |data|
      invariant packet[..at + i] == old(packet[..at]) + data[..i]
      invariant packet[at + i..] == old(packet[at + i..])
    {
      packet[at + i] := data[i];
      assert packet[..at + i + 1] == packet[..at + i] + [data[i]];
    }
  }

  /** Reads one packet from the socket, in whatever pieces it arrives. */
  method GetPacket(sd: Socket, packet: array<Byte>) returns (r: int)
    requires packet.Length == MAX
    modifies sd, packet
    ensures sd.output == old(sd.output)
    ensures r > 0 ==>
              && Parse(old(sd.input)) == Whole(r) && packet[..r] == old(sd.input)[..r]
              && sd.input == old(sd.input)[r..] && sd.failed == old(sd.failed)
    ensures r == 0 ==> Parse(old(sd.input)) == Short && sd.input == [] && sd.failed == old(sd.failed)
    ensures r < 0 ==> r == -1 && (sd.failed || Parse(old(sd.input)) in {TooSmall, TooLarge})
  {
    var packetLen := 0;
    ghost var s := sd.input;
    while true
      invariant 0 <= packetLen <= |s| && packetLen <= MAX
      invariant packet[..packetLen] == s[..packetLen] && sd.input == s[packetLen..]
      invariant packetLen > 4 ==> Load16(BigEndian, s[2], s[3]) <= MAX && packetLen < Load16(BigEndian, s[2], s[3])
      invariant sd.failed == old(sd.failed) && sd.output == old(sd.output)
      decreases MAX - packetLen
    {
      var fullLen := 4;
      if packetLen >= 4 {
        assert packet[2] == packet[..packetLen][2] && packet[3] == packet[..packetLen][3];
        fullLen := Load16(BigEndian, packet[2], packet[3]);
        if fullLen < 8 {
          return -1;
        }
        if fullLen > 4096 {
          return -1;
        }
      }
      var l, data := sd.Recv(fullLen - packetLen);
      if l <= 0 {
        return if l < 0 then -1 else 0;
      }
      Pieces(s, packetLen, l);
      Fill(packet, packetLen, data);
      assert packet[..packetLen + l] == s[..packetLen + l];
      packetLen := packetLen + l;
      if fullLen >= 8 && packetLen == fullLen {
        break;
      }
    }
    r := packetLen;
  }

  /** Writes a whole packet, in as many sends as it takes. */
  method PutPacket(sd: Socket, packet: array<Byte>, packetLen: nat) returns (r: int)
    requires packetLen <= packet.Length
    modifies sd
    ensures sd.input == old(sd.input)
    ensures r >= 0 ==> r == packetLen && sd.output == old(sd.output) + packet[..packetLen] && sd.failed == old(sd.failed)
    ensures r < 0 ==> r == -1 && sd.failed
  {
    var sent := 0;
    while sent < packetLen
      invariant 0 <= sent <= packetLen
      invariant sd.input == old(sd.input) && sd.output == old(sd.output) + packet[..sent]
      invariant sd.failed == old(sd.failed)
    {
      var l := sd.Send(packet[sent..packetLen]);
      if l <= 0 {
        return -1;
      }
      assert packet[..sent + l] == packet[..sent] + packet[sent..packetLen][..l];
      sent := sent + l;
    }
    r := sent;
  }

  /** What is on the wire and what waits in the buffer make up what was pushed. */
  ghost predicate Accounted(log: seq<Packet>, output: seq<Byte>, buffered: seq<Byte>, pushed: seq<Byte>) {
    && AllValid(log) && Framed(log)
    && output == EncodeAll(log)
    && pushed == PayloadOf(log) + buffered
  }

  /** Packets were added that are not the last of their message. */
  ghost predicate Continues(before: seq<Packet>, after: seq<Packet>) {
    before <= after && forall i | |before| <= i < |after| :: after[i].status == 0
  }

  /** Sending the buffer moves it from one place to the other. */
  lemma SentBuffer(log: seq<Packet>, output: seq<Byte>, pushed: seq<Byte>, b: seq<Byte>)
    requires HEADER <= |b| <= MAX && b[0] == PACKET_TYPE && b[1] <= 1
    requires Load16(BigEndian, b[2], b[3]) == |b|
    requires b[1] == 0 ==> |b| == MAX
    requires Accounted(log, output, b[8..], pushed)
    ensures Accounted(log + [Packet(b[1], b[4..8], b[8..])], output + b, [], pushed)
  {
    EncodedBuffer(b);
    var p := Packet(b[1], b[4..8], b[8..]);
    Snoc(log, p);
    assert PayloadOf(log + [p]) + [] == PayloadOf(log + [p]);
  }

  lemma MoreBuffered(log: seq<Packet>, output: seq<Byte>, buffered: seq<Byte>, pushed: seq<Byte>, data: seq<Byte>)
    requires Accounted(log, output, buffered, pushed)
    ensures Accounted(log, output, buffered + data, pushed + data)
  {
    Assoc(PayloadOf(log), buffered, data);
  }

  lemma Portion(p: seq<Byte>, from: nat, to: nat, n: nat)
    requires from + n <= to <= |p|
    ensures var u := p[from..to];
            p[from..from + n] == u[..n] && p[from + n..to] == u[n..] && u == p[from..from + n] + p[from + n..to]
  {
  }

  class Session {
    const sock: Socket
    const packet: array<Byte>
    var packetLen: nat
    var pos: nat
    var toSend: bool

    /** The packets put on the wire, and all bytes that push has accepted. */
    ghost var log: seq<Packet>

    ghost var pushed: seq<Byte>

    /** Pushed bytes that wait in the buffer. */
    ghost function Buffered(): seq<Byte>
      requires packet.Length == MAX && packetLen <= MAX
      reads this, packet
    {
      if toSend && packetLen >= HEADER then packet[HEADER..packetLen] else []
    }

    /** Bytes of a received packet that were not pulled yet. */
    ghost function Unread(): seq<Byte>
      requires packet.Length == MAX && packetLen <= MAX
      reads this, packet
    {
      if !toSend && pos < packetLen then packet[pos..packetLen] else []
    }

    /** What the next pull can give: the rest of the packet at hand, or else the next packet. */
    ghost function AtHand(): seq<Byte>
      requires packet.Length == MAX && packetLen <= MAX
      reads this, packet, sock
    {
      if Unread() != [] then Unread() else FirstPayload(sock.input)
    }

    /** Everything that can still be pulled. */
    ghost function Pending(): seq<Byte>
      requires packet.Length == MAX && packetLen <= MAX
      reads this, packet, sock
    {
      Unread() + Payloads(sock.input)
    }

    ghost predicate Valid()
      reads this, packet, sock
    {
      && packet.Length == MAX && packetLen <= MAX
      // (comparing with true keeps the verifier from taking the predicate apart)
      && Accounted(log, sock.output, Buffered(), pushed) == true
      && (toSend ==>
            && HEADER <= packetLen && packet[0] == PACKET_TYPE
            && Load16(BigEndian, packet[2], packet[3]) == packetLen)
    }

    constructor (sock: Socket)
      requires sock.output == []
      ensures Valid() && this.sock == sock && fresh(packet)
      ensures log == [] && pushed == [] && Pending() == Payloads(sock.input) && !toSend
    {
      this.sock := sock;
      packet := new Byte[MAX](_ => 0);
      packetLen, pos, toSend, log, pushed := 0, 0, false, [], [];
    }

    /** Puts the buffered packet on the wire. */
    method SendPacket(status: Byte) returns (ok: bool)
      requires Valid() && toSend && status <= 1
      requires status == 0 ==> packetLen == MAX
      modifies this`log, sock, packet
      ensures sock.input == old(sock.input)
      ensures packet[0] == PACKET_TYPE
      ensures !ok ==> sock.failed
      ensures ok ==> sock.failed == old(sock.failed)
      ensures ok ==> log == old(log) + [Packet(status, old(packet[4..8]), old(Buffered()))]
      ensures ok ==> Accounted(log, sock.output, [], pushed) == true
    {
      packet[1] := status;
      assert packet[4..8] == old(packet[4..8]) && packet[..packetLen][8..] == old(packet[8..packetLen]);
      var r := PutPacket(sock, packet, packetLen);
      if r < 0 {
        return false;
      }
      ghost var b := packet[..packetLen];
      assert b[0] == packet[0] && b[1] == status && b[2] == packet[2] && b[3] == packet[3] && b[4..8] == packet[4..8];
      SentBuffer(log, old(sock.output), pushed, b);
      log := log + [Packet(status, b[4..8], b[8..])];
      ok := true;
    }

    /** How many bytes the next push can take. */
    function Room(): int
      reads this
    {
      if !toSend || packetLen == MAX then MAX - HEADER else MAX - packetLen
    }

    /** A full packet goes on the wire as one that is not the last, and the next one is begun. */
    method SendFull() returns (ok: bool)
      requires Valid() && toSend && packetLen == MAX
      modifies this, sock, packet
      ensures !ok ==> sock.failed
      ensures ok ==>
                && packetLen == HEADER && toSend && packet[0] == PACKET_TYPE
                && sock.input == old(sock.input) && sock.failed == old(sock.failed) && pushed == old(pushed)
                && Accounted(log, sock.output, packet[HEADER..packetLen], pushed) == true
                && Continues(old(log), log) == true
    {
      ok := SendPacket(0);
      if ok {
        packetLen := HEADER;
        assert packet[HEADER..packetLen] == [];
      }
    }

    lemma SameLog()
      ensures Continues(log, log) == true
    {
    }

    /** Makes room in the buffer: a new packet is begun, and a full one sent first. */
    method MakeRoom() returns (ok: bool)
      requires Valid()
      modifies this, sock, packet
      ensures !ok ==> sock.failed
      ensures ok ==>
                && HEADER <= packetLen < MAX && MAX - packetLen == old(Room()) && toSend && packet[0] == PACKET_TYPE
                && sock.input == old(sock.input) && sock.failed == old(sock.failed) && pushed == old(pushed)
                && Accounted(log, sock.output, packet[HEADER..packetLen], pushed) == true
                && Continues(old(log), log) == true
    {
      ok := true;
      SameLog();
      if !toSend {
        packetLen := HEADER;
        packet[0] := PACKET_TYPE;
        assert packet[HEADER..packetLen] == [];
        toSend := true;
      } else if packetLen >= MAX {
        ok := SendFull();
      }
    }

    /** Appends to the buffered packet and corrects its length field. */
    method Store(data: seq<Byte>)
      requires packet.Length == MAX && HEADER <= packetLen && packetLen + |data| <= MAX
      requires toSend && packet[0] == PACKET_TYPE
      requires Accounted(log, sock.output, packet[HEADER..packetLen], pushed) == true
      modifies this`packetLen, this`pushed, packet
      ensures Valid() && pushed == old(pushed) + data && |Buffered()| >= |data|
    {
      MoreBuffered(log, sock.output, packet[HEADER..packetLen], pushed, data);
      ghost var before := packet[HEADER..packetLen];
      ghost var start := packetLen;
      Fill(packet, packetLen, data);
      assert packet[HEADER..packetLen + |data|] == packet[..packetLen + |data|][HEADER..] == before + data;
      packetLen := packetLen + |data|;
      packet[2], packet[3] := packetLen / 256, packetLen % 256;
      assert packet[HEADER..packetLen] == before + data;
      pushed := pushed + data;
    }

    /**
     Takes as many of the bytes as fit in the packet, after sending a full one.  What was
     received and not pulled yet is lost; nothing else is.
     */
    method Push(data: seq<Byte>) returns (n: int)
      requires Valid()
      modifies this, sock, packet
      ensures n < 0 ==> n == -1 && sock.failed
      ensures n >= 0 ==>
                && Valid() && toSend && sock.input == old(sock.input) && sock.failed == old(sock.failed)
                && n == (if |data| > old(Room()) then old(Room()) else |data|)
                && pushed == old(pushed) + data[..n] && Continues(old(log), log)
                && old(Pending()) == old(Unread()) + Pending()
                && (n > 0 ==> Buffered() != [])
    {
      var ok := MakeRoom();
      if !ok {
        return -1;
      }
      var left := MAX - packetLen;
      ghost var b := packet[HEADER..packetLen];
      packet[1] := 1;
      assert packet[HEADER..packetLen] == b;
      n := if |data| > left then left else |data|;
      Store(data[..n]);
      assert Unread() == [];
      assert Pending() == Payloads(sock.input);
    }

    /** Sends the buffered packet as the last of its message and leaves the buffer empty. */
    method Flush() returns (ok: bool)
      requires Valid() && toSend
      modifies this, sock, packet
      ensures sock.input == old(sock.input)
      ensures !ok ==> sock.failed
      ensures ok ==>
                && Valid() && !toSend && packetLen == 0 && pushed == old(pushed) && sock.failed == old(sock.failed)
                && log == old(log) + [Packet(1, old(packet[4..8]), old(Buffered()))]
    {
      ok := SendPacket(1);
      packetLen := 0;
      toSend := false;
    }

    /** Gets the next packet from the peer when the last one is used up. */
    method Refill() returns (r: int)
      requires Valid() && !toSend && Unread() == []
      modifies this, sock, packet
      ensures toSend == old(toSend) && pushed == old(pushed) && log == old(log)
      ensures r < 0 ==> sock.failed || Parse(old(sock.input)) in {TooSmall, TooLarge}
      ensures r >= 0 ==> Valid() && sock.failed == old(sock.failed) && Pending() == old(Pending())
      ensures r == 0 ==> Pending() == [] && FirstPayload(old(sock.input)) == [] && Unread() == []
      ensures r > 0 ==> pos <= packetLen && Unread() == FirstPayload(old(sock.input))
      ensures r >= 0 && WellFormed(old(sock.input)) ==> WellFormed(sock.input) && (r > 0 ==> Unread() != [])
    {
      r := GetPacket(sock, packet);
      if r > 0 {
        PayloadsWhole(old(sock.input));
        assert packet[HEADER..r] == packet[..r][HEADER..] == old(sock.input)[HEADER..r];
        packetLen := r;
        pos := HEADER;
      }
    }

    /** Hands out bytes of the packet at hand. */
    method Take(len: nat) returns (data: seq<Byte>)
      requires Valid() && !toSend && pos <= packetLen
      modifies this`pos
      ensures Valid() && data + Pending() == old(Pending())
      ensures |data| == (if len < |old(Unread())| then len else |old(Unread())|)
      ensures data == old(Unread())[..|data|] && Unread() == old(Unread())[|data|..]
    {
      var n := if len > packetLen - pos then packetLen - pos else len;
      data := packet[pos..pos + n];
      Portion(packet[..], pos, packetLen, n);
      ghost var rest := packet[pos + n..packetLen];
      assert Unread() == data + rest;
      Assoc(data, rest, Payloads(sock.input));
      pos := pos + n;
      assert Unread() == rest;
    }

    /**
     Flushes what was pushed, and hands out up to `len` bytes of what the peer sent.  Over
     any sequence of pulls the bytes come out complete and in order.
     */
    method Pull(len: nat) returns (r: int, data: seq<Byte>)
      requires Valid()
      modifies this, sock, packet
      ensures r < 0 ==> r == -1 && (sock.failed || Parse(old(sock.input)) in {TooSmall, TooLarge})
      ensures r >= 0 ==>
                && Valid() && !toSend && r == |data| <= len && sock.failed == old(sock.failed)
                && pushed == old(pushed) && Buffered() == []
                && data + Pending() == old(Pending())
      ensures r >= 0 ==>
                && r == (if len < |old(AtHand())| then len else |old(AtHand())|)
                && data == old(AtHand())[..r] && Unread() == old(AtHand())[r..]
      ensures r >= 0 ==> log == old(log) + (if old(toSend) then [Packet(1, old(packet[4..8]), old(Buffered()))] else [])
      ensures r >= 0 && WellFormed(old(sock.input)) ==>
                WellFormed(sock.input) && (r == 0 && len > 0 ==> Pending() == [])
    {
      data := [];
      if toSend && packetLen >= HEADER {
        var ok := Flush();
        if !ok {
          return -1, [];
        }
      }
      if packetLen == 0 || pos >= packetLen {
        var got := Refill();
        if got == 0 {
          return 0, [];
        }
        if got < 0 {
          return -1, [];
        }
      }
      data := Take(len);
      r := |data|;
    }
  }
}
