/**
 Whole messages through the framing layer: what one side pushes in any portions, the
 other side pulls in any portions, with the wire cut up in any way.
 */
module FramingRuns {
  import opened Bytes
  import opened Packets
  import opened Framing

  /** All packets but the last are full and marked as continued; none is empty. */
  ghost predicate OneMessage(packets: seq<Packet>) {
    && packets != []
    && (forall i | 0 <= i < |packets| - 1 :: packets[i].status == 0 && |packets[i].payload| == 4088)
    && packets[|packets| - 1].status == 1
    && packets[|packets| - 1].payload != []
  }

  /** Of a portion of the rest, as much was pushed as there was room for. */
  lemma PushedPart(pushed: seq<Byte>, rest: seq<Byte>, k: nat, room: nat)
    requires k <= |rest|
    ensures var n := if k > room then room else k;
            pushed + rest == pushed + rest[..k][..n] + rest[n..]
  {
    var n := if k > room then room else k;
    assert rest[..k][..n] == rest[..n];
  }

  lemma ContinuesOn(a: seq<Packet>, b: seq<Packet>, c: seq<Packet>)
    requires Continues(a, b) && Continues(b, c)
    ensures Continues(a, c)
  {
  }

  /** Pushes a message, in portions of any sizes, until all of it is accepted. */
  method PushAll(s: Session, data: seq<Byte>) returns (ok: bool)
    requires s.Valid() && !s.toSend && data != []
    modifies s, s.sock, s.packet
    ensures !ok ==> s.sock.failed
    ensures ok ==>
              && s.Valid() && s.toSend && s.Buffered() != [] && s.pushed == old(s.pushed) + data
              && s.sock.failed == old(s.sock.failed) && Continues(old(s.log), s.log)
  {
    var rest := data;
    while rest != []
      invariant s.Valid() && s.sock.failed == old(s.sock.failed)
      invariant Continues(old(s.log), s.log) == true
      invariant s.pushed + rest == old(s.pushed) + data
      invariant rest != data ==> s.toSend && s.Buffered() != []
      decreases |rest|
    {
      var k: nat :| 0 < k <= |rest|;
      ghost var before := s.log;
      PushedPart(s.pushed, rest, k, s.Room());
      var n := s.Push(rest[..k]);
      if n < 0 {
        return false;
      }
      ContinuesOn(old(s.log), before, s.log);
      rest := rest[n..];
    }
    ok := true;
  }

  lemma LastPacketEnds(log0: seq<Packet>, log: seq<Packet>)
    requires |log0| < |log| && Framed(log)
    requires Continues(log0, log[..|log| - 1])
    requires log[|log| - 1].status == 1 && log[|log| - 1].payload != []
    ensures log0 <= log && OneMessage(log[|log0|..])
  {
    var n, last := |log| - 1, log[|log0|..];
    forall i | 0 <= i < |last| - 1
      ensures last[i].status == 0 && |last[i].payload| == 4088
    {
      assert last[i] == log[..n][|log0| + i];
    }
  }

  /** Pushes a whole message and flushes. */
  method SendMessage(s: Session, data: seq<Byte>) returns (ok: bool)
    requires s.Valid() && !s.toSend && data != []
    modifies s, s.sock, s.packet
    ensures !ok ==> s.sock.failed
    ensures ok ==>
              && s.Valid() && !s.toSend && s.pushed == old(s.pushed) + data
              && s.sock.failed == old(s.sock.failed)
              && old(s.log) <= s.log && OneMessage(s.log[|old(s.log)|..])
  {
    ok := PushAll(s, data);
    if ok {
      ok := s.Flush();
    }
    if ok {
      LastPacketEnds(old(s.log), s.log);
    }
  }

  /** Pulls in portions of any size until a pull gives nothing. */
  method ReceiveAll(s: Session) returns (out: seq<Byte>, ok: bool)
    requires s.Valid() && WellFormed(s.sock.input)
    modifies s, s.sock, s.packet
    ensures ok ==> out == old(s.Pending()) && s.sock.failed == old(s.sock.failed)
    ensures !ok ==> s.sock.failed
  {
    out, ok := [], true;
    ghost var all := s.Pending();
    var more := true;
    while more
      invariant s.Valid() && WellFormed(s.sock.input) && s.sock.failed == old(s.sock.failed)
      invariant out + s.Pending() == all
      invariant !more ==> s.Pending() == []
      decreases more, |s.Pending()|
    {
      var len: nat :| len > 0;
      var r, data := s.Pull(len);
      if r < 0 {
        ok := false;
        return;
      }
      Assoc(out, data, s.Pending());
      out := out + data;
      more := r > 0;
    }
    assert out + [] == out;
  }

  /** What went into a fresh session and was flushed is what the wire carries. */
  lemma WireCarries(log: seq<Packet>, output: seq<Byte>, pushed: seq<Byte>)
    requires Accounted(log, output, [], pushed) && OneMessage(log)
    ensures Payloads(output) == pushed && WellFormed(output)
  {
    PayloadsOfWire(log, []);
    WellFormedWire(log, []);
    assert output + [] == output;
    assert PayloadOf(log) + [] == PayloadOf(log);
    assert Payloads([]) == [];
  }

  /** Sends a message over a new connection; what the wire then carries is the message. */
  method SendTo(data: seq<Byte>) returns (ok: bool, there: Socket)
    requires data != []
    ensures ok <==> !there.failed
    ensures ok ==> Payloads(there.output) == data && WellFormed(there.output)
  {
    there := new Socket([]);
    var sender := new Session(there);
    ok := SendMessage(sender, data);
    if ok {
      assert sender.log[0..] == sender.log;
      WireCarries(sender.log, there.output, sender.pushed);
    }
  }

  /** Receives all that a wire carries. */
  method ReceiveFrom(wire: seq<Byte>) returns (out: seq<Byte>, ok: bool, here: Socket)
    requires WellFormed(wire)
    ensures ok <==> !here.failed
    ensures ok ==> out == Payloads(wire)
  {
    here := new Socket(wire);
    var receiver := new Session(here);
    out, ok := ReceiveAll(receiver);
  }

  /**
   A message from one end to the other.  Unless a socket fails, the receiver gets exactly
   the bytes that were sent, in order.
   */
  method Deliver(data: seq<Byte>) returns (out: seq<Byte>, ok: bool, there: Socket, here: Socket)
    requires data != []
    ensures ok <==> !there.failed && !here.failed
    ensures ok ==> out == data
  {
    out := [];
    ok, there := SendTo(data);
    if ok {
      out, ok, here := ReceiveFrom(there.output);
    } else {
      here := new Socket([]);
    }
  }
}
