/**
 One session over any sequence of pushes and pulls, as they alternate during a handshake.
 A pull ends the message that the pushes before it made up; a push discards what was
 received and not pulled.
 */
module SessionRuns {
  import opened Bytes
  import opened Packets
  import opened Framing

  datatype Call = Push(data: seq<Byte>) | Pull(len: nat)

  /** What a call did: bytes accepted and unread bytes discarded, or bytes handed out of those at hand. */
  datatype Event = Pushed(accepted: seq<Byte>, lost: seq<Byte>) | Pulled(bytes: seq<Byte>, hand: seq<Byte>)

  /** A push takes some of the data, if there is any; a pull gives as many bytes as are asked for and at hand. */
  ghost predicate Answers(call: Call, event: Event) {
    match call
    case Push(data) => event.Pushed? && event.accepted <= data && (data != [] ==> event.accepted != [])
    case Pull(len) => event.Pulled? && event.bytes == event.hand[..if len < |event.hand| then len else |event.hand|]
  }

  /** The bytes of a packet that a call leaves unread. */
  ghost function RestOf(event: Event): seq<Byte> {
    if event.Pulled? && |event.bytes| <= |event.hand| then event.hand[|event.bytes|..] else []
  }

  // ----------------------------------------------------------- the way out

  /** What was said: the complete messages, and the one being made up if there is one. */
  datatype Talk = Talk(messages: seq<seq<Byte>>, open: bool, partial: seq<Byte>)
  {
    function Step(event: Event): Talk {
      match event
      case Pushed(accepted, _) => Talk(messages, true, partial + accepted)
      case Pulled(_, _) => if open then Talk(messages + [partial], false, []) else this
    }
  }

  ghost function Said(talk: Talk, events: seq<Event>): Talk {
    if events == [] then talk else Said(talk, events[..|events| - 1]).Step(events[|events| - 1])
  }

  /** The messages that packets make up, and the payload behind the last complete one. */
  ghost function Spoken(log: seq<Packet>): (seq<seq<Byte>>, seq<Byte>) {
    if log == [] then ([], [])
    else
      var (messages, tail) := Spoken(log[..|log| - 1]);
      var p := log[|log| - 1];
      if p.status == 1 then (messages + [tail + p.payload], []) else (messages, tail + p.payload)
  }

  /** The packets on the wire and the buffer say what was said. */
  ghost predicate Agrees(log: seq<Packet>, buffered: seq<Byte>, toSend: bool, talk: Talk) {
    && Spoken(log).0 == talk.messages
    && Spoken(log).1 + buffered == talk.partial
    && toSend == talk.open
    && (!talk.open ==> talk.partial == [])
  }

  /** Packets that do not end a message add their payload to the tail. */
  lemma {:induction false} SpokenOn(a: seq<Packet>, b: seq<Packet>) returns (more: seq<Byte>)
    requires Continues(a, b)
    ensures Spoken(b).0 == Spoken(a).0 && Spoken(b).1 == Spoken(a).1 + more
    ensures PayloadOf(b) == PayloadOf(a) + more
    decreases |b|
  {
    if a == b {
      more := [];
    } else {
      var n := |b| - 1;
      assert a <= b[..n];
      var m := SpokenOn(a, b[..n]);
      more := m + b[n].payload;
      Assoc(Spoken(a).1, m, b[n].payload);
      Assoc(PayloadOf(a), m, b[n].payload);
    }
  }

  lemma Cancel(a: seq<Byte>, b: seq<Byte>, c: seq<Byte>)
    requires a + b == a + c
    ensures b == c
  {
    assert b == (a + b)[|a|..] && c == (a + c)[|a|..];
  }

  /** A push adds what it accepted to the message, wherever the bytes are now. */
  lemma SaidMore(log: seq<Packet>, log1: seq<Packet>, buffered: seq<Byte>, buffered1: seq<Byte>, toSend: bool,
                 talk: Talk, accepted: seq<Byte>, lost: seq<Byte>)
    requires Agrees(log, buffered, toSend, talk) && Continues(log, log1)
    requires PayloadOf(log1) + buffered1 == PayloadOf(log) + buffered + accepted
    ensures Agrees(log1, buffered1, true, talk.Step(Pushed(accepted, lost)))
  {
    var more := SpokenOn(log, log1);
    Assoc(PayloadOf(log), more, buffered1);
    Assoc(PayloadOf(log), buffered, accepted);
    Cancel(PayloadOf(log), more + buffered1, buffered + accepted);
    Assoc(Spoken(log).1, more, buffered1);
    Assoc(Spoken(log).1, buffered, accepted);
  }

  /** A flush ends the message. */
  lemma SaidAll(log: seq<Packet>, p: Packet, toSend: bool, talk: Talk, bytes: seq<Byte>, hand: seq<Byte>)
    requires Agrees(log, if toSend then p.payload else [], toSend, talk) && p.status == 1
    ensures Agrees(log + (if toSend then [p] else []), [], false, talk.Step(Pulled(bytes, hand)))
  {
    if toSend {
      assert (log + [p])[..|log|] == log;
    } else {
      assert log + [] == log;
    }
  }

  // ------------------------------------------------------------ the way in

  /** The received bytes that calls used up: handed out or discarded. */
  ghost function Used(events: seq<Event>): seq<Byte> {
    if events == [] then []
    else
      var e := events[|events| - 1];
      Used(events[..|events| - 1]) + (if e.Pushed? then e.lost else e.bytes)
  }

  ghost function HandedOut(events: seq<Event>): seq<Byte> {
    if events == [] then []
    else
      var e := events[|events| - 1];
      HandedOut(events[..|events| - 1]) + (if e.Pushed? then [] else e.bytes)
  }

  /** A push discards exactly what the call before left unread; a pull goes on with it if there is any. */
  ghost predicate Follows(events: seq<Event>) {
    forall i | 0 < i < |events| ::
      var rest := RestOf(events[i - 1]);
      if events[i].Pushed? then events[i].lost == rest else rest != [] ==> events[i].hand == rest
  }

  lemma EventSnoc(talk: Talk, events: seq<Event>, e: Event)
    ensures Said(talk, events + [e]) == Said(talk, events).Step(e)
    ensures Used(events + [e]) == Used(events) + (if e.Pushed? then e.lost else e.bytes)
    ensures HandedOut(events + [e]) == HandedOut(events) + (if e.Pushed? then [] else e.bytes)
  {
    assert (events + [e])[..|events|] == events;
  }

  // -------------------------------------------------------------- the runs

  /** One call on a session that has said `talk`. */
  method Do(s: Session, call: Call, ghost talk: Talk) returns (ok: bool, bytes: seq<Byte>, ghost event: Event)
    requires s.Valid() && Agrees(s.log, s.Buffered(), s.toSend, talk) == true
    modifies s, s.sock, s.packet
    ensures ok ==>
              && s.Valid() && s.sock.failed == old(s.sock.failed) && Answers(call, event) == true
              && Agrees(s.log, s.Buffered(), s.toSend, talk.Step(event)) == true
              && old(s.Pending()) == (if event.Pushed? then event.lost else event.bytes) + s.Pending()
              && (if event.Pushed? then event.lost == old(s.Unread()) else event.hand == old(s.AtHand()))
              && s.Unread() == RestOf(event)
              && s.toSend == event.Pushed? && bytes == (if event.Pushed? then [] else event.bytes)
    ensures ok && WellFormed(old(s.sock.input)) ==> WellFormed(s.sock.input)
    ensures !ok && WellFormed(old(s.sock.input)) ==> s.sock.failed
  {
    ghost var log, buffered, toSend, lost := s.log, s.Buffered(), s.toSend, s.Unread();
    match call
    case Push(data) =>
      var n := s.Push(data);
      ok, bytes, event := n >= 0, [], Pulled([], []);
      if ok {
        event := Pushed(data[..n], lost);
        SaidMore(log, s.log, buffered, s.Buffered(), toSend, talk, data[..n], lost);
      }
    case Pull(len) =>
      ghost var hand := s.AtHand();
      ghost var p := Packet(1, s.packet[4..8], buffered);
      var r;
      r, bytes := s.Pull(len);
      ok, event := r >= 0, Pulled(bytes, hand);
      if ok {
        SaidAll(log, p, toSend, talk, bytes, hand);
      }
  }

  /** What holds after some of the calls. */
  ghost predicate RunOf(calls: seq<Call>, events: seq<Event>, all: seq<Byte>, pending: seq<Byte>, out: seq<Byte>) {
    && |events| == |calls|
    && (forall i | 0 <= i < |calls| :: Answers(calls[i], events[i]))
    && Follows(events)
    && all == Used(events) + pending
    && out == HandedOut(events)
  }

  lemma NextCall(calls: seq<Call>, events: seq<Event>, all: seq<Byte>, pending: seq<Byte>, out: seq<Byte>,
                 call: Call, e: Event, pending1: seq<Byte>, talk: Talk)
    requires RunOf(calls, events, all, pending, out) && Answers(call, e)
    requires pending == (if e.Pushed? then e.lost else e.bytes) + pending1
    requires events != [] ==>
               var rest := RestOf(events[|events| - 1]);
               if e.Pushed? then e.lost == rest else rest != [] ==> e.hand == rest
    ensures RunOf(calls + [call], events + [e], all, pending1, out + (if e.Pushed? then [] else e.bytes))
  {
    EventSnoc(talk, events, e);
    Assoc(Used(events), if e.Pushed? then e.lost else e.bytes, pending1);
  }

  ghost predicate Made(calls: seq<Call>, these: seq<Call>) {
    calls == these
  }

  /** The whole of it: the calls made, the events, and the session's own state. */
  ghost predicate Going(log: seq<Packet>, buffered: seq<Byte>, toSend: bool, talk: Talk, calls: seq<Call>,
                        events: seq<Event>, all: seq<Byte>, pending: seq<Byte>, out: seq<Byte>, unread: seq<Byte>)
  {
    // (the quantifier keeps the verifier from taking the predicate apart where it is only passed on)
    forall made | Made(calls, made) ::
      && Agrees(log, buffered, toSend, Said(talk, events))
      && RunOf(made, events, all, pending, out)
      && (events != [] ==> unread == RestOf(events[|events| - 1]))
  }

  lemma Start(log: seq<Packet>, buffered: seq<Byte>, toSend: bool, talk: Talk, pending: seq<Byte>, unread: seq<Byte>)
    requires Agrees(log, buffered, toSend, talk)
    ensures Going(log, buffered, toSend, talk, [], [], pending, pending, [], unread) == true
  {
    assert [] + pending == pending;
  }

  lemma Finish(log: seq<Packet>, buffered: seq<Byte>, toSend: bool, talk: Talk, calls: seq<Call>,
               events: seq<Event>, all: seq<Byte>, pending: seq<Byte>, out: seq<Byte>, unread: seq<Byte>)
    requires Going(log, buffered, toSend, talk, calls, events, all, pending, out, unread) == true
    ensures Agrees(log, buffered, toSend, Said(talk, events)) == true
    ensures RunOf(calls, events, all, pending, out) == true
  {
    assert Made(calls, calls);
  }

  /** The next call of a run. */
  method DoNext(s: Session, call: Call, ghost calls: seq<Call>, ghost talk: Talk, ghost all: seq<Byte>,
                ghost events: seq<Event>, out: seq<Byte>)
    returns (ok: bool, out1: seq<Byte>, ghost events1: seq<Event>)
    requires s.Valid()
    requires Going(s.log, s.Buffered(), s.toSend, talk, calls, events, all, s.Pending(), out, s.Unread()) == true
    modifies s, s.sock, s.packet
    ensures ok ==>
              && s.Valid() && s.sock.failed == old(s.sock.failed)
              && Going(s.log, s.Buffered(), s.toSend, talk, calls + [call], events1, all, s.Pending(), out1, s.Unread()) == true
    ensures ok && WellFormed(old(s.sock.input)) ==> WellFormed(s.sock.input)
    ensures !ok && WellFormed(old(s.sock.input)) ==> s.sock.failed
  {
    assert Made(calls, calls);
    ghost var pending, open, now := s.Pending(), s.toSend, Said(talk, events);
    ghost var e;
    var bytes;
    ok, bytes, e := Do(s, call, now);
    events1, out1 := events + [e], out + bytes;
    if ok {
      EventSnoc(talk, events, e);
      NextCall(calls, events, all, pending, out, call, e, s.Pending(), talk);
    }
  }

  /**
   Any sequence of pushes and pulls.  The bytes handed out are those received, in order,
   less exactly what pushes discarded; and the packets on the wire and the buffer hold the
   accepted bytes, one message for each group of pushes that a pull ended.
   */
  method RunSession(s: Session, calls: seq<Call>, ghost talk: Talk)
    returns (ok: bool, out: seq<Byte>, ghost events: seq<Event>)
    requires s.Valid() && Agrees(s.log, s.Buffered(), s.toSend, talk) == true
    modifies s, s.sock, s.packet
    ensures !ok && WellFormed(old(s.sock.input)) ==> s.sock.failed
    ensures ok ==> s.Valid() && s.sock.failed == old(s.sock.failed)
    ensures ok ==> RunOf(calls, events, old(s.Pending()), s.Pending(), out) == true
    ensures ok ==> Agrees(s.log, s.Buffered(), s.toSend, Said(talk, events)) == true
  {
    ghost var all := s.Pending();
    out, events, ok := [], [], true;
    Start(s.log, s.Buffered(), s.toSend, talk, all, s.Unread());
    assert calls[..0] == [];
    var i := 0;
    while i < |calls|
      invariant 0 <= i <= |calls|
      invariant s.Valid() && s.sock.failed == old(s.sock.failed)
      invariant WellFormed(old(s.sock.input)) ==> WellFormed(s.sock.input)
      // (comparing with true keeps the verifier from taking the predicate apart)
      invariant Going(s.log, s.Buffered(), s.toSend, talk, calls[..i], events, all, s.Pending(), out, s.Unread()) == true
    {
      NextPrefix(calls, i);
      ok, out, events := DoNext(s, calls[i], calls[..i], talk, all, events, out);
      if !ok {
        return;
      }
      i := i + 1;
    }
    assert calls[..i] == calls;
    Finish(s.log, s.Buffered(), s.toSend, talk, calls, events, all, s.Pending(), out, s.Unread());
    ok := true;
  }

  // ---------------------------------------------------------- two sessions

  ghost function Flatten(messages: seq<seq<Byte>>): seq<Byte> {
    if messages == [] then [] else Flatten(messages[..|messages| - 1]) + messages[|messages| - 1]
  }

  lemma FlattenSnoc(messages: seq<seq<Byte>>, m: seq<Byte>)
    ensures Flatten(messages + [m]) == Flatten(messages) + m
  {
    assert (messages + [m])[..|messages|] == messages;
  }

  /** The payloads of packets are the messages they make up, and the tail. */
  lemma {:induction false} PayloadIsSpoken(log: seq<Packet>)
    ensures PayloadOf(log) == Flatten(Spoken(log).0) + Spoken(log).1
  {
    if log == [] {
      assert PayloadOf(log) == [];
    } else {
      var n := |log| - 1;
      var (messages, tail) := Spoken(log[..n]);
      PayloadIsSpoken(log[..n]);
      Assoc(Flatten(messages), tail, log[n].payload);
      FlattenSnoc(messages, tail + log[n].payload);
      assert Flatten(messages + [tail + log[n].payload]) + [] == Flatten(messages + [tail + log[n].payload]);
    }
  }

  /** What the wire of a session carries, with what still waits in its buffer, is what it said. */
  lemma WireSays(log: seq<Packet>, output: seq<Byte>, buffered: seq<Byte>, pushed: seq<Byte>, toSend: bool, talk: Talk)
    requires Accounted(log, output, buffered, pushed) && Agrees(log, buffered, toSend, talk)
    ensures Payloads(output) + buffered == Flatten(talk.messages) + talk.partial
  {
    PayloadsOfWire(log, []);
    assert EncodeAll(log) + [] == EncodeAll(log) && Payloads([]) == [];
    assert PayloadOf(log) + [] == PayloadOf(log);
    PayloadIsSpoken(log);
    Assoc(Flatten(talk.messages), Spoken(log).1, buffered);
  }

  ghost function Silence(): Talk {
    Talk([], false, [])
  }

  lemma StartSilent(log: seq<Packet>, buffered: seq<Byte>, toSend: bool)
    requires log == [] && buffered == [] && !toSend
    ensures Agrees(log, buffered, toSend, Silence()) == true
  {
  }

  /** Any calls on a new session with the given bytes coming in. */
  method RunNew(input: seq<Byte>, calls: seq<Call>)
    returns (ok: bool, out: seq<Byte>, sock: Socket, ghost events: seq<Event>, ghost pending: seq<Byte>, ghost unsent: seq<Byte>)
    ensures ok ==> !sock.failed
    ensures !ok && WellFormed(input) ==> sock.failed
    ensures ok ==> RunOf(calls, events, Payloads(input), pending, out) == true
    ensures ok ==>
              var talk := Said(Silence(), events);
              Payloads(sock.output) + unsent == Flatten(talk.messages) + talk.partial && (!talk.open ==> unsent == [])
  {
    sock := new Socket(input);
    var s := new Session(sock);
    StartSilent(s.log, s.Buffered(), s.toSend);
    ok, out, events := RunSession(s, calls, Silence());
    pending, unsent := [], [];
    if ok {
      pending, unsent := s.Pending(), s.Buffered();
      WireSays(s.log, sock.output, s.Buffered(), s.pushed, s.toSend, Said(Silence(), events));
    }
  }

  /**
   Two sessions, the second fed with the wire of the first, with any calls on both.  What
   the second one handed out, discarded and has still to hand out, and what the first one
   has not sent yet, are together what the first one said: its messages in order, and the
   one being made up.
   */
  method Talking(input: seq<Byte>, calls: seq<Call>, others: seq<Call>)
    returns (ok: bool, out: seq<Byte>, there: Socket, here: Socket,
             ghost said: seq<Event>, ghost heard: seq<Event>, ghost pending: seq<Byte>, ghost unsent: seq<Byte>)
    ensures ok ==> !there.failed && !here.failed
    ensures !ok && WellFormed(input) && WellFormed(there.output) ==> there.failed || here.failed
    ensures ok ==> |said| == |calls| && |heard| == |others| && out == HandedOut(heard)
    ensures ok ==>
              var talk := Said(Silence(), said);
              && (Used(heard) + pending) + unsent == Flatten(talk.messages) + talk.partial
              && (!talk.open ==> unsent == [])
  {
    ghost var left, more;
    ok, out, there, said, left, unsent := RunNew(input, calls);
    heard, pending := [], [];
    if ok {
      ok, out, here, heard, pending, more := RunNew(there.output, others);
    } else {
      here := new Socket([]);
    }
  }
}
