/** What the listener does with a segment, by the peer's entry, the flags, the numbers and the
    payload alone. */
module TcpOutcomes {
  import opened Bytes
  import opened Wrappers
  import opened TcpFrame
  import opened TcpConnections

  ghost predicate HasRoom(l: Listener)
  {
    exists k :: 0 <= k < |l.slots| && l.slots[k].None?
  }

  /** Neither opens nor aborts a connection. */
  ghost predicate Plain(i: Incoming)
  {
    !HasFlag(i.segment.flags, RST) && !HasFlag(i.segment.flags, SYN)
  }

  /** The peer is known, and the segment continues exactly where its connection stands. */
  ghost predicate Timely(l: Listener, i: Incoming)
  {
    var e := Entry(l.slots, PeerOf(i));
    e.Some? && i.segment.sequence == e.value.remoteNext && i.segment.acknowledgement == e.value.localNext
  }

  ghost predicate InPhase(l: Listener, i: Incoming, phase: Phase)
  {
    var e := Entry(l.slots, PeerOf(i));
    e.Some? && e.value.phase == phase
  }

  ghost predicate Opens(l: Listener, i: Incoming)
  {
    && HasFlag(i.segment.flags, SYN) && !HasFlag(i.segment.flags, RST)
    && (Entry(l.slots, PeerOf(i)).Some? || HasRoom(l))
  }

  /** The first payload on an open connection. */
  ghost predicate Asks(l: Listener, i: Incoming)
  {
    Plain(i) && i.segment.payloadLength > 0 && InPhase(l, i, Established) && Timely(l, i)
  }

  /** The request that was answered already, once more. */
  ghost predicate Repeats(l: Listener, i: Incoming, payload: seq<byte>)
  {
    var e := Entry(l.slots, PeerOf(i));
    && Plain(i) && i.segment.payloadLength > 0 && e.Some? && e.value.phase != Established && Supported(payload)
    && Plus(i.segment.sequence, Span(i)) == e.value.remoteNext
    && Plus(i.segment.acknowledgement, 109) == e.value.localNext
  }

  /** An acknowledgement without payload. */
  ghost predicate Acknowledges(l: Listener, i: Incoming)
  {
    Plain(i) && i.segment.payloadLength == 0 && HasFlag(i.segment.flags, ACK) && Timely(l, i)
  }

  /** Turned away: no room, an unknown peer, or a request nobody understands. */
  ghost predicate Refused(l: Listener, i: Incoming, payload: seq<byte>)
  {
    var e := Entry(l.slots, PeerOf(i));
    || (HasFlag(i.segment.flags, SYN) && !HasFlag(i.segment.flags, RST) && e.None? && !HasRoom(l))
    || (Plain(i) && e.None?)
    || (Asks(l, i) && !Supported(payload))
  }

  ghost predicate Says(reply: Option<Reply>, kind: EventKind)
  {
    reply.Some? && reply.value.event.Some? && reply.value.event.value.kind == kind
  }

  ghost predicate Sends(reply: Option<Reply>, flags: nat)
  {
    reply.Some? && reply.value.request.flags == flags
  }

  lemma RoomIff(l: Listener)
    ensures HasRoom(l) <==> FirstFree(l.slots).Some?
  {
  }

  /** The listener with another entry for the peer, which has one or gets the first free slot. */
  ghost function With(l: Listener, peer: Peer, c: Option<Connection>): Listener
  {
    var known := Find(l.slots, peer);
    var k := if known.Some? then known else FirstFree(l.slots);
    if k.Some? then Set(l, k.value, c) else l
  }

  lemma EntryWith(l: Listener, peer: Peer, c: Option<Connection>)
    requires Unique(l.slots) && (Entry(l.slots, peer).Some? || HasRoom(l)) && (c.Some? ==> c.value.peer == peer)
    ensures Entry(With(l, peer, c).slots, peer) == c
  {
    hide Find, FirstFree, Unique, Entry;
    EntryIs(l, peer);
    RoomIff(l);
    var known := Find(l.slots, peer);
    var k := if known.Some? then known.value else FirstFree(l.slots).value;
    SetEntry(l, peer, k, c, peer);
  }

  lemma NumbersBack(a: u32, n: nat, b: u32)
    ensures a == Minus(b, n) <==> Plus(a, n) == b
  {
    MinusUndoesPlus(a, n);
    PlusUndoesMinus(b, n);
  }

  // ----- One lemma for each kind of segment

  lemma WhenOpened(l: Listener, i: Incoming, payload: seq<byte>, local: Local, now: nat)
    requires Opens(l, i)
    ensures var peer, first := PeerOf(i), ServerSequence(PeerOf(i));
      Respond(l, i, payload, local, now) ==
      (With(l, peer, Some(Connection(peer, Plus(i.segment.sequence, 1), Plus(first, 1), Established, now))),
       Some(Reply(To(l, local, peer, first, Plus(i.segment.sequence, 1), SYN + ACK, []),
                  Some(Event(Accepted, peer, 0, 0, l.served)))))
  {
    hide Find, FirstFree, ServerSequence, HasFlag, Plus;
    RoomIff(l);
  }

  lemma WhenServed(l: Listener, i: Incoming, payload: seq<byte>, local: Local, now: nat)
    requires Asks(l, i) && Supported(payload)
    ensures var peer, s := PeerOf(i), i.segment;
      var next := Plus(s.sequence, Span(i));
      Respond(l, i, payload, local, now) ==
      (With(l, peer, Some(Connection(peer, next, Plus(s.acknowledgement, 109), FinWait1, now)))
         .(served := Bump(l.served)),
       Some(Reply(To(l, local, peer, s.acknowledgement, next, PSH + ACK + FIN, Response()),
                  Some(Event(Served, peer, s.payloadLength, 108, Bump(l.served))))))
  {
    hide Find, FirstFree, ServerSequence, HasFlag, Plus, Response, Supported;
    PlusTwice(i.segment.sequence, i.segment.payloadLength, FlagBit(i.segment.flags, FIN));
    PlusTwice(i.segment.acknowledgement, 108, 1);
  }

  lemma WhenRepeated(l: Listener, i: Incoming, payload: seq<byte>, local: Local, now: nat)
    requires Repeats(l, i, payload)
    ensures var peer, s := PeerOf(i), i.segment;
      var c := Entry(l.slots, peer).value;
      Respond(l, i, payload, local, now) ==
      (With(l, peer, Some(c.(lastActivity := now))),
       Some(Reply(To(l, local, peer, s.acknowledgement, Plus(s.sequence, Span(i)), PSH + ACK + FIN, Response()), None)))
  {
    hide Find, FirstFree, ServerSequence, HasFlag, Plus, Minus, Response, Supported;
    var c := Entry(l.slots, PeerOf(i)).value;
    NumbersBack(i.segment.sequence, Span(i), c.remoteNext);
    NumbersBack(i.segment.acknowledgement, 109, c.localNext);
    MinusSum(c.localNext, 108, 1);
  }

  lemma WhenAcknowledged(l: Listener, i: Incoming, payload: seq<byte>, local: Local, now: nat)
    requires Acknowledges(l, i)
    ensures var peer, s := PeerOf(i), i.segment;
      var c := Entry(l.slots, peer).value;
      Respond(l, i, payload, local, now) ==
      if HasFlag(s.flags, FIN) then
        (With(l, peer, None).(closed := Bump(l.closed)),
         Some(Reply(To(l, local, peer, s.acknowledgement, Plus(s.sequence, 1), ACK, []), None)))
      else
        (With(l, peer, Some(c.(phase := if c.phase == FinWait1 then FinWait2 else c.phase, lastActivity := now))), None)
  {
    hide Find, FirstFree, ServerSequence, HasFlag, Plus, Response, Supported;
  }

  lemma WhenRefused(l: Listener, i: Incoming, payload: seq<byte>, local: Local, now: nat)
    requires Refused(l, i, payload)
    ensures var peer, s := PeerOf(i), i.segment;
      Respond(l, i, payload, local, now) ==
      (if Asks(l, i) then With(l, peer, None) else l,
       Some(Reply(To(l, local, peer, ServerSequence(peer), Plus(s.sequence, Occupies(i)), RST + ACK, []), None)))
  {
    hide Find, FirstFree, ServerSequence, HasFlag, Plus, Response, Supported;
    RoomIff(l);
    var s := i.segment;
    var len, syn, fin := s.payloadLength, FlagBit(s.flags, SYN), FlagBit(s.flags, FIN);
    PlusTwice(s.sequence, len, syn);
    PlusTwice(s.sequence, len + syn, fin);
  }

  lemma WhenAborted(l: Listener, i: Incoming, payload: seq<byte>, local: Local, now: nat)
    requires HasFlag(i.segment.flags, RST)
    ensures Respond(l, i, payload, local, now) ==
      (if Entry(l.slots, PeerOf(i)).Some? then With(l, PeerOf(i), None) else l, None)
  {
    hide Find, FirstFree, HasFlag;
  }

  ghost predicate Noticed(l: Listener, i: Incoming, payload: seq<byte>)
  {
    || HasFlag(i.segment.flags, RST) || Opens(l, i) || Asks(l, i) || Repeats(l, i, payload)
    || Acknowledges(l, i) || Refused(l, i, payload)
  }

  /** Everything else is ignored. */
  lemma WhenIgnored(l: Listener, i: Incoming, payload: seq<byte>, local: Local, now: nat)
    requires !Noticed(l, i, payload)
    ensures Respond(l, i, payload, local, now) == (l, None)
  {
    hide Find, FirstFree, ServerSequence, HasFlag, Plus, Minus, Response, Supported;
    RoomIff(l);
    var known := Find(l.slots, PeerOf(i));
    if known.Some? {
      var c := l.slots[known.value].value;
      NumbersBack(i.segment.sequence, Span(i), c.remoteNext);
      NumbersBack(i.segment.acknowledgement, 109, c.localNext);
      MinusSum(c.localNext, 108, 1);
    }
  }

  /** Which answer is given, and when there is none. */
  lemma AnswerIff(l: Listener, i: Incoming, payload: seq<byte>, local: Local, now: nat)
    ensures var reply := Respond(l, i, payload, local, now).1;
      && (Says(reply, Accepted) <==> Opens(l, i))
      && (Says(reply, Served) <==> Asks(l, i) && Supported(payload))
      && (Sends(reply, SYN + ACK) <==> Opens(l, i))
      && (Sends(reply, RST + ACK) <==> Refused(l, i, payload))
      && (Sends(reply, ACK) <==> Acknowledges(l, i) && HasFlag(i.segment.flags, FIN))
      && (Sends(reply, PSH + ACK + FIN) <==> (Asks(l, i) && Supported(payload)) || Repeats(l, i, payload))
      && (reply.Some? <==>
            || Opens(l, i) || Asks(l, i) || Repeats(l, i, payload) || Refused(l, i, payload)
            || (Acknowledges(l, i) && HasFlag(i.segment.flags, FIN)))
  {
    hide Respond, Entry, HasFlag, Plus, Response, Supported, ServerSequence, With, HasRoom, Span, Occupies;
    if HasFlag(i.segment.flags, RST) {
      WhenAborted(l, i, payload, local, now);
    } else if Opens(l, i) {
      WhenOpened(l, i, payload, local, now);
    } else if Refused(l, i, payload) {
      WhenRefused(l, i, payload, local, now);
    } else if Asks(l, i) {
      WhenServed(l, i, payload, local, now);
    } else if Repeats(l, i, payload) {
      WhenRepeated(l, i, payload, local, now);
    } else if Acknowledges(l, i) {
      WhenAcknowledged(l, i, payload, local, now);
    } else {
      WhenIgnored(l, i, payload, local, now);
    }
  }

  /** What becomes of the peer's entry. */
  lemma EntryAfter(l: Listener, i: Incoming, payload: seq<byte>, local: Local, now: nat)
    requires Unique(l.slots)
    ensures var peer, s := PeerOf(i), i.segment;
      var e := Entry(l.slots, peer);
      Entry(Respond(l, i, payload, local, now).0.slots, peer) ==
      if HasFlag(s.flags, RST) then None
      else if Opens(l, i) then
        Some(Connection(peer, Plus(s.sequence, 1), Plus(ServerSequence(peer), 1), Established, now))
      else if Asks(l, i) then
        if Supported(payload) then
          Some(Connection(peer, Plus(s.sequence, Span(i)), Plus(s.acknowledgement, 109), FinWait1, now))
        else None
      else if Acknowledges(l, i) then
        if HasFlag(s.flags, FIN) then None
        else Some(e.value.(phase := if e.value.phase == FinWait1 then FinWait2 else e.value.phase, lastActivity := now))
      else if Repeats(l, i, payload) then Some(e.value.(lastActivity := now))
      else e
  {
    hide Respond, Entry, HasFlag, Plus, Response, Supported, ServerSequence, With, HasRoom, Span, Occupies, Unique;
    var peer, s := PeerOf(i), i.segment;
    var e := Entry(l.slots, peer);
    EntryIsPeers(l, peer);
    if HasFlag(s.flags, RST) {
      WhenAborted(l, i, payload, local, now);
      if e.Some? {
        EntryWith(l, peer, None);
      }
    } else if Opens(l, i) {
      WhenOpened(l, i, payload, local, now);
      EntryWith(l, peer, Some(Connection(peer, Plus(s.sequence, 1), Plus(ServerSequence(peer), 1), Established, now)));
    } else if Refused(l, i, payload) {
      WhenRefused(l, i, payload, local, now);
      if Asks(l, i) {
        EntryWith(l, peer, None);
      }
    } else if Asks(l, i) {
      WhenServed(l, i, payload, local, now);
      EntryWith(l, peer,
                Some(Connection(peer, Plus(s.sequence, Span(i)), Plus(s.acknowledgement, 109), FinWait1, now)));
    } else if Acknowledges(l, i) {
      WhenAcknowledged(l, i, payload, local, now);
      EntryWith(l, peer, None);
      var c := e.value;
      EntryWith(l, peer, Some(c.(phase := if c.phase == FinWait1 then FinWait2 else c.phase, lastActivity := now)));
    } else if Repeats(l, i, payload) {
      WhenRepeated(l, i, payload, local, now);
      EntryWith(l, peer, Some(e.value.(lastActivity := now)));
    } else {
      WhenIgnored(l, i, payload, local, now);
    }
  }

  lemma EntryIsPeers(l: Listener, peer: Peer)
    ensures Entry(l.slots, peer).Some? ==> Entry(l.slots, peer).value.peer == peer
  {
    hide Find;
  }

  /** The counters count served requests and closed connections, up to the largest number. */
  lemma CountersAfter(l: Listener, i: Incoming, payload: seq<byte>, local: Local, now: nat)
    ensures var after := Respond(l, i, payload, local, now).0;
      && after.served == (if Asks(l, i) && Supported(payload) then Bump(l.served) else l.served)
      && after.closed == (if Acknowledges(l, i) && HasFlag(i.segment.flags, FIN) then Bump(l.closed) else l.closed)
  {
    hide Respond, Entry, HasFlag, Plus, Response, Supported, ServerSequence, HasRoom, Span, Occupies, Find, FirstFree;
    if HasFlag(i.segment.flags, RST) {
      WhenAborted(l, i, payload, local, now);
    } else if Opens(l, i) {
      WhenOpened(l, i, payload, local, now);
    } else if Refused(l, i, payload) {
      WhenRefused(l, i, payload, local, now);
    } else if Asks(l, i) {
      WhenServed(l, i, payload, local, now);
    } else if Repeats(l, i, payload) {
      WhenRepeated(l, i, payload, local, now);
    } else if Acknowledges(l, i) {
      WhenAcknowledged(l, i, payload, local, now);
    } else {
      WhenIgnored(l, i, payload, local, now);
    }
  }

  // ----- From the first segment to the answer, over a whole run

  /** The step leaves the peer's entry alone: a frame of someone else, or an expiry that does
      not reach it. */
  ghost predicate Aside(x: Input, peer: Peer, c: Connection)
  {
    match x
    case Arrival(i, _, _) => PeerOf(i) != peer
    case Expiry(now) => now - c.lastActivity < IDLE_TIMEOUT
  }

  lemma {:induction false} EntryStays(local: Local, states: seq<Listener>, inputs: seq<Input>, a: nat, b: nat,
                                      peer: Peer, c: Connection)
    requires Run(local, states, inputs) && a <= b < |states| && Entry(states[a].slots, peer) == Some(c)
    requires forall t :: a <= t < b ==> Aside(inputs[t], peer, c)
    ensures Entry(states[b].slots, peer) == Some(c)
    decreases b
  {
    hide Entry, Respond, Unique;
    if a < b {
      EntryStays(local, states, inputs, a, b - 1, peer, c);
      RunsStayUnique(local, states, inputs, b - 1);
      var l, x := states[b - 1], inputs[b - 1];
      assert Aside(x, peer, c);
      match x
      case Arrival(i, payload, now) =>
        RespondIsLocal(l, i, payload, local, now);
        StepKeepsTable(l, PeerOf(i), Respond(l, i, payload, local, now).0, peer);
      case Expiry(now) =>
        ExpireKeepsTable(l, now, peer);
    }
  }

  /** Whatever others do in between, a peer that opened a connection and then sends a request
      within the idle time gets the response. */
  lemma RequestIsServed(local: Local, states: seq<Listener>, inputs: seq<Input>, a: nat, b: nat)
    requires Run(local, states, inputs) && a < b < |inputs| && inputs[a].Arrival? && inputs[b].Arrival?
    requires PeerOf(inputs[b].incoming) == PeerOf(inputs[a].incoming) && Opens(states[a], inputs[a].incoming)
    requires var opening, peer := inputs[a].incoming.segment, PeerOf(inputs[a].incoming);
      forall t :: a < t < b ==>
        Aside(inputs[t], peer, Connection(peer, Plus(opening.sequence, 1), Plus(ServerSequence(peer), 1), Established,
                                          inputs[a].now))
    requires var opening, s := inputs[a].incoming.segment, inputs[b].incoming.segment;
      && Plain(inputs[b].incoming) && s.payloadLength > 0 && Supported(inputs[b].payload)
      && s.sequence == Plus(opening.sequence, 1)
      && s.acknowledgement == Plus(ServerSequence(PeerOf(inputs[a].incoming)), 1)
    ensures var x := inputs[b];
      var reply := Respond(states[b], x.incoming, x.payload, local, x.now).1;
      Says(reply, Served) && reply.value.request.payload == Response()
      && reply.value.request.sequence == x.incoming.segment.acknowledgement
      && reply.value.request.acknowledgement == Plus(x.incoming.segment.sequence, Span(x.incoming))
  {
    hide Respond, Entry, HasFlag, Plus, Response, Supported, ServerSequence, Span, Unique;
    var x, y := inputs[a], inputs[b];
    var peer := PeerOf(x.incoming);
    var c := Connection(peer, Plus(x.incoming.segment.sequence, 1), Plus(ServerSequence(peer), 1), Established, x.now);
    RunsStayUnique(local, states, inputs, a);
    assert states[a + 1] == Respond(states[a], x.incoming, x.payload, local, x.now).0;
    EntryAfter(states[a], x.incoming, x.payload, local, x.now);
    EntryStays(local, states, inputs, a + 1, b, peer, c);
    WhenServed(states[b], y.incoming, y.payload, local, y.now);
  }

  // ----- The texts and the timeout

  /** The bytes of an ASCII text. */
  function Ascii(text: string): (b: seq<byte>)
    requires forall i :: 0 <= i < |text| ==> text[i] as int < 128
  {
    seq(|text|, i requires 0 <= i < |text| => text[i] as int)
  }

  predicate Starts(payload: seq<byte>, text: seq<byte>)
  {
    |payload| >= |text| && forall k :: 0 <= k < |text| ==> payload[k] == text[k]
  }

  /** A request is supported exactly when it starts with one of two methods and a separator. */
  lemma SupportedIff(payload: seq<byte>)
    ensures Supported(payload) <==> Starts(payload, Ascii("GET /")) || Starts(payload, Ascii("HEAD /"))
  {
    assert Ascii("GET /") == [0x47, 0x45, 0x54, 0x20, 0x2F];
    assert Ascii("HEAD /") == [0x48, 0x45, 0x41, 0x44, 0x20, 0x2F];
  }

  lemma HeadText()
    ensures StatusLine() == Ascii("HTTP/1.1 200 OK\r\n")
    ensures ContentType() == Ascii("Content-Type: text/plain\r\n")
  {
  }

  lemma TailText()
    ensures ContentLength() == Ascii("Content-Length: 24\r\n")
    ensures Closing() == Ascii("Connection: close\r\n\r\n")
    ensures Body() == Ascii("codexOS listener online\n")
  {
  }

  /** The response and its announced length, which is that of its body. */
  lemma ResponseText()
    ensures Response() == Ascii("HTTP/1.1 200 OK\r\n") + Ascii("Content-Type: text/plain\r\n")
                        + Ascii("Content-Length: 24\r\n") + Ascii("Connection: close\r\n\r\n")
                        + Ascii("codexOS listener online\n")
    ensures |Body()| == 24
  {
    hide Ascii, StatusLine, ContentType, ContentLength, Closing, Body;
    HeadText();
    TailText();
  }

  /** An expiry ends exactly the connections that have been silent for 3000 ticks. */
  lemma ExpiredIff(l: Listener, now: nat, peer: Peer)
    requires Unique(l.slots)
    ensures var e, after := Entry(l.slots, peer), Expire(l, now);
      && Entry(after.slots, peer) == (if e.Some? && now >= e.value.lastActivity + 3000 then None else e)
      && after.served == l.served && after.closed == l.closed
  {
  }
}
