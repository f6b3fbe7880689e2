/** The listener object: an array of eight connection slots updated frame by frame. */
module TcpListener {
  import opened Bytes
  import opened Wrappers
  import opened TcpFrame
  import opened TcpConnections

  /** A frame to transmit, and what the server reports about it. */
  datatype Action = Action(frame: seq<byte>, event: Option<Event>)

  function ActionOf(r: Reply): Action
    requires |r.request.payload| <= MAX_PAYLOAD
  {
    Action(SentBytes(r.request), r.event)
  }

  /** Every answer carries nothing or the fixed response, so it always fits a frame. */
  lemma AnswersFit(l: Listener, i: Incoming, payload: seq<byte>, local: Local, now: nat)
    ensures var reply := Respond(l, i, payload, local, now).1;
      reply.Some? ==> |reply.value.request.payload| <= MAX_PAYLOAD
  {
    hide Find, FirstFree, Response, ServerSequence, Supported, HasFlag, Plus, Minus;
  }

  class TcpServer {
    const port: u16
    const connections: array<Option<Connection>>
    var served: nat
    var closed: nat

    ghost predicate Shaped()
    {
      connections.Length == CAPACITY
    }

    ghost function View(): Listener
      reads this, connections
    {
      Listener(port, connections[..], served, closed)
    }

    constructor (port: u16)
      ensures Shaped() && fresh(connections) && View() == Listener(port, seq(CAPACITY, _ => None), 0, 0)
    {
      this.port := port;
      connections := new Option<Connection>[CAPACITY](_ => None);
      served := 0;
      closed := 0;
      new;
      assert connections[..] == seq(CAPACITY, _ => None);
    }

    method ConnectionIndex(peer: Peer) returns (r: Option<nat>)
      requires Shaped()
      ensures r == Find(connections[..], peer)
    {
      var k := 0;
      while k < connections.Length
        invariant k <= connections.Length
        invariant forall j :: 0 <= j < k ==> !Is(connections[j], peer)
      {
        if Is(connections[k], peer) {
          assert connections[..][k] == connections[k];
          return Some(k);
        }
        k := k + 1;
      }
      assert forall j :: 0 <= j < CAPACITY ==> connections[..][j] == connections[j];
      return None;
    }

    method FreeIndex() returns (r: Option<nat>)
      requires Shaped()
      ensures r == FirstFree(connections[..])
    {
      var k := 0;
      while k < connections.Length
        invariant k <= connections.Length
        invariant forall j :: 0 <= j < k ==> connections[j].Some?
      {
        if connections[k].None? {
          assert connections[..][k] == connections[k];
          return Some(k);
        }
        k := k + 1;
      }
      assert forall j :: 0 <= j < CAPACITY ==> connections[..][j] == connections[j];
      return None;
    }

    method Transmit(request: Request, event: Option<Event>) returns (a: Action)
      requires |request.payload| <= MAX_PAYLOAD
      ensures a == ActionOf(Reply(request, event))
    {
      hide SentBytes;
      var length, frame := BuildTcpFrame(request);
      a := Action(frame[..length.value], event);
    }

    method SendReset(i: Incoming, local: Local) returns (a: Action)
      requires Shaped()
      ensures a == ActionOf(Reset(View(), i, local))
    {
      hide SentBytes, Plus, HasFlag, ServerSequence;
      var s := i.segment;
      var acknowledgement := Plus(Plus(Plus(s.sequence, s.payloadLength), FlagBit(s.flags, SYN)),
                                  FlagBit(s.flags, FIN));
      var peer := PeerOf(i);
      a := Transmit(
        Request(local.mac, peer.mac, local.address, peer.address, port, peer.port, ServerSequence(peer),
                acknowledgement, RST + ACK, []),
        None);
    }

    method Accept(i: Incoming, local: Local, now: nat) returns (a: Action)
      requires Shaped()
      modifies this, connections
      ensures AcceptSyn(old(View()), i, local, now).1.Some?
      ensures |AcceptSyn(old(View()), i, local, now).1.value.request.payload| <= MAX_PAYLOAD
      ensures View() == AcceptSyn(old(View()), i, local, now).0
      ensures a == ActionOf(AcceptSyn(old(View()), i, local, now).1.value)
    {
      hide SentBytes, Plus, HasFlag, ServerSequence, Find, FirstFree;
      var peer := PeerOf(i);
      var slot := ConnectionIndex(peer);
      if slot.None? {
        slot := FreeIndex();
      }
      if slot.None? {
        a := SendReset(i, local);
        return;
      }
      var sequence := ServerSequence(peer);
      var remoteNext := Plus(i.segment.sequence, 1);
      a := Transmit(
        Request(local.mac, peer.mac, local.address, peer.address, port, peer.port, sequence, remoteNext, SYN + ACK, []),
        Some(Event(Accepted, peer, 0, 0, served)));
      ghost var before := connections[..];
      connections[slot.value] := Some(Connection(peer, remoteNext, Plus(sequence, 1), Established, now));
      assert connections[..] ==
        before[slot.value := Some(Connection(peer, remoteNext, Plus(sequence, 1), Established, now))];
    }

    method ControlSegment(k: nat, c: Connection, i: Incoming, local: Local, now: nat) returns (a: Option<Action>)
      requires Shaped() && k < CAPACITY
      modifies this, connections
      ensures View() == HandleControl(old(View()), k, c, i, local, now).0
      ensures var r := HandleControl(old(View()), k, c, i, local, now).1;
        if r.None? then a.None? else |r.value.request.payload| <= MAX_PAYLOAD && a == Some(ActionOf(r.value))
    {
      hide SentBytes, Plus, HasFlag;
      var s := i.segment;
      ghost var before := connections[..];
      if !HasFlag(s.flags, ACK) || s.acknowledgement != c.localNext || s.sequence != c.remoteNext {
        return None;
      }
      if HasFlag(s.flags, FIN) {
        connections[k] := None;
        assert connections[..] == before[k := None];
        closed := Bump(closed);
        var action := Transmit(
          Request(local.mac, c.peer.mac, local.address, c.peer.address, port, c.peer.port, c.localNext,
                  Plus(c.remoteNext, 1), ACK, []),
          None);
        return Some(action);
      }
      var updated := c.(lastActivity := now);
      if c.phase == FinWait1 {
        updated := updated.(phase := FinWait2);
      }
      connections[k] := Some(updated);
      assert connections[..] == before[k := Some(updated)];
      return None;
    }

    method RetransmitResponse(k: nat, c: Connection, i: Incoming, payload: seq<byte>, local: Local, now: nat)
      returns (a: Option<Action>)
      requires Shaped() && k < CAPACITY
      modifies connections
      ensures View() == Retransmit(old(View()), k, c, i, payload, local, now).0
      ensures var r := Retransmit(old(View()), k, c, i, payload, local, now).1;
        if r.None? then a.None? else |r.value.request.payload| <= MAX_PAYLOAD && a == Some(ActionOf(r.value))
    {
      hide SentBytes, Minus, HasFlag, Supported, Response;
      var s := i.segment;
      var requestSequence := Minus(c.remoteNext, Span(i));
      var responseSequence := Minus(Minus(c.localNext, |Response()|), 1);
      if !Supported(payload) || s.sequence != requestSequence || s.acknowledgement != responseSequence {
        return None;
      }
      var action := Transmit(
        Request(local.mac, c.peer.mac, local.address, c.peer.address, port, c.peer.port, responseSequence,
                c.remoteNext, PSH + ACK + FIN, Response()),
        None);
      ghost var before := connections[..];
      connections[k] := Some(c.(lastActivity := now));
      assert connections[..] == before[k := Some(c.(lastActivity := now))];
      return Some(action);
    }

    method ServeRequest(k: nat, c: Connection, i: Incoming, payload: seq<byte>, local: Local, now: nat)
      returns (a: Option<Action>)
      requires Shaped() && k < CAPACITY
      modifies this, connections
      ensures View() == Serve(old(View()), k, c, i, payload, local, now).0
      ensures var r := Serve(old(View()), k, c, i, payload, local, now).1;
        if r.None? then a.None? else |r.value.request.payload| <= MAX_PAYLOAD && a == Some(ActionOf(r.value))
    {
      hide SentBytes, Plus, HasFlag, Supported, Response, ServerSequence;
      var s := i.segment;
      ghost var before := connections[..];
      if s.acknowledgement != c.localNext || s.sequence != c.remoteNext {
        return None;
      }
      if !Supported(payload) {
        connections[k] := None;
        assert connections[..] == before[k := None];
        var refusal := SendReset(i, local);
        return Some(refusal);
      }
      var remoteNext := Plus(Plus(c.remoteNext, s.payloadLength), FlagBit(s.flags, FIN));
      var request := Request(local.mac, c.peer.mac, local.address, c.peer.address, port, c.peer.port, c.localNext,
                             remoteNext, PSH + ACK + FIN, Response());
      var next := Connection(c.peer, remoteNext, Plus(Plus(c.localNext, |Response()|), 1), FinWait1, now);
      connections[k] := Some(next);
      assert connections[..] == before[k := Some(next)];
      served := Bump(served);
      var action := Transmit(request, Some(Event(Served, c.peer, s.payloadLength, |Response()|, served)));
      return Some(action);
    }

    /** One received frame: an unreadable one changes nothing; for any other the table and
        the transmitted bytes are the specified ones. */
    method HandleFrameAt(frame: seq<byte>, local: Local, now: nat) returns (r: Result<Option<Action>, NetworkError>)
      requires Shaped()
      modifies this, connections
      ensures var parsed := ParseIncoming(frame, local.mac, local.address, port);
        parsed.Err? ==> r == Err(parsed.error) && View() == old(View())
      ensures var parsed := ParseIncoming(frame, local.mac, local.address, port);
        parsed.Ok? ==>
          var s := parsed.value.segment;
          s.payloadOffset + s.payloadLength <= |frame|
          && var expected := Respond(old(View()), parsed.value,
                                     frame[s.payloadOffset..s.payloadOffset + s.payloadLength], local, now);
             View() == expected.0 && r.Ok?
             && (expected.1.None? ==> r.value.None?)
             && (expected.1.Some? ==>
                   |expected.1.value.request.payload| <= MAX_PAYLOAD && r.value == Some(ActionOf(expected.1.value)))
    {
      hide ParseIncoming, Respond, ActionOf;
      var parsed := ParseIncoming(frame, local.mac, local.address, port);
      if parsed.Err? {
        return Err(parsed.error);
      }
      PayloadInFrame(frame, local.mac, local.address, port);
      var i := parsed.value;
      var a := Answer(i, frame[i.segment.payloadOffset..i.segment.payloadOffset + i.segment.payloadLength], local, now);
      return Ok(a);
    }

    method Answer(i: Incoming, payload: seq<byte>, local: Local, now: nat) returns (a: Option<Action>)
      requires Shaped()
      modifies this, connections
      ensures View() == Respond(old(View()), i, payload, local, now).0
      ensures var r := Respond(old(View()), i, payload, local, now).1;
        if r.None? then a.None? else |r.value.request.payload| <= MAX_PAYLOAD && a == Some(ActionOf(r.value))
    {
      hide SentBytes, AcceptSyn, HandleControl, Retransmit, Serve, Reset, Find, HasFlag, ActionOf;
      var known := ConnectionIndex(PeerOf(i));
      ghost var before := connections[..];
      AnswersFit(View(), i, payload, local, now);
      if HasFlag(i.segment.flags, RST) {
        if known.Some? {
          connections[known.value] := None;
          assert connections[..] == before[known.value := None];
        }
        return None;
      }
      if HasFlag(i.segment.flags, SYN) {
        var accepted := Accept(i, local, now);
        return Some(accepted);
      }
      if known.None? {
        var refusal := SendReset(i, local);
        return Some(refusal);
      }
      var c := connections[known.value].value;
      if i.segment.payloadLength == 0 {
        a := ControlSegment(known.value, c, i, local, now);
      } else if c.phase != Established {
        a := RetransmitResponse(known.value, c, i, payload, local, now);
      } else {
        a := ServeRequest(known.value, c, i, payload, local, now);
      }
    }

    method ExpireIdleConnections(now: nat) returns (expired: nat)
      requires Shaped()
      modifies connections
      ensures View() == Expire(old(View()), now)
      ensures expired == |set j | 0 <= j < CAPACITY && Idle(old(connections[..])[j], now)|
    {
      ghost var before := connections[..];
      ghost var gone: set<int> := {};
      expired := 0;
      for k := 0 to CAPACITY
        invariant forall j :: 0 <= j < CAPACITY ==>
          connections[j] == if j < k && Idle(before[j], now) then None else before[j]
        invariant expired == |gone| && forall j :: j in gone <==> 0 <= j < k && Idle(before[j], now)
      {
        if Idle(connections[k], now) {
          connections[k] := None;
          expired := expired + 1;
          gone := gone + {k};
        }
      }
      assert gone == set j | 0 <= j < CAPACITY && Idle(before[j], now);
      assert connections[..] == Expire(old(View()), now).slots;
    }
  }

  lemma PayloadInFrame(frame: seq<byte>, mac: Mac, local: Address, port: u16)
    requires ParseIncoming(frame, mac, local, port).Ok?
    ensures var s := ParseIncoming(frame, mac, local, port).value.segment;
      s.payloadOffset + s.payloadLength <= |frame|
  {
    hide TransportChecksum;
  }
}
