/** The listener's connection table: one step per frame or expiry, and what every run keeps. */
module TcpConnections {
  import opened Arith
  import opened Bytes
  import opened Wrappers
  import opened TcpFrame

  const CAPACITY: nat := 8
  const IDLE_TIMEOUT: nat := 3000
  const SERVER_SEQUENCE: u32 := 0x4344_5901

  const FIN: nat := 1
  const SYN: nat := 2
  const RST: nat := 4
  const PSH: nat := 8
  const ACK: nat := 16

  datatype Phase = Established | FinWait1 | FinWait2

  datatype Peer = Peer(mac: Mac, address: Address, port: u16)

  datatype Connection = Connection(peer: Peer, remoteNext: u32, localNext: u32, phase: Phase, lastActivity: nat)

  datatype EventKind = Accepted | Served

  datatype Event = Event(kind: EventKind, peer: Peer, requestBytes: nat, responseBytes: nat, connectionCount: nat)

  /** What is sent back, and what the server reports about it. */
  datatype Reply = Reply(request: Request, event: Option<Event>)

  datatype Listener = Listener(port: u16, slots: seq<Option<Connection>>, served: nat, closed: nat)

  /** The local end of every connection. */
  datatype Local = Local(mac: Mac, address: Address)

  /** "HTTP/1.1 200 OK CR LF" */
  function StatusLine(): (s: seq<byte>)
    ensures |s| == 17
  {
    [72, 84, 84, 80, 47, 49, 46, 49, 32, 50, 48, 48, 32, 79, 75, 13, 10]
  }

  /** "Content-Type: text/plain CR LF" */
  function ContentType(): (s: seq<byte>)
    ensures |s| == 26
  {
    [67, 111, 110, 116, 101, 110, 116, 45, 84, 121, 112, 101, 58, 32, 116, 101, 120, 116, 47, 112, 108, 97,
     105, 110, 13, 10]
  }

  /** "Content-Length: 24 CR LF" */
  function ContentLength(): (s: seq<byte>)
    ensures |s| == 20
  {
    [67, 111, 110, 116, 101, 110, 116, 45, 76, 101, 110, 103, 116, 104, 58, 32, 50, 52, 13, 10]
  }

  /** "Connection: close CR LF  CR LF" */
  function Closing(): (s: seq<byte>)
    ensures |s| == 21
  {
    [67, 111, 110, 110, 101, 99, 116, 105, 111, 110, 58, 32, 99, 108, 111, 115, 101, 13, 10, 13, 10]
  }

  /** "codexOS listener online LF" */
  function Body(): (s: seq<byte>)
    ensures |s| == 24
  {
    [99, 111, 100, 101, 120, 79, 83, 32, 108, 105, 115, 116, 101, 110, 101, 114, 32, 111, 110, 108, 105, 110,
     101, 10]
  }

  /** The fixed answer to every request. */
  function Response(): (s: seq<byte>)
    ensures |s| == 108
  {
    StatusLine() + ContentType() + ContentLength() + Closing() + Body()
  }

  predicate HasFlag(flags: nat, flag: nat)
    requires flag > 0
  {
    flags / flag % 2 == 1
  }

  function FlagBit(flags: nat, flag: nat): nat
    requires flag > 0
  {
    if HasFlag(flags, flag) then 1 else 0
  }

  /** Arithmetic of sequence numbers is modulo 2^32 (section 3.4 of RFC 9293). */
  function Plus(a: u32, n: nat): u32
  {
    (a + n) % U32_LIMIT
  }

  function Minus(a: u32, n: nat): u32
  {
    (a - n) % U32_LIMIT
  }

  lemma MinusUndoesPlus(a: u32, n: nat)
    ensures Minus(Plus(a, n), n) == a
  {
    var q, r := (a + n) / U32_LIMIT, (a + n) % U32_LIMIT;
    assert a + n == U32_LIMIT * q + r;
    assert r - n == a - U32_LIMIT * q;
    ModShift(a, q);
  }

  lemma {:induction false} ModShift(a: u32, q: nat)
    ensures (a - U32_LIMIT * q) % U32_LIMIT == a
  {
    if q > 0 {
      ModShift(a, q - 1);
      var x := a - U32_LIMIT * q;
      assert x + U32_LIMIT == a - U32_LIMIT * (q - 1);
      assert (x + U32_LIMIT) % U32_LIMIT == x % U32_LIMIT;
    }
  }

  /** The counters stop at the largest 64-bit number. */
  function Bump(n: nat): nat
  {
    if n + 1 < U64_LIMIT then n + 1 else n
  }

  /** "GET /" or "HEAD /". */
  predicate Supported(payload: seq<byte>)
  {
    [0x47, 0x45, 0x54, 0x20, 0x2F] <= payload || [0x48, 0x45, 0x41, 0x44, 0x20, 0x2F] <= payload
  }

  function ServerSequence(peer: Peer): u32
  {
    Xor32(Xor32(SERVER_SEQUENCE, Be32At(peer.address, 0)), peer.port * 0x1_0000 + peer.port)
  }

  /** Two ports of one address are answered with different first sequence numbers. */
  lemma PortsDiffer(a: Peer, b: Peer)
    requires a.address == b.address && a.port != b.port
    ensures ServerSequence(a) != ServerSequence(b)
  {
    hide Xor32, Be32At;
    XorApart(Xor32(SERVER_SEQUENCE, Be32At(a.address, 0)), a.port * 0x1_0000 + a.port, b.port * 0x1_0000 + b.port);
  }

  // ----- The table

  predicate Is(slot: Option<Connection>, peer: Peer)
  {
    slot.Some? && slot.value.peer == peer
  }

  function Find(slots: seq<Option<Connection>>, peer: Peer): (r: Option<nat>)
    ensures r.Some? ==> r.value < |slots| && Is(slots[r.value], peer)
    ensures r.Some? ==> forall i :: 0 <= i < r.value ==> !Is(slots[i], peer)
    ensures r.None? ==> forall i :: 0 <= i < |slots| ==> !Is(slots[i], peer)
  {
    if slots == [] then None
    else if Is(slots[0], peer) then Some(0)
    else
      var r := Find(slots[1..], peer);
      assert forall i :: 1 <= i < |slots| ==> slots[i] == slots[1..][i - 1];
      if r.Some? then Some(r.value + 1) else None
  }

  function FirstFree(slots: seq<Option<Connection>>): (r: Option<nat>)
    ensures r.Some? ==> r.value < |slots| && slots[r.value] == None
    ensures r.Some? ==> forall i :: 0 <= i < r.value ==> slots[i].Some?
    ensures r.None? ==> forall i :: 0 <= i < |slots| ==> slots[i].Some?
  {
    if slots == [] then None
    else if slots[0].None? then Some(0)
    else
      var r := FirstFree(slots[1..]);
      assert forall i :: 1 <= i < |slots| ==> slots[i] == slots[1..][i - 1];
      if r.Some? then Some(r.value + 1) else None
  }

  function PeerOf(i: Incoming): Peer
  {
    Peer(i.mac, i.address, i.port)
  }

  function To(l: Listener, local: Local, peer: Peer, sequence: u32, acknowledgement: u32, flags: u16,
              payload: seq<byte>)
    : Request
  {
    Request(local.mac, peer.mac, local.address, peer.address, l.port, peer.port, sequence, acknowledgement, flags,
            payload)
  }

  function Set(l: Listener, i: nat, c: Option<Connection>): Listener
    requires i < |l.slots|
  {
    l.(slots := l.slots[i := c])
  }

  // ----- One frame

  function Reset(l: Listener, i: Incoming, local: Local): Reply
  {
    var s := i.segment;
    var ack := Plus(Plus(Plus(s.sequence, s.payloadLength), FlagBit(s.flags, SYN)), FlagBit(s.flags, FIN));
    Reply(To(l, local, PeerOf(i), ServerSequence(PeerOf(i)), ack, RST + ACK, []), None)
  }

  function AcceptSyn(l: Listener, i: Incoming, local: Local, now: nat): (Listener, Option<Reply>)
  {
    var peer := PeerOf(i);
    var known := Find(l.slots, peer);
    var slot := if known.Some? then known else FirstFree(l.slots);
    if slot.None? then (l, Some(Reset(l, i, local)))
    else
      var sequence := ServerSequence(peer);
      var remoteNext := Plus(i.segment.sequence, 1);
      (Set(l, slot.value, Some(Connection(peer, remoteNext, Plus(sequence, 1), Established, now))),
       Some(Reply(To(l, local, peer, sequence, remoteNext, SYN + ACK, []),
                  Some(Event(Accepted, peer, 0, 0, l.served)))))
  }

  function HandleControl(l: Listener, k: nat, c: Connection, i: Incoming, local: Local, now: nat)
    : (Listener, Option<Reply>)
    requires k < |l.slots|
  {
    var s := i.segment;
    if !HasFlag(s.flags, ACK) || s.acknowledgement != c.localNext || s.sequence != c.remoteNext then (l, None)
    else if HasFlag(s.flags, FIN) then
      (Set(l, k, None).(closed := Bump(l.closed)),
       Some(Reply(To(l, local, c.peer, c.localNext, Plus(c.remoteNext, 1), ACK, []), None)))
    else
      (Set(l, k, Some(c.(phase := if c.phase == FinWait1 then FinWait2 else c.phase, lastActivity := now))), None)
  }

  function Span(i: Incoming): nat
  {
    i.segment.payloadLength + FlagBit(i.segment.flags, FIN)
  }

  function Retransmit(l: Listener, k: nat, c: Connection, i: Incoming, payload: seq<byte>, local: Local, now: nat)
    : (Listener, Option<Reply>)
    requires k < |l.slots|
  {
    var s := i.segment;
    var sequence := Minus(Minus(c.localNext, |Response()|), 1);
    if !Supported(payload) || s.sequence != Minus(c.remoteNext, Span(i)) || s.acknowledgement != sequence then (l, None)
    else
      (Set(l, k, Some(c.(lastActivity := now))),
       Some(Reply(To(l, local, c.peer, sequence, c.remoteNext, PSH + ACK + FIN, Response()), None)))
  }

  function Serve(l: Listener, k: nat, c: Connection, i: Incoming, payload: seq<byte>, local: Local, now: nat)
    : (Listener, Option<Reply>)
    requires k < |l.slots|
  {
    var s := i.segment;
    if s.acknowledgement != c.localNext || s.sequence != c.remoteNext then (l, None)
    else if !Supported(payload) then (Set(l, k, None), Some(Reset(l, i, local)))
    else
      var remoteNext := Plus(Plus(c.remoteNext, s.payloadLength), FlagBit(s.flags, FIN));
      (Set(l, k, Some(Connection(c.peer, remoteNext, Plus(Plus(c.localNext, |Response()|), 1), FinWait1, now)))
       .(served := Bump(l.served)),
       Some(Reply(To(l, local, c.peer, c.localNext, remoteNext, PSH + ACK + FIN, Response()),
                  Some(Event(Served, c.peer, s.payloadLength, |Response()|, Bump(l.served))))))
  }

  /** The listener's answer to a parsed segment. */
  function Respond(l: Listener, i: Incoming, payload: seq<byte>, local: Local, now: nat): (Listener, Option<Reply>)
  {
    var known := Find(l.slots, PeerOf(i));
    if HasFlag(i.segment.flags, RST) then (if known.Some? then Set(l, known.value, None) else l, None)
    else if HasFlag(i.segment.flags, SYN) then AcceptSyn(l, i, local, now)
    else if known.None? then (l, Some(Reset(l, i, local)))
    else
      var c := l.slots[known.value].value;
      if i.segment.payloadLength == 0 then HandleControl(l, known.value, c, i, local, now)
      else if c.phase != Established then Retransmit(l, known.value, c, i, payload, local, now)
      else Serve(l, known.value, c, i, payload, local, now)
  }

  predicate Idle(slot: Option<Connection>, now: nat)
  {
    slot.Some? && now - slot.value.lastActivity >= IDLE_TIMEOUT
  }

  function Expire(l: Listener, now: nat): (r: Listener)
    ensures |r.slots| == |l.slots|
    ensures forall i :: 0 <= i < |l.slots| ==> r.slots[i] == if Idle(l.slots[i], now) then None else l.slots[i]
    ensures r.port == l.port && r.served == l.served && r.closed == l.closed
  {
    l.(slots := seq(|l.slots|, i requires 0 <= i < |l.slots| => if Idle(l.slots[i], now) then None else l.slots[i]))
  }

  // ----- One slot for each peer

  ghost predicate Unique(slots: seq<Option<Connection>>)
  {
    forall i, j :: 0 <= i < j < |slots| && slots[i].Some? && slots[j].Some? ==>
      slots[i].value.peer != slots[j].value.peer
  }

  ghost function Entry(slots: seq<Option<Connection>>, peer: Peer): Option<Connection>
  {
    var k := Find(slots, peer);
    if k.Some? then slots[k.value] else None
  }

  lemma FindIsThere(slots: seq<Option<Connection>>, peer: Peer, k: nat)
    requires Unique(slots) && k < |slots| && Is(slots[k], peer)
    ensures Find(slots, peer) == Some(k)
  {
  }

  /** Slot `k` belongs to the peer, or is free and the peer has none. */
  ghost predicate Own(l: Listener, peer: Peer, k: nat)
  {
    k < |l.slots| && (Is(l.slots[k], peer) || (l.slots[k].None? && Find(l.slots, peer).None?))
  }

  lemma SetKeepsUnique(l: Listener, peer: Peer, k: nat, c: Option<Connection>)
    requires Unique(l.slots) && Own(l, peer, k) && (c.Some? ==> c.value.peer == peer)
    ensures Unique(Set(l, k, c).slots)
  {
    var slots := l.slots[k := c];
    forall i, j | 0 <= i < j < |slots| && slots[i].Some? && slots[j].Some?
      ensures slots[i].value.peer != slots[j].value.peer
    {
      if i == k {
        assert !Is(l.slots[j], peer);
      } else if j == k {
        assert !Is(l.slots[i], peer);
      }
    }
  }

  lemma SetEntry(l: Listener, peer: Peer, k: nat, c: Option<Connection>, q: Peer)
    requires Unique(l.slots) && Own(l, peer, k) && (c.Some? ==> c.value.peer == peer)
    ensures Entry(l.slots[k := c], q) == if q == peer then c else Entry(l.slots, q)
  {
    hide Unique, Find;
    SetKeepsUnique(l, peer, k, c);
    var r := Set(l, k, c);
    if q == peer {
      if c.Some? {
        FindIsThere(r.slots, q, k);
      } else if Find(r.slots, q).Some? {
        var j := Find(r.slots, q).value;
        assert Is(l.slots[j], q) && j != k;
        FindIsThere(l.slots, q, j);
        if Is(l.slots[k], q) {
          FindIsThere(l.slots, q, k);
        }
      }
    } else if Find(l.slots, q).Some? {
      var j := Find(l.slots, q).value;
      assert j != k && Is(r.slots[j], q);
      FindIsThere(r.slots, q, j);
    }
  }

  /** Only slot `k` differs. */
  ghost predicate OnlyAt(before: Listener, after: Listener, k: nat)
  {
    && |after.slots| == |before.slots| && after.port == before.port
    && forall j :: 0 <= j < |before.slots| && j != k ==> after.slots[j] == before.slots[j]
  }

  /** A step for `peer`: nothing changes but its own slot, which stays its own. */
  ghost predicate StepFor(before: Listener, peer: Peer, after: Listener)
  {
    && |after.slots| == |before.slots| && after.port == before.port
    && (after.slots == before.slots
        || exists k: nat :: Own(before, peer, k) && OnlyAt(before, after, k)
                       && (after.slots[k].Some? ==> after.slots[k].value.peer == peer))
  }

  /** The answer to a frame touches at most the slot of the peer it came from. */
  lemma RespondIsLocal(l: Listener, i: Incoming, payload: seq<byte>, local: Local, now: nat)
    requires Unique(l.slots)
    ensures StepFor(l, PeerOf(i), Respond(l, i, payload, local, now).0)
  {
    hide Find, FirstFree, Unique, Response, ServerSequence, Supported, HasFlag, Plus, Minus;
    var after := Respond(l, i, payload, local, now).0;
    var peer := PeerOf(i);
    var known := Find(l.slots, peer);
    if after.slots != l.slots {
      var k := if known.Some? then known.value else FirstFree(l.slots).value;
      assert Own(l, peer, k) && OnlyAt(l, after, k);
    }
  }

  lemma StepKeepsTable(before: Listener, peer: Peer, after: Listener, q: Peer)
    requires Unique(before.slots) && StepFor(before, peer, after)
    ensures Unique(after.slots)
    ensures q != peer ==> Entry(after.slots, q) == Entry(before.slots, q)
  {
    hide Find, Unique;
    if after.slots != before.slots {
      var k: nat :| Own(before, peer, k) && OnlyAt(before, after, k)
        && (after.slots[k].Some? ==> after.slots[k].value.peer == peer);
      assert Set(before, k, after.slots[k]).slots == after.slots;
      SetKeepsUnique(before, peer, k, after.slots[k]);
      SetEntry(before, peer, k, after.slots[k], q);
    }
  }

  lemma ExpireKeepsTable(l: Listener, now: nat, q: Peer)
    requires Unique(l.slots)
    ensures Unique(Expire(l, now).slots)
    ensures Entry(Expire(l, now).slots, q) == if Idle(Entry(l.slots, q), now) then None else Entry(l.slots, q)
  {
    hide Find;
    var r := Expire(l, now);
    if Find(l.slots, q).Some? {
      var k := Find(l.slots, q).value;
      if Idle(l.slots[k], now) {
        if Find(r.slots, q).Some? {
          var j := Find(r.slots, q).value;
          FindIsThere(l.slots, q, j);
        }
      } else {
        FindIsThere(r.slots, q, k);
      }
    }
  }

  /** A full table turns a new peer away and drops nobody. */
  lemma FullTableRefuses(l: Listener, i: Incoming, payload: seq<byte>, local: Local, now: nat)
    requires forall k :: 0 <= k < |l.slots| ==> l.slots[k].Some?
    requires Entry(l.slots, PeerOf(i)).None? && HasFlag(i.segment.flags, SYN) && !HasFlag(i.segment.flags, RST)
    ensures Respond(l, i, payload, local, now) == (l, Some(Reset(l, i, local)))
  {
  }

  // ----- What an answer does to its own peer

  /** The peer's own entry after the answer to its frame. */
  lemma OwnEntry(l: Listener, i: Incoming, payload: seq<byte>, local: Local, now: nat)
    requires Unique(l.slots)
    ensures var (after, reply) := Respond(l, i, payload, local, now);
      var peer := PeerOf(i);
      var before, later := Entry(l.slots, peer), Entry(after.slots, peer);
      && (reply.Some? && reply.value.event.Some? ==> reply.value.event.value.peer == peer)
      && (reply.Some? && reply.value.event.Some? && reply.value.event.value.kind == Served ==>
            before.Some? && before.value.phase == Established && later.Some? && later.value.phase != Established)
      && (!(reply.Some? && reply.value.event.Some?) ==>
            later.None? || (before.Some? && (later.value.phase == Established ==> before.value.phase == Established)))
  {
    hide Find, FirstFree, Unique, Response, ServerSequence, Supported, HasFlag, Plus, Minus, Entry;
    var peer := PeerOf(i);
    var known := Find(l.slots, peer);
    EntryIs(l, peer);
    if known.Some? {
      var k := known.value;
      forall c: Option<Connection> | c.Some? ==> c.value.peer == peer
        ensures Entry(l.slots[k := c], peer) == c
      {
        SetEntry(l, peer, k, c, peer);
      }
    }
  }

  lemma EntryIs(l: Listener, peer: Peer)
    ensures Entry(l.slots, peer) == if Find(l.slots, peer).Some? then l.slots[Find(l.slots, peer).value] else None
  {
  }

  /** The sequence numbers a segment takes up. */
  function Occupies(i: Incoming): nat
  {
    i.segment.payloadLength + FlagBit(i.segment.flags, SYN) + FlagBit(i.segment.flags, FIN)
  }

  /** Every answer goes back to the sender from the local end, and acknowledges exactly what
      the segment takes up; of a segment that opens a connection only the opening. */
  lemma AnswersAcknowledge(l: Listener, i: Incoming, payload: seq<byte>, local: Local, now: nat)
    ensures var (after, reply) := Respond(l, i, payload, local, now);
      reply.Some? ==>
        var r := reply.value.request;
        && r.destinationMac == i.mac && r.destination == i.address && r.destinationPort == i.port
        && r.sourceMac == local.mac && r.source == local.address && r.sourcePort == l.port
        && r.acknowledgement == Plus(i.segment.sequence, if r.flags == SYN + ACK then 1 else Occupies(i))
  {
    hide Find, FirstFree, Response, ServerSequence, Supported, HasFlag, Plus, Minus;
    var s := i.segment;
    var len, syn, fin := s.payloadLength, FlagBit(s.flags, SYN), FlagBit(s.flags, FIN);
    PlusTwice(s.sequence, len, syn);
    PlusTwice(s.sequence, len + syn, fin);
    PlusTwice(s.sequence, len, fin);
    var known := Find(l.slots, PeerOf(i));
    if known.Some? {
      PlusUndoesMinus(l.slots[known.value].value.remoteNext, Span(i));
    }
  }

  lemma PlusUndoesMinus(a: u32, n: nat)
    ensures Plus(Minus(a, n), n) == a
  {
    var q := (a - n) / U32_LIMIT;
    var r := (a - n) % U32_LIMIT;
    assert a - n == U32_LIMIT * q + r;
    assert r + n == a - U32_LIMIT * q;
    MinusShift(a, -q);
  }

  /** After an answer that keeps the connection, the table expects exactly what was acknowledged
      and continues exactly behind what was sent. */
  lemma AnswersAdvance(l: Listener, i: Incoming, payload: seq<byte>, local: Local, now: nat)
    requires Unique(l.slots)
    ensures var (after, reply) := Respond(l, i, payload, local, now);
      reply.Some? && Entry(after.slots, PeerOf(i)).Some? && reply.value.request.flags != RST + ACK ==>
        var r, e := reply.value.request, Entry(after.slots, PeerOf(i)).value;
        e.remoteNext == r.acknowledgement && e.localNext == Plus(r.sequence, |r.payload| + 1)
  {
    hide Find, FirstFree, Unique, Response, ServerSequence, Supported, HasFlag, Plus, Minus, Entry;
    var peer := PeerOf(i);
    var known := Find(l.slots, peer);
    EntryIs(l, peer);
    var free := FirstFree(l.slots);
    var k := if known.Some? then known else free;
    if known.Some? {
      var c := l.slots[known.value].value;
      PlusTwice(c.localNext, |Response()|, 1);
      MinusSum(c.localNext, |Response()|, 1);
      PlusUndoesMinus(c.localNext, |Response()| + 1);
    }
    var (after, reply) := Respond(l, i, payload, local, now);
    if k.Some? && reply.Some? && reply.value.request.flags != RST + ACK {
      var d := after.slots[k.value];
      assert after.slots == l.slots[k.value := d];
      assert d.Some? ==> d.value.peer == peer;
      SetEntry(l, peer, k.value, d, peer);
      assert d.Some? ==> d.value.remoteNext == reply.value.request.acknowledgement;
      assert d.Some? ==> d.value.localNext == Plus(reply.value.request.sequence, |reply.value.request.payload| + 1);
    }
  }

  // ----- Runs

  datatype Input = Arrival(incoming: Incoming, payload: seq<byte>, now: nat) | Expiry(now: nat)

  function Step(l: Listener, local: Local, x: Input): (Listener, Option<Reply>)
  {
    match x
    case Arrival(i, payload, now) => Respond(l, i, payload, local, now)
    case Expiry(now) => (Expire(l, now), None)
  }

  /** Any sequence of frames and expiries on a listener that starts out empty. */
  ghost predicate Run(local: Local, states: seq<Listener>, inputs: seq<Input>)
  {
    && |states| == |inputs| + 1
    && |states[0].slots| == CAPACITY && (forall k :: 0 <= k < CAPACITY ==> states[0].slots[k].None?)
    && forall t :: 0 <= t < |inputs| ==> states[t + 1] == Step(states[t], local, inputs[t]).0
  }

  lemma StepKeepsUnique(l: Listener, local: Local, x: Input)
    requires Unique(l.slots)
    ensures Unique(Step(l, local, x).0.slots) && |Step(l, local, x).0.slots| == |l.slots|
  {
    hide Unique, Respond;
    match x
    case Arrival(i, payload, now) =>
      RespondIsLocal(l, i, payload, local, now);
      StepKeepsTable(l, PeerOf(i), Respond(l, i, payload, local, now).0, PeerOf(i));
    case Expiry(now) =>
      var q: Peer := Peer(Zeros(6), Zeros(4), 0);
      ExpireKeepsTable(l, now, q);
  }

  /** In every run no two slots ever hold the same peer. */
  lemma {:induction false} RunsStayUnique(local: Local, states: seq<Listener>, inputs: seq<Input>, t: nat)
    requires Run(local, states, inputs) && t < |states|
    ensures Unique(states[t].slots) && |states[t].slots| == CAPACITY
  {
    if t > 0 {
      hide Step, Unique;
      RunsStayUnique(local, states, inputs, t - 1);
      StepKeepsUnique(states[t - 1], local, inputs[t - 1]);
    }
  }

  /** One if the step reports an event of this kind about this peer. */
  ghost function Reports(l: Listener, local: Local, x: Input, kind: EventKind, peer: Peer): nat
  {
    var reply := Step(l, local, x).1;
    if reply.Some? && reply.value.event.Some? && reply.value.event.value.kind == kind
       && reply.value.event.value.peer == peer then 1 else 0
  }

  ghost function Count(local: Local, states: seq<Listener>, inputs: seq<Input>, kind: EventKind, peer: Peer,
                       t: nat): nat
    requires |states| == |inputs| + 1 && t <= |inputs|
  {
    if t == 0 then 0
    else Count(local, states, inputs, kind, peer, t - 1) + Reports(states[t - 1], local, inputs[t - 1], kind, peer)
  }

  /** One while the peer was accepted and has not been served since. */
  ghost function Owed(slots: seq<Option<Connection>>, peer: Peer): nat
  {
    var e := Entry(slots, peer);
    if e.Some? && e.value.phase == Established then 1 else 0
  }

  lemma StepBalance(l: Listener, local: Local, x: Input, peer: Peer)
    requires Unique(l.slots)
    ensures Reports(l, local, x, Served, peer) + Owed(Step(l, local, x).0.slots, peer) <=
      Reports(l, local, x, Accepted, peer) + Owed(l.slots, peer)
  {
    hide Unique, Respond, Entry;
    match x
    case Arrival(i, payload, now) =>
      RespondIsLocal(l, i, payload, local, now);
      StepKeepsTable(l, PeerOf(i), Respond(l, i, payload, local, now).0, peer);
      OwnEntry(l, i, payload, local, now);
    case Expiry(now) =>
      ExpireKeepsTable(l, now, peer);
  }

  /** In every run, and for every peer, at most as many requests are served as connections
      were accepted. */
  lemma {:induction false} ServedAtMostAccepted(local: Local, states: seq<Listener>, inputs: seq<Input>, peer: Peer,
                                                t: nat)
    requires Run(local, states, inputs) && t <= |inputs|
    ensures Count(local, states, inputs, Served, peer, t) + Owed(states[t].slots, peer)
      <= Count(local, states, inputs, Accepted, peer, t)
  {
    if t > 0 {
      hide Step, Unique, Owed, Reports;
      ServedAtMostAccepted(local, states, inputs, peer, t - 1);
      RunsStayUnique(local, states, inputs, t - 1);
      StepBalance(states[t - 1], local, inputs[t - 1], peer);
    }
  }

  // ----- Repeated requests

  /** The connection has answered, and its sequence numbers are those of `c`. */
  ghost predicate Waiting(slots: seq<Option<Connection>>, peer: Peer, c: Connection)
  {
    var e := Entry(slots, peer);
    e.Some? && e.value.phase != Established && e.value.remoteNext == c.remoteNext && e.value.localNext == c.localNext
  }

  ghost predicate InFinWait(slots: seq<Option<Connection>>, peer: Peer)
  {
    Entry(slots, peer).Some? && Entry(slots, peer).value.phase != Established
  }

  lemma RespondKeepsWaiting(l: Listener, i: Incoming, payload: seq<byte>, local: Local, now: nat, c: Connection)
    requires Unique(l.slots) && Waiting(l.slots, PeerOf(i), c)
    requires InFinWait(Respond(l, i, payload, local, now).0.slots, PeerOf(i))
    ensures Waiting(Respond(l, i, payload, local, now).0.slots, PeerOf(i), c)
  {
    hide Find, FirstFree, Unique, Response, ServerSequence, Supported, HasFlag, Plus, Minus, Entry;
    var peer := PeerOf(i);
    EntryIs(l, peer);
    var k := Find(l.slots, peer).value;
    forall d: Option<Connection> | d.Some? ==> d.value.peer == peer
      ensures Entry(l.slots[k := d], peer) == d
    {
      SetEntry(l, peer, k, d, peer);
    }
    var after := Respond(l, i, payload, local, now).0;
    if after.slots != l.slots {
      var d, e := after.slots[k], l.slots[k].value;
      assert after.slots == l.slots[k := d];
      assert d.Some? ==> d.value.peer == peer;
      assert Entry(after.slots, peer) == d;
      assert e.phase != Established;
      assert d.Some? && d.value.phase != Established;
      assert !HasFlag(i.segment.flags, SYN);
      assert d.value.remoteNext == e.remoteNext && d.value.localNext == e.localNext;
    }
  }

  lemma StepKeepsWaiting(l: Listener, local: Local, x: Input, peer: Peer, c: Connection)
    requires Unique(l.slots) && Waiting(l.slots, peer, c) && InFinWait(Step(l, local, x).0.slots, peer)
    ensures Waiting(Step(l, local, x).0.slots, peer, c)
  {
    hide Unique, Respond, Entry;
    match x
    case Arrival(i, payload, now) =>
      if PeerOf(i) == peer {
        RespondKeepsWaiting(l, i, payload, local, now, c);
      } else {
        RespondIsLocal(l, i, payload, local, now);
        StepKeepsTable(l, PeerOf(i), Respond(l, i, payload, local, now).0, peer);
      }
    case Expiry(now) =>
      ExpireKeepsTable(l, now, peer);
  }

  /** The frame `i` was served in state `l`. */
  ghost predicate WasServed(l: Listener, i: Incoming, payload: seq<byte>, local: Local, now: nat)
  {
    var reply := Respond(l, i, payload, local, now).1;
    reply.Some? && reply.value.event.Some? && reply.value.event.value.kind == Served
  }

  /** Serving a request leaves a connection that knows the request by its numbers. */
  lemma ServedLeaves(l: Listener, i: Incoming, payload: seq<byte>, local: Local, now: nat)
    requires Unique(l.slots) && WasServed(l, i, payload, local, now)
    ensures var (after, reply) := Respond(l, i, payload, local, now);
      var e := Entry(after.slots, PeerOf(i));
      && e.Some? && e.value.phase != Established && e.value.peer == PeerOf(i)
      && Supported(payload) && !HasFlag(i.segment.flags, RST) && !HasFlag(i.segment.flags, SYN)
      && i.segment.payloadLength > 0
      && i.segment.sequence == Minus(e.value.remoteNext, Span(i))
      && i.segment.acknowledgement == Minus(Minus(e.value.localNext, |Response()|), 1)
      && reply.value.request ==
         To(l, local, PeerOf(i), i.segment.acknowledgement, e.value.remoteNext, PSH + ACK + FIN, Response())
  {
    hide Find, FirstFree, Unique, Response, ServerSequence, Supported, HasFlag, Plus, Minus, Entry;
    var peer := PeerOf(i);
    EntryIs(l, peer);
    var k := Find(l.slots, peer).value;
    var c := l.slots[k].value;
    var s := i.segment;
    forall d: Option<Connection> | d.Some? ==> d.value.peer == peer
      ensures Entry(l.slots[k := d], peer) == d
    {
      SetEntry(l, peer, k, d, peer);
    }
    PlusTwice(c.remoteNext, s.payloadLength, FlagBit(s.flags, FIN));
    MinusUndoesPlus(c.remoteNext, Span(i));
    MinusUndoesPlus(c.localNext, |Response()|);
    MinusUndoesPlus(Plus(c.localNext, |Response()|), 1);
    MinusTwice(Plus(Plus(c.localNext, |Response()|), 1), |Response()|, 1);
  }

  lemma PlusTwice(a: u32, m: nat, n: nat)
    ensures Plus(Plus(a, m), n) == Plus(a, m + n)
  {
    var q, r := (a + m) / U32_LIMIT, (a + m) % U32_LIMIT;
    assert a + m == U32_LIMIT * q + r;
    var q2, r2 := (r + n) / U32_LIMIT, (r + n) % U32_LIMIT;
    assert r + n == U32_LIMIT * q2 + r2;
    assert a + (m + n) == U32_LIMIT * (q + q2) + r2;
    DivModUnique(a + (m + n), U32_LIMIT, q + q2, r2);
  }

  /** Subtractions may be made in either order. */
  lemma MinusTwice(a: u32, m: nat, n: nat)
    ensures Minus(Minus(a, m), n) == Minus(Minus(a, n), m)
  {
    MinusSum(a, m, n);
    MinusSum(a, n, m);
  }

  lemma MinusSum(a: u32, m: nat, n: nat)
    ensures Minus(Minus(a, m), n) == Minus(a, m + n)
  {
    var b := Minus(a, m);
    var q := (a - m) / U32_LIMIT;
    assert a - m == U32_LIMIT * q + b;
    MinusShift(b - n, q);
    assert a - (m + n) == b - n + U32_LIMIT * q;
  }

  lemma MinusShift(x: int, q: int)
    ensures (x + U32_LIMIT * q) % U32_LIMIT == x % U32_LIMIT
  {
    var p, r := x / U32_LIMIT, x % U32_LIMIT;
    assert x == U32_LIMIT * p + r;
    var y := x + U32_LIMIT * q;
    var p2, r2 := y / U32_LIMIT, y % U32_LIMIT;
    assert y == U32_LIMIT * p2 + r2;
    assert U32_LIMIT * (p + q - p2) == r2 - r;
  }

  /** While a served connection waits, the same request again gets the very same answer,
      with no event, and changes no counter. */
  lemma RepeatedRequest(l: Listener, i: Incoming, payload: seq<byte>, local: Local, now: nat, c: Connection,
                        later: Listener, again: nat)
    requires Unique(l.slots) && WasServed(l, i, payload, local, now)
    requires Unique(later.slots) && later.port == l.port
    requires Entry(Respond(l, i, payload, local, now).0.slots, PeerOf(i)) == Some(c)
    requires Waiting(later.slots, PeerOf(i), c)
    ensures var first, second := Respond(l, i, payload, local, now), Respond(later, i, payload, local, again);
      && second.1 == Some(Reply(first.1.value.request, None))
      && second.0.served == later.served && second.0.closed == later.closed
  {
    ServedLeaves(l, i, payload, local, now);
    hide Find, FirstFree, Unique, Response, ServerSequence, Supported, HasFlag, Plus, Minus, Entry, WasServed;
    EntryIs(later, PeerOf(i));
  }

  /** The same over a whole run: from the served request at step `a` on, as long as its
      connection stays in one of the two closing phases. */
  lemma {:induction false} StaysWaiting(local: Local, states: seq<Listener>, inputs: seq<Input>, a: nat, b: nat,
                                        peer: Peer, c: Connection)
    requires Run(local, states, inputs) && a <= b < |states| && Waiting(states[a].slots, peer, c)
    requires forall t :: a <= t <= b ==> InFinWait(states[t].slots, peer)
    ensures Waiting(states[b].slots, peer, c) && states[b].port == states[a].port
    decreases b
  {
    hide Unique, Waiting, InFinWait, Step;
    if a < b {
      StaysWaiting(local, states, inputs, a, b - 1, peer, c);
      RunsStayUnique(local, states, inputs, b - 1);
      assert states[b] == Step(states[b - 1], local, inputs[b - 1]).0;
      assert InFinWait(states[b].slots, peer);
      StepKeepsWaiting(states[b - 1], local, inputs[b - 1], peer, c);
      StepKeepsPort(states[b - 1], local, inputs[b - 1]);
    }
  }

  lemma StepKeepsPort(l: Listener, local: Local, x: Input)
    ensures Step(l, local, x).0.port == l.port
  {
    hide Find, FirstFree, Response, ServerSequence, Supported, HasFlag, Plus, Minus;
  }

  lemma RepeatsAreAnswered(local: Local, states: seq<Listener>, inputs: seq<Input>, a: nat, b: nat, again: nat)
    requires Run(local, states, inputs) && a < b < |states| && inputs[a].Arrival?
    requires WasServed(states[a], inputs[a].incoming, inputs[a].payload, local, inputs[a].now)
    requires forall t :: a < t <= b ==> InFinWait(states[t].slots, PeerOf(inputs[a].incoming))
    ensures var x := inputs[a];
      var first, second := Respond(states[a], x.incoming, x.payload, local, x.now),
                           Respond(states[b], x.incoming, x.payload, local, again);
      && second.1 == Some(Reply(first.1.value.request, None))
      && second.0.served == states[b].served && second.0.closed == states[b].closed
  {
    var x := inputs[a];
    var peer := PeerOf(x.incoming);
    RunsStayUnique(local, states, inputs, a);
    RunsStayUnique(local, states, inputs, b);
    assert states[a + 1] == Respond(states[a], x.incoming, x.payload, local, x.now).0;
    StepKeepsPort(states[a], local, x);
    ServedLeaves(states[a], x.incoming, x.payload, local, x.now);
    hide Unique, Respond, WasServed, Run, Entry;
    var c := Entry(states[a + 1].slots, peer).value;
    StaysWaiting(local, states, inputs, a + 1, b, peer, c);
    RepeatedRequest(states[a], x.incoming, x.payload, local, x.now, c, states[b], again);
  }
}
