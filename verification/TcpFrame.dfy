/** TCP over IPv4 over Ethernet: the frame builder and the two parsers. */
module TcpFrame {
  import opened Bytes
  import opened Wrappers
  import opened Checksum
  import Crc32

  const MAX_FRAME: nat := 1514
  const MIN_FRAME: nat := 60
  const MAX_PAYLOAD: nat := 1460
  const IP: nat := 14
  const TCP: nat := 34
  const TCP_PROTOCOL: byte := 6

  type Mac = s: seq<byte> | |s| == 6 witness Zeros(6)
  type Address = s: seq<byte> | |s| == 4 witness Zeros(4)

  datatype NetworkError = FrameTooLarge | PacketMalformed

  datatype Request = Request(
    sourceMac: Mac,
    destinationMac: Mac,
    source: Address,
    destination: Address,
    sourcePort: u16,
    destinationPort: u16,
    sequence: u32,
    acknowledgement: u32,
    flags: u16,
    payload: seq<byte>)

  datatype Segment = Segment(sequence: u32, acknowledgement: u32, flags: u16, payloadOffset: nat, payloadLength: nat)

  datatype Incoming = Incoming(mac: Mac, address: Address, port: u16, segment: Segment)

  /** Bitwise exclusive or of the low `n` bits. */
  function XorBits(a: nat, b: nat, n: nat): (r: nat)
    ensures r < Crc32.Pow2(n)
  {
    if n == 0 then 0 else 2 * XorBits(a / 2, b / 2, n - 1) + (a % 2 + b % 2) % 2
  }

  /** Exclusive or with the same number twice changes nothing. */
  lemma {:induction false} XorTwice(a: nat, b: nat, n: nat)
    requires a < Crc32.Pow2(n)
    ensures XorBits(XorBits(a, b, n), b, n) == a
  {
    if n > 0 {
      XorTwice(a / 2, b / 2, n - 1);
      XorHalves(a, b, n);
      XorHalves(XorBits(a, b, n), b, n);
      hide XorBits;
      BitTwice(a % 2, b % 2);
    }
  }

  /** The last bit of the combination and the bits in front of it. */
  lemma XorHalves(a: nat, b: nat, n: nat)
    requires n > 0
    ensures XorBits(a, b, n) / 2 == XorBits(a / 2, b / 2, n - 1) && XorBits(a, b, n) % 2 == (a % 2 + b % 2) % 2
    ensures XorBits(a, b, n) == 2 * XorBits(a / 2, b / 2, n - 1) + (a % 2 + b % 2) % 2
  {
    var h, d := XorBits(a / 2, b / 2, n - 1), (a % 2 + b % 2) % 2;
    assert XorBits(a, b, n) == 2 * h + d;
    hide XorBits;
    assert (2 * h + d) / 2 == h && (2 * h + d) % 2 == d;
  }

  lemma {:induction false} XorCommutes(a: nat, b: nat, n: nat)
    ensures XorBits(a, b, n) == XorBits(b, a, n)
  {
    if n > 0 {
      XorCommutes(a / 2, b / 2, n - 1);
    }
  }

  lemma BitTwice(a: nat, b: nat)
    requires a < 2 && b < 2
    ensures ((a + b) % 2 + b) % 2 == a
  {
    assert a + b == 0 || a + b == 1 || a + b == 2;
  }

  lemma SixteenBits()
    ensures Crc32.Pow2(16) == U16_LIMIT
  {
    assert Crc32.Pow2(8) == 256;
  }

  function Xor16(a: u16, b: u16): u16
  {
    SixteenBits();
    XorBits(a, b, 16)
  }

  function Xor32(a: u32, b: u32): u32
  {
    Crc32.ThirtyTwoBits();
    XorBits(a, b, 32)
  }

  lemma XorApart(x: u32, p: u32, q: u32)
    requires p != q
    ensures Xor32(x, p) != Xor32(x, q)
  {
    hide XorBits, Crc32.Pow2;
    Crc32.ThirtyTwoBits();
    XorCommutes(x, p, 32);
    XorCommutes(x, q, 32);
    XorTwice(p, x, 32);
    XorTwice(q, x, 32);
  }

  // ----- Big-endian fields

  function Be16(v: u16): (s: seq<byte>)
    ensures |s| == 2
  {
    [v / 256, v % 256]
  }

  function Be32(v: u32): (s: seq<byte>)
    ensures |s| == 4
  {
    Be16(v / 0x1_0000) + Be16(v % 0x1_0000)
  }

  function Be16At(s: seq<byte>, at: nat): (v: u16)
    requires Fits(s, at, 2)
  {
    FromLe16(s[at + 1], s[at])
  }

  function Be32At(s: seq<byte>, at: nat): (v: u32)
    requires Fits(s, at, 4)
  {
    FromLe32(s[at + 3], s[at + 2], s[at + 1], s[at])
  }

  lemma Be16RoundTrip(s: seq<byte>, at: nat, v: u16)
    requires Fits(s, at, 2) && s[at..at + 2] == Be16(v)
    ensures Be16At(s, at) == v
  {
    var f := s[at..at + 2];
    assert s[at] == f[0] && s[at + 1] == f[1];
  }

  lemma Be32RoundTrip(s: seq<byte>, at: nat, v: u32)
    requires Fits(s, at, 4) && s[at..at + 4] == Be32(v)
    ensures Be32At(s, at) == v
  {
    var f := s[at..at + 4];
    var high, low := v / 0x1_0000, v % 0x1_0000;
    assert s[at..at + 2] == f[..2] == Be16(high);
    assert s[at + 2..at + 4] == f[2..] == Be16(low);
    Be16RoundTrip(s, at, high);
    Be16RoundTrip(s, at + 2, low);
  }

  // ----- The frame

  function EthernetHead(r: Request): (s: seq<byte>)
    ensures |s| == 14
  {
    r.destinationMac + r.sourceMac + [8, 0]
  }

  /** The IPv4 header with `crc` in its checksum field. */
  function IpHead(r: Request, crc: u16): (s: seq<byte>)
    requires |r.payload| <= MAX_PAYLOAD
    ensures |s| == 20
  {
    IpFront(r) + Be16(crc) + (r.source + r.destination)
  }

  function IpFront(r: Request): (s: seq<byte>)
    requires |r.payload| <= MAX_PAYLOAD
    ensures |s| == 10
  {
    [0x45, 0] + Be16(40 + |r.payload|) + Be16(Xor16(r.sourcePort, r.destinationPort)) + [0x40, 0] + [64, TCP_PROTOCOL]
  }

  /** The first sixteen bytes of the TCP header. */
  function TcpFront(r: Request): (s: seq<byte>)
    ensures |s| == 16
  {
    Be16(r.sourcePort) + Be16(r.destinationPort) + Be32(r.sequence) + Be32(r.acknowledgement)
    + [80, r.flags % 64, 0x40, 0]
  }

  /** The TCP segment with `crc` in its checksum field. */
  function TcpPart(r: Request, crc: u16): (s: seq<byte>)
    ensures |s| == 20 + |r.payload|
  {
    TcpFront(r) + Be16(crc) + ([0, 0] + r.payload)
  }

  function PseudoHeader(source: Address, destination: Address, length: u16): (s: seq<byte>)
    ensures |s| == 12
  {
    source + destination + [0, TCP_PROTOCOL] + Be16(length)
  }

  /** The checksum of a segment, or one for a segment too long to have one. */
  function TransportChecksum(source: Address, destination: Address, segment: seq<byte>): u16
  {
    if |segment| >= U16_LIMIT then 1
    else Finish(WordSum(PseudoHeader(source, destination, |segment|)) + WordSum(segment))
  }

  function IpChecksum(r: Request): u16
    requires |r.payload| <= MAX_PAYLOAD
  {
    Finish(WordSum(IpHead(r, 0)))
  }

  /** A computed zero is sent as all ones. */
  function TcpChecksum(r: Request): u16
  {
    var c := TransportChecksum(r.source, r.destination, TcpPart(r, 0));
    if c == 0 then 0xFFFF else c
  }

  function FrameBytes(r: Request): (s: seq<byte>)
    requires |r.payload| <= MAX_PAYLOAD
    ensures |s| == 54 + |r.payload|
  {
    EthernetHead(r) + IpHead(r, IpChecksum(r)) + TcpPart(r, TcpChecksum(r))
  }

  /** What is sent: short frames are padded with zeros. */
  function SentBytes(r: Request): (s: seq<byte>)
    requires |r.payload| <= MAX_PAYLOAD
  {
    var f := FrameBytes(r);
    if |f| < MIN_FRAME then f + Zeros(MIN_FRAME - |f|) else f
  }

  // ----- The parsers

  predicate Masked(v: u16)
  {
    v % 0x4000 == 0
  }

  /** The checks both parsers make from the Ethernet type down to the TCP checksum. */
  predicate WellFormed(frame: seq<byte>, source: Address, destination: Address)
    requires |frame| >= 54
  {
    var headerBytes := frame[IP] % 16 * 4;
    var totalBytes := Be16At(frame, IP + 2);
    && Be16At(frame, 12) == 0x0800
    && frame[IP] / 16 == 4 && headerBytes >= 20 && totalBytes >= headerBytes + 20 && IP + totalBytes <= |frame|
    && Finish(WordSum(frame[IP..IP + headerBytes])) == 0
    && frame[IP + 9] == TCP_PROTOCOL && Masked(Be16At(frame, IP + 6))
    && frame[IP + 12..IP + 16] == source && frame[IP + 16..IP + 20] == destination
    && var tcp := IP + headerBytes;
       var offset := frame[tcp + 12] / 16 * 4;
       && 20 <= offset <= totalBytes - headerBytes
       && TransportChecksum(source, destination, frame[tcp..IP + totalBytes]) == 0
  }

  function SegmentOf(frame: seq<byte>): Segment
    requires |frame| >= 54 && WellFormed(frame, frame[IP + 12..IP + 16], frame[IP + 16..IP + 20])
  {
    var headerBytes := frame[IP] % 16 * 4;
    var tcp := IP + headerBytes;
    var offset := frame[tcp + 12] / 16 * 4;
    Segment(Be32At(frame, tcp + 4), Be32At(frame, tcp + 8), frame[tcp + 13], tcp + offset,
            Be16At(frame, IP + 2) - headerBytes - offset)
  }

  /** The client's parser: everything about the peer is known. */
  function ParseSegment(frame: seq<byte>, mac: Mac, local: Address, remote: Address, localPort: u16, remotePort: u16)
    : Result<Segment, NetworkError>
  {
    if |frame| < 54 || frame[6..12] != mac || !WellFormed(frame, remote, local) then Err(PacketMalformed)
    else
      var tcp := IP + frame[IP] % 16 * 4;
      if Be16At(frame, tcp) != remotePort || Be16At(frame, tcp + 2) != localPort then Err(PacketMalformed)
      else Ok(SegmentOf(frame))
  }

  /** The listener's parser: the peer is read from the frame. */
  function ParseIncoming(frame: seq<byte>, mac: Mac, local: Address, localPort: u16): Result<Incoming, NetworkError>
  {
    if |frame| < 54 || frame[0..6] != mac || !WellFormed(frame, frame[IP + 12..IP + 16], local) then
      Err(PacketMalformed)
    else
      var tcp := IP + frame[IP] % 16 * 4;
      if Be16At(frame, tcp + 2) != localPort then Err(PacketMalformed)
      else Ok(Incoming(frame[6..12], frame[IP + 12..IP + 16], Be16At(frame, tcp), SegmentOf(frame)))
  }

  // ----- Checksums of built frames

  lemma WordSumBe16(v: u16)
    ensures WordSum(Be16(v)) == v
  {
    assert Be16(v)[2..] == [];
    assert v == 256 * (v / 256) + v % 256;
  }

  /** Between even-sized neighbours a 16-bit field adds its own value. */
  lemma WordSumField(a: seq<byte>, v: u16, b: seq<byte>)
    requires |a| % 2 == 0
    ensures WordSum(a + Be16(v) + b) == WordSum(a) + v + WordSum(b)
  {
    hide WordSum, Be16;
    WordSumConcat(a + Be16(v), b);
    WordSumConcat(a, Be16(v));
    WordSumBe16(v);
  }

  lemma IpChecks(r: Request)
    requires |r.payload| <= MAX_PAYLOAD
    ensures Finish(WordSum(IpHead(r, IpChecksum(r)))) == 0
  {
    assert WordSum(IpFront(r)) > 0 by {
      var f := IpFront(r);
      assert f[0] == 0x45;
    }
    hide WordSum, IpFront, Finish;
    WordSumField(IpFront(r), 0, r.source + r.destination);
    WordSumField(IpFront(r), IpChecksum(r), r.source + r.destination);
    SumChecks(WordSum(IpHead(r, 0)));
  }

  lemma PseudoSumPositive(source: Address, destination: Address, length: u16)
    ensures WordSum(PseudoHeader(source, destination, length)) > 0
  {
    var addresses := source + destination;
    var rest: seq<byte> := [0, TCP_PROTOCOL] + Be16(length);
    assert PseudoHeader(source, destination, length) == addresses + rest;
    WordSumConcat(addresses, rest);
    assert rest[1] == 6;
  }

  lemma TcpChecks(r: Request)
    requires |r.payload| <= MAX_PAYLOAD
    ensures TransportChecksum(r.source, r.destination, TcpPart(r, TcpChecksum(r))) == 0
  {
    hide WordSum, TcpFront, Finish, PseudoHeader;
    var tail := [0, 0] + r.payload;
    WordSumField(TcpFront(r), 0, tail);
    WordSumField(TcpFront(r), TcpChecksum(r), tail);
    PseudoSumPositive(r.source, r.destination, 20 + |r.payload|);
    SumChecks(WordSum(PseudoHeader(r.source, r.destination, 20 + |r.payload|)) + WordSum(TcpPart(r, 0)));
  }

  // ----- Finding the fields again

  lemma OuterLayout(r: Request)
    requires |r.payload| <= MAX_PAYLOAD
    ensures var f := SentBytes(r);
      && |f| >= 60 && |f| >= 54 + |r.payload|
      && f[0..6] == r.destinationMac && f[6..12] == r.sourceMac && f[12..14] == [8, 0]
      && f[14..34] == IpHead(r, IpChecksum(r)) && f[34..54 + |r.payload|] == TcpPart(r, TcpChecksum(r))
  {
    hide IpHead, TcpPart, IpChecksum, TcpChecksum;
    var f := SentBytes(r);
    var n := |r.payload|;
    var pad := f[54 + n..];
    var ip, tcp := IpHead(r, IpChecksum(r)), TcpPart(r, TcpChecksum(r));
    assert f == EthernetHead(r) + ip + tcp + pad + [];
    Fields5(EthernetHead(r), ip, tcp, pad, [], 14, 34, 54 + n, |f|, |f|);
    Fields5(r.destinationMac, r.sourceMac, [8, 0], [], [], 6, 12, 14, 14, 14);
    assert EthernetHead(r) == r.destinationMac + r.sourceMac + [8, 0] + [] + [];
    Slice(f, 0, 14, 0, 6);
    Slice(f, 0, 14, 6, 6);
    Slice(f, 0, 14, 12, 2);
  }

  lemma IpLayout(f: seq<byte>, r: Request, crc: u16)
    requires |r.payload| <= MAX_PAYLOAD && |f| >= 34 && f[14..34] == IpHead(r, crc)
    ensures f[14] == 0x45 && Be16At(f, 16) == 40 + |r.payload| && Be16At(f, 20) == 0x4000 && f[23] == TCP_PROTOCOL
    ensures f[26..30] == r.source && f[30..34] == r.destination
    ensures f[15] == 0 && Be16At(f, 18) == Xor16(r.sourcePort, r.destinationPort) && f[22] == 64
  {
    hide Be16, Be16At, Xor16;
    var n: u16 := 40 + |r.payload|;
    var id := Xor16(r.sourcePort, r.destinationPort);
    var front := IpFront(r);
    Fields5([0x45, 0], Be16(n), Be16(id), [0x40, 0], [64, TCP_PROTOCOL], 2, 4, 6, 8, 10);
    Fields5(front, Be16(crc), r.source, r.destination, [], 10, 12, 16, 20, 20);
    assert IpHead(r, crc) == front + Be16(crc) + r.source + r.destination + [];
    Slice(f, 14, 20, 0, 10);
    Slice(f, 14, 20, 12, 4);
    Slice(f, 14, 20, 16, 4);
    Slice(f, 14, 10, 0, 2);
    Slice(f, 14, 10, 2, 2);
    Slice(f, 14, 10, 4, 2);
    Slice(f, 14, 10, 6, 2);
    Slice(f, 14, 10, 8, 2);
    assert f[14] == f[14..16][0] && f[15] == f[14..16][1] && f[22] == f[22..24][0] && f[23] == f[22..24][1];
    Be16RoundTrip(f, 18, id);
    Be16RoundTrip(f, 16, n);
    BeLiteral();
    Be16RoundTrip(f, 20, 0x4000);
  }

  lemma BeLiteral()
    ensures Be16(0x4000) == [0x40, 0] && Be16(0x0800) == [8, 0]
  {
  }

  lemma TcpLayout(f: seq<byte>, r: Request, crc: u16)
    requires |f| >= 54 + |r.payload| && f[34..54 + |r.payload|] == TcpPart(r, crc)
    ensures Be16At(f, 34) == r.sourcePort && Be16At(f, 36) == r.destinationPort
    ensures Be32At(f, 38) == r.sequence && Be32At(f, 42) == r.acknowledgement
    ensures f[46] == 80 && f[47] == r.flags % 64 && f[54..54 + |r.payload|] == r.payload
    ensures f[48..50] == [0x40, 0] && f[52..54] == [0, 0]
  {
    hide Be16, Be32, Be16At, Be32At;
    var n := |r.payload|;
    var last: seq<byte> := [80, r.flags % 64, 0x40, 0];
    Fields5(Be16(r.sourcePort), Be16(r.destinationPort), Be32(r.sequence), Be32(r.acknowledgement), last, 2, 4, 8, 12,
            16);
    Fields5(TcpFront(r), Be16(crc), [0, 0], r.payload, [], 16, 18, 20, 20 + n, 20 + n);
    assert TcpPart(r, crc) == TcpFront(r) + Be16(crc) + [0, 0] + r.payload + [];
    Slice(f, 34, 20 + n, 0, 16);
    Slice(f, 34, 20 + n, 20, n);
    Slice(f, 34, 16, 0, 2);
    Slice(f, 34, 16, 2, 2);
    Slice(f, 34, 16, 4, 4);
    Slice(f, 34, 16, 8, 4);
    Slice(f, 34, 16, 12, 4);
    Slice(f, 34, 20 + n, 18, 2);
    Slice(f, 46, 4, 2, 2);
    assert f[46] == f[46..50][0] && f[47] == f[46..50][1];
    Be16RoundTrip(f, 34, r.sourcePort);
    Be16RoundTrip(f, 36, r.destinationPort);
    Be32RoundTrip(f, 38, r.sequence);
    Be32RoundTrip(f, 42, r.acknowledgement);
  }

  // ----- The round trip

  function SegmentFor(r: Request): Segment
  {
    Segment(r.sequence, r.acknowledgement, r.flags % 64, 54, |r.payload|)
  }

  lemma SentIsWellFormed(r: Request)
    requires |r.payload| <= MAX_PAYLOAD
    ensures |SentBytes(r)| >= 54 && WellFormed(SentBytes(r), r.source, r.destination)
  {
    hide SentBytes, IpHead, TcpPart, IpChecksum, TcpChecksum, TransportChecksum, WordSum, Finish, Be16At, Be16, Be32At;
    var f := SentBytes(r);
    OuterLayout(r);
    IpLayout(f, r, IpChecksum(r));
    TcpLayout(f, r, TcpChecksum(r));
    IpChecks(r);
    TcpChecks(r);
    BeLiteral();
    Be16RoundTrip(f, 12, 0x0800);
    assert f[14] % 16 * 4 == 20 && f[14] / 16 == 4;
    assert f[46] / 16 * 4 == 20;
    assert IP + Be16At(f, IP + 2) == 54 + |r.payload|;
  }

  /** Every frame built from a payload that fits is accepted by the parser at the other end,
      which finds the same numbers, the low six flags and the same payload. */
  lemma FrameRoundTrip(r: Request)
    requires |r.payload| <= MAX_PAYLOAD
    ensures ParseSegment(SentBytes(r), r.sourceMac, r.destination, r.source, r.destinationPort, r.sourcePort) ==
      Ok(SegmentFor(r))
    ensures ParseIncoming(SentBytes(r), r.destinationMac, r.destination, r.destinationPort) ==
      Ok(Incoming(r.sourceMac, r.source, r.sourcePort, SegmentFor(r)))
    ensures |SentBytes(r)| >= 54 + |r.payload| && SentBytes(r)[54..54 + |r.payload|] == r.payload
  {
    hide SentBytes, IpHead, TcpPart, IpChecksum, TcpChecksum, WellFormed, Be16At, Be32At;
    var f := SentBytes(r);
    OuterLayout(r);
    IpLayout(f, r, IpChecksum(r));
    TcpLayout(f, r, TcpChecksum(r));
    SentIsWellFormed(r);
    assert f[14] % 16 * 4 == 20;
    assert f[46] / 16 * 4 == 20;
  }

  // ----- Damaged segments

  /** `g` is the frame sent for `r` with at most the segment's word at `k` changed. */
  ghost predicate WordDamaged(r: Request, g: seq<byte>, k: nat)
  {
    && |r.payload| <= MAX_PAYLOAD
    && var f := SentBytes(r);
       && |g| == |f| && k % 2 == 0 && k < 20 + |r.payload| && |f| >= 54 + |r.payload|
       && forall i :: 0 <= i < |f| && !(TCP + k <= i < TCP + k + 2 && i < 54 + |r.payload|) ==> g[i] == f[i]
  }

  /** The segment of a damaged frame checks exactly if its word went from one zero to the other. */
  lemma DamagedChecks(r: Request, g: seq<byte>, k: nat)
    requires WordDamaged(r, g, k)
    ensures var a, b := TcpPart(r, TcpChecksum(r)), g[TCP..54 + |r.payload|];
      && |a| == |b|
      && var v, w := WordAt(a, k), WordAt(b, k);
         TransportChecksum(r.source, r.destination, b) == 0 <==>
           v == w || (v == 0 && w == 0xFFFF) || (v == 0xFFFF && w == 0)
  {
    hide SentBytes, TcpPart, TcpChecksum, WordSum, WordAt, Finish, PseudoHeader, IpHead, IpChecksum;
    OuterLayout(r);
    TcpChecks(r);
    var n := |r.payload|;
    var a, b := TcpPart(r, TcpChecksum(r)), g[TCP..54 + n];
    SameOffWord(SentBytes(r), g, n, k);
    WordChange(a, b, k);
    PseudoSumPositive(r.source, r.destination, 20 + n);
    var pseudo := WordSum(PseudoHeader(r.source, r.destination, 20 + n));
    ChangePasses(pseudo + WordSum(a), pseudo + WordSum(b), WordAt(a, k), WordAt(b, k));
  }

  lemma SameOffWord(f: seq<byte>, g: seq<byte>, n: nat, k: nat)
    requires |g| == |f| && |f| >= 54 + n
    requires forall i :: 0 <= i < |f| && !(TCP + k <= i < TCP + k + 2 && i < 54 + n) ==> g[i] == f[i]
    ensures var a, b := f[TCP..54 + n], g[TCP..54 + n];
      forall i :: 0 <= i < |a| && i != k && i != k + 1 ==> a[i] == b[i]
    ensures g[..TCP] == f[..TCP]
  {
  }

  /** A frame that arrives with one word of its segment changed, other than from one zero to
      the other, is accepted by neither parser, whatever they expect of the peer. */
  lemma DamagedIsRejected(r: Request, g: seq<byte>, k: nat, mac: Mac, local: Address, remote: Address,
                          localPort: u16, remotePort: u16)
    requires WordDamaged(r, g, k)
    requires var v, w := WordAt(SentBytes(r)[TCP..54 + |r.payload|], k), WordAt(g[TCP..54 + |r.payload|], k);
      v != w && !(v == 0 && w == 0xFFFF) && !(v == 0xFFFF && w == 0)
    ensures ParseSegment(g, mac, local, remote, localPort, remotePort) == Err(PacketMalformed)
    ensures ParseIncoming(g, mac, local, localPort) == Err(PacketMalformed)
  {
    hide SentBytes, TcpPart, TcpChecksum, WordAt, TransportChecksum, WellFormed, IpHead, IpChecksum;
    OuterLayout(r);
    DamagedChecks(r, g, k);
    SameOffWord(SentBytes(r), g, |r.payload|, k);
    DamagedHead(r, g);
    NotWellFormed(r, g, remote, local);
    NotWellFormed(r, g, g[IP + 12..IP + 16], local);
  }

  lemma DamagedHead(r: Request, g: seq<byte>)
    requires |r.payload| <= MAX_PAYLOAD && |g| == |SentBytes(r)| && |g| >= 54 + |r.payload|
    requires g[..TCP] == SentBytes(r)[..TCP]
    ensures g[14] == 0x45 && Be16At(g, 16) == 40 + |r.payload|
    ensures g[26..30] == r.source && g[30..34] == r.destination
  {
    hide SentBytes, IpHead, IpChecksum, TcpPart, TcpChecksum, Be16At;
    OuterLayout(r);
    assert g[14..34] == g[..34][14..] == SentBytes(r)[..34][14..] == SentBytes(r)[14..34];
    IpLayout(g, r, IpChecksum(r));
  }

  lemma NotWellFormed(r: Request, g: seq<byte>, source: Address, destination: Address)
    requires |r.payload| <= MAX_PAYLOAD && |g| >= 54 + |r.payload|
    requires g[14] == 0x45 && Be16At(g, 16) == 40 + |r.payload|
    requires g[26..30] == r.source && g[30..34] == r.destination
    requires TransportChecksum(r.source, r.destination, g[TCP..54 + |r.payload|]) != 0
    ensures !WellFormed(g, source, destination)
  {
    hide TransportChecksum, Be16At, WordSum, Finish;
    assert g[IP] % 16 * 4 == 20;
    assert IP + Be16At(g, IP + 2) == 54 + |r.payload|;
  }

  // ----- Filling the frame buffer

  /** Writing past a gap of untouched bytes leaves zeros in the gap. */
  lemma PutPast(written: seq<byte>, n: nat, gap: nat, field: seq<byte>)
    requires |written| + gap + |field| <= n
    ensures Put(Filled(written, n), |written| + gap, field) == Filled(written + Zeros(gap) + field, n)
  {
    var a, b := Put(Filled(written, n), |written| + gap, field), Filled(written + Zeros(gap) + field, n);
    assert forall i :: 0 <= i < n ==> a[i] == b[i];
  }

  lemma PutSame(a: seq<byte>, before: seq<byte>, field: seq<byte>, b: seq<byte>, n: nat, at: nat)
    requires |before| == |field| && |a| == at && |a + before + b| <= n
    ensures Put(Filled(a + before + b, n), at, field) == Filled(a + field + b, n)
  {
    var x, y := Put(Filled(a + before + b, n), at, field), Filled(a + field + b, n);
    assert forall i :: 0 <= i < n ==> x[i] == y[i];
  }

  lemma EthernetFilled(r: Request)
    ensures Put(Put(Put(Zeros(MAX_FRAME), 0, r.destinationMac), 6, r.sourceMac), 12, Be16(0x0800)) ==
      Filled(EthernetHead(r), MAX_FRAME)
  {
    BeLiteral();
    assert Zeros(MAX_FRAME) == Filled([], MAX_FRAME);
    hide Filled, Put, Be16;
    PutAppends([], MAX_FRAME, r.destinationMac);
    assert [] + r.destinationMac == r.destinationMac;
    PutAppends(r.destinationMac, MAX_FRAME, r.sourceMac);
    PutAppends(r.destinationMac + r.sourceMac, MAX_FRAME, Be16(0x0800));
  }

  lemma IpFrontFilled(r: Request)
    requires |r.payload| <= MAX_PAYLOAD
    ensures var e := Filled(EthernetHead(r), MAX_FRAME);
      Put(Put(Put(Put(Put(Put(e, 14, [0x45]), 16, Be16(40 + |r.payload|)),
                          18, Be16(Xor16(r.sourcePort, r.destinationPort))), 20, Be16(0x4000)), 22, [64]),
          23, [TCP_PROTOCOL])
      == Filled(EthernetHead(r) + IpFront(r), MAX_FRAME)
  {
    BeLiteral();
    assert Zeros(1) == [0];
    var w := EthernetHead(r);
    hide Filled, Put, Be16, Zeros, Xor16, EthernetHead;
    PutAppends(w, MAX_FRAME, [0x45]);
    var w1: seq<byte> := w + [0x45];
    PutPast(w1, MAX_FRAME, 1, Be16(40 + |r.payload|));
    var w2 := w1 + Zeros(1) + Be16(40 + |r.payload|);
    PutAppends(w2, MAX_FRAME, Be16(Xor16(r.sourcePort, r.destinationPort)));
    var w3 := w2 + Be16(Xor16(r.sourcePort, r.destinationPort));
    PutAppends(w3, MAX_FRAME, Be16(0x4000));
    var w4 := w3 + Be16(0x4000);
    PutAppends(w4, MAX_FRAME, [64]);
    var w5: seq<byte> := w4 + [64];
    PutAppends(w5, MAX_FRAME, [TCP_PROTOCOL]);
    assert w5 + [TCP_PROTOCOL] == w + IpFront(r);
  }

  lemma IpFilled(r: Request, crc: u16)
    requires |r.payload| <= MAX_PAYLOAD
    ensures Put(Put(Filled(EthernetHead(r) + IpFront(r), MAX_FRAME), 26, r.source), 30, r.destination) ==
      Filled(EthernetHead(r) + IpHead(r, 0), MAX_FRAME)
    ensures Put(Filled(EthernetHead(r) + IpHead(r, 0), MAX_FRAME), 24, Be16(crc)) ==
      Filled(EthernetHead(r) + IpHead(r, crc), MAX_FRAME)
  {
    assert Zeros(2) == Be16(0);
    var w := EthernetHead(r) + IpFront(r);
    hide Filled, Put, Be16, Zeros, IpFront, EthernetHead;
    PutPast(w, MAX_FRAME, 2, r.source);
    PutAppends(w + Zeros(2) + r.source, MAX_FRAME, r.destination);
    var tail := r.source + r.destination;
    assert w + Zeros(2) + r.source + r.destination == w + Be16(0) + tail;
    assert EthernetHead(r) + IpHead(r, 0) == w + Be16(0) + tail;
    assert EthernetHead(r) + IpHead(r, crc) == w + Be16(crc) + tail;
    PutSame(w, Be16(0), Be16(crc), tail, MAX_FRAME, 24);
  }

  lemma TcpFrontFilled(r: Request, w: seq<byte>)
    requires |w| == 34
    ensures Put(Put(Put(Put(Put(Put(Put(Filled(w, MAX_FRAME), 34, Be16(r.sourcePort)), 36, Be16(r.destinationPort)),
                                38, Be32(r.sequence)), 42, Be32(r.acknowledgement)), 46, [80]), 47, [r.flags % 64]),
                48, Be16(0x4000)) == Filled(w + TcpFront(r), MAX_FRAME)
  {
    BeLiteral();
    hide Filled, Put, Be16, Be32;
    PutAppends(w, MAX_FRAME, Be16(r.sourcePort));
    var w1 := w + Be16(r.sourcePort);
    PutAppends(w1, MAX_FRAME, Be16(r.destinationPort));
    var w2 := w1 + Be16(r.destinationPort);
    PutAppends(w2, MAX_FRAME, Be32(r.sequence));
    var w3 := w2 + Be32(r.sequence);
    PutAppends(w3, MAX_FRAME, Be32(r.acknowledgement));
    var w4 := w3 + Be32(r.acknowledgement);
    PutAppends(w4, MAX_FRAME, [80]);
    var w5: seq<byte> := w4 + [80];
    PutAppends(w5, MAX_FRAME, [r.flags % 64]);
    var w6: seq<byte> := w5 + [r.flags % 64];
    PutAppends(w6, MAX_FRAME, Be16(0x4000));
    assert w6 + Be16(0x4000) == w + TcpFront(r);
  }

  lemma TcpFilled(r: Request, w: seq<byte>, crc: u16)
    requires |w| == 34 && |r.payload| <= MAX_PAYLOAD
    ensures Put(Filled(w + TcpFront(r), MAX_FRAME), 54, r.payload) == Filled(w + TcpPart(r, 0), MAX_FRAME)
    ensures Put(Filled(w + TcpPart(r, 0), MAX_FRAME), 50, Be16(crc)) == Filled(w + TcpPart(r, crc), MAX_FRAME)
  {
    assert Zeros(4) == Be16(0) + [0, 0];
    var front := w + TcpFront(r);
    hide Filled, Put, Be16, Zeros, TcpFront;
    PutPast(front, MAX_FRAME, 4, r.payload);
    var tail := [0, 0] + r.payload;
    assert front + Zeros(4) + r.payload == front + Be16(0) + tail;
    assert w + TcpPart(r, 0) == front + Be16(0) + tail;
    assert w + TcpPart(r, crc) == front + Be16(crc) + tail;
    PutSame(front, Be16(0), Be16(crc), tail, MAX_FRAME, 50);
  }

  /** The checksum of a slice of the buffer. */
  method InternetChecksum(bytes: seq<byte>) returns (r: u16)
    requires |bytes| <= 0xFFFF
    ensures r == Finish(WordSum(bytes))
  {
    var sum := ChecksumSum(bytes);
    r := FinishChecksum(sum);
  }

  method ComputeTransportChecksum(source: Address, destination: Address, segment: seq<byte>) returns (r: u16)
    ensures r == TransportChecksum(source, destination, segment)
  {
    hide WordSum, Finish, PseudoHeader;
    if |segment| >= U16_LIMIT {
      return 1;
    }
    var pseudo := PseudoHeader(source, destination, |segment|);
    var first := ChecksumSum(pseudo);
    var second := ChecksumSum(segment);
    WordSumBound(pseudo);
    WordSumBound(segment);
    r := FinishChecksum(first + second);
  }

  /** Fills a zeroed buffer field by field; the checksums go in last. */
  method BuildTcpFrame(r: Request) returns (length: Result<nat, NetworkError>, frame: array<byte>)
    ensures length.Ok? <==> |r.payload| <= MAX_PAYLOAD
    ensures length.Err? ==> length == Err(FrameTooLarge)
    ensures fresh(frame) && frame.Length == MAX_FRAME
    ensures length.Ok? ==> length.value <= MAX_FRAME && frame[..length.value] == SentBytes(r)
  {
    hide Put, Filled, Be16, Be32, Xor16, EthernetHead, IpFront, IpHead, TcpFront, TcpPart, WordSum, Finish,
      TransportChecksum, SentBytes, FrameBytes;
    frame := new byte[MAX_FRAME](_ => 0);
    var frameLength := 54 + |r.payload|;
    if frameLength > MAX_FRAME {
      return Err(FrameTooLarge), frame;
    }
    assert frame[..] == Zeros(MAX_FRAME);
    PutField(frame, 0, r.destinationMac);
    PutField(frame, 6, r.sourceMac);
    PutField(frame, 12, Be16(0x0800));
    EthernetFilled(r);
    PutField(frame, 14, [0x45]);
    PutField(frame, 16, Be16(40 + |r.payload|));
    PutField(frame, 18, Be16(Xor16(r.sourcePort, r.destinationPort)));
    PutField(frame, 20, Be16(0x4000));
    PutField(frame, 22, [64]);
    PutField(frame, 23, [TCP_PROTOCOL]);
    IpFrontFilled(r);
    PutField(frame, 26, r.source);
    PutField(frame, 30, r.destination);
    IpFilled(r, 0);
    FilledSlice(EthernetHead(r), IpHead(r, 0), MAX_FRAME, 34);
    assert frame[14..34] == frame[..][14..34];
    var ipChecksum := InternetChecksum(frame[14..34]);
    PutField(frame, 24, Be16(ipChecksum));
    IpFilled(r, ipChecksum);
    FillTcp(r, frame, EthernetHead(r) + IpHead(r, ipChecksum));
    length := Ok(if frameLength < MIN_FRAME then MIN_FRAME else frameLength);
    SentIsFilled(r, frame[..]);
    assert frame[..length.value] == frame[..][..length.value];
  }

  method FillTcp(r: Request, frame: array<byte>, w: seq<byte>)
    requires |r.payload| <= MAX_PAYLOAD && frame.Length == MAX_FRAME && |w| == 34 && frame[..] == Filled(w, MAX_FRAME)
    modifies frame
    ensures frame[..] == Filled(w + TcpPart(r, TcpChecksum(r)), MAX_FRAME)
  {
    hide Put, Filled, Be16, Be32, TcpFront, TcpPart, TransportChecksum;
    PutField(frame, 34, Be16(r.sourcePort));
    PutField(frame, 36, Be16(r.destinationPort));
    PutField(frame, 38, Be32(r.sequence));
    PutField(frame, 42, Be32(r.acknowledgement));
    PutField(frame, 46, [80]);
    PutField(frame, 47, [r.flags % 64]);
    PutField(frame, 48, Be16(0x4000));
    TcpFrontFilled(r, w);
    PutField(frame, 54, r.payload);
    TcpFilled(r, w, 0);
    FilledSlice(w, TcpPart(r, 0), MAX_FRAME, 54 + |r.payload|);
    assert frame[34..54 + |r.payload|] == frame[..][34..54 + |r.payload|];
    var checksum := ComputeTransportChecksum(r.source, r.destination, frame[34..54 + |r.payload|]);
    if checksum == 0 {
      checksum := 0xFFFF;
    }
    PutField(frame, 50, Be16(checksum));
    TcpFilled(r, w, checksum);
  }

  lemma FilledSlice(a: seq<byte>, b: seq<byte>, n: nat, end: nat)
    requires |a| + |b| == end <= n
    ensures Filled(a + b, n)[|a|..end] == b
  {
  }

  lemma SentIsFilled(r: Request, frame: seq<byte>)
    requires |r.payload| <= MAX_PAYLOAD
    requires frame == Filled(EthernetHead(r) + IpHead(r, IpChecksum(r)) + TcpPart(r, TcpChecksum(r)), MAX_FRAME)
    ensures var n := 54 + |r.payload|; frame[..if n < MIN_FRAME then MIN_FRAME else n] == SentBytes(r)
  {
    hide EthernetHead, IpHead, TcpPart, IpChecksum, TcpChecksum;
    var f := FrameBytes(r);
    assert frame == f + Zeros(MAX_FRAME - |f|);
    if |f| < MIN_FRAME {
      assert frame[..MIN_FRAME] == f + Zeros(MIN_FRAME - |f|);
    } else {
      assert frame[..|f|] == f;
    }
  }
}
