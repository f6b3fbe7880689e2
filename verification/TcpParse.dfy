/** Which frames the parsers accept and what they read in them, in terms of the packet that the
    frame carries. */
module TcpParse {
  import opened Bytes
  import opened Wrappers
  import opened Checksum
  import opened TcpFrame

  /** An IPv4 header of a whole TCP packet (section 3.1 of RFC 791). */
  ghost predicate GoodHeader(ip: seq<byte>, segmentBytes: nat, source: Address, destination: Address)
  {
    && 20 <= |ip| <= 60 && |ip| % 4 == 0
    && ip[0] == 0x40 + |ip| / 4
    && Be16At(ip, 2) == |ip| + segmentBytes
    && (Be16At(ip, 6) == 0 || Be16At(ip, 6) == 0x4000 || Be16At(ip, 6) == 0x8000 || Be16At(ip, 6) == 0xC000)
    && ip[9] == 6 && ip[12..16] == source && ip[16..20] == destination
    && WordSum(ip) % 0xFFFF == 0
  }

  /** A TCP segment with a correct checksum (section 3.1 of RFC 9293). */
  ghost predicate GoodSegment(segment: seq<byte>, source: Address, destination: Address)
  {
    && 20 <= |segment| < U16_LIMIT
    && 20 <= segment[12] / 16 * 4 <= |segment|
    && (WordSum(PseudoHeader(source, destination, |segment|)) + WordSum(segment)) % 0xFFFF == 0
  }

  /** The Ethernet frame carries this packet, with anything behind it. */
  ghost predicate Carries(frame: seq<byte>, source: Address, destination: Address, ip: seq<byte>, segment: seq<byte>)
  {
    && GoodHeader(ip, |segment|, source, destination) && GoodSegment(segment, source, destination)
    && |frame| >= 14 + |ip| + |segment| && frame[12] == 8 && frame[13] == 0
    && frame[14..14 + |ip|] == ip && frame[14 + |ip|..14 + |ip| + |segment|] == segment
  }

  lemma MaskedMeans(v: u16)
    ensures Masked(v) <==> v == 0 || v == 0x4000 || v == 0x8000 || v == 0xC000
  {
  }

  lemma SegmentChecks(segment: seq<byte>, source: Address, destination: Address)
    requires |segment| < U16_LIMIT
    ensures TransportChecksum(source, destination, segment) == 0 <==>
      (WordSum(PseudoHeader(source, destination, |segment|)) + WordSum(segment)) % 0xFFFF == 0
  {
    hide WordSum, Finish, PseudoHeader;
    PseudoSumPositive(source, destination, |segment|);
    PassesIff(WordSum(PseudoHeader(source, destination, |segment|)) + WordSum(segment));
  }

  lemma HeaderChecks(ip: seq<byte>)
    requires |ip| >= 2 && ip[0] > 0
    ensures Finish(WordSum(ip)) == 0 <==> WordSum(ip) % 0xFFFF == 0
  {
    hide Finish;
    PassesIff(WordSum(ip));
  }

  lemma SameBe16(frame: seq<byte>, part: seq<byte>, at: nat, k: nat)
    requires at + |part| <= |frame| && frame[at..at + |part|] == part && k + 2 <= |part|
    ensures Be16At(frame, at + k) == Be16At(part, k)
  {
    assert part[k] == frame[at + k] && part[k + 1] == frame[at + k + 1];
  }

  lemma SameBe32(frame: seq<byte>, part: seq<byte>, at: nat, k: nat)
    requires at + |part| <= |frame| && frame[at..at + |part|] == part && k + 4 <= |part|
    ensures Be32At(frame, at + k) == Be32At(part, k)
  {
    assert part[k] == frame[at + k] && part[k + 1] == frame[at + k + 1];
    assert part[k + 2] == frame[at + k + 2] && part[k + 3] == frame[at + k + 3];
  }

  lemma SamePart(frame: seq<byte>, part: seq<byte>, at: nat, i: nat, n: nat)
    requires at + |part| <= |frame| && frame[at..at + |part|] == part && i + n <= |part|
    ensures frame[at + i..at + i + n] == part[i..i + n]
  {
    Slice(frame, at, |part|, i, n);
  }

  lemma EtherType(frame: seq<byte>)
    requires |frame| >= 14
    ensures Be16At(frame, 12) == 0x0800 <==> frame[12] == 8 && frame[13] == 0
  {
  }

  /** A carried packet is well formed. */
  lemma CarriedIsWellFormed(frame: seq<byte>, source: Address, destination: Address, ip: seq<byte>, segment: seq<byte>)
    requires Carries(frame, source, destination, ip, segment)
    ensures |frame| >= 54 && WellFormed(frame, source, destination)
    ensures frame[IP] % 16 * 4 == |ip| && Be16At(frame, IP + 2) == |ip| + |segment|
  {
    hide WordSum, Finish, TransportChecksum, PseudoHeader, Be16At, Masked;
    assert frame[14] == ip[0] && frame[23] == ip[9];
    assert ip[0] % 16 == |ip| / 4 && ip[0] / 16 == 4;
    EtherType(frame);
    SameBe16(frame, ip, 14, 2);
    SameBe16(frame, ip, 14, 6);
    MaskedMeans(Be16At(ip, 6));
    SamePart(frame, ip, 14, 12, 4);
    SamePart(frame, ip, 14, 16, 4);
    HeaderChecks(ip);
    SegmentChecks(segment, source, destination);
    var tcp := 14 + |ip|;
    assert frame[tcp + 12] == segment[12];
  }

  /** A well-formed frame carries exactly one packet. */
  lemma WellFormedCarries(frame: seq<byte>, source: Address, destination: Address)
    requires |frame| >= 54 && WellFormed(frame, source, destination)
    ensures var tcp, end := IP + frame[IP] % 16 * 4, IP + Be16At(frame, IP + 2);
      tcp <= end <= |frame| && Carries(frame, source, destination, frame[IP..tcp], frame[tcp..end])
  {
    hide WordSum, Finish, TransportChecksum, PseudoHeader, Be16At, Masked;
    var tcp, end := IP + frame[IP] % 16 * 4, IP + Be16At(frame, IP + 2);
    var ip, segment := frame[IP..tcp], frame[tcp..end];
    assert frame[14] == ip[0] && frame[23] == ip[9] && frame[tcp + 12] == segment[12];
    EtherType(frame);
    SameBe16(frame, ip, 14, 2);
    SameBe16(frame, ip, 14, 6);
    MaskedMeans(Be16At(ip, 6));
    SamePart(frame, ip, 14, 12, 4);
    SamePart(frame, ip, 14, 16, 4);
    HeaderChecks(ip);
    SegmentChecks(segment, source, destination);
  }

  lemma CarriedParts(frame: seq<byte>, source: Address, destination: Address, ip: seq<byte>, segment: seq<byte>)
    requires Carries(frame, source, destination, ip, segment)
    ensures |ip| >= 20 && |segment| >= 20 && |frame| >= 14 + |ip| + |segment|
    ensures frame[14..14 + |ip|] == ip && frame[14 + |ip|..14 + |ip| + |segment|] == segment
    ensures ip[12..16] == source && ip[16..20] == destination && 20 <= segment[12] / 16 * 4 <= |segment|
  {
    hide WordSum, PseudoHeader, Be16At;
  }

  /** What a parser reads in a segment. */
  ghost predicate Reads(frame: seq<byte>, s: Segment, segment: seq<byte>)
    requires |segment| >= 20
  {
    && s.sequence == Be32At(segment, 4) && s.acknowledgement == Be32At(segment, 8) && s.flags == segment[13]
    && segment[12] / 16 * 4 <= |segment|
    && s.payloadOffset + s.payloadLength <= |frame|
    && frame[s.payloadOffset..s.payloadOffset + s.payloadLength] == segment[segment[12] / 16 * 4..]
  }

  lemma CarriedReads(frame: seq<byte>, source: Address, destination: Address, ip: seq<byte>, segment: seq<byte>)
    requires Carries(frame, source, destination, ip, segment)
    ensures |frame| >= 54 && |segment| >= 20
    ensures WellFormed(frame, frame[IP + 12..IP + 16], frame[IP + 16..IP + 20])
    ensures Reads(frame, SegmentOf(frame), segment)
    ensures frame[IP + 12..IP + 16] == source && frame[IP + 16..IP + 20] == destination
    ensures var tcp := IP + frame[IP] % 16 * 4;
      && tcp + 20 <= |frame| && Be16At(frame, tcp) == Be16At(segment, 0) && Be16At(frame, tcp + 2) == Be16At(segment, 2)
  {
    hide Be16At, Be32At, WellFormed, Carries;
    CarriedIsWellFormed(frame, source, destination, ip, segment);
    CarriedParts(frame, source, destination, ip, segment);
    SamePart(frame, ip, 14, 12, 4);
    SamePart(frame, ip, 14, 16, 4);
    var tcp := 14 + |ip|;
    SameBe16(frame, segment, tcp, 0);
    SameBe16(frame, segment, tcp, 2);
    SameBe32(frame, segment, tcp, 4);
    SameBe32(frame, segment, tcp, 8);
    assert frame[tcp + 12] == segment[12] && frame[tcp + 13] == segment[13];
    var offset := segment[12] / 16 * 4;
    SamePart(frame, segment, tcp, offset, |segment| - offset);
  }

  /** A packet for the listener's address and port, in a frame for its address on the wire. */
  ghost predicate ForListener(frame: seq<byte>, mac: Mac, local: Address, port: u16, source: Address, ip: seq<byte>,
                              segment: seq<byte>)
  {
    Carries(frame, source, local, ip, segment) && frame[0..6] == mac && Be16At(segment, 2) == port
  }

  /** A packet of the connection's peer, in a frame from its address on the wire. */
  ghost predicate ForClient(frame: seq<byte>, mac: Mac, local: Address, remote: Address, localPort: u16,
                            remotePort: u16, ip: seq<byte>, segment: seq<byte>)
  {
    && Carries(frame, remote, local, ip, segment) && frame[6..12] == mac
    && Be16At(segment, 0) == remotePort && Be16At(segment, 2) == localPort
  }

  /** Such a packet is accepted by the listener, which reads the sender and the segment off it. */
  lemma ListenerAccepts(frame: seq<byte>, mac: Mac, local: Address, port: u16, source: Address, ip: seq<byte>,
                        segment: seq<byte>)
    requires ForListener(frame, mac, local, port, source, ip, segment)
    ensures var r := ParseIncoming(frame, mac, local, port);
      && r.Ok? && |segment| >= 20 && Reads(frame, r.value.segment, segment)
      && r.value.mac == frame[6..12] && r.value.address == source && r.value.port == Be16At(segment, 0)
  {
    CarriedReads(frame, source, local, ip, segment);
    CarriedIsWellFormed(frame, source, local, ip, segment);
    hide WellFormed, SegmentOf, Be16At, Reads;
  }

  /** Nothing else is accepted: another address, port, protocol or fragment, and every wrong
      length or checksum, is refused. */
  lemma ListenerIff(frame: seq<byte>, mac: Mac, local: Address, port: u16)
    ensures ParseIncoming(frame, mac, local, port).Ok? <==>
      exists source, ip, segment :: ForListener(frame, mac, local, port, source, ip, segment)
  {
    hide WellFormed, ForListener, SegmentOf, Be16At, Carries;
    var r := ParseIncoming(frame, mac, local, port);
    if r.Ok? {
      var source := frame[IP + 12..IP + 16];
      WellFormedCarries(frame, source, local);
      var tcp, end := IP + frame[IP] % 16 * 4, IP + Be16At(frame, IP + 2);
      var ip, segment := frame[IP..tcp], frame[tcp..end];
      CarriedReads(frame, source, local, ip, segment);
      FoundForListener(frame, mac, local, port, source, ip, segment);
    }
    if exists source, ip, segment :: ForListener(frame, mac, local, port, source, ip, segment) {
      var source, ip, segment :| ForListener(frame, mac, local, port, source, ip, segment);
      ListenerAccepts(frame, mac, local, port, source, ip, segment);
    }
  }

  lemma FoundForListener(frame: seq<byte>, mac: Mac, local: Address, port: u16, source: Address, ip: seq<byte>,
                         segment: seq<byte>)
    requires Carries(frame, source, local, ip, segment) && |frame| >= 54 && |segment| >= 20
    requires frame[0..6] == mac && Be16At(segment, 2) == port
    ensures ForListener(frame, mac, local, port, source, ip, segment)
  {
  }

  /** The same for the client's parser. */
  lemma ClientIff(frame: seq<byte>, mac: Mac, local: Address, remote: Address, localPort: u16, remotePort: u16)
    ensures ParseSegment(frame, mac, local, remote, localPort, remotePort).Ok? <==>
      exists ip, segment :: ForClient(frame, mac, local, remote, localPort, remotePort, ip, segment)
  {
    hide WellFormed, ForClient, SegmentOf, Be16At, Carries;
    var r := ParseSegment(frame, mac, local, remote, localPort, remotePort);
    if r.Ok? {
      WellFormedCarries(frame, remote, local);
      var tcp, end := IP + frame[IP] % 16 * 4, IP + Be16At(frame, IP + 2);
      var ip, segment := frame[IP..tcp], frame[tcp..end];
      CarriedReads(frame, remote, local, ip, segment);
      FoundForClient(frame, mac, local, remote, localPort, remotePort, ip, segment);
    }
    if exists ip, segment :: ForClient(frame, mac, local, remote, localPort, remotePort, ip, segment) {
      var ip, segment :| ForClient(frame, mac, local, remote, localPort, remotePort, ip, segment);
      ClientAccepts(frame, mac, local, remote, localPort, remotePort, ip, segment);
    }
  }

  lemma ClientAccepts(frame: seq<byte>, mac: Mac, local: Address, remote: Address, localPort: u16, remotePort: u16,
                      ip: seq<byte>, segment: seq<byte>)
    requires ForClient(frame, mac, local, remote, localPort, remotePort, ip, segment)
    ensures var r := ParseSegment(frame, mac, local, remote, localPort, remotePort);
      r.Ok? && |segment| >= 20 && Reads(frame, r.value, segment)
  {
    CarriedReads(frame, remote, local, ip, segment);
    CarriedIsWellFormed(frame, remote, local, ip, segment);
    hide WellFormed, SegmentOf, Be16At, Reads;
  }

  lemma FoundForClient(frame: seq<byte>, mac: Mac, local: Address, remote: Address, localPort: u16, remotePort: u16,
                       ip: seq<byte>, segment: seq<byte>)
    requires Carries(frame, remote, local, ip, segment) && |frame| >= 54 && |segment| >= 20
    requires frame[6..12] == mac && Be16At(segment, 0) == remotePort && Be16At(segment, 2) == localPort
    ensures ForClient(frame, mac, local, remote, localPort, remotePort, ip, segment)
  {
  }
}
