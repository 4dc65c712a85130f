/** IPv4 packets and UDP datagrams told byte by byte: which are accepted, as what, and
    what the emitter writes. */
module WireFrames {
  import opened Machine
  import opened Checksum
  import opened Wire
  import opened WireOptions
  import opened WireCodec
  import opened WireFaults

  /** The high half of the first byte is the version. */
  lemma VersionIs(packet: Bytes, verify: bool, strict: bool)
    ensures var r := ParseIp(packet, verify, strict);
      && (packet == [] ==> r == Err(Truncated))
      && (packet != [] && 0x40 <= packet[0] < 0x50 ==> r == ParseIpv4(packet, verify))
      && (packet != [] && 0x60 <= packet[0] < 0x70 ==> r == ParseIpv6(packet, strict))
      && (packet != [] && !(0x40 <= packet[0] < 0x50) && !(0x60 <= packet[0] < 0x70) ==>
            r == Err(Unsupported("IP version")))
  {
    hide ParseIpv4, ParseIpv6;
  }

  // ----- IPv4 -----

  ghost predicate AreIpv4Options(area: Bytes) {
    exists options, zeros :: AllIpv4(options) && AllZero(zeros) && area == Joined(options) + zeros
  }

  /** A whole IPv4 header before so many bytes of payload: its own length in the low half
      of its first byte, in words of four bytes, and then its options. */
  ghost predicate IsIpv4Header(header: Bytes, payload: nat, verify: bool) {
    && |header| >= 20 && |header| == 4 * (header[0] as int % 16)
    && Be16(header[2], header[3]) == |header| + payload
    && AreIpv4Options(header[20..])
    && (verify ==> OnesSum(header, 0) == 0xffff)
    && header[6] < 0x80 && (header[6] >= 0x40 ==> !IsIpv4Fragment(header))
  }

  /** More fragments follow, or some came before. */
  predicate IsIpv4Fragment(header: Bytes)
    requires |header| >= 20
  {
    header[6] as int % 0x40 != 0 || header[7] != 0
  }

  function Ipv4Said(header: Bytes, payload: Bytes): IpPacket
    requires |header| >= 20
  {
    var fragment := FragmentInfo(Be16(header[4], header[5]), (header[6] as int % 0x20 * 256 + header[7]) * 8,
                                 header[6] as int / 0x20 % 2 == 1);
    IpPacket(V4(header[12..16]), V4(header[16..20]), header[9], header[8],
             if IsIpv4Fragment(header) then Some(fragment) else None,
             if IsIpv4Fragment(header) then Some(payload) else None, payload)
  }

  ghost predicate Ipv4Says(packet: Bytes, verify: bool, header: Bytes, payload: Bytes, p: IpPacket) {
    && |header| + |payload| <= |packet| && packet[..|header| + |payload|] == header + payload
    && IsIpv4Header(header, |payload|, verify) && p == Ipv4Said(header, payload)
  }

  lemma Ipv4Bits(high: byte, low: byte)
    ensures var bits := Be16(high, low); var h, l := high as int, low as int;
      && bits % 0x2000 * 8 == (h % 0x20 * 256 + l) * 8 && (bits / 0x2000 % 2 == 1 <==> h / 0x20 % 2 == 1)
      && (bits >= 0x8000 <==> h >= 0x80) && (h < 0x80 ==> (bits / 0x4000 % 2 == 1 <==> h >= 0x40))
      && ((bits % 0x2000 * 8 != 0 || bits / 0x2000 % 2 == 1) <==> h % 0x40 != 0 || l != 0)
  {
    var bits, h, l := Be16(high, low), high as int, low as int;
    assert bits == 0x2000 * (h / 0x20) + (h % 0x20 * 256 + l);
    assert bits / 0x2000 == h / 0x20 && bits % 0x2000 == h % 0x20 * 256 + l;
  }

  lemma Ipv4Read(packet: Bytes, verify: bool, header: Bytes, payload: Bytes)
    requires |header| >= 20 && |header| == 4 * (header[0] as int % 16)
    requires |header| + |payload| <= |packet| && packet[..|header| + |payload|] == header + payload
    requires Be16(header[2], header[3]) == |header| + |payload|
    ensures ParseIpv4(packet, verify).Ok? <==> IsIpv4Header(header, |payload|, verify)
    ensures ParseIpv4(packet, verify).Ok? ==> ParseIpv4(packet, verify).value == Ipv4Said(header, payload)
  {
    hide OnesSum, Ipv4Options, AreIpv4Options;
    var n, m := |header|, |payload|;
    assert forall i :: 0 <= i < n ==> packet[i] == packet[..n + m][i] == header[i];
    assert packet[..n] == header && packet[n..n + m] == payload;
    assert packet[20..n] == header[20..] && packet[12..16] == header[12..16] && packet[16..20] == header[16..20];
    Ipv4Bits(header[6], header[7]);
    Ipv4OptionsRead(header[20..]);
    hide Be16;
  }

  lemma Ipv4OptionsRead(area: Bytes)
    ensures Ipv4Options(area).None? <==> AreIpv4Options(area)
  {
    Ipv4OptionsAre(area);
  }

  /** A packet parses, and to what, exactly when it is a whole header and the payload that
      the header gives the length of, whatever follows them. */
  lemma Ipv4Exactly(packet: Bytes, verify: bool, p: IpPacket)
    ensures ParseIpv4(packet, verify) == Ok(p) <==>
      exists header, payload :: Ipv4Says(packet, verify, header, payload, p)
  {
    hide IsIpv4Header, OnesSum, Ipv4Options;
    if ParseIpv4(packet, verify) == Ok(p) {
      var n, total := packet[0] as int % 16 * 4, Be16(packet[2], packet[3]);
      var header, payload := packet[..n], packet[n..total];
      assert packet[..total] == header + payload;
      Ipv4Read(packet, verify, header, payload);
      assert Ipv4Says(packet, verify, header, payload, p);
    }
    forall header, payload | Ipv4Says(packet, verify, header, payload, p) ensures ParseIpv4(packet, verify) == Ok(p) {
      Ipv4Sized(header, |payload|, verify);
      Ipv4Read(packet, verify, header, payload);
    }
  }

  lemma Ipv4Sized(header: Bytes, payload: nat, verify: bool)
    requires IsIpv4Header(header, payload, verify)
    ensures |header| >= 20 && |header| == 4 * (header[0] as int % 16)
    ensures Be16(header[2], header[3]) == |header| + payload
  {}

  /** The packet is as long as its header, and that as long as it says. */
  predicate HasIpv4Header(packet: Bytes) {
    |packet| >= 20 && 20 <= 4 * (packet[0] as int % 16) <= |packet|
  }

  predicate HasIpv4Length(packet: Bytes) {
    HasIpv4Header(packet) && 4 * (packet[0] as int % 16) <= Be16(packet[2], packet[3]) <= |packet|
  }

  /** What else a packet is refused for, in this order: its lengths, its options, its
      checksum, its fragment bits. */
  lemma Ipv4Refused(packet: Bytes, verify: bool)
    ensures var r, n := ParseIpv4(packet, verify), if |packet| == 0 then 0 else 4 * (packet[0] as int % 16);
      && (!HasIpv4Header(packet) ==>
            r == Err(if |packet| < 20 then Truncated else Malformed("IPv4 header length")))
      && (HasIpv4Header(packet) && !HasIpv4Length(packet) ==> r == Err(Truncated))
      && (HasIpv4Length(packet) && !AreIpv4Options(packet[20..n]) ==>
            r.Err? && Some(r.error) == Ipv4Options(packet[20..n]))
      && (HasIpv4Length(packet) && AreIpv4Options(packet[20..n]) ==>
            && (r == Err(BadChecksum) <==> verify && OnesSum(packet[..n], 0) != 0xffff)
            && (r == Err(Malformed("IPv4 reserved fragment flag")) <==> r != Err(BadChecksum) && packet[6] >= 0x80)
            && (r == Err(Malformed("IPv4 DF set on a fragment")) <==>
                  r != Err(BadChecksum) && 0x40 <= packet[6] < 0x80 && IsIpv4Fragment(packet)))
  {
    hide OnesSum, Ipv4Options, AreIpv4Options;
    if HasIpv4Length(packet) {
      Ipv4OptionsRead(packet[20..4 * (packet[0] as int % 16)]);
      Ipv4Bits(packet[6], packet[7]);
    }
    hide Be16;
  }

  // ----- UDP -----

  /** Not a fragment, or one that is all of its packet. */
  predicate IsWhole(ip: IpPacket) {
    ip.fragment.Some? ==> ip.fragment.value.offsetBytes == 0 && !ip.fragment.value.moreFragments
  }

  /** A UDP segment, ports, length, checksum and data, at the start of a packet's payload.
      A checksum of zero is none, which IPv6 does not allow. */
  predicate IsUdp(ip: IpPacket, verify: bool, segment: Bytes) {
    && ip.nextHeader == 17 && IsWhole(ip)
    && 8 <= |segment| < 0x1_0000 && |segment| <= |ip.payload| && ip.payload[..|segment|] == segment
    && Be16(segment[4], segment[5]) == |segment|
    && (verify && Be16(segment[6], segment[7]) == 0 ==> ip.source.V4?)
    && (verify && Be16(segment[6], segment[7]) != 0 ==>
          && ip.source.V4? == ip.destination.V4?
          && OnesSum(PseudoHeader(ip.source, ip.destination, 17, |segment|) + segment, 0) == 0xffff)
  }

  predicate UdpSays(ip: IpPacket, verify: bool, segment: Bytes, d: UdpDatagram) {
    && IsUdp(ip, verify, segment)
    && d == UdpDatagram(SocketAddr(ip.source, Be16(segment[0], segment[1])),
                        SocketAddr(ip.destination, Be16(segment[2], segment[3])), segment[8..])
  }

  lemma UdpSummed(ip: IpPacket, segment: Bytes)
    requires |segment| < 0x1_0000
    ensures TransportSum(ip.source, ip.destination, UDP_PROTOCOL, segment) == ONES <==>
      ip.source.V4? == ip.destination.V4? &&
      OnesSum(PseudoHeader(ip.source, ip.destination, 17, |segment|) + segment, 0) == 0xffff
  {
    hide OnesSum, PseudoHeader;
    if ip.source.V4? == ip.destination.V4? { TransportSumIs(ip.source, ip.destination, 17, segment); }
  }

  /** A packet's payload parses as a datagram, and as which, exactly when a segment that
      says it is at its start. */
  lemma UdpExactly(ip: IpPacket, verify: bool, d: UdpDatagram)
    ensures ParseUdp(ip, verify) == Ok(d) <==> exists segment :: UdpSays(ip, verify, segment, d)
  {
    hide OnesSum, PseudoHeader, TransportSum;
    if |ip.payload| >= 8 {
      var n := Be16(ip.payload[4], ip.payload[5]);
      if 8 <= n <= |ip.payload| {
        UdpSummed(ip, ip.payload[..n]);
        if ParseUdp(ip, verify) == Ok(d) { assert UdpSays(ip, verify, ip.payload[..n], d); }
      }
    }
    forall segment | UdpSays(ip, verify, segment, d) ensures ParseUdp(ip, verify) == Ok(d) {
      assert forall i :: 0 <= i < 8 ==> segment[i] == ip.payload[i];
      UdpSummed(ip, segment);
    }
  }

  predicate HasUdpLength(payload: Bytes) {
    |payload| >= 8 && 8 <= Be16(payload[4], payload[5]) <= |payload|
  }

  /** What else it is refused for, in this order: its protocol, being a fragment, its
      length, its checksum. */
  lemma UdpRefused(ip: IpPacket, verify: bool)
    ensures var r := ParseUdp(ip, verify);
      && (r == Err(Unsupported("not UDP")) <==> ip.nextHeader != 17)
      && (r == Err(Unsupported("UDP requires IP reassembly")) <==> ip.nextHeader == 17 && !IsWhole(ip))
      && (r == Err(Truncated) <==> ip.nextHeader == 17 && IsWhole(ip) && !HasUdpLength(ip.payload))
      && (ip.nextHeader == 17 && IsWhole(ip) && HasUdpLength(ip.payload) ==> r.Ok? || r == Err(BadChecksum))
  {
    hide TransportSum;
  }

  /** What is delivered is UDP, and never a fragment: in IPv4 protocol 17, with no offset
      and none to follow. */
  lemma DeliveredWhole(packet: Bytes)
    requires Delivers(packet).Some?
    ensures ParseIp(packet, true, true).Ok? && ParseIp(packet, true, true).value.nextHeader == 17
    ensures IsWhole(ParseIp(packet, true, true).value)
    ensures packet[0] / 16 == 4 || packet[0] / 16 == 6
    ensures packet[0] / 16 == 4 ==>
      |packet| >= 28 && packet[9] == 17 && packet[6] as int % 0x40 == 0 && packet[7] == 0
  {
    hide OnesSum, Ipv4Options, ParseIpv6, TransportSum;
    if packet[0] / 16 == 4 { Ipv4Bits(packet[6], packet[7]); }
  }

  // ----- what is emitted -----

  /** The segment from byte `at` on: ports, length, a checksum that is not zero and
      verifies, and the payload. */
  ghost predicate SegmentAt(packet: Bytes, at: nat, source: SocketAddr, destination: SocketAddr, payload: Bytes) {
    && |packet| == at + 8 + |payload| && 8 + |payload| < 0x1_0000
    && Be16(packet[at], packet[at + 1]) == source.port && Be16(packet[at + 2], packet[at + 3]) == destination.port
    && Be16(packet[at + 4], packet[at + 5]) == 8 + |payload| && Be16(packet[at + 6], packet[at + 7]) != 0
    && OnesSum(PseudoHeader(source.ip, destination.ip, 17, 8 + |payload|) + packet[at..], 0) == 0xffff
    && packet[at + 8..] == payload
  }

  /** An IPv4 header of five words, never to be fragmented, and the segment. */
  ghost predicate Ipv4Bytes(packet: Bytes, source: SocketAddr, destination: SocketAddr, payload: Bytes, hopLimit: byte,
                            identification: u16) {
    && SegmentAt(packet, 20, source, destination, payload)
    && packet[0] == 0x45 && packet[1] == 0 && Be16(packet[2], packet[3]) == |packet|
    && Be16(packet[4], packet[5]) == identification && packet[6] == 0x40 && packet[7] == 0
    && packet[8] == hopLimit && packet[9] == 17 && OnesSum(packet[..20], 0) == 0xffff
    && packet[12..16] == source.ip.octets && packet[16..20] == destination.ip.octets
  }

  /** An IPv6 header without class or label, no extension, and the segment. */
  ghost predicate Ipv6Bytes(packet: Bytes, source: SocketAddr, destination: SocketAddr, payload: Bytes,
                            hopLimit: byte) {
    && SegmentAt(packet, 40, source, destination, payload)
    && packet[0] == 0x60 && packet[1] == 0 && packet[2] == 0 && packet[3] == 0
    && Be16(packet[4], packet[5]) == 8 + |payload| && packet[6] == 17 && packet[7] == hopLimit
    && packet[8..24] == source.ip.octets && packet[24..40] == destination.ip.octets
  }

  /** The emitter writes exactly these bytes. */
  lemma EmittedBytes(source: SocketAddr, destination: SocketAddr, payload: Bytes, hopLimit: byte, identification: u16)
    requires Emitted(source, destination, payload, hopLimit, identification).Ok?
    ensures var packet := Emitted(source, destination, payload, hopLimit, identification).value;
      if source.ip.V4? then Ipv4Bytes(packet, source, destination, payload, hopLimit, identification)
      else Ipv6Bytes(packet, source, destination, payload, hopLimit)
  {
    hide OnesSum, TransportSum, PseudoHeader, UdpChecksum, UdpSegment, Ipv4Header, Ipv6FixedHeader;
    var segment := UdpSegment(source.port, destination.port, payload, UdpChecksum(source, destination, payload));
    if source.ip.V4? {
      Ipv4HeaderVerifies(source.ip, destination.ip, 28 + |payload|, hopLimit, identification);
      var blank := Ipv4Header(source.ip, destination.ip, 28 + |payload|, hopLimit, identification, 0);
      var checksum := ONES - OnesSum(blank, 0);
      Ipv4HeaderBytes(source.ip, destination.ip, 28 + |payload|, hopLimit, identification, checksum);
      SegmentBytes(Ipv4Header(source.ip, destination.ip, 28 + |payload|, hopLimit, identification, checksum), source,
        destination, payload);
    } else {
      Ipv6HeaderBytes(source.ip, destination.ip, 8 + |payload|, hopLimit);
      SegmentBytes(Ipv6FixedHeader(source.ip, destination.ip, 8 + |payload|, hopLimit), source, destination, payload);
    }
  }

  lemma SegmentBytes(header: Bytes, source: SocketAddr, destination: SocketAddr, payload: Bytes)
    requires 8 + |payload| <= ONES && source.ip.V4? == destination.ip.V4?
    ensures var checksum := UdpChecksum(source, destination, payload);
      var segment := UdpSegment(source.port, destination.port, payload, checksum);
      SegmentAt(header + segment, |header|, source, destination, payload)
  {
    hide OnesSum, TransportSum, PseudoHeader, UdpChecksum;
    var checksum := UdpChecksum(source, destination, payload);
    var segment := UdpSegment(source.port, destination.port, payload, checksum);
    UdpSegmentVerifies(source, destination, payload);
    TransportSumIs(source.ip, destination.ip, 17, segment);
    assert (header + segment)[|header|..] == segment;
    assert segment[8..] == payload;
  }

  lemma Ipv4HeaderBytes(source: Ip, destination: Ip, totalLen: u16, hopLimit: byte, identification: u16, checksum: u16)
    requires source.V4? && destination.V4?
    ensures var header := Ipv4Header(source, destination, totalLen, hopLimit, identification, checksum);
      && |header| == 20 && header[0] == 0x45 && header[1] == 0 && Be16(header[2], header[3]) == totalLen
      && Be16(header[4], header[5]) == identification && header[6] == 0x40 && header[7] == 0
      && header[8] == hopLimit && header[9] == 17
      && header[12..16] == source.octets && header[16..20] == destination.octets
  {}

  lemma Ipv6HeaderBytes(source: Ip, destination: Ip, udpLen: u16, hopLimit: byte)
    requires source.V6? && destination.V6?
    ensures var header := Ipv6FixedHeader(source, destination, udpLen, hopLimit);
      && |header| == 40 && header[0] == 0x60 && header[1] == 0 && header[2] == 0 && header[3] == 0
      && Be16(header[4], header[5]) == udpLen && header[6] == 17 && header[7] == hopLimit
      && header[8..24] == source.octets && header[24..40] == destination.octets
  {}
}
