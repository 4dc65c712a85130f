/** What the parser makes of bytes it should not get: one byte wrong, and options it
    knows nothing of. */
module WireFaults {
  import opened Machine
  import opened Checksum
  import opened Wire
  import opened WireCodec

  // ----- the checksums tell one wrong byte -----

  /** What the byte at `i` weighs in the sum. */
  function Weight(i: nat): nat {
    if i % 2 == 0 then 256 else 1
  }

  lemma {:induction false} ByteChange(bytes: Bytes, i: nat, b: byte)
    requires i < |bytes|
    ensures WordSum(bytes[i := b]) == WordSum(bytes) + (b as int - bytes[i] as int) * Weight(i)
    decreases |bytes|
  {
    var changed := bytes[i := b];
    if i < 2 {
      assert AfterWord(changed) == AfterWord(bytes);
    } else {
      assert AfterWord(changed) == AfterWord(bytes)[i - 2 := b];
      ByteChange(AfterWord(bytes), i - 2, b);
    }
  }

  /** Two sums that differ by less than all ones do not both fold to it. */
  lemma FoldTells(a: nat, b: nat)
    requires a != b && -ONES < a - b < ONES && Fold(a) == ONES
    ensures Fold(b) != ONES
  {
    var j := FoldParts(a);
    var k := FoldParts(b);
  }

  /** So one changed byte shows, whatever else is summed. */
  lemma ByteTells(other: nat, bytes: Bytes, i: nat, b: byte)
    requires i < |bytes| && b != bytes[i] && Fold(other + WordSum(bytes)) == ONES
    ensures Fold(other + WordSum(bytes[i := b])) != ONES
  {
    ByteChange(bytes, i, b);
    FoldTells(other + WordSum(bytes), other + WordSum(bytes[i := b]));
  }

  /** A byte of the header of an accepted IPv4 packet changed, but for the one that
      says how long the header is: the packet is refused. */
  lemma Ipv4HeaderFault(packet: Bytes, i: nat, b: byte)
    requires packet != [] && packet[0] / 16 == 4 && ParseIp(packet, true, true).Ok?
    requires 1 <= i < packet[0] as int % 16 * 4 && i < |packet| && b != packet[i]
    ensures ParseIp(packet[i := b], true, true).Err?
  {
    hide Ipv4Options, OnesSum;
    var headerLen := packet[0] as int % 16 * 4;
    var changed := packet[i := b];
    assert changed[..headerLen] == packet[..headerLen][i := b];
    FoldZero();
    OnesSumIsFold(packet[..headerLen], 0);
    OnesSumIsFold(changed[..headerLen], 0);
    ByteTells(0, packet[..headerLen], i, b);
  }

  /** A byte of an accepted datagram changed, its length aside, is told, unless the
      change takes the checksum away where there need not be one. */
  lemma UdpFault(ip: IpPacket, i: nat, b: byte)
    requires ParseUdp(ip, true).Ok? && i < Be16(ip.payload[4], ip.payload[5]) && i != 4 && i != 5 && b != ip.payload[i]
    requires Be16(ip.payload[6], ip.payload[7]) != 0 && ip.source.V4? == ip.destination.V4?
    ensures var changed := ip.payload[i := b];
      ParseUdp(ip.(payload := changed), true).Err? || (ip.source.V4? && Be16(changed[6], changed[7]) == 0)
  {
    hide WordSum, Fold;
    var udpLen := Be16(ip.payload[4], ip.payload[5]);
    var udp, changed := ip.payload[..udpLen], ip.payload[i := b];
    assert changed[..udpLen] == udp[i := b];
    ByteTells(WordSum(ip.source.octets) + WordSum(ip.destination.octets) + UDP_PROTOCOL + udpLen, udp, i, b);
  }

  /** A datagram that comes with another address than it was sent to or from, one byte
      off, is refused. */
  lemma AddressFault(ip: IpPacket, wrong: IpPacket, i: nat, b: byte)
    requires ParseUdp(ip, true).Ok? && Be16(ip.payload[6], ip.payload[7]) != 0 && ip.source.V4? == ip.destination.V4?
    requires wrong == ip.(source := wrong.source) || wrong == ip.(destination := wrong.destination)
    requires i < |ip.source.octets| && wrong.source.V4? == wrong.destination.V4? == ip.source.V4?
    requires
      || (b != ip.source.octets[i] && wrong.source.octets == ip.source.octets[i := b])
      || (b != ip.destination.octets[i] && wrong.destination.octets == ip.destination.octets[i := b])
    ensures ParseUdp(wrong, true) == Err(BadChecksum)
  {
    hide WordSum, Fold;
    var udp := ip.payload[..Be16(ip.payload[4], ip.payload[5])];
    var rest := UDP_PROTOCOL + |udp| + WordSum(udp);
    if wrong.source != ip.source {
      ByteTells(WordSum(ip.destination.octets) + rest, ip.source.octets, i, b);
    } else {
      ByteTells(WordSum(ip.source.octets) + rest, ip.destination.octets, i, b);
    }
  }

  /** What a packet delivers, checksums verified. */
  function Delivers(packet: Bytes): Option<UdpDatagram> {
    var ip := ParseIp(packet, true, true);
    if ip.Err? then None else
    var udp := ParseUdp(ip.value, true);
    if udp.Err? then None else Some(udp.value)
  }

  /** The bytes that say what follows and how long it is: the checksums cannot vouch
      for a packet read by another measure. */
  predicate IsFraming(v4: bool, i: nat) {
    if v4 then i == 0 || i == 24 || i == 25 else i == 0 || i == 6 || i == 44 || i == 45
  }

  /** One byte of an emitted packet changed on the way, the framing aside: either it is
      refused, or it delivers the very datagram that was sent. */
  lemma OneByteWrong(source: SocketAddr, destination: SocketAddr, payload: Bytes, hopLimit: byte, identification: u16,
                     i: nat, b: byte)
    requires Emitted(source, destination, payload, hopLimit, identification).Ok?
    requires var packet := Emitted(source, destination, payload, hopLimit, identification).value;
      i < |packet| && b != packet[i] && !IsFraming(source.ip.V4?, i)
    ensures var packet := Emitted(source, destination, payload, hopLimit, identification).value;
      var got := Delivers(packet[i := b]);
      got.None? || got == Some(UdpDatagram(Bare(source), Bare(destination), payload))
  {
    hide ParseIp, ParseUdp, OnesSum, UdpChecksum, Ipv4Header, Ipv6FixedHeader, UdpSegment;
    var v4 := source.ip.V4?;
    var packet := Emitted(source, destination, payload, hopLimit, identification).value;
    var segment := UdpSegment(source.port, destination.port, payload, UdpChecksum(source, destination, payload));
    var start := if v4 then 20 else 40;
    var header := EmittedHeader(source, destination, payload, hopLimit, identification);
    EmittedParts(source, destination, payload, hopLimit, identification);
    if i >= start {
      assert packet[i := b] == header + segment[i - start := b];
      SegmentWrong(source, destination, payload, hopLimit, identification, i - start, b);
    } else if v4 {
      RoundTrip(source, destination, payload, hopLimit, identification);
      VersionByte(source, destination, payload, hopLimit, identification);
      Ipv4HeaderFault(packet, i, b);
    } else if i < 7 {
      assert packet[i := b] == header[i := b] + segment;
      Ipv6StartWrong(source, destination, payload, hopLimit, identification, i, b);
    } else {
      assert packet[i := b] == header[i := b] + segment;
      Ipv6HeaderWrong(source, destination, payload, hopLimit, identification, i, b);
    }
  }

  function EmittedHeader(source: SocketAddr, destination: SocketAddr, payload: Bytes, hopLimit: byte,
                         identification: u16): Bytes
    requires Emitted(source, destination, payload, hopLimit, identification).Ok?
  {
    if source.ip.V4? then
      var blank := Ipv4Header(source.ip, destination.ip, 28 + |payload|, hopLimit, identification, 0);
      Ipv4Header(source.ip, destination.ip, 28 + |payload|, hopLimit, identification, ONES - OnesSum(blank, 0))
    else Ipv6FixedHeader(source.ip, destination.ip, 8 + |payload|, hopLimit)
  }

  lemma EmittedParts(source: SocketAddr, destination: SocketAddr, payload: Bytes, hopLimit: byte, identification: u16)
    requires Emitted(source, destination, payload, hopLimit, identification).Ok?
    ensures 8 + |payload| <= ONES && source.ip.V4? == destination.ip.V4? && (source.ip.V4? ==> 28 + |payload| <= ONES)
    ensures var segment := UdpSegment(source.port, destination.port, payload,
      UdpChecksum(source, destination, payload));
      var header := EmittedHeader(source, destination, payload, hopLimit, identification);
      && |segment| == 8 + |payload| && |header| == (if source.ip.V4? then 20 else 40)
      && Emitted(source, destination, payload, hopLimit, identification).value == header + segment
  {
    hide OnesSum, UdpChecksum;
  }

  lemma VersionByte(source: SocketAddr, destination: SocketAddr, payload: Bytes, hopLimit: byte, identification: u16)
    requires Emitted(source, destination, payload, hopLimit, identification).Ok? && source.ip.V4?
    ensures Emitted(source, destination, payload, hopLimit, identification).value[0] == 0x45
  {
    hide OnesSum, UdpChecksum, UdpSegment;
    EmittedParts(source, destination, payload, hopLimit, identification);
  }

  /** Whatever stands behind an emitted header in place of the segment is what arrives. */
  lemma HeaderCarries(source: SocketAddr, destination: SocketAddr, payload: Bytes, hopLimit: byte,
                      identification: u16, segment: Bytes)
    requires Emitted(source, destination, payload, hopLimit, identification).Ok? && |segment| == 8 + |payload|
    ensures ParseIp(EmittedHeader(source, destination, payload, hopLimit, identification) + segment, true, true)
      == Ok(IpPacket(source.ip, destination.ip, UDP_PROTOCOL, hopLimit, None, None, segment))
  {
    hide ParseIp, OnesSum, Ipv4Header, Ipv6FixedHeader;
    EmittedParts(source, destination, payload, hopLimit, identification);
    if source.ip.V4? {
      Ipv4RoundTrip(source.ip, destination.ip, segment, hopLimit, identification);
    } else {
      Ipv6RoundTrip(source.ip, destination.ip, segment, hopLimit);
    }
  }

  lemma SegmentWrong(source: SocketAddr, destination: SocketAddr, payload: Bytes, hopLimit: byte, identification: u16,
                     i: nat, b: byte)
    requires Emitted(source, destination, payload, hopLimit, identification).Ok? && i < 8 + |payload| && i != 4 &&
      i != 5
    requires var segment := UdpSegment(source.port, destination.port, payload,
      UdpChecksum(source, destination, payload));
      |segment| == 8 + |payload| && b != segment[i]
    ensures var header := EmittedHeader(source, destination, payload, hopLimit, identification);
      var segment := UdpSegment(source.port, destination.port, payload, UdpChecksum(source, destination, payload));
      var got := Delivers(header + segment[i := b]);
      got.None? || got == Some(UdpDatagram(Bare(source), Bare(destination), payload))
  {
    hide ParseIp, OnesSum, UdpChecksum, EmittedHeader, Emitted, TransportSum;
    EmittedParts(source, destination, payload, hopLimit, identification);
    var checksum := UdpChecksum(source, destination, payload);
    var segment := UdpSegment(source.port, destination.port, payload, checksum);
    var ip := IpPacket(source.ip, destination.ip, UDP_PROTOCOL, hopLimit, None, None, segment);
    HeaderCarries(source, destination, payload, hopLimit, identification, segment[i := b]);
    UdpRoundTrip(source, destination, payload, hopLimit);
    UdpSegmentVerifies(source, destination, payload);
    assert Be16(segment[6], segment[7]) == checksum && Be16(segment[4], segment[5]) == |segment|;
    UdpFault(ip, i, b);
    if i == 6 || i == 7 { Unchecked(ip, segment[i := b]); }
  }

  /** An IPv6 packet whose first header is already UDP's. */
  lemma Ipv6Plain(packet: Bytes)
    requires |packet| >= 40 && packet[0] / 16 == 6 && packet[6] == UDP_PROTOCOL
    ensures var totalLen := 40 + Be16(packet[4], packet[5]);
      ParseIp(packet, true, true) == if totalLen > |packet| then Err(Truncated) else
        Ok(IpPacket(V6(packet[8..24]), V6(packet[24..40]), UDP_PROTOCOL, packet[7], None, None, packet[40..totalLen]))
  {}

  /** A changed class or flow label is not looked at; a changed length leaves the segment
      too short for the length it says, or the packet too short for its own. */
  lemma Ipv6StartWrong(source: SocketAddr, destination: SocketAddr, payload: Bytes, hopLimit: byte,
                       identification: u16, i: nat, b: byte)
    requires Emitted(source, destination, payload, hopLimit, identification).Ok? && source.ip.V6? && 1 <= i < 6
    requires b != EmittedHeader(source, destination, payload, hopLimit, identification)[i]
    ensures var header := EmittedHeader(source, destination, payload, hopLimit, identification);
      var segment := UdpSegment(source.port, destination.port, payload, UdpChecksum(source, destination, payload));
      Delivers(header[i := b] + segment)
        == if i < 4 then Some(UdpDatagram(Bare(source), Bare(destination), payload)) else None
  {
    hide ParseIp, OnesSum, UdpChecksum, TransportSum;
    EmittedParts(source, destination, payload, hopLimit, identification);
    var segment := UdpSegment(source.port, destination.port, payload, UdpChecksum(source, destination, payload));
    var header := EmittedHeader(source, destination, payload, hopLimit, identification);
    var packet := header[i := b] + segment;
    Ipv6Plain(packet);
    assert packet[8..24] == source.ip.octets && packet[24..40] == destination.ip.octets;
    assert packet[40..] == segment;
    assert Be16(header[4], header[5]) == |segment| == Be16(segment[4], segment[5]);
    if i < 4 {
      assert packet[40..40 + |segment|] == segment;
      UdpRoundTrip(source, destination, payload, hopLimit);
    } else {
      assert Be16(packet[4], packet[5]) != |segment|;
    }
  }

  /** The length is vouched for by nothing: with this payload, a datagram of any two
      addresses whose length byte is changed from ten to eight is delivered, empty. */
  lemma LengthWrong(source: SocketAddr, destination: SocketAddr, hopLimit: byte, identification: u16)
    requires source.ip.V4? == destination.ip.V4?
    ensures Emitted(source, destination, [0xff, 0xfb], hopLimit, identification).Ok?
    ensures var packet := Emitted(source, destination, [0xff, 0xfb], hopLimit, identification).value;
      var at := if source.ip.V4? then 25 else 45;
      && at < |packet| && packet[at] == 10 && IsFraming(source.ip.V4?, at)
      && Delivers(packet[at := 8]) == Some(UdpDatagram(Bare(source), Bare(destination), []))
  {
    hide ParseIp, OnesSum, UdpChecksum, Ipv4Header, Ipv6FixedHeader, TransportSum;
    var payload: Bytes := [0xff, 0xfb];
    EmittedParts(source, destination, payload, hopLimit, identification);
    var header := EmittedHeader(source, destination, payload, hopLimit, identification);
    var checksum := UdpChecksum(source, destination, payload);
    var segment := UdpSegment(source.port, destination.port, payload, checksum);
    assert (header + segment)[|header| + 5 := 8] == header + segment[5 := 8];
    HeaderCarries(source, destination, payload, hopLimit, identification, segment[5 := 8]);
    UdpSegmentVerifies(source, destination, payload);
    ShortSum(source, destination, checksum);
    var short := segment[5 := 8];
    assert short[..8] == BeBytes(source.port) + BeBytes(destination.port) + [0, 8] + BeBytes(checksum);
    assert short[..8][8..] == [];
  }

  lemma ShortSum(source: SocketAddr, destination: SocketAddr, checksum: u16)
    requires source.ip.V4? == destination.ip.V4?
    requires TransportSum(source.ip, destination.ip, UDP_PROTOCOL,
      UdpSegment(source.port, destination.port, [0xff, 0xfb], checksum)) == ONES
    ensures TransportSum(source.ip, destination.ip, UDP_PROTOCOL,
      BeBytes(source.port) + BeBytes(destination.port) + [0, 8] + BeBytes(checksum)) == ONES
  {
    hide Fold, WordSum;
    var ports := BeBytes(source.port) + BeBytes(destination.port);
    assert BeBytes(10) == [0, 10] && BeBytes(8) == [0, 8] && BeBytes(0xfffb) == [0xff, 0xfb];
    FieldSum(ports, 2, 8, BeBytes(checksum));
    FieldSum(ports, 2, 10, BeBytes(checksum));
    WordSumConcat(ports + BeBytes(10) + BeBytes(checksum), [0xff, 0xfb], 4);
    TwoBytes(0xfffb);
    var other := WordSum(source.ip.octets) + WordSum(destination.ip.octets) + UDP_PROTOCOL;
    var rest := WordSum(ports) + WordSum(BeBytes(checksum));
    FoldSame(other + 10 + (rest + 10 + 0xfffb), other + 8 + (rest + 8), 1);
  }

  lemma Ipv6HeaderWrong(source: SocketAddr, destination: SocketAddr, payload: Bytes, hopLimit: byte,
                        identification: u16, i: nat, b: byte)
    requires Emitted(source, destination, payload, hopLimit, identification).Ok? && source.ip.V6? && 7 <= i < 40
    requires b != EmittedHeader(source, destination, payload, hopLimit, identification)[i]
    ensures var header := EmittedHeader(source, destination, payload, hopLimit, identification);
      var segment := UdpSegment(source.port, destination.port, payload, UdpChecksum(source, destination, payload));
      var got := Delivers(header[i := b] + segment);
      got.None? || got == Some(UdpDatagram(Bare(source), Bare(destination), payload))
  {
    hide ParseIp, ParseUdp, OnesSum, UdpChecksum, TransportSum;
    EmittedParts(source, destination, payload, hopLimit, identification);
    var checksum := UdpChecksum(source, destination, payload);
    var segment := UdpSegment(source.port, destination.port, payload, checksum);
    var header := EmittedHeader(source, destination, payload, hopLimit, identification);
    var ip := IpPacket(source.ip, destination.ip, UDP_PROTOCOL, hopLimit, None, None, segment);
    UdpRoundTrip(source, destination, payload, hopLimit);
    UdpSegmentVerifies(source, destination, payload);
    assert Be16(segment[6], segment[7]) == checksum;
    if i == 7 {
      assert header[i := b] == Ipv6FixedHeader(source.ip, destination.ip, |segment|, b);
      Ipv6RoundTrip(source.ip, destination.ip, segment, b);
      UdpRoundTrip(source, destination, payload, b);
    } else if i < 24 {
      var wrong: Ip := V6(source.ip.octets[i - 8 := b]);
      assert header[i := b] == Ipv6FixedHeader(wrong, destination.ip, |segment|, hopLimit);
      Ipv6RoundTrip(wrong, destination.ip, segment, hopLimit);
      AddressFault(ip, ip.(source := wrong), i - 8, b);
    } else {
      var wrong: Ip := V6(destination.ip.octets[i - 24 := b]);
      assert header[i := b] == Ipv6FixedHeader(source.ip, wrong, |segment|, hopLimit);
      Ipv6RoundTrip(source.ip, wrong, segment, hopLimit);
      AddressFault(ip, ip.(destination := wrong), i - 24, b);
    }
  }

  /** Where the change only took the checksum away, the datagram is as it was. */
  lemma Unchecked(ip: IpPacket, changed: Bytes)
    requires ParseUdp(ip, true).Ok? && |changed| == |ip.payload|
    requires forall j :: 0 <= j < |changed| && j != 6 && j != 7 ==> changed[j] == ip.payload[j]
    ensures ParseUdp(ip.(payload := changed), true).Ok? ==>
      ParseUdp(ip.(payload := changed), true) == ParseUdp(ip, true)
  {
    hide TransportSum;
    var udpLen := Be16(ip.payload[4], ip.payload[5]);
    assert changed[..udpLen][8..] == ip.payload[..udpLen][8..];
  }
}
