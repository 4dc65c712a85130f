/** The wire boundary at work: the loops of the parser, the emitter, and what the
    two promise of each other. */
module WireCodec {
  import opened Machine
  import opened Checksum
  import opened Wire

  // ----- parsing -----

  method ParseIpv6Packet(packet: Bytes, strict: bool) returns (r: Result<IpPacket, WireError>)
    ensures r == ParseIpv6(packet, strict)
  {
    var header := ReadIpv6Header(packet);
    if header.Err? {
      return Err(header.error);
    }
    hide Advance;
    var h := header.value;
    var chain := Chain(packet[6], 6, 40, None, None);
    for i := 0 to 8
      invariant chain.offset <= h.totalLen
      invariant ParseIpv6(packet, strict) == Walk(packet, h, chain, 8 - i, strict)
    {
      match Advance(packet, h, chain, strict)
      case Done(result) => return result;
      case More(next) => chain := next;
    }
    return Err(Unsupported("IPv6 extension chain exceeds limit"));
  }

  /** What the discard actions do not refuse, the lenient options accept too. */
  lemma {:induction false} OptionsLenient(rest: Bytes, at: nat, multicast: bool)
    requires Ipv6Options(rest, at, multicast, true).None?
    ensures Ipv6Options(rest, at, multicast, false).None?
    decreases |rest|
  {
    if rest != [] {
      if rest[0] == 0 {
        OptionsLenient(rest[1..], at + 1, multicast);
      } else {
        OptionsLenient(rest[2 + rest[1] as int..], at + 2 + rest[1] as int, multicast);
      }
    }
  }

  lemma ExtensionLenient(packet: Bytes, h: Ipv6Header, next: byte, pointer: nat, offset: nat, fragmented: bool)
    requires h.totalLen <= |packet| && IsExtension(next)
    requires ReadExtension(packet, h, next, pointer, offset, fragmented, true).Ok?
    ensures ReadExtension(packet, h, next, pointer, offset, fragmented, false)
         == ReadExtension(packet, h, next, pointer, offset, fragmented, true)
  {
    hide Ipv6Options;
    var ext := ReadExtension(packet, h, next, pointer, offset, fragmented, true);
    if next == 0 || next == 60 {
      OptionsLenient(packet[offset + 2..offset + ext.value.length], offset + 2, IsMulticast(h.destination));
    }
  }

  lemma {:induction false} WalkLenient(packet: Bytes, h: Ipv6Header, c: Chain, steps: nat)
    requires c.offset <= h.totalLen <= |packet|
    requires Walk(packet, h, c, steps, true).Ok?
    ensures Walk(packet, h, c, steps, false) == Walk(packet, h, c, steps, true)
    decreases steps
  {
    AdvanceLenient(packet, h, c);
    var p := Advance(packet, h, c, true);
    hide Advance;
    if p.More? { WalkLenient(packet, h, p.chain, steps - 1); }
  }

  lemma AdvanceLenient(packet: Bytes, h: Ipv6Header, c: Chain)
    requires c.offset <= h.totalLen <= |packet|
    requires Advance(packet, h, c, true).More? || Advance(packet, h, c, true).result.Ok?
    ensures Advance(packet, h, c, false) == Advance(packet, h, c, true)
  {
    hide ReadExtension;
    if IsExtension(c.next) { ExtensionLenient(packet, h, c.next, c.pointer, c.offset, c.fragment.Some?); }
  }

  /** Whatever the strict parse accepts, the lenient one accepts alike. */
  lemma LenientAccepts(packet: Bytes, verify: bool)
    requires ParseIp(packet, verify, true).Ok?
    ensures ParseIp(packet, verify, false) == ParseIp(packet, verify, true)
  {
    if packet[0] / 16 == 6 {
      WalkLenient(packet, ReadIpv6Header(packet).value, Chain(packet[6], 6, 40, None, None), 8);
    }
  }

  lemma {:induction false} WalkPadded(packet: Bytes, extra: Bytes, h: Ipv6Header, c: Chain, steps: nat, strict: bool)
    requires c.offset <= h.totalLen <= |packet|
    ensures Walk(packet + extra, h, c, steps, strict) == Walk(packet, h, c, steps, strict)
    decreases steps
  {
    AdvancePadded(packet, extra, h, c, strict);
    var p := Advance(packet, h, c, strict);
    hide Advance;
    if steps > 0 && p.More? { WalkPadded(packet, extra, h, p.chain, steps - 1, strict); }
  }

  lemma AdvancePadded(packet: Bytes, extra: Bytes, h: Ipv6Header, c: Chain, strict: bool)
    requires c.offset <= h.totalLen <= |packet|
    ensures Advance(packet + extra, h, c, strict) == Advance(packet, h, c, strict)
  {
    hide ReadExtension;
    var padded := packet + extra;
    assert padded[c.offset..h.totalLen] == packet[c.offset..h.totalLen];
    if IsExtension(c.next) {
      ExtensionPadded(packet, extra, h, c.next, c.pointer, c.offset, c.fragment.Some?, strict);
      var ext := ReadExtension(packet, h, c.next, c.pointer, c.offset, c.fragment.Some?, strict);
      if ext.Ok? {
        var end := c.offset + ext.value.length;
        assert padded[end..h.totalLen] == packet[end..h.totalLen];
      }
    }
  }

  lemma ExtensionPadded(packet: Bytes, extra: Bytes, h: Ipv6Header, next: byte, pointer: nat, offset: nat,
                        fragmented: bool, strict: bool)
    requires h.totalLen <= |packet| && IsExtension(next)
    ensures ReadExtension(packet + extra, h, next, pointer, offset, fragmented, strict)
         == ReadExtension(packet, h, next, pointer, offset, fragmented, strict)
  {
    if (next == 0 || next == 60) && offset + 2 <= h.totalLen {
      var length := (packet[offset + 1] as int + 1) * 8;
      if offset + length <= h.totalLen {
        assert (packet + extra)[offset + 2..offset + length] == packet[offset + 2..offset + length];
      }
    }
  }

  lemma Ipv4Padded(packet: Bytes, extra: Bytes, verify: bool)
    requires ParseIpv4(packet, verify).Ok?
    ensures ParseIpv4(packet + extra, verify) == ParseIpv4(packet, verify)
  {
    hide OnesSum, Ipv4Options;
    var padded := packet + extra;
    var headerLen := packet[0] as int % 16 * 4;
    var totalLen := Be16(packet[2], packet[3]);
    assert padded[20..headerLen] == packet[20..headerLen];
    assert padded[..headerLen] == packet[..headerLen];
    assert padded[headerLen..totalLen] == packet[headerLen..totalLen];
    assert padded[12..16] == packet[12..16] && padded[16..20] == packet[16..20];
  }

  /** Trailing platform padding never changes an accepted parse. */
  lemma PaddingIgnored(packet: Bytes, extra: Bytes, verify: bool, strict: bool)
    requires ParseIp(packet, verify, strict).Ok?
    ensures ParseIp(packet + extra, verify, strict) == ParseIp(packet, verify, strict)
  {
    if packet[0] / 16 == 4 {
      Ipv4Padded(packet, extra, verify);
    } else {
      var padded := packet + extra;
      assert padded[8..24] == packet[8..24] && padded[24..40] == packet[24..40];
      WalkPadded(packet, extra, ReadIpv6Header(packet).value, Chain(packet[6], 6, 40, None, None), 8, strict);
    }
  }

  // ----- emitting -----

  function UdpSegment(source: u16, destination: u16, payload: Bytes, checksum: u16): Bytes
    requires 8 + |payload| <= ONES
  {
    BeBytes(source) + BeBytes(destination) + BeBytes(8 + |payload|) + BeBytes(checksum) + payload
  }

  function Ipv4Header(source: Ip, destination: Ip, totalLen: u16, hopLimit: byte, identification: u16,
                      checksum: u16): Bytes {
    [0x45, 0] + BeBytes(totalLen) + BeBytes(identification) + [0x40, 0, hopLimit, UDP_PROTOCOL]
      + BeBytes(checksum) + (source.octets + destination.octets)
  }

  function Ipv6FixedHeader(source: Ip, destination: Ip, udpLen: u16, hopLimit: byte): Bytes {
    [0x60, 0, 0, 0] + BeBytes(udpLen) + [UDP_PROTOCOL, hopLimit] + (source.octets + destination.octets)
  }

  /** The UDP checksum: all ones in place of zero (RFC 768; section 8.1 of RFC 8200). */
  function UdpChecksum(source: SocketAddr, destination: SocketAddr, payload: Bytes): u16
    requires 8 + |payload| <= ONES
  {
    var sum := TransportSum(source.ip, destination.ip, UDP_PROTOCOL,
      UdpSegment(source.port, destination.port, payload, 0));
    if sum == ONES then ONES else ONES - sum
  }

  function Emitted(source: SocketAddr, destination: SocketAddr, payload: Bytes, hopLimit: byte, identification: u16)
    : Result<Bytes, WireError>
  {
    if 8 + |payload| > ONES then Err(Malformed("UDP too large"))
    else if source.ip.V4? != destination.ip.V4? then Err(Malformed("mixed address families"))
    else
      var segment := UdpSegment(source.port, destination.port, payload, UdpChecksum(source, destination, payload));
      if source.ip.V4? then
        if 28 + |payload| > ONES then Err(Malformed("IPv4 packet too large")) else
        var blank := Ipv4Header(source.ip, destination.ip, 28 + |payload|, hopLimit, identification, 0);
        Ok(Ipv4Header(source.ip, destination.ip, 28 + |payload|, hopLimit, identification, ONES - OnesSum(blank, 0)) +
          segment)
      else
        Ok(Ipv6FixedHeader(source.ip, destination.ip, 8 + |payload|, hopLimit) + segment)
  }

  lemma TwoBytes(x: u16)
    ensures WordSum(BeBytes(x)) == x && Be16(BeBytes(x)[0], BeBytes(x)[1]) == x
  {
    assert AfterWord(BeBytes(x)) == [];
    assert WordSum(BeBytes(x)) == FirstWord(BeBytes(x)) + WordSum(AfterWord(BeBytes(x)));
  }

  /** A checksum field adds itself to the sum. */
  lemma FieldSum(before: Bytes, words: nat, field: u16, after: Bytes)
    requires |before| == 2 * words
    ensures WordSum(before + BeBytes(field) + after) == WordSum(before) + field + WordSum(after)
  {
    hide WordSum;
    WordSumConcat(before, BeBytes(field), words);
    WordSumConcat(before + BeBytes(field), after, words + 1);
    TwoBytes(field);
  }

  lemma HeaderVerifies(before: Bytes, words: nat, after: Bytes)
    requires |before| == 2 * words
    ensures OnesSum(before + BeBytes(ONES - OnesSum(before + BeBytes(0) + after, 0)) + after, 0) == ONES
  {
    hide OnesSum, WordSum, Fold, BeBytes;
    var checksum := ONES - OnesSum(before + BeBytes(0) + after, 0);
    FieldSum(before, words, 0, after);
    FieldSum(before, words, checksum, after);
    FoldZero();
    OnesSumIsFold(before + BeBytes(0) + after, 0);
    OnesSumIsFold(before + BeBytes(checksum) + after, 0);
    ComplementFolds(WordSum(before) + WordSum(after));
  }

  lemma Ipv4HeaderVerifies(source: Ip, destination: Ip, totalLen: u16, hopLimit: byte, identification: u16)
    ensures var blank := Ipv4Header(source, destination, totalLen, hopLimit, identification, 0);
      OnesSum(Ipv4Header(source, destination, totalLen, hopLimit, identification, ONES - OnesSum(blank, 0)), 0) == ONES
  {
    hide OnesSum;
    var before := [0x45, 0] + BeBytes(totalLen) + BeBytes(identification) + [0x40, 0, hopLimit, UDP_PROTOCOL];
    HeaderVerifies(before, 5, source.octets + destination.octets);
  }

  lemma FoldZero()
    ensures Fold(0) == 0
  {}

  lemma FieldVerifies(other: nat, before: Bytes, words: nat, after: Bytes)
    requires |before| == 2 * words
    ensures var sum := Fold(other + WordSum(before + BeBytes(0) + after));
      Fold(other + WordSum(before + BeBytes(if sum == ONES then ONES else ONES - sum) + after)) == ONES
  {
    hide WordSum, Fold, BeBytes;
    var sum := Fold(other + WordSum(before + BeBytes(0) + after));
    FieldSum(before, words, 0, after);
    FieldSum(before, words, if sum == ONES then ONES else ONES - sum, after);
    ComplementFolds(other + WordSum(before) + WordSum(after));
  }

  lemma UdpSegmentVerifies(source: SocketAddr, destination: SocketAddr, payload: Bytes)
    requires 8 + |payload| <= ONES && source.ip.V4? == destination.ip.V4?
    ensures var checksum := UdpChecksum(source, destination, payload);
      && checksum != 0
      && TransportSum(source.ip, destination.ip, UDP_PROTOCOL,
        UdpSegment(source.port, destination.port, payload, checksum)) == ONES
  {
    hide WordSum, Fold, BeBytes, UdpSegment, TransportSum;
    var before := BeBytes(source.port) + BeBytes(destination.port) + BeBytes(8 + |payload|);
    var other := WordSum(source.ip.octets) + WordSum(destination.ip.octets) + UDP_PROTOCOL + (8 + |payload|);
    var checksum := UdpChecksum(source, destination, payload);
    SegmentSum(source, destination, payload, 0);
    SegmentSum(source, destination, payload, checksum);
    FieldVerifies(other, before, 3, payload);
  }

  lemma SegmentSum(source: SocketAddr, destination: SocketAddr, payload: Bytes, checksum: u16)
    requires 8 + |payload| <= ONES && source.ip.V4? == destination.ip.V4?
    ensures var before := BeBytes(source.port) + BeBytes(destination.port) + BeBytes(8 + |payload|);
      var other := WordSum(source.ip.octets) + WordSum(destination.ip.octets) + UDP_PROTOCOL + (8 + |payload|);
      && |before| == 6
      && TransportSum(source.ip, destination.ip, UDP_PROTOCOL,
           UdpSegment(source.port, destination.port, payload, checksum))
           == Fold(other + WordSum(before + BeBytes(checksum) + payload))
  {
    hide WordSum, Fold;
  }

  // ----- the round trip -----

  lemma Ipv4RoundTrip(source: Ip, destination: Ip, segment: Bytes, hopLimit: byte, identification: u16)
    requires source.V4? && destination.V4? && 20 + |segment| <= ONES
    ensures var blank := Ipv4Header(source, destination, 20 + |segment|, hopLimit, identification, 0);
      var header := Ipv4Header(source, destination, 20 + |segment|, hopLimit, identification, ONES - OnesSum(blank, 0));
      ParseIp(header + segment, true, true) ==
        Ok(IpPacket(source, destination, UDP_PROTOCOL, hopLimit, None, None, segment))
  {
    hide OnesSum;
    var totalLen := 20 + |segment|;
    var blank := Ipv4Header(source, destination, totalLen, hopLimit, identification, 0);
    var header := Ipv4Header(source, destination, totalLen, hopLimit, identification, ONES - OnesSum(blank, 0));
    Ipv4HeaderVerifies(source, destination, totalLen, hopLimit, identification);
    var packet := header + segment;
    assert packet[..20] == header;
    assert packet[20..20] == [];
    assert packet[20..totalLen] == segment;
    assert packet[2] == totalLen / 256 && packet[3] == totalLen % 256;
    assert packet[12..16] == source.octets && packet[16..20] == destination.octets;
  }

  lemma Ipv6RoundTrip(source: Ip, destination: Ip, segment: Bytes, hopLimit: byte)
    requires source.V6? && destination.V6? && |segment| <= ONES
    ensures var header := Ipv6FixedHeader(source, destination, |segment|, hopLimit);
      ParseIp(header + segment, true, true) ==
        Ok(IpPacket(source, destination, UDP_PROTOCOL, hopLimit, None, None, segment))
  {
    var header := Ipv6FixedHeader(source, destination, |segment|, hopLimit);
    var packet := header + segment;
    assert packet[4] == |segment| / 256 && packet[5] == |segment| % 256;
    assert packet[8..24] == source.octets && packet[24..40] == destination.octets;
    assert packet[40..40 + |segment|] == segment;
  }

  lemma UdpRoundTrip(source: SocketAddr, destination: SocketAddr, payload: Bytes, hopLimit: byte)
    requires 8 + |payload| <= ONES && source.ip.V4? == destination.ip.V4?
    ensures var segment := UdpSegment(source.port, destination.port, payload,
      UdpChecksum(source, destination, payload));
      ParseUdp(IpPacket(source.ip, destination.ip, UDP_PROTOCOL, hopLimit, None, None, segment), true)
        == Ok(UdpDatagram(Bare(source), Bare(destination), payload))
  {
    var checksum := UdpChecksum(source, destination, payload);
    var segment := UdpSegment(source.port, destination.port, payload, checksum);
    UdpSegmentVerifies(source, destination, payload);
    hide UdpChecksum, TransportSum;
    assert segment[..|segment|] == segment;
    assert segment[8..] == payload;
    assert segment[4] == |segment| / 256 && segment[5] == |segment| % 256;
    assert segment[6] == checksum / 256 && segment[7] == checksum % 256;
  }

  /** Every packet emitted parses, with its checksums verified, back to its payload and
      to what the wire keeps of its source and destination: to those themselves exactly
      when they are bare. */
  lemma RoundTrip(source: SocketAddr, destination: SocketAddr, payload: Bytes, hopLimit: byte, identification: u16)
    requires Emitted(source, destination, payload, hopLimit, identification).Ok?
    ensures var ip := ParseIp(Emitted(source, destination, payload, hopLimit, identification).value, true, true);
      && ip.Ok? && ip.value.hopLimit == hopLimit && ip.value.fragment.None?
      && ParseUdp(ip.value, true) == Ok(UdpDatagram(Bare(source), Bare(destination), payload))
      && (ParseUdp(ip.value, true) == Ok(UdpDatagram(source, destination, payload)) <==>
            source == Bare(source) && destination == Bare(destination))
  {
    hide OnesSum, UdpChecksum, TransportSum, ParseIp, ParseUdp, Ipv4Header, Ipv6FixedHeader;
    var segment := UdpSegment(source.port, destination.port, payload, UdpChecksum(source, destination, payload));
    UdpRoundTrip(source, destination, payload, hopLimit);
    assert |segment| == 8 + |payload|;
    hide UdpSegment;
    if source.ip.V4? {
      Ipv4RoundTrip(source.ip, destination.ip, segment, hopLimit, identification);
    } else {
      Ipv6RoundTrip(source.ip, destination.ip, segment, hopLimit);
    }
  }

  // ----- the emitter's buffer -----

  /** What a transport checksum covers besides the segment (RFC 768; section 8.1 of
      RFC 8200). */
  function PseudoHeader(source: Ip, destination: Ip, protocol: byte, length: nat): Bytes
    requires length < if source.V4? then 0x1_0000 else 0x1_0000_0000
  {
    var addresses := source.octets + destination.octets;
    if source.V4? then addresses + [0, protocol] + BeBytes(length)
    else addresses + BeBytes(length / 0x1_0000) + BeBytes(length % 0x1_0000) + [0, 0, 0, protocol]
  }

  /** The sum by parts is the one's-complement sum over pseudo-header and segment. */
  lemma TransportSumIs(source: Ip, destination: Ip, protocol: byte, segment: Bytes)
    requires source.V4? == destination.V4? && |segment| < if source.V4? then 0x1_0000 else 0x1_0000_0000
    ensures TransportSum(source, destination, protocol, segment)
      == OnesSum(PseudoHeader(source, destination, protocol, |segment|) + segment, 0)
  {
    hide OnesSum, WordSum, Fold, PseudoHeader;
    var pseudo := PseudoHeader(source, destination, protocol, |segment|);
    var k := PseudoSum(source, destination, protocol, |segment|);
    WordSumConcat(pseudo, segment, if source.V4? then 6 else 20);
    FoldZero();
    OnesSumIsFold(pseudo + segment, 0);
    var parts := WordSum(source.octets) + WordSum(destination.octets) + protocol + |segment|;
    FoldSame(parts + WordSum(segment), WordSum(pseudo) + WordSum(segment), k);
  }

  lemma PseudoSum(source: Ip, destination: Ip, protocol: byte, length: nat) returns (k: nat)
    requires source.V4? == destination.V4? && length < if source.V4? then 0x1_0000 else 0x1_0000_0000
    ensures var pseudo := PseudoHeader(source, destination, protocol, length);
      && |pseudo| == (if source.V4? then 12 else 40)
      && WordSum(source.octets) + WordSum(destination.octets) + protocol + length == WordSum(pseudo) + ONES * k
      && (WordSum(pseudo) == 0 ==> k == 0)
  {
    hide WordSum;
    k := length / 0x1_0000;
    if source.V4? {
      PartsSum(source.octets, destination.octets, 2, [0, protocol], BeBytes(length));
      TwoBytes(length);
    } else {
      PartsSum(source.octets, destination.octets, 8, BeBytes(k) + BeBytes(length % 0x1_0000), [0, 0, 0, protocol]);
      WordSumConcat(BeBytes(k), BeBytes(length % 0x1_0000), 1);
      TwoBytes(k);
      TwoBytes(length % 0x1_0000);
      assert PseudoHeader(source, destination, protocol, length) ==
        source.octets + destination.octets + (BeBytes(k) + BeBytes(length % 0x1_0000)) + [0, 0, 0, protocol];
    }
    ProtocolSum(protocol);
  }

  lemma PartsSum(a: Bytes, b: Bytes, words: nat, c: Bytes, d: Bytes)
    requires |a| == |b| == 2 * words && (|c| == 2 || |c| == 4)
    ensures WordSum(a + b + c + d) == WordSum(a) + WordSum(b) + WordSum(c) + WordSum(d)
  {
    hide WordSum;
    WordSumConcat(a, b, words);
    WordSumConcat(a + b, c, 2 * words);
    WordSumConcat(a + b + c, d, 2 * words + |c| / 2);
  }

  lemma ProtocolSum(protocol: byte)
    ensures WordSum([0, protocol]) == protocol as int == WordSum([0, 0, 0, protocol])
  {
    assert AfterWord([0, protocol]) == [] && AfterWord([0, 0, 0, protocol]) == [0, protocol];
    assert WordSum([0, protocol]) == FirstWord([0, protocol]) + WordSum(AfterWord([0, protocol]));
  }

  method TransportChecksumSum(source: Ip, destination: Ip, protocol: byte, segment: Bytes, little: bool)
    returns (r: u16)
    requires |segment| < 0xfff0_0000
    ensures r == TransportSum(source, destination, protocol, segment)
    ensures source.V4? != destination.V4? ==> r == 0
    ensures source.V4? == destination.V4? && (source.V4? ==> |segment| < 0x1_0000) ==>
      r == OnesSum(PseudoHeader(source, destination, protocol, |segment|) + segment, 0)
  {
    if source.V4? != destination.V4? {
      return 0;
    }
    hide Fold, WordSum, OnesSum, PseudoHeader, TransportSum;
    if source.V4? ==> |segment| < 0x1_0000 { TransportSumIs(source, destination, protocol, segment); }
    var sum := ChecksumAccumulate(source.octets, 0, little);
    var both := ChecksumAccumulate(destination.octets, sum, little);
    var wide := ChecksumAccumulate(segment, both + protocol + |segment|, little);
    TransportSumBy(source, destination, protocol, segment, sum, both);
    r := FoldChecksum(wide);
  }

  lemma TransportSumBy(source: Ip, destination: Ip, protocol: byte, segment: Bytes, sum: nat, both: nat)
    requires source.V4? == destination.V4?
    requires Fold(sum) == Fold(0 + WordSum(source.octets)) && Fold(both) == Fold(sum + WordSum(destination.octets))
    ensures Fold(both + protocol + |segment| + WordSum(segment)) == TransportSum(source, destination, protocol, segment)
  {
    hide Fold, WordSum;
    SumThrough(WordSum(source.octets), sum, WordSum(destination.octets));
    SumThrough(WordSum(source.octets) + WordSum(destination.octets), both, protocol + |segment| + WordSum(segment));
  }

  lemma SumThrough(a: nat, sum: nat, b: nat)
    requires Fold(sum) == Fold(a)
    ensures Fold(sum + b) == Fold(a + b)
  {
    hide Fold;
    FoldAdd(sum, b);
    FoldAdd(a, b);
  }

  method CopyInto(buffer: array<byte>, at: nat, bytes: Bytes)
    requires at + |bytes| <= buffer.Length
    modifies buffer
    ensures forall i :: 0 <= i < buffer.Length ==>
      buffer[i] == if at <= i < at + |bytes| then bytes[i - at] else old(buffer[i])
  {
    for k := 0 to |bytes|
      invariant forall i :: 0 <= i < buffer.Length ==>
        buffer[i] == if at <= i < at + k then bytes[i - at] else old(buffer[i])
    {
      buffer[at + k] := bytes[k];
    }
  }

  method EmitUdpPacket(source: SocketAddr, destination: SocketAddr, payload: Bytes, hopLimit: byte, identification: u16,
                       little: bool) returns (r: Result<array<byte>, WireError>)
    ensures r.Ok? ==>
      fresh(r.value) && Emitted(source, destination, payload, hopLimit, identification) == Ok(r.value[..])
    ensures r.Err? ==> Emitted(source, destination, payload, hopLimit, identification) == Err(r.error)
  {
    hide OnesSum, TransportSum;
    if 8 + |payload| > ONES {
      return Err(Malformed("UDP too large"));
    }
    if source.ip.V4? != destination.ip.V4? {
      return Err(Malformed("mixed address families"));
    }
    var headerLen := if source.ip.V4? then 20 else 40;
    var packet := new byte[headerLen + 8 + |payload|](_ => 0);
    if source.ip.V4? {
      if 28 + |payload| > ONES {
        return Err(Malformed("IPv4 packet too large"));
      }
      FillIpv4Header(packet, source.ip, destination.ip, hopLimit, identification, little);
    } else {
      FillIpv6Header(packet, source.ip, destination.ip, hopLimit);
    }
    FillUdp(packet, headerLen, source, destination, payload, little);
    assert packet[..] == packet[..headerLen] + packet[headerLen..];
    return Ok(packet);
  }

  method FillIpv4Header(packet: array<byte>, source: Ip, destination: Ip, hopLimit: byte, identification: u16,
                        little: bool)
    requires source.V4? && destination.V4? && 20 <= packet.Length <= ONES && AllZero(packet[..])
    modifies packet
    ensures var blank := Ipv4Header(source, destination, packet.Length, hopLimit, identification, 0);
      packet[..20] == Ipv4Header(source, destination, packet.Length, hopLimit, identification, ONES - OnesSum(blank, 0))
    ensures AllZero(packet[20..])
  {
    hide OnesSum, Ipv4Header;
    FillIpv4Blank(packet, source, destination, hopLimit, identification);
    var sum := ChecksumSum(packet[..20], 0, little);
    FoldZero();
    ghost var blank := packet[..20];
    CopyInto(packet, 10, BeBytes(ONES - sum));
    Ipv4Field(source, destination, packet.Length, hopLimit, identification, ONES - sum);
    assert packet[..20] == blank[..10] + BeBytes(ONES - sum) + blank[12..];
  }

  lemma Ipv4Field(source: Ip, destination: Ip, totalLen: u16, hopLimit: byte, identification: u16, checksum: u16)
    requires source.V4? && destination.V4?
    ensures var blank := Ipv4Header(source, destination, totalLen, hopLimit, identification, 0);
      && |blank| == 20
      && Ipv4Header(source, destination, totalLen, hopLimit, identification, checksum) ==
        blank[..10] + BeBytes(checksum) + blank[12..]
  {}

  method FillIpv4Blank(packet: array<byte>, source: Ip, destination: Ip, hopLimit: byte, identification: u16)
    requires source.V4? && destination.V4? && 20 <= packet.Length <= ONES && AllZero(packet[..])
    modifies packet
    ensures packet[..20] == Ipv4Header(source, destination, packet.Length, hopLimit, identification, 0)
    ensures AllZero(packet[20..])
  {
    packet[0] := 0x45;
    CopyInto(packet, 2, BeBytes(packet.Length));
    CopyInto(packet, 4, BeBytes(identification));
    packet[6], packet[8], packet[9] := 0x40, hopLimit, UDP_PROTOCOL;
    CopyInto(packet, 12, source.octets);
    CopyInto(packet, 16, destination.octets);
  }

  method FillIpv6Header(packet: array<byte>, source: Ip, destination: Ip, hopLimit: byte)
    requires source.V6? && destination.V6? && 40 <= packet.Length <= 40 + ONES && AllZero(packet[..])
    modifies packet
    ensures packet[..40] == Ipv6FixedHeader(source, destination, packet.Length - 40, hopLimit)
    ensures AllZero(packet[40..])
  {
    packet[0] := 0x60;
    CopyInto(packet, 4, BeBytes(packet.Length - 40));
    packet[6], packet[7] := UDP_PROTOCOL, hopLimit;
    CopyInto(packet, 8, source.octets);
    CopyInto(packet, 24, destination.octets);
  }

  method FillUdp(packet: array<byte>, at: nat, source: SocketAddr, destination: SocketAddr, payload: Bytes,
                 little: bool)
    requires at + 8 + |payload| == packet.Length && 8 + |payload| <= ONES && AllZero(packet[at..])
    modifies packet
    ensures packet[..at] == old(packet[..at])
    ensures packet[at..] ==
      UdpSegment(source.port, destination.port, payload, UdpChecksum(source, destination, payload))
  {
    hide TransportSum, OnesSum, PseudoHeader;
    CopyInto(packet, at, BeBytes(source.port));
    CopyInto(packet, at + 2, BeBytes(destination.port));
    CopyInto(packet, at + 4, BeBytes(8 + |payload|));
    CopyInto(packet, at + 8, payload);
    assert packet[at..] == UdpSegment(source.port, destination.port, payload, 0);
    var sum := TransportChecksumSum(source.ip, destination.ip, UDP_PROTOCOL, packet[at..], little);
    var checksum := ONES - sum;
    if checksum == 0 {
      checksum := ONES;
    }
    CopyInto(packet, at + 6, BeBytes(checksum));
  }
}
