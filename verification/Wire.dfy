/** Which byte strings are IP packets and UDP datagrams, and what they say. */
module Wire {
  import opened Machine
  import opened Checksum

  const UDP_PROTOCOL: byte := 17

  datatype IpAddr = V4(octets: Bytes) | V6(octets: Bytes) {
    predicate Sized() {
      |octets| == if V4? then 4 else 16
    }
  }
  type Ip = a: IpAddr | a.Sized() witness V4([0, 0, 0, 0])

  /** An address as hosts have it. Flow information and scope are an IPv6 address's own. */
  datatype SocketAddr = SocketAddr(ip: Ip, port: u16, flowInfo: nat := 0, scopeId: nat := 0)

  /** What the wire keeps of it: neither of those. */
  function Bare(a: SocketAddr): SocketAddr {
    SocketAddr(a.ip, a.port)
  }

  datatype FragmentInfo = FragmentInfo(identification: nat, offsetBytes: nat, moreFragments: bool) {
    predicate IsAtomic() {
      offsetBytes == 0 && !moreFragments
    }
  }

  datatype IpPacket = IpPacket(
    source: Ip,
    destination: Ip,
    nextHeader: byte,
    hopLimit: byte,
    fragment: Option<FragmentInfo>,
    fragmentPayload: Option<Bytes>,
    payload: Bytes)

  datatype UdpDatagram = UdpDatagram(source: SocketAddr, destination: SocketAddr, payload: Bytes)

  datatype WireError =
    | Truncated
    | Malformed(why: string)
    | Unsupported(what: string)
    | Ipv6OptionDiscard(pointer: nat, sendIcmp: bool)
    | Ipv6RoutingDiscard(pointer: nat)
    | Ipv6NextHeaderDiscard(pointer: nat)
    | BadChecksum

  type Outcome = Option<WireError>

  predicate AllZero(bytes: Bytes) {
    forall i :: 0 <= i < |bytes| ==> bytes[i] == 0
  }

  function BeBytes(x: u16): Bytes {
    [x / 256, x % 256]
  }

  predicate IsMulticast(ip: Ip) {
    ip.V6? && ip.octets[0] == 0xff
  }

  predicate ValidFlowSource(ip: Ip) {
    match ip
    case V4(o) => o[0] != 0 && o[0] != 127 && o[0] < 224
    case V6(o) => !AllZero(o) && !IsMulticast(ip)
  }

  predicate ValidFlowDestination(ip: Ip) {
    match ip
    case V4(o) => o[0] != 0 && o[0] < 224 && o != [255, 255, 255, 255]
    case V6(o) => !AllZero(o) && !IsMulticast(ip)
  }

  // ----- IPv4 -----

  /** The option grammar, of what is left of the options. */
  function Ipv4Options(rest: Bytes): Outcome
    decreases |rest|
  {
    if rest == [] then None
    else if rest[0] == 0 then
      if AllZero(rest[1..]) then None else Some(Malformed("nonzero IPv4 option padding"))
    else if rest[0] == 1 then Ipv4Options(rest[1..])
    else if |rest| < 2 then Some(Malformed("truncated IPv4 option"))
    else if rest[1] < 2 then Some(Malformed("invalid IPv4 option length"))
    else if rest[1] > |rest| then Some(Malformed("truncated IPv4 option"))
    else Ipv4Options(rest[rest[1]..])
  }

  method ValidateIpv4Options(options: Bytes) returns (r: Outcome)
    ensures r == Ipv4Options(options)
  {
    var offset := 0;
    while offset < |options|
      invariant 0 <= offset <= |options|
      invariant Ipv4Options(options) == Ipv4Options(options[offset..])
    {
      ghost var rest := options[offset..];
      if options[offset] == 0 {
        assert rest[1..] == options[offset + 1..];
        return if AllZero(options[offset + 1..]) then None else Some(Malformed("nonzero IPv4 option padding"));
      } else if options[offset] == 1 {
        assert rest[1..] == options[offset + 1..];
        offset := offset + 1;
      } else {
        if offset + 1 >= |options| {
          return Some(Malformed("truncated IPv4 option"));
        }
        var length: nat := options[offset + 1];
        if length < 2 {
          return Some(Malformed("invalid IPv4 option length"));
        }
        if offset + length > |options| {
          return Some(Malformed("truncated IPv4 option"));
        }
        assert rest[length..] == options[offset + length..];
        offset := offset + length;
      }
    }
    return None;
  }

  function Ipv4Fragment(packet: Bytes, payload: Bytes): Option<FragmentInfo>
    requires |packet| >= 20
  {
    var bits := Be16(packet[6], packet[7]);
    var offset, more := bits % 0x2000 * 8, bits / 0x2000 % 2 == 1;
    if offset != 0 || more then Some(FragmentInfo(Be16(packet[4], packet[5]), offset, more)) else None
  }

  function ParseIpv4(packet: Bytes, verify: bool): Result<IpPacket, WireError> {
    if |packet| < 20 then Err(Truncated) else
    var headerLen := packet[0] as int % 16 * 4;
    if headerLen < 20 || headerLen > |packet| then Err(Malformed("IPv4 header length")) else
    var totalLen := Be16(packet[2], packet[3]);
    if totalLen < headerLen || totalLen > |packet| then Err(Truncated) else
    var options := Ipv4Options(packet[20..headerLen]);
    if options.Some? then Err(options.value) else
    if verify && OnesSum(packet[..headerLen], 0) != ONES then Err(BadChecksum) else
    var bits := Be16(packet[6], packet[7]);
    if bits >= 0x8000 then Err(Malformed("IPv4 reserved fragment flag")) else
    var payload := packet[headerLen..totalLen];
    var fragment := Ipv4Fragment(packet, payload);
    if bits / 0x4000 % 2 == 1 && fragment.Some? then Err(Malformed("IPv4 DF set on a fragment")) else
    Ok(IpPacket(V4(packet[12..16]), V4(packet[16..20]), packet[9], packet[8],
                fragment, if fragment.Some? then Some(payload) else None, payload))
  }

  // ----- IPv6 -----

  /** What one option is refused for. `strict`: the discard action of an unknown
      option is taken. */
  function OptionVerdict(kind: byte, data: Bytes, at: nat, multicast: bool, strict: bool): Outcome {
    if kind == 1 then
      if AllZero(data) then None else Some(Malformed("nonzero IPv6 PadN data"))
    else if strict && kind / 64 != 0 then
      var sendIcmp := if kind / 64 == 1 then false else if kind / 64 == 2 then true else !multicast;
      Some(Ipv6OptionDiscard(at, sendIcmp))
    else None
  }

  /** The option grammar, of what is left of the options from byte `at` of the
      packet on. */
  function Ipv6Options(rest: Bytes, at: nat, multicast: bool, strict: bool): Outcome
    decreases |rest|
  {
    if rest == [] then None
    else if rest[0] == 0 then Ipv6Options(rest[1..], at + 1, multicast, strict)
    else if |rest| < 2 || 2 + rest[1] as int > |rest| then Some(Malformed("truncated IPv6 option"))
    else
      var end := 2 + rest[1] as int;
      var verdict := OptionVerdict(rest[0], rest[2..end], at, multicast, strict);
      if verdict.Some? then verdict else Ipv6Options(rest[end..], at + end, multicast, strict)
  }

  method ValidateIpv6Options(options: Bytes, at: nat, multicast: bool, strict: bool) returns (r: Outcome)
    ensures r == Ipv6Options(options, at, multicast, strict)
  {
    hide OptionVerdict;
    var offset := 0;
    while offset < |options|
      invariant 0 <= offset <= |options|
      invariant Ipv6Options(options, at, multicast, strict) ==
        Ipv6Options(options[offset..], at + offset, multicast, strict)
    {
      ghost var rest := options[offset..];
      if options[offset] == 0 {
        assert rest[1..] == options[offset + 1..];
        offset := offset + 1;
        continue;
      }
      if offset + 1 >= |options| {
        return Some(Malformed("truncated IPv6 option"));
      }
      var end := offset + 2 + options[offset + 1] as int;
      if end > |options| {
        return Some(Malformed("truncated IPv6 option"));
      }
      assert rest[2..end - offset] == options[offset + 2..end] && rest[end - offset..] == options[end..];
      var verdict := OptionVerdict(options[offset], options[offset + 2..end], at + offset, multicast, strict);
      if verdict.Some? {
        return verdict;
      }
      offset := end;
    }
    return None;
  }

  /** The fixed header, and where the extension chain ends. */
  datatype Ipv6Header = Ipv6Header(source: Ip, destination: Ip, hopLimit: byte, totalLen: nat)

  datatype Extension = Extension(length: nat, fragment: Option<FragmentInfo>)

  function Ipv6Fragment(packet: Bytes, offset: nat): FragmentInfo
    requires offset + 8 <= |packet|
  {
    var bits := Be16(packet[offset + 2], packet[offset + 3]);
    FragmentInfo(Be16(packet[offset + 4], packet[offset + 5]) * 0x1_0000 + Be16(packet[offset + 6], packet[offset + 7]),
                 bits / 8 * 8, bits % 2 == 1)
  }

  predicate IsExtension(next: byte) {
    next == 0 || next == 43 || next == 60 || next == 51 || next == 44
  }

  /** One header of the chain: how long it is, or why the packet is refused. */
  function ReadExtension(packet: Bytes, h: Ipv6Header, next: byte, pointer: nat, offset: nat, fragmented: bool,
                         strict: bool)
    : (r: Result<Extension, WireError>)
    requires h.totalLen <= |packet| && IsExtension(next)
    ensures r.Ok? ==> r.value.length > 0 && offset + r.value.length <= h.totalLen
    ensures r.Ok? ==> (r.value.fragment.Some? <==> next == 44)
  {
    if next == 0 && offset != 40 && strict then Err(Ipv6NextHeaderDiscard(pointer))
    else if offset + (if next == 44 then 8 else 2) > h.totalLen then Err(Truncated)
    else if next == 44 then
      if fragmented || packet[offset] == 44 then Err(Malformed("multiple IPv6 fragment headers"))
      else Ok(Extension(8, Some(Ipv6Fragment(packet, offset))))
    else
      var size := packet[offset + 1] as int;
      var length := if next == 51 then (size + 2) * 4 else (size + 1) * 8;
      if offset + length > h.totalLen then Err(Truncated)
      else if next == 43 && strict && packet[offset + 3] != 0 then Err(Ipv6RoutingDiscard(offset + 2))
      else if next == 0 || next == 60 then
        var options := Ipv6Options(packet[offset + 2..offset + length], offset + 2, IsMulticast(h.destination), strict);
        if options.Some? then Err(options.value) else Ok(Extension(length, None))
      else Ok(Extension(length, None))
  }

  /** Where the walk of the extension chain is: the header `next` at `offset`,
      named by the byte at `pointer`. */
  datatype Chain = Chain(
    next: byte,
    pointer: nat,
    offset: nat,
    fragment: Option<FragmentInfo>,
    fragmentPayload: Option<Bytes>)

  datatype Progress = Done(result: Result<IpPacket, WireError>) | More(chain: Chain)

  /** One turn of the walk. */
  function Advance(packet: Bytes, h: Ipv6Header, c: Chain, strict: bool): (p: Progress)
    requires c.offset <= h.totalLen <= |packet|
    ensures p.More? ==> c.offset < p.chain.offset <= h.totalLen
  {
    if !IsExtension(c.next) then
      Done(Ok(IpPacket(h.source, h.destination, c.next, h.hopLimit, c.fragment, c.fragmentPayload,
        packet[c.offset..h.totalLen])))
    else
      var ext := ReadExtension(packet, h, c.next, c.pointer, c.offset, c.fragment.Some?, strict);
      if ext.Err? then Done(Err(ext.error)) else
      var end := c.offset + ext.value.length;
      if c.next == 44 then
        var rest := packet[end..h.totalLen];
        if ext.value.fragment.value.offsetBytes != 0 then
          Done(Ok(IpPacket(h.source, h.destination, packet[c.offset], h.hopLimit, ext.value.fragment, Some(rest),
            rest)))
        else More(Chain(packet[c.offset], c.offset, end, ext.value.fragment, Some(rest)))
      else More(Chain(packet[c.offset], c.offset, end, c.fragment, c.fragmentPayload))
  }

  /** The extension chain, `steps` headers at most. */
  function Walk(packet: Bytes, h: Ipv6Header, c: Chain, steps: nat, strict: bool): Result<IpPacket, WireError>
    requires c.offset <= h.totalLen <= |packet|
    decreases steps
  {
    if steps == 0 then Err(Unsupported("IPv6 extension chain exceeds limit"))
    else
      match Advance(packet, h, c, strict)
      case Done(result) => result
      case More(chain) => Walk(packet, h, chain, steps - 1, strict)
  }

  function ReadIpv6Header(packet: Bytes): (r: Result<Ipv6Header, WireError>)
    ensures r.Ok? ==> 40 <= r.value.totalLen <= |packet|
  {
    if |packet| < 40 then Err(Truncated) else
    var totalLen := 40 + Be16(packet[4], packet[5]);
    if totalLen > |packet| then Err(Truncated) else
    Ok(Ipv6Header(V6(packet[8..24]), V6(packet[24..40]), packet[7], totalLen))
  }

  function ParseIpv6(packet: Bytes, strict: bool): Result<IpPacket, WireError> {
    var h := ReadIpv6Header(packet);
    if h.Err? then Err(h.error) else Walk(packet, h.value, Chain(packet[6], 6, 40, None, None), 8, strict)
  }

  // ----- one IP packet -----

  /** `strict` is off only for the packets quoted by an ICMP error. */
  function ParseIp(packet: Bytes, verify: bool, strict: bool): Result<IpPacket, WireError> {
    if packet == [] then Err(Truncated)
    else if packet[0] / 16 == 4 then ParseIpv4(packet, verify)
    else if packet[0] / 16 == 6 then ParseIpv6(packet, strict)
    else Err(Unsupported("IP version"))
  }

  // ----- UDP -----

  /** The sum of the pseudo-header and the segment; none for mixed families. */
  function TransportSum(source: Ip, destination: Ip, protocol: byte, segment: Bytes): u16 {
    if source.V4? != destination.V4? then 0 else
    Fold(WordSum(source.octets) + WordSum(destination.octets) + protocol + |segment| + WordSum(segment))
  }

  function ParseUdp(ip: IpPacket, verify: bool): Result<UdpDatagram, WireError> {
    if ip.nextHeader != UDP_PROTOCOL then Err(Unsupported("not UDP"))
    else if ip.fragment.Some? && !ip.fragment.value.IsAtomic() then Err(Unsupported("UDP requires IP reassembly"))
    else if |ip.payload| < 8 then Err(Truncated)
    else
      var udpLen := Be16(ip.payload[4], ip.payload[5]);
      if udpLen < 8 || udpLen > |ip.payload| then Err(Truncated)
      else
        var udp := ip.payload[..udpLen];
        var checksum := Be16(udp[6], udp[7]);
        if verify && ip.source.V6? && checksum == 0 then Err(BadChecksum)
        else if verify && checksum != 0 && TransportSum(ip.source, ip.destination, UDP_PROTOCOL, udp) != ONES then
          Err(BadChecksum)
        else
          Ok(UdpDatagram(SocketAddr(ip.source, Be16(udp[0], udp[1])), SocketAddr(ip.destination, Be16(udp[2], udp[3])),
                         udp[8..]))
  }
}
