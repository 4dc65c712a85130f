/** IPv6 packets told as what they are made of: a fixed header, a chain of extension
    headers, and a payload. */
module WireChain {
  import opened Machine
  import opened Checksum
  import opened Wire
  import opened WireOptions

  const HOP_BY_HOP: byte := 0
  const ROUTING: byte := 43
  const FRAGMENT: byte := 44
  const AUTHENTICATION: byte := 51
  const DESTINATION: byte := 60

  predicate IsKind(kind: byte) {
    kind in {HOP_BY_HOP, ROUTING, FRAGMENT, AUTHENTICATION, DESTINATION}
  }

  ghost predicate AreOptions(area: Bytes, strict: bool) {
    exists options :: AllIpv6(options, strict) && area == Joined(options)
  }

  /** One whole header of that kind: it names the next kind in its first byte, and has
      the length its kind or its second byte says. */
  ghost predicate IsHeader(kind: byte, header: Bytes, strict: bool) {
    |header| >= 2 &&
    if kind == FRAGMENT then |header| == 8 && header[0] != FRAGMENT
    else if kind == AUTHENTICATION then |header| == 4 * (header[1] as int + 2)
    else if kind == ROUTING then |header| == 8 * (header[1] as int + 1) && (strict ==> header[3] == 0)
    else |header| == 8 * (header[1] as int + 1) && AreOptions(header[2..], strict)
  }

  /** What a fragment header says: 13 bits of offset in units of 8 bytes, the lowest bit
      whether more follow, and 32 bits of identification. */
  function FragmentOf(header: Bytes): FragmentInfo
    requires |header| == 8
  {
    FragmentInfo(header[4] as int * 0x100_0000 + header[5] as int * 0x1_0000 + header[6] as int * 0x100 + header[7],
                 header[2] as int * 256 + header[3] as int / 8 * 8, header[3] as int % 2 == 1)
  }

  /** A fragment that is not the first: what follows it is not read. */
  predicate IsLater(kind: byte, header: Bytes) {
    kind == FRAGMENT && |header| == 8 && FragmentOf(header).offsetBytes != 0
  }

  /** The headers that start with one of `kind` are all whole, of the kinds named one
      before the other, the last naming no further one; hop-by-hop options come first,
      and there is one fragment header at most. */
  ghost predicate IsChain(kind: byte, headers: seq<Bytes>, first: bool, fragmented: bool, strict: bool)
    decreases |headers|
  {
    if headers == [] then !IsKind(kind) else
    && IsKind(kind) && IsHeader(kind, headers[0], strict)
    && (kind == HOP_BY_HOP && strict ==> first)
    && (kind == FRAGMENT ==> !fragmented)
    && if IsLater(kind, headers[0]) then |headers| == 1
       else IsChain(headers[0][0], headers[1..], false, fragmented || kind == FRAGMENT, strict)
  }

  /** How many headers, the payload's among them, have to be looked at. */
  function Looks(kind: byte, headers: seq<Bytes>): nat
    decreases |headers|
  {
    if headers == [] then 1 else
    if IsLater(kind, headers[0]) || headers[0] == [] then 1 else 1 + Looks(headers[0][0], headers[1..])
  }

  /** What a chain says of its payload, once `fragment` and its payload are known. */
  function Said(h: Ipv6Header, kind: byte, headers: seq<Bytes>, payload: Bytes, fragment: Option<FragmentInfo>,
                fragmentPayload: Option<Bytes>): IpPacket
    decreases |headers|
  {
    if headers == [] || headers[0] == [] then
      IpPacket(h.source, h.destination, kind, h.hopLimit, fragment, fragmentPayload, payload)
    else if kind == FRAGMENT && |headers[0]| == 8 then
      Said(h, headers[0][0], headers[1..], payload, Some(FragmentOf(headers[0])), Some(Joined(headers[1..]) + payload))
    else Said(h, headers[0][0], headers[1..], payload, fragment, fragmentPayload)
  }

  // ----- one header -----

  lemma KindIs(kind: byte)
    ensures IsKind(kind) == IsExtension(kind)
  {}

  lemma FragmentIs(packet: Bytes, offset: nat, header: Bytes)
    requires offset + 8 <= |packet| && header == packet[offset..offset + 8]
    ensures Ipv6Fragment(packet, offset) == FragmentOf(header)
  {
    FragmentBits(packet[offset + 2], packet[offset + 3]);
    assert forall i :: 0 <= i < 8 ==> header[i] == packet[offset + i];
  }

  lemma FragmentBits(high: byte, low: byte)
    ensures Be16(high, low) / 8 * 8 == high as int * 256 + low as int / 8 * 8
    ensures Be16(high, low) % 2 == low as int % 2
  {
    var h, l := high as int, low as int;
    assert h * 256 + l == 8 * (h * 32 + l / 8) + l % 8;
  }

  /** A header is read if and only if it is whole and may stand there. */
  lemma HeaderRead(packet: Bytes, h: Ipv6Header, kind: byte, pointer: nat, offset: nat, fragmented: bool, strict: bool,
                   n: nat)
    requires h.totalLen <= |packet| && IsKind(kind) && offset <= h.totalLen
    ensures IsExtension(kind)
    ensures (ReadExtension(packet, h, kind, pointer, offset, fragmented, strict).Ok? &&
             ReadExtension(packet, h, kind, pointer, offset, fragmented, strict).value.length == n)
      <==> (offset + n <= h.totalLen && IsHeader(kind, packet[offset..offset + n], strict)
            && (kind == HOP_BY_HOP && strict ==> offset == 40) && (kind == FRAGMENT ==> !fragmented))
  {
    hide Ipv6Options, Ipv6Fragment, AreOptions;
    if offset + n <= h.totalLen && n >= 2 {
      var header := packet[offset..offset + n];
      assert header[0] == packet[offset] && header[1] == packet[offset + 1];
      assert header[2..] == packet[offset + 2..offset + n];
      OptionsRead(header[2..], offset + 2, IsMulticast(h.destination), strict);
    }
  }

  lemma OptionsRead(area: Bytes, at: nat, multicast: bool, strict: bool)
    ensures Ipv6Options(area, at, multicast, strict).None? <==> AreOptions(area, strict)
  {
    Ipv6OptionsAre(area, at, multicast, strict);
  }

  // ----- the walk -----

  /** A whole header of `n` bytes stands where the walk is. */
  ghost predicate StandsAt(packet: Bytes, h: Ipv6Header, c: Chain, strict: bool, n: nat)
    requires c.offset <= h.totalLen <= |packet|
  {
    && IsKind(c.next) && c.offset + n <= h.totalLen && IsHeader(c.next, packet[c.offset..c.offset + n], strict)
    && (c.next == HOP_BY_HOP && strict ==> c.offset == 40) && (c.next == FRAGMENT ==> c.fragment.None?)
  }

  /** Where the walk stands after it. */
  function Past(packet: Bytes, h: Ipv6Header, c: Chain, n: nat): Chain
    requires c.offset + n <= h.totalLen <= |packet| && n >= 2 && (c.next == FRAGMENT ==> n == 8)
  {
    var header := packet[c.offset..c.offset + n];
    Chain(header[0], c.offset, c.offset + n,
          if c.next == FRAGMENT then Some(FragmentOf(header)) else c.fragment,
          if c.next == FRAGMENT then Some(packet[c.offset + n..h.totalLen]) else c.fragmentPayload)
  }

  /** A turn of the walk goes on, or is done with a later fragment, if and only if a
      whole header stands there. */
  lemma HeaderPassed(packet: Bytes, h: Ipv6Header, c: Chain, strict: bool, n: nat)
    requires c.offset <= h.totalLen <= |packet| && StandsAt(packet, h, c, strict, n)
    ensures n >= 2 && (c.next == FRAGMENT ==> n == 8)
    ensures var past := Past(packet, h, c, n);
      Advance(packet, h, c, strict) ==
        if IsLater(c.next, packet[c.offset..c.offset + n]) then
          Done(Ok(IpPacket(h.source, h.destination, past.next, h.hopLimit, past.fragment, past.fragmentPayload,
            packet[past.offset..h.totalLen])))
        else More(past)
  {
    HeaderRead(packet, h, c.next, c.pointer, c.offset, c.fragment.Some?, strict, n);
    hide IsHeader;
    HeaderSize(c.next, packet[c.offset..c.offset + n], strict);
    FragmentRead(packet, h, c, strict);
    if c.next == FRAGMENT { FragmentIs(packet, c.offset, packet[c.offset..c.offset + n]); }
    hide ReadExtension;
  }

  lemma HeaderSize(kind: byte, header: Bytes, strict: bool)
    requires IsHeader(kind, header, strict)
    ensures |header| >= 2 && (kind == FRAGMENT ==> |header| == 8)
  {}

  lemma FragmentRead(packet: Bytes, h: Ipv6Header, c: Chain, strict: bool)
    requires c.offset <= h.totalLen <= |packet| && IsExtension(c.next)
    ensures var r := ReadExtension(packet, h, c.next, c.pointer, c.offset, c.fragment.Some?, strict);
      r.Ok? && c.next == FRAGMENT ==>
        c.offset + 8 <= |packet| && r.value == Extension(8, Some(Ipv6Fragment(packet, c.offset)))
  {
    hide Ipv6Fragment, Ipv6Options;
  }

  /** What is left of the packet begins with the first header. */
  lemma FirstHeader(packet: Bytes, h: Ipv6Header, offset: nat, headers: seq<Bytes>, payload: Bytes)
    requires offset <= h.totalLen <= |packet| && headers != []
    requires packet[offset..h.totalLen] == Joined(headers) + payload
    ensures var n := |headers[0]|;
      && offset + n <= h.totalLen && packet[offset..offset + n] == headers[0]
      && packet[offset + n..h.totalLen] == Joined(headers[1..]) + payload
  {
    JoinedTail(headers, payload);
    hide Joined;
    Sliced(packet, offset, h.totalLen, headers[0], Joined(headers[1..]) + payload);
  }

  lemma Sliced(packet: Bytes, start: nat, end: nat, first: Bytes, rest: Bytes)
    requires start <= end <= |packet| && packet[start..end] == first + rest
    ensures start + |first| <= end && packet[start..start + |first|] == first && packet[start + |first|..end] == rest
  {
    var all, n := packet[start..end], |first|;
    assert |all| == end - start && all[..n] == first && all[n..] == rest;
    assert all[..n] == packet[start..start + n];
    assert all[n..] == packet[start + n..end];
  }

  /** Where the walk stands past one header, with `following` after it. */
  function PastHeader(c: Chain, header: Bytes, following: Bytes): Chain
    requires header != []
  {
    var info := if c.next == FRAGMENT && |header| == 8 then Some(FragmentOf(header)) else c.fragment;
    var read := if c.next == FRAGMENT then Some(following) else c.fragmentPayload;
    Chain(header[0], c.offset, c.offset + |header|, info, read)
  }

  /** One turn of the walk through a chain. */
  lemma ChainOne(packet: Bytes, h: Ipv6Header, c: Chain, strict: bool, headers: seq<Bytes>, payload: Bytes)
    requires 40 <= c.offset <= h.totalLen <= |packet| && headers != []
    requires packet[c.offset..h.totalLen] == Joined(headers) + payload
    requires IsKind(c.next) && IsHeader(c.next, headers[0], strict)
    requires (c.next == HOP_BY_HOP && strict ==> c.offset == 40) && (c.next == FRAGMENT ==> c.fragment.None?)
    ensures headers[0] != [] && (c.next == FRAGMENT ==> |headers[0]| == 8)
    ensures var past := PastHeader(c, headers[0], Joined(headers[1..]) + payload);
      && c.offset < past.offset <= h.totalLen && packet[past.offset..h.totalLen] == Joined(headers[1..]) + payload
      && Advance(packet, h, c, strict) ==
        if IsLater(c.next, headers[0]) then
          Done(Ok(IpPacket(h.source, h.destination, past.next, h.hopLimit, past.fragment, past.fragmentPayload,
            packet[past.offset..h.totalLen])))
        else More(past)
  {
    hide IsHeader, Joined, Advance, FragmentOf;
    FirstHeader(packet, h, c.offset, headers, payload);
    HeaderPassed(packet, h, c, strict, |headers[0]|);
    assert Past(packet, h, c, |headers[0]|) == PastHeader(c, headers[0], Joined(headers[1..]) + payload);
  }

  /** A chain, walked, says what its parts say. */
  lemma {:induction false} WalkMeans(packet: Bytes, h: Ipv6Header, c: Chain, steps: nat, strict: bool,
                                     headers: seq<Bytes>, payload: Bytes)
    requires 40 <= c.offset <= h.totalLen <= |packet|
    requires packet[c.offset..h.totalLen] == Joined(headers) + payload
    requires IsChain(c.next, headers, c.offset == 40, c.fragment.Some?, strict) && Looks(c.next, headers) <= steps
    ensures Walk(packet, h, c, steps, strict) == Ok(Said(h, c.next, headers, payload, c.fragment, c.fragmentPayload))
    decreases |headers|
  {
    hide IsHeader, Joined, FragmentOf, ReadExtension;
    NoIpv6Options(0, false, strict);
    if headers == [] {
      assert packet[c.offset..h.totalLen] == payload;
    } else {
      ChainOne(packet, h, c, strict, headers, payload);
      hide Advance;
      var past := PastHeader(c, headers[0], Joined(headers[1..]) + payload);
      if IsLater(c.next, headers[0]) {
        assert headers[1..] == [];
        assert Said(h, c.next, headers, payload, c.fragment, c.fragmentPayload)
          == Said(h, past.next, [], payload, past.fragment, past.fragmentPayload);
        assert packet[past.offset..h.totalLen] == payload;
      } else {
        WalkMeans(packet, h, past, steps - 1, strict, headers[1..], payload);
      }
    }
  }

  /** Where the walk accepts, a whole header stands, and it accepts the rest. */
  lemma WalkOn(packet: Bytes, h: Ipv6Header, c: Chain, steps: nat, strict: bool) returns (n: nat)
    requires 40 <= c.offset <= h.totalLen <= |packet| && Walk(packet, h, c, steps, strict).Ok? && IsKind(c.next)
    ensures StandsAt(packet, h, c, strict, n) && n >= 2 && (c.next == FRAGMENT ==> n == 8) && steps > 0
    ensures !IsLater(c.next, packet[c.offset..c.offset + n]) ==>
      Walk(packet, h, Past(packet, h, c, n), steps - 1, strict).Ok?
  {
    hide IsHeader, ReadExtension;
    KindIs(c.next);
    n := ReadExtension(packet, h, c.next, c.pointer, c.offset, c.fragment.Some?, strict).value.length;
    HeaderRead(packet, h, c.next, c.pointer, c.offset, c.fragment.Some?, strict, n);
    HeaderPassed(packet, h, c, strict, n);
  }

  lemma ChainMore(kind: byte, header: Bytes, rest: seq<Bytes>, first: bool, fragmented: bool, strict: bool)
    requires IsKind(kind) && IsHeader(kind, header, strict)
    requires (kind == HOP_BY_HOP && strict ==> first) && (kind == FRAGMENT ==> !fragmented)
    requires if IsLater(kind, header) then rest == []
      else IsChain(header[0], rest, false, fragmented || kind == FRAGMENT, strict)
    ensures IsChain(kind, [header] + rest, first, fragmented, strict)
    ensures Looks(kind, [header] + rest) == if IsLater(kind, header) then 1 else 1 + Looks(header[0], rest)
  {
    assert ([header] + rest)[1..] == rest;
    hide IsHeader;
  }

  lemma NoHeaders(packet: Bytes, h: Ipv6Header, c: Chain, steps: nat, strict: bool)
    requires c.offset <= h.totalLen <= |packet| && Walk(packet, h, c, steps, strict).Ok? && !IsKind(c.next)
    ensures IsChain(c.next, [], c.offset == 40, c.fragment.Some?, strict)
    ensures Looks(c.next, []) <= steps && Joined([]) == []
  {}

  /** What the walk accepts is a chain. */
  lemma {:induction false} WalkMade(packet: Bytes, h: Ipv6Header, c: Chain, steps: nat, strict: bool)
    returns (headers: seq<Bytes>, payload: Bytes)
    requires 40 <= c.offset <= h.totalLen <= |packet| && Walk(packet, h, c, steps, strict).Ok?
    ensures packet[c.offset..h.totalLen] == Joined(headers) + payload
    ensures IsChain(c.next, headers, c.offset == 40, c.fragment.Some?, strict) && Looks(c.next, headers) <= steps
    decreases steps
  {
    hide IsHeader, Walk, Joined, IsChain, Looks, IsLater;
    if !IsKind(c.next) {
      headers, payload := [], packet[c.offset..h.totalLen];
      NoHeaders(packet, h, c, steps, strict);
    } else {
      var n := WalkOn(packet, h, c, steps, strict);
      var header, past, rest := packet[c.offset..c.offset + n], Past(packet, h, c, n), [];
      if IsLater(c.next, header) {
        payload := packet[past.offset..h.totalLen];
        NoIpv6Options(0, false, strict);
      } else {
        rest, payload := WalkMade(packet, h, past, steps - 1, strict);
      }
      headers := [header] + rest;
      JoinedFirst(header, rest);
      ChainMore(c.next, header, rest, c.offset == 40, c.fragment.Some?, strict);
      assert packet[c.offset..h.totalLen] == header + packet[past.offset..h.totalLen];
    }
  }

  // ----- the packet -----

  /** The packet is its fixed header, these headers, this payload, and whatever is past
      the length it gives. */
  predicate MadeOf(packet: Bytes, headers: seq<Bytes>, payload: Bytes) {
    && |packet| >= 40 && 40 + Be16(packet[4], packet[5]) <= |packet|
    && packet[40..40 + Be16(packet[4], packet[5])] == Joined(headers) + payload
  }

  function FixedHeader(packet: Bytes): Ipv6Header
    requires |packet| >= 40
  {
    Ipv6Header(V6(packet[8..24]), V6(packet[24..40]), packet[7], 40 + Be16(packet[4], packet[5]))
  }

  ghost predicate Says(packet: Bytes, strict: bool, headers: seq<Bytes>, payload: Bytes, p: IpPacket) {
    && MadeOf(packet, headers, payload)
    && IsChain(packet[6], headers, true, false, strict) && Looks(packet[6], headers) <= 8
    && p == Said(FixedHeader(packet), packet[6], headers, payload, None, None)
  }

  /** A packet parses, and to what, exactly when it is a chain of headers that says it. */
  lemma Ipv6Exactly(packet: Bytes, strict: bool, p: IpPacket)
    ensures ParseIpv6(packet, strict) == Ok(p) <==> exists headers, payload :: Says(packet, strict, headers, payload, p)
  {
    hide Walk, IsChain, Said, Looks, Joined;
    if ParseIpv6(packet, strict) == Ok(p) {
      var headers, payload :=
        WalkMade(packet, FixedHeader(packet), Chain(packet[6], 6, 40, None, None), 8, strict);
      WalkMeans(packet, FixedHeader(packet), Chain(packet[6], 6, 40, None, None), 8, strict, headers, payload);
      assert Says(packet, strict, headers, payload, p);
    }
    forall headers, payload | Says(packet, strict, headers, payload, p) ensures ParseIpv6(packet, strict) == Ok(p) {
      WalkMeans(packet, FixedHeader(packet), Chain(packet[6], 6, 40, None, None), 8, strict, headers, payload);
    }
  }

  /** The kind named by the last of the headers that start with one of `kind`. */
  function LastNamed(kind: byte, headers: seq<Bytes>): byte {
    if headers == [] then kind else if headers[|headers| - 1] == [] then 0 else headers[|headers| - 1][0]
  }

  /** One of the headers that start with one of `kind` is a fragment header: that with
      `before` of them before it. */
  predicate FragmentAt(kind: byte, headers: seq<Bytes>, before: nat) {
    before < |headers| && |headers[before]| == 8 && LastNamed(kind, headers[..before]) == FRAGMENT
  }

  lemma NamedShift(kind: byte, headers: seq<Bytes>, i: nat)
    requires headers != [] && headers[0] != [] && i <= |headers|
    ensures LastNamed(kind, headers[..i]) == if i == 0 then kind else LastNamed(headers[0][0], headers[1..][..i - 1])
  {
    if i > 1 { assert headers[..i][i - 1] == headers[1..][..i - 1][i - 2]; }
  }

  lemma FragmentShift(kind: byte, headers: seq<Bytes>, i: nat)
    requires headers != [] && headers[0] != []
    ensures FragmentAt(kind, headers, i) ==
      if i == 0 then kind == FRAGMENT && |headers[0]| == 8 else FragmentAt(headers[0][0], headers[1..], i - 1)
    ensures 0 < i <= |headers| ==> headers[i..] == headers[1..][i - 1..]
    ensures LastNamed(kind, headers) == LastNamed(headers[0][0], headers[1..])
  {
    if i <= |headers| { NamedShift(kind, headers, i); }
    NamedShift(kind, headers, |headers|);
    assert headers[..|headers|] == headers && headers[1..][..|headers| - 1] == headers[1..];
  }

  /** Past a fragment header there is no other. */
  lemma {:induction false} NoOther(kind: byte, headers: seq<Bytes>, strict: bool, i: nat)
    requires IsChain(kind, headers, false, true, strict)
    ensures !FragmentAt(kind, headers, i)
    decreases |headers|
  {
    hide IsHeader;
    if headers != [] {
      HeaderSize(kind, headers[0], strict);
      FragmentShift(kind, headers, i);
      if i > 0 { NoOther(headers[0][0], headers[1..], strict, i - 1); }
    }
  }

  /** The fragment fields are the fragment header's, and the fragment's payload all that
      follows it; without one they are as they were. */
  ghost predicate FragmentSaid(kind: byte, headers: seq<Bytes>, payload: Bytes, was: Option<FragmentInfo>,
                               wasPayload: Option<Bytes>, p: IpPacket) {
    && (forall i: nat :: FragmentAt(kind, headers, i) ==>
          p.fragment == Some(FragmentOf(headers[i])) && p.fragmentPayload == Some(Joined(headers[i + 1..]) + payload))
    && ((forall i: nat :: !FragmentAt(kind, headers, i)) ==> p.fragment == was && p.fragmentPayload == wasPayload)
  }

  lemma FragmentSaidOn(kind: byte, headers: seq<Bytes>, payload: Bytes, was: Option<FragmentInfo>,
                       wasPayload: Option<Bytes>, p: IpPacket)
    requires headers != [] && headers[0] != []
    requires kind == FRAGMENT ==> |headers[0]| == 8 && forall i: nat :: !FragmentAt(headers[0][0], headers[1..], i)
    requires if kind == FRAGMENT then
      FragmentSaid(headers[0][0], headers[1..], payload, Some(FragmentOf(headers[0])),
        Some(Joined(headers[1..]) + payload), p)
      else FragmentSaid(headers[0][0], headers[1..], payload, was, wasPayload, p)
    ensures FragmentSaid(kind, headers, payload, was, wasPayload, p)
  {
    hide FragmentAt, Joined, FragmentOf;
    forall i: nat ensures FragmentAt(kind, headers, i) ==
      if i == 0 then kind == FRAGMENT && |headers[0]| == 8 else FragmentAt(headers[0][0], headers[1..], i - 1)
    {
      FragmentShift(kind, headers, i);
    }
    forall i: nat | FragmentAt(kind, headers, i)
      ensures i < |headers| && |headers[i]| == 8 && p.fragment == Some(FragmentOf(headers[i])) &&
        p.fragmentPayload == Some(Joined(headers[i + 1..]) + payload)
    {
      FragmentBounds(kind, headers, i);
      if i > 0 {
        FragmentBounds(headers[0][0], headers[1..], i - 1);
        assert headers[1..][i - 1] == headers[i] && headers[1..][i..] == headers[i + 1..];
      }
    }
    if forall i: nat :: !FragmentAt(kind, headers, i) {
      assert !FragmentAt(kind, headers, 0);
      forall i: nat ensures !FragmentAt(headers[0][0], headers[1..], i) {
        assert !FragmentAt(kind, headers, i + 1);
      }
    }
  }

  lemma FragmentBounds(kind: byte, headers: seq<Bytes>, i: nat)
    requires FragmentAt(kind, headers, i)
    ensures i < |headers| && |headers[i]| == 8
  {}

  /** The payload's protocol is what the last header names. */
  lemma {:induction false} SaidIs(h: Ipv6Header, kind: byte, headers: seq<Bytes>, payload: Bytes, first: bool,
                                  fragment: Option<FragmentInfo>, fragmentPayload: Option<Bytes>, strict: bool)
    requires IsChain(kind, headers, first, fragment.Some?, strict)
    ensures var p := Said(h, kind, headers, payload, fragment, fragmentPayload);
      && p == IpPacket(h.source, h.destination, LastNamed(kind, headers), h.hopLimit, p.fragment, p.fragmentPayload,
                       payload)
      && FragmentSaid(kind, headers, payload, fragment, fragmentPayload, p)
    decreases |headers|
  {
    hide IsHeader, FragmentSaid, FragmentOf;
    if headers == [] {
      SaidNone(kind, payload, fragment, fragmentPayload,
        IpPacket(h.source, h.destination, kind, h.hopLimit, fragment, fragmentPayload, payload));
    } else {
      var p := Said(h, kind, headers, payload, fragment, fragmentPayload);
      var rest := headers[1..];
      HeaderSize(kind, headers[0], strict);
      FragmentShift(kind, headers, 0);
      if IsLater(kind, headers[0]) {
        assert rest == [] && forall i: nat :: !FragmentAt(headers[0][0], rest, i);
        assert p == Said(h, headers[0][0], rest, payload, Some(FragmentOf(headers[0])), Some(Joined(rest) + payload));
        SaidNone(headers[0][0], payload, Some(FragmentOf(headers[0])), Some(Joined(rest) + payload), p);
      } else if kind == FRAGMENT {
        SaidIs(h, headers[0][0], rest, payload, false, Some(FragmentOf(headers[0])), Some(Joined(rest) + payload),
          strict);
        forall i: nat ensures !FragmentAt(headers[0][0], rest, i) { NoOther(headers[0][0], rest, strict, i); }
      } else {
        SaidIs(h, headers[0][0], rest, payload, false, fragment, fragmentPayload, strict);
      }
      FragmentSaidOn(kind, headers, payload, fragment, fragmentPayload, p);
    }
  }

  lemma SaidNone(kind: byte, payload: Bytes, fragment: Option<FragmentInfo>, fragmentPayload: Option<Bytes>,
                 p: IpPacket)
    requires p.fragment == fragment && p.fragmentPayload == fragmentPayload
    ensures FragmentSaid(kind, [], payload, fragment, fragmentPayload, p)
  {}

  /** The last of the headers is a fragment header, and not the first fragment's. */
  predicate EndsLater(kind: byte, headers: seq<Bytes>) {
    headers != [] && IsLater(LastNamed(kind, headers[..|headers| - 1]), headers[|headers| - 1])
  }

  /** So with the payload's own header looked at too there are seven headers at most, or
      eight that end in a later fragment. */
  lemma {:induction false} LooksIs(kind: byte, headers: seq<Bytes>, first: bool, fragmented: bool, strict: bool)
    requires IsChain(kind, headers, first, fragmented, strict)
    ensures Looks(kind, headers) == |headers| + if EndsLater(kind, headers) then 0 else 1
    decreases |headers|
  {
    hide IsHeader;
    if headers != [] {
      HeaderSize(kind, headers[0], strict);
      NamedShift(kind, headers, |headers| - 1);
      if !IsLater(kind, headers[0]) {
        LooksIs(headers[0][0], headers[1..], false, fragmented || kind == FRAGMENT, strict);
        assert |headers| > 1 ==> headers[1..][|headers| - 2] == headers[|headers| - 1];
      }
    }
  }

  // ----- what is refused, and where -----

  /** Whole headers, one after the other, that the walk goes on from. */
  ghost predicate IsStretch(kind: byte, headers: seq<Bytes>, first: bool, fragmented: bool, strict: bool)
    decreases |headers|
  {
    headers == [] ||
    (&& IsKind(kind) && IsHeader(kind, headers[0], strict) && !IsLater(kind, headers[0])
     && (kind == HOP_BY_HOP && strict ==> first) && (kind == FRAGMENT ==> !fragmented)
     && IsStretch(headers[0][0], headers[1..], false, fragmented || kind == FRAGMENT, strict))
  }

  ghost predicate HasFragment(kind: byte, headers: seq<Bytes>) {
    exists i: nat :: FragmentAt(kind, headers, i)
  }

  /** And past them all, with `rest` after them. */
  function PastAll(c: Chain, headers: seq<Bytes>, rest: Bytes): Chain
    decreases |headers|
  {
    if headers == [] || headers[0] == [] then c
    else PastAll(PastHeader(c, headers[0], Joined(headers[1..]) + rest), headers[1..], rest)
  }

  lemma StretchOne(packet: Bytes, h: Ipv6Header, c: Chain, steps: nat, strict: bool, headers: seq<Bytes>, rest: Bytes)
    requires 40 <= c.offset <= h.totalLen <= |packet| && headers != [] && steps > 0
    requires packet[c.offset..h.totalLen] == Joined(headers) + rest
    requires IsStretch(c.next, headers, c.offset == 40, c.fragment.Some?, strict)
    ensures headers[0] != [] && (c.next == FRAGMENT ==> |headers[0]| == 8)
    ensures var past := PastHeader(c, headers[0], Joined(headers[1..]) + rest);
      && past.offset <= h.totalLen && packet[past.offset..h.totalLen] == Joined(headers[1..]) + rest
      && IsStretch(past.next, headers[1..], past.offset == 40, past.fragment.Some?, strict)
      && Walk(packet, h, c, steps, strict) == Walk(packet, h, past, steps - 1, strict)
  {
    hide IsHeader, Joined, Advance, FragmentOf;
    ChainOne(packet, h, c, strict, headers, rest);
  }

  /** The walk comes to the end of a stretch. */
  lemma {:induction false} WalkStretch(packet: Bytes, h: Ipv6Header, c: Chain, steps: nat, strict: bool,
                                       headers: seq<Bytes>, rest: Bytes)
    requires 40 <= c.offset <= h.totalLen <= |packet|
    requires packet[c.offset..h.totalLen] == Joined(headers) + rest
    requires IsStretch(c.next, headers, c.offset == 40, c.fragment.Some?, strict) && |headers| <= steps
    ensures var end := PastAll(c, headers, rest);
      && 40 <= end.offset <= h.totalLen && packet[end.offset..h.totalLen] == rest
      && Walk(packet, h, c, steps, strict) == Walk(packet, h, end, steps - |headers|, strict)
    decreases |headers|
  {
    hide Walk, IsStretch, Joined;
    NoIpv6Options(0, false, strict);
    if headers != [] {
      StretchOne(packet, h, c, steps, strict, headers, rest);
      var past := PastHeader(c, headers[0], Joined(headers[1..]) + rest);
      WalkStretch(packet, h, past, steps - 1, strict, headers[1..], rest);
    }
  }

  /** It has come to the kind that the last header names, and knows where it does. */
  lemma {:induction false} PastAllIs(c: Chain, headers: seq<Bytes>, rest: Bytes, first: bool, strict: bool)
    requires IsStretch(c.next, headers, first, c.fragment.Some?, strict)
    ensures var end := PastAll(c, headers, rest);
      && end.offset == c.offset + |Joined(headers)| && end.next == LastNamed(c.next, headers)
      && end.pointer == (if headers == [] then c.pointer else c.offset + |Joined(headers[..|headers| - 1])|)
      && (end.fragment.Some? <==> c.fragment.Some? || HasFragment(c.next, headers))
    decreases |headers|
  {
    hide HasFragment, IsHeader, IsLater;
    if headers == [] {
      NoFragment(c.next);
    } else {
      HeaderSize(c.next, headers[0], strict);
      PastAllIs(PastHeader(c, headers[0], Joined(headers[1..]) + rest), headers[1..], rest, false, strict);
      FragmentShift(c.next, headers, 0);
      HasShift(c.next, headers);
      if |headers| > 1 {
        assert headers[..|headers| - 1][1..] == headers[1..][..|headers| - 2];
      } else {
        assert headers[1..] == [] && headers[..0] == [];
      }
    }
  }

  lemma NoFragment(kind: byte)
    ensures !HasFragment(kind, [])
  {}

  lemma HasShift(kind: byte, headers: seq<Bytes>)
    requires headers != [] && headers[0] != [] && (kind == FRAGMENT ==> |headers[0]| == 8)
    ensures HasFragment(kind, headers) <==> kind == FRAGMENT || HasFragment(headers[0][0], headers[1..])
  {
    hide FragmentAt;
    forall i: nat ensures FragmentAt(kind, headers, i) ==
      if i == 0 then kind == FRAGMENT && |headers[0]| == 8 else FragmentAt(headers[0][0], headers[1..], i - 1)
    {
      FragmentShift(kind, headers, i);
    }
    if i: nat :| FragmentAt(headers[0][0], headers[1..], i) { assert FragmentAt(kind, headers, i + 1); }
    if kind == FRAGMENT { assert FragmentAt(kind, headers, 0); }
  }

  /** A header of `kind`, named by the byte at `pointer`, cannot be read from `rest`, which
      begins at byte `at` of the packet, for the reason `e`. */
  predicate Stuck(kind: byte, rest: Bytes, at: nat, pointer: nat, fragmented: bool, multicast: bool, strict: bool,
                  e: WireError) {
    IsKind(kind) &&
    if kind == HOP_BY_HOP && strict && at != 40 then e == Ipv6NextHeaderDiscard(pointer)
    else if |rest| < (if kind == FRAGMENT then 8 else 2) then e == Truncated
    else if kind == FRAGMENT then
      (fragmented || rest[0] == FRAGMENT) && e == Malformed("multiple IPv6 fragment headers")
    else
      var size := if kind == AUTHENTICATION then 4 * (rest[1] as int + 2) else 8 * (rest[1] as int + 1);
      if size > |rest| then e == Truncated
      else if kind == ROUTING then strict && rest[3] != 0 && e == Ipv6RoutingDiscard(at + 2)
      else kind != AUTHENTICATION && Ipv6Options(rest[2..size], at + 2, multicast, strict) == Some(e)
  }

  lemma Unread(packet: Bytes, h: Ipv6Header, kind: byte, pointer: nat, offset: nat, fragmented: bool, strict: bool,
               e: WireError)
    requires offset <= h.totalLen <= |packet| && IsExtension(kind)
    ensures ReadExtension(packet, h, kind, pointer, offset, fragmented, strict) == Err(e) <==>
      Stuck(kind, packet[offset..h.totalLen], offset, pointer, fragmented, IsMulticast(h.destination), strict, e)
  {
    hide Ipv6Options, Ipv6Fragment, IsMulticast;
    var rest := packet[offset..h.totalLen];
    if |rest| >= 2 {
      assert rest[1] == packet[offset + 1];
      var n := if kind == AUTHENTICATION then 4 * (rest[1] as int + 2) else 8 * (rest[1] as int + 1);
      if n <= |rest| { assert rest[2..n] == packet[offset + 2..offset + n] && rest[3] == packet[offset + 3]; }
    }
  }

  lemma StuckIs(packet: Bytes, h: Ipv6Header, c: Chain, strict: bool, e: WireError)
    requires c.offset <= h.totalLen <= |packet|
    ensures Advance(packet, h, c, strict) == Done(Err(e)) <==>
      Stuck(c.next, packet[c.offset..h.totalLen], c.offset, c.pointer, c.fragment.Some?, IsMulticast(h.destination),
        strict, e)
  {
    hide ReadExtension;
    KindIs(c.next);
    if IsExtension(c.next) { Unread(packet, h, c.next, c.pointer, c.offset, c.fragment.Some?, strict, e); }
    hide Stuck;
  }

  lemma StretchMore(packet: Bytes, h: Ipv6Header, c: Chain, strict: bool, n: nat, more: seq<Bytes>, rest: Bytes)
    requires 40 <= c.offset <= h.totalLen <= |packet| && StandsAt(packet, h, c, strict, n)
    requires n >= 2 && (c.next == FRAGMENT ==> n == 8) && !IsLater(c.next, packet[c.offset..c.offset + n])
    requires var past := Past(packet, h, c, n);
      && packet[past.offset..h.totalLen] == Joined(more) + rest
      && IsStretch(past.next, more, past.offset == 40, past.fragment.Some?, strict)
    ensures var headers := [packet[c.offset..c.offset + n]] + more;
      && packet[c.offset..h.totalLen] == Joined(headers) + rest
      && IsStretch(c.next, headers, c.offset == 40, c.fragment.Some?, strict)
      && PastAll(c, headers, rest) == PastAll(Past(packet, h, c, n), more, rest)
  {
    hide IsHeader, Joined, FragmentOf;
    var header := packet[c.offset..c.offset + n];
    JoinedFirst(header, more);
    assert ([header] + more)[1..] == more;
    assert packet[c.offset..h.totalLen] == header + packet[c.offset + n..h.totalLen];
    assert Past(packet, h, c, n) == PastHeader(c, header, Joined(more) + rest);
  }

  /** The walk goes on from a whole header alone. */
  lemma WentOn(packet: Bytes, h: Ipv6Header, c: Chain, strict: bool) returns (n: nat)
    requires 40 <= c.offset <= h.totalLen <= |packet| && Advance(packet, h, c, strict).More?
    ensures StandsAt(packet, h, c, strict, n) && n >= 2 && (c.next == FRAGMENT ==> n == 8)
    ensures !IsLater(c.next, packet[c.offset..c.offset + n])
    ensures Advance(packet, h, c, strict) == More(Past(packet, h, c, n))
  {
    hide IsHeader, ReadExtension;
    KindIs(c.next);
    n := ReadExtension(packet, h, c.next, c.pointer, c.offset, c.fragment.Some?, strict).value.length;
    HeaderRead(packet, h, c.next, c.pointer, c.offset, c.fragment.Some?, strict, n);
    HeaderPassed(packet, h, c, strict, n);
  }

  /** Where the walk refuses, it has come through a stretch to a header it cannot read, or
      to the last it looks at. */
  lemma {:induction false} WalkFails(packet: Bytes, h: Ipv6Header, c: Chain, steps: nat, strict: bool)
    returns (headers: seq<Bytes>, rest: Bytes)
    requires 40 <= c.offset <= h.totalLen <= |packet| && Walk(packet, h, c, steps, strict).Err?
    ensures packet[c.offset..h.totalLen] == Joined(headers) + rest && |headers| <= steps
    ensures IsStretch(c.next, headers, c.offset == 40, c.fragment.Some?, strict)
    ensures var end := PastAll(c, headers, rest);
      |headers| < steps ==> end.offset <= h.totalLen && Advance(packet, h, end, strict).Done?
    decreases steps
  {
    hide Advance, Joined, PastAll, IsStretch, StandsAt;
    if steps == 0 || Advance(packet, h, c, strict).Done? {
      headers, rest := [], packet[c.offset..h.totalLen];
      NoStretch(c, rest, strict);
    } else {
      var n := WentOn(packet, h, c, strict);
      var more;
      more, rest := WalkFails(packet, h, Past(packet, h, c, n), steps - 1, strict);
      headers := [packet[c.offset..c.offset + n]] + more;
      StretchMore(packet, h, c, strict, n, more, rest);
    }
  }

  lemma NoStretch(c: Chain, rest: Bytes, strict: bool)
    ensures Joined([]) + rest == rest && PastAll(c, [], rest) == c
    ensures IsStretch(c.next, [], c.offset == 40, c.fragment.Some?, strict)
  {}

  /** The packet's headers are whole up to some point, and there it is refused for `e`:
      the header to come is the ninth, or cannot be read. */
  ghost predicate Refused(packet: Bytes, strict: bool, headers: seq<Bytes>, rest: Bytes, e: WireError) {
    && MadeOf(packet, headers, rest) && IsStretch(packet[6], headers, true, false, strict) && |headers| <= 8
    && var at := 40 + |Joined(headers)|;
       if |headers| == 8 then e == Unsupported("IPv6 extension chain exceeds limit")
       else Stuck(LastNamed(packet[6], headers), rest, at,
                  if headers == [] then 6 else 40 + |Joined(headers[..|headers| - 1])|,
                  HasFragment(packet[6], headers), packet[24] == 0xff, strict, e)
  }

  lemma WalkRefused(packet: Bytes, strict: bool, headers: seq<Bytes>, rest: Bytes, e: WireError)
    requires MadeOf(packet, headers, rest) && IsStretch(packet[6], headers, true, false, strict) && |headers| <= 8
    ensures var end := PastAll(Chain(packet[6], 6, 40, None, None), headers, rest); var h := FixedHeader(packet);
      && 40 <= end.offset <= h.totalLen
      && ParseIpv6(packet, strict) == Walk(packet, h, end, 8 - |headers|, strict)
      && (|headers| < 8 ==>
            (Refused(packet, strict, headers, rest, e) <==> Advance(packet, h, end, strict) == Done(Err(e))))
  {
    hide Walk, IsStretch, Joined, Advance, Stuck, HasFragment, PastAll;
    var start, h := Chain(packet[6], 6, 40, None, None), FixedHeader(packet);
    WalkStretch(packet, h, start, 8, strict, headers, rest);
    PastAllIs(start, headers, rest, true, strict);
    StuckIs(packet, h, PastAll(start, headers, rest), strict, e);
    assert IsMulticast(h.destination) == (packet[24] == 0xff);
  }

  /** A packet is refused, and for what, exactly when it is cut short or its headers come
      to that point. */
  lemma Ipv6Refused(packet: Bytes, strict: bool, e: WireError)
    ensures ParseIpv6(packet, strict) == Err(e) <==>
      || (e == Truncated && (|packet| < 40 || 40 + Be16(packet[4], packet[5]) > |packet|))
      || exists headers, rest :: Refused(packet, strict, headers, rest, e)
  {
    hide IsStretch, Joined, Advance, Refused, PastAll;
    if |packet| >= 40 && 40 + Be16(packet[4], packet[5]) <= |packet| {
      if ParseIpv6(packet, strict) == Err(e) {
        var headers, rest := WalkFails(packet, FixedHeader(packet), Chain(packet[6], 6, 40, None, None), 8, strict);
        RefusedNow(packet, strict, headers, rest, e);
      }
    }
    forall headers, rest | Refused(packet, strict, headers, rest, e) ensures ParseIpv6(packet, strict) == Err(e) {
      RefusedThen(packet, strict, headers, rest, e);
    }
  }

  lemma RefusedNow(packet: Bytes, strict: bool, headers: seq<Bytes>, rest: Bytes, e: WireError)
    requires MadeOf(packet, headers, rest) && IsStretch(packet[6], headers, true, false, strict) && |headers| <= 8
    requires ParseIpv6(packet, strict) == Err(e)
    requires var end := PastAll(Chain(packet[6], 6, 40, None, None), headers, rest); var h := FixedHeader(packet);
      |headers| < 8 ==> end.offset <= h.totalLen && Advance(packet, h, end, strict).Done?
    ensures Refused(packet, strict, headers, rest, e)
  {
    hide IsStretch, Joined, Advance, PastAll, ParseIpv6, Stuck, HasFragment;
    WalkRefused(packet, strict, headers, rest, e);
  }

  lemma RefusedThen(packet: Bytes, strict: bool, headers: seq<Bytes>, rest: Bytes, e: WireError)
    requires Refused(packet, strict, headers, rest, e)
    ensures ParseIpv6(packet, strict) == Err(e)
  {
    hide IsStretch, Joined, Advance, PastAll, ParseIpv6, Stuck, HasFragment;
    WalkRefused(packet, strict, headers, rest, e);
  }
}
