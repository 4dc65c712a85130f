/** Addresses on the wire, port last as section 5 of RFC 1928 has them, or port
    first. Whether bytes are UTF-8 is left to a predicate. */
module Socks {
  import opened Machine
  import opened Checksum
  import opened Wire

  datatype SocksAddr = Address(addr: SocketAddr) | Domain(name: Bytes, port: u16)

  datatype Order = PortFirst | PortLast

  datatype SocksError = Insufficient | InvalidDomain | InvalidType

  type Parse = Result<SocksAddr, SocksError>

  function TypeV4(order: Order): byte { 1 }
  function TypeV6(order: Order): byte { if order.PortLast? then 4 else 3 }
  function TypeDomain(order: Order): byte { if order.PortLast? then 3 else 2 }

  function Size(a: SocksAddr): nat {
    match a
    case Address(addr) => if addr.ip.V4? then 1 + 4 + 2 else 1 + 16 + 2
    case Domain(name, _) => 1 + 1 + |name| + 2
  }

  function PortOf(a: SocksAddr): u16 {
    if a.Address? then a.addr.port else a.port
  }

  /** The address without its port: its type, and what follows it. A name's length is
      one byte: `len as u8`. */
  function Host(a: SocksAddr, order: Order): Bytes {
    match a
    case Address(addr) => [if addr.ip.V4? then TypeV4(order) else TypeV6(order)] + addr.ip.octets
    case Domain(name, _) => [TypeDomain(order), |name| % 256] + name
  }

  function Encode(a: SocksAddr, order: Order): Bytes {
    if order.PortLast? then Host(a, order) + BeBytes(PortOf(a)) else BeBytes(PortOf(a)) + Host(a, order)
  }

  /** The host that begins `buf`, and how long it is; `after` more bytes must follow. */
  function ParseHost(buf: Bytes, order: Order, utf8: Bytes -> bool, after: nat)
    : (r: Result<(SocksAddr, nat), SocksError>)
    ensures r.Ok? ==> 0 < r.value.1 && r.value.1 + after <= |buf|
  {
    if buf == [] then Err(Insufficient)
    else if buf[0] == TypeV4(order) then
      if |buf| < 5 + after then Err(Insufficient) else Ok((Address(SocketAddr(V4(buf[1..5]), 0)), 5))
    else if buf[0] == TypeV6(order) then
      if |buf| < 17 + after then Err(Insufficient) else Ok((Address(SocketAddr(V6(buf[1..17]), 0)), 17))
    else if buf[0] == TypeDomain(order) then
      if |buf| < 2 || |buf| < 2 + buf[1] as int + after then Err(Insufficient)
      else if !utf8(buf[2..2 + buf[1] as int]) then Err(InvalidDomain)
      else Ok((Domain(buf[2..2 + buf[1] as int], 0), 2 + buf[1] as int))
    else Err(InvalidType)
  }

  function WithPort(a: SocksAddr, port: u16): SocksAddr {
    if a.Address? then Address(a.addr.(port := port)) else a.(port := port)
  }

  /** The address that begins `buf`; what follows it is left alone. */
  function TryParse(buf: Bytes, order: Order, utf8: Bytes -> bool): Parse {
    if order.PortLast? then
      var host := ParseHost(buf, order, utf8, 2);
      if host.Err? then Err(host.error)
      else Ok(WithPort(host.value.0, Be16(buf[host.value.1], buf[host.value.1 + 1])))
    else if |buf| < 3 then Err(Insufficient)
    else
      var host := ParseHost(buf[2..], order, utf8, 0);
      if host.Err? then Err(host.error) else Ok(WithPort(host.value.0, Be16(buf[0], buf[1])))
  }

  /** What the encoding has room for: a name whose length is a byte, or an address
      without scope and flow information. */
  predicate Writable(a: SocksAddr) {
    if a.Domain? then |a.name| <= 255 else a.addr == Bare(a.addr)
  }

  predicate HasName(a: SocksAddr, utf8: Bytes -> bool) {
    a.Domain? ==> |a.name| <= 255 && utf8(a.name)
  }

  /** What comes back of an address. */
  function Kept(a: SocksAddr): SocksAddr {
    if a.Domain? then a else Address(Bare(a.addr))
  }

  lemma HostParses(a: SocksAddr, order: Order, utf8: Bytes -> bool, extra: Bytes, after: nat)
    requires HasName(a, utf8) && |extra| >= after
    ensures |Host(a, order)| + 2 == Size(a)
    ensures ParseHost(Host(a, order) + extra, order, utf8, after) == Ok((WithPort(Kept(a), 0), |Host(a, order)|))
  {
    var buf := Host(a, order) + extra;
    match a
    case Address(addr) => assert buf[1..|Host(a, order)|] == addr.ip.octets;
    case Domain(name, _) => assert buf[2..2 + |name|] == name;
  }

  lemma PortBytes(port: u16)
    ensures Be16(BeBytes(port)[0], BeBytes(port)[1]) == port
  {}

  /** The bytes of each kind of address, in either order. */
  lemma EncodedAs(ip: Ip, name: Bytes, port: u16, flowInfo: nat, scopeId: nat)
    requires |name| <= 255
    ensures var a, p := Address(SocketAddr(ip, port, flowInfo, scopeId)), [port / 256, port % 256];
      && Encode(a, PortLast) == [if ip.V4? then 1 else 4] + ip.octets + p
      && Encode(a, PortFirst) == p + ([if ip.V4? then 1 else 3] + ip.octets)
      && Encode(Domain(name, port), PortLast) == [3, |name|] + name + p
      && Encode(Domain(name, port), PortFirst) == p + ([2, |name|] + name)
  {}

  /** Where the type of an address stands, and what it is for a name. */
  function TypeAt(order: Order): nat { if order.PortLast? then 0 else 2 }
  function NameType(order: Order): byte { if order.PortLast? then 3 else 2 }

  /** The bytes are too few for the address they begin. */
  predicate CutShort(buf: Bytes, order: Order) {
    var at := TypeAt(order);
    || |buf| <= at
    || (buf[at] == 1 && |buf| < 7)
    || (buf[at] == (if order.PortLast? then 4 else 3) && |buf| < 19)
    || (buf[at] == NameType(order) && (|buf| <= at + 1 || |buf| < 4 + buf[at + 1] as int))
  }

  /** Each refusal has its own condition, the type, the length and the name's being
      UTF-8. */
  lemma RefusedExactly(buf: Bytes, order: Order, utf8: Bytes -> bool)
    ensures var r, at := TryParse(buf, order, utf8), TypeAt(order);
      && (r == Err(InvalidType) <==> |buf| > at && buf[at] !in {1, 3, if order.PortLast? then 4 else 2})
      && (r == Err(Insufficient) <==> CutShort(buf, order))
      && (r == Err(InvalidDomain) <==>
            && !CutShort(buf, order) && buf[at] == NameType(order) && !utf8(buf[at + 2..at + 2 + buf[at + 1] as int]))
  {
    hide Be16;
    if order.PortFirst? && |buf| >= 4 && buf[2] == 2 && |buf| >= 4 + buf[3] as int {
      assert buf[2..][2..2 + buf[3] as int] == buf[4..4 + buf[3] as int];
    }
  }

  /** What is written is `Size` bytes and parses back to what it keeps of the address,
      whatever follows it. */
  lemma WriteParses(a: SocksAddr, order: Order, utf8: Bytes -> bool, extra: Bytes)
    requires HasName(a, utf8)
    ensures |Encode(a, order)| == Size(a) && TryParse(Encode(a, order) + extra, order, utf8) == Ok(Kept(a))
  {
    hide ParseHost, Host;
    var host, port := Host(a, order), BeBytes(PortOf(a));
    PortBytes(PortOf(a));
    if order.PortLast? {
      HostParses(a, order, utf8, port + extra, 2);
      assert host + port + extra == host + (port + extra);
    } else {
      HostParses(a, order, utf8, extra, 0);
      assert (port + host + extra)[2..] == host + extra;
    }
  }

  /** The round trip holds exactly for what is writable. */
  lemma RoundTripExact(a: SocksAddr, order: Order, utf8: Bytes -> bool)
    requires a.Domain? ==> utf8(a.name)
    ensures TryParse(Encode(a, order), order, utf8) == Ok(a) <==> Writable(a)
  {
    if Writable(a) {
      WriteParses(a, order, utf8, []);
      assert Encode(a, order) + [] == Encode(a, order);
    } else {
      ParsedIsWritable(Encode(a, order), order, utf8);
    }
  }

  /** Neither does a link-local address, with the scope it needs, come back. */
  lemma ScopeNotWritten(order: Order, utf8: Bytes -> bool)
    ensures var a := Address(SocketAddr(V6([0xfe, 0x80, 0, 0, 0, 0, 0, 0, 0, 0, 0, 0, 0, 0, 0, 1]), 53, 0, 2));
      TryParse(Encode(a, order), order, utf8) == Ok(Address(Bare(a.addr))) != Ok(a)
  {
    var a := Address(SocketAddr(V6([0xfe, 0x80, 0, 0, 0, 0, 0, 0, 0, 0, 0, 0, 0, 0, 0, 1]), 53, 0, 2));
    WriteParses(a, order, utf8, []);
    assert Encode(a, order) + [] == Encode(a, order);
  }

  lemma ParsedIsWritable(buf: Bytes, order: Order, utf8: Bytes -> bool)
    ensures TryParse(buf, order, utf8).Ok? ==> Writable(TryParse(buf, order, utf8).value)
  {}

  /** Whatever parses is an encoding and what follows it. */
  lemma ParsedIsEncoded(buf: Bytes, order: Order, utf8: Bytes -> bool)
    requires TryParse(buf, order, utf8).Ok?
    ensures var a := TryParse(buf, order, utf8).value;
      && Writable(a) && (a.Domain? ==> utf8(a.name))
      && Size(a) <= |buf| && buf[..Size(a)] == Encode(a, order)
  {
    hide ParseHost, Host, BeBytes, Be16;
    var a := TryParse(buf, order, utf8).value;
    var rest, after := if order.PortLast? then buf else buf[2..], if order.PortLast? then 2 else 0;
    HostIsEncoded(rest, order, utf8, after);
    var (host, n) := ParseHost(rest, order, utf8, after).value;
    assert a == WithPort(host, PortOf(a)) && rest[..n] == Host(a, order);
    if order.PortLast? {
      BytesOfPort(buf[n], buf[n + 1]);
      assert buf[..n + 2] == buf[..n] + [buf[n], buf[n + 1]];
    } else {
      BytesOfPort(buf[0], buf[1]);
      assert buf[..n + 2] == [buf[0], buf[1]] + buf[2..][..n];
    }
  }

  lemma BytesOfPort(high: byte, low: byte)
    ensures BeBytes(Be16(high, low)) == [high, low]
  {}

  lemma HostIsEncoded(buf: Bytes, order: Order, utf8: Bytes -> bool, after: nat)
    requires ParseHost(buf, order, utf8, after).Ok?
    ensures var (a, n) := ParseHost(buf, order, utf8, after).value;
      && Writable(a) && (a.Domain? ==> utf8(a.name)) && n + 2 == Size(a)
      && forall port: u16 :: buf[..n] == Host(WithPort(a, port), order)
  {
    var (a, n) := ParseHost(buf, order, utf8, after).value;
    assert buf[..n] == if a.Domain? then buf[..2] + buf[2..n] else [buf[0]] + buf[1..n];
  }

  /** No proper prefix of an encoding parses. */
  lemma NoPrefixParses(a: SocksAddr, order: Order, utf8: Bytes -> bool, n: nat)
    requires HasName(a, utf8) && n < |Encode(a, order)|
    ensures TryParse(Encode(a, order)[..n], order, utf8).Err?
  {
    hide TryParse, Encode;
    var whole := Encode(a, order);
    var cut := whole[..n];
    if TryParse(cut, order, utf8).Ok? {
      ParsedIsEncoded(cut, order, utf8);
      var b := TryParse(cut, order, utf8).value;
      assert whole + [] == whole && cut[..Size(b)] + whole[Size(b)..] == whole;
      WriteParses(a, order, utf8, []);
      WriteParses(b, order, utf8, whole[Size(b)..]);
      assert false;
    }
  }

  // ----- writing to a buffer, reading from a stream -----

  class Buffer {
    var data: Bytes

    constructor ()
      ensures data == []
    {
      data := [];
    }

    method PutU8(x: byte)
      modifies this
      ensures data == old(data) + [x]
    {
      data := data + [x];
    }

    method PutU16(x: u16)
      modifies this
      ensures data == old(data) + BeBytes(x)
    {
      data := data + BeBytes(x);
    }

    method PutSlice(bytes: Bytes)
      modifies this
      ensures data == old(data) + bytes
    {
      data := data + bytes;
    }
  }

  method WriteHost(a: SocksAddr, buf: Buffer, order: Order)
    modifies buf
    ensures buf.data == old(buf.data) + Host(a, order)
  {
    match a
    case Address(addr) =>
      buf.PutU8(if addr.ip.V4? then TypeV4(order) else TypeV6(order));
      buf.PutSlice(addr.ip.octets);
    case Domain(name, _) =>
      buf.PutU8(TypeDomain(order));
      buf.PutU8(|name| % 256);
      buf.PutSlice(name);
      assert [TypeDomain(order), |name| % 256] == [TypeDomain(order)] + [|name| % 256];
  }

  method WriteBuf(a: SocksAddr, buf: Buffer, order: Order)
    modifies buf
    ensures buf.data == old(buf.data) + Encode(a, order)
  {
    hide Host, BeBytes;
    if order.PortLast? {
      WriteHost(a, buf, order);
      buf.PutU16(PortOf(a));
    } else {
      buf.PutU16(PortOf(a));
      WriteHost(a, buf, order);
    }
  }

  class Reader {
    var rest: Bytes

    constructor (bytes: Bytes)
      ensures rest == bytes
    {
      rest := bytes;
    }

    /** The next `n` bytes, or the end of the stream. */
    method ReadExact(n: nat) returns (r: Option<Bytes>)
      modifies this
      ensures if n <= |old(rest)| then r == Some(old(rest)[..n]) && rest == old(rest)[n..] else r.None?
    {
      if n > |rest| {
        return None;
      }
      r := Some(rest[..n]);
      rest := rest[n..];
    }
  }

  lemma Sliced(buf: Bytes, at: nat, n: nat)
    requires at + n <= |buf|
    ensures buf[at..][..n] == buf[at..at + n] && buf[at..][n..] == buf[at + n..]
  {}

  /** The type and the host, whatever follows them. */
  method ReadHost(r: Reader, order: Order, utf8: Bytes -> bool) returns (p: Result<(SocksAddr, nat), SocksError>)
    modifies r
    ensures p == ParseHost(old(r.rest), order, utf8, 0)
    ensures p.Ok? ==> r.rest == old(r.rest)[p.value.1..]
  {
    var kind := r.ReadExact(1);
    if kind.None? {
      return Err(Insufficient);
    }
    if kind.value[0] == TypeV4(order) {
      var ip := r.ReadExact(4);
      if ip.None? {
        return Err(Insufficient);
      }
      Sliced(old(r.rest), 1, 4);
      return Ok((Address(SocketAddr(V4(ip.value), 0)), 5));
    } else if kind.value[0] == TypeV6(order) {
      var ip := r.ReadExact(16);
      if ip.None? {
        return Err(Insufficient);
      }
      Sliced(old(r.rest), 1, 16);
      return Ok((Address(SocketAddr(V6(ip.value), 0)), 17));
    } else if kind.value[0] == TypeDomain(order) {
      var len := r.ReadExact(1);
      if len.None? {
        return Err(Insufficient);
      }
      var name := r.ReadExact(len.value[0]);
      if name.None? {
        return Err(Insufficient);
      }
      Sliced(old(r.rest), 1, 1);
      Sliced(old(r.rest), 2, len.value[0]);
      if !utf8(name.value) {
        return Err(InvalidDomain);
      }
      return Ok((Domain(name.value, 0), 2 + len.value[0] as int));
    }
    return Err(InvalidType);
  }

  /** What a reader makes of a stream: as the parser of the same bytes, but that a name
      which is not UTF-8 is told before its port is missed. */
  function ReadResult(buf: Bytes, order: Order, utf8: Bytes -> bool): Parse {
    if order.PortLast? && ParseHost(buf, order, utf8, 0) == Err(InvalidDomain) then Err(InvalidDomain)
    else TryParse(buf, order, utf8)
  }

  /** So the two accept the same inputs with the same results, and differ in the error
      exactly there. */
  lemma ReadsAsParsed(buf: Bytes, order: Order, utf8: Bytes -> bool)
    ensures ReadResult(buf, order, utf8).Ok? <==> TryParse(buf, order, utf8).Ok?
    ensures ReadResult(buf, order, utf8) != TryParse(buf, order, utf8) <==>
      && order.PortLast? && |buf| >= 2 && buf[0] == TypeDomain(order)
      && 2 + buf[1] as int <= |buf| < 4 + buf[1] as int && !utf8(buf[2..2 + buf[1] as int])
  {
    hide Be16;
  }

  /** The stream's reader gives what `ReadResult` says, and takes an accepted address's
      bytes and no more. */
  method ReadFrom(r: Reader, order: Order, utf8: Bytes -> bool) returns (p: Parse)
    modifies r
    ensures p == ReadResult(old(r.rest), order, utf8)
    ensures p.Ok? ==> Size(p.value) <= |old(r.rest)| && r.rest == old(r.rest)[Size(p.value)..]
  {
    hide Be16;
    ghost var buf := r.rest;
    if order.PortLast? {
      HostThenPort(buf, order, utf8);
      var host := ReadHost(r, order, utf8);
      if host.Err? {
        return Err(host.error);
      }
      var port := r.ReadExact(2);
      if port.None? {
        return Err(Insufficient);
      }
      return Ok(WithPort(host.value.0, Be16(port.value[0], port.value[1])));
    }
    var port := r.ReadExact(2);
    if port.None? {
      return Err(Insufficient);
    }
    var host := ReadHost(r, order, utf8);
    if host.Err? {
      return Err(host.error);
    }
    return Ok(WithPort(host.value.0, Be16(port.value[0], port.value[1])));
  }

  lemma HostThenPort(buf: Bytes, order: Order, utf8: Bytes -> bool)
    ensures var one, both := ParseHost(buf, order, utf8, 0), ParseHost(buf, order, utf8, 2);
      && (both.Ok? <==> one.Ok? && one.value.1 + 2 <= |buf|)
      && (both.Ok? ==> both == one)
      && (one.Err? && one != Err(InvalidDomain) ==> both == one)
      && (one.Ok? && both.Err? ==> both == Err(Insufficient))
  {}
}
