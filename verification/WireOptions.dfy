/** The option areas of both IP versions, told as what they are made of. */
module WireOptions {
  import opened Machine
  import opened Checksum
  import opened Wire

  function Joined(options: seq<Bytes>): Bytes {
    if options == [] then [] else options[0] + Joined(options[1..])
  }

  lemma JoinedFirst(first: Bytes, rest: seq<Bytes>)
    ensures Joined([first] + rest) == first + Joined(rest)
  {
    assert ([first] + rest)[1..] == rest;
  }

  lemma JoinedTail(options: seq<Bytes>, tail: Bytes)
    requires options != []
    ensures Joined(options) + tail == options[0] + (Joined(options[1..]) + tail)
    ensures |Joined(options)| == |options[0]| + |Joined(options[1..])|
  {}

  /** A no-operation, or a kind with its own length. */
  predicate IsIpv4Option(o: Bytes) {
    o == [1] || (|o| >= 2 && o[0] != 0 && o[0] != 1 && o[1] as int == |o|)
  }

  predicate AllIpv4(options: seq<Bytes>) {
    forall i :: 0 <= i < |options| ==> IsIpv4Option(options[i])
  }

  /** One option more in front changes nothing of the verdict. */
  lemma Ipv4OptionFirst(o: Bytes, rest: Bytes)
    requires IsIpv4Option(o)
    ensures Ipv4Options(o + rest) == Ipv4Options(rest)
  {
    assert (o + rest)[|o|..] == rest;
  }

  /** IPv4 options are accepted exactly when they are whole options, and zeros after
      them. */
  lemma Ipv4OptionsAre(area: Bytes)
    ensures Ipv4Options(area).None? <==>
      exists options, zeros :: AllIpv4(options) && AllZero(zeros) && area == Joined(options) + zeros
  {
    if Ipv4Options(area).None? {
      var options, zeros := Ipv4Made(area);
      assert AllIpv4(options) && AllZero(zeros) && area == Joined(options) + zeros;
    }
    forall options, zeros | AllIpv4(options) && AllZero(zeros) && area == Joined(options) + zeros
      ensures Ipv4Options(area).None?
    {
      Ipv4Makes(options, zeros);
    }
  }

  lemma {:induction false} Ipv4Made(area: Bytes) returns (options: seq<Bytes>, zeros: Bytes)
    requires Ipv4Options(area).None?
    ensures AllIpv4(options) && AllZero(zeros) && area == Joined(options) + zeros
    decreases |area|
  {
    if area == [] || area[0] == 0 {
      return [], area;
    }
    hide Joined;
    var n := if area[0] == 1 then 1 else area[1] as int;
    var rest;
    rest, zeros := Ipv4Made(area[n..]);
    options := [area[..n]] + rest;
    JoinedFirst(area[..n], rest);
  }

  lemma {:induction false} Ipv4Makes(options: seq<Bytes>, zeros: Bytes)
    requires AllIpv4(options) && AllZero(zeros)
    ensures Ipv4Options(Joined(options) + zeros).None?
    decreases |options|
  {
    if options == [] {
      assert Joined(options) + zeros == zeros;
    } else {
      Ipv4Makes(options[1..], zeros);
      JoinedTail(options, zeros);
      Ipv4OptionFirst(options[0], Joined(options[1..]) + zeros);
    }
  }

  /** A padding byte, or a kind, its data's length and the data: padding of zeros, or
      a kind that says to skip it, or any where nothing is enforced. */
  predicate IsIpv6Option(o: Bytes, strict: bool) {
    || o == [0]
    || (|o| >= 2 && o[0] != 0 && 2 + o[1] as int == |o| &&
        if o[0] == 1 then AllZero(o[2..]) else strict ==> o[0] / 64 == 0)
  }

  predicate AllIpv6(options: seq<Bytes>, strict: bool) {
    forall i :: 0 <= i < |options| ==> IsIpv6Option(options[i], strict)
  }

  lemma Ipv6OptionFirst(o: Bytes, rest: Bytes, at: nat, multicast: bool, strict: bool)
    requires IsIpv6Option(o, strict)
    ensures Ipv6Options(o + rest, at, multicast, strict) == Ipv6Options(rest, at + |o|, multicast, strict)
  {
    assert (o + rest)[|o|..] == rest;
    if o != [0] { assert (o + rest)[2..|o|] == o[2..]; }
  }

  /** IPv6 options are accepted exactly when they are whole options, each one that
      does not ask for the packet to be dropped; wherever they are in the packet. */
  lemma Ipv6OptionsAre(area: Bytes, at: nat, multicast: bool, strict: bool)
    ensures Ipv6Options(area, at, multicast, strict).None? <==>
      exists options :: AllIpv6(options, strict) && area == Joined(options)
  {
    if Ipv6Options(area, at, multicast, strict).None? {
      var options := Ipv6Made(area, at, multicast, strict);
      assert AllIpv6(options, strict) && area == Joined(options);
    }
    forall options | AllIpv6(options, strict) && area == Joined(options)
      ensures Ipv6Options(area, at, multicast, strict).None?
    {
      Ipv6Makes(options, at, multicast, strict);
    }
  }

  lemma FirstIpv6Option(area: Bytes, at: nat, multicast: bool, strict: bool) returns (n: nat)
    requires Ipv6Options(area, at, multicast, strict).None? && area != []
    ensures 0 < n <= |area| && IsIpv6Option(area[..n], strict) &&
      Ipv6Options(area[n..], at + n, multicast, strict).None?
  {
    n := if area[0] == 0 then 1 else 2 + area[1] as int;
    if area[0] != 0 { assert area[..n][2..] == area[2..n]; }
  }

  lemma NoIpv6Options(at: nat, multicast: bool, strict: bool)
    ensures Joined([]) == [] && Ipv6Options([], at, multicast, strict).None?
  {}

  lemma {:induction false} Ipv6Made(area: Bytes, at: nat, multicast: bool, strict: bool) returns (options: seq<Bytes>)
    requires Ipv6Options(area, at, multicast, strict).None?
    ensures AllIpv6(options, strict) && area == Joined(options)
    decreases |area|
  {
    hide Ipv6Options, IsIpv6Option;
    if area == [] {
      return [];
    }
    hide Joined;
    var n := FirstIpv6Option(area, at, multicast, strict);
    var rest := Ipv6Made(area[n..], at + n, multicast, strict);
    options := [area[..n]] + rest;
    JoinedFirst(area[..n], rest);
    assert area == area[..n] + area[n..];
  }

  lemma {:induction false} Ipv6Makes(options: seq<Bytes>, at: nat, multicast: bool, strict: bool)
    requires AllIpv6(options, strict)
    ensures Ipv6Options(Joined(options), at, multicast, strict).None?
    decreases |options|
  {
    hide Ipv6Options, IsIpv6Option, Joined;
    if options == [] {
      NoIpv6Options(at, multicast, strict);
    } else {
      Ipv6Makes(options[1..], at + |options[0]|, multicast, strict);
      Ipv6OptionFirst(options[0], Joined(options[1..]), at, multicast, strict);
      JoinedFirst(options[0], options[1..]);
      assert options == [options[0]] + options[1..];
    }
  }

  lemma Discarded(bad: Bytes, rest: Bytes, at: nat, multicast: bool)
    requires |bad| >= 2 && 2 + bad[1] as int == |bad| && bad[0] / 64 != 0
    ensures Ipv6Options([] + (bad + rest), at, multicast, true)
      == Some(Ipv6OptionDiscard(at, bad[0] / 64 == 2 || (bad[0] / 64 == 3 && !multicast)))
  {
    assert [] + (bad + rest) == bad + rest;
    assert (bad + rest)[2..|bad|] == bad[2..];
  }

  /** The first option that asks for the packet to be dropped is the one reported, at
      its own place, whatever follows it. */
  lemma {:induction false} FirstDiscard(options: seq<Bytes>, bad: Bytes, rest: Bytes, at: nat, multicast: bool)
    requires AllIpv6(options, true)
    requires |bad| >= 2 && 2 + bad[1] as int == |bad| && bad[0] / 64 != 0
    ensures Ipv6Options(Joined(options) + (bad + rest), at, multicast, true)
      == Some(Ipv6OptionDiscard(at + |Joined(options)|, bad[0] / 64 == 2 || (bad[0] / 64 == 3 && !multicast)))
    decreases |options|
  {
    hide Ipv6Options, IsIpv6Option, Joined;
    if options == [] {
      NoIpv6Options(at, multicast, true);
      Discarded(bad, rest, at, multicast);
    } else {
      FirstDiscard(options[1..], bad, rest, at + |options[0]|, multicast);
      JoinedTail(options, bad + rest);
      Ipv6OptionFirst(options[0], Joined(options[1..]) + (bad + rest), at, multicast, true);
    }
  }
}
