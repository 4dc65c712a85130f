/** What each call on the UDP flow table answers, exactly, and what it leaves. */
module UdpAnswers {
  import opened Machine
  import opened Checksum
  import opened Wire
  import opened WireCodec
  import opened WireFaults
  import opened WireFrames
  import opened UdpModel
  import opened UdpRuns
  import opened UdpCalls

  // ----- which packets are good -----

  /** A unicast address that is not this host's own: no zero network, no loopback, no
      multicast or reserved block in IPv4; not all zeros and no multicast in IPv6. */
  predicate IsRemote(ip: Ip) {
    if ip.V4? then 1 <= ip.octets[0] <= 223 && ip.octets[0] != 127
    else ip.octets[0] != 255 && exists i :: 0 <= i < 16 && ip.octets[i] != 0
  }

  /** The same, but for the loopback. */
  predicate IsReachable(ip: Ip) {
    if ip.V4? then 1 <= ip.octets[0] <= 223
    else ip.octets[0] != 255 && exists i :: 0 <= i < 16 && ip.octets[i] != 0
  }

  lemma AddressesAre(ip: Ip)
    ensures ValidFlowSource(ip) <==> IsRemote(ip)
    ensures ValidFlowDestination(ip) <==> IsReachable(ip)
  {}

  /** A packet is good exactly when it delivers a datagram, between addresses a flow can
      have. */
  lemma GoodExactly(packet: Bytes)
    ensures Parsed(packet).Ok? <==>
      Delivers(packet).Some? && IsRemote(Delivers(packet).value.source.ip) &&
      IsReachable(Delivers(packet).value.destination.ip)
    ensures Parsed(packet).Ok? ==> Delivers(packet) == Some(Parsed(packet).value)
    ensures Parsed(packet) == Err(InvalidAddress) <==> Delivers(packet).Some? && Parsed(packet).Err?
  {
    hide ParseIp, ParseUdp, ValidFlowSource, ValidFlowDestination;
    if Delivers(packet).Some? {
      AddressesAre(Delivers(packet).value.source.ip);
      AddressesAre(Delivers(packet).value.destination.ip);
    }
    hide IsRemote, IsReachable;
  }

  // ----- what a packet coming in is answered -----

  /** Room for the payload, and for a flow unless there is one. */
  predicate Granted(grants: Grants, known: bool) {
    grants.payload && (known || (grants.flow && grants.metadata))
  }

  lemma ParsedErrors(packet: Bytes)
    ensures Parsed(packet).Err? ==> Parsed(packet).error.BadWire? || Parsed(packet).error == InvalidAddress
  {
    hide ParseIp, ParseUdp;
  }

  /** A good packet is let in exactly when it belongs to a live flow or new ones are
      allowed, and there is room; each refusal has its own condition. */
  lemma IngestExactly(t: Table, packet: Bytes, now: u64, allowNew: bool, grants: Grants)
    requires t.tickMs > 0
    ensures var r := Ingest(t, packet, now, allowNew, grants).1;
      && (r == Err(UdpError.ClockWentBackwards) <==> now < t.lastNow)
      && (now >= t.lastNow && Parsed(packet).Err? ==> r == Err(Parsed(packet).error))
      && (now >= t.lastNow && Parsed(packet).Ok? ==>
            var known := KeyFor(t, packet) in Expired(t, now).flows;
            && (r == Err(NewFlowsDisabled) <==> !known && !allowNew)
            && (r == Err(Budget) <==> (known || allowNew) && !Granted(grants, known))
            && (r.Ok? <==> (known || allowNew) && Granted(grants, known)))
  {
    hide Parsed, DueFlows;
    ParsedErrors(packet);
  }

  /** The one flow touched is seen now, with its own id or the next; every other is as the
      time left it. */
  ghost predicate TouchedOne(t: Table, now: u64, key: FlowKey, u: Table)
    requires t.tickMs > 0
  {
    var e := Expired(t, now);
    && u.flows.Keys == e.flows.Keys + {key} && u.lastNow == now
    && (forall j :: j in e.flows && j != key ==> u.flows[j] == t.flows[j])
    && u.flows[key].lastSeen == now
    && u.flows[key].id == (if key in e.flows then t.flows[key].id else t.nextFlowId)
    && u.nextFlowId == t.nextFlowId + if key in e.flows then 0 else 1
  }

  lemma TouchLeaves(t: Table, now: u64, key: FlowKey, grants: Grants)
    requires t.tickMs > 0 && Touch(Expired(t, now), key, grants).1.Ok?
    ensures TouchedOne(t, now, key, Touch(Expired(t, now), key, grants).0)
    ensures Touch(Expired(t, now), key, grants).1.value == Touch(Expired(t, now), key, grants).0.flows[key].id
  {
    hide DueTick, Deadline, ClockTick;
  }

  lemma IngestLeaves(t: Table, packet: Bytes, now: u64, allowNew: bool, grants: Grants)
    requires t.tickMs > 0 && Ingest(t, packet, now, allowNew, grants).1.Ok?
    ensures var (u, r) := Ingest(t, packet, now, allowNew, grants);
      && Parsed(packet).Ok? && TouchedOne(t, now, KeyFor(t, packet), u)
      && r.value == Ingress(Token(u.flows[KeyFor(t, packet)].id, t.generation, t.shard), Parsed(packet).value.source,
           Parsed(packet).value.destination, Parsed(packet).value.payload)
  {
    hide Parsed, Touch, TouchedOne, DueFlows;
    TouchLeaves(t, now, KeyFor(t, packet), grants);
  }

  // ----- what a call that sends is answered -----

  predicate Carries(local: SocketAddr, remote: SocketAddr) {
    local.ip.V4? == remote.ip.V4? && remote.port != 0 && IsRemote(remote.ip) && IsReachable(local.ip)
  }

  /** A flow from that address to the remote one could be opened. */
  predicate IsFree(t: Table, local: SocketAddr, remote: SocketAddr, usable: u16 -> bool) {
    FlowKey(remote, local, t.generation) !in t.flows && usable(local.port)
  }

  /** No port of the dynamic range is left for the remote end. */
  ghost predicate NoneLeft(t: Table, ip: Ip, remote: SocketAddr, usable: u16 -> bool) {
    forall port: u16 :: 49_152 <= port ==> !IsFree(t, SocketAddr(ip, port), remote, usable)
  }

  /** The local address: the one asked for; or, where that leaves the port open, a free
      one of the dynamic range on the same address. */
  predicate LocalRight(t: Table, local: SocketAddr, remote: SocketAddr, usable: u16 -> bool, from: SocketAddr) {
    if local.port != 0 then from == local
    else from == SocketAddr(local.ip, from.port) && 49_152 <= from.port && IsFree(t, from, remote, usable)
  }

  lemma LocalIs(t: Table, local: SocketAddr, remote: SocketAddr, start: u64, usable: u16 -> bool)
    ensures var from := LocalFor(t, local, remote, start, usable);
      && (from.Some? ==> LocalRight(t, local, remote, usable, from.value))
      && (from.None? <==> local.port == 0 && NoneLeft(t, local.ip, remote, usable))
  {
    hide Scan;
    if local.port == 0 {
      ScanFrom(t, local.ip, remote, start, usable, 0);
      ScanComplete(t, local.ip, remote, start, usable);
      assert forall port: u16 ::
        Candidate(t, local.ip, remote, usable, port) == IsFree(t, SocketAddr(local.ip, port), remote, usable);
    }
  }

  /** A payload is sent exactly when the addresses can carry a flow, a port is left, it
      fits, and there is a flow or room for one. */
  lemma OriginateExactly(t: Table, local: SocketAddr, remote: SocketAddr, payload: Bytes, now: u64, start: u64,
                         usable: u16 -> bool, grants: Grants)
    requires t.tickMs > 0
    ensures var r, e := Originate(t, local, remote, payload, now, start, usable, grants).1, Expired(t, now);
      && (r == Err(UdpError.ClockWentBackwards) <==> now < t.lastNow)
      && (r == Err(InvalidAddress) <==> now >= t.lastNow && !Carries(local, remote))
      && (now >= t.lastNow && Carries(local, remote) ==>
            var none := local.port == 0 && NoneLeft(e, local.ip, remote, usable);
            var known := local.port != 0 && FlowKey(remote, local, t.generation) in e.flows;
            && (r == Err(AddressInUse) <==> none)
            && (r.Err? && r.error.BadWire? <==> !none && !Fits(local, remote, payload))
            && (r == Err(Budget) <==>
                  !none && Fits(local, remote, payload) && !known && !(grants.flow && grants.metadata))
            && (r.Ok? <==> !none && Fits(local, remote, payload) && (known || (grants.flow && grants.metadata))))
  {
    hide Emitted, Scan, NoneLeft, DueFlows, Fits, ValidFlowSource, ValidFlowDestination, IsRemote, IsReachable;
    AddressesAre(remote.ip);
    AddressesAre(local.ip);
    var e := Expired(t, now);
    LocalIs(e, local, remote, start, usable);
    var from := LocalFor(e, local, remote, start, usable);
    if from.Some? {
      SameFit(local, from.value, remote, payload);
      var key := FlowKey(remote, from.value, t.generation);
      var id := if key in e.flows then e.flows[key].id else e.nextFlowId;
      FitsExactly(from.value, remote, payload, 64, Identification(id));
    }
  }

  lemma SameFit(local: SocketAddr, from: SocketAddr, remote: SocketAddr, payload: Bytes)
    requires from.ip == local.ip
    ensures Fits(from, remote, payload) == Fits(local, remote, payload)
  {}

  lemma OriginateLeaves(t: Table, local: SocketAddr, remote: SocketAddr, payload: Bytes, now: u64, start: u64,
                        usable: u16 -> bool, grants: Grants)
    requires t.tickMs > 0 && Originate(t, local, remote, payload, now, start, usable, grants).1.Ok?
    ensures var (u, r) := Originate(t, local, remote, payload, now, start, usable, grants);
      var key := FlowKey(remote, r.value.local, t.generation);
      && LocalRight(Expired(t, now), local, remote, usable, r.value.local)
      && TouchedOne(t, now, key, u) && r.value.token == Token(u.flows[key].id, t.generation, t.shard)
      && Emitted(r.value.local, remote, payload, 64, u.flows[key].id % 0x1_0000) == Ok(r.value.packet)
  {
    hide Emitted, Scan, CanCarry, Touch, TouchedOne, LocalRight, LocalFor;
    var e := Expired(t, now);
    LocalIs(e, local, remote, start, usable);
    var from := LocalFor(e, local, remote, start, usable).value;
    TouchLeaves(t, now, FlowKey(remote, from, t.generation), grants);
    TouchedId(t, now, FlowKey(remote, from, t.generation), grants);
  }

  lemma TouchedId(t: Table, now: u64, key: FlowKey, grants: Grants)
    requires t.tickMs > 0 && Touch(Expired(t, now), key, grants).1.Ok?
    ensures var e := Expired(t, now);
      Touch(e, key, grants).1.value == if key in e.flows then e.flows[key].id else e.nextFlowId
  {}

  // ----- what a reply is answered -----

  /** A token is stale exactly when it is of another generation or shard, or its flow is
      gone; a good one sends exactly what fits. */
  lemma ReplyExactly(t: Table, token: Token, source: SocketAddr, payload: Bytes, now: u64)
    requires Inv(t)
    ensures var r, e := Reply(t, token, source, payload, now).1, Expired(t, now);
      && (r == Err(UdpError.ClockWentBackwards) <==> now < t.lastNow)
      && (r == Err(StaleToken) <==>
            now >= t.lastNow &&
            (token.generation != t.generation || token.shard != t.shard || !HasFlow(e, token.flow)))
      && (r.Ok? <==>
            now >= t.lastNow && token.generation == t.generation && token.shard == t.shard &&
            exists k :: k in e.flows && e.flows[k].id == token.flow && Fits(source, k.source, payload))
  {
    hide Emitted, Fits, Timely, Clocked, ChosenTick, DueFlows, Touch;
    var e := Expired(t, now);
    assert forall j :: j in e.flows ==> j in t.flows && e.flows[j] == t.flows[j];
    var key := KeyOf(e, token.flow);
    if key.Some? { FitsExactly(source, key.value.source, payload, 64, Identification(token.flow)); }
  }

  /** A reply sent is the packet emitted with its flow's id, and that flow is seen now. */
  lemma ReplyLeaves(t: Table, token: Token, source: SocketAddr, payload: Bytes, now: u64) returns (k: FlowKey)
    requires Inv(t) && Reply(t, token, source, payload, now).1.Ok?
    ensures k in Expired(t, now).flows && t.flows[k].id == token.flow
    ensures var (u, r) := Reply(t, token, source, payload, now);
      TouchedOne(t, now, k, u) && Emitted(source, k.source, payload, 64, token.flow % 0x1_0000) == Ok(r.value)
  {
    hide Emitted, Timely, Clocked, ChosenTick, DueFlows, Touch, TouchedOne;
    var e := Expired(t, now);
    assert forall j :: j in e.flows ==> j in t.flows && e.flows[j] == t.flows[j];
    k := KeyOf(e, token.flow).value;
    LiveTouch(e, k);
    TouchLeaves(t, now, k, Grants(true, true, true));
  }

  lemma LiveTouch(e: Table, k: FlowKey)
    requires e.tickMs > 0 && k in e.flows
    ensures Touch(e, k, Grants(true, true, true)).1.Ok?
  {}

  // ----- expiry -----

  /** No flow is kept past its timeout and a tick. */
  lemma LiveFresh(t: Table, k: FlowKey)
    requires Inv(t) && k in t.flows
    ensures !IdleFor(t, t.flows[k], t.divisor, t.lastNow - t.tickMs)
  {
    TimeoutIs(t.idleMs, t.divisor, t.lastNow - t.tickMs - t.flows[k].lastSeen);
    assert Timely(t, t.flows[k]);
    hide Clocked, ChosenTick, EffectiveTimeout;
  }

  /** While the pressure stays, expiry is what the time makes of the flows; it fails only
      for a clock that goes back; and it counts those that went. */
  lemma PressureStays(t: Table, now: u64, divisor: u64)
    requires t.tickMs > 0
    ensures var (u, r) := ExpireUnderPressure(t, now, divisor);
      && (r == Err(UdpError.ClockWentBackwards) <==> now < t.lastNow) && (r.Err? ==> u == t && now < t.lastNow)
      && (r.Ok? && Max(divisor, 1) == t.divisor ==>
            u == Expired(t, now) && r == Ok(|t.flows.Keys - u.flows.Keys|))
  {
    hide Rebuilt, ClockTick;
    Partition(t.flows.Keys, Expired(t, now).flows.Keys);
  }

  // ----- generations -----

  lemma StepGeneration(t: Table, op: Op)
    requires Inv(t)
    ensures Apply(t, op).generation == if op.ResetOp? then op.generation else t.generation
  {
    StepShape(t, op);
    hide Expired, Touch, Inv;
    if !op.ResetOp? && !op.ClearOp? { ShapeGeneration(t, op); }
  }

  lemma ShapeGeneration(t: Table, op: Op)
    requires t.tickMs > 0 && !op.ResetOp? && !op.ClearOp?
    ensures Apply(t, op).generation == t.generation
  {
    hide Parsed, Emitted, Scan, CanCarry, DueFlows, Retimed, StaleFlows;
  }

  /** After a reset, and until the next, every token given is of its generation. */
  lemma {:induction false} GenerationKept(t: Table, ops: seq<Op>)
    requires Inv(t) && forall i :: 0 <= i < |ops| ==> !ops[i].ResetOp?
    ensures Run(t, ops).generation == t.generation
    decreases |ops|
  {
    hide Apply, Timely, Clocked, ChosenTick;
    if ops != [] {
      StepKeeps(t, ops[0]);
      StepGeneration(t, ops[0]);
      GenerationKept(Apply(t, ops[0]), ops[1..]);
    }
  }

  lemma ResetRenames(t: Table, generation: nat, ops: seq<Op>, packet: Bytes, now: u64, allowNew: bool, grants: Grants,
                     op: Op)
    requires Inv(t) && op.OriginateOp? && forall i :: 0 <= i < |ops| ==> !ops[i].ResetOp?
    ensures ResetNetwork(t, generation).flows == map[] && ResetNetwork(t, generation).nextFlowId == t.nextFlowId
    ensures var v := Run(t, [ResetOp(generation)] + ops);
      && v.generation == generation
      && (Ingest(v, packet, now, allowNew, grants).1.Ok? ==>
            Ingest(v, packet, now, allowNew, grants).1.value.token.generation == generation)
      && (Opened(v, op).Ok? ==> Opened(v, op).value.token.generation == generation)
  {
    hide Run, Ingest, Originate, Timely, Clocked, ChosenTick;
    RunAfter(t, ResetOp(generation), ops);
    GenerationKept(ResetNetwork(t, generation), ops);
    var v := Run(t, [ResetOp(generation)] + ops);
    if Ingest(v, packet, now, allowNew, grants).1.Ok? { IngestLeaves(v, packet, now, allowNew, grants); }
    if Opened(v, op).Ok? {
      OriginateLeaves(v, op.local, op.remote, op.payload, op.now, op.start, op.usable, op.grants);
    }
  }
}
