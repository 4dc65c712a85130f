/** What a caller of the UDP flow table can count on, call by call and over runs. */
module UdpCalls {
  import opened Machine
  import opened Checksum
  import opened Wire
  import opened WireCodec
  import opened WireFaults
  import opened UdpModel
  import opened UdpRuns

  /** The table with nothing done but the time passed, if it did not go back. */
  function Passed(t: Table, now: u64): Table
    requires t.tickMs > 0
  {
    if now < t.lastNow then t else Expired(t, now)
  }

  /** A call refused, for whatever reason, only lets the time pass. */
  lemma RefusedPasses(t: Table, packet: Bytes, allowNew: bool, local: SocketAddr, remote: SocketAddr, payload: Bytes,
                      now: u64, start: u64, usable: u16 -> bool, token: Token, grants: Grants)
    requires t.tickMs > 0
    ensures var (u, r) := Ingest(t, packet, now, allowNew, grants); r.Err? ==> u == Passed(t, now)
    ensures var (u, r) := Originate(t, local, remote, payload, now, start, usable, grants);
      r.Err? ==> u == Passed(t, now)
    ensures var (u, r) := Reply(t, token, local, payload, now); r.Err? ==> u == Passed(t, now)
  {
    hide Parsed, Emitted, Scan, CanCarry, Expired;
  }

  /** The flow a good packet belongs to. */
  function KeyFor(t: Table, packet: Bytes): FlowKey
    requires Parsed(packet).Ok?
  {
    FlowKey(Parsed(packet).value.source, Parsed(packet).value.destination, t.generation)
  }

  /** With new flows off, a packet brings none in, and is refused for that exactly when
      it is good and no live flow is its own. */
  lemma ClosedAdmitsNone(t: Table, packet: Bytes, now: u64, grants: Grants)
    requires t.tickMs > 0
    ensures var (u, r) := Ingest(t, packet, now, false, grants);
      && u.nextFlowId == t.nextFlowId && u.flows.Keys == Passed(t, now).flows.Keys
      && (r == Err(NewFlowsDisabled) <==>
            now >= t.lastNow && Parsed(packet).Ok? && KeyFor(t, packet) !in Expired(t, now).flows)
  {
    hide ParseIp, ParseUdp, DueFlows;
  }

  /** What comes in is what the packet delivers, and its flow is live and just seen. */
  lemma IngressIs(t: Table, packet: Bytes, now: u64, allowNew: bool, grants: Grants)
    requires Inv(t) && Ingest(t, packet, now, allowNew, grants).1.Ok?
    ensures var (u, r) := Ingest(t, packet, now, allowNew, grants);
      var key := FlowKey(r.value.source, r.value.destination, t.generation);
      && Delivers(packet) == Some(UdpDatagram(r.value.source, r.value.destination, r.value.payload))
      && r.value.source == Bare(r.value.source) && r.value.destination == Bare(r.value.destination)
      && key in u.flows && u.flows[key].id == r.value.token.flow && u.flows[key].lastSeen == now
      && r.value.token.generation == u.generation == t.generation && r.value.token.shard == u.shard == t.shard
  {
    hide ParseIp, ParseUdp, ValidFlowSource, ValidFlowDestination, DueFlows;
    ParsedBare(packet);
  }

  /** A payload that a packet between the two can hold. */
  predicate Fits(source: SocketAddr, destination: SocketAddr, payload: Bytes) {
    source.ip.V4? == destination.ip.V4? && |payload| <= if source.ip.V4? then 65_507 else 65_527
  }

  lemma FitsExactly(source: SocketAddr, destination: SocketAddr, payload: Bytes, hopLimit: byte, identification: u16)
    ensures Emitted(source, destination, payload, hopLimit, identification).Ok? <==> Fits(source, destination, payload)
    ensures Fits(source, destination, payload) ==>
      Delivers(Emitted(source, destination, payload, hopLimit, identification).value) ==
        Some(UdpDatagram(Bare(source), Bare(destination), payload))
  {
    if Fits(source, destination, payload) { RoundTrip(source, destination, payload, hopLimit, identification); }
    hide ParseIp, ParseUdp, UdpSegment, UdpChecksum, OnesSum;
  }

  /** A live flow's token is good for a reply exactly when the payload fits; the reply
      delivers it to the flow's source, and keeps the flow, that one alone, alive. */
  lemma LiveReply(t: Table, k: FlowKey, source: SocketAddr, payload: Bytes, now: u64)
    requires Inv(t) && now >= t.lastNow && k in Expired(t, now).flows
    ensures var token := Token(t.flows[k].id, t.generation, t.shard);
      var (u, r) := Reply(t, token, source, payload, now); var e := Expired(t, now);
      && (r.Ok? <==> Fits(source, k.source, payload))
      && (r.Ok? ==>
            && Delivers(r.value) == Some(UdpDatagram(Bare(source), Bare(k.source), payload))
            && u.flows.Keys == e.flows.Keys && u.nextFlowId == t.nextFlowId
            && u.flows[k].id == t.flows[k].id && u.flows[k].lastSeen == now
            && forall j :: j in e.flows && j != k ==> u.flows[j] == e.flows[j])
  {
    hide Emitted, Delivers, Fits, Timely, Clocked, ChosenTick;
    var e := Expired(t, now);
    assert forall j :: j in e.flows ==> j in t.flows && e.flows[j] == t.flows[j];
    assert KeyOf(e, t.flows[k].id) == Some(k);
    FitsExactly(source, k.source, payload, 64, Identification(t.flows[k].id));
  }

  lemma RunAfter(t: Table, op: Op, ops: seq<Op>)
    requires Inv(t)
    ensures Inv(Apply(t, op)) && Run(t, [op] + ops) == Run(Apply(t, op), ops)
  {
    hide Apply, Inv;
    StepKeeps(t, op);
    assert ([op] + ops)[1..] == ops;
  }

  /** An answer to what came in, at any time while its flow lives, reaches the sender
      from the address the sender sent to. */
  lemma AnswerReaches(t: Table, packet: Bytes, at: u64, allowNew: bool, grants: Grants, ops: seq<Op>, payload: Bytes,
                      now: u64)
    requires Inv(t) && Ingest(t, packet, at, allowNew, grants).1.Ok?
    requires var r := Ingest(t, packet, at, allowNew, grants).1.value;
      var v := Run(t, [IngestOp(packet, at, allowNew, grants)] + ops);
      now >= v.lastNow && HasFlow(Expired(v, now), r.token.flow) && Fits(r.destination, r.source, payload)
    ensures var r := Ingest(t, packet, at, allowNew, grants).1.value;
      var v := Run(t, [IngestOp(packet, at, allowNew, grants)] + ops);
      var reply := Reply(v, r.token, r.destination, payload, now).1;
      reply.Ok? && Delivers(reply.value) == Some(UdpDatagram(r.destination, r.source, payload))
  {
    var (u, r) := Ingest(t, packet, at, allowNew, grants);
    IngressIs(t, packet, at, allowNew, grants);
    RunAfter(t, IngestOp(packet, at, allowNew, grants), ops);
    hide Ingest, Fits, Delivers, Reply, Run;
    var key := FlowKey(r.value.source, r.value.destination, t.generation);
    var v := Run(u, ops);
    var j :| j in Expired(v, now).flows && Expired(v, now).flows[j].id == r.value.token.flow;
    assert j in v.flows && v.flows[j].id == r.value.token.flow;
    IdKeepsKey(u, ops, key, j);
    assert j.generation == v.generation;
    LiveReply(v, key, r.value.destination, payload, now);
  }

  // ----- which flows hear from their remote end -----

  predicate IsBare(k: FlowKey) {
    k.source == Bare(k.source) && k.destination == Bare(k.destination)
  }

  /** A flow of a scoped address, or one with flow information, never hears anything:
      whatever comes in, at any time, comes in under another's token. */
  lemma ScopedNeverHears(t: Table, k: FlowKey, ops: seq<Op>, packet: Bytes, now: u64, allowNew: bool, grants: Grants)
    requires Inv(t) && k in t.flows && !IsBare(k)
    ensures var r := Ingest(Run(t, ops), packet, now, allowNew, grants).1;
      r.Ok? ==> r.value.token.flow != t.flows[k].id
  {
    hide Run, Ingest, Apply;
    var v := Run(t, ops);
    var (u, r) := Ingest(v, packet, now, allowNew, grants);
    if r.Ok? {
      IngressIs(v, packet, now, allowNew, grants);
      var key := FlowKey(r.value.source, r.value.destination, v.generation);
      IngestRun(t, ops, packet, now, allowNew, grants);
      if u.flows[key].id == t.flows[k].id {
        IdKeepsKey(t, ops + [IngestOp(packet, now, allowNew, grants)], k, key);
      }
    }
  }

  lemma {:induction false} IngestRun(t: Table, ops: seq<Op>, packet: Bytes, now: u64, allowNew: bool, grants: Grants)
    requires Inv(t)
    ensures Run(t, ops + [IngestOp(packet, now, allowNew, grants)])
      == Ingest(Run(t, ops), packet, now, allowNew, grants).0
    decreases |ops|
  {
    hide Timely, Clocked, ChosenTick, Ingest;
    var op := IngestOp(packet, now, allowNew, grants);
    if ops == [] {
      assert [] + [op] == [op] + [];
      RunAfter(t, op, []);
    } else {
      RunAfter(t, ops[0], ops[1..]);
      assert ops == [ops[0]] + ops[1..] && ops + [op] == [ops[0]] + (ops[1..] + [op]);
      RunAfter(t, ops[0], ops[1..] + [op]);
      hide Apply;
      IngestRun(Apply(t, ops[0]), ops[1..], packet, now, allowNew, grants);
    }
  }

  /** What the host opened a flow for comes back under its token, at any time while the
      flow lives, exactly when neither end has a scope or flow information. */
  lemma HeardExactly(t: Table, op: Op, ops: seq<Op>, packet: Bytes, now: u64, allowNew: bool, grants: Grants)
    requires Inv(t) && op.OriginateOp? && Opened(t, op).Ok? && grants.payload
    requires var v := Run(t, [op] + ops);
      now >= v.lastNow && HasFlow(Expired(v, now), Opened(t, op).value.token.flow)
    requires Parsed(packet).Ok?
    requires Parsed(packet).value.source == Bare(op.remote)
    requires Parsed(packet).value.destination == Bare(Opened(t, op).value.local)
    ensures var r := Ingest(Run(t, [op] + ops), packet, now, allowNew, grants).1;
      && (r.Ok? && r.value.token == Opened(t, op).value.token <==>
            op.remote == Bare(op.remote) && Opened(t, op).value.local == Bare(Opened(t, op).value.local))
      && (r.Ok? && r.value.token == Opened(t, op).value.token ==> r.value.payload == Parsed(packet).value.payload)
  {
    hide Run, Ingest, Parsed, CanCarry, Emitted;
    var u, r := Apply(t, op), Opened(t, op).value;
    OriginatedId(t, op.local, op.remote, op.payload, op.now, op.start, op.usable, op.grants);
    RunAfter(t, op, ops);
    hide Originate, Apply;
    var k := FlowKey(op.remote, r.local, t.generation);
    OpenedSame(t, op);
    if IsBare(k) {
      ReplyComesBack(u, k, ops, packet, now, allowNew, grants);
    } else {
      ScopedNeverHears(u, k, ops, packet, now, allowNew, grants);
    }
  }

  /** A flow opened to a link-local address, with the scope it needs. */
  function ScopedOp(): Op {
    var remote := SocketAddr(V6([0xfe, 0x80, 0, 0, 0, 0, 0, 0, 0, 0, 0, 0, 0, 0, 0, 1]), 53, 0, 2);
    var local := SocketAddr(V6([0xfe, 0x80, 0, 0, 0, 0, 0, 0, 0, 0, 0, 0, 0, 0, 0, 2]), 5000);
    OriginateOp(local, remote, [], 0, 0, _ => true, Grants(true, true, true))
  }

  /** What the remote end answers. */
  function ScopedAnswer(): Result<Bytes, WireError> {
    Emitted(ScopedOp().remote, ScopedOp().local, [], 64, 0)
  }

  lemma ScopedAnswerParses()
    ensures ScopedAnswer().Ok?
    ensures Parsed(ScopedAnswer().value) == Ok(UdpDatagram(Bare(ScopedOp().remote), ScopedOp().local, []))
  {
    hide UdpChecksum, UdpSegment, Ipv6FixedHeader, ParseIp, ParseUdp;
    RoundTrip(ScopedOp().remote, ScopedOp().local, [], 64, 0);
  }

  /** A packet refused with new flows off, which with them on opens a flow beside `id`'s. */
  predicate OpensAnother(t: Table, id: nat, packet: Bytes)
    requires t.tickMs > 0
  {
    var refused := Ingest(t, packet, 0, false, Grants(true, true, true)).1;
    var taken := Ingest(t, packet, 0, true, Grants(true, true, true)).1;
    refused == Err(NewFlowsDisabled) && taken.Ok? && taken.value.token.flow != id
  }

  lemma ScopedReached() returns (mine: Result<Originated, UdpError>, t: Table, packet: Bytes)
    ensures mine == Opened(NewTable(0, 0, 60_000), ScopedOp()) && t == Apply(NewTable(0, 0, 60_000), ScopedOp())
    ensures ScopedAnswer() == Ok(packet)
    ensures mine.Ok? && t.tickMs > 0 && OpensAnother(t, mine.value.token.flow, packet)
  {
    hide Parsed, UdpChecksum, UdpSegment, Ipv6FixedHeader, ChosenTick, Scan, ScopedAnswer;
    var op := ScopedOp();
    assert Emitted(op.local, op.remote, op.payload, 64, Identification(0)).Ok?;
    ScopedAnswerParses();
    mine, t, packet := Opened(NewTable(0, 0, 60_000), op), Apply(NewTable(0, 0, 60_000), op), ScopedAnswer().value;
  }

  function Opened(t: Table, op: Op): Result<Originated, UdpError>
    requires t.tickMs > 0 && op.OriginateOp?
  {
    Originate(t, op.local, op.remote, op.payload, op.now, op.start, op.usable, op.grants).1
  }

  lemma OpenedSame(t: Table, op: Op)
    requires t.tickMs > 0 && op.OriginateOp?
    ensures Apply(t, op).generation == t.generation && Apply(t, op).shard == t.shard
  {
    hide Emitted, Scan, CanCarry, DueFlows;
  }

  /** After a reset, or a clear, no token given before it is good again, ever. */
  lemma ResetRefuses(t: Table, generation: nat, ops: seq<Op>, token: Token, source: SocketAddr, payload: Bytes,
                     now: u64)
    requires Inv(t) && token.flow < t.nextFlowId && now >= Run(t, [ResetOp(generation)] + ops).lastNow
    ensures Reply(Run(t, [ResetOp(generation)] + ops), token, source, payload, now).1 == Err(StaleToken)
  {
    hide Reply, Run, Timely, Clocked, ChosenTick;
    RunAfter(t, ResetOp(generation), ops);
    assert !HasFlow(ResetNetwork(t, generation), token.flow);
    DeadTokenRefused(ResetNetwork(t, generation), ops, token, source, payload, now);
  }

  /** When the pressure changes, exactly the flows idle for the new timeout go, now and
      not a tick later; the others keep their ids, and the answer counts those gone. */
  lemma PressureJudges(t: Table, now: u64, divisor: u64)
    requires Inv(t) && now >= t.lastNow && Max(divisor, 1) != t.divisor
    ensures var (u, r) := ExpireUnderPressure(t, now, divisor);
      && u.divisor == Max(divisor, 1)
      && (forall k :: k in u.flows <==> k in t.flows && !IdleFor(t, t.flows[k], divisor, now))
      && (forall k :: k in u.flows ==> u.flows[k].id == t.flows[k].id && u.flows[k].lastSeen == t.flows[k].lastSeen)
      && r == Ok(|t.flows.Keys - u.flows.Keys|)
  {
    hide Rebuilt, Timely, Clocked, ChosenTick, IdleFor;
    var u := Rebuilt(t, now, Max(divisor, 1));
    RebuiltKeys(t, now, Max(divisor, 1));
    forall k | k in t.flows
      ensures k in u.flows <==> !IdleFor(t, t.flows[k], divisor, now)
      ensures k in u.flows ==> u.flows[k].id == t.flows[k].id && u.flows[k].lastSeen == t.flows[k].lastSeen
    {
      RebuiltExpires(t, now, Max(divisor, 1), k);
      SameDivisor(t, t.flows[k], divisor, now);
    }
    Partition(t.flows.Keys, u.flows.Keys);
  }

  lemma RebuiltKeys(t: Table, now: u64, divisor: u64)
    requires t.tickMs > 0
    ensures Rebuilt(t, now, divisor).flows.Keys <= t.flows.Keys && Rebuilt(t, now, divisor).divisor == divisor
  {
    hide DueTick, EffectiveTimeout;
  }

  lemma SameDivisor(t: Table, f: Flow, divisor: u64, now: int)
    ensures IdleFor(t, f, divisor, now) == IdleFor(t, f, Max(divisor, 1), now)
  {}

  lemma Partition(all: set<FlowKey>, some: set<FlowKey>)
    requires some <= all
    ensures |all| - |some| == |all - some|
  {
    assert all == some + (all - some);
  }
}
