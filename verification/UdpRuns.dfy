/** What holds of the UDP flow table over every run of its operations. */
module UdpRuns {
  import opened Machine
  import opened Checksum
  import opened Wire
  import opened WireCodec
  import opened UdpModel

  datatype Op =
    | IngestOp(packet: Bytes, now: u64, allowNew: bool, grants: Grants)
    | OriginateOp(local: SocketAddr, remote: SocketAddr, payload: Bytes, now: u64, start: u64, usable: u16 -> bool,
      grants: Grants)
    | ReplyOp(token: Token, source: SocketAddr, payload: Bytes, now: u64)
    | ExpireOp(now: u64, divisor: u64)
    | ResetOp(generation: nat)
    | ClearOp

  ghost function Apply(t: Table, op: Op): Table
    requires t.tickMs > 0
  {
    match op
    case IngestOp(packet, now, allowNew, grants) => Ingest(t, packet, now, allowNew, grants).0
    case OriginateOp(local, remote, payload, now, start, usable, grants) =>
      Originate(t, local, remote, payload, now, start, usable, grants).0
    case ReplyOp(token, source, payload, now) => Reply(t, token, source, payload, now).0
    case ExpireOp(now, divisor) => ExpireUnderPressure(t, now, divisor).0
    case ResetOp(generation) => ResetNetwork(t, generation)
    case ClearOp => ResetNetwork(t, t.generation)
  }

  ghost function Run(t: Table, ops: seq<Op>): Table
    requires Inv(t)
    ensures Inv(Run(t, ops))
    decreases |ops|
  {
    if ops == [] then t else
    StepKeeps(t, ops[0]);
    Run(Apply(t, ops[0]), ops[1..])
  }

  // ----- each step -----

  /** Whatever an operation does, it is one of these to the flows. */
  ghost predicate Shape(t: Table, u: Table, now: u64) {
    && t.tickMs > 0 && t.lastNow <= now
    && (|| u == Expired(t, now)
        || exists key, grants :: u == Touch(Expired(t, now), key, grants).0 && key.generation == t.generation)
  }

  lemma StepShape(t: Table, op: Op)
    requires Inv(t)
    ensures Apply(t, op) == t
      || op.ResetOp? || op.ClearOp?
      || (op.ExpireOp? && t.lastNow <= op.now && Apply(t, op) == Rebuilt(t, op.now, Max(op.divisor, 1)))
      || (!op.ResetOp? && !op.ClearOp? && Shape(t, Apply(t, op), op.now))
  {
    hide ParseIp, ParseUdp, Expired, Touch, Emitted, Scan, ValidFlowSource, ValidFlowDestination, Rebuilt;
    match op {
      case IngestOp(packet, now, allowNew, grants) =>
        var d := Parsed(packet);
        if now >= t.lastNow && d.Ok? {
          ExpiredSame(t, now);
          var key := FlowKey(d.value.source, d.value.destination, t.generation);
          assert Shape(t, Touch(Expired(t, now), key, grants).0, now);
        }
      case OriginateOp(local, remote, payload, now, start, usable, grants) =>
        if now >= t.lastNow {
          ExpiredSame(t, now);
          var from := LocalFor(Expired(t, now), local, remote, start, usable);
          if from.Some? {
            assert Shape(t, Touch(Expired(t, now), FlowKey(remote, from.value, t.generation), grants).0, now);
          }
        }
      case ReplyOp(token, source, payload, now) =>
        if now >= t.lastNow {
          var e := Expired(t, now);
          ExpiredKeeps(t, now);
          ExpiredSame(t, now);
          var key := KeyOf(e, token.flow);
          if key.Some? {
            assert Shape(t, Touch(e, key.value, Grants(true, true, true)).0, now);
          }
        }
      case _ =>
    }
  }

  lemma ExpiredSame(t: Table, now: u64)
    requires t.tickMs > 0
    ensures var e := Expired(t, now); e.generation == t.generation && e.shard == t.shard && e.tickMs == t.tickMs
  {}

  /** A timer set now for a flow not yet idle is set right. */
  lemma DueTimely(t: Table, id: nat, lastSeen: u64)
    requires t.idleMs > 0 && t.tickMs == ChosenTick(t.idleMs) && Clocked(t)
    requires lastSeen <= t.lastNow && t.lastNow - lastSeen < EffectiveTimeout(t.idleMs, t.divisor)
    ensures Timely(t, Flow(id, lastSeen, DueTick(t.tickMs, t.currentTick, Deadline(t, lastSeen))))
  {
    DueBounds(t, lastSeen);
    if t.lastNow < U64_MAX {
      TickBounds(t.currentTick, t.lastNow, t.tickMs);
    }
  }

  lemma TouchKeeps(t: Table, key: FlowKey, grants: Grants)
    requires Inv(t) && key.generation == t.generation
    ensures Inv(Touch(t, key, grants).0)
  {
    DueTimely(t, if key in t.flows then t.flows[key].id else t.nextFlowId, t.lastNow);
    var u := Touch(t, key, grants).0;
    forall k | k in u.flows ensures Timely(u, u.flows[k]) {
      TimelySame(t, u, u.flows[k]);
    }
    hide ChosenTick, DueTick, Deadline, Timely;
  }

  lemma TimelySame(t: Table, u: Table, f: Flow)
    requires t.tickMs > 0 && u == t.(flows := u.flows, nextFlowId := u.nextFlowId)
    ensures Timely(u, f) == Timely(t, f) && Clocked(u) == Clocked(t)
  {}

  lemma RebuiltKeeps(t: Table, now: u64, divisor: u64)
    requires Inv(t) && t.lastNow <= now && divisor >= 1
    ensures Inv(Rebuilt(t, now, divisor))
  {
    var r := Rebuilt(t, now, divisor);
    forall k | k in r.flows ensures Timely(r, r.flows[k]) {
      DueTimely(r, t.flows[k].id, t.flows[k].lastSeen);
    }
    hide ChosenTick, EffectiveTimeout, DueTick, Deadline;
  }

  /** Every operation keeps the invariant. */
  lemma StepKeeps(t: Table, op: Op)
    requires Inv(t)
    ensures Inv(Apply(t, op))
  {
    StepShape(t, op);
    var u := Apply(t, op);
    if op.ResetOp? || op.ClearOp? || u == t {
      hide ChosenTick, Timely;
    } else if op.ExpireOp? && u == Rebuilt(t, op.now, Max(op.divisor, 1)) {
      hide Apply, Inv;
      RebuiltKeeps(t, op.now, Max(op.divisor, 1));
    } else {
      hide Apply, Touch, Inv;
      ExpiredKeeps(t, op.now);
      ExpiredSame(t, op.now);
      if u != Expired(t, op.now) {
        var key, grants :| u == Touch(Expired(t, op.now), key, grants).0 && key.generation == t.generation;
        TouchKeeps(Expired(t, op.now), key, grants);
      }
    }
  }

  lemma NewTableInv(generation: nat, shard: nat, idleMs: u64)
    requires idleMs > 0
    ensures Inv(NewTable(generation, shard, idleMs))
  {
    hide ChosenTick;
  }

  // ----- expiry: never early, never late -----

  ghost predicate HasFlow(t: Table, id: nat) {
    exists k :: k in t.flows && t.flows[k].id == id
  }

  /** Not seen for the idle timeout over the divisor, and a millisecond at least. */
  predicate IdleFor(t: Table, f: Flow, divisor: u64, now: int) {
    var x := now - f.lastSeen;
    x >= 1 && (x + 1) * Max(divisor, 1) > t.idleMs
  }

  /** A flow gone at `now` was idle for its timeout, exactly when that timeout
      ends within the 64-bit clock; before the clock's last millisecond it does. */
  lemma ExpiredIdle(t: Table, now: u64, k: FlowKey)
    requires Inv(t) && t.lastNow <= now
    requires k in t.flows && k !in Expired(t, now).flows
    ensures IdleFor(t, t.flows[k], t.divisor, now) <==> IdleFor(t, t.flows[k], t.divisor, U64_MAX)
    ensures now < U64_MAX ==> IdleFor(t, t.flows[k], t.divisor, now)
  {
    ClockForward(t, now);
    var f := t.flows[k];
    TimeoutIs(t.idleMs, t.divisor, now - f.lastSeen);
    TimeoutIs(t.idleMs, t.divisor, U64_MAX - f.lastSeen);
    hide EffectiveTimeout;
    if now < U64_MAX {
      TickBounds(f.due, now, t.tickMs);
    }
  }

  /** At the clock's last millisecond a deadline past it saturates to it: the flow
      goes before it was idle for its timeout. */
  lemma EndOfClock(t: Table, k: FlowKey)
    requires Inv(t) && t.lastNow < U64_MAX && k in t.flows
    requires !IdleFor(t, t.flows[k], t.divisor, U64_MAX)
    ensures k !in Expired(t, U64_MAX).flows
  {
    TimeoutIs(t.idleMs, t.divisor, U64_MAX - t.flows[k].lastSeen);
    DivCeilBounds(U64_MAX, t.tickMs);
    TickBounds(t.flows[k].due - 1, U64_MAX, t.tickMs);
  }

  /** The host opens a flow in the clock's last millisecond but one. */
  function LateOp(): Op {
    OriginateOp(SocketAddr(V4([10, 0, 0, 1]), 5000), SocketAddr(V4([10, 0, 0, 2]), 53), [],
                U64_MAX - 1, 0, _ => true, Grants(true, true, true))
  }

  /** Such a flow is reached: with a timeout of a minute, it is gone a millisecond after
      it was last seen. */
  lemma EndReached()
    ensures Inv(NewTable(0, 0, 60_000))
    ensures var t := Run(NewTable(0, 0, 60_000), [LateOp()]);
      var k := FlowKey(LateOp().remote, LateOp().local, 0);
      && k in t.flows && t.flows[k].lastSeen == U64_MAX - 1 && t.idleMs == 60_000 && t.divisor == 1
      && k !in Expired(t, U64_MAX).flows
  {
    hide Inv, Apply, EffectiveTimeout;
    NewTableInv(0, 0, 60_000);
    var t0, op := NewTable(0, 0, 60_000), LateOp();
    StepKeeps(t0, op);
    LateFlow();
    assert Run(t0, [op]) == Apply(t0, op) by { assert [op][1..] == []; }
    EndOfClock(Apply(t0, op), FlowKey(op.remote, op.local, 0));
  }

  lemma LateFlow()
    ensures var t := Apply(NewTable(0, 0, 60_000), LateOp()); var k := FlowKey(LateOp().remote, LateOp().local, 0);
      && t.lastNow == U64_MAX - 1 && k in t.flows && t.flows[k].lastSeen == U64_MAX - 1
      && t.idleMs == 60_000 && t.divisor == 1 && t.tickMs > 0
  {
    hide UdpChecksum, UdpSegment, Ipv4Header, OnesSum, ChosenTick, DueTick, ClockTick, Scan;
    var op := LateOp();
    assert Emitted(op.local, op.remote, op.payload, 64, Identification(0)).Ok?;
  }

  /** A rebuild takes the idle flows, and leaves the others their ids. */
  lemma RebuiltExpires(t: Table, now: u64, divisor: u64, k: FlowKey)
    requires t.tickMs > 0 && k in t.flows && divisor >= 1
    ensures var u := Rebuilt(t, now, divisor); u.divisor == divisor && u.lastNow == now
    ensures var u := Rebuilt(t, now, divisor);
      if k in u.flows then u.flows[k].id == t.flows[k].id && u.flows[k].lastSeen == t.flows[k].lastSeen &&
        !IdleFor(t, t.flows[k], divisor, now)
      else IdleFor(t, t.flows[k], divisor, now)
  {
    TimeoutIs(t.idleMs, divisor, now - t.flows[k].lastSeen);
    hide EffectiveTimeout, DueTick;
  }

  /** In any step but a reset, a flow goes only once idle for the timeout over the
      divisor then in force, the clock's last millisecond apart. */
  lemma StepExpires(t: Table, op: Op, k: FlowKey)
    requires Inv(t) && !op.ResetOp? && !op.ClearOp? && k in t.flows
    ensures var u := Apply(t, op);
      || HasFlow(u, t.flows[k].id)
      || IdleFor(t, t.flows[k], u.divisor, u.lastNow)
      || (u.lastNow == U64_MAX && !IdleFor(t, t.flows[k], t.divisor, U64_MAX))
  {
    StepShape(t, op);
    var u := Apply(t, op);
    hide Apply, Inv, IdleFor;
    if op.ExpireOp? && t.lastNow <= op.now && u == Rebuilt(t, op.now, Max(op.divisor, 1)) {
      hide Expired, Shape;
      RebuiltExpires(t, op.now, Max(op.divisor, 1), k);
    } else if u != t {
      var e := Expired(t, op.now);
      ShapeClock(t, u, op.now);
      TouchIds(e, u);
      if k !in e.flows { ExpiredIdle(t, op.now, k); }
    }
  }

  lemma ShapeClock(t: Table, u: Table, now: u64)
    requires Shape(t, u, now)
    ensures u.lastNow == now && u.divisor == t.divisor
  {}

  /** `u` is `e`, touched or not: every flow keeps its key and id. */
  lemma TouchIds(e: Table, u: Table)
    requires e.tickMs > 0 &&
      (u == e || exists key, grants :: u == Touch(e, key, grants).0 && key.generation == e.generation)
    ensures forall k :: k in e.flows ==> k in u.flows && u.flows[k].id == e.flows[k].id
    ensures forall k :: k in u.flows && k !in e.flows ==> u.flows[k].id == e.nextFlowId < u.nextFlowId
    ensures u.nextFlowId >= e.nextFlowId && u.shard == e.shard
  {}

  // ----- ids and tokens -----

  /** A step gives a flow a new id or leaves it the one it has. */
  lemma StepIds(t: Table, op: Op)
    requires Inv(t)
    ensures Apply(t, op).nextFlowId >= t.nextFlowId && Apply(t, op).shard == t.shard
    ensures forall k :: k in Apply(t, op).flows ==>
      (k in t.flows && Apply(t, op).flows[k].id == t.flows[k].id) || Apply(t, op).flows[k].id >= t.nextFlowId
  {
    StepShape(t, op);
    var u := Apply(t, op);
    if !op.ResetOp? && !op.ClearOp? && u != t {
      hide Apply, Inv;
      if !(op.ExpireOp? && u == Rebuilt(t, op.now, Max(op.divisor, 1))) {
        TouchIds(Expired(t, op.now), u);
      }
    }
  }

  /** A token whose flow is gone never names a later one. */
  lemma {:induction false} DeadStaysDead(t: Table, ops: seq<Op>, id: nat)
    requires Inv(t) && id < t.nextFlowId && !HasFlow(t, id)
    ensures !HasFlow(Run(t, ops), id) && id < Run(t, ops).nextFlowId
    decreases |ops|
  {
    if ops != [] {
      StepKeeps(t, ops[0]);
      StepIds(t, ops[0]);
      DeadStaysDead(Apply(t, ops[0]), ops[1..], id);
    }
  }

  lemma DeadTokenRefused(t: Table, ops: seq<Op>, token: Token, source: SocketAddr, payload: Bytes, now: u64)
    requires Inv(t) && token.flow < t.nextFlowId && !HasFlow(t, token.flow) && now >= Run(t, ops).lastNow
    ensures Reply(Run(t, ops), token, source, payload, now).1 == Err(StaleToken)
  {
    DeadStaysDead(t, ops, token.flow);
    var u := Run(t, ops);
    assert forall k :: k in Expired(u, now).flows ==> k in u.flows;
    hide Run, Emitted;
    assert KeyOf(Expired(u, now), token.flow).None?;
  }

  /** While a flow lives, its id stays with its key. */
  lemma {:induction false} IdKeepsKey(t: Table, ops: seq<Op>, k: FlowKey, j: FlowKey)
    requires Inv(t) && k in t.flows && j in Run(t, ops).flows && Run(t, ops).flows[j].id == t.flows[k].id
    ensures j == k && Run(t, ops).shard == t.shard
    decreases |ops|
  {
    if ops != [] {
      StepKeeps(t, ops[0]);
      StepIds(t, ops[0]);
      var u := Apply(t, ops[0]);
      if !HasFlow(u, t.flows[k].id) {
        DeadStaysDead(u, ops[1..], t.flows[k].id);
      } else {
        var i :| i in u.flows && u.flows[i].id == t.flows[k].id;
        assert i == k;
        IdKeepsKey(u, ops[1..], k, j);
      }
    }
  }

  /** A flow opened gets the id its packet was built with. */
  lemma OriginatedId(t: Table, local: SocketAddr, remote: SocketAddr, payload: Bytes, now: u64, start: u64,
                     usable: u16 -> bool, grants: Grants)
    requires Inv(t) && Originate(t, local, remote, payload, now, start, usable, grants).1.Ok?
    ensures var (u, r) := Originate(t, local, remote, payload, now, start, usable, grants);
      var key := FlowKey(remote, r.value.local, t.generation);
      && CanCarry(r.value.local, remote) && (local.port != 0 ==> r.value.local == local)
      && key in u.flows && r.value.token == Token(u.flows[key].id, t.generation, t.shard)
      && Emitted(r.value.local, remote, payload, 64, Identification(r.value.token.flow)) == Ok(r.value.packet)
  {
    hide Emitted, Scan, ValidFlowSource, ValidFlowDestination;
  }

  /** Any good datagram from the remote end of a live flow to its local one, whoever
      wrote it, comes in under the flow's token, whether new flows are allowed or not. */
  lemma ReplyComesBack(t: Table, k: FlowKey, ops: seq<Op>, packet: Bytes, now: u64, allowNew: bool, grants: Grants)
    requires Inv(t) && k in t.flows && grants.payload
    requires var u := Run(t, ops); now >= u.lastNow && HasFlow(Expired(u, now), t.flows[k].id)
    requires Parsed(packet).Ok? && Parsed(packet).value.source == k.source &&
      Parsed(packet).value.destination == k.destination
    ensures Ingest(Run(t, ops), packet, now, allowNew, grants).1
      == Ok(Ingress(Token(t.flows[k].id, t.generation, t.shard), k.source, k.destination, Parsed(packet).value.payload))
  {
    hide Run, Parsed;
    var u := Run(t, ops);
    var e := Expired(u, now);
    var j :| j in e.flows && e.flows[j].id == t.flows[k].id;
    IdKeepsKey(t, ops, k, j);
    assert j.generation == u.generation;
  }

  /** A datagram names addresses without scope or flow information. */
  lemma ParsedBare(packet: Bytes)
    requires Parsed(packet).Ok?
    ensures Parsed(packet).value.source == Bare(Parsed(packet).value.source)
    ensures Parsed(packet).value.destination == Bare(Parsed(packet).value.destination)
  {
    hide ParseIp, TransportSum;
  }

  /** So does a packet that the codec's own emitter would write, between bare ends. */
  lemma EmittedComesBack(t: Table, k: FlowKey, ops: seq<Op>, payload: Bytes, hopLimit: byte, identification: u16,
                         now: u64, allowNew: bool, grants: Grants)
    requires Inv(t) && k in t.flows && CanCarry(k.destination, k.source) && grants.payload
    requires k.source == Bare(k.source) && k.destination == Bare(k.destination)
    requires var u := Run(t, ops); now >= u.lastNow && HasFlow(Expired(u, now), t.flows[k].id)
    requires Emitted(k.source, k.destination, payload, hopLimit, identification).Ok?
    ensures var packet := Emitted(k.source, k.destination, payload, hopLimit, identification).value;
      Ingest(Run(t, ops), packet, now, allowNew, grants).1
        == Ok(Ingress(Token(t.flows[k].id, t.generation, t.shard), k.source, k.destination, payload))
  {
    hide Run, Emitted, ParseIp, ParseUdp, ValidFlowSource, ValidFlowDestination, Ingest;
    RoundTrip(k.source, k.destination, payload, hopLimit, identification);
    ReplyComesBack(t, k, ops, Emitted(k.source, k.destination, payload, hopLimit, identification).value, now,
      allowNew, grants);
  }

  // ----- the ephemeral port scan -----

  /** The wrap of the 64-bit start leaves the scan's order intact. */
  lemma ScanPortOf(start: u64, offset: nat)
    ensures ScanPort(start, offset) == FIRST_PORT + (start + offset) % PORT_SPAN
  {
    var x := start + offset;
    DivRemainder(x, U64_LIMIT);
    ModShift(x % U64_LIMIT, x / U64_LIMIT * (U64_LIMIT / PORT_SPAN), PORT_SPAN);
    assert x / U64_LIMIT * (U64_LIMIT / PORT_SPAN) * PORT_SPAN == x / U64_LIMIT * U64_LIMIT;
  }

  /** Each port of the dynamic range is tried at exactly one offset. */
  lemma ScanHitsEach(start: u64, port: u16)
    requires FIRST_PORT <= port < FIRST_PORT + PORT_SPAN
    ensures exists offset: nat :: offset < PORT_SPAN && ScanPort(start, offset) == port
    ensures forall i: nat, j: nat ::
      i < PORT_SPAN && j < PORT_SPAN && ScanPort(start, i) == port && ScanPort(start, j) == port ==> i == j
  {
    var q, s, p := start / PORT_SPAN, start % PORT_SPAN, port - FIRST_PORT;
    var offset := if p >= s then p - s else p + PORT_SPAN - s;
    ModShift(p, if p >= s then q else q + 1, PORT_SPAN);
    assert (start + offset) % PORT_SPAN == p;
    ScanPortOf(start, offset);
    forall i: nat, j: nat | i < PORT_SPAN && j < PORT_SPAN && ScanPort(start, i) == port && ScanPort(start, j) == port
      ensures i == j
    {
      ScanPortOf(start, i);
      ScanPortOf(start, j);
      OneTurn(start, i, j);
    }
  }

  lemma OneTurn(start: nat, i: nat, j: nat)
    requires i < PORT_SPAN && j < PORT_SPAN && (start + i) % PORT_SPAN == (start + j) % PORT_SPAN
    ensures i == j
  {
    var a, b := (start + i) / PORT_SPAN, (start + j) / PORT_SPAN;
    assert j - i == PORT_SPAN * (b - a);
  }

  predicate Candidate(t: Table, ip: Ip, remote: SocketAddr, usable: u16 -> bool, port: u16) {
    PortFree(t.flows, t.generation, ip, remote, port) && usable(port)
  }

  lemma {:induction false} ScanFrom(t: Table, ip: Ip, remote: SocketAddr, start: u64, usable: u16 -> bool, offset: nat)
    ensures var r := Scan(t, ip, remote, start, usable, offset);
      && (r.Some? ==> FIRST_PORT <= r.value && Candidate(t, ip, remote, usable, r.value))
      && (r.None? ==> forall o: nat :: offset <= o < PORT_SPAN ==>
        !Candidate(t, ip, remote, usable, ScanPort(start, o)))
    decreases PORT_SPAN - offset
  {
    if offset < PORT_SPAN { ScanFrom(t, ip, remote, start, usable, offset + 1); }
  }

  /** The scan fails exactly when every port of the dynamic range is taken
      towards that remote or refused. */
  lemma ScanComplete(t: Table, ip: Ip, remote: SocketAddr, start: u64, usable: u16 -> bool)
    ensures Scan(t, ip, remote, start, usable, 0).None? <==>
      forall port: u16 :: FIRST_PORT <= port ==> !Candidate(t, ip, remote, usable, port)
  {
    ScanFrom(t, ip, remote, start, usable, 0);
    if Scan(t, ip, remote, start, usable, 0).None? {
      forall port: u16 | FIRST_PORT <= port ensures !Candidate(t, ip, remote, usable, port) {
        ScanHitsEach(start, port);
        var offset: nat :| offset < PORT_SPAN && ScanPort(start, offset) == port;
      }
    }
  }
}
