/** The UDP flow table as a value: what each operation makes of the table and
    answers, and what holds over every run of them. */
module UdpModel {
  import opened Machine
  import opened Checksum
  import opened Wire
  import opened WireCodec

  const MIN_TICK_MS: int := 10
  const SAFE_DELTA_TICKS: int := 0xffff_fffe

  datatype FlowKey = FlowKey(source: SocketAddr, destination: SocketAddr, generation: nat)

  /** A live flow: `due` is the tick its timer is set for. */
  datatype Flow = Flow(id: nat, lastSeen: u64, due: nat)

  datatype Token = Token(flow: nat, generation: nat, shard: nat)

  datatype UdpError =
    | BadWire(error: WireError)
    | Budget
    | StaleToken
    | ClockWentBackwards
    | TimerRange
    | NewFlowsDisabled
    | InvalidAddress
    | AddressInUse

  datatype Ingress = Ingress(token: Token, source: SocketAddr, destination: SocketAddr, payload: Bytes)

  /** What the shared ledger would grant a call that asks: room for the payload,
      a flow, and its metadata. */
  datatype Grants = Grants(payload: bool, flow: bool, metadata: bool)

  datatype Table = Table(
    generation: nat,
    shard: nat,
    idleMs: u64,
    tickMs: u64,
    lastNow: u64,
    divisor: u64,
    currentTick: nat,
    nextFlowId: nat,
    flows: map<FlowKey, Flow>)

  /** The tick that keeps every deadline within the wheel's horizon. */
  function ChosenTick(idleMs: u64): (tick: u64)
    requires idleMs > 0
    ensures tick >= MIN_TICK_MS
  {
    DivCeilBounds(idleMs, SAFE_DELTA_TICKS);
    Max(DivCeil(idleMs, SAFE_DELTA_TICKS), MIN_TICK_MS)
  }

  function ClockTick(now: u64, tickMs: u64): nat
    requires tickMs > 0
  {
    if now == U64_MAX then DivCeil(now, tickMs) else now / tickMs
  }

  function EffectiveTimeout(idleMs: u64, divisor: u64): (ms: u64)
    ensures ms >= 1
  {
    DivRemainder(idleMs, Max(divisor, 1));
    Max(idleMs / Max(divisor, 1), 1)
  }

  /** Idle for `x` milliseconds is idle for the timeout exactly when it is so for one at
      least, and `x + 1` of them, over the divisor, make more than the whole. */
  lemma TimeoutIs(idleMs: u64, divisor: u64, x: int)
    ensures x >= EffectiveTimeout(idleMs, divisor) <==> x >= 1 && (x + 1) * Max(divisor, 1) > idleMs
  {
    if x >= 0 { TickBounds(x + 1, idleMs, Max(divisor, 1)); }
  }

  function Deadline(t: Table, lastSeen: u64): u64 {
    SatAdd(lastSeen, EffectiveTimeout(t.idleMs, t.divisor))
  }

  function DueTick(tickMs: u64, currentTick: nat, deadline: u64): nat
    requires tickMs > 0
  {
    Max(DivCeil(deadline, tickMs), currentTick + 1)
  }

  // ----- the operations -----

  function NewTable(generation: nat, shard: nat, idleMs: u64): Table
    requires idleMs > 0
  {
    Table(generation, shard, idleMs, ChosenTick(idleMs), 0, 1, 0, 0, map[])
  }

  function DueFlows(flows: map<FlowKey, Flow>, tick: nat): set<FlowKey> {
    set k | k in flows && flows[k].due <= tick
  }

  /** The clock moved to `now`, and the flows due by then gone. */
  function Expired(t: Table, now: u64): Table
    requires t.tickMs > 0
  {
    var tick := Max(t.currentTick, ClockTick(now, t.tickMs));
    t.(lastNow := now, currentTick := tick, flows := t.flows - DueFlows(t.flows, tick))
  }

  /** The flow for `key` refreshed, or a new one admitted. */
  function Touch(t: Table, key: FlowKey, grants: Grants): (Table, Result<nat, UdpError>)
    requires t.tickMs > 0
  {
    var due := DueTick(t.tickMs, t.currentTick, Deadline(t, t.lastNow));
    if key in t.flows then
      (t.(flows := t.flows[key := Flow(t.flows[key].id, t.lastNow, due)]), Ok(t.flows[key].id))
    else if grants.flow && grants.metadata then
      (t.(flows := t.flows[key := Flow(t.nextFlowId, t.lastNow, due)], nextFlowId := t.nextFlowId + 1),
        Ok(t.nextFlowId))
    else (t, Err(Budget))
  }

  function Parsed(packet: Bytes): Result<UdpDatagram, UdpError> {
    var ip := ParseIp(packet, true, true);
    if ip.Err? then Err(BadWire(ip.error)) else
    var udp := ParseUdp(ip.value, true);
    if udp.Err? then Err(BadWire(udp.error)) else
    if ValidFlowSource(udp.value.source.ip) && ValidFlowDestination(udp.value.destination.ip) then Ok(udp.value)
    else Err(InvalidAddress)
  }

  function Ingest(t: Table, packet: Bytes, now: u64, allowNew: bool, grants: Grants): (Table, Result<Ingress, UdpError>)
    requires t.tickMs > 0
  {
    if now < t.lastNow then (t, Err(ClockWentBackwards)) else
    var e := Expired(t, now);
    var datagram := Parsed(packet);
    if datagram.Err? then (e, Err(datagram.error)) else
    var d := datagram.value;
    var key := FlowKey(d.source, d.destination, e.generation);
    if !allowNew && key !in e.flows then (e, Err(NewFlowsDisabled)) else
    if !grants.payload then (e, Err(Budget)) else
    var (r, id) := Touch(e, key, grants);
    (r, if id.Err? then Err(id.error)
      else Ok(Ingress(Token(id.value, t.generation, t.shard), d.source, d.destination, d.payload)))
  }

  const FIRST_PORT: int := 49_152
  const PORT_SPAN: int := 16_384

  /** The port at `offset` of the scan from `start`, which wraps at 2^64. */
  function ScanPort(start: u64, offset: nat): u16 {
    FIRST_PORT + (start + offset) % U64_LIMIT % PORT_SPAN
  }

  predicate PortFree(flows: map<FlowKey, Flow>, generation: nat, ip: Ip, remote: SocketAddr, port: u16) {
    FlowKey(remote, SocketAddr(ip, port), generation) !in flows
  }

  /** The first port from `offset` of the scan on that is free and usable. */
  function Scan(t: Table, ip: Ip, remote: SocketAddr, start: u64, usable: u16 -> bool, offset: nat): Option<u16>
    decreases PORT_SPAN - offset
  {
    if offset >= PORT_SPAN then None
    else
      var port := ScanPort(start, offset);
      if PortFree(t.flows, t.generation, ip, remote, port) && usable(port) then Some(port)
      else Scan(t, ip, remote, start, usable, offset + 1)
  }

  function LocalFor(t: Table, local: SocketAddr, remote: SocketAddr, start: u64, usable: u16 -> bool)
    : Option<SocketAddr>
  {
    if local.port != 0 then Some(local) else
    var port := Scan(t, local.ip, remote, start, usable, 0);
    if port.None? then None else Some(SocketAddr(local.ip, port.value))
  }

  function Identification(id: nat): u16 {
    id % 0x1_0000
  }

  datatype Originated = Originated(token: Token, local: SocketAddr, packet: Bytes)

  predicate CanCarry(local: SocketAddr, remote: SocketAddr) {
    && local.ip.V4? == remote.ip.V4? && remote.port != 0
    && ValidFlowSource(remote.ip) && ValidFlowDestination(local.ip)
  }

  function Originate(t: Table, local: SocketAddr, remote: SocketAddr, payload: Bytes, now: u64,
                     start: u64, usable: u16 -> bool, grants: Grants): (Table, Result<Originated, UdpError>)
    requires t.tickMs > 0
  {
    if now < t.lastNow then (t, Err(ClockWentBackwards)) else
    var e := Expired(t, now);
    if !CanCarry(local, remote) then (e, Err(InvalidAddress)) else
    var from := LocalFor(e, local, remote, start, usable);
    if from.None? then (e, Err(AddressInUse)) else
    var key := FlowKey(remote, from.value, e.generation);
    var expected := if key in e.flows then e.flows[key].id else e.nextFlowId;
    var packet := Emitted(from.value, remote, payload, 64, Identification(expected));
    if packet.Err? then (e, Err(BadWire(packet.error))) else
    var (r, id) := Touch(e, key, grants);
    (r, if id.Err? then Err(id.error)
      else Ok(Originated(Token(id.value, t.generation, t.shard), from.value, packet.value)))
  }

  ghost function KeyOf(t: Table, id: nat): Option<FlowKey> {
    if key :| key in t.flows && t.flows[key].id == id then Some(key) else None
  }

  ghost function Reply(t: Table, token: Token, source: SocketAddr, payload: Bytes, now: u64)
    : (Table, Result<Bytes, UdpError>)
    requires t.tickMs > 0
  {
    if now < t.lastNow then (t, Err(ClockWentBackwards)) else
    var e := Expired(t, now);
    if token.generation != e.generation || token.shard != e.shard then (e, Err(StaleToken)) else
    var key := KeyOf(e, token.flow);
    if key.None? then (e, Err(StaleToken)) else
    var packet := Emitted(source, key.value.source, payload, 64, Identification(token.flow));
    if packet.Err? then (e, Err(BadWire(packet.error))) else
    (Touch(e, key.value, Grants(true, true, true)).0, Ok(packet.value))
  }

  function StaleFlows(flows: map<FlowKey, Flow>, now: u64, timeout: u64): set<FlowKey> {
    set k | k in flows && SatSub(now, flows[k].lastSeen) >= timeout
  }

  /** Each flow due a timeout after it was last seen. */
  ghost function Retimed(flows: map<FlowKey, Flow>, tickMs: u64, tick: nat, timeout: u64): (r: map<FlowKey, Flow>)
    requires tickMs > 0
    ensures r.Keys == flows.Keys
    ensures forall k :: k in flows ==>
      r[k] == flows[k].(due := DueTick(tickMs, tick, SatAdd(flows[k].lastSeen, timeout)))
    decreases flows.Keys
  {
    if flows == map[] then map[] else
    var k :| k in flows;
    Retimed(flows - {k}, tickMs, tick,
      timeout)[k := flows[k].(due := DueTick(tickMs, tick, SatAdd(flows[k].lastSeen, timeout)))]
  }

  /** Every flow judged and timed anew by another timeout. */
  ghost function Rebuilt(t: Table, now: u64, divisor: u64): Table
    requires t.tickMs > 0
  {
    var timeout := EffectiveTimeout(t.idleMs, divisor);
    var r := t.(lastNow := now, divisor := divisor, currentTick := now / t.tickMs);
    r.(flows := Retimed(t.flows - StaleFlows(t.flows, now, timeout), r.tickMs, r.currentTick, timeout))
  }

  ghost function ExpireUnderPressure(t: Table, now: u64, divisor: u64): (Table, Result<int, UdpError>)
    requires t.tickMs > 0
  {
    if now < t.lastNow then (t, Err(ClockWentBackwards)) else
    var r := if Max(divisor, 1) == t.divisor then Expired(t, now) else Rebuilt(t, now, Max(divisor, 1));
    (r, Ok(|t.flows.Keys| - |r.flows.Keys|))
  }

  function ResetNetwork(t: Table, generation: nat): Table
    requires t.tickMs > 0
  {
    t.(generation := generation, flows := map[], currentTick := t.lastNow / t.tickMs)
  }

  // ----- what every operation keeps -----

  /** The wheel's clock is the table's. */
  predicate Clocked(t: Table)
    requires t.tickMs > 0
  {
    || t.currentTick == t.lastNow / t.tickMs
    || (t.lastNow == U64_MAX && t.currentTick == DivCeil(U64_MAX, t.tickMs))
  }

  /** A live flow's timer is set for its idle deadline rounded up to a tick, and
      has not come up; the flow has been idle for less than its timeout and a tick. */
  predicate Timely(t: Table, f: Flow)
    requires t.tickMs > 0
  {
    && f.lastSeen <= t.lastNow
    && t.currentTick < f.due
    && Deadline(t, f.lastSeen) <= f.due * t.tickMs
    && ((f.due - 1) * t.tickMs < Deadline(t, f.lastSeen) || t.lastNow == U64_MAX)
    && t.lastNow - f.lastSeen < EffectiveTimeout(t.idleMs, t.divisor) + t.tickMs
  }

  ghost predicate Inv(t: Table) {
    && t.idleMs > 0 && t.tickMs == ChosenTick(t.idleMs) && t.divisor >= 1
    && Clocked(t)
    && (forall k :: k in t.flows ==>
          k.generation == t.generation && t.flows[k].id < t.nextFlowId && Timely(t, t.flows[k]))
    && (forall j, k :: j in t.flows && k in t.flows && t.flows[j].id == t.flows[k].id ==> j == k)
  }

  lemma ClockForward(t: Table, now: u64)
    requires t.tickMs > 0 && Clocked(t) && t.lastNow <= now
    ensures t.currentTick <= ClockTick(now, t.tickMs)
    ensures now < U64_MAX ==> ClockTick(now, t.tickMs) == now / t.tickMs && t.currentTick <= now / t.tickMs
  {
    DivRemainder(t.lastNow, t.tickMs);
    TickBounds(t.lastNow / t.tickMs, now, t.tickMs);
    DivCeilBounds(now, t.tickMs);
    TickBounds(now / t.tickMs, now, t.tickMs);
  }

  /** A flow whose timer has not come up by `now` has not been idle for the
      timeout and a tick. */
  lemma StillFresh(due: nat, deadline: nat, now: nat, tick: nat)
    requires tick > 0 && now / tick < due && (due - 1) * tick < deadline
    ensures now < deadline + tick
  {
    DivRemainder(now, tick);
    MulMonotone(now / tick, due - 1, tick);
  }

  lemma SurvivorTimely(t: Table, now: u64, f: Flow)
    requires t.tickMs > 0 && Clocked(t) && t.lastNow <= now && Timely(t, f)
    requires f.due > Expired(t, now).currentTick
    ensures Timely(Expired(t, now), f)
  {
    ClockForward(t, now);
    if now < U64_MAX {
      StillFresh(f.due, Deadline(t, f.lastSeen), now, t.tickMs);
    } else if t.lastNow < U64_MAX {
      TickBounds(f.due - 1, now, t.tickMs);
    }
  }

  lemma ExpiredKeeps(t: Table, now: u64)
    requires Inv(t) && t.lastNow <= now
    ensures Inv(Expired(t, now))
  {
    ClockForward(t, now);
    var e := Expired(t, now);
    forall k | k in e.flows ensures Timely(e, e.flows[k]) {
      SurvivorTimely(t, now, t.flows[k]);
    }
  }

  /** `tick` is still to come, and no flow's timer comes up before it. */
  ghost predicate NoneBefore(t: Table, tick: nat) {
    t.currentTick < tick && forall k :: k in t.flows ==> tick <= t.flows[k].due
  }

  /** Until such a tick begins, the clock may move on and no flow goes. */
  lemma QuietBefore(t: Table, tick: u64, now: u64)
    requires t.tickMs > 0 && Clocked(t) && NoneBefore(t, tick)
    requires t.lastNow <= now < SatMul(tick, t.tickMs)
    ensures Expired(t, now).flows == t.flows
  {
    ClockForward(t, now);
    TickBounds(tick, now, t.tickMs);
    assert DueFlows(t.flows, now / t.tickMs) == {};
  }

  /** Such a tick begins after the last time told, but at the end of the clock. */
  lemma WakesLater(t: Table, tick: u64)
    requires t.tickMs > 0 && Clocked(t) && NoneBefore(t, tick)
    ensures t.lastNow < SatMul(tick, t.tickMs) || t.lastNow == U64_MAX
  {
    TickBounds(tick, t.lastNow, t.tickMs);
  }

  /** The deadline of a flow seen by now, in ticks: covered, rounded up, and
      within the wheel's horizon. */
  lemma DueBounds(t: Table, lastSeen: u64)
    requires t.idleMs > 0 && t.tickMs == ChosenTick(t.idleMs) && Clocked(t)
    requires lastSeen <= t.lastNow
    ensures var d := Deadline(t, lastSeen); var due := DueTick(t.tickMs, t.currentTick, d);
      && d <= due * t.tickMs
      && (due == t.currentTick + 1 || (due - 1) * t.tickMs < d)
      && t.currentTick < due < t.currentTick + 0x1_0000_0000
  {
    var d := Deadline(t, lastSeen);
    DivCeilBounds(d, t.tickMs);
    TimeoutBound(t.idleMs, t.divisor);
    TickCovers(t.idleMs);
    CeilWithin(d, t.lastNow, t.idleMs, t.tickMs);
    MulMonotone(DivCeil(d, t.tickMs), DueTick(t.tickMs, t.currentTick, d), t.tickMs);
    hide Deadline, ChosenTick;
  }

  /** The tick is the least, of ten milliseconds or more, of which so many make up the
      timeout. */
  lemma TickCovers(idleMs: u64)
    requires idleMs > 0
    ensures idleMs <= 0xffff_fffe * ChosenTick(idleMs)
    ensures ChosenTick(idleMs) == 10 || (ChosenTick(idleMs) > 10 && 0xffff_fffe * (ChosenTick(idleMs) - 1) < idleMs)
  {
    DivCeilBounds(idleMs, SAFE_DELTA_TICKS);
    MulMonotone(DivCeil(idleMs, SAFE_DELTA_TICKS), ChosenTick(idleMs), SAFE_DELTA_TICKS);
  }

  lemma CeilWithin(d: nat, now: nat, idle: nat, tick: nat)
    requires tick > 0 && d <= now + idle && idle <= SAFE_DELTA_TICKS * tick
    ensures DivCeil(d, tick) <= now / tick + 1 + SAFE_DELTA_TICKS
  {
    var floor := now / tick;
    DivRemainder(now, tick);
    assert floor * tick + tick + SAFE_DELTA_TICKS * tick == (floor + 1 + SAFE_DELTA_TICKS) * tick;
    TickBounds(floor + 1 + SAFE_DELTA_TICKS, d, tick);
  }

  lemma TimeoutBound(idleMs: u64, divisor: u64)
    requires idleMs > 0
    ensures EffectiveTimeout(idleMs, divisor) <= idleMs
  {
    DivRemainder(idleMs, Max(divisor, 1));
  }
}
