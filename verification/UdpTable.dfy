/** The shard's UDP flow table: two maps, a timer to a flow, and the leases the
    ledger charged it. */
module UdpTable {
  import opened Machine
  import opened Checksum
  import opened Wire
  import opened WireCodec
  import opened WheelLayout
  import opened Firing
  import opened WheelSteps
  import opened WheelWake
  import opened TimerWheel
  import opened UdpModel

  const METADATA_CHARGE: nat := 256

  datatype UdpFlow = UdpFlow(id: nat, lastSeenMs: u64, expiryTimer: nat)

  type Flows = map<FlowKey, UdpFlow>

  /** The two maps are inverse to each other. */
  ghost predicate Inverse(byKey: Flows, byId: map<nat, FlowKey>) {
    && (forall k :: k in byKey ==> byKey[k].id in byId && byId[byKey[k].id] == k)
    && (forall id :: id in byId ==> byId[id] in byKey && byKey[byId[id]].id == id)
  }

  /** Live timers and live flows match one to one. */
  ghost predicate Matched(byKey: Flows, timers: Timers<FlowKey>) {
    && (forall k :: k in byKey ==> byKey[k].expiryTimer in timers && timers[byKey[k].expiryTimer].value == k)
    && (forall id :: id in timers ==> timers[id].value in byKey && byKey[timers[id].value].expiryTimer == id)
  }

  ghost predicate Seen(byKey: Flows, now: u64) {
    forall k :: k in byKey ==> byKey[k].lastSeenMs <= now
  }

  ghost function FlowOf(f: UdpFlow, timers: Timers<FlowKey>): Flow {
    Flow(f.id, f.lastSeenMs, if f.expiryTimer in timers then timers[f.expiryTimer].deadline else 0)
  }

  /** The flows as the model has them, each due when its timer is. */
  ghost function FlowsOf(byKey: Flows, timers: Timers<FlowKey>): map<FlowKey, Flow>
    decreases byKey.Keys
  {
    if byKey == map[] then map[] else
    var k :| k in byKey;
    FlowsOf(byKey - {k}, timers)[k := FlowOf(byKey[k], timers)]
  }

  lemma {:induction false} FlowsEach(byKey: Flows, timers: Timers<FlowKey>)
    ensures FlowsOf(byKey, timers).Keys == byKey.Keys
    ensures forall k :: k in byKey ==> FlowsOf(byKey, timers)[k] == FlowOf(byKey[k], timers)
    decreases byKey.Keys
  {
    if byKey != map[] {
      var k :| k in byKey && FlowsOf(byKey, timers) == FlowsOf(byKey - {k}, timers)[k := FlowOf(byKey[k], timers)];
      FlowsEach(byKey - {k}, timers);
    }
  }

  ghost predicate Subflows(some: Flows, all: Flows) {
    forall k :: k in some ==> k in all && some[k] == all[k]
  }

  lemma SubflowsSelf(m: Flows)
    ensures Subflows(m, m)
  {}

  lemma SubflowsTrans(a: Flows, b: Flows, c: Flows)
    requires Subflows(a, b) && Subflows(b, c)
    ensures Subflows(a, c)
  {}

  lemma SubflowsSeen(left: Flows, flows: Flows, now: u64)
    requires Subflows(left, flows) && Seen(flows, now)
    ensures Seen(left, now)
  {}

  lemma ExpiredClocked(past: Table, now: u64)
    requires past.tickMs > 0 && Clocked(past) && past.lastNow <= now
    ensures Clocked(Expired(past, now))
  {
    hide DueFlows;
    ClockForward(past, now);
  }

  lemma WheelForward(past: Table, now: u64)
    requires past.tickMs >= MIN_TICK_MS && Clocked(past) && past.lastNow <= now && past.currentTick <= U64_MAX
    ensures SatMul(past.currentTick, past.tickMs) <= now
    ensures ClockTick(now, past.tickMs) < U64_MAX
  {
    DivRemainder(past.lastNow, past.tickMs);
    TickFits(now, past.tickMs);
  }

  lemma TickFits(now: u64, tick: u64)
    requires tick >= MIN_TICK_MS
    ensures now / tick < U64_MAX && ClockTick(now, tick) < U64_MAX
  {
    DivCeilBounds(now, tick);
    DivRemainder(now, tick);
    FewTicks(now / tick, tick, now);
    if DivCeil(now, tick) > 0 { FewTicks(DivCeil(now, tick) - 1, tick, now); }
  }

  /** The table's ticks are long enough that its wheel never comes to the clock's end. */
  lemma NeverLast(t: Table)
    requires t.idleMs > 0 && t.tickMs == ChosenTick(t.idleMs) && Clocked(t)
    ensures t.currentTick < U64_MAX
  {
    TickFits(t.lastNow, t.tickMs);
  }

  lemma FewTicks(q: nat, tick: nat, now: nat)
    requires tick >= MIN_TICK_MS && q * tick <= now
    ensures MIN_TICK_MS * q <= now
  {
    MulMonotone(MIN_TICK_MS, tick, q);
  }

  /** The values fired are those of the timers due. */
  lemma FiredMembers(timers: Timers<FlowKey>, tick: nat, key: FlowKey)
    ensures key in Fired(timers, tick) <==>
      exists id :: id in timers && timers[id].deadline <= tick && timers[id].value == key
  {
    var order := DueInOrder(timers, tick);
    var fired := Fired(timers, tick);
    assert |fired| == |order|;
    if key in fired {
      var i :| 0 <= i < |fired| && fired[i] == key;
      assert order[i] in order;
      assert order[i] in timers && timers[order[i]].deadline <= tick && timers[order[i]].value == key;
    }
    if id :| id in timers && timers[id].deadline <= tick && timers[id].value == key {
      assert id in order;
      var i :| 0 <= i < |order| && order[i] == id;
      assert fired[i] == key;
    }
  }

  /** Removing the flows whose timers fired leaves flows and timers matched. */
  lemma ExpiredMatched(flows: Flows, timers: Timers<FlowKey>, left: Flows, tick: nat)
    requires Matched(flows, timers) && Subflows(left, flows)
    requires forall k :: k in flows ==> (k in left <==> k !in Fired(timers, tick))
    ensures Matched(left, Left(timers, tick))
    ensures var live := FlowsOf(flows, timers);
      FlowsOf(left, Left(timers, tick)) == live - DueFlows(live, tick)
  {
    hide FlowsOf, Fired;
    forall k | k in flows ensures k in left <==> timers[flows[k].expiryTimer].deadline > tick {
      FiredMembers(timers, tick, k);
    }
    ExpiredFlows(flows, timers, left, tick);
  }

  lemma ExpiredFlows(flows: Flows, timers: Timers<FlowKey>, left: Flows, tick: nat)
    requires Matched(flows, timers) && Subflows(left, flows)
    requires forall k :: k in flows ==> (k in left <==> timers[flows[k].expiryTimer].deadline > tick)
    ensures var live := FlowsOf(flows, timers);
      FlowsOf(left, Left(timers, tick)) == live - DueFlows(live, tick)
  {
    hide FlowsOf;
    FlowsEach(flows, timers);
    FlowsEach(left, Left(timers, tick));
  }

  lemma DeadlineIs(t: Table, lastSeen: u64)
    ensures Deadline(t, lastSeen) == SatAdd(lastSeen, EffectiveTimeout(t.idleMs, t.divisor))
  {}

  lemma FlowAt(flows: Flows, timers: Timers<FlowKey>, key: FlowKey)
    requires Matched(flows, timers)
    ensures FlowsOf(flows, timers).Keys == flows.Keys
    ensures key in flows ==> FlowsOf(flows, timers)[key].id == flows[key].id && flows[key].expiryTimer in timers
  {
    hide FlowsOf;
    FlowsEach(flows, timers);
  }

  /** A flow whose timer is replaced by a later one. */
  lemma Refreshed(flows: Flows, byId: map<nat, FlowKey>, timers: Timers<FlowKey>, key: FlowKey, timer: nat, due: nat,
                  now: u64)
    requires Matched(flows, timers) && Inverse(flows, byId) && key in flows && timer !in timers
    ensures var f := flows[key := flows[key].(expiryTimer := timer, lastSeenMs := now)];
      var t := timers[timer := Timer(due, key)] - {flows[key].expiryTimer};
      && Inverse(f, byId) && Matched(f, t)
      && FlowsOf(f, t) == FlowsOf(flows, timers)[key := Flow(flows[key].id, now, due)]
  {
    hide FlowsOf;
    RefreshedFlows(flows, timers, key, timer, due, now);
  }

  lemma RefreshedFlows(flows: Flows, timers: Timers<FlowKey>, key: FlowKey, timer: nat, due: nat, now: u64)
    requires Matched(flows, timers) && key in flows && timer !in timers
    ensures var f := flows[key := flows[key].(expiryTimer := timer, lastSeenMs := now)];
      var t := timers[timer := Timer(due, key)] - {flows[key].expiryTimer};
      FlowsOf(f, t) == FlowsOf(flows, timers)[key := Flow(flows[key].id, now, due)]
  {
    hide FlowsOf;
    FlowsEach(flows, timers);
    FlowsEach(flows[key := flows[key].(expiryTimer := timer, lastSeenMs := now)],
              timers[timer := Timer(due, key)] - {flows[key].expiryTimer});
  }

  lemma Admitted(flows: Flows, byId: map<nat, FlowKey>, timers: Timers<FlowKey>, key: FlowKey, id: nat, timer: nat,
                 due: nat, now: u64)
    requires Matched(flows, timers) && Inverse(flows, byId) && key !in flows && id !in byId && timer !in timers
    ensures var f := flows[key := UdpFlow(id, now, timer)]; var t := timers[timer := Timer(due, key)];
      && Inverse(f, byId[id := key]) && Matched(f, t)
      && FlowsOf(f, t) == FlowsOf(flows, timers)[key := Flow(id, now, due)]
  {
    hide FlowsOf;
    FlowsEach(flows, timers);
    FlowsEach(flows[key := UdpFlow(id, now, timer)], timers[timer := Timer(due, key)]);
  }

  /** The id map finds a flow exactly when there is one of that id. */
  lemma KeyOfId(t: Table, byKey: Flows, byId: map<nat, FlowKey>, timers: Timers<FlowKey>, id: nat)
    requires Inverse(byKey, byId) && t.flows == FlowsOf(byKey, timers)
    ensures KeyOf(t, id) == if id in byId then Some(byId[id]) else None
  {
    hide FlowsOf;
    FlowsEach(byKey, timers);
    if id in byId { assert byId[id] in t.flows && t.flows[byId[id]].id == id; }
  }

  /** The flows of `done` judged by the table `r` has to become: idle ones told, the
      others timed, and no timer else. */
  ghost predicate Judged(before: Flows, byKey: Flows, timers: Timers<FlowKey>, done: set<FlowKey>,
                         expired: seq<FlowKey>, r: Table) {
    && r.tickMs > 0 && byKey.Keys == before.Keys && done <= byKey.Keys
    && (forall k :: k in byKey ==> byKey[k].id == before[k].id && byKey[k].lastSeenMs == before[k].lastSeenMs)
    && (forall k :: k in expired ==> k in done)
    && (forall k :: k in done ==> (k in expired <==> IsIdle(r, byKey[k])))
    && (forall k :: k in done && !IsIdle(r, byKey[k]) ==>
          byKey[k].expiryTimer in timers &&
            timers[byKey[k].expiryTimer] ==
            Timer(DueTick(r.tickMs, r.currentTick, Deadline(r, byKey[k].lastSeenMs)), k))
    && (forall id :: id in timers ==>
      timers[id].value in done && !IsIdle(r, byKey[timers[id].value]) && byKey[timers[id].value].expiryTimer == id)
  }

  predicate IsIdle(r: Table, flow: UdpFlow) {
    SatSub(r.lastNow, flow.lastSeenMs) >= EffectiveTimeout(r.idleMs, r.divisor)
  }

  lemma JudgedIdle(before: Flows, byKey: Flows, timers: Timers<FlowKey>, done: set<FlowKey>, expired: seq<FlowKey>,
                   r: Table, key: FlowKey)
    requires Judged(before, byKey, timers, done, expired, r) && key in byKey && key !in done && IsIdle(r, byKey[key])
    ensures Judged(before, byKey, timers, done + {key}, expired + [key], r)
  {
    hide IsIdle, DueTick, Deadline;
  }

  lemma JudgedLive(before: Flows, byKey: Flows, timers: Timers<FlowKey>, done: set<FlowKey>, expired: seq<FlowKey>,
                   r: Table, key: FlowKey, timer: nat)
    requires Judged(before, byKey, timers, done, expired, r) && key in byKey && key !in done &&
      !IsIdle(r, byKey[key]) && timer !in timers
    ensures Judged(before, byKey[key := byKey[key].(expiryTimer := timer)],
      timers[timer := Timer(DueTick(r.tickMs, r.currentTick, Deadline(r, byKey[key].lastSeenMs)), key)], done + {key},
        expired, r)
  {
    hide DueTick, Deadline, EffectiveTimeout;
  }

  lemma JudgedInverse(before: Flows, byKey: Flows, byId: map<nat, FlowKey>, timers: Timers<FlowKey>,
                      expired: seq<FlowKey>, r: Table)
    requires Judged(before, byKey, timers, byKey.Keys, expired, r) && Inverse(before, byId)
    ensures Inverse(byKey, byId) && byKey.Keys == before.Keys
    ensures forall left, now :: Subflows(left, byKey) && Seen(before, now) ==> Seen(left, now)
  {
    hide IsIdle, DueTick, Deadline;
  }

  /** All flows judged and the idle ones removed: the table is the rebuilt one. */
  lemma JudgedDone(before: Flows, old': Timers<FlowKey>, judged: Flows, left: Flows, timers: Timers<FlowKey>,
                   expired: seq<FlowKey>, past: Table, now: u64, divisor: u64)
    requires past.tickMs > 0 && past.flows == FlowsOf(before, old')
    requires Judged(before, judged, timers, judged.Keys, expired, Rebuilt(past, now, divisor))
    requires Subflows(left, judged) && forall k :: k in judged ==> (k in left <==> k !in expired)
    ensures Matched(left, timers)
    ensures FlowsOf(left, timers) == Rebuilt(past, now, divisor).flows
  {
    var r := Rebuilt(past, now, divisor);
    JudgedMatched(before, judged, left, timers, expired, r);
    hide DueTick, EffectiveTimeout, Matched, Rebuilt, Judged, FlowsOf;
    var live := FlowsOf(left, timers);
    forall k ensures k in live <==> k in r.flows {
      JudgedOne(before, old', judged, left, timers, expired, past, now, divisor, k);
    }
    forall k | k in live ensures live[k] == r.flows[k] {
      JudgedOne(before, old', judged, left, timers, expired, past, now, divisor, k);
    }
  }

  lemma JudgedMatched(before: Flows, judged: Flows, left: Flows, timers: Timers<FlowKey>, expired: seq<FlowKey>,
                      r: Table)
    requires Judged(before, judged, timers, judged.Keys, expired, r)
    requires Subflows(left, judged) && forall k :: k in judged ==> (k in left <==> k !in expired)
    ensures Matched(left, timers)
  {
    hide DueTick, Deadline, IsIdle;
  }

  lemma JudgedOne(before: Flows, old': Timers<FlowKey>, judged: Flows, left: Flows, timers: Timers<FlowKey>,
                  expired: seq<FlowKey>, past: Table, now: u64, divisor: u64, k: FlowKey)
    requires past.tickMs > 0 && past.flows == FlowsOf(before, old')
    requires Judged(before, judged, timers, judged.Keys, expired, Rebuilt(past, now, divisor))
    requires Subflows(left, judged) && forall k :: k in judged ==> (k in left <==> k !in expired)
    ensures var live, r := FlowsOf(left, timers), Rebuilt(past, now, divisor);
      (k in live <==> k in r.flows) && (k in live ==> live[k] == r.flows[k])
  {
    hide DueTick, EffectiveTimeout, FlowsOf, Retimed;
    FlowsEach(before, old');
    FlowsEach(left, timers);
  }

  lemma ScanTurn(t: Table, ip: Ip, remote: SocketAddr, start: u64, usable: u16 -> bool, offset: nat)
    ensures Scan(t, ip, remote, start, usable, offset) ==
      if offset >= PORT_SPAN then None else
      var port := ScanPort(start, offset);
      if FlowKey(remote, SocketAddr(ip, port), t.generation) !in t.flows && usable(port) then Some(port)
      else Scan(t, ip, remote, start, usable, offset + 1)
  {}

  lemma FlowCount(byKey: Flows, timers: Timers<FlowKey>)
    ensures FlowsOf(byKey, timers).Keys == byKey.Keys && |FlowsOf(byKey, timers).Keys| == |byKey.Keys|
  {
    FlowsEach(byKey, timers);
  }

  /** Flows live exactly when timers do. */
  lemma FlowsTimed(byKey: Flows, es: Entries<FlowKey>)
    requires Matched(byKey, View(es))
    ensures FlowsOf(byKey, View(es)) == map[] <==> es == map[]
  {
    hide FlowsOf, View;
    FlowsEach(byKey, View(es));
    if es != map[] {
      var id :| id in es;
      assert View(es)[id].value in byKey;
    }
    if byKey != map[] {
      var k :| k in byKey;
      assert byKey[k].expiryTimer in es;
    }
  }

  /** The wheel's next event comes no later than any flow is due. */
  lemma SoonestFlow(byKey: Flows, es: Entries<FlowKey>, now: nat, tick: nat, t: Table)
    requires Matched(byKey, View(es)) && NextWake(es, now, tick)
    requires t.flows == FlowsOf(byKey, View(es)) && t.currentTick == now
    ensures NoneBefore(t, tick)
  {
    hide FlowsOf, View, Blind, NextEvent;
    FlowsEach(byKey, View(es));
    forall k | k in byKey ensures tick <= FlowOf(byKey[k], View(es)).due {
      assert byKey[k].expiryTimer in es;
    }
  }

  lemma NoFlows()
    ensures Inverse(map[], map[]) && Matched(map[], map[]) && FlowsOf(map[], map[]) == map[]
  {}

  class UdpTable {
    var generation: nat
    const shard: nat
    const idleTimeoutMs: u64
    const expiryTickMs: u64
    var lastNowMs: u64
    var timeoutDivisor: u64
    var expiry: TimerWheel<FlowKey>
    var nextFlowId: nat
    var byKey: Flows
    var byId: map<nat, FlowKey>
    /** What the ledger has charged this table: flows, and bytes of metadata. */
    var flowsCharged: nat
    var metadataCharged: nat

    /** All but that the wheel's clock is the table's. */
    ghost predicate Structured()
      reads this, expiry
    {
      && idleTimeoutMs > 0 && expiryTickMs == ChosenTick(idleTimeoutMs) && timeoutDivisor >= 1
      && expiry.Valid() && expiry.tickMs == expiryTickMs
      && Inverse(byKey, byId)
      && (forall id :: id in byId ==> id < nextFlowId)
      && Matched(byKey, expiry.Timers())
      && Seen(byKey, lastNowMs)
      && Charged()
    }

    ghost predicate Valid()
      reads this, expiry
    {
      Structured() && Clocked(Model())
    }

    /** The table as a value. */
    ghost function Model(): Table
      reads this, expiry
    {
      Table(generation, shard, idleTimeoutMs, expiryTickMs, lastNowMs, timeoutDivisor, expiry.currentTick, nextFlowId,
            FlowsOf(byKey, expiry.Timers()))
    }

    constructor (generation: nat, shard: nat, idleTimeoutMs: u64)
      requires idleTimeoutMs > 0
      ensures Valid() && fresh(expiry)
      ensures Model() == NewTable(generation, shard, idleTimeoutMs)
    {
      this.generation, this.shard, this.idleTimeoutMs := generation, shard, idleTimeoutMs;
      var tick := ChosenTick(idleTimeoutMs);
      expiryTickMs := tick;
      lastNowMs, timeoutDivisor := 0, 1;
      expiry := new TimerWheel(tick, 0);
      nextFlowId, byKey, byId := 0, map[], map[];
      flowsCharged, metadataCharged := 0, 0;
    }

    /** One flow goes from both maps, and its leases with it. */
    method DropFlow(key: FlowKey)
      requires key in byKey && Inverse(byKey, byId) && Charged()
      modifies this`byKey, this`byId, this`flowsCharged, this`metadataCharged
      ensures Inverse(byKey, byId) && Charged()
      ensures Subflows(byKey, old(byKey)) && byKey.Keys == old(byKey).Keys - {key} && byId.Keys <= old(byId).Keys
    {
      var flow := byKey[key];
      assert (byKey - {key}).Keys == byKey.Keys - {key};
      byKey := byKey - {key};
      byId := byId - {flow.id};
      flowsCharged := flowsCharged - 1;
      metadataCharged := metadataCharged - METADATA_CHARGE;
    }

    ghost predicate Charged()
      reads this`byKey, this`flowsCharged, this`metadataCharged
    {
      flowsCharged == |byKey.Keys| && metadataCharged == 256 * |byKey.Keys|
    }

    lemma ChargedFor(keys: set<FlowKey>)
      requires byKey.Keys == keys
      ensures Charged() <==> flowsCharged == |keys| && metadataCharged == 256 * |keys|
    {}

    /** The flows whose timers fired go, with their leases. */
    method RemoveExpired(expired: seq<FlowKey>) returns (removed: int)
      requires Inverse(byKey, byId) && Charged()
      modifies this`byKey, this`byId, this`flowsCharged, this`metadataCharged
      ensures Inverse(byKey, byId) && Charged()
      ensures Subflows(byKey, old(byKey)) && forall k :: k in old(byKey) ==> (k in byKey <==> k !in expired)
      ensures byId.Keys <= old(byId).Keys
      ensures removed == |old(byKey).Keys| - |byKey.Keys|
    {
      hide *;
      removed := 0;
      SubflowsSelf(byKey);
      for i := 0 to |expired|
        invariant Inverse(byKey, byId) && Charged() && byId.Keys <= old(byId).Keys
        invariant Subflows(byKey, old(byKey)) && removed == |old(byKey).Keys| - |byKey.Keys|
        invariant forall j :: 0 <= j < i ==> expired[j] !in byKey
        invariant forall k :: k in old(byKey) && k !in byKey ==> k in expired
      {
        if expired[i] in byKey {
          ghost var before := byKey;
          DropFlow(expired[i]);
          SubflowsTrans(byKey, before, old(byKey));
          removed := removed + 1;
        }
      }
    }

    method UpdateTime(nowMs: u64) returns (ok: bool)
      modifies this`lastNowMs
      ensures ok <==> nowMs >= old(lastNowMs)
      ensures lastNowMs == if ok then nowMs else old(lastNowMs)
    {
      if nowMs < lastNowMs {
        return false;
      }
      lastNowMs := nowMs;
      return true;
    }

    /** The wheel comes to the table's clock: it never finds it went back. */
    method ExpireDue(nowMs: u64, ghost past: Table) returns (removed: int)
      requires Structured() && nowMs == lastNowMs
      requires Model() == past.(lastNow := nowMs) && Clocked(past) && past.lastNow <= nowMs
      modifies this`byKey, this`byId, this`flowsCharged, this`metadataCharged, expiry
      ensures Valid() && expiry == old(expiry)
      ensures Model() == Expired(past, nowMs)
      ensures removed == |old(byKey).Keys| - |byKey.Keys|
    {
      hide Inverse, Matched, FlowsOf, Fired, Left, DueFlows, ChosenTick, Charged, TimerWheel<FlowKey>.Valid,
        TimerWheel<FlowKey>.Timers, Seen, Subflows, Clocked, Settle, DivCeil, SatMul;
      WheelForward(past, nowMs);
      ghost var timers, flows := expiry.Timers(), byKey;
      var fired := expiry.AdvanceTo(nowMs);
      removed := RemoveExpired(fired.value);
      ExpiredMatched(flows, timers, byKey, expiry.currentTick);
      SubflowsSeen(byKey, flows, nowMs);
      ExpiredClocked(past, nowMs);
    }

    /** A timer for `key`, within the wheel's horizon: the wheel never refuses it. */
    method ScheduleExpiry(deadlineMs: u64, key: FlowKey) returns (timer: nat)
      requires expiry.Valid() && expiry.tickMs == expiryTickMs && expiryTickMs > 0
      requires expiry.currentTick < U64_MAX
      requires DueTick(expiryTickMs, expiry.currentTick, deadlineMs) < expiry.currentTick + HORIZON
      modifies expiry
      ensures expiry.Valid() && expiry.currentTick == old(expiry.currentTick) && timer !in old(expiry.Timers())
      ensures expiry.Timers() ==
        old(expiry.Timers())[timer := Timer(DueTick(expiryTickMs, expiry.currentTick, deadlineMs), key)]
    {
      hide Placed, Lit, Linked, TimerWheel<FlowKey>.Timers;
      TickBounds(expiry.currentTick + 0xffff_ffff, deadlineMs, expiryTickMs);
      var r := expiry.Schedule(deadlineMs, key);
      if r.Err? {
        assert false;
      }
      timer := r.value;
    }

    /** The new timer takes over from the flow's old one. */
    method Refresh(key: FlowKey, nowMs: u64, timer: nat, ghost timers: Timers<FlowKey>, ghost due: nat)
      returns (id: nat)
      requires expiry.Valid() && Inverse(byKey, byId) && Matched(byKey, timers) && Charged() && key in byKey
      requires timer !in timers && expiry.Timers() == timers[timer := Timer(due, key)]
      modifies this`byKey, expiry
      ensures expiry.Valid() && expiry.currentTick == old(expiry.currentTick)
      ensures Inverse(byKey, byId) && Matched(byKey, expiry.Timers()) && Charged()
      ensures id == old(byKey)[key].id && (Seen(old(byKey), nowMs) ==> Seen(byKey, nowMs))
      ensures FlowsOf(byKey, expiry.Timers()) == FlowsOf(old(byKey), timers)[key := Flow(id, nowMs, due)]
    {
      hide Inverse, Matched, FlowsOf, TimerWheel<FlowKey>.Valid, TimerWheel<FlowKey>.Timers;
      var flow := byKey[key];
      Refreshed(byKey, byId, timers, key, timer, due, nowMs);
      var _ := expiry.Cancel(flow.expiryTimer);
      byKey := byKey[key := flow.(expiryTimer := timer, lastSeenMs := nowMs)];
      assert byKey.Keys == old(byKey).Keys;
      return flow.id;
    }

    /** A new flow, if the ledger grants it; else its timer goes again. */
    method Admit(key: FlowKey, nowMs: u64, timer: nat, ghost timers: Timers<FlowKey>, ghost due: nat, grants: Grants)
      returns (r: Result<nat, UdpError>)
      requires expiry.Valid() && Inverse(byKey, byId) && Matched(byKey, timers) && Charged() && key !in byKey
      requires forall id :: id in byId ==> id < nextFlowId
      requires timer !in timers && expiry.Timers() == timers[timer := Timer(due, key)]
      modifies this`byKey, this`byId, this`nextFlowId, this`flowsCharged, this`metadataCharged, expiry
      ensures expiry.Valid() && expiry.currentTick == old(expiry.currentTick)
      ensures Inverse(byKey, byId) && Matched(byKey, expiry.Timers()) && Charged()
      ensures forall id :: id in byId ==> id < nextFlowId
      ensures Seen(old(byKey), nowMs) ==> Seen(byKey, nowMs)
      ensures if grants.flow && grants.metadata then
          && r == Ok(old(nextFlowId)) && nextFlowId == old(nextFlowId) + 1
          && FlowsOf(byKey, expiry.Timers()) == FlowsOf(old(byKey), timers)[key := Flow(r.value, nowMs, due)]
        else
          && r == Err(Budget) && nextFlowId == old(nextFlowId)
          && expiry.Timers() == timers && byKey == old(byKey) && byId == old(byId)
    {
      hide Inverse, Matched, FlowsOf, TimerWheel<FlowKey>.Valid, TimerWheel<FlowKey>.Timers;
      if !grants.flow {
        Unschedule(timer, timers, Timer(due, key));
        return Err(Budget);
      }
      flowsCharged := flowsCharged + 1;
      if !grants.metadata {
        Unschedule(timer, timers, Timer(due, key));
        // The flow's lease is dropped on the way out.
        flowsCharged := flowsCharged - 1;
        return Err(Budget);
      }
      metadataCharged := metadataCharged + METADATA_CHARGE;
      var id := nextFlowId;
      Admitted(byKey, byId, timers, key, id, timer, due, nowMs);
      Enter(key, UdpFlow(id, nowMs, timer));
      return Ok(id);
    }

    method Unschedule(timer: nat, ghost timers: Timers<FlowKey>, ghost entry: Timer<FlowKey>)
      requires expiry.Valid() && timer !in timers && expiry.Timers() == timers[timer := entry]
      modifies expiry
      ensures expiry.Valid() && expiry.currentTick == old(expiry.currentTick) && expiry.Timers() == timers
    {
      hide TimerWheel<FlowKey>.Valid, TimerWheel<FlowKey>.Timers;
      var _ := expiry.Cancel(timer);
      assert expiry.Timers() == timers;
    }

    /** The flow in both maps, holding the leases it was just granted. */
    method Enter(key: FlowKey, flow: UdpFlow)
      requires key !in byKey && flow.id == nextFlowId
      requires flowsCharged == |byKey.Keys| + 1 && metadataCharged == METADATA_CHARGE * (|byKey.Keys| + 1)
      requires forall id :: id in byId ==> id < nextFlowId
      modifies this`byKey, this`byId, this`nextFlowId
      ensures byKey == old(byKey)[key := flow] && byId == old(byId)[flow.id := key] && nextFlowId == old(nextFlowId) + 1
      ensures Charged() && forall id :: id in byId ==> id < nextFlowId
    {
      nextFlowId := nextFlowId + 1;
      assert (byKey[key := flow]).Keys == byKey.Keys + {key};
      byKey := byKey[key := flow];
      byId := byId[flow.id := key];
    }

    /** Answer and table are those of `Touch`; a refusal leaves no timer, flow or lease
        behind. */
    method TouchOrAdmit(key: FlowKey, nowMs: u64, grants: Grants) returns (r: Result<nat, UdpError>)
      requires Valid() && nowMs == lastNowMs
      modifies this`byKey, this`byId, this`nextFlowId, this`flowsCharged, this`metadataCharged, expiry
      ensures Valid() && expiry == old(expiry)
      ensures Model() == Touch(old(Model()), key, grants).0 && r == Touch(old(Model()), key, grants).1
    {
      hide Inverse, Matched, FlowsOf, ChosenTick, DueTick, Deadline, TimerWheel<FlowKey>.Valid,
        TimerWheel<FlowKey>.Timers, Charged;
      ghost var before, timers := Model(), expiry.Timers();
      DueBounds(before, nowMs);
      NeverLast(before);
      DeadlineIs(before, nowMs);
      FlowAt(byKey, timers, key);
      var deadline := SatAdd(nowMs, EffectiveTimeout(idleTimeoutMs, timeoutDivisor));
      ghost var due := DueTick(before.tickMs, before.currentTick, deadline);
      var timer := ScheduleExpiry(deadline, key);
      if key in byKey {
        var id := Refresh(key, nowMs, timer, timers, due);
        r := Ok(id);
      } else {
        r := Admit(key, nowMs, timer, timers, due, grants);
      }
    }

    /** The clock check and the expiry every call that drives the clock begins with. */
    method Begin(nowMs: u64) returns (ok: bool)
      requires Valid()
      modifies this`lastNowMs, this`byKey, this`byId, this`flowsCharged, this`metadataCharged, expiry
      ensures Valid() && expiry == old(expiry)
      ensures ok <==> nowMs >= old(lastNowMs)
      ensures ok ==> lastNowMs == nowMs
      ensures Model() == if ok then Expired(old(Model()), nowMs) else old(Model())
    {
      hide Inverse, Matched, FlowsOf, ChosenTick, TimerWheel<FlowKey>.Valid, TimerWheel<FlowKey>.Timers, Charged,
        Expired;
      ghost var past := Model();
      ok := UpdateTime(nowMs);
      if ok {
        var _ := ExpireDue(nowMs, past);
      }
    }

    method IngestWithPolicy(packet: Bytes, nowMs: u64, allowNew: bool, grants: Grants)
      returns (r: Result<Ingress, UdpError>)
      requires Valid()
      modifies this`lastNowMs, this`byKey, this`byId, this`nextFlowId, this`flowsCharged, this`metadataCharged, expiry
      ensures Valid() && expiry == old(expiry)
      ensures Model() == Ingest(old(Model()), packet, nowMs, allowNew, grants).0
      ensures r == Ingest(old(Model()), packet, nowMs, allowNew, grants).1
    {
      hide Inverse, Matched, FlowsOf, ChosenTick, TimerWheel<FlowKey>.Valid, TimerWheel<FlowKey>.Timers, Charged,
        Expired, Touch, Parsed, Clocked;
      var ok := Begin(nowMs);
      if !ok {
        return Err(UdpError.ClockWentBackwards);
      }
      FlowCount(byKey, expiry.Timers());
      var datagram := Parsed(packet);
      if datagram.Err? {
        return Err(datagram.error);
      }
      var d := datagram.value;
      var key := FlowKey(d.source, d.destination, generation);
      if !allowNew && key !in byKey {
        return Err(NewFlowsDisabled);
      }
      if !grants.payload {
        return Err(Budget);
      }
      var id := TouchOrAdmit(key, nowMs, grants);
      if id.Err? {
        return Err(id.error);
      }
      return Ok(Ingress(Token(id.value, generation, shard), d.source, d.destination, d.payload));
    }

    /** None when no flow lives; otherwise a time to come before which none goes. */
    method NextDeadlineMs() returns (r: Option<u64>, ghost tick: nat)
      requires Valid()
      ensures r.None? <==> Model().flows == map[]
      ensures r.Some? ==> tick <= U64_MAX && r.value == SatMul(tick, expiryTickMs) && NoneBefore(Model(), tick)
      ensures r.Some? ==> lastNowMs < r.value || lastNowMs == U64_MAX
      ensures r.Some? ==>
        forall now: u64 :: lastNowMs <= now < r.value ==> Expired(Model(), now).flows == Model().flows
    {
      hide Inverse, Matched, FlowsOf, View, ChosenTick, TimerWheel<FlowKey>.Valid, Charged, Expired, Clocked, NextWake,
        NoneBefore;
      r, tick := expiry.NextDeadlineMs();
      FlowsTimed(byKey, expiry.entries);
      if r.Some? {
        SoonestFlow(byKey, expiry.entries, expiry.currentTick, tick, Model());
        WakesLater(Model(), tick);
        forall now: u64 | lastNowMs <= now < r.value ensures Expired(Model(), now).flows == Model().flows {
          QuietBefore(Model(), tick, now);
        }
      }
    }

    /** The loop that answers what `Scan` does. */
    method EphemeralLocal(ip: Ip, remote: SocketAddr, start: u64, usable: u16 -> bool) returns (r: Option<u16>)
      requires Valid()
      ensures r == Scan(Model(), ip, remote, start, usable, 0)
    {
      hide Inverse, Matched, FlowsOf, TimerWheel<FlowKey>.Valid, TimerWheel<FlowKey>.Timers, Charged, Clocked,
        ChosenTick, Scan, ScanPort;
      FlowCount(byKey, expiry.Timers());
      for offset := 0 to PORT_SPAN
        invariant Scan(Model(), ip, remote, start, usable, 0) == Scan(Model(), ip, remote, start, usable, offset)
      {
        ScanTurn(Model(), ip, remote, start, usable, offset);
        var port := ScanPort(start, offset);
        if FlowKey(remote, SocketAddr(ip, port), generation) !in byKey && usable(port) {
          return Some(port);
        }
      }
      ScanTurn(Model(), ip, remote, start, usable, PORT_SPAN);
      return None;
    }

    method OriginateUsing(local: SocketAddr, remote: SocketAddr, payload: Bytes, nowMs: u64, start: u64,
                          usable: u16 -> bool, grants: Grants)
      returns (r: Result<Originated, UdpError>)
      requires Valid()
      modifies this`lastNowMs, this`byKey, this`byId, this`nextFlowId, this`flowsCharged, this`metadataCharged, expiry
      ensures Valid() && expiry == old(expiry)
      ensures Model() == Originate(old(Model()), local, remote, payload, nowMs, start, usable, grants).0
      ensures r == Originate(old(Model()), local, remote, payload, nowMs, start, usable, grants).1
    {
      hide Inverse, Matched, FlowsOf, ChosenTick, TimerWheel<FlowKey>.Valid, TimerWheel<FlowKey>.Timers, Charged,
        Expired, Touch, Clocked, Emitted, Scan, CanCarry;
      var ok := Begin(nowMs);
      if !ok {
        return Err(UdpError.ClockWentBackwards);
      }
      if !CanCarry(local, remote) {
        return Err(InvalidAddress);
      }
      var from := local;
      if local.port == 0 {
        var port := EphemeralLocal(local.ip, remote, start, usable);
        if port.None? {
          return Err(AddressInUse);
        }
        from := SocketAddr(local.ip, port.value);
      }
      var key := FlowKey(remote, from, generation);
      FlowAt(byKey, expiry.Timers(), key);
      var expected := if key in byKey then byKey[key].id else nextFlowId;
      var packet := EmitUdpPacket(from, remote, payload, 64, Identification(expected), true);
      if packet.Err? {
        return Err(BadWire(packet.error));
      }
      var wire := packet.value[..];
      var id := TouchOrAdmit(key, nowMs, grants);
      if id.Err? {
        return Err(id.error);
      }
      return Ok(Originated(Token(id.value, generation, shard), from, wire));
    }

    method EmitReply(token: Token, source: SocketAddr, payload: Bytes, nowMs: u64) returns (r: Result<Bytes, UdpError>)
      requires Valid()
      modifies this`lastNowMs, this`byKey, this`byId, this`nextFlowId, this`flowsCharged, this`metadataCharged, expiry
      ensures Valid() && expiry == old(expiry)
      ensures Model() == Reply(old(Model()), token, source, payload, nowMs).0
      ensures r == Reply(old(Model()), token, source, payload, nowMs).1
    {
      hide Inverse, Matched, FlowsOf, ChosenTick, TimerWheel<FlowKey>.Valid, TimerWheel<FlowKey>.Timers, Charged,
        Expired, Touch, Clocked, Emitted, KeyOf;
      var ok := Begin(nowMs);
      if !ok {
        return Err(UdpError.ClockWentBackwards);
      }
      if token.generation != generation || token.shard != shard {
        return Err(StaleToken);
      }
      KeyOfId(Model(), byKey, byId, expiry.Timers(), token.flow);
      if token.flow !in byId {
        return Err(StaleToken);
      }
      var key := byId[token.flow];
      var packet := EmitUdpPacket(source, key.source, payload, 64, Identification(token.flow), true);
      if packet.Err? {
        return Err(BadWire(packet.error));
      }
      var wire := packet.value[..];
      var _ := TouchOrAdmit(key, nowMs, Grants(true, true, true));
      return Ok(wire);
    }

    method ResetNetwork(generation: nat)
      requires Valid()
      modifies this
      ensures Valid() && fresh(expiry)
      ensures Model() == UdpModel.ResetNetwork(old(Model()), generation)
    {
      hide Inverse, Matched, FlowsOf, ChosenTick, TimerWheel<FlowKey>.Valid, TimerWheel<FlowKey>.Timers, Charged,
        Clocked;
      this.generation := generation;
      Clear();
    }

    method Clear()
      requires Structured()
      modifies this`byKey, this`byId, this`expiry, this`flowsCharged, this`metadataCharged
      ensures Valid() && fresh(expiry)
      ensures Model() == UdpModel.ResetNetwork(old(Model()), generation)
    {
      hide ChosenTick, TimerWheel<FlowKey>.Valid, TimerWheel<FlowKey>.Timers, DivCeil, Inverse, Matched, FlowsOf;
      TickFits(lastNowMs, expiryTickMs);
      NoFlows();
      byKey, byId := map[], map[];
      flowsCharged, metadataCharged := 0, 0;
      expiry := new TimerWheel(expiryTickMs, lastNowMs);
    }

    /** Every flow judged by the timeout over `divisor`: idle for it, it is told as
        expired; else it gets a timer of a new wheel. */
    method RebuildExpiry(nowMs: u64, divisor: u64, ghost past: Table) returns (expired: seq<FlowKey>)
      requires Structured() && nowMs == lastNowMs && divisor >= 1
      requires Model() == past.(lastNow := nowMs) && past.lastNow <= nowMs
      modifies this`byKey, this`expiry, this`timeoutDivisor
      ensures expiry.Valid() && fresh(expiry) && expiry.tickMs == expiryTickMs && timeoutDivisor == divisor
      ensures expiry.currentTick == nowMs / expiryTickMs
      ensures byKey.Keys == old(byKey).Keys
      ensures Judged(old(byKey), byKey, expiry.Timers(), byKey.Keys, expired, Rebuilt(past, nowMs, divisor))
    {
      hide Inverse, Matched, FlowsOf, ChosenTick, TimerWheel<FlowKey>.Valid, TimerWheel<FlowKey>.Timers, Charged,
        DivCeil, DueTick, EffectiveTimeout;
      var timeout := EffectiveTimeout(idleTimeoutMs, divisor);
      TickFits(nowMs, expiryTickMs);
      expiry := new TimerWheel(expiryTickMs, nowMs);
      expired := [];
      var todo := byKey.Keys;
      ghost var target := Rebuilt(past, nowMs, divisor);
      while todo != {}
        invariant todo <= byKey.Keys && byKey.Keys == old(byKey).Keys
        invariant expiry.Valid() && fresh(expiry) && expiry.tickMs == expiryTickMs &&
          expiry.currentTick == nowMs / expiryTickMs
        invariant Judged(old(byKey), byKey, expiry.Timers(), byKey.Keys - todo, expired, target)
      {
        var key :| key in todo;
        var flow := byKey[key];
        if SatSub(nowMs, flow.lastSeenMs) >= timeout {
          JudgedIdle(old(byKey), byKey, expiry.Timers(), byKey.Keys - todo, expired, target, key);
          expired := expired + [key];
        } else {
          TimeAnew(key, SatAdd(flow.lastSeenMs, timeout), old(byKey), byKey.Keys - todo, expired, target);
        }
        assert byKey.Keys - (todo - {key}) == byKey.Keys - todo + {key};
        todo := todo - {key};
      }
      timeoutDivisor := divisor;
    }

    method TimeAnew(key: FlowKey, deadline: u64, ghost before: Flows, ghost done: set<FlowKey>,
                    ghost expired: seq<FlowKey>, ghost r: Table)
      requires expiry.Valid() && expiry.tickMs == expiryTickMs == r.tickMs && expiry.currentTick == r.currentTick
      requires Judged(before, byKey, expiry.Timers(), done, expired, r) && key in byKey && key !in done &&
        !IsIdle(r, byKey[key])
      requires deadline == Deadline(r, byKey[key].lastSeenMs) && byKey[key].lastSeenMs <= r.lastNow
      requires r.idleMs > 0 && r.tickMs == ChosenTick(r.idleMs) && Clocked(r)
      modifies this`byKey, expiry
      ensures expiry.Valid() && expiry.currentTick == r.currentTick && byKey.Keys == old(byKey).Keys
      ensures forall k :: k in byKey ==> byKey[k].lastSeenMs == old(byKey)[k].lastSeenMs
      ensures Judged(before, byKey, expiry.Timers(), done + {key}, expired, r)
    {
      hide Judged, IsIdle, TimerWheel<FlowKey>.Valid, TimerWheel<FlowKey>.Timers, ChosenTick, Deadline, Clocked,
        DueTick;
      DueBounds(r, byKey[key].lastSeenMs);
      NeverLast(r);
      ghost var timers := expiry.Timers();
      var timer := ScheduleExpiry(deadline, key);
      JudgedLive(before, byKey, timers, done, expired, r, key, timer);
      byKey := byKey[key := byKey[key].(expiryTimer := timer)];
    }

    method ExpireIdleUnderPressure(nowMs: u64, divisor: u64) returns (r: Result<int, UdpError>)
      requires Valid()
      modifies this`lastNowMs, this`byKey, this`byId, this`flowsCharged, this`metadataCharged, this`expiry,
        this`timeoutDivisor, expiry
      ensures Valid() && (expiry == old(expiry) || fresh(expiry))
      ensures Model() == ExpireUnderPressure(old(Model()), nowMs, divisor).0
      ensures r == ExpireUnderPressure(old(Model()), nowMs, divisor).1
    {
      hide Inverse, Matched, FlowsOf, ChosenTick, TimerWheel<FlowKey>.Valid, TimerWheel<FlowKey>.Timers, Charged,
        Expired, Rebuilt, Clocked, Judged;
      ghost var past := Model();
      var ok := UpdateTime(nowMs);
      if !ok {
        return Err(UdpError.ClockWentBackwards);
      }
      var effective := Max(divisor, 1);
      var removed;
      FlowCount(byKey, expiry.Timers());
      if effective == timeoutDivisor {
        removed := ExpireDue(nowMs, past);
      } else {
        removed := Rebuild(nowMs, effective, past);
      }
      FlowCount(byKey, expiry.Timers());
      return Ok(removed);
    }

    /** The new wheel, and the flows found idle gone. */
    method Rebuild(nowMs: u64, divisor: u64, ghost past: Table) returns (removed: int)
      requires Structured() && nowMs == lastNowMs && divisor >= 1
      requires Model() == past.(lastNow := nowMs) && past.lastNow <= nowMs
      modifies this`byKey, this`byId, this`flowsCharged, this`metadataCharged, this`expiry, this`timeoutDivisor
      ensures Valid() && fresh(expiry)
      ensures Model() == Rebuilt(past, nowMs, divisor)
      ensures removed == |old(byKey).Keys| - |byKey.Keys|
    {
      hide Inverse, Matched, FlowsOf, ChosenTick, TimerWheel<FlowKey>.Valid, TimerWheel<FlowKey>.Timers, Judged,
        Retimed, EffectiveTimeout, StaleFlows, Seen, Subflows, Charged;
      ghost var timers := expiry.Timers();
      ChargedFor(byKey.Keys);
      var expired := RebuildExpiry(nowMs, divisor, past);
      ChargedFor(old(byKey).Keys);
      ghost var judged := byKey;
      JudgedInverse(old(byKey), byKey, byId, expiry.Timers(), expired, Rebuilt(past, nowMs, divisor));
      removed := RemoveExpired(expired);
      JudgedDone(old(byKey), timers, judged, byKey, expiry.Timers(), expired, past, nowMs, divisor);
    }
  }
}
