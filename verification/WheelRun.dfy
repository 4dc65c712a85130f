/** The caller the wheel is made for, which sleeps from one answer to the next until no
    timer is left: what it hears, and how often it is woken. */
module WheelRun {
  import opened Machine
  import opened WheelLayout
  import opened Firing
  import opened WheelSteps
  import opened WheelWake
  import opened TimerWheel

  /** `ids` with the tick each is due at and its value. */
  function Stamped<T>(timers: Timers<T>, ids: seq<nat>): seq<(nat, T)>
    requires forall i :: 0 <= i < |ids| ==> ids[i] in timers
  {
    seq(|ids|, i requires 0 <= i < |ids| => (timers[ids[i]].deadline, timers[ids[i]].value))
  }

  /** Each timer's level, counted from one: how often it may still wake the
      caller. */
  ghost function Rungs<T>(es: Entries<T>): nat
    decreases |es.Keys|
  {
    if es == map[] then 0 else
    var id :| id in es;
    assert (es - {id}).Keys == es.Keys - {id};
    es[id].level + 1 + Rungs(es - {id})
  }

  lemma {:induction false} RungsWithout<T>(es: Entries<T>, id: nat)
    requires id in es
    ensures Rungs(es) == es[id].level + 1 + Rungs(es - {id})
    decreases |es.Keys|
  {
    var other :| other in es && Rungs(es) == es[other].level + 1 + Rungs(es - {other});
    if other != id {
      assert (es - {other}).Keys == es.Keys - {other} && (es - {id}).Keys == es.Keys - {id};
      RungsWithout(es - {other}, id);
      RungsWithout(es - {id}, other);
      assert es - {other} - {id} == es - {id} - {other};
    }
  }

  /** At most four wakes to a timer. */
  lemma {:induction false} RungsBound<T>(es: Entries<T>)
    requires forall id :: id in es ==> es[id].level < LEVELS
    ensures Rungs(es) <= LEVELS * |es|
    decreases |es.Keys|
  {
    if es != map[] {
      var id :| id in es;
      assert (es - {id}).Keys == es.Keys - {id};
      RungsWithout(es, id);
      RungsBound(es - {id});
      assert |es| == |es.Keys| && |es - {id}| == |(es - {id}).Keys|;
    }
  }

  ghost predicate Below<T>(after: Entries<T>, before: Entries<T>) {
    forall id :: id in after ==> id in before && after[id].level <= before[id].level
  }

  lemma {:induction false} RungsBelow<T>(after: Entries<T>, before: Entries<T>)
    requires Below(after, before)
    ensures Rungs(after) <= Rungs(before)
    decreases |before.Keys|
  {
    if before == map[] {
      assert after == map[];
    } else {
      var id :| id in before;
      assert (before - {id}).Keys == before.Keys - {id};
      RungsWithout(before, id);
      RungsBelow(after - {id}, before - {id});
      if id in after { RungsWithout(after, id); } else { assert after - {id} == after; }
    }
  }

  /** A timer that fires or moves down a level takes a rung off. */
  lemma RungsDrop<T>(after: Entries<T>, before: Entries<T>, id: nat)
    requires Below(after, before) && id in before
    requires id in after ==> after[id].level < before[id].level
    ensures Rungs(after) < Rungs(before)
  {
    RungsWithout(before, id);
    RungsBelow(after - {id}, before - {id});
    if id in after { RungsWithout(after, id); } else { assert after - {id} == after; }
  }

  /** The clock at a wake's milliseconds stands in the wake's tick. */
  lemma WakeReached<T>(wheel: TimerWheel<T>, tick: nat)
    requires wheel.tickMs > 0 && 0 < tick <= U64_MAX && (tick - 1) * wheel.tickMs < U64_MAX
    ensures wheel.TargetTick(SatMul(tick, wheel.tickMs)) == tick
  {
    var ms := SatMul(tick, wheel.tickMs);
    TickBounds(tick, ms, wheel.tickMs);
    TickBounds(tick - 1, ms, wheel.tickMs);
    TickBounds(tick + 1, ms, wheel.tickMs);
    assert (tick + 1) * wheel.tickMs == tick * wheel.tickMs + wheel.tickMs;
  }

  /** No clock takes the wheel to a tick that is not showable, and the last does to
      every one that is. */
  lemma LastShown<T>(wheel: TimerWheel<T>, now: u64, tick: nat)
    requires wheel.tickMs > 0 && tick > 0
    ensures wheel.TargetTick(now) <= wheel.TargetTick(U64_MAX)
    ensures tick <= wheel.TargetTick(U64_MAX) <==> (tick - 1) * wheel.tickMs < U64_MAX
  {
    var last, here := DivCeil(U64_MAX, wheel.tickMs), now / wheel.tickMs;
    TickBounds(tick - 1, U64_MAX, wheel.tickMs);
    DivRemainder(now, wheel.tickMs);
    DivCeilBounds(U64_MAX, wheel.tickMs);
    assert (last + 1) * wheel.tickMs == last * wheel.tickMs + wheel.tickMs;
    if here > last { MulMonotone(last + 1, here, wheel.tickMs); }
  }

  lemma FiredStamped<T>(timers: Timers<T>, tick: nat)
    requires forall id :: id in timers ==> timers[id].deadline >= tick
    ensures var order := DueInOrder(timers, tick);
      && |Fired(timers, tick)| == |order|
      && forall i :: 0 <= i < |order| ==>
        order[i] in timers && (tick, Fired(timers, tick)[i]) == Stamped(timers, order)[i]
  {
    var order := DueInOrder(timers, tick);
    forall i | 0 <= i < |order| ensures order[i] in timers && timers[order[i]].deadline == tick {
      assert order[i] in order;
    }
  }

  lemma StampedThrough<T>(timers: Timers<T>, mid: nat, tick: nat)
    requires mid <= tick
    ensures Stamped(timers, DueInOrder(timers, tick))
      == Stamped(timers, DueInOrder(timers, mid)) + Stamped(Left(timers, mid), DueInOrder(Left(timers, mid), tick))
  {
    OrderThrough(timers, mid, tick);
    var late := DueInOrder(Left(timers, mid), tick);
    assert forall i :: 0 <= i < |late| ==> late[i] in Left(timers, mid);
  }

  /** An advance to the first event takes a rung off. */
  lemma WakeDrops<T>(before: Entries<T>, past: nat, after: Entries<T>, now: nat)
    requires NextEvent(before, now) && Settle(before, past, after, now)
    requires forall id :: id in after ==> Placed(after[id], now)
    ensures Rungs(after) < Rungs(before)
  {
    var id :| id in before && Event(before[id]) == now;
    if id in after { EventBounds(after[id], now); }
    RungsDrop(after, before, id);
  }

  /** Every deadline is a time the clock can show. */
  ghost predicate Showable<T>(wheel: TimerWheel<T>)
    reads wheel
  {
    forall id :: id in wheel.entries ==>
      (wheel.entries[id].deadline - 1) * wheel.tickMs < U64_MAX
  }

  /** The wheel takes the clock to the wake's tick, without going back. */
  lemma WakeInTime<T>(wheel: TimerWheel<T>, tick: nat)
    requires wheel.Valid() && NextWake(wheel.entries, wheel.currentTick, tick) && wheel.entries != map[]
    requires Showable(wheel)
    ensures wheel.currentTick < tick <= U64_MAX && wheel.TargetTick(SatMul(tick, wheel.tickMs)) == tick
    ensures SatMul(tick, wheel.tickMs) >= Min(wheel.currentTick * wheel.tickMs, U64_MAX)
    ensures forall id :: id in wheel.Timers() ==> wheel.Timers()[id].deadline >= tick
    ensures NoneWrapped(wheel.entries, wheel.currentTick) ==> NextEvent(wheel.entries, tick)
  {
    hide Placed, Lit, Linked, Event, NextEvent, Wrapped;
    var id :| id in wheel.entries;
    MulMonotone(tick - 1, wheel.entries[id].deadline - 1, wheel.tickMs);
    MulMonotone(wheel.currentTick, tick, wheel.tickMs);
    WakeReached(wheel, tick);
  }

  /** A wake on a blind wheel is one tick on and changes nothing; any other takes a
      rung off. */
  lemma WakeCounts<T>(before: Entries<T>, past: nat, after: Entries<T>, now: nat)
    requires NextWake(before, past, now) && Settle(before, past, after, now)
    requires View(after) == Left(View(before), now)
    requires forall id :: id in after ==> Placed(after[id], now)
    ensures Counted(before, past, after, now)
    ensures forall id :: id in after ==> id in before && after[id].deadline == before[id].deadline
    ensures NoneWrapped(before, past) ==> NoneWrapped(after, now) && !Blind(before, past)
  {
    hide Placed, Rungs, View;
    assert after.Keys == View(after).Keys && before.Keys == View(before).Keys;
    if Blind(before, past) {
      assert forall id :: id in before ==> id in after && after[id] == before[id];
      assert after == before;
    } else {
      WakeDrops(before, past, after, now);
    }
  }

  ghost predicate Counted<T>(before: Entries<T>, past: nat, after: Entries<T>, now: nat) {
    if Blind(before, past) then now == past + 1 && after == before else now > past && Rungs(after) < Rungs(before)
  }

  /** The wheel as a caller finds it before it sleeps. */
  datatype Moment<T> = Moment(entries: Entries<T>, tick: nat)

  /** One wake after another, each counted. */
  ghost predicate Wakes<T>(seen: seq<Moment<T>>) {
    && seen != []
    && forall i :: 0 <= i < |seen| - 1 ==> Counted(seen[i].entries, seen[i].tick, seen[i + 1].entries, seen[i + 1].tick)
  }

  /** How many of the wakes were blind. */
  ghost function Idle<T>(seen: seq<Moment<T>>): nat {
    if |seen| <= 1 then 0 else
    Idle(seen[..|seen| - 1]) + if Blind(seen[|seen| - 2].entries, seen[|seen| - 2].tick) then 1 else 0
  }

  /** Every wake that is not blind is paid for by a rung. */
  lemma {:induction false} WakesBound<T>(seen: seq<Moment<T>>)
    requires Wakes(seen)
    ensures |seen| - 1 + Rungs(seen[|seen| - 1].entries) <= Rungs(seen[0].entries) + Idle(seen)
    decreases |seen|
  {
    hide Rungs, Blind;
    if |seen| > 1 {
      var most := seen[..|seen| - 1];
      assert forall i :: 0 <= i < |most| ==> most[i] == seen[i];
      WakesBound(most);
      assert Counted(seen[|seen| - 2].entries, seen[|seen| - 2].tick, seen[|seen| - 1].entries, seen[|seen| - 1].tick);
    }
  }

  lemma WakesMore<T>(seen: seq<Moment<T>>, next: Moment<T>)
    requires Wakes(seen) && Counted(seen[|seen| - 1].entries, seen[|seen| - 1].tick, next.entries, next.tick)
    ensures Wakes(seen + [next])
    ensures Idle(seen + [next]) == Idle(seen) + if Blind(seen[|seen| - 1].entries, seen[|seen| - 1].tick) then 1 else 0
  {
    hide Blind, Counted;
    assert (seen + [next])[..|seen|] == seen;
  }

  lemma NoWakes<T>(start: Moment<T>)
    ensures Wakes([start]) && Idle([start]) == 0
  {}

  /** Nothing is due yet that waits for a tick to come. */
  lemma NoneStamped<T>(es: Entries<T>, now: nat)
    requires forall id :: id in es ==> Placed(es[id], now)
    ensures Left(View(es), now) == View(es) && Stamped(View(es), DueInOrder(View(es), now)) == []
  {
    hide View, InOrder;
    FiredNow(es, now);
    assert |Fired(View(es), now)| == |DueInOrder(View(es), now)|;
  }

  /** Sleeps to the wheel's answer and advances to it: what fires is due at exactly
      that tick. */
  method SleepOnce<T>(wheel: TimerWheel<T>) returns (log: seq<(nat, T)>)
    requires wheel.Valid() && Showable(wheel) && wheel.entries != map[]
    modifies wheel
    ensures wheel.Valid() && Showable(wheel) && wheel.currentTick > old(wheel.currentTick)
    ensures wheel.Timers() == Left(old(wheel.Timers()), wheel.currentTick)
    ensures log == Stamped(old(wheel.Timers()), DueInOrder(old(wheel.Timers()), wheel.currentTick))
    ensures Counted(old(wheel.entries), old(wheel.currentTick), wheel.entries, wheel.currentTick)
    ensures NoneWrapped(old(wheel.entries), old(wheel.currentTick)) ==>
      NoneWrapped(wheel.entries, wheel.currentTick) && !Blind(old(wheel.entries), old(wheel.currentTick))
  {
    hide Placed, Lit, Linked, NextWake, NextEvent, NoneWrapped, Fired, DueInOrder, View, Left, Blind, Counted, Settle;
    var next, tick := wheel.NextDeadlineMs();
    WakeInTime(wheel, tick);
    var r := wheel.AdvanceTo(next.value);
    FiredStamped(old(wheel.Timers()), tick);
    var now := wheel.currentTick;
    log := seq(|r.value|, i requires 0 <= i < |r.value| => (now, r.value[i]));
    WakeCounts(old(wheel.entries), old(wheel.currentTick), wheel.entries, tick);
    assert forall id :: id in wheel.entries ==> id in wheel.Timers();
  }

  /** Every timer fires, in order, at exactly its own deadline. The caller wakes once
      for each level each timer passes through at most, and once more for each time it
      found the wheel blind; which it never does where no timer is a whole turn ahead
      to begin with. */
  method Drain<T>(wheel: TimerWheel<T>) returns (log: seq<(nat, T)>, wakes: nat, ghost seen: seq<Moment<T>>)
    requires wheel.Valid() && Showable(wheel)
    modifies wheel
    ensures wheel.Valid() && wheel.entries == map[]
    ensures log == Stamped(old(wheel.Timers()), InOrder(old(wheel.Timers()), old(wheel.Timers()).Keys))
    ensures Wakes(seen) && |seen| == wakes + 1 && seen[0] == Moment(old(wheel.entries), old(wheel.currentTick))
    ensures wakes <= Rungs(old(wheel.entries)) + Idle(seen)
    ensures NoneWrapped(old(wheel.entries), old(wheel.currentTick)) ==> Idle(seen) == 0
  {
    hide Placed, Lit, Linked, NoneWrapped, Rungs, Blind, Counted, Wakes, Idle, View, Left, Stamped;
    log, wakes, seen := [], 0, [Moment(wheel.entries, wheel.currentTick)];
    ghost var timers := wheel.Timers();
    NoneStamped(wheel.entries, wheel.currentTick);
    NoWakes(seen[0]);
    while wheel.entries != map[]
      invariant wheel.Valid() && Showable(wheel)
      invariant wheel.Timers() == Left(timers, wheel.currentTick)
      invariant log == Stamped(timers, DueInOrder(timers, wheel.currentTick))
      invariant Wakes(seen) && |seen| == wakes + 1 && seen[0] == Moment(old(wheel.entries), old(wheel.currentTick))
      invariant seen[wakes] == Moment(wheel.entries, wheel.currentTick)
      invariant NoneWrapped(old(wheel.entries), old(wheel.currentTick)) ==>
        NoneWrapped(wheel.entries, wheel.currentTick) && Idle(seen) == 0
      decreases U64_MAX - wheel.currentTick
    {
      ghost var past := wheel.currentTick;
      var fired := SleepOnce(wheel);
      StampedThrough(timers, past, wheel.currentTick);
      FiredThrough(timers, past, wheel.currentTick);
      WakesMore(seen, Moment(wheel.entries, wheel.currentTick));
      log, wakes, seen := log + fired, wakes + 1, seen + [Moment(wheel.entries, wheel.currentTick)];
    }
    AllStamped(timers, wheel.entries, wheel.currentTick);
    WakesBound(seen);
  }

  lemma AllStamped<T>(timers: Timers<T>, es: Entries<T>, tick: nat)
    requires View(es) == Left(timers, tick) && es == map[]
    ensures Stamped(timers, DueInOrder(timers, tick)) == Stamped(timers, InOrder(timers, timers.Keys))
  {
    hide InOrder, Stamped;
    forall id | id in timers ensures timers[id].deadline <= tick {
      assert timers[id].deadline > tick ==> id in Left(timers, tick);
    }
    assert Due(timers, tick) == timers.Keys;
  }

  // ----- blind wakes do happen -----

  /** A timer due in 2^32 - 1 ticks, scheduled at tick 1. */
  function FarTimer(): Entries<()> {
    map[0 := Entry(0x1_0000_0000, 3, 0, ())]
  }

  /** The timer shares the current slot of its level until tick 2^24, and until then
      each answer is one tick on, for nothing. */
  lemma BlindWakes(now: nat, tick: nat)
    requires 1 <= now < 0xff_ffff && NextWake(FarTimer(), now, tick)
    ensures Blind(FarTimer(), now) && tick == now + 1 && !NextEvent(FarTimer(), tick)
  {
    FarBlind(now);
  }

  lemma FarBlind(now: nat)
    requires 1 <= now < 0xff_ffff
    ensures Blind(FarTimer(), now)
  {
    assert now / 0x100_0000 == 0;
    assert 0 in FarTimer() && Mistaken(FarTimer(), now, 0);
  }

  /** One timer on a new wheel, and over sixteen million sleeps that fire nothing and
      leave the wheel as it was: more than four for its four levels. */
  method SleepInVain() returns (wheel: TimerWheel<()>, wakes: nat)
    ensures fresh(wheel) && wheel.Valid() && wheel.entries == FarTimer()
    ensures wakes == 0xff_fffe && wheel.currentTick == 1 + wakes && wakes > Rungs(FarTimer())
  {
    hide Placed, Lit, Linked, Blind, View, Rungs, Left;
    wheel := new TimerWheel(1, 1);
    wakes := 0;
    var r := wheel.Schedule(0x1_0000_0000, ());
    assert wheel.entries == FarTimer();
    while wakes < 0xff_fffe
      invariant fresh(wheel) && wheel.Valid() && wheel.tickMs == 1 && wheel.entries == FarTimer()
      invariant wakes <= 0xff_fffe && wheel.currentTick == 1 + wakes
    {
      FarBlind(wheel.currentTick);
      var log := SleepOnce(wheel);
      wakes := wakes + 1;
    }
    RungsBound(FarTimer());
  }
}
