/** What the search for the next deadline finds. */
module WheelWake {
  import opened Machine
  import opened WheelLayout
  import opened BitScan
  import opened WheelSteps

  /** What the bit scan of one level tells of its timers: none there, one a
      whole turn ahead (0), or how near the nearest is. */
  ghost predicate LevelScan<T>(es: Entries<T>, now: nat, level: nat, r: Option<nat>)
    requires level < LEVELS
  {
    match r
    case None => forall id :: id in es ==> es[id].level != level
    case Some(a) =>
      if a == 0 then exists id :: id in es && es[id].level == level && Wrapped(es[id], now)
      else
        && (exists id :: id in es && es[id].level == level && Ahead(es[id], now) == a)
        && (forall id :: id in es && es[id].level == level ==> a <= Ahead(es[id], now) < SLOTS)
  }

  /** The bit of an entry's bucket is `Ahead` slots on, around the turn. */
  lemma SlotAhead<T>(e: Entry<T>, now: nat)
    requires Placed(e, now)
    ensures SlotFor(now, e.level) < SLOTS && 1 <= Ahead(e, now) <= SLOTS && (e.level == 0 ==> Ahead(e, now) < SLOTS)
    ensures e.slot == (SlotFor(now, e.level) + Ahead(e, now) % SLOTS) % SLOTS
  {
    hide Width;
    TurnsAhead(now / Width(e.level), e.deadline / Width(e.level));
  }

  lemma TurnsAhead(from: nat, to: nat)
    requires from <= to
    ensures to % SLOTS == (from % SLOTS + (to - from) % SLOTS) % SLOTS
  {}

  lemma ScanMeaning<T>(es: Entries<T>, b: Buckets, o: Occupied, now: nat, level: nat, r: Option<nat>)
    requires Shaped(b) && Lit(o, b) && Linked(es, b, {}) && level < LEVELS
    requires forall id :: id in es ==> Placed(es[id], now)
    requires FirstBit(o[level], SlotFor(now, level), r)
    ensures LevelScan(es, now, level, r)
  {
    hide Placed, Ahead, SlotFor, SlotBit;
    var start := SlotFor(now, level);
    forall id | id in es && es[id].level == level
      ensures 1 <= Ahead(es[id], now) <= SLOTS && r.Some? && r.value <= Ahead(es[id], now) % SLOTS
    {
      SlotAhead(es[id], now);
      assert id in b[level][es[id].slot];
      assert BitAhead(o[level], start, Ahead(es[id], now) % SLOTS);
    }
    if r.Some? {
      var id := Found(es, b, o, now, level, r.value);
    }
  }

  lemma Found<T>(es: Entries<T>, b: Buckets, o: Occupied, now: nat, level: nat, a: nat) returns (id: nat)
    requires Shaped(b) && Lit(o, b) && Linked(es, b, {}) && level < LEVELS && a < SLOTS
    requires forall id :: id in es ==> Placed(es[id], now)
    requires BitAhead(o[level], SlotFor(now, level), a)
    ensures id in es && es[id].level == level && Ahead(es[id], now) % SLOTS == a && 1 <= Ahead(es[id], now) <= SLOTS
  {
    hide Placed, Ahead, SlotFor, SlotBit;
    var start := SlotFor(now, level);
    var s := (start + a) % SLOTS;
    assert b[level][s] != {};
    id :| id in b[level][s];
    assert id in es && es[id].level == level && es[id].slot == s;
    SlotAhead(es[id], now);
    Turn(start, a, Ahead(es[id], now) % SLOTS);
  }

  lemma Turn(start: nat, a: nat, b: nat)
    requires start < SLOTS && a < SLOTS && b < SLOTS && (start + a) % SLOTS == (start + b) % SLOTS
    ensures a == b
  {}

  /** A timer is a whole turn ahead at `level` or lower levels have nothing
      before that level's next window: the search looks into the level, and
      cannot tell the timer's bucket from one that is due. */
  ghost predicate Mistaken<T>(es: Entries<T>, now: nat, id: nat)
    requires id in es
  {
    && es[id].level < LEVELS && Wrapped(es[id], now)
    && forall i :: i in es && es[i].level < es[id].level ==> Event(es[i]) > NextWindow(now, es[id].level)
  }

  /** The answer is the very next tick, though nothing happens then. */
  ghost predicate Blind<T>(es: Entries<T>, now: nat) {
    && (exists id :: id in es && Mistaken(es, now, id))
    && (forall id :: id in es ==> es[id].level < LEVELS && Event(es[id]) > now + 1)
  }

  /** What `tick` is of the timers at `now`: after now, no later than any timer's
      next event, and, unless the wheel is blind, exactly the first of them. */
  ghost predicate NextWake<T>(es: Entries<T>, now: nat, tick: nat) {
    && now < tick
    && (forall id :: id in es ==> es[id].level < LEVELS && tick <= Event(es[id]) <= es[id].deadline)
    && (Blind(es, now) ==> tick == now + 1)
    && (!Blind(es, now) <==> NextEvent(es, tick))
  }

  /** The search so far: levels below `level` looked into. */
  ghost predicate Searched<T>(es: Entries<T>, now: nat, level: nat, soonest: Option<nat>) {
    match soonest
    case None => forall id :: id in es ==> es[id].level >= level
    case Some(t) =>
      && now < t
      && (forall id :: id in es && es[id].level < level ==>
            es[id].level < LEVELS && t <= Event(es[id]) && (Wrapped(es[id], now) ==> t == now + 1))
      && (|| (exists id :: id in es && es[id].level < LEVELS && es[id].level < level && Event(es[id]) == t)
          || (t == now + 1 && exists id :: id in es && Mistaken(es, now, id)))
  }

  lemma SearchBegins<T>(es: Entries<T>, now: nat)
    ensures Searched(es, now, 0, None)
  {}

  /** A shift by 8 bits a level; bits past the top are lost. */
  function ShiftLeft(x: u64, level: nat): u64
    requires level < LEVELS
  {
    x * Width(level) % U64_LIMIT
  }

  /** Where the next window would start past the clock's end, the shift loses it, the
      search goes on, and no timer is left for it to find. */
  lemma ShiftedWindow<T>(es: Entries<T>, now: u64, level: nat)
    requires level < LEVELS && es != map[]
    requires forall id :: id in es ==> Placed(es[id], now)
    ensures ShiftLeft(SatAdd(now / Width(level), 1), level) <= NextWindow(now, level)
    ensures ShiftLeft(SatAdd(now / Width(level), 1), level) == NextWindow(now, level) ||
      (forall id :: id in es ==> es[id].level < level)
  {
    hide Placed, Event;
    var x := NextWindow(now, level);
    var some :| some in es;
    EventBounds(es[some], now);
    assert now / Width(level) + 1 <= U64_MAX;
    if x > U64_MAX {
      forall id | id in es ensures es[id].level < level {
        EventBounds(es[id], now);
        if es[id].level >= level { NextWindows(now, level, es[id].level); }
      }
    }
  }

  /** The bucket the scan finds starts where the clock can be. */
  lemma ShiftedBucket<T>(es: Entries<T>, now: u64, level: nat, a: nat)
    requires level < LEVELS && LevelScan(es, now, level, Some(a))
    requires forall id :: id in es ==> Placed(es[id], now)
    ensures a <= U64_MAX && ShiftLeft(SatAdd(now / Width(level), a), level) == (now / Width(level) + a) * Width(level)
  {
    hide Placed, Event;
    WindowStart(now, level);
    if a > 0 {
      var id :| id in es && es[id].level == level && Ahead(es[id], now) == a;
      EventBounds(es[id], now);
    }
  }

  function Later(soonest: Option<nat>, next: nat): Option<nat> {
    Some(if soonest.Some? then Min(soonest.value, next) else next)
  }

  lemma SearchLevel<T>(es: Entries<T>, now: nat, level: nat, soonest: Option<nat>, ahead: Option<nat>)
    requires level < LEVELS && Searched(es, now, level, soonest) && LevelScan(es, now, level, ahead)
    requires soonest.Some? ==>
      soonest.value > NextWindow(now, level) || (forall id :: id in es ==> es[id].level < level)
    requires forall id :: id in es ==> Placed(es[id], now)
    ensures ahead.None? ==> Searched(es, now, level + 1, soonest)
    ensures ahead.Some? ==> Searched(es, now, level + 1,
      Later(soonest, Max((now / Width(level) + ahead.value) * Width(level), now + 1)))
  {
    hide Placed, Width, NextWindow, Ahead;
    NextWindows(now, level, level);
    forall id | id in es ensures es[id].level < LEVELS && now < Event(es[id]) {
      EventBounds(es[id], now);
    }
    if ahead.Some? {
      if ahead.value == 0 {
        WindowStart(now, level);
        SearchTurn(es, now, level, soonest);
      } else {
        SearchAhead(es, now, level, soonest, ahead.value);
      }
    }
  }

  lemma WindowStart(now: nat, level: nat)
    requires level < LEVELS
    ensures now / Width(level) * Width(level) <= now
  {}

  lemma SearchTurn<T>(es: Entries<T>, now: nat, level: nat, soonest: Option<nat>)
    requires level < LEVELS && Searched(es, now, level, soonest) && LevelScan(es, now, level, Some(0))
    requires now < NextWindow(now, level) && (soonest.Some? ==> soonest.value > NextWindow(now, level))
    requires forall id :: id in es ==> es[id].level < LEVELS && now < Event(es[id])
    ensures Searched(es, now, level + 1, Later(soonest, now + 1))
  {
    hide Width, NextWindow, Wrapped, Event;
    var id :| id in es && es[id].level == level && Wrapped(es[id], now);
    assert Mistaken(es, now, id);
  }

  lemma SearchAhead<T>(es: Entries<T>, now: nat, level: nat, soonest: Option<nat>, a: nat)
    requires level < LEVELS && Searched(es, now, level, soonest) && a > 0 && LevelScan(es, now, level, Some(a))
    requires now < NextWindow(now, level) && (soonest.Some? ==> soonest.value > NextWindow(now, level))
    requires forall id :: id in es ==> Placed(es[id], now)
    ensures Searched(es, now, level + 1, Later(soonest, Max((now / Width(level) + a) * Width(level), now + 1)))
  {
    hide Placed, Width, NextWindow, Ahead, Mistaken;
    var first :| first in es && es[first].level == level && Ahead(es[first], now) == a;
    var next := (now / Width(level) + a) * Width(level);
    EventBounds(es[first], now);
    assert Event(es[first]) == next > now;
    hide Event;
    forall id | id in es && es[id].level == level ensures next <= Event(es[id]) && !Wrapped(es[id], now) {
      EventBounds(es[id], now);
      MulMonotone(now / Width(level) + a, now / Width(level) + Ahead(es[id], now), Width(level));
    }
  }

  lemma SearchEnds<T>(es: Entries<T>, now: nat, level: nat, soonest: Option<nat>)
    requires es != map[] && level <= LEVELS && Searched(es, now, level, soonest)
    requires level < LEVELS ==> soonest.Some? && soonest.value <= NextWindow(now, level)
    requires forall id :: id in es ==> Placed(es[id], now)
    ensures soonest.Some? && NextWake(es, now, soonest.value) && soonest.value <= U64_MAX
  {
    hide Placed, Width, Ahead, NextWindow;
    forall id | id in es
      ensures es[id].level < LEVELS && now < Event(es[id]) <= es[id].deadline < now + HORIZON
      ensures Event(es[id]) >= NextWindow(now, es[id].level)
    {
      EventBounds(es[id], now);
    }
    hide Event, Wrapped;
    var some :| some in es;
    forall id | id in es && level <= es[id].level
      ensures level < LEVELS && NextWindow(now, level) <= NextWindow(now, es[id].level)
    {
      NextWindows(now, level, es[id].level);
    }
    var t := soonest.value;
    if !NextEvent(es, t) {
      assert t == now + 1 && exists id :: id in es && Mistaken(es, now, id);
    }
  }
}
