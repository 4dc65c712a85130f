/** The hierarchical timer wheel, proved against the flat map of `Firing`. */
module TimerWheel {
  import opened Machine
  import opened Words
  import opened WheelLayout
  import opened Firing
  import opened BitScan
  import opened WheelSteps
  import opened WheelWake

  datatype TimerError =
    | ClockWentBackwards(currentMs: u64, requestedMs: u64)
    | DeadlineOutOfRange

  class TimerWheel<T> {
    const tickMs: u64
    var currentTick: u64
    var nextId: nat
    var buckets: Buckets
    var occupied: Occupied
    var entries: Entries<T>

    /** The structure between operations; `loose` as in `Linked`. */
    ghost predicate Built(loose: set<nat>)
      reads this
    {
      && tickMs > 0
      && Shaped(buckets) && Lit(occupied, buckets)
      && Linked(entries, buckets, loose)
      && forall id :: id in entries ==> id < nextId
    }

    ghost predicate Valid()
      reads this
    {
      Built({}) && forall id :: id in entries ==> Placed(entries[id], currentTick)
    }

    /** Within a tick: levels 1 to `k` have still to cascade. */
    ghost predicate Cascading(k: nat)
      reads this
    {
      Built({}) && forall id :: id in entries ==> Underway(entries[id], currentTick, k)
    }

    ghost function Timers(): Timers<T>
      reads this
    {
      View(entries)
    }

    constructor (tickMs: u64, nowMs: u64)
      requires tickMs > 0
      ensures Valid() && Timers() == map[] && this.tickMs == tickMs
      ensures currentTick == nowMs / tickMs && nextId == 0
    {
      this.tickMs := tickMs;
      currentTick := nowMs / tickMs;
      nextId := 0;
      buckets := seq(LEVELS, _ => seq(SLOTS, _ => {}));
      occupied := seq(LEVELS, _ => seq(WORDS, _ => 0));
      entries := map[];
      new;
      BitsOfZero(WORD_BITS);
      forall l, s | 0 <= l < LEVELS && 0 <= s < SLOTS ensures !SlotBit(occupied[l], s) {
        BitsOfZero(s % WORD_BITS);
      }
    }

    function NowMs(): u64
      reads this
    {
      SatMul(currentTick, tickMs)
    }

    /** Rounded up to a tick, and never the current one: it fires no earlier. */
    function DeadlineTick(deadlineMs: u64): u64
      requires tickMs > 0
      reads this
    {
      DivCeilBounds(deadlineMs, tickMs);
      Max(DivCeil(deadlineMs, tickMs), SatAdd(currentTick, 1))
    }

    method Schedule(deadlineMs: u64, value: T) returns (r: Result<nat, TimerError>)
      requires Valid()
      modifies this
      ensures Built({}) && currentTick == old(currentTick) && (Valid() <==> currentTick < U64_MAX)
      ensures r.Err? <==> deadlineMs > (currentTick + 0xffff_ffff) * tickMs
      ensures r.Err? ==> r.error == DeadlineOutOfRange && unchanged(this)
      ensures r.Ok? ==> Added(old(entries), old(nextId), r.value, old(DeadlineTick(deadlineMs)), value)
      ensures r.Ok? ==>
        && Timers() == old(Timers())[r.value := Timer(old(DeadlineTick(deadlineMs)), value)]
        && r.value !in old(Timers())
      ensures r.Ok? ==> entries[r.value].deadline * tickMs >= deadlineMs
      ensures r.Ok? ==>
        || (entries[r.value].deadline - 1) * tickMs < deadlineMs
        || entries[r.value].deadline == Min(currentTick + 1, U64_MAX)
      ensures r.Ok? && currentTick * tickMs < U64_MAX ==> (entries[r.value].deadline - 1) * tickMs < U64_MAX
    {
      hide View, Lit, Linked, Placed;
      DivCeilBounds(deadlineMs, tickMs);
      TickBounds(currentTick + HORIZON - 1, deadlineMs, tickMs);
      MulMonotone(DivCeil(deadlineMs, tickMs), DeadlineTick(deadlineMs), tickMs);
      var deadline := DeadlineTick(deadlineMs);
      if deadline - currentTick >= HORIZON {
        return Err(DeadlineOutOfRange);
      }
      var id := Add(deadline, value);
      return Ok(id);
    }

    /** A timer is set for a tick to come, except at the clock's very last tick: there it
        is set for that one, and no clock takes the wheel on to fire it. */
    lemma ScheduledAhead(deadlineMs: u64, nowMs: u64)
      requires tickMs > 0
      ensures DeadlineTick(deadlineMs) > currentTick <==> currentTick < U64_MAX
      ensures currentTick == U64_MAX ==> DeadlineTick(deadlineMs) == currentTick && TargetTick(nowMs) <= currentTick
    {
      DivCeilBounds(deadlineMs, tickMs);
    }

    /** The one entry `id` is new, and the rest as they were. */
    ghost predicate Added(before: Entries<T>, beforeId: nat, id: nat, deadline: u64, value: T)
      reads this
    {
      && id == beforeId && nextId == beforeId + 1 && id !in before
      && entries.Keys == before.Keys + {id}
      && (forall i :: i in before ==> entries[i] == before[i])
      && entries[id].deadline == deadline && entries[id].value == value
      && (entries[id].level, entries[id].slot) == BucketFor(currentTick, deadline)
    }

    method Add(deadline: u64, value: T) returns (id: nat)
      requires Valid()
      requires currentTick <= deadline < currentTick + HORIZON
      modifies this`nextId, this`entries, this`buckets, this`occupied
      ensures Built({}) && (Valid() <==> currentTick < deadline)
      ensures Added(old(entries), old(nextId), id, deadline, value)
    {
      id := nextId;
      nextId := nextId + 1;
      var (level, slot) := BucketFor(currentTick, deadline);
      if currentTick < deadline { BucketPlaced(deadline, currentTick, value); }
      entries := entries[id := Entry(deadline, level, slot, value)];
      assert Linked(entries, buckets, {id});
      LinkAdded(entries, buckets, {id}, id, level, slot);
      InsertInto(level, slot, id);
      assert {id} - {id} == {};
    }

    method Cancel(id: nat) returns (r: Option<T>)
      requires Valid()
      modifies this
      ensures Valid() && currentTick == old(currentTick) && nextId == old(nextId)
      ensures r == if id in old(entries) then Some(old(entries)[id].value) else None
      ensures entries == old(entries) - {id} && Timers() == old(Timers()) - {id}
    {
      if id !in entries {
        return None;
      }
      var entry := entries[id];
      entries := entries - {id};
      RemoveFrom(entry.level, entry.slot, id);
      return Some(entry.value);
    }

    method InsertInto(level: nat, slot: nat, id: nat)
      requires Lit(occupied, buckets) && level < LEVELS && slot < SLOTS
      modifies this`buckets, this`occupied
      ensures Lit(occupied, buckets)
      ensures buckets == Swap(old(buckets), level, slot, old(buckets)[level][slot] + {id})
    {
      SetSlotBits(occupied, level, slot, true);
      buckets := Swap(buckets, level, slot, buckets[level][slot] + {id});
      occupied := SetSlot(occupied, level, slot, true);
    }

    method RemoveFrom(level: nat, slot: nat, id: nat)
      requires Lit(occupied, buckets) && level < LEVELS && slot < SLOTS
      modifies this`buckets, this`occupied
      ensures Lit(occupied, buckets)
      ensures buckets == Swap(old(buckets), level, slot, old(buckets)[level][slot] - {id})
    {
      buckets := Swap(buckets, level, slot, buckets[level][slot] - {id});
      if buckets[level][slot] == {} {
        SetSlotBits(occupied, level, slot, false);
        occupied := SetSlot(occupied, level, slot, false);
      }
    }

    method TakeSlot(level: nat, slot: nat) returns (ids: set<nat>)
      requires Lit(occupied, buckets) && level < LEVELS && slot < SLOTS
      modifies this`buckets, this`occupied
      ensures Lit(occupied, buckets)
      ensures ids == old(buckets)[level][slot]
      ensures buckets == Swap(old(buckets), level, slot, {})
    {
      SetSlotBits(occupied, level, slot, false);
      occupied := SetSlot(occupied, level, slot, false);
      ids := buckets[level][slot];
      buckets := Swap(buckets, level, slot, {});
    }

    method Place(id: nat, deadline: u64)
      requires Lit(occupied, buckets) && (id in entries ==> entries[id].deadline == deadline)
      modifies this`entries, this`buckets, this`occupied
      ensures Lit(occupied, buckets)
      ensures var (level, slot) := BucketFor(currentTick, deadline);
        && buckets == Swap(old(buckets), level, slot, old(buckets)[level][slot] + {id})
        && entries == if id in old(entries)
          then old(entries)[id := Entry(deadline, level, slot, old(entries)[id].value)]
                      else old(entries)
    {
      var (level, slot) := BucketFor(currentTick, deadline);
      if id in entries {
        entries := entries[id := entries[id].(level := level, slot := slot)];
      }
      InsertInto(level, slot, id);
    }

    /** Same timers as `before`, each where it was or lower, none newly a whole
        turn ahead. */
    ghost predicate Lowered(before: Entries<T>)
      reads this
    {
      && entries.Keys == before.Keys
      && forall id :: id in entries ==> Step(before[id], entries[id], currentTick)
    }

    /** Puts each loose timer in the bucket its deadline calls for now. */
    method PlaceAll(loose: set<nat>)
      requires Built(loose) && loose <= entries.Keys
      modifies this`entries, this`buckets, this`occupied
      ensures Built({}) && entries == Rebucketed(old(entries), loose, currentTick)
    {
      hide View, Rebucketed, Lit;
      var ids := loose;
      while ids != {}
        invariant ids <= loose && Built(ids)
        invariant entries == Rebucketed(old(entries), loose - ids, currentTick)
      {
        LeastExists(ids);
        var id :| IsLeast(ids, id);
        ghost var b := buckets;
        Place(id, entries[id].deadline);
        LinkAdded(entries, b, ids, id, entries[id].level, entries[id].slot);
        ids := ids - {id};
      }
      assert loose - ids == loose;
    }

    method ReplaceSlot(level: nat, slot: nat)
      requires Built({}) && level < LEVELS && slot < SLOTS
      modifies this`entries, this`buckets, this`occupied
      ensures Built({}) && entries == Rebucketed(old(entries), Hung(old(entries), level, slot), currentTick)
    {
      var ids := TakeSlot(level, slot);
      assert ids == Hung(entries, level, slot);
      PlaceAll(ids);
    }

    /** Every timer of the window that begins at this tick moves down a level
        or more: after level `k`, the lower ones are left to do. */
    method CascadeLevel(k: nat)
      requires 1 <= k < LEVELS && Cascading(k)
      modifies this`entries, this`buckets, this`occupied
      ensures Cascading(k - 1) && Lowered(old(entries))
    {
      forall id | id in entries ensures Cascaded(entries[id], currentTick, k) {
        CascadeStep(entries[id], currentTick, k);
      }
      if currentTick % Width(k) == 0 {
        ReplaceSlot(k, SlotFor(currentTick, k));
      }
    }

    method CascadeBoundaries()
      requires Cascading(3)
      modifies this`entries, this`buckets, this`occupied
      ensures Cascading(0) && Lowered(old(entries))
    {
      var level := LEVELS - 1;
      while level >= 1
        invariant 0 <= level < LEVELS
        invariant Cascading(level) && Lowered(old(entries))
      {
        CascadeLevel(level);
        level := level - 1;
      }
    }

    /** Takes the due timers out, in the order of their ids. All are due, so
        the branch that would put one back is never taken. */
    method FireAll(due: set<nat>) returns (fired: seq<T>, ghost ids: seq<nat>)
      requires Built(due) && due <= entries.Keys
      requires forall id :: id in due ==> entries[id].deadline == currentTick
      modifies this`entries
      ensures Built({}) && entries == old(entries) - due
      ensures Ascending(ids) && (forall id :: id in ids <==> id in due)
      ensures forall i :: 0 <= i < |ids| ==> ids[i] in old(entries)
      ensures fired == Values(old(Timers()), ids)
    {
      hide Lit, Linked, View;
      var left := due;
      fired, ids := [], [];
      while left != {}
        invariant left <= due && Built(left) && entries == old(entries) - (due - left)
        invariant Ascending(ids) && (forall id :: id in ids <==> id in due - left)
        invariant forall id, l :: id in ids && l in left ==> id < l
        invariant forall i :: 0 <= i < |ids| ==> ids[i] in old(entries)
        invariant fired == Values(old(Timers()), ids)
      {
        LeastExists(left);
        var id :| IsLeast(left, id);
        var entry := entries[id];
        LinkDropped(entries, buckets, left, id);
        entries := entries - {id};
        left := left - {id};
        if entry.deadline <= currentTick {
          assert forall i :: 0 <= i < |ids| ==> ids[i] in ids;
          fired, ids := fired + [entry.value], ids + [id];
        } else {
          assert false;
        }
      }
    }

    method FireSlot() returns (fired: seq<T>)
      requires Cascading(0)
      modifies this`entries, this`buckets, this`occupied
      ensures Valid() && entries == Remaining(old(entries), currentTick)
      ensures fired == Fired(old(Timers()), currentTick)
    {
      hide Lit, Placed, Underway, View;
      forall id | id in entries ensures OnTime(entries[id], currentTick) {
        SlotBegun(entries[id], currentTick, 0);
      }
      var slot := SlotFor(currentTick, 0);
      var due := TakeSlot(0, slot);
      assert due == Hung(entries, 0, slot);
      ghost var ids;
      fired, ids := FireAll(due);
      FiredAt(old(Timers()), currentTick, ids);
    }

    method Tick() returns (fired: seq<T>)
      requires Valid() && currentTick < U64_MAX
      modifies this`currentTick, this`entries, this`buckets, this`occupied
      ensures Valid() && currentTick == old(currentTick) + 1
      ensures Timers() == Left(old(Timers()), currentTick) && fired == Fired(old(Timers()), currentTick)
      ensures Survive(old(entries), entries, currentTick)
    {
      hide Underway, Placed, Lit, Linked, View;
      forall id | id in entries ensures Underway(entries[id], currentTick + 1, 3) {
        TickUnderway(entries[id], currentTick);
      }
      currentTick := currentTick + 1;
      CascadeBoundaries();
      assert Timers() == old(Timers());
      fired := FireSlot();
    }

    /** The tick the clock is in; at the clock's very end, the one that covers it. */
    function TargetTick(nowMs: u64): u64
      requires tickMs > 0
    {
      DivCeilBounds(nowMs, tickMs);
      DivRemainder(nowMs, tickMs);
      if nowMs == U64_MAX then DivCeil(nowMs, tickMs) else nowMs / tickMs
    }

    /** Moving on from tick `from`, a clock at `nowMs` stands in tick `to`; at the clock's
        very end, in the first tick to begin no earlier, if that is not past already. */
    predicate Reaches(from: nat, to: nat, nowMs: u64) {
      if nowMs < U64_MAX then to * tickMs <= nowMs < (to + 1) * tickMs && from <= to
      else nowMs <= to * tickMs && (to == from || (from < to && (to - 1) * tickMs < nowMs))
    }

    lemma TargetReaches(nowMs: u64)
      requires tickMs > 0 && nowMs >= Min(currentTick * tickMs, U64_MAX)
      ensures Reaches(currentTick, Max(currentTick, TargetTick(nowMs)), nowMs)
    {
      TickBounds(currentTick, nowMs, tickMs);
      DivRemainder(nowMs, tickMs);
      DivCeilBounds(nowMs, tickMs);
    }

    method AdvanceTo(nowMs: u64) returns (r: Result<seq<T>, TimerError>)
      requires Valid()
      modifies this`currentTick, this`entries, this`buckets, this`occupied
      ensures Valid()
      ensures r.Err? <==> nowMs < Min(old(currentTick) * tickMs, U64_MAX)
      ensures r.Err? ==>
        && r.error.ClockWentBackwards? && r.error.requestedMs == nowMs
        && r.error.currentMs == Min(old(currentTick) * tickMs, U64_MAX) && unchanged(this)
      ensures r.Ok? ==> Reaches(old(currentTick), currentTick, nowMs)
      ensures r.Ok? ==>
        && currentTick == Max(old(currentTick), TargetTick(nowMs))
        && r.value == Fired(old(Timers()), currentTick)
        && Timers() == Left(old(Timers()), currentTick)
        && Settle(old(entries), old(currentTick), entries, currentTick)
    {
      hide Lit, Linked, Placed, Fired, Left, Reaches;
      if nowMs < NowMs() {
        return Err(ClockWentBackwards(NowMs(), nowMs));
      }
      TargetReaches(nowMs);
      var target := TargetTick(nowMs);
      if SatSub(target, currentTick) > LARGE_ADVANCE_TICKS {
        var fired := LargeAdvance(target);
        return Ok(fired);
      }
      FiredNow(entries, currentTick);
      var fired := [];
      while currentTick < target
        invariant Valid() && old(currentTick) <= currentTick <= Max(old(currentTick), target)
        invariant fired == Fired(old(Timers()), currentTick)
        invariant Timers() == Left(old(Timers()), currentTick)
        invariant Survive(old(entries), entries, currentTick)
      {
        ghost var tick, es := currentTick, entries;
        var more := Tick();
        fired := fired + more;
        FiredThrough(old(Timers()), tick, currentTick);
        SurviveThrough(old(entries), es, tick, entries, currentTick);
      }
      SettleTicks(old(entries), old(currentTick), entries, currentTick);
      return Ok(fired);
    }

    /** Fires what is due, and hangs the rest anew from where the clock jumped to. */
    method LargeAdvance(target: u64) returns (fired: seq<T>)
      requires Valid() && currentTick + LARGE_ADVANCE_TICKS < target
      modifies this`currentTick, this`entries, this`buckets, this`occupied
      ensures Valid() && currentTick == target
      ensures fired == Fired(old(Timers()), target) && Timers() == Left(old(Timers()), target)
      ensures Settle(old(entries), old(currentTick), entries, target)
    {
      hide Lit, Linked, Placed, Settle, Shaped, Sorted, View, Rebucketed;
      currentTick := target;
      var due := set id | id in entries && entries[id].deadline <= target;
      var order := SortDue(due);
      fired := EntryValues(entries, order);
      assert due == Due(old(Timers()), target);
      entries := entries - due;
      Rebuild();
      LargeSettled(old(entries), old(currentTick), entries, target);
    }

    /** Every bucket cleared, and each timer hung from the current tick. */
    method Rebuild()
      requires tickMs > 0 && forall id :: id in entries ==> id < nextId
      modifies this`entries, this`buckets, this`occupied
      ensures Built({}) && entries == Rebucketed(old(entries), old(entries).Keys, currentTick)
    {
      hide Lit, Linked, Shaped;
      Emptied(entries);
      buckets := seq(LEVELS, _ => seq(SLOTS, _ => {}));
      occupied := seq(LEVELS, _ => seq(WORDS, _ => 0));
      PlaceAll(entries.Keys);
    }

    method SortDue(due: set<nat>) returns (order: seq<nat>)
      requires due <= entries.Keys
      ensures order == InOrder(Timers(), due)
      ensures forall i :: 0 <= i < |order| ==> order[i] in entries
    {
      hide View;
      var left := due;
      order := [];
      while left != {}
        invariant left <= due
        invariant Sorted(View(entries), order)
        invariant forall id :: id in order <==> id in due - left
        invariant forall o, l :: o in order && l in left ==> Before(View(entries), o, l)
      {
        SoonestExists(entries, left);
        var id :| Soonest(entries, left, id);
        assert forall i :: 0 <= i < |order| ==> order[i] in order;
        order := order + [id];
        left := left - {id};
      }
      OrderUnique(View(entries), order, InOrder(Timers(), due));
    }

    /** The tick of the answer is `tick`, saturated in milliseconds. */
    method NextDeadlineMs() returns (r: Option<u64>, ghost tick: nat)
      requires Valid()
      ensures r.None? <==> entries == map[]
      ensures r.Some? ==> tick <= U64_MAX && r.value == SatMul(tick, tickMs) && NextWake(entries, currentTick, tick)
    {
      hide Linked, Placed, NextWake, LevelScan, Searched, ShiftLeft, NextWindow, Width;
      tick := 0;
      if entries == map[] {
        return None, 0;
      }
      var soonest: Option<nat> := None;
      SearchBegins(entries, currentTick);
      var level := 0;
      while level < LEVELS
        invariant 0 <= level <= LEVELS
        invariant Searched(entries, currentTick, level, soonest)
      {
        DivRemainder(currentTick, Width(level));
        var window := currentTick / Width(level);
        ShiftedWindow(entries, currentTick, level);
        if soonest.Some? && soonest.value <= ShiftLeft(SatAdd(window, 1), level) {
          break;
        }
        var ahead := FirstOccupied(occupied[level], SlotFor(currentTick, level));
        ScanMeaning(entries, buckets, occupied, currentTick, level, ahead);
        SearchLevel(entries, currentTick, level, soonest, ahead);
        if ahead.Some? {
          ShiftedBucket(entries, currentTick, level, ahead.value);
          var next := Max(ShiftLeft(SatAdd(window, ahead.value), level), currentTick + 1);
          soonest := Later(soonest, next);
        }
        level := level + 1;
      }
      SearchEnds(entries, currentTick, level, soonest);
      tick := soonest.value;
      return Some(SatMul(soonest.value, tickMs)), tick;
    }
  }
}
