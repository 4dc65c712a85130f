/** Where a timer waits: levels, windows and slots of the wheel, and the pure
    facts about them that the wheel's methods rest on. */
module WheelLayout {
  import opened Machine

  const LEVELS: nat := 4
  const SLOTS: nat := 256
  const HORIZON: int := 0x1_0000_0000
  const LARGE_ADVANCE_TICKS: int := 65_536

  datatype Entry<T> = Entry(deadline: u64, level: nat, slot: nat, value: T)

  type Entries<T> = map<nat, Entry<T>>
  type Buckets = seq<seq<set<nat>>>

  /** Ticks to a window of `level`: `1 << 8 * level`. */
  function Width(level: nat): (w: nat)
    requires level < LEVELS
    ensures w > 0
  {
    if level == 0 then 1 else if level == 1 then 0x100 else if level == 2 then 0x1_0000 else 0x100_0000
  }

  function SlotFor(tick: nat, level: nat): nat
    requires level < LEVELS
  {
    tick / Width(level) % SLOTS
  }

  function LevelFor(delta: nat): nat {
    if delta <= 255 then 0 else if delta <= 65_535 then 1 else if delta <= 16_777_215 then 2 else 3
  }

  function BucketFor(current: nat, deadline: nat): (nat, nat) {
    var level := LevelFor(Max(deadline - current, 0));
    (level, SlotFor(deadline, level))
  }

  /** How many windows of its level lie from `now`'s to the entry's. */
  function Ahead<T>(e: Entry<T>, now: nat): int
    requires e.level < LEVELS
  {
    e.deadline / Width(e.level) - now / Width(e.level)
  }

  /** When the entry's bucket comes round: it fires, or moves a level down. */
  function Event<T>(e: Entry<T>): nat
    requires e.level < LEVELS
  {
    e.deadline / Width(e.level) * Width(e.level)
  }

  function NextWindow(now: nat, level: nat): nat
    requires level < LEVELS
  {
    (now / Width(level) + 1) * Width(level)
  }

  /** The entry shares the current slot of its level, a whole turn ahead. */
  predicate Wrapped<T>(e: Entry<T>, now: nat)
    requires e.level < LEVELS
  {
    Ahead(e, now) == SLOTS
  }

  /** Within the window levels that still have to cascade at tick `now`. */
  predicate Pending(now: nat, level: nat, k: nat)
    requires level < LEVELS
  {
    level <= k && now % Width(level) == 0
  }

  /** Where an entry may wait at tick `now` while levels 1 to `k` have still to
      cascade, and the slot of level 0 has still to fire. */
  predicate Underway<T>(e: Entry<T>, now: nat, k: nat) {
    && e.level < LEVELS
    && e.slot == SlotFor(e.deadline, e.level)
    && now <= e.deadline < now + SLOTS * Width(e.level)
    && (if Pending(now, e.level, k) then 0 <= Ahead(e, now) <= 255 else 1 <= Ahead(e, now) <= 256)
  }

  /** Where an entry waits between operations: level 0 is due in 1 to 255
      ticks, a higher level is 1 to 256 windows ahead. */
  predicate Placed<T>(e: Entry<T>, now: nat) {
    && e.level < LEVELS
    && e.slot == SlotFor(e.deadline, e.level)
    && now < e.deadline < now + SLOTS * Width(e.level)
    && 1 <= Ahead(e, now) <= (if e.level == 0 then 255 else 256)
  }

  /** `e` is what `e0` became: the same timer, where it was or at a lower level. */
  ghost predicate Carried<T>(e0: Entry<T>, e: Entry<T>) {
    && e.deadline == e0.deadline && e.value == e0.value
    && e.level <= e0.level
    && (e.level == e0.level ==> e == e0)
  }

  // ----- single entries -----

  lemma EventBounds<T>(e: Entry<T>, now: nat)
    requires Placed(e, now)
    ensures e.level < LEVELS
    ensures now < Event(e) <= e.deadline < now + HORIZON
    ensures Event(e) >= NextWindow(now, e.level)
    ensures e.level == 0 ==> Event(e) == e.deadline
    ensures Event(e) == (now / Width(e.level) + Ahead(e, now)) * Width(e.level)
  {}

  lemma NextWindows(now: nat, low: nat, high: nat)
    requires low <= high < LEVELS
    ensures now < NextWindow(now, low) <= NextWindow(now, high)
  {
    if low < high {
      NextWindows(now, low, high - 1);
      assert now / Width(high) == now / Width(high - 1) / SLOTS;
    }
  }

  /** A new placement is in its level's range, and never wrapped unless `now`
      is inside a window. */
  lemma BucketPlaced<T>(deadline: u64, now: nat, value: T)
    requires now < deadline < now + HORIZON
    ensures var (level, slot) := BucketFor(now, deadline);
      var e := Entry(deadline, level, slot, value);
      Placed(e, now) && (now % Width(level) == 0 ==> !Wrapped(e, now))
  {}

  /** One tick on, every entry is where the cascade expects it. */
  lemma TickUnderway<T>(e: Entry<T>, now: nat)
    requires Placed(e, now)
    ensures Underway(e, now + 1, 3)
    ensures Ahead(e, now + 1) <= Ahead(e, now)
    ensures Event(e) <= now + 1 ==> Ahead(e, now + 1) == 0
  {}

  /** In a cascading level, the current slot holds exactly the entries whose
      window has begun; and the rest need no more from this level. */
  lemma SlotBegun<T>(e: Entry<T>, now: nat, k: nat)
    requires k < LEVELS && Underway(e, now, k)
    ensures e.level == k && now % Width(k) == 0 ==> (e.slot == SlotFor(now, k) <==> Event(e) <= now)
    ensures k >= 1 && !(e.level == k && now % Width(k) == 0 && e.slot == SlotFor(now, k)) ==> Underway(e, now, k - 1)
    ensures k == 0 && !(e.level == 0 && e.slot == SlotFor(now, 0)) ==> Placed(e, now)
    ensures k == 0 && e.level == 0 && e.slot == SlotFor(now, 0) ==> e.deadline == now
    ensures k == 0 && e.deadline == now ==> e.level == 0 && e.slot == SlotFor(now, 0)
  {}

  lemma WindowsNest(now: nat, low: nat, high: nat)
    requires low <= high < LEVELS && now % Width(high) == 0
    ensures now % Width(low) == 0
  {
    if high == 3 { WindowsOf3(now); }
    if high >= 2 && low <= 1 { WindowsOf2(now); }
  }

  lemma WindowsOf3(now: nat)
    requires now % 0x100_0000 == 0
    ensures now % 0x1_0000 == 0
  {
    ModShift(0, now / 0x100_0000 * 0x100, 0x1_0000);
  }

  lemma WindowsOf2(now: nat)
    requires now % 0x1_0000 == 0
    ensures now % 0x100 == 0
  {
    ModShift(0, now / 0x1_0000 * 0x100, 0x100);
  }

  /** An entry whose window has begun drops to a strictly lower level. */
  lemma CascadeDrops<T>(e: Entry<T>, now: nat)
    requires 1 <= e.level && Underway(e, now, e.level)
    requires now % Width(e.level) == 0 && e.slot == SlotFor(now, e.level)
    ensures var (level, slot) := BucketFor(now, e.deadline);
      var f := Entry(e.deadline, level, slot, e.value);
      && level < e.level && Underway(f, now, e.level - 1) && !Wrapped(f, now)
      && (level >= 1 ==> Event(f) > now)
  {
    SlotBegun(e, now, e.level);
    var (level, slot) := BucketFor(now, e.deadline);
    assert level < e.level by { assert e.deadline - now < Width(e.level); }
    WindowsNest(now, level, e.level);
    if e.deadline > now {
      var f := Entry(e.deadline, level, slot, e.value);
      BucketPlaced(e.deadline, now, e.value);
      EventBounds(f, now);
    }
  }
}
