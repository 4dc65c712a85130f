/** How the wheel's buckets, bitmap and entries hang together, and what each
    internal step does to the entries. */
module WheelSteps {
  import opened Words
  import opened WheelLayout
  import opened Firing
  import opened BitScan

  predicate Shaped(b: Buckets) {
    |b| == LEVELS && forall l :: 0 <= l < LEVELS ==> |b[l]| == SLOTS
  }

  function Swap(b: Buckets, l: nat, s: nat, ids: set<nat>): (r: Buckets)
    requires Shaped(b) && l < LEVELS && s < SLOTS
    ensures Shaped(r)
    ensures forall l', s' :: 0 <= l' < LEVELS && 0 <= s' < SLOTS ==>
      r[l'][s'] == if l' == l && s' == s then ids else b[l'][s']
  {
    b[l := b[l][s := ids]]
  }

  /** An id is in a bucket exactly when its entry says so, but for the `loose`
      ones, which are on their way from one bucket to another. */
  ghost predicate Linked<T>(es: Entries<T>, b: Buckets, loose: set<nat>)
    requires Shaped(b)
  {
    forall l, s, id :: 0 <= l < LEVELS && 0 <= s < SLOTS ==>
      (id in b[l][s] <==> id in es && id !in loose && es[id].level == l && es[id].slot == s)
  }

  /** A bucket's bit is set exactly when the bucket holds a timer. */
  ghost predicate Lit(o: Occupied, b: Buckets) {
    && Sized(o) && Shaped(b)
    && forall l, s :: 0 <= l < LEVELS && 0 <= s < SLOTS ==> (SlotBit(o[l], s) <==> b[l][s] != {})
  }

  ghost function View<T>(es: Entries<T>): (timers: Timers<T>)
    ensures timers.Keys == es.Keys
    ensures forall id :: id in es ==> timers[id] == Timer(es[id].deadline, es[id].value)
    decreases es.Keys
  {
    if es == map[] then map[] else
    var id :| id in es;
    View(es - {id})[id := Timer(es[id].deadline, es[id].value)]
  }

  /** The first of `ids` by deadline, and by id among equals. */
  predicate Soonest<T>(es: Entries<T>, ids: set<nat>, first: nat) {
    && first in ids && first in es
    && forall id :: id in ids && id in es && id != first ==>
         es[first].deadline < es[id].deadline || (es[first].deadline == es[id].deadline && first < id)
  }

  lemma SoonestExists<T>(es: Entries<T>, ids: set<nat>)
    requires ids != {} && ids <= es.Keys
    ensures exists id :: Soonest(es, ids, id)
    ensures forall id :: Soonest(es, ids, id) ==> IsFirst(View(es), ids, id)
  {
    hide View;
    FirstExists(View(es), ids);
    var id :| IsFirst(View(es), ids, id);
    assert Soonest(es, ids, id);
  }

  function EntryValues<T>(es: Entries<T>, order: seq<nat>): (r: seq<T>)
    requires forall i :: 0 <= i < |order| ==> order[i] in es
    ensures r == Values(View(es), order)
  {
    seq(|order|, i requires 0 <= i < |order| => es[order[i]].value)
  }

  lemma LinkAdded<T>(es: Entries<T>, b: Buckets, loose: set<nat>, id: nat, l: nat, s: nat)
    requires Shaped(b) && Linked(es, b, loose) && l < LEVELS && s < SLOTS
    requires id in es && id in loose && es[id].level == l && es[id].slot == s
    ensures Linked(es, Swap(b, l, s, b[l][s] + {id}), loose - {id})
  {}

  /** `Carried`, and an entry that moved had its bucket come round, and is not a
      whole turn ahead. */
  ghost predicate Step<T>(e0: Entry<T>, e: Entry<T>, now: nat) {
    Carried(e0, e) && (e != e0 ==> e0.level < LEVELS && Event(e0) <= now && e.level < LEVELS && Ahead(e, now) <= 255)
  }

  function Rebucket<T>(e: Entry<T>, now: nat): Entry<T> {
    var (level, slot) := BucketFor(now, e.deadline);
    Entry(e.deadline, level, slot, e.value)
  }

  ghost function Rebucketed<T>(es: Entries<T>, ids: set<nat>, now: nat): (moved: Entries<T>)
    ensures moved.Keys == es.Keys
    ensures forall id :: id in es ==> moved[id] == if id in ids then Rebucket(es[id], now) else es[id]
    decreases es.Keys
  {
    if es == map[] then map[] else
    var id :| id in es;
    Rebucketed(es - {id}, ids, now)[id := if id in ids then Rebucket(es[id], now) else es[id]]
  }

  function Hung<T>(es: Entries<T>, level: nat, slot: nat): set<nat> {
    set id | id in es && es[id].level == level && es[id].slot == slot
  }

  /** What level `k`'s cascade does to one entry. */
  ghost predicate Cascaded<T>(e: Entry<T>, now: nat, k: nat)
    requires 1 <= k < LEVELS
  {
    var f := if now % Width(k) == 0 && e.level == k && e.slot == SlotFor(now, k) then Rebucket(e, now) else e;
    Underway(f, now, k - 1) && Step(e, f, now)
  }

  lemma CascadeStep<T>(e: Entry<T>, now: nat, k: nat)
    requires 1 <= k < LEVELS && Underway(e, now, k)
    ensures Cascaded(e, now, k)
  {
    SlotBegun(e, now, k);
    if now % Width(k) == 0 && e.level == k && e.slot == SlotFor(now, k) { CascadeDrops(e, now); }
  }

  ghost predicate OnTime<T>(e: Entry<T>, now: nat) {
    if e.level == 0 && e.slot == SlotFor(now, 0) then e.deadline == now else Placed(e, now) && e.deadline > now
  }

  function Remaining<T>(es: Entries<T>, tick: nat): Entries<T> {
    es - set id | id in es && es[id].deadline <= tick
  }

  predicate Ascending(ids: seq<nat>) {
    forall i, j :: 0 <= i < j < |ids| ==> ids[i] < ids[j]
  }

  ghost predicate Survive<T>(before: Entries<T>, after: Entries<T>, now: nat) {
    forall id :: id in after ==> id in before && Step(before[id], after[id], now)
  }

  lemma LinkDropped<T>(es: Entries<T>, b: Buckets, loose: set<nat>, id: nat)
    requires Shaped(b) && Linked(es, b, loose) && id in loose
    ensures Linked(es - {id}, b, loose - {id})
  {}

  lemma SurviveThrough<T>(es0: Entries<T>, es1: Entries<T>, mid: nat, es2: Entries<T>, now: nat)
    requires mid <= now && Survive(es0, es1, mid) && Survive(es1, es2, now)
    ensures Survive(es0, es2, now)
  {}

  lemma FiredNow<T>(es: Entries<T>, now: nat)
    requires forall id :: id in es ==> Placed(es[id], now)
    ensures Fired(View(es), now) == [] && Left(View(es), now) == View(es)
  {}

  lemma Emptied<T>(es: Entries<T>)
    ensures var b, o := seq(LEVELS, _ => seq(SLOTS, _ => {})), seq(LEVELS, _ => seq(WORDS, _ => 0));
      Shaped(b) && Lit(o, b) && Linked(es, b, es.Keys)
  {
    BitsOfZero(WORD_BITS);
    forall s: nat | s < SLOTS ensures !Has(0, s % WORD_BITS) { BitsOfZero(s % WORD_BITS); }
  }

  ghost predicate NoneWrapped<T>(es: Entries<T>, now: nat) {
    forall id :: id in es ==> es[id].level < LEVELS && !Wrapped(es[id], now)
  }

  /** `now` is the next tick at which anything happens to a timer of `es`. */
  ghost predicate NextEvent<T>(es: Entries<T>, now: nat) {
    && (forall id :: id in es ==> es[id].level < LEVELS && Event(es[id]) >= now)
    && exists id :: id in es && Event(es[id]) == now
  }

  /** What advancing from `before` to `now` does to the timers that are left: none
      rises; none moves over a short way before its bucket comes round; and a sleep to
      the next event wraps none. */
  ghost predicate Settle<T>(before: Entries<T>, past: nat, after: Entries<T>, now: nat) {
    && (forall id :: id in after ==> id in before && Carried(before[id], after[id]))
    && (now <= past + LARGE_ADVANCE_TICKS ==>
          forall id :: id in after && after[id] != before[id] ==> before[id].level < LEVELS && Event(before[id]) <= now)
    && (NoneWrapped(before, past) && NextEvent(before, now) ==> NoneWrapped(after, now))
  }

  lemma AheadFalls<T>(e: Entry<T>, past: nat, now: nat)
    requires e.level < LEVELS && past <= now
    ensures Ahead(e, now) <= Ahead(e, past)
  {}

  lemma SettleTicks<T>(before: Entries<T>, past: nat, after: Entries<T>, now: nat)
    requires past <= now && Survive(before, after, now)
    requires forall id :: id in before ==> Placed(before[id], past)
    ensures Settle(before, past, after, now)
  {
    hide Placed, Ahead;
    if NoneWrapped(before, past) {
      forall id | id in after ensures after[id].level < LEVELS && !Wrapped(after[id], now) {
        WrapsFade(before[id], past, after[id], now);
      }
    }
  }

  lemma WrapsFade<T>(e0: Entry<T>, past: nat, e: Entry<T>, now: nat)
    requires past <= now && Placed(e0, past) && Step(e0, e, now) && !Wrapped(e0, past)
    ensures !Wrapped(e, now)
  {
    if e == e0 { AheadFalls(e, past, now); }
  }

  /** What a large advance does to one entry that is not due. */
  ghost predicate Rehung<T>(e0: Entry<T>, past: nat, e: Entry<T>, now: nat) {
    && e0.level < LEVELS
    && Carried(e0, e) && Placed(e, now)
    && (now % 0x1_0000 == 0 && !Wrapped(e0, past) ==> !Wrapped(e, now))
  }

  lemma RehungPlaced<T>(e: Entry<T>, past: nat, now: nat)
    requires Placed(e, past) && past < now < e.deadline
    ensures Rehung(e, past, Rebucket(e, now), now)
  {
    BucketPlaced(e.deadline, now, e.value);
    var f := Rebucket(e, now);
    assert f.level <= e.level;
    if now % 0x1_0000 == 0 {
      if f.level <= 2 { WindowsNest(now, f.level, 2); } else { AheadFalls(e, past, now); }
    }
  }

  /** The next event, when it is more than a level-1 turn away, is the start of a
      level-2 window or a level-3 one. */
  lemma SettleLarge<T>(before: Entries<T>, past: nat, after: Entries<T>, now: nat)
    requires past + LARGE_ADVANCE_TICKS < now
    requires forall id :: id in before ==> Placed(before[id], past)
    requires forall id :: id in after ==> id in before && Rehung(before[id], past, after[id], now)
    ensures Settle(before, past, after, now)
  {
    if NoneWrapped(before, past) && NextEvent(before, now) {
      var id :| id in before && Event(before[id]) == now;
      FarEvent(before[id], past);
    }
  }

  lemma EventAligned<T>(e: Entry<T>)
    requires 2 <= e.level < LEVELS
    ensures Event(e) % 0x1_0000 == 0
  {}

  lemma FarEvent<T>(e: Entry<T>, past: nat)
    requires Placed(e, past) && !Wrapped(e, past) && past + LARGE_ADVANCE_TICKS < Event(e)
    ensures Event(e) % 0x1_0000 == 0
  {
    hide Event;
    EventBounds(e, past);
    assert e.level >= 2;
    EventAligned(e);
  }

  lemma LargeSettled<T>(before: Entries<T>, past: nat, after: Entries<T>, now: nat)
    requires past + LARGE_ADVANCE_TICKS < now
    requires forall id :: id in before ==> Placed(before[id], past)
    requires after == Rebucketed(Remaining(before, now), Remaining(before, now).Keys, now)
    ensures View(after) == Left(View(before), now)
    ensures forall id :: id in after ==> Placed(after[id], now)
    ensures Settle(before, past, after, now)
  {
    hide Placed, Settle, View, Rebucketed;
    forall id | id in after ensures Rehung(before[id], past, after[id], now) {
      RehungPlaced(before[id], past, now);
    }
    SettleLarge(before, past, after, now);
  }
}
