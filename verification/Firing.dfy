/** What a timer wheel promises, told of a flat map from timer to deadline:
    which timers fire by a tick, and in what order. */
module Firing {

  datatype Timer<T> = Timer(deadline: nat, value: T)

  type Timers<T> = map<nat, Timer<T>>

  /** By deadline, then by id. */
  predicate Before<T>(timers: Timers<T>, a: nat, b: nat)
    requires a in timers && b in timers
  {
    timers[a].deadline < timers[b].deadline || (timers[a].deadline == timers[b].deadline && a < b)
  }

  predicate Sorted<T>(timers: Timers<T>, order: seq<nat>) {
    && (forall i :: 0 <= i < |order| ==> order[i] in timers)
    && (forall i, j :: 0 <= i < j < |order| ==> Before(timers, order[i], order[j]))
  }

  function Due<T>(timers: Timers<T>, tick: nat): set<nat> {
    set id | id in timers && timers[id].deadline <= tick
  }

  /** The timers left once `tick` has passed. */
  function Left<T>(timers: Timers<T>, tick: nat): Timers<T> {
    timers - Due(timers, tick)
  }

  predicate IsFirst<T>(timers: Timers<T>, ids: set<nat>, first: nat) {
    && first in ids && first in timers
    && forall id :: id in ids && id in timers && id != first ==> Before(timers, first, id)
  }

  lemma {:induction false} FirstExists<T>(timers: Timers<T>, ids: set<nat>)
    requires ids != {} && ids <= timers.Keys
    ensures exists first :: IsFirst(timers, ids, first)
    decreases |ids|
  {
    var one :| one in ids;
    if ids == {one} {
      assert IsFirst(timers, ids, one);
    } else {
      FirstExists(timers, ids - {one});
      var other :| IsFirst(timers, ids - {one}, other);
      assert IsFirst(timers, ids, if Before(timers, other, one) then other else one);
    }
  }

  /** `ids` sorted by deadline and id. */
  ghost function InOrder<T>(timers: Timers<T>, ids: set<nat>): (order: seq<nat>)
    requires ids <= timers.Keys
    ensures Sorted(timers, order)
    ensures forall id :: id in order <==> id in ids
    decreases |ids|
  {
    if ids == {} then [] else
    FirstExists(timers, ids);
    var first :| IsFirst(timers, ids, first);
    var rest := InOrder(timers, ids - {first});
    assert forall i :: 0 <= i < |rest| ==> rest[i] in rest;
    [first] + rest
  }

  ghost function DueInOrder<T>(timers: Timers<T>, tick: nat): seq<nat> {
    InOrder(timers, Due(timers, tick))
  }

  function Values<T>(timers: Timers<T>, order: seq<nat>): seq<T>
    requires forall i :: 0 <= i < |order| ==> order[i] in timers
  {
    seq(|order|, i requires 0 <= i < |order| => timers[order[i]].value)
  }

  /** The values fired by `tick`, in the order they fire. */
  ghost function Fired<T>(timers: Timers<T>, tick: nat): seq<T> {
    Values(timers, DueInOrder(timers, tick))
  }

  /** There is one way to sort a set of timers. */
  lemma {:induction false} OrderUnique<T>(timers: Timers<T>, a: seq<nat>, b: seq<nat>)
    requires Sorted(timers, a) && Sorted(timers, b)
    requires forall id :: id in a <==> id in b
    ensures a == b
  {
    assert a != [] ==> a[0] in b;
    assert b != [] ==> b[0] in a;
    if a != [] {
      assert a[0] in b && b[0] in a;
      assert a[0] == b[0];
      forall id ensures id in a[1..] <==> id in b[1..] {
        if id in a[1..] { assert id in a && id != a[0]; }
        if id in b[1..] { assert id in b && id != b[0]; }
      }
      OrderUnique(timers, a[1..], b[1..]);
      assert a == [a[0]] + a[1..] && b == [b[0]] + b[1..];
    }
  }

  /** Firing to `mid` and then what is left to `tick` is firing to `tick`. */
  lemma FiredThrough<T>(timers: Timers<T>, mid: nat, tick: nat)
    requires mid <= tick
    ensures Fired(timers, tick) == Fired(timers, mid) + Fired(Left(timers, mid), tick)
    ensures Left(Left(timers, mid), tick) == Left(timers, tick)
  {
    hide InOrder;
    var rest := Left(timers, mid);
    var early, late, all := DueInOrder(timers, mid), DueInOrder(rest, tick), DueInOrder(timers, tick);
    OrderThrough(timers, mid, tick);
    assert Values(timers, all) == Values(timers, early) + Values(timers, late);
    assert Values(timers, late) == Values(rest, late);
  }

  lemma OrderThrough<T>(timers: Timers<T>, mid: nat, tick: nat)
    requires mid <= tick
    ensures DueInOrder(timers, tick) == DueInOrder(timers, mid) + DueInOrder(Left(timers, mid), tick)
  {
    var early, late := DueInOrder(timers, mid), DueInOrder(Left(timers, mid), tick);
    var both := early + late;
    forall i | 0 <= i < |early| ensures early[i] in timers && timers[early[i]].deadline <= mid {
      assert early[i] in early;
    }
    forall i | 0 <= i < |late| ensures late[i] in timers && timers[late[i]].deadline > mid {
      assert late[i] in late;
    }
    forall i, j | 0 <= i < j < |both|
      ensures both[i] in timers && both[j] in timers && Before(timers, both[i], both[j])
    {
      if j < |early| {
        assert Before(timers, early[i], early[j]);
      } else if i >= |early| {
        assert Before(Left(timers, mid), late[i - |early|], late[j - |early|]);
      }
    }
    forall id ensures id in both <==> id in Due(timers, tick) {
      assert id in both <==> id in early || id in late;
    }
    OrderUnique(timers, both, DueInOrder(timers, tick));
  }

  /** The timers of one tick fire in the order of their ids. */
  lemma FiredAt<T>(timers: Timers<T>, tick: nat, ids: seq<nat>)
    requires forall id :: id in timers ==> timers[id].deadline >= tick
    requires forall id :: id in ids <==> id in timers && timers[id].deadline == tick
    requires forall i, j :: 0 <= i < j < |ids| ==> ids[i] < ids[j]
    ensures Sorted(timers, ids) && Fired(timers, tick) == Values(timers, ids)
  {
    assert forall i :: 0 <= i < |ids| ==> ids[i] in ids;
    OrderUnique(timers, ids, DueInOrder(timers, tick));
  }
}
