/** The generational handle table, as a map from handles to values: what removal
    does to a handle, and when the generations come round to it again. */
module Handles {
  import opened Machine
  import opened Words

  const GENERATIONS: nat := 0x7fff_ffff
  const SLOT_LIMIT: nat := 0x1_0000_0000
  const TAG_BIT: nat := 0x8000_0000_0000_0000
  /** More slots than any vector holds. */
  const CAPACITY: nat := 0x4000_0000_0000_0000

  datatype Slot<T> = Slot(generation: nat, value: Option<T>)

  /** The bits of either. */
  function Or(a: nat, b: nat): (r: nat)
    ensures b == 0 ==> r == a
    decreases a + b
  {
    if a == 0 then b else if b == 0 then a else 2 * Or(a / 2, b / 2) + Max(a % 2, b % 2)
  }

  lemma {:induction false} OrBits(a: nat, b: nat, i: nat)
    ensures Has(Or(a, b), i) <==> Has(a, i) || Has(b, i)
    decreases i
  {
    if a == 0 || b == 0 {
      BitsOfZero(i);
    } else {
      assert Or(a, b) / 2 == Or(a / 2, b / 2) && Or(a, b) % 2 == Max(a % 2, b % 2);
      if i > 0 { OrBits(a / 2, b / 2, i - 1); }
    }
  }

  /** The tag in the top bit, the generation in the next 31, and the slot, from one, in
      the low 32: a slot whose number takes more runs into the generation. */
  function HandleFor(index: nat, generation: nat, tag: nat): nat {
    Or(generation, (index + 1) / SLOT_LIMIT) * SLOT_LIMIT + (index + 1) % SLOT_LIMIT + tag
  }

  predicate IsTag(tag: nat) {
    tag == 0 || tag == TAG_BIT
  }

  function Split(handle: u64, tag: nat): Option<(nat, nat)> {
    if handle / TAG_BIT * TAG_BIT != tag then None else
    var index, generation := handle % SLOT_LIMIT, handle / SLOT_LIMIT % (GENERATIONS + 1);
    if index == 0 || generation == 0 then None else Some((index - 1, generation))
  }

  /** The bits of a handle. */
  lemma HandleIs(index: nat, generation: nat, tag: nat)
    requires index < 0xffff_ffff && generation <= 0x7fff_ffff
    ensures HandleFor(index, generation, tag) == tag + generation * 0x1_0000_0000 + index + 1
    ensures IsTag(tag) <==> tag == 0 || tag == 0x8000_0000_0000_0000
  {}

  /** A handle decodes to its slot and generation in tables of its tag, and to
      nothing in the others; none is zero. */
  lemma HandleSplits(index: nat, generation: nat, tag: nat, other: nat)
    requires index + 1 < SLOT_LIMIT && 1 <= generation <= GENERATIONS && IsTag(tag) && IsTag(other)
    ensures 0 < HandleFor(index, generation, tag) < U64_LIMIT
    ensures Split(HandleFor(index, generation, tag), other) == if other == tag then Some((index, generation)) else None
  {}

  lemma HandleFits(index: nat, generation: nat, tag: nat)
    requires index < CAPACITY && generation <= GENERATIONS && IsTag(tag)
    ensures HandleFor(index, generation, tag) < U64_LIMIT
  {
    assert Power(31) == GENERATIONS + 1 by {
      assert Power(8) == 0x100 && Power(16) == 0x1_0000 && Power(24) == 0x100_0000;
    }
    OrFits(generation, (index + 1) / SLOT_LIMIT, GENERATIONS + 1, 31);
  }

  /** And is the only handle that does. */
  lemma SplitIsHandle(handle: u64, tag: nat)
    requires IsTag(tag) && Split(handle, tag).Some?
    ensures var (index, generation) := Split(handle, tag).value;
      && index + 1 < SLOT_LIMIT && 1 <= generation <= GENERATIONS && HandleFor(index, generation, tag) == handle
  {}

  lemma {:induction false} OrFits(a: nat, b: nat, bound: nat, bits: nat)
    requires a < bound && b < bound && bound == Power(bits)
    ensures Or(a, b) < bound
    decreases bits
  {
    if a != 0 && b != 0 { OrFits(a / 2, b / 2, bound / 2, bits - 1); }
  }

  function Power(bits: nat): nat {
    if bits == 0 then 1 else 2 * Power(bits - 1)
  }

  /** The generation after `removals` removals of the slot. */
  function GenerationAfter(removals: nat): nat {
    1 + removals % GENERATIONS
  }

  /** One on, in 31 bits, and never zero. */
  function NextGeneration(generation: nat): nat {
    Max((generation + 1) % (GENERATIONS + 1), 1)
  }

  lemma GenerationSteps(removals: nat)
    ensures NextGeneration(GenerationAfter(removals)) == GenerationAfter(removals + 1) != GenerationAfter(removals)
  {}

  class Table<T> {
    var slots: seq<Slot<T>>
    var free: seq<nat>
    const tag: nat
    /** How often each slot's value was removed. */
    ghost var removals: seq<nat>

    ghost predicate Valid()
      reads this
    {
      && IsTag(tag) && |slots| <= CAPACITY && |removals| == |slots|
      && (forall i :: 0 <= i < |slots| ==> slots[i].generation == GenerationAfter(removals[i]))
      && (forall i :: 0 <= i < |free| ==> free[i] < |slots| && slots[free[i]].value.None?)
      && (forall i, j :: 0 <= i < j < |free| ==> free[i] != free[j])
      && (forall i :: 0 <= i < |slots| && slots[i].value.None? ==> i in free)
    }

    /** The value a handle names, if any. */
    function Resolve(handle: u64): Option<T>
      reads this
    {
      var at := Split(handle, tag);
      if at.Some? && at.value.0 < |slots| &&
        slots[at.value.0].generation == at.value.1 then slots[at.value.0].value else None
    }

    constructor (tag: nat)
      requires IsTag(tag)
      ensures Valid() && this.tag == tag && slots == [] && forall h: u64 :: Resolve(h) == None
    {
      this.tag := tag;
      slots, free, removals := [], [], [];
    }

    /** The slot the next insertion takes. */
    function NextIndex(): nat
      reads this
    {
      if free != [] then free[|free| - 1] else |slots|
    }

    /** The new handle names the value, and every other what it did, exactly while the
        slot's number fits 32 bits; past that, no handle names the value at all. */
    method Insert(value: T) returns (handle: u64)
      requires Valid() && (free != [] || |slots| < CAPACITY)
      modifies this
      ensures Valid() && old(removals) <= removals
      ensures |slots| == |old(slots)| + if old(free) == [] then 1 else 0
      ensures old(NextIndex()) + 1 < SLOT_LIMIT ==>
        && handle != 0 && old(Resolve(handle)) == None && Resolve(handle) == Some(value)
        && forall h: u64 :: h != handle ==> Resolve(h) == old(Resolve(h))
      ensures old(NextIndex()) + 1 >= SLOT_LIMIT ==> forall h: u64 :: Resolve(h) == old(Resolve(h))
    {
      hide HandleFor, Split;
      var index;
      if free != [] {
        index := free[|free| - 1];
        free := free[..|free| - 1];
      } else {
        slots := slots + [Slot(1, None)];
        removals := removals + [0];
        index := |slots| - 1;
      }
      HandleFits(index, slots[index].generation, tag);
      if index + 1 < SLOT_LIMIT { HandleSplits(index, slots[index].generation, tag, tag); }
      handle := HandleFor(index, slots[index].generation, tag);
      slots := slots[index := slots[index].(value := Some(value))];
      forall h: u64 | h != handle || index + 1 >= SLOT_LIMIT ensures Resolve(h) == old(Resolve(h)) {
        if Split(h, tag).Some? { SplitIsHandle(h, tag); }
      }
    }

    method Get(handle: u64) returns (r: Option<T>)
      requires Valid()
      ensures r == Resolve(handle)
    {
      var at := Split(handle, tag);
      if at.None? || at.value.0 >= |slots| {
        return None;
      }
      var slot := slots[at.value.0];
      return if slot.generation == at.value.1 then slot.value else None;
    }

    method Remove(handle: u64) returns (r: Option<T>)
      requires Valid()
      modifies this
      ensures Valid() && r == old(Resolve(handle)) && Resolve(handle) == None
      ensures forall h: u64 :: h != handle ==> Resolve(h) == old(Resolve(h))
      ensures r.Some? ==>
        var i := Split(handle, tag).value.0; i < |old(removals)| && removals == old(removals)[i := old(removals)[i] + 1]
      ensures r.None? ==> unchanged(this)
    {
      hide HandleFor, Split, NextGeneration;
      var at := Split(handle, tag);
      if at.None? {
        return None;
      }
      var (index, generation) := at.value;
      if index >= |slots| || slots[index].generation != generation || slots[index].value.None? {
        return None;
      }
      r := slots[index].value;
      GenerationSteps(removals[index]);
      slots := slots[index := Slot(NextGeneration(slots[index].generation), None)];
      removals := removals[index := removals[index] + 1];
      free := free + [index];
      forall h: u64 | h != handle ensures Resolve(h) == old(Resolve(h)) {
        if Split(h, tag).Some? { SplitIsHandle(h, tag); SplitIsHandle(handle, tag); }
      }
    }

    /** A handle given when its slot had seen `given` removals names the slot's value
        exactly when that slot has one and has since seen a multiple of 2^31 - 1
        more: from its own removal on, it names nothing until the last of them. */
    lemma NamesUntilWrap(index: nat, given: nat)
      requires Valid() && index < |slots| && index + 1 < SLOT_LIMIT && given <= removals[index]
      ensures var h := HandleFor(index, GenerationAfter(given), tag);
        && h < U64_LIMIT
        && (Resolve(h).Some? <==> slots[index].value.Some? && (removals[index] - given) % 0x7fff_ffff == 0)
        && (given < removals[index] < given + 0x7fff_ffff ==> Resolve(h) == None)
    {
      HandleSplits(index, GenerationAfter(given), tag, tag);
    }
  }
}
