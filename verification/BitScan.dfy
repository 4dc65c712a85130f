/** The occupancy bitmap of a level, and the scan for its next occupied slot. */
module BitScan {
  import opened Machine
  import opened Words
  import opened WheelLayout

  const WORDS: nat := 4
  const WORD_BITS: nat := 64

  type Occupied = seq<seq<nat>>

  predicate Sized(o: Occupied) {
    && |o| == LEVELS
    && (forall l :: 0 <= l < LEVELS ==> |o[l]| == WORDS)
    && (forall l, w :: 0 <= l < LEVELS && 0 <= w < WORDS ==> Fits(o[l][w], WORD_BITS))
  }

  predicate SlotBit(words: seq<nat>, s: nat)
    requires |words| == WORDS && s < SLOTS
  {
    Has(words[s / WORD_BITS], s % WORD_BITS)
  }

  function SetSlot(o: Occupied, l: nat, s: nat, on: bool): Occupied
    requires Sized(o) && l < LEVELS && s < SLOTS
  {
    var w, b := s / WORD_BITS, s % WORD_BITS;
    var word: nat := if on then With(o[l][w], b) else Without(o[l][w], b);
    var words: seq<nat> := o[l][w := word];
    o[l := words]
  }

  lemma SetSlotBits(o: Occupied, l: nat, s: nat, on: bool)
    requires Sized(o) && l < LEVELS && s < SLOTS
    ensures Sized(SetSlot(o, l, s, on))
    ensures forall l', s' :: 0 <= l' < LEVELS && 0 <= s' < SLOTS ==>
      (SlotBit(SetSlot(o, l, s, on)[l'], s') <==> if l' == l && s' == s then on else SlotBit(o[l'], s'))
  {
    UpdatedFits(o[l][s / WORD_BITS], s % WORD_BITS, WORD_BITS);
    forall s' | 0 <= s' < SLOTS
      ensures SlotBit(SetSlot(o, l, s, on)[l], s') <==> if s' == s then on else SlotBit(o[l], s')
    {
      UpdatedBit(o[l][s / WORD_BITS], s % WORD_BITS, s' % WORD_BITS);
    }
  }

  /** Word by word, the answer a slot-by-slot circular search would give. */
  method FirstOccupied(words: seq<nat>, start: nat) returns (r: Option<nat>)
    requires |words| == WORDS && start < SLOTS
    requires forall w :: 0 <= w < WORDS ==> Fits(words[w], WORD_BITS)
    ensures FirstBit(words, start, r)
  {
    var i := 0;
    // One word more than there are: the round ends with the bits below `start`.
    while i < WORDS + 1
      invariant 0 <= i <= WORDS + 1
      invariant ClearTo(words, start, i * WORD_BITS - start % WORD_BITS)
    {
      var word := (start / WORD_BITS + i) % WORDS;
      var hits := if i == 0 then From(words[word], start % WORD_BITS) else words[word];
      if hits != 0 {
        WordHit(words, start, i);
        OffsetSlot(start, i, TrailingZeros(hits));
        var slot := word * WORD_BITS + TrailingZeros(hits);
        return Some((slot + SLOTS - start) % SLOTS);
      }
      WordClear(words, start, i);
      i := i + 1;
    }
    return None;
  }

  predicate BitAhead(words: seq<nat>, start: nat, a: nat)
    requires |words| == WORDS
  {
    SlotBit(words, (start + a) % SLOTS)
  }

  predicate ClearTo(words: seq<nat>, start: nat, n: int)
    requires |words| == WORDS
  {
    forall a: nat :: a < n && a < SLOTS ==> !BitAhead(words, start, a)
  }

  /** The naive circular search. */
  predicate FirstBit(words: seq<nat>, start: nat, r: Option<nat>)
    requires |words| == WORDS
  {
    match r
    case None => ClearTo(words, start, SLOTS)
    case Some(a) => a < SLOTS && BitAhead(words, start, a) && ClearTo(words, start, a)
  }

  /** The bits the scan looks at in its `i`th word are those of the slots from
      offset `i * 64 - start % 64` on. */
  ghost predicate Aligned(words: seq<nat>, start: nat, i: nat, hits: nat)
    requires |words| == WORDS
  {
    var base := i * WORD_BITS - start % WORD_BITS;
    forall a: nat :: base <= a < base + WORD_BITS ==> BitAhead(words, start, a) == Has(hits, a - base)
  }

  function Hits(words: seq<nat>, start: nat, i: nat): nat
    requires |words| == WORDS
  {
    var word := words[(start / WORD_BITS + i) % WORDS];
    if i == 0 then From(word, start % WORD_BITS) else word
  }

  lemma WordAligned(words: seq<nat>, start: nat, i: nat)
    requires |words| == WORDS && start < SLOTS && i <= WORDS
    ensures Aligned(words, start, i, Hits(words, start, i))
  {
    hide Has, SlotFor;
    var base := i * WORD_BITS - start % WORD_BITS;
    forall a: nat | base <= a < base + WORD_BITS
      ensures BitAhead(words, start, a) == Has(Hits(words, start, i), a - base)
    {
      OffsetSlot(start, i, a - base);
      UpdatedBit(words[(start / WORD_BITS + i) % WORDS], start % WORD_BITS, a - base);
    }
  }

  lemma WordClear(words: seq<nat>, start: nat, i: nat)
    requires |words| == WORDS && start < SLOTS && i <= WORDS && Hits(words, start, i) == 0
    requires ClearTo(words, start, i * WORD_BITS - start % WORD_BITS)
    ensures ClearTo(words, start, (i + 1) * WORD_BITS - start % WORD_BITS)
  {
    WordAligned(words, start, i);
    hide Has, BitAhead, Hits;
    var base := i * WORD_BITS - start % WORD_BITS;
    forall a: nat | a < base + WORD_BITS && a < SLOTS ensures !BitAhead(words, start, a) {
      if a >= base { BitsOfZero(a - base); }
    }
  }

  /** The start word comes round a second time only once its upper bits were
      found clear, so what is hit then is below `start`. */
  lemma SecondRound(words: seq<nat>, start: nat, i: nat, b: nat)
    requires |words| == WORDS && start < SLOTS && i <= WORDS && b < WORD_BITS
    requires i == 0 ==> b >= start % WORD_BITS
    requires Has(Hits(words, start, i), b)
    requires ClearTo(words, start, i * WORD_BITS - start % WORD_BITS)
    ensures 0 <= i * WORD_BITS - start % WORD_BITS + b < SLOTS
  {
    hide Has, BitAhead, From;
    var p := start % WORD_BITS;
    assert i == WORDS ==> (start / WORD_BITS + i) % WORDS == (start / WORD_BITS + 0) % WORDS;
    UpdatedBit(words[(start / WORD_BITS) % WORDS], p, b);
    if b >= p {
      WordAligned(words, start, 0);
      assert BitAhead(words, start, b - p) == Has(Hits(words, start, 0), b);
    }
  }

  /** The lowest bit hit is the first occupied slot from `start` on. */
  lemma WordHit(words: seq<nat>, start: nat, i: nat)
    requires |words| == WORDS && start < SLOTS && i <= WORDS && Hits(words, start, i) != 0
    requires forall w :: 0 <= w < WORDS ==> Fits(words[w], WORD_BITS)
    requires ClearTo(words, start, i * WORD_BITS - start % WORD_BITS)
    ensures var b := TrailingZeros(Hits(words, start, i));
      var a := i * WORD_BITS - start % WORD_BITS + b;
      b < WORD_BITS && a >= 0 && FirstBit(words, start, Some(a))
  {
    var hits := Hits(words, start, i);
    var b := TrailingZeros(hits);
    hide Has, BitAhead, TrailingZeros, Fits, From;
    UpdatedFits(words[(start / WORD_BITS + i) % WORDS], start % WORD_BITS, WORD_BITS);
    LowestBit(hits, WORD_BITS);
    UpdatedBit(words[(start / WORD_BITS + i) % WORDS], start % WORD_BITS, b);
    SecondRound(words, start, i, b);
    WordAligned(words, start, i);
    hide Hits;
    var base := i * WORD_BITS - start % WORD_BITS;
    forall a: nat | a < base + b ensures !BitAhead(words, start, a) {
      if a >= base { assert !Has(hits, a - base); }
    }
  }

  lemma OffsetSlot(start: nat, i: nat, c: nat)
    requires start < SLOTS && i <= WORDS && c < WORD_BITS && i * WORD_BITS - start % WORD_BITS + c >= 0
    ensures var s := (start + (i * WORD_BITS - start % WORD_BITS + c)) % SLOTS;
      && s == (start / WORD_BITS + i) % WORDS * WORD_BITS + c
      && s / WORD_BITS == (start / WORD_BITS + i) % WORDS && s % WORD_BITS == c
      && (i * WORD_BITS - start % WORD_BITS + c < SLOTS ==>
           (s + SLOTS - start) % SLOTS == i * WORD_BITS - start % WORD_BITS + c)
  {
    var word := start / WORD_BITS + i;
    assert start + (i * WORD_BITS - start % WORD_BITS + c) == word * WORD_BITS + c;
    assert (word * WORD_BITS + c) % SLOTS == word % WORDS * WORD_BITS + c;
  }
}
