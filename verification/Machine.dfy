/** Machine integers as the program uses them, and 64-bit words as bit sets. */
module Machine {

  const U64_LIMIT: int := 0x1_0000_0000_0000_0000
  const U64_MAX: int := 0xffff_ffff_ffff_ffff

  type u64 = x: int | 0 <= x < U64_LIMIT
  type byte = x: int | 0 <= x < 256

  datatype Option<+T> = None | Some(value: T)
  datatype Result<+T, +E> = Ok(value: T) | Err(error: E)

  function Min(a: int, b: int): int { if a <= b then a else b }
  function Max(a: int, b: int): int { if a >= b then a else b }
  function SatAdd(a: u64, b: u64): u64 { Min(a + b, U64_MAX) }
  function SatSub(a: u64, b: u64): u64 { Max(a - b, 0) }
  function SatMul(a: u64, b: u64): (r: u64)
    ensures r == Min(a * b, U64_MAX)
  {
    MulNonNegative(a, b);
    Min(a * b, U64_MAX)
  }

  lemma MulNonNegative(a: nat, b: nat)
    ensures a * b >= 0
  {}

  /** `a.div_ceil(b)` */
  function DivCeil(a: nat, b: nat): nat
    requires b > 0
  {
    if a % b == 0 then a / b else a / b + 1
  }

  /** The least number of `b`s that cover `a`. */
  lemma DivCeilBounds(a: nat, b: nat)
    requires b > 0
    ensures DivCeil(a, b) * b >= a
    ensures DivCeil(a, b) > 0 ==> (DivCeil(a, b) - 1) * b < a
    ensures DivCeil(a, b) <= a
  {
    DivRemainder(a, b);
    var q := a / b;
    assert (q + 1) * b == q * b + b;
    assert (q - 1) * b == q * b - b;
    if q == a { assert b == 1 || a == 0 by { if b >= 2 { MulMonotone(2, b, a); } } }
  }

  lemma DivRemainder(a: nat, b: nat)
    requires b > 0
    ensures a == (a / b) * b + a % b && 0 <= a % b < b && 0 <= a / b <= a
  {
    MulMonotone(1, b, a / b);
  }

  lemma MulMonotone(a: int, b: int, c: nat)
    requires a <= b
    ensures a * c <= b * c
  {}

  /** A tick count covers `a` exactly when it is at least the ceiling, and is
      within `a` exactly when it is at most the floor. */
  lemma TickBounds(t: nat, a: nat, b: nat)
    requires b > 0
    ensures t >= DivCeil(a, b) <==> t * b >= a
    ensures t <= a / b <==> t * b <= a
  {
    DivRemainder(a, b);
    DivCeilBounds(a, b);
    var q := DivCeil(a, b);
    if t >= q { MulMonotone(q, t, b); } else { MulMonotone(t, q - 1, b); }
    if t <= a / b { MulMonotone(t, a / b, b); } else { MulMonotone(a / b + 1, t, b); }
  }

  /** A multiple of the divisor leaves the remainder as it is. */
  lemma ModShift(a: nat, k: nat, m: nat)
    requires m > 0
    ensures (a + k * m) % m == a % m
  {
    DivRemainder(a, m);
    DivRemainder(a + k * m, m);
    var q, q' := a / m + k, (a + k * m) / m;
    assert q * m == a / m * m + k * m;
    assert (q + 1) * m == q * m + m && (q' + 1) * m == q' * m + m;
    if q < q' { MulMonotone(q + 1, q', m); }
    if q' < q { MulMonotone(q' + 1, q, m); }
  }

  predicate IsLeast(ids: set<nat>, least: nat) {
    least in ids && forall id :: id in ids ==> least <= id
  }

  lemma {:induction false} LeastExists(ids: set<nat>)
    requires ids != {}
    ensures exists least :: IsLeast(ids, least)
    decreases |ids|
  {
    var one :| one in ids;
    if ids == {one} {
      assert IsLeast(ids, one);
    } else {
      LeastExists(ids - {one});
      var other :| IsLeast(ids - {one}, other);
      assert ids == ids - {one} + {one};
      assert IsLeast(ids, if one <= other then one else other);
    }
  }
}

/** 64-bit words as sets of bits, least significant first. */
module Words {

  const WORD: nat := 0x1_0000_0000_0000_0000

  predicate Has(w: nat, b: nat) {
    if b == 0 then w % 2 == 1 else Has(w / 2, b - 1)
  }

  /** `w | 1 << b` */
  function With(w: nat, b: nat): nat {
    if b == 0 then w - w % 2 + 1 else 2 * With(w / 2, b - 1) + w % 2
  }

  /** `w & !(1 << b)` */
  function Without(w: nat, b: nat): nat {
    if b == 0 then w - w % 2 else 2 * Without(w / 2, b - 1) + w % 2
  }

  /** `w & (u64::MAX << b)` */
  function From(w: nat, b: nat): nat {
    if b == 0 then w else 2 * From(w / 2, b - 1)
  }

  function TrailingZeros(w: nat): (b: nat)
    requires w > 0
    ensures Has(w, b)
    ensures forall c: nat :: c < b ==> !Has(w, c)
  {
    if w % 2 == 1 then 0 else
    var b := TrailingZeros(w / 2) + 1;
    assert forall c: nat :: c < b ==> !Has(w, c) by {
      forall c: nat | c < b ensures !Has(w, c) {
        assert c > 0 ==> Has(w, c) == Has(w / 2, c - 1);
      }
    }
    b
  }

  /** A word of `n` bits: `w < 2^n`. */
  predicate Fits(w: nat, n: nat) {
    if n == 0 then w == 0 else Fits(w / 2, n - 1)
  }

  /** What the three word updates do to each bit, and that they stay in the word. */
  lemma UpdatedBit(w: nat, b: nat, c: nat)
    ensures Has(With(w, b), c) <==> c == b || Has(w, c)
    ensures Has(Without(w, b), c) <==> c != b && Has(w, c)
    ensures Has(From(w, b), c) <==> c >= b && Has(w, c)
  {
    WithBit(w, b, c);
    WithoutBit(w, b, c);
    FromBit(w, b, c);
  }

  lemma {:induction false} WithBit(w: nat, b: nat, c: nat)
    ensures Has(With(w, b), c) <==> c == b || Has(w, c)
  {
    if b == 0 {
      assert With(w, 0) / 2 == w / 2;
    } else {
      assert With(w, b) / 2 == With(w / 2, b - 1) && With(w, b) % 2 == w % 2;
      if c > 0 { WithBit(w / 2, b - 1, c - 1); }
    }
  }

  lemma {:induction false} WithoutBit(w: nat, b: nat, c: nat)
    ensures Has(Without(w, b), c) <==> c != b && Has(w, c)
  {
    if b == 0 {
      assert Without(w, 0) / 2 == w / 2;
    } else {
      assert Without(w, b) / 2 == Without(w / 2, b - 1) && Without(w, b) % 2 == w % 2;
      if c > 0 { WithoutBit(w / 2, b - 1, c - 1); }
    }
  }

  lemma {:induction false} FromBit(w: nat, b: nat, c: nat)
    ensures Has(From(w, b), c) <==> c >= b && Has(w, c)
  {
    if b > 0 {
      assert From(w, b) / 2 == From(w / 2, b - 1) && From(w, b) % 2 == 0;
      if c > 0 { FromBit(w / 2, b - 1, c - 1); }
    }
  }

  lemma {:induction false} UpdatedFits(w: nat, b: nat, n: nat)
    requires Fits(w, n) && b < n
    ensures Fits(With(w, b), n) && Fits(Without(w, b), n) && Fits(From(w, b), n)
  {
    if b > 0 {
      UpdatedFits(w / 2, b - 1, n - 1);
      assert With(w, b) / 2 == With(w / 2, b - 1);
      assert Without(w, b) / 2 == Without(w / 2, b - 1);
      assert From(w, b) / 2 == From(w / 2, b - 1);
    } else {
      assert With(w, 0) / 2 == w / 2 && Without(w, 0) / 2 == w / 2;
    }
  }

  lemma {:induction false} BitsOfZero(c: nat)
    ensures !Has(0, c) && Fits(0, c)
  {
    if c > 0 { BitsOfZero(c - 1); }
  }

  /** A word other than zero has a bit, below its width. */
  lemma {:induction false} LowestBit(w: nat, n: nat)
    requires Fits(w, n) && w > 0
    ensures TrailingZeros(w) < n
  {
    if w % 2 == 0 { LowestBit(w / 2, n - 1); }
  }
}
