/** The internet checksum: 32-bit machine-order words summed in 64 bits, against
    the 16-bit one's-complement sum of section 2 of RFC 1071. */
module Checksum {
  import opened Machine

  const ONES: int := 0xffff

  type u16 = x: int | 0 <= x <= ONES
  type Bytes = seq<byte>

  // ----- the reference -----

  /** One's-complement addition: the carry goes back in at the low end. */
  function OnesAdd(a: u16, b: u16): u16 {
    if a + b > ONES then a + b - ONES else a + b
  }

  /** `u16::from_be_bytes` */
  function Be16(high: byte, low: byte): u16 {
    high as int * 256 + low as int
  }

  /** The big-endian word that starts `bytes`, an odd last byte padded with zero. */
  function FirstWord(bytes: Bytes): u16
    requires bytes != []
  {
    Be16(bytes[0], if |bytes| > 1 then bytes[1] else 0)
  }

  function AfterWord(bytes: Bytes): Bytes
    requires bytes != []
  {
    if |bytes| > 1 then bytes[2..] else []
  }

  /** The sum of RFC 1071, one word at a time. */
  function OnesSum(bytes: Bytes, sum: u16): u16
    decreases |bytes|
  {
    if bytes == [] then sum else OnesSum(AfterWord(bytes), OnesAdd(sum, FirstWord(bytes)))
  }

  // ----- plain sums, and folding -----

  /** What any number folds to: its value modulo 2^16 - 1, but for zero. */
  function Fold(n: nat): u16 {
    if n == 0 then 0 else (n - 1) % ONES + 1
  }

  function WordSum(bytes: Bytes): nat
    decreases |bytes|
  {
    if bytes == [] then 0 else FirstWord(bytes) + WordSum(AfterWord(bytes))
  }

  /** `n` is its fold and some multiple of 2^16 - 1. */
  lemma FoldParts(n: nat) returns (k: nat)
    ensures n == Fold(n) + ONES * k && (Fold(n) == 0 <==> n == 0)
  {
    k := if n == 0 then 0 else (n - 1) / ONES;
  }

  /** Folding sees a number only modulo 2^16 - 1, and whether it is zero. */
  lemma FoldSame(a: nat, b: nat, k: int)
    requires a == b + ONES * k && (a == 0 <==> b == 0)
    ensures Fold(a) == Fold(b)
  {
    if a > 0 { ModSame(a - 1, b - 1, k); }
  }

  lemma ModSame(a: nat, b: nat, k: int)
    requires a == b + ONES * k
    ensures a % ONES == b % ONES
  {
    var q, r := a / ONES, a % ONES;
    var q', r' := b / ONES, b % ONES;
    assert r - r' == ONES * (q' + k - q);
  }

  lemma FoldAdd(a: nat, b: nat)
    ensures Fold(a + b) == Fold(Fold(a) + b)
  {
    var k := FoldParts(a);
    FoldSame(a + b, Fold(a) + b, k);
  }

  /** The word-by-word sum is the folded plain sum. */
  lemma {:induction false} OnesSumIsFold(bytes: Bytes, initial: nat)
    ensures OnesSum(bytes, Fold(initial)) == Fold(initial + WordSum(bytes))
    decreases |bytes|
  {
    if bytes != [] {
      var w := FirstWord(bytes);
      FoldAdd(initial, w);
      assert OnesAdd(Fold(initial), w) == Fold(Fold(initial) + w);
      OnesSumIsFold(AfterWord(bytes), initial + w);
    }
  }

  /** Sums of whole words add up. */
  lemma {:induction false} WordSumConcat(a: Bytes, b: Bytes, words: nat)
    requires |a| == 2 * words
    ensures WordSum(a + b) == WordSum(a) + WordSum(b)
    decreases words
  {
    if words == 0 {
      assert a + b == b;
    } else {
      assert AfterWord(a + b) == AfterWord(a) + b;
      WordSumConcat(AfterWord(a), b, words - 1);
    }
  }

  // ----- the functions that sum -----

  method FoldChecksum(sum: u64) returns (r: u16)
    ensures r == Fold(sum)
  {
    var s: nat := sum;
    while s / 0x1_0000 != 0
      invariant Fold(s) == Fold(sum)
      decreases s
    {
      FoldSame(s, s % 0x1_0000 + s / 0x1_0000, s / 0x1_0000);
      s := s % 0x1_0000 + s / 0x1_0000;
    }
    r := s;
  }

  /** `u32::from_ne_bytes` */
  function MachineWord(little: bool, a: byte, b: byte, c: byte, d: byte): nat {
    if little then a as int + 0x100 * b as int + 0x1_0000 * c as int + 0x100_0000 * d as int
    else d as int + 0x100 * c as int + 0x1_0000 * b as int + 0x100_0000 * a as int
  }

  function SwapBytes(x: u16): u16 {
    x % 256 * 256 + x / 256
  }

  /** The sum of the machine words, in network order, is that of the 16-bit words
      modulo 2^16 - 1. */
  ghost predicate Tracks(little: bool, wide: nat, words: nat, k: nat) {
    && (if little then 256 * wide else wide) == words + ONES * k
    && (wide == 0 <==> words == 0)
  }

  lemma TracksNothing(little: bool, bytes: Bytes)
    ensures Tracks(little, 0, WordSum(bytes[..0]), 0)
  {}

  lemma TracksStep(little: bool, wide: nat, words: nat, k: nat, a: byte, b: byte, c: byte, d: byte) returns (k': nat)
    requires Tracks(little, wide, words, k)
    ensures Tracks(little, wide + MachineWord(little, a, b, c, d), words + Be16(a, b) + Be16(c, d), k')
    ensures MachineWord(little, a, b, c, d) <= 0xffff_ffff
  {
    var (w, x, y, z) := (a as int, b as int, c as int, d as int);
    k' := k + if little then x + 256 * y + 65537 * z else 256 * w + x;
  }

  lemma SwapTracks(little: bool, wide: nat, words: nat, k: nat) returns (j: int)
    requires Tracks(little, wide, words, k)
    ensures var folded := if little then SwapBytes(Fold(wide)) else Fold(wide);
      folded == words + ONES * j && (folded == 0 <==> words == 0)
  {
    var m := FoldParts(wide);
    var f := Fold(wide);
    j := if little then k - 256 * m - f / 256 else k - m;
    assert f == f / 256 * 256 + f % 256;
  }

  /** The machine words of `bytes`, summed: no carry leaves the 64 bits. */
  method SumWords(bytes: Bytes, little: bool) returns (wide: nat, ghost k: nat)
    requires |bytes| / 4 < 0x1_0000_0000
    ensures wide < U64_LIMIT
    ensures Tracks(little, wide, WordSum(bytes[..WordCut(bytes)]), k)
  {
    hide Tracks, MachineWord, WordSum, Be16;
    var i := 0;
    wide, k := 0, 0;
    TracksNothing(little, bytes);
    while i < |bytes| / 4
      invariant 0 <= i <= |bytes| / 4
      invariant Tracks(little, wide, WordSum(bytes[..4 * i]), k)
      invariant wide <= i * 0xffff_ffff
    {
      var a, b, c, d := bytes[4 * i], bytes[4 * i + 1], bytes[4 * i + 2], bytes[4 * i + 3];
      FourBytes(bytes, i);
      k := TracksStep(little, wide, WordSum(bytes[..4 * i]), k, a, b, c, d);
      wide := wide + MachineWord(little, a, b, c, d);
      i := i + 1;
    }
  }

  /** The bytes past the last machine word, two and then one at a time. */
  method SumTail(rest: Bytes, sum: nat) returns (r: nat)
    requires |rest| < 4
    ensures r == sum + WordSum(rest) && r <= sum + 2 * ONES
  {
    var p := 0;
    r := sum;
    while p < |rest| / 2
      invariant 0 <= p <= |rest| / 2
      invariant r == sum + WordSum(rest[..2 * p])
    {
      assert rest[..2 * (p + 1)] == rest[..2 * p] + [rest[2 * p], rest[2 * p + 1]];
      WordSumConcat(rest[..2 * p], [rest[2 * p], rest[2 * p + 1]], p);
      r := r + Be16(rest[2 * p], rest[2 * p + 1]);
      p := p + 1;
    }
    if |rest| % 2 == 1 {
      assert rest == rest[..2 * p] + [rest[2 * p]];
      WordSumConcat(rest[..2 * p], [rest[2 * p]], p);
      r := r + Be16(rest[2 * p], 0);
    } else {
      assert rest == rest[..2 * p];
    }
    SmallSum(rest);
  }

  method ChecksumAccumulate(bytes: Bytes, sum: nat, little: bool) returns (r: nat)
    requires |bytes| / 4 < 0x1_0000_0000 && sum < 0x1_0000_0000
    ensures Fold(r) == Fold(sum + WordSum(bytes))
    ensures r < 0x8_0000
  {
    hide Fold, WordSum, SwapBytes, Tracks;
    var cut := WordCut(bytes);
    var wide, k := SumWords(bytes, little);
    var folded := FoldChecksum(wide);
    ghost var words := WordSum(bytes[..cut]);
    ghost var j := SwapTracks(little, wide, words, k);
    folded := if little then SwapBytes(folded) else folded;
    var start := FoldChecksum(sum);
    ghost var m := FoldParts(sum);
    FoldSame(start + folded, sum + words, j - m);
    r := SumTail(bytes[cut..], start + folded);
    SplitSum(bytes, cut, start + folded, sum);
  }

  /** Where the whole machine words end. */
  function WordCut(bytes: Bytes): (cut: nat)
    ensures cut <= |bytes| < cut + 4 && cut == 4 * (|bytes| / 4)
  {
    4 * (|bytes| / 4)
  }

  lemma SplitSum(bytes: Bytes, cut: nat, start: nat, sum: nat)
    requires cut <= |bytes| && cut == 4 * (|bytes| / 4)
    requires Fold(start) == Fold(sum + WordSum(bytes[..cut]))
    ensures Fold(start + WordSum(bytes[cut..])) == Fold(sum + WordSum(bytes))
  {
    hide Fold, WordSum;
    assert bytes == bytes[..cut] + bytes[cut..];
    WordSumConcat(bytes[..cut], bytes[cut..], 2 * (|bytes| / 4));
    FoldAdd(start, WordSum(bytes[cut..]));
    FoldAdd(sum + WordSum(bytes[..cut]), WordSum(bytes[cut..]));
  }

  lemma FourBytes(bytes: Bytes, i: nat)
    requires 4 * i + 4 <= |bytes|
    ensures WordSum(bytes[..4 * (i + 1)])
      == WordSum(bytes[..4 * i]) + Be16(bytes[4 * i], bytes[4 * i + 1]) + Be16(bytes[4 * i + 2], bytes[4 * i + 3])
  {
    hide WordSum;
    var a, b, c, d := bytes[4 * i], bytes[4 * i + 1], bytes[4 * i + 2], bytes[4 * i + 3];
    assert bytes[..4 * (i + 1)] == bytes[..4 * i] + [a, b, c, d];
    WordSumConcat(bytes[..4 * i], [a, b, c, d], 2 * i);
    FourSum(a, b, c, d);
  }

  lemma FourSum(a: byte, b: byte, c: byte, d: byte)
    ensures WordSum([a, b, c, d]) == Be16(a, b) + Be16(c, d)
  {
    assert AfterWord([a, b, c, d]) == [c, d] && AfterWord([c, d]) == [];
    assert WordSum([c, d]) == Be16(c, d) + WordSum(AfterWord([c, d]));
  }

  lemma SmallSum(rest: Bytes)
    requires |rest| < 4
    ensures WordSum(rest) <= (|rest| + 1) / 2 * ONES
    decreases |rest|
  {
    if rest != [] {
      SmallSum(AfterWord(rest));
      assert |rest| < 3 ==> AfterWord(rest) == [];
    }
  }

  method ChecksumSum(bytes: Bytes, initial: nat, little: bool) returns (r: u16)
    requires |bytes| / 4 < 0x1_0000_0000 && initial < 0x1_0000_0000
    ensures r == OnesSum(bytes, Fold(initial))
  {
    var wide := ChecksumAccumulate(bytes, initial, little);
    OnesSumIsFold(bytes, initial);
    r := FoldChecksum(wide);
  }

  /** A sum with its own complement in it folds to all ones. */
  lemma ComplementFolds(sum: nat)
    ensures Fold(sum + (ONES - Fold(sum))) == ONES
    ensures Fold(sum) == ONES ==> Fold(sum + ONES) == ONES
  {
    var k := FoldParts(sum);
    FoldSame(sum + (ONES - Fold(sum)), ONES, k);
    if Fold(sum) == ONES { FoldSame(sum + ONES, ONES, k + 1); }
  }
}
