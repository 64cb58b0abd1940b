/** The shape of the sub-ranges `split_to_ranges` cuts (src/lib.rs:126-155),
    under the block-end rule of `FillByNines.FillByNines`.

    With K nines stops N(1) <= ... <= N(K) (N(k) the block end of min at k
    nines) and the zeros candidates Z(k) (max + 1 rounded down to a multiple
    of 10^k, minus one; Z(0) = max), the stops are exactly the values of the
    chain N(1), ..., N(K), Z(K), ..., Z(0), which never decreases. Between two
    distinct neighbours of the chain lies a block: a run
    [lo * 10^j, hi * 10^j + 10^j - 1] where lo and hi differ only in their last
    digit. So every sub-range stays within one digit length, and its fragment
    is a fixed prefix, one digit class and j free digits. */
module Blocks {
  import opened Decimal
  import FillByNines
  import FillByZeros
  import Merge
  import Split
  import Pattern
  import Digits

  /** [start, stop] is a block of depth j: start is a multiple of 10^j, stop
      ends in j nines, both lie in the same run of 10^(j+1) numbers, and start
      has more than j digits unless j = 0. */
  predicate IsBlock(start: int, stop: int, j: nat) {
    0 <= start <= stop
    && start % Pow10(j) == 0 && (stop + 1) % Pow10(j) == 0
    && start / Pow10(j + 1) == stop / Pow10(j + 1)
    && (j == 0 || start >= Pow10(j))
  }

  /** [start, stop] is a block of some depth. */
  ghost predicate IsSomeBlock(start: int, stop: int) {
    exists j: nat :: IsBlock(start, stop, j)
  }

  // ---------------------------------------------------------------------------
  // Arithmetic on runs of p numbers.

  /** Two numbers inside the run [b, b + p) of a multiple b of p have the same
      quotient by p. */
  lemma SameRun(x: int, y: int, p: int, b: int)
    requires p >= 1 && b >= 0 && b % p == 0 && b <= x <= y < b + p
    ensures x / p == y / p
  {
    assert b == (b / p) * p;
    DivModUnique(x, p, b / p, x - b);
    DivModUnique(y, p, b / p, y - b);
  }

  /** One past a number ending in p - 1 (mod p) is a multiple of p. */
  lemma NextMultiple(r: int, p: int)
    requires r >= 0 && p >= 1 && r % p == p - 1
    ensures (r + 1) % p == 0
  {
    DivModUnique(r + 1, p, r / p + 1, 0);
  }

  /** A number ending in p - 1 (mod p) is a multiple of p minus one. */
  lemma BelowMultiple(r: int, p: int)
    requires r >= 0 && p >= 1 && (r + 1) % p == 0
    ensures r % p == p - 1
  {
    DivModUnique(r, p, (r + 1) / p - 1, p - 1);
  }

  /** Dividing by p and then by 10 is dividing by 10p. */
  lemma DivDiv(m: int, p: int)
    requires m >= 0 && p >= 1
    ensures (m / p) / 10 == m / (10 * p)
  {
    var q, r := m / (10 * p), m % (10 * p);
    DivBelow(r, p, 10);
    DivModUnique(m, p, 10 * q + r / p, r % p);
    DivModUnique(m / p, 10, q, r / p);
  }

  // ---------------------------------------------------------------------------
  // The two steppers, named.

  /** N(k): the nines candidate for k trailing nines. */
  function N(min: int, k: nat): int
    requires min >= 0
  {
    FillByNines.FillByNines(min, k)
  }

  /** Z(k): the zeros candidate for k trailing zeros. */
  function Z(max: int, k: nat): int
    requires max >= 0
  {
    FillByZeros.FillByZeros(max + 1, k) - 1
  }

  /** K: how many stops the nines stepper yields. */
  function Count(min: int, max: int): nat
    requires min >= 0
  {
    |FillByNines.Nines(min, max)|
  }

  lemma {:induction false} NMonotone(min: int, a: nat, b: nat)
    requires min >= 0 && a <= b
    ensures N(min, a) <= N(min, b)
    decreases b - a
  {
    if a < b {
      NMonotone(min, a, b - 1);
      FillByNines.FillByNinesMonotone(min, b - 1);
    }
  }

  lemma {:induction false} ZMonotone(max: int, a: nat, b: nat)
    requires max >= 0 && a <= b
    ensures Z(max, b) <= Z(max, a)
    decreases b - a
  {
    if a < b {
      ZMonotone(max, a, b - 1);
      FillByZeros.FillByZerosMonotone(max + 1, b - 1);
    }
  }

  /** N(k) for k >= 1 is a nines stop exactly when k <= K, and then it is
      stop k - 1; N(K + 1) lies above max. */
  lemma NinesStops(min: int, max: int, k: nat)
    requires 0 <= min <= max && k >= 1
    ensures k <= Count(min, max) ==> N(min, k) == FillByNines.Nines(min, max)[k - 1] && N(min, k) <= max
    ensures k > Count(min, max) ==> N(min, k) > max
  {
    var nines := FillByNines.Nines(min, max);
    var c := |nines|;
    assert !(min <= N(min, 1 + c) <= max);
    if k > c {
      NMonotone(min, 1 + c, k);
    }
  }

  /** Z(0) is max. */
  lemma ZeroZeros(max: int)
    requires max >= 0
    ensures Z(max, 0) == max
  {
    assert Pow10(0) == 1;
  }

  /** Z(k) for k >= 1 is a zeros stop exactly when it lies above min, and then
      it is stop k - 1. */
  lemma ZerosStops(min: int, max: int, k: nat)
    requires 0 <= min <= max && k >= 1
    ensures k <= |FillByZeros.Zeros(min, max)| ==> Z(max, k) == FillByZeros.Zeros(min, max)[k - 1] && Z(max, k) > min
    ensures k > |FillByZeros.Zeros(min, max)| ==> Z(max, k) <= min
  {
    var zeros := FillByZeros.Zeros(min, max);
    var c := |zeros|;
    var z := Z(max, 1 + c);
    assert !(min < z && z <= max);
    if k > c {
      ZMonotone(max, 1 + c, k);
    }
  }

  /** min and max lie in one run of 10^(K+1), the run whose end is N(K + 1). */
  lemma TopRun(min: int, max: int)
    requires 0 <= min <= max
    ensures min / Pow10(Count(min, max) + 1) == max / Pow10(Count(min, max) + 1)
    ensures max + 1 < (min / Pow10(Count(min, max) + 1)) * Pow10(Count(min, max) + 1) + Pow10(Count(min, max) + 1)
  {
    var k := Count(min, max);
    var p := Pow10(k + 1);
    var b := (min / p) * p;
    NinesStops(min, max, k + 1);
    assert N(min, k + 1) == b + p - 1;
    DivModUnique(b, p, min / p, 0);
    SameRun(min, max, p, b);
  }

  /** Beyond K trailing zeros the zeros candidate falls below min. */
  lemma ZerosBeyond(min: int, max: int, k: nat)
    requires 0 <= min <= max && k > Count(min, max)
    ensures Z(max, k) < min
  {
    var c := Count(min, max);
    var p := Pow10(c + 1);
    var b := (min / p) * p;
    TopRun(min, max);
    DivModUnique(b, p, min / p, 0);
    var f := FillByZeros.FillByZeros(max + 1, c + 1);
    FillByZeros.BlockStartGreatest(max + 1, p, b, f);
    ZMonotone(max, c + 1, k);
  }

  /** So the zeros stepper yields at most K stops. */
  lemma ZerosCount(min: int, max: int)
    requires 0 <= min <= max
    ensures |FillByZeros.Zeros(min, max)| <= Count(min, max)
  {
    var c := Count(min, max);
    if |FillByZeros.Zeros(min, max)| > c {
      ZerosStops(min, max, c + 1);
      ZerosBeyond(min, max, c + 1);
    }
  }

  /** The last nines stop is at most the zeros candidate at the same depth. */
  lemma NinesBelowZeros(min: int, max: int)
    requires 0 <= min <= max && Count(min, max) >= 1
    ensures N(min, Count(min, max)) <= Z(max, Count(min, max))
  {
    var k := Count(min, max);
    var p := Pow10(k);
    NinesStops(min, max, k);
    NextMultiple(N(min, k), p);
    FillByZeros.FillByZerosGreatest(max + 1, k, N(min, k) + 1);
  }

  // ---------------------------------------------------------------------------
  // The chain of stops.

  /** Position m of the chain N(1), ..., N(K), Z(K), ..., Z(0). */
  function Chain(min: int, max: int, m: nat): int
    requires 0 <= min <= max && m <= 2 * Count(min, max)
  {
    var k := Count(min, max);
    if m < k then N(min, m + 1) else Z(max, 2 * k - m)
  }

  /** The block depth of the step into chain position m. */
  function Depth(min: int, max: int, m: nat): nat
    requires 0 <= min <= max && m <= 2 * Count(min, max)
  {
    var k := Count(min, max);
    if m < k then m else 2 * k - m
  }

  /** The chain never decreases. */
  lemma ChainOrdered(min: int, max: int, a: nat, b: nat)
    requires 0 <= min <= max && a <= b <= 2 * Count(min, max)
    ensures Chain(min, max, a) <= Chain(min, max, b)
  {
    var k := Count(min, max);
    if b < k {
      NMonotone(min, a + 1, b + 1);
    } else if a >= k {
      ZMonotone(max, 2 * k - b, 2 * k - a);
    } else {
      NMonotone(min, a + 1, k);
      NinesBelowZeros(min, max);
      ZMonotone(max, 2 * k - b, k);
    }
  }

  /** Every chain value is a stop. */
  lemma ChainInStops(min: int, max: int, m: nat)
    requires 0 <= min <= max && m <= 2 * Count(min, max)
    ensures Chain(min, max, m) in Split.SplitToRanges(min, max)
  {
    var k := Count(min, max);
    if m < k {
      NinesStops(min, max, m + 1);
      assert Chain(min, max, m) in FillByNines.Nines(min, max);
    } else if m == 2 * k {
      ZeroZeros(max);
    } else {
      var d := 2 * k - m;
      ZerosStops(min, max, d);
      if d > |FillByZeros.Zeros(min, max)| {
        ZMonotone(max, d, k);
        NinesBelowZeros(min, max);
        NinesStops(min, max, k);
        assert Chain(min, max, m) == N(min, k);
        assert Chain(min, max, m) in FillByNines.Nines(min, max);
      } else {
        assert Chain(min, max, m) in FillByZeros.Zeros(min, max);
      }
    }
  }

  /** Nines stop i is chain position i. */
  lemma NineInChain(min: int, max: int, i: int)
    requires 0 <= min <= max && 0 <= i < |FillByNines.Nines(min, max)|
    ensures i < Count(min, max) && Chain(min, max, i) == FillByNines.Nines(min, max)[i]
  {
    NinesStops(min, max, i + 1);
  }

  /** Zeros stop i is chain position 2K - 1 - i. */
  lemma ZeroInChain(min: int, max: int, i: int)
    requires 0 <= min <= max && 0 <= i < |FillByZeros.Zeros(min, max)|
    ensures i < Count(min, max)
    ensures Chain(min, max, 2 * Count(min, max) - 1 - i) == FillByZeros.Zeros(min, max)[i]
  {
    ZerosCount(min, max);
    ZerosStops(min, max, i + 1);
  }

  /** Every stop is a chain value. */
  lemma StopInChain(min: int, max: int, x: int) returns (m: nat)
    requires 0 <= min <= max && x in Split.SplitToRanges(min, max)
    ensures m <= 2 * Count(min, max) && Chain(min, max, m) == x
  {
    var nines, zeros := FillByNines.Nines(min, max), FillByZeros.Zeros(min, max);
    if x in nines {
      var i :| 0 <= i < |nines| && nines[i] == x;
      NineInChain(min, max, i);
      m := i;
    } else if x in zeros {
      var i :| 0 <= i < |zeros| && zeros[i] == x;
      ZeroInChain(min, max, i);
      m := 2 * Count(min, max) - 1 - i;
    } else {
      ZeroZeros(max);
      m := 2 * Count(min, max);
    }
  }

  /** The chain as a sequence of 2K + 1 values. */
  ghost function ChainSeq(min: int, max: int): (c: seq<int>)
    requires 0 <= min <= max
    ensures |c| == 2 * Count(min, max) + 1
    ensures forall m :: 0 <= m < |c| ==> c[m] == Chain(min, max, m)
  {
    seq(2 * Count(min, max) + 1, m requires 0 <= m <= 2 * Count(min, max) => Chain(min, max, m))
  }

  lemma ChainSeqSorted(min: int, max: int)
    requires 0 <= min <= max
    ensures Merge.NonDecreasing(ChainSeq(min, max))
  {
    var c := ChainSeq(min, max);
    forall a, b | 0 <= a < b < |c|
      ensures c[a] <= c[b]
    {
      ChainOrdered(min, max, a, b);
    }
  }

  /** The stops are exactly the chain's values. */
  lemma ChainSeqCovers(min: int, max: int)
    requires 0 <= min <= max
    ensures forall x :: x in Split.SplitToRanges(min, max) <==> x in ChainSeq(min, max)
  {
    var c, stops := ChainSeq(min, max), Split.SplitToRanges(min, max);
    forall x | x in stops
      ensures x in c
    {
      var m := StopInChain(min, max, x);
      assert c[m] == x;
    }
    forall x | x in c
      ensures x in stops
    {
      var m :| 0 <= m < |c| && c[m] == x;
      ChainInStops(min, max, m);
    }
  }

  // ---------------------------------------------------------------------------
  // Each step of the chain is a block.

  /** The first sub-range, from min to the first chain value, has depth 0. */
  lemma FirstBlock(min: int, max: int)
    requires 0 <= min <= max
    ensures IsBlock(min, Chain(min, max, 0), 0)
  {
    assert Pow10(0) == 1 && Pow10(1) == 10;
    if Count(min, max) >= 1 {
      NinesStops(min, max, 1);
      var b := (min / 10) * 10;
      assert N(min, 1) == b + 9;
      DivModUnique(b, 10, min / 10, 0);
      SameRun(min, N(min, 1), 10, b);
    } else {
      TopRun(min, max);
      ZeroZeros(max);
    }
  }

  /** From one past N(m) to N(m + 1): a block of depth m. */
  lemma NinesBlock(min: int, max: int, m: nat)
    requires 0 <= min <= max && 1 <= m && N(min, m) < N(min, m + 1)
    ensures IsBlock(N(min, m) + 1, N(min, m + 1), m)
  {
    var p, q := Pow10(m), Pow10(m + 1);
    assert q == 10 * p;
    NextMultiple(N(min, m), p);
    FillByNines.NinesInLowDigits(N(min, m + 1), p);
    NextMultiple(N(min, m + 1), p);
    var b := (min / q) * q;
    assert N(min, m + 1) == b + q - 1;
    DivModUnique(b, q, min / q, 0);
    SameRun(N(min, m) + 1, N(min, m + 1), q, b);
  }

  /** From one past N(K) to Z(K): a block of depth K. */
  lemma MiddleBlock(min: int, max: int)
    requires 0 <= min <= max && Count(min, max) >= 1
    requires N(min, Count(min, max)) < Z(max, Count(min, max))
    ensures IsBlock(N(min, Count(min, max)) + 1, Z(max, Count(min, max)), Count(min, max))
  {
    var k := Count(min, max);
    var p, q := Pow10(k), Pow10(k + 1);
    NinesStops(min, max, k);
    NextMultiple(N(min, k), p);
    var b := (min / q) * q;
    TopRun(min, max);
    DivModUnique(b, q, min / q, 0);
    SameRun(N(min, k) + 1, Z(max, k), q, b);
  }

  /** From one past Z(k + 1) to Z(k), for k < K: a block of depth k. */
  lemma ZerosBlock(min: int, max: int, k: nat)
    requires 0 <= min <= max && k < Count(min, max)
    requires Z(max, k + 1) < Z(max, k)
    ensures IsBlock(Z(max, k + 1) + 1, Z(max, k), k)
  {
    var p, q := Pow10(k), Pow10(k + 1);
    assert q == 10 * p;
    var f := Z(max, k + 1) + 1;
    FillByZeros.MultipleOfTenfold(f, p);
    ZMonotone(max, k + 1, Count(min, max));
    NinesBelowZeros(min, max);
    FillByZeros.MultipleAtLeast(f, q);
    Pow10Increasing(k, k + 1);
    SameRun(f, Z(max, k), q, f);
  }

  /** The step into chain position m, when the value changes, is a block of
      depth `Depth(m)`. */
  lemma ChainBlock(min: int, max: int, m: nat)
    requires 0 <= min <= max && 1 <= m <= 2 * Count(min, max)
    requires Chain(min, max, m - 1) < Chain(min, max, m)
    ensures IsBlock(Chain(min, max, m - 1) + 1, Chain(min, max, m), Depth(min, max, m))
  {
    var k := Count(min, max);
    if m < k {
      NinesBlock(min, max, m);
    } else if m == k {
      MiddleBlock(min, max);
    } else {
      ZerosBlock(min, max, 2 * k - m);
    }
  }

  // ---------------------------------------------------------------------------
  // The sub-ranges.

  /** In a strictly ascending sequence, a value at most the first one sits
      at index 0. */
  lemma AtMostFirst(stops: seq<int>, i: int)
    requires Merge.StrictlyAscending(stops) && 0 <= i < |stops| && stops[i] <= stops[0]
    ensures i == 0
  {
  }

  /** In a strictly ascending sequence, a member below stops[i] is at most
      the stop just before i. */
  lemma Predecessor(stops: seq<int>, i: int, c: int)
    requires Merge.StrictlyAscending(stops) && 0 <= i < |stops|
    requires c in stops && c < stops[i]
    ensures i > 0 && c <= stops[i - 1] < stops[i]
  {
    var i' :| 0 <= i' < |stops| && stops[i'] == c;
    if i' < i - 1 {
      assert stops[i'] < stops[i - 1];
    }
  }

  /** Walking down a non-decreasing sequence to the first index holding the
      same value. */
  lemma {:induction false} FirstIndexOf(s: seq<int>, m: int) returns (m0: int)
    requires Merge.NonDecreasing(s) && 0 <= m < |s|
    ensures 0 <= m0 <= m && s[m0] == s[m]
    ensures m0 == 0 || s[m0 - 1] < s[m0]
    decreases m
  {
    if m == 0 {
      m0 := 0;
    } else if s[m - 1] < s[m] {
      m0 := m;
    } else {
      m0 := FirstIndexOf(s, m - 1);
    }
  }

  /** When the stops are the distinct values of a non-decreasing chain, in
      ascending order, stop i is a chain value at a position m0 where the
      chain steps up (or m0 = 0 and i = 0), and stop i - 1 is the value the
      chain holds just before m0. */
  lemma StopsOfChain(chain: seq<int>, stops: seq<int>, i: int) returns (m0: int)
    requires Merge.NonDecreasing(chain) && Merge.StrictlyAscending(stops)
    requires forall x :: x in stops <==> x in chain
    requires 0 <= i < |stops|
    ensures 0 <= m0 < |chain| && chain[m0] == stops[i]
    ensures m0 == 0 ==> i == 0
    ensures m0 > 0 ==> i > 0 && chain[m0 - 1] == stops[i - 1] < chain[m0]
  {
    assert stops[i] in stops;
    var m :| 0 <= m < |chain| && chain[m] == stops[i];
    m0 := FirstIndexOf(chain, m);
    if m0 == 0 {
      assert stops[0] in stops;
      var m1 :| 0 <= m1 < |chain| && chain[m1] == stops[0];
      assert chain[0] <= chain[m1];
      AtMostFirst(stops, i);
    } else {
      var c := chain[m0 - 1];
      assert c in chain;
      Predecessor(stops, i, c);
      var p := stops[i - 1];
      assert p in stops;
      var mp :| 0 <= mp < |chain| && chain[mp] == p;
      assert chain[mp] <= chain[m0 - 1];
    }
  }

  /** Sub-range i of `split_to_ranges(min, max)` is a block. */
  lemma SubRangeBlock(min: int, max: int, i: int) returns (j: nat)
    requires 0 <= min <= max && 0 <= i < |Split.SplitToRanges(min, max)|
    ensures IsBlock(Split.SubRangeStart(min, Split.SplitToRanges(min, max), i), Split.SplitToRanges(min, max)[i], j)
  {
    var stops, chain := Split.SplitToRanges(min, max), ChainSeq(min, max);
    Split.SplitToRangesAscending(min, max);
    ChainSeqSorted(min, max);
    ChainSeqCovers(min, max);
    var m0 := StopsOfChain(chain, stops, i);
    if m0 == 0 {
      FirstBlock(min, max);
      j := 0;
    } else {
      ChainBlock(min, max, m0);
      j := Depth(min, max, m0);
    }
  }

  /** Every sub-range `split_to_patterns` prints is a block. */
  lemma SplitBlocks(min: int, max: int)
    requires 0 <= min <= max
    ensures forall i :: 0 <= i < |Split.SplitToRanges(min, max)| ==>
      IsSomeBlock(Split.SubRangeStart(min, Split.SplitToRanges(min, max), i), Split.SplitToRanges(min, max)[i])
  {
    var stops := Split.SplitToRanges(min, max);
    forall i | 0 <= i < |stops|
      ensures IsSomeBlock(Split.SubRangeStart(min, stops, i), stops[i])
    {
      var j := SubRangeBlock(min, max, i);
    }
  }

  // ---------------------------------------------------------------------------
  // What a block prints.

  lemma MulLe(a: int, b: int, p: int)
    requires a <= b && p >= 0
    ensures a * p <= b * p
  {
  }

  lemma MulCancelLt(a: int, b: int, p: int)
    requires a * p < b * p && p >= 1
    ensures a < b
  {
  }

  /** Division by p is monotone. */
  lemma QuotientMono(x: int, y: int, p: int)
    requires 0 <= x <= y && p >= 1
    ensures x / p <= y / p
  {
    assert (x / p) * p <= x;
    assert y < (y / p + 1) * p;
    MulCancelLt(x / p, y / p + 1, p);
  }

  /** A block of depth j is [lo * 10^j, hi * 10^j + 10^j - 1] with lo and hi
      differing only in their last digit, and lo positive unless j = 0. */
  lemma BlockBounds(start: int, stop: int, j: nat) returns (lo: int, hi: int)
    requires IsBlock(start, stop, j)
    ensures 0 <= lo <= hi && lo / 10 == hi / 10 && (lo >= 1 || j == 0)
    ensures start == lo * Pow10(j) && stop == hi * Pow10(j) + (Pow10(j) - 1)
  {
    var p := Pow10(j);
    assert Pow10(j + 1) == 10 * p;
    lo, hi := start / p, stop / p;
    assert start == lo * p + start % p;
    BelowMultiple(stop, p);
    assert stop == hi * p + stop % p;
    DivDiv(start, p);
    DivDiv(stop, p);
    QuotientMono(start, stop, p);
    if j > 0 {
      QuotientMono(p, start, p);
      DivModUnique(p, p, 1, 0);
    }
  }

  /** And every such run is a block of depth j. */
  lemma BoundsBlock(lo: int, hi: int, j: nat)
    requires 0 <= lo <= hi && lo / 10 == hi / 10 && (lo >= 1 || j == 0)
    ensures IsBlock(lo * Pow10(j), hi * Pow10(j) + (Pow10(j) - 1), j)
  {
    var p := Pow10(j);
    assert Pow10(j + 1) == 10 * p;
    var start, stop := lo * p, hi * p + (p - 1);
    DivModUnique(start, p, lo, 0);
    DivModUnique(stop, p, hi, p - 1);
    assert stop + 1 == (hi + 1) * p;
    DivModUnique(stop + 1, p, hi + 1, 0);
    DivDiv(start, p);
    DivDiv(stop, p);
    MulLe(lo, hi, p);
    if j > 0 {
      MulLe(1, lo, p);
    }
  }

  /** Both bounds of a block have the same number of digits, and
      `range_to_pattern` prints the shared prefix, one digit or class, and the
      free digits. */
  lemma BlockFragment(start: int, stop: int, j: nat) returns (lo: int, hi: int)
    requires IsBlock(start, stop, j)
    ensures 0 <= lo <= hi && lo / 10 == hi / 10
    ensures start == lo * Pow10(j) && stop == hi * Pow10(j) + (Pow10(j) - 1)
    ensures |Digits.DigitString(start)| == |Digits.DigitString(stop)|
    ensures Pattern.RangeToPattern(start, stop)
      == Pattern.PrefixStr(lo / 10) + Pattern.Lead(lo % 10, hi % 10)
         + Pattern.AnyDigits(if lo % 10 == 0 && hi % 10 == 9 then j + 1 else j)
  {
    lo, hi := BlockBounds(start, stop, j);
    Pattern.BlockStartDigits(lo, j);
    Pattern.BlockStopDigits(hi, j);
    Pattern.BlockPattern(lo, hi, j, start, stop);
  }

  /** Every sub-range of `split_to_ranges(min, max)` stays within one digit
      length. */
  lemma SplitDigitLengths(min: int, max: int)
    requires 0 <= min <= max
    ensures forall i :: 0 <= i < |Split.SplitToRanges(min, max)| ==>
      |Digits.DigitString(Split.SubRangeStart(min, Split.SplitToRanges(min, max), i))|
      == |Digits.DigitString(Split.SplitToRanges(min, max)[i])|
  {
    var stops := Split.SplitToRanges(min, max);
    forall i | 0 <= i < |stops|
      ensures |Digits.DigitString(Split.SubRangeStart(min, stops, i))| == |Digits.DigitString(stops[i])|
    {
      var j := SubRangeBlock(min, max, i);
      var lo, hi := BlockFragment(Split.SubRangeStart(min, stops, i), stops[i], j);
    }
  }
}
