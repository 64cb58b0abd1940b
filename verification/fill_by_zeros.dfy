/** The descending stepper `fill_by_zeros` / `FillByZerosIterator`
    (src/fill_by_zeros.rs). The candidate for k trailing zeros is one below
    max + 1 rounded down to a multiple of 10^k; `ZerosFrom` yields the
    candidates for k, k + 1, ... while they stay strictly above min and at
    most max. */
module FillByZeros {
  import opened Decimal

  /** `fill_by_zeros(n, k)`: n rounded down to a multiple of 10^k. */
  function FillByZeros(n: int, k: nat): (r: int)
    requires n >= 0
    ensures 0 <= r <= n < r + Pow10(k)
    ensures r % Pow10(k) == 0
  {
    var p := Pow10(k);
    RoundDown(n, p);
    n - n % p
  }

  /** Of the multiples of p at or below n, one above n - p is the greatest. */
  lemma BlockStartGreatest(n: int, p: int, r: int, x: int)
    requires p >= 1 && r <= n < r + p && r % p == 0
    requires x <= n && x % p == 0
    ensures x <= r
  {
    DivModUnique(x, p, x / p, 0);
    DivModUnique(r, p, r / p, 0);
    assert (x / p - r / p) * p == x - r;
    if x > r {
      MulZero(x / p - r / p, p);
    }
  }

  /** Rounding down is the largest multiple of 10^k at or below n. */
  lemma FillByZerosGreatest(n: int, k: nat, x: int)
    requires n >= 0 && x <= n && x % Pow10(k) == 0
    ensures x <= FillByZeros(n, k)
  {
    BlockStartGreatest(n, Pow10(k), FillByZeros(n, k), x);
  }

  /** A multiple of 10p is a multiple of p. */
  lemma MultipleOfTenfold(r: int, p: int)
    requires r >= 0 && p >= 1 && r % (10 * p) == 0
    ensures r % p == 0
  {
    ModNested(r, p);
    DivModUnique(0, p, 0, 0);
  }

  /** More trailing zeros never give a larger candidate. */
  lemma FillByZerosMonotone(n: int, k: nat)
    requires n >= 0
    ensures FillByZeros(n, k + 1) <= FillByZeros(n, k)
  {
    var p, r := Pow10(k), FillByZeros(n, k + 1);
    assert Pow10(k + 1) == 10 * p;
    MultipleOfTenfold(r, p);
    BlockStartGreatest(n, p, FillByZeros(n, k), r);
  }

  /** A positive multiple of 10^k is at least 10^k. */
  lemma MultipleAtLeast(r: int, p: int)
    requires p >= 1 && r > 0 && r % p == 0
    ensures r >= p
  {
    DivModUnique(r, p, r / p, 0);
    assert r / p >= 1;
  }

  /** A candidate inside (0, max] means 10^k fits below max + 1, so the
      stepper's measure is non-negative and shrinks at the next zero count. */
  lemma ZerosProgress(max: int, k: nat, stop: int)
    requires max >= 0 && stop == FillByZeros(max + 1, k) - 1 && 0 < stop <= max
    ensures 0 <= max + 1 - Pow10(k) && max + 1 - Pow10(k + 1) < max + 1 - Pow10(k)
  {
    MultipleAtLeast(stop + 1, Pow10(k));
    assert Pow10(k + 1) == 10 * Pow10(k);
  }

  /** A candidate inside (min, max] put in front of the candidates from k + 1
      on keeps every candidate at the index of its zero count. */
  lemma ZerosCons(min: int, max: int, k: nat, stop: int, rest: seq<int>)
    requires 0 <= min <= max
    requires stop == FillByZeros(max + 1, k) - 1 && min < stop <= max
    requires forall i :: 0 <= i < |rest| ==> rest[i] == FillByZeros(max + 1, k + 1 + i) - 1
    requires forall i :: 0 <= i < |rest| ==> min < rest[i] <= max
    requires !(min < FillByZeros(max + 1, k + 1 + |rest|) - 1 <= max)
    ensures forall i :: 0 <= i < |[stop] + rest| ==> ([stop] + rest)[i] == FillByZeros(max + 1, k + i) - 1
    ensures forall i :: 0 <= i < |[stop] + rest| ==> min < ([stop] + rest)[i] <= max
    ensures !(min < FillByZeros(max + 1, k + |[stop] + rest|) - 1 <= max)
  {
    forall i | 0 < i < |[stop] + rest|
      ensures ([stop] + rest)[i] == rest[i - 1] && k + 1 + (i - 1) == k + i
    {
    }
  }

  /** `FillByZerosIterator::next` started at k trailing zeros: the candidates
      for k, k + 1, ... up to (not including) the first one outside
      (min, max]. It ends for every min >= 0: once 10^k exceeds max + 1 the
      candidate is -1. */
  function ZerosFrom(min: int, max: int, k: nat): (s: seq<int>)
    requires 0 <= min <= max
    ensures forall i :: 0 <= i < |s| ==> s[i] == FillByZeros(max + 1, k + i) - 1
    ensures forall i :: 0 <= i < |s| ==> min < s[i] <= max
    ensures !(min < FillByZeros(max + 1, k + |s|) - 1 <= max)
    decreases max + 1 - Pow10(k)
  {
    var stop := FillByZeros(max + 1, k) - 1;
    if min < stop && stop <= max then
      ZerosProgress(max, k, stop);
      var rest := ZerosFrom(min, max, k + 1);
      ZerosCons(min, max, k, stop, rest);
      [stop] + rest
    else
      []
  }

  /** `FillByZerosIterator::new(min, max)` run to the end: it starts at one
      trailing zero. */
  function Zeros(min: int, max: int): (s: seq<int>)
    requires 0 <= min <= max
    ensures forall i :: 0 <= i < |s| ==> s[i] == FillByZeros(max + 1, 1 + i) - 1
    ensures forall i :: 0 <= i < |s| ==> min < s[i] <= max
    ensures !(min < FillByZeros(max + 1, 1 + |s|) - 1 <= max)
  {
    ZerosFrom(min, max, 1)
  }

  lemma FillAligned(n: int, k: nat, f: int)
    requires n >= 0 && f == FillByZeros(n, k)
    ensures f % Pow10(k) == 0
  {
  }

  /** One past the i-th value yielded is a multiple of 10^(i+1): the stops
      end in i + 1 nines. */
  lemma ZerosAligned(min: int, max: int)
    requires 0 <= min <= max
    ensures forall i :: 0 <= i < |Zeros(min, max)| ==> (Zeros(min, max)[i] + 1) % Pow10(1 + i) == 0
  {
    var s := Zeros(min, max);
    forall i | 0 <= i < |s|
      ensures (s[i] + 1) % Pow10(1 + i) == 0
    {
      FillAligned(max + 1, 1 + i, s[i] + 1);
    }
  }

  /** The yielded stops never increase (they may repeat). */
  lemma {:induction false} ZerosNonIncreasing(min: int, max: int, i: int, j: int)
    requires 0 <= min <= max
    requires 0 <= i <= j < |Zeros(min, max)|
    ensures Zeros(min, max)[j] <= Zeros(min, max)[i]
    decreases j - i
  {
    if i < j {
      ZerosNonIncreasing(min, max, i, j - 1);
      FillByZerosMonotone(max + 1, j);
    }
  }

  /** max = 1000 yields 999 three times. */
  lemma ZerosRepeats()
    ensures Zeros(0, 1000) == [999, 999, 999]
  {
    assert FillByZeros(1001, 1) == 1000;
    assert FillByZeros(1001, 2) == 1000;
    assert FillByZeros(1001, 3) == 1000;
    assert FillByZeros(1001, 4) == 0;
    assert ZerosFrom(0, 1000, 4) == [];
    assert ZerosFrom(0, 1000, 3) == [999];
    assert ZerosFrom(0, 1000, 2) == [999, 999];
  }
}
