/** The ascending stepper `fill_by_nines` / `FillByNinesIterator`
    (src/fill_by_nines.rs). The iterator's state is the current candidate and
    the count k of trailing nines, and the candidate is always
    `FillByNines(min, k)`; so the iterator is the recursive `NinesFrom`, which
    yields the candidates for k, k + 1, ... while they stay inside the range. */
module FillByNines {
  import opened Decimal

  /** `fill_by_nines(n, k)` as it is meant to work: n with its low k digits
      replaced by nines, that is n rounded down to a multiple of 10^k plus
      10^k - 1. The source instead returns 10^k - 1 for every multiple of
      10^k; `Findings.FillByNinesAsWritten` keeps that branch. */
  function FillByNines(n: int, k: nat): (r: int)
    requires n >= 0
    ensures r >= Pow10(k) - 1
    ensures n <= r < n + Pow10(k)
    ensures r % Pow10(k) == Pow10(k) - 1
  {
    var offset := Pow10(k);
    var prefix := (n / offset) * offset;
    BlockEnd(n, offset);
    prefix + offset - 1
  }

  /** Of the numbers at or above n that end in p - 1 (mod p), one below
      n + p is the least. */
  lemma BlockEndLeast(n: int, p: int, r: int, x: int)
    requires p >= 1 && n <= r < n + p && r % p == p - 1
    requires x >= n && x % p == p - 1
    ensures r <= x
  {
    DivModUnique(x, p, x / p, p - 1);
    DivModUnique(r, p, r / p, p - 1);
    assert (x / p - r / p) * p == x - r;
    if x < r {
      MulZero(x / p - r / p, p);
    }
  }

  /** The candidate is the least number at or above n whose low k digits are
      all 9. */
  lemma FillByNinesLeast(n: int, k: nat, x: int)
    requires n >= 0
    requires x >= n && x % Pow10(k) == Pow10(k) - 1
    ensures FillByNines(n, k) <= x
  {
    BlockEndLeast(n, Pow10(k), FillByNines(n, k), x);
  }

  /** A number ending in the nines of 10p - 1 ends in those of p - 1. */
  lemma NinesInLowDigits(r: int, p: int)
    requires r >= 0 && p >= 1 && r % (10 * p) == 10 * p - 1
    ensures r % p == p - 1
  {
    ModNested(r, p);
    DivModUnique(10 * p - 1, p, 9, p - 1);
  }

  /** More trailing nines never give a smaller candidate. */
  lemma FillByNinesMonotone(n: int, k: nat)
    requires n >= 0
    ensures FillByNines(n, k) <= FillByNines(n, k + 1)
  {
    var p := Pow10(k);
    assert Pow10(k + 1) == 10 * p;
    var r := FillByNines(n, k + 1);
    NinesInLowDigits(r, p);
    BlockEndLeast(n, p, FillByNines(n, k), r);
  }

  /** `FillByNinesIterator::next` started at k trailing nines: the candidates
      for k, k + 1, ... up to (not including) the first one outside
      [min, max]. */
  function NinesFrom(min: int, max: int, k: nat): (s: seq<int>)
    requires min >= 0
    ensures forall i :: 0 <= i < |s| ==> s[i] == FillByNines(min, k + i)
    ensures forall i :: 0 <= i < |s| ==> min <= s[i] <= max
    ensures !(min <= FillByNines(min, k + |s|) <= max)
    decreases max + 1 - Pow10(k)
  {
    var stop := FillByNines(min, k);
    if min <= stop && stop <= max then
      assert Pow10(k + 1) == 10 * Pow10(k);
      [stop] + NinesFrom(min, max, k + 1)
    else
      []
  }

  /** `FillByNinesIterator::new(min, max)` run to the end: it starts at one
      trailing nine. */
  function Nines(min: int, max: int): (s: seq<int>)
    requires min >= 0
    ensures forall i :: 0 <= i < |s| ==> s[i] == FillByNines(min, 1 + i)
    ensures forall i :: 0 <= i < |s| ==> min <= s[i] <= max
    ensures !(min <= FillByNines(min, 1 + |s|) <= max)
  {
    NinesFrom(min, max, 1)
  }

  /** The yielded stops never decrease (they may repeat). */
  lemma {:induction false} NinesNonDecreasing(min: int, max: int, i: int, j: int)
    requires min >= 0
    requires 0 <= i <= j < |Nines(min, max)|
    ensures Nines(min, max)[i] <= Nines(min, max)[j]
    decreases j - i
  {
    if i < j {
      NinesNonDecreasing(min, max, i, j - 1);
      FillByNinesMonotone(min, j);
    }
  }

  /** min = 95 yields 99 twice: the second nine adds nothing. */
  lemma NinesRepeats()
    ensures Nines(95, 1000) == [99, 99, 999]
  {
    assert FillByNines(95, 1) == 99;
    assert FillByNines(95, 2) == 99;
    assert FillByNines(95, 3) == 999;
    assert FillByNines(95, 4) == 9999;
    assert NinesFrom(95, 1000, 4) == [];
    assert NinesFrom(95, 1000, 3) == [999];
    assert NinesFrom(95, 1000, 2) == [99, 999];
  }
}
