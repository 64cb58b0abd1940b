/** `split_to_ranges` and `split_to_patterns` (src/lib.rs:60-72, 125-155).

    `SplitToRanges` collects the nines stepper's stops without consecutive
    repeats, appends max unless it is already last, reverses the list and
    merges it with the zeros stepper's stops. `SplitToPatterns` walks the
    stops with start = min first and start = previous stop + 1 afterwards,
    printing one fragment per stop. */
module Split {
  import opened Merge
  import FillByNines
  import FillByZeros
  import Pattern

  function Last(s: seq<int>): int
    requires |s| > 0
  {
    s[|s| - 1]
  }

  /** The `while let` loop over the nines stepper: each stop is pushed unless
      it equals the last one pushed. */
  function Collapse(s: seq<int>): (r: seq<int>)
    ensures forall x :: x in r <==> x in s
    ensures |s| > 0 ==> |r| > 0 && Last(r) == Last(s)
    decreases |s|
  {
    if |s| == 0 then []
    else
      var r := Collapse(s[..|s| - 1]);
      assert s == s[..|s| - 1] + [Last(s)];
      if |r| > 0 && Last(r) == Last(s) then r else r + [Last(s)]
  }

  /** Collapsing a non-decreasing list leaves it strictly ascending. */
  lemma {:induction false} CollapseAscending(s: seq<int>)
    requires NonDecreasing(s)
    ensures StrictlyAscending(Collapse(s))
    decreases |s|
  {
    if |s| > 0 {
      var init := s[..|s| - 1];
      assert NonDecreasing(init);
      CollapseAscending(init);
      var r := Collapse(init);
      if !(|r| > 0 && Last(r) == Last(s)) {
        forall x | x in r
          ensures x < Last(s)
        {
          var i :| 0 <= i < |init| && init[i] == x;
          assert x <= Last(init);
        }
        AppendAscending(r, Last(s));
      }
    }
  }

  /** Pushing max unless it is already the last stop. */
  function PushMax(stops: seq<int>, max: int): (r: seq<int>)
    ensures forall x :: x in r <==> x in stops || x == max
    ensures |r| > 0 && Last(r) == max
  {
    if |stops| > 0 && Last(stops) == max then stops else stops + [max]
  }

  /** `stops.reverse()`. */
  function Reverse(s: seq<int>): (r: seq<int>)
    ensures |r| == |s|
    ensures forall i :: 0 <= i < |s| ==> r[i] == s[|s| - 1 - i]
    decreases |s|
  {
    if |s| == 0 then [] else Reverse(s[1..]) + [s[0]]
  }

  /** `split_to_ranges(min, max)`: its stops are exactly the nines stops, max
      and the zeros stops. */
  function SplitToRanges(min: int, max: int): (stops: seq<int>)
    requires 0 <= min <= max
    ensures forall x :: x in stops <==>
      x in FillByNines.Nines(min, max) || x == max || x in FillByZeros.Zeros(min, max)
  {
    var ascending := PushMax(Collapse(FillByNines.Nines(min, max)), max);
    var descending := Reverse(ascending);
    assert forall x :: x in descending <==> x in ascending by {
      forall x | x in ascending
        ensures x in descending
      {
        var i :| 0 <= i < |ascending| && ascending[i] == x;
        assert descending[|ascending| - 1 - i] == x;
      }
    }
    MergeDescToAsc(descending, FillByZeros.Zeros(min, max))
  }

  /** Reversing a strictly ascending list makes it strictly descending. */
  lemma ReverseDescending(s: seq<int>)
    requires StrictlyAscending(s)
    ensures StrictlyDescending(Reverse(s))
  {
    var r := Reverse(s);
    forall i, j | 0 <= i < j < |r|
      ensures r[i] > r[j]
    {
      assert r[i] == s[|s| - 1 - i] && r[j] == s[|s| - 1 - j];
    }
  }

  /** The collapsed nines stops with max pushed are strictly ascending. */
  lemma AscendingStops(min: int, max: int)
    requires 0 <= min <= max
    ensures StrictlyAscending(PushMax(Collapse(FillByNines.Nines(min, max)), max))
  {
    var nines := FillByNines.Nines(min, max);
    forall i, j | 0 <= i < j < |nines|
      ensures nines[i] <= nines[j]
    {
      FillByNines.NinesNonDecreasing(min, max, i, j);
    }
    var collapsed := Collapse(nines);
    CollapseAscending(nines);
    if !(|collapsed| > 0 && Last(collapsed) == max) {
      forall x | x in collapsed
        ensures x < max
      {
        var i :| 0 <= i < |collapsed| && collapsed[i] == x;
        assert Last(collapsed) in nines;
        if i < |collapsed| - 1 {
          assert collapsed[i] < Last(collapsed);
        }
      }
      AppendAscending(collapsed, max);
    }
  }

  /** The largest element of a strictly ascending list is its last. */
  lemma AscendingLast(s: seq<int>, k: int)
    requires StrictlyAscending(s) && 0 <= k < |s|
    requires forall i :: 0 <= i < |s| ==> s[i] <= s[k]
    ensures Last(s) == s[k]
  {
    assert Last(s) <= s[k];
  }

  /** The stops of `split_to_ranges` are strictly ascending. */
  lemma SplitToRangesAscending(min: int, max: int)
    requires 0 <= min <= max
    ensures StrictlyAscending(SplitToRanges(min, max))
  {
    var zeros := FillByZeros.Zeros(min, max);
    forall i, j | 0 <= i < j < |zeros|
      ensures zeros[i] >= zeros[j]
    {
      FillByZeros.ZerosNonIncreasing(min, max, i, j);
    }
    var ascending := PushMax(Collapse(FillByNines.Nines(min, max)), max);
    AscendingStops(min, max);
    ReverseDescending(ascending);
    MergeDescToAscSorted(Reverse(ascending), zeros);
  }

  /** For min <= max the stop list is non-empty, strictly ascending, inside
      [min, max], and ends at max. */
  lemma SplitToRangesShape(min: int, max: int)
    requires 0 <= min <= max
    ensures |SplitToRanges(min, max)| > 0
    ensures StrictlyAscending(SplitToRanges(min, max))
    ensures forall i :: 0 <= i < |SplitToRanges(min, max)| ==> min <= SplitToRanges(min, max)[i] <= max
    ensures Last(SplitToRanges(min, max)) == max
  {
    var stops := SplitToRanges(min, max);
    SplitToRangesAscending(min, max);
    forall i | 0 <= i < |stops|
      ensures min <= stops[i] <= max
    {
      assert stops[i] in stops;
    }
    assert max in stops;
    var k :| 0 <= k < |stops| && stops[k] == max;
    AscendingLast(stops, k);
  }

  /** Where the i-th sub-range starts: at min for the first stop, one past the
      previous stop afterwards. */
  function SubRangeStart(min: int, stops: seq<int>, i: int): int
    requires 0 <= i < |stops|
  {
    if i == 0 then min else stops[i - 1] + 1
  }

  /** Putting the first sub-range's item in front of the items of the rest
      keeps every item at the index of its sub-range, for any item function. */
  lemma ConsShift(f: (int, int) -> string, start: int, stops: seq<int>, rest: seq<string>)
    requires |stops| > 0 && |rest| == |stops| - 1
    requires forall i :: 0 <= i < |rest| ==>
      rest[i] == f(SubRangeStart(stops[0] + 1, stops[1..], i), stops[1..][i])
    ensures forall i :: 0 <= i < |stops| ==>
      ([f(start, stops[0])] + rest)[i] == f(SubRangeStart(start, stops, i), stops[i])
  {
    var ps := [f(start, stops[0])] + rest;
    forall i | 1 <= i < |stops|
      ensures ps[i] == f(SubRangeStart(start, stops, i), stops[i])
    {
      assert ps[i] == rest[i - 1];
      assert SubRangeStart(stops[0] + 1, stops[1..], i - 1) == SubRangeStart(start, stops, i);
    }
  }

  /** The `for stop in ...` loop of `split_to_patterns`, from a given start. */
  function PatternsFrom(start: int, stops: seq<int>): (ps: seq<string>)
    ensures |ps| == |stops|
    ensures forall i {:trigger SubRangeStart(start, stops, i)} :: 0 <= i < |stops| ==>
      ps[i] == Pattern.RangeToPattern(SubRangeStart(start, stops, i), stops[i])
    decreases |stops|
  {
    if |stops| == 0 then []
    else
      var rest := PatternsFrom(stops[0] + 1, stops[1..]);
      var ps := [Pattern.RangeToPattern(start, stops[0])] + rest;
      ConsShift(Pattern.RangeToPattern, start, stops, rest);
      ps
  }

  /** The fragment loop's first step: the fragment of the first sub-range,
      then the loop from one past its stop. */
  lemma PatternsFromCons(start: int, stops: seq<int>)
    requires |stops| > 0
    ensures PatternsFrom(start, stops)
      == [Pattern.RangeToPattern(start, stops[0])] + PatternsFrom(stops[0] + 1, stops[1..])
  {
  }

  /** `split_to_patterns(min, max)`: one fragment per stop, in order. */
  function SplitToPatterns(min: int, max: int): (ps: seq<string>)
    requires 0 <= min <= max
    ensures |ps| == |SplitToRanges(min, max)|
    ensures forall i {:trigger SubRangeStart(min, SplitToRanges(min, max), i)} :: 0 <= i < |ps| ==>
      ps[i] == Pattern.RangeToPattern(SubRangeStart(min, SplitToRanges(min, max), i), SplitToRanges(min, max)[i])
  {
    PatternsFrom(min, SplitToRanges(min, max))
  }

  /** x lies in one of the sub-ranges cut from stops. */
  predicate Covered(start: int, stops: seq<int>, x: int) {
    exists i :: 0 <= i < |stops| && SubRangeStart(start, stops, i) <= x <= stops[i]
  }

  /** Some sub-range holds x whenever start <= x <= the last stop. */
  lemma {:induction false} SubRangeCovers(start: int, stops: seq<int>, x: int)
    requires |stops| > 0 && StrictlyAscending(stops)
    requires start <= x <= Last(stops)
    ensures Covered(start, stops, x)
    decreases |stops|
  {
    if x > stops[0] {
      var rest := stops[1..];
      assert |rest| > 0 && Last(rest) == Last(stops);
      SubRangeCovers(stops[0] + 1, rest, x);
      var i :| 0 <= i < |rest| && SubRangeStart(stops[0] + 1, rest, i) <= x <= rest[i];
      assert stops[i + 1] == rest[i];
      assert SubRangeStart(start, stops, i + 1) == SubRangeStart(stops[0] + 1, rest, i);
    } else {
      assert SubRangeStart(start, stops, 0) <= x <= stops[0];
    }
  }

  /** The sub-ranges cut from strictly ascending stops are non-empty, ordered
      and disjoint, and together cover exactly [start, last stop]. */
  lemma SubRangesPartition(start: int, stops: seq<int>)
    requires |stops| > 0 && StrictlyAscending(stops) && start <= stops[0]
    ensures forall i :: 0 <= i < |stops| ==> SubRangeStart(start, stops, i) <= stops[i]
    ensures forall i, j :: 0 <= i < j < |stops| ==> stops[i] < SubRangeStart(start, stops, j)
    ensures forall x :: Covered(start, stops, x) <==> start <= x <= Last(stops)
  {
    forall x | Covered(start, stops, x) || start <= x <= Last(stops)
      ensures Covered(start, stops, x) <==> start <= x <= Last(stops)
    {
      if start <= x <= Last(stops) {
        SubRangeCovers(start, stops, x);
      }
      if Covered(start, stops, x) {
        var i :| 0 <= i < |stops| && SubRangeStart(start, stops, i) <= x <= stops[i];
        SubRangeInside(start, stops, i, x);
      }
    }
  }

  /** Every point of a sub-range lies between start and the last stop. */
  lemma SubRangeInside(start: int, stops: seq<int>, i: int, x: int)
    requires |stops| > 0 && StrictlyAscending(stops) && start <= stops[0]
    requires 0 <= i < |stops| && SubRangeStart(start, stops, i) <= x <= stops[i]
    ensures start <= x <= Last(stops)
  {
    if i > 0 {
      assert start <= stops[0] <= stops[i - 1];
    }
    if i < |stops| - 1 {
      assert stops[i] < Last(stops);
    }
  }

  /** The sub-ranges `split_to_patterns` prints partition [min, max]. */
  lemma SplitPartition(min: int, max: int)
    requires 0 <= min <= max
    ensures forall i :: 0 <= i < |SplitToRanges(min, max)| ==>
      SubRangeStart(min, SplitToRanges(min, max), i) <= SplitToRanges(min, max)[i]
    ensures forall i, j :: 0 <= i < j < |SplitToRanges(min, max)| ==>
      SplitToRanges(min, max)[i] < SubRangeStart(min, SplitToRanges(min, max), j)
    ensures forall x :: Covered(min, SplitToRanges(min, max), x) <==> min <= x <= max
  {
    SplitToRangesShape(min, max);
    SubRangesPartition(min, SplitToRanges(min, max));
  }
}
