/** The one place where the model departs from src/fill_by_nines.rs.

    `fill_by_nines` returns 10^k - 1 when n is a multiple of 10^k. For n = 0
    that is the block end the rest of the algorithm needs, but for a positive
    multiple it is a number below n. The nines stepper then yields nothing,
    and the first sub-range runs from min to the first zeros stop. When that
    stop has more digits than min, as on (20, 200), the digit-by-digit walk
    of `range_to_pattern` prints a fragment for the wrong numbers; on other
    such starts, (10, 20) for one, the cut is the corrected one. This module
    keeps the code as written and shows the damage on (20, 200); the rest of
    the model uses the block end for every n (`FillByNines.FillByNines`).
    The shape of the stops and the partition of [min, max] hold as written
    on every start (`SplitToRangesAsWrittenShape`, `SplitPartitionAsWritten`).

    The two rules differ only where `split_to_ranges` starts at a positive
    multiple of ten. Everywhere else (every input of the crate's own tests
    among them) the pipeline as written returns what the corrected one
    returns, so the results proved about the corrected model hold for it. */
module Findings {
  import opened Decimal
  import FillByNines
  import FillByZeros
  import Merge
  import Split
  import Pattern
  import Digits
  import Pinned
  import RangeRegex
  import Blocks

  /** `fill_by_nines(n, k)` as written. Off the multiples of 10^k it is the
      round-down-plus-nines computation the corrected rule applies to every n;
      on them it is 10^k - 1. */
  function FillByNinesAsWritten(n: int, k: nat): (r: int)
    requires n >= 0
    ensures r >= Pow10(k) - 1
    ensures r % Pow10(k) == Pow10(k) - 1
    ensures n % Pow10(k) != 0 ==> r == FillByNines.FillByNines(n, k)
    ensures n % Pow10(k) == 0 ==> r == Pow10(k) - 1
  {
    var offset := Pow10(k);
    if n % offset == 0 then
      DivModUnique(offset - 1, offset, 0, offset - 1);
      offset - 1
    else
      FillByNines.FillByNines(n, k)
  }

  /** On a positive multiple of 10^k the candidate as written lies below n,
      where the block end lies at or above it. */
  lemma AsWrittenBelowStart(n: int, k: nat)
    requires n > 0 && n % Pow10(k) == 0
    ensures FillByNinesAsWritten(n, k) < n <= FillByNines.FillByNines(n, k)
  {
    FillByZeros.MultipleAtLeast(n, Pow10(k));
  }

  /** `FillByNinesIterator::next` as written, from k trailing nines on. */
  function NinesFromAsWritten(min: int, max: int, k: nat): (s: seq<int>)
    requires min >= 0
    ensures forall i :: 0 <= i < |s| ==> min <= s[i] <= max
    decreases max + 1 - Pow10(k)
  {
    var stop := FillByNinesAsWritten(min, k);
    if min <= stop && stop <= max then
      assert Pow10(k + 1) == 10 * Pow10(k);
      [stop] + NinesFromAsWritten(min, max, k + 1)
    else
      []
  }

  /** A start on which the two rules agree: 0, or not a multiple of ten. */
  predicate CleanStart(n: int) {
    n == 0 || n % 10 != 0
  }

  /** A number that is not a multiple of ten is a multiple of no 10^k with
      k >= 1. */
  lemma NotMultiple(n: int, k: nat)
    requires n >= 0 && n % 10 != 0 && k >= 1
    ensures n % Pow10(k) != 0
  {
    DivModNested(n, Pow10(k - 1));
  }

  /** On a clean start the fill as written is the block end, for every
      k >= 1. */
  lemma AgreeOnStart(n: int, k: nat)
    requires n >= 0 && CleanStart(n) && k >= 1
    ensures FillByNinesAsWritten(n, k) == FillByNines.FillByNines(n, k)
  {
    if n == 0 {
      DivModUnique(0, Pow10(k), 0, 0);
    } else {
      NotMultiple(n, k);
    }
  }

  /** On a clean start the stepper as written yields what the corrected one
      yields. */
  lemma {:induction false} NinesFromAgree(min: int, max: int, k: nat)
    requires min >= 0 && CleanStart(min) && k >= 1
    ensures NinesFromAsWritten(min, max, k) == FillByNines.NinesFrom(min, max, k)
    decreases max + 1 - Pow10(k)
  {
    AgreeOnStart(min, k);
    if min <= FillByNines.FillByNines(min, k) <= max {
      assert Pow10(k + 1) == 10 * Pow10(k);
      NinesFromAgree(min, max, k + 1);
    }
  }

  /** The nines stops as written: the corrected ones on a clean start, none on
      a positive multiple of ten. */
  lemma NinesAsWritten(min: int, max: int)
    requires 0 <= min <= max
    ensures CleanStart(min) ==> NinesFromAsWritten(min, max, 1) == FillByNines.Nines(min, max)
    ensures !CleanStart(min) ==> NinesFromAsWritten(min, max, 1) == []
  {
    if CleanStart(min) {
      NinesFromAgree(min, max, 1);
    } else {
      NinesAsWrittenEmpty(min, max);
    }
  }

  /** `split_to_ranges` over the stepper as written. On a clean start it is
      the corrected `Split.SplitToRanges`; on a positive multiple of ten only
      max and the zeros stops remain. */
  function SplitToRangesAsWritten(min: int, max: int): (stops: seq<int>)
    requires 0 <= min <= max
    ensures CleanStart(min) ==> stops == Split.SplitToRanges(min, max)
    ensures !CleanStart(min) ==> stops == Merge.MergeDescToAsc([max], FillByZeros.Zeros(min, max))
  {
    NinesAsWritten(min, max);
    assert Split.Reverse(Split.PushMax(Split.Collapse([]), max)) == [max];
    var ascending := Split.PushMax(Split.Collapse(NinesFromAsWritten(min, max, 1)), max);
    Merge.MergeDescToAsc(Split.Reverse(ascending), FillByZeros.Zeros(min, max))
  }

  /** `split_to_patterns` over the stops as written. */
  function SplitToPatternsAsWritten(min: int, max: int): (ps: seq<string>)
    requires 0 <= min <= max
    ensures CleanStart(min) ==> ps == Split.SplitToPatterns(min, max)
  {
    Split.PatternsFrom(min, SplitToRangesAsWritten(min, max))
  }

  /** `negative_subpatterns` over the stops as written. */
  function NegativePatternsAsWritten(min: int, max: int): (ps: seq<string>)
    requires min <= max
    ensures min >= 0 ==> ps == []
    ensures min < 0 && CleanStart(RangeRegex.NegativeMagnitudes(min, max).0) ==> ps == RangeRegex.NegativePatterns(min, max)
  {
    if min < 0 then
      var m := RangeRegex.NegativeMagnitudes(min, max);
      SplitToPatternsAsWritten(m.0, m.1)
    else []
  }

  /** `positive_subpatterns` over the stops as written. */
  function PositivePatternsAsWritten(min: int, max: int): (ps: seq<string>)
    requires min <= max
    ensures max < 0 ==> ps == []
    ensures max >= 0 && CleanStart(RangeRegex.PositiveStart(min)) ==> ps == RangeRegex.PositivePatterns(min, max)
  {
    if max >= 0 then
      SplitToPatternsAsWritten(RangeRegex.PositiveStart(min), max)
    else []
  }

  /** `regex_for_range` over the fill as written: the same two parts and the
      same assembly, each part split as written, joined by `|`. */
  function RegexForRangeAsWritten(min: int, max: int): (r: string)
    requires RangeRegex.I32Min <= min <= max <= RangeRegex.I32Max
    ensures r == RangeRegex.Join(RangeRegex.Alternatives(NegativePatternsAsWritten(min, max), PositivePatternsAsWritten(min, max)), "|")
  {
    RangeRegex.Assemble(NegativePatternsAsWritten(min, max), PositivePatternsAsWritten(min, max))
  }

  /** The entry point as written returns the corrected regex whenever each
      part it splits starts cleanly: a non-negative min that is 0 or not a
      multiple of ten, and, for an all-negative range, a max whose magnitude
      is not a multiple of ten. A range across zero always starts cleanly (at
      magnitude 1 and at 0). */
  lemma RegexAsWrittenAgrees(min: int, max: int)
    requires RangeRegex.I32Min <= min <= max <= RangeRegex.I32Max
    requires min >= 0 ==> CleanStart(min)
    requires max < 0 ==> CleanStart(-max)
    ensures RegexForRangeAsWritten(min, max) == RangeRegex.RegexForRange(min, max)
  {
    if min < 0 {
      assert CleanStart(RangeRegex.NegativeMagnitudes(min, max).0);
    }
    if max >= 0 {
      assert CleanStart(RangeRegex.PositiveStart(min));
    }
  }

  /** So on a clean start every sub-range cut as written is a block, as
      `Blocks.SplitBlocks` proves for the corrected rule. */
  lemma AsWrittenBlocks(min: int, max: int)
    requires 0 <= min <= max && CleanStart(min)
    ensures forall i :: 0 <= i < |SplitToRangesAsWritten(min, max)| ==>
      Blocks.IsSomeBlock(Split.SubRangeStart(min, SplitToRangesAsWritten(min, max), i), SplitToRangesAsWritten(min, max)[i])
  {
    Blocks.SplitBlocks(min, max);
  }

  /** On a positive multiple of ten the stops as written, max merged with the
      zeros stream, still have the shape of `Split.SplitToRangesShape`. */
  lemma MergedZerosShape(min: int, max: int)
    requires 0 <= min <= max
    ensures |Merge.MergeDescToAsc([max], FillByZeros.Zeros(min, max))| > 0
    ensures Merge.StrictlyAscending(Merge.MergeDescToAsc([max], FillByZeros.Zeros(min, max)))
    ensures forall i :: 0 <= i < |Merge.MergeDescToAsc([max], FillByZeros.Zeros(min, max))| ==>
      min <= Merge.MergeDescToAsc([max], FillByZeros.Zeros(min, max))[i] <= max
    ensures Split.Last(Merge.MergeDescToAsc([max], FillByZeros.Zeros(min, max))) == max
  {
    var z := FillByZeros.Zeros(min, max);
    forall i, j | 0 <= i < j < |z|
      ensures z[i] >= z[j]
    {
      FillByZeros.ZerosNonIncreasing(min, max, i, j);
    }
    Merge.MergeDescToAscSorted([max], z);
    var r := Merge.MergeDescToAsc([max], z);
    forall i | 0 <= i < |r|
      ensures min <= r[i] <= max
    {
      assert r[i] in r;
    }
    assert max in r;
    var k :| 0 <= k < |r| && r[k] == max;
    Split.AscendingLast(r, k);
  }

  /** The stops as written are non-empty, strictly ascending, lie in
      [min, max] and end at max, for every start. */
  lemma SplitToRangesAsWrittenShape(min: int, max: int)
    requires 0 <= min <= max
    ensures |SplitToRangesAsWritten(min, max)| > 0
    ensures Merge.StrictlyAscending(SplitToRangesAsWritten(min, max))
    ensures forall i :: 0 <= i < |SplitToRangesAsWritten(min, max)| ==>
      min <= SplitToRangesAsWritten(min, max)[i] <= max
    ensures Split.Last(SplitToRangesAsWritten(min, max)) == max
  {
    if CleanStart(min) {
      Split.SplitToRangesShape(min, max);
    } else {
      MergedZerosShape(min, max);
    }
  }

  /** So the sub-ranges cut as written partition [min, max] on every start,
      as `Split.SplitPartition` proves for the corrected stops. */
  lemma SplitPartitionAsWritten(min: int, max: int)
    requires 0 <= min <= max
    ensures forall i :: 0 <= i < |SplitToRangesAsWritten(min, max)| ==>
      Split.SubRangeStart(min, SplitToRangesAsWritten(min, max), i) <= SplitToRangesAsWritten(min, max)[i]
    ensures forall i, j :: 0 <= i < j < |SplitToRangesAsWritten(min, max)| ==>
      SplitToRangesAsWritten(min, max)[i] < Split.SubRangeStart(min, SplitToRangesAsWritten(min, max), j)
    ensures forall x :: Split.Covered(min, SplitToRangesAsWritten(min, max), x) <==> min <= x <= max
  {
    SplitToRangesAsWrittenShape(min, max);
    Split.SubRangesPartition(min, SplitToRangesAsWritten(min, max));
  }

  /** The fragments as written are at least one, each non-empty and free of
      `|`, on every start. */
  lemma PatternsAsWrittenFragments(min: int, max: int)
    requires 0 <= min <= max
    ensures |SplitToPatternsAsWritten(min, max)| > 0
    ensures RangeRegex.Fragments(SplitToPatternsAsWritten(min, max))
  {
    SplitToRangesAsWrittenShape(min, max);
    var ps := SplitToPatternsAsWritten(min, max);
    var stops := SplitToRangesAsWritten(min, max);
    forall i | 0 <= i < |ps|
      ensures |ps[i]| > 0 && '|' !in ps[i]
    {
      var f := Pattern.RangeToPattern(Split.SubRangeStart(min, stops, i), stops[i]);
    }
  }

  /** The regex as written, too, splits at `|` into exactly the alternatives
      it was built from, on every input. */
  lemma RegexAlternativesAsWritten(min: int, max: int)
    requires RangeRegex.I32Min <= min <= max <= RangeRegex.I32Max
    ensures |RangeRegex.Alternatives(NegativePatternsAsWritten(min, max), PositivePatternsAsWritten(min, max))| > 0
    ensures RangeRegex.Fragments(RangeRegex.Alternatives(NegativePatternsAsWritten(min, max), PositivePatternsAsWritten(min, max)))
    ensures RangeRegex.SplitOn(RegexForRangeAsWritten(min, max), '|') ==
      RangeRegex.Alternatives(NegativePatternsAsWritten(min, max), PositivePatternsAsWritten(min, max))
  {
    var neg, pos := NegativePatternsAsWritten(min, max), PositivePatternsAsWritten(min, max);
    if min < 0 {
      var m := RangeRegex.NegativeMagnitudes(min, max);
      PatternsAsWrittenFragments(m.0, m.1);
    }
    if max >= 0 {
      PatternsAsWrittenFragments(RangeRegex.PositiveStart(min), max);
    }
    RangeRegex.AlternativesNonEmpty(neg, pos);
    RangeRegex.AlternativesFragments(neg, pos);
    RangeRegex.SplitOnJoin(RangeRegex.Alternatives(neg, pos), '|');
  }

  /** For a positive multiple of ten the stepper as written yields nothing:
      its first candidate is 9. */
  lemma NinesAsWrittenEmpty(min: int, max: int)
    requires min > 0 && min % 10 == 0
    ensures NinesFromAsWritten(min, max, 1) == []
  {
    assert Pow10(1) == 10;
    assert FillByNinesAsWritten(min, 1) == 9;
  }

  lemma Zeros20To200()
    ensures FillByZeros.Zeros(20, 200) == [199, 199]
  {
    assert FillByZeros.FillByZeros(201, 3) == 0;
    Pinned.ZerosEnd(20, 200, 3, -1);
    assert FillByZeros.FillByZeros(201, 2) == 200;
    Pinned.Cons1(199);
    Pinned.ZerosStep(20, 200, 2, 199, [], [199]);
    assert FillByZeros.FillByZeros(201, 1) == 200;
    Pinned.Cons2(199, 199);
    Pinned.ZerosStep(20, 200, 1, 199, [199], [199, 199]);
  }

  lemma SplitAsWritten20To200()
    ensures SplitToRangesAsWritten(20, 200) == [199, 200]
  {
    NinesAsWrittenEmpty(20, 200);
    Zeros20To200();
    assert Split.Reverse(Split.PushMax(Split.Collapse([]), 200)) == [200];
    assert Merge.MergeDescToAsc([200], [199, 199]) == [199, 200];
  }

  lemma DigitStrings20And199()
    ensures Digits.DigitString(20) == "20" && Digits.DigitString(199) == "199"
  {
    Digits.DigitStringIsShow(20);
    Digits.DigitStringIsShow(199);
    assert NatStr(20) == "20" && NatStr(199) == "199" by {
      assert NatStr(19) == "19";
    }
  }

  lemma Walk20And199()
    ensures Pattern.Zip("20", "199") == [('2', '1'), ('0', '9')]
  {
  }

  lemma Text20And199(ps: seq<(char, char)>)
    requires ps == [('2', '1'), ('0', '9')]
    ensures Pattern.Body(ps) + Pattern.AnyDigits(Pattern.FreeCount(ps)) == "[2-1]\\d"
  {
    assert ps[1..] == [('0', '9')];
    assert ps[1..][1..] == [];
    assert Pattern.Piece(ps[0]) == "[2-1]";
    assert Pattern.Piece(ps[1]) == "";
    assert Pattern.Body(ps[1..][1..]) == "";
    assert Pattern.Body(ps[1..]) == "";
    assert Pattern.Body(ps) == "[2-1]";
    assert Pattern.FreeCount(ps) == 1;
    assert Pattern.AnyDigits(1) == "\\d";
  }

  /** The walk over "20" and "199" stops after two positions. */
  lemma Pattern20To199()
    ensures Pattern.RangeToPattern(20, 199) == "[2-1]\\d"
  {
    DigitStrings20And199();
    Walk20And199();
    Text20And199(Pattern.Zip("20", "199"));
  }

  /** With the stepper as written, [20, 200] is cut into [20, 199] and
      [200, 200], and the first sub-range prints `[2-1]\d`: a class range
      from 2 down to 1, which a regex parser rejects as malformed, so the
      returned string is no valid regex at all. */
  lemma AsWritten20To200()
    ensures SplitToRangesAsWritten(20, 200) == [199, 200]
    ensures Pattern.RangeToPattern(20, 199) == "[2-1]\\d"
  {
    SplitAsWritten20To200();
    Pattern20To199();
  }

  // ---------------------------------------------------------------------------
  // The same range with the block end.

  lemma Nines20To200()
    ensures FillByNines.Nines(20, 200) == [29, 99]
  {
    assert FillByNines.FillByNines(20, 3) == 999;
    Pinned.NinesEnd(20, 200, 3, 999);
    assert FillByNines.FillByNines(20, 2) == 99;
    Pinned.Cons1(99);
    Pinned.NinesStep(20, 200, 2, 99, [], [99]);
    assert FillByNines.FillByNines(20, 1) == 29;
    Pinned.Cons2(29, 99);
    Pinned.NinesStep(20, 200, 1, 29, [99], [29, 99]);
  }

  lemma Reversed20To200()
    ensures Split.Reverse(Split.PushMax(Split.Collapse([29, 99]), 200)) == [200, 99, 29]
  {
    assert Split.Collapse([29, 99]) == [29, 99];
    assert Split.PushMax([29, 99], 200) == [29, 99, 200];
    assert Split.Reverse([29, 99, 200]) == [200, 99, 29];
  }

  lemma Merge20To200()
    ensures Merge.MergeDescToAsc([200, 99, 29], [199, 199]) == [29, 99, 199, 200]
  {
  }

  /** The block end cuts [20, 200] into 20-29, 30-99, 100-199 and 200, each
      within one digit length. */
  lemma Stops20To200()
    ensures Split.SplitToRanges(20, 200) == [29, 99, 199, 200]
  {
    Nines20To200();
    Zeros20To200();
    Reversed20To200();
    Merge20To200();
    Pinned.StopsFrom(20, 200, [29, 99], [199, 199], [29, 99, 199, 200]);
  }

  const Stops200: seq<int> := [200]
  const Stops100: seq<int> := [199] + Stops200
  const Stops30: seq<int> := [99] + Stops100
  const Stops20: seq<int> := [29] + Stops30

  const Texts200: seq<string> := ["200"]
  const Texts100: seq<string> := ["1\\d{2}"] + Texts200
  const Texts30: seq<string> := ["[3-9]\\d"] + Texts100
  const Texts20: seq<string> := ["2\\d"] + Texts30

  lemma Pattern200()
    ensures Pattern.RangeToPattern(200, 200) == "200"
  {
    assert NatStr(20) == "20";
    Pinned.BlockText(200, 200, 0, 200, 200, "200");
  }

  lemma Pattern100To199()
    ensures Pattern.RangeToPattern(100, 199) == "1\\d{2}"
  {
    assert Pattern.AnyDigits(2) == "\\d{2}";
    Pinned.BlockText(1, 1, 2, 100, 199, "1\\d{2}");
  }

  lemma Pattern30To99()
    ensures Pattern.RangeToPattern(30, 99) == "[3-9]\\d"
  {
    Pinned.BlockText(3, 9, 1, 30, 99, "[3-9]\\d");
  }

  lemma Pattern20To29()
    ensures Pattern.RangeToPattern(20, 29) == "2\\d"
  {
    Pinned.BlockText(2, 2, 1, 20, 29, "2\\d");
  }

  lemma PatternsFrom200()
    ensures Split.PatternsFrom(200, Stops200) == Texts200
  {
    Pattern200();
    Pinned.PatternsStep(200, 200, [], "200", []);
  }

  lemma PatternsFrom100()
    ensures Split.PatternsFrom(100, Stops100) == Texts100
  {
    PatternsFrom200();
    Pattern100To199();
    Pinned.PatternsStep(100, 199, Stops200, "1\\d{2}", Texts200);
  }

  lemma PatternsFrom30()
    ensures Split.PatternsFrom(30, Stops30) == Texts30
  {
    PatternsFrom100();
    Pattern30To99();
    Pinned.PatternsStep(30, 99, Stops100, "[3-9]\\d", Texts100);
  }

  lemma PatternsFrom20()
    ensures Split.PatternsFrom(20, Stops20) == Texts20
  {
    PatternsFrom30();
    Pattern20To29();
    Pinned.PatternsStep(20, 29, Stops30, "2\\d", Texts30);
  }

  lemma Stops20Listed()
    ensures Stops20 == [29, 99, 199, 200]
  {
  }

  lemma Patterns20To200()
    ensures Split.SplitToPatterns(20, 200) == Texts20
  {
    Stops20To200();
    Stops20Listed();
    PatternsFrom20();
  }

  lemma Joined100()
    ensures RangeRegex.Join(Texts100, "|") == "1\\d{2}|200"
  {
    Pinned.JoinCons("1\\d{2}", Texts200, "|", "200", "1\\d{2}|200");
  }

  lemma Joined30()
    ensures RangeRegex.Join(Texts30, "|") == "[3-9]\\d|1\\d{2}|200"
  {
    Joined100();
    Pinned.JoinCons("[3-9]\\d", Texts100, "|", "1\\d{2}|200", "[3-9]\\d|1\\d{2}|200");
  }

  lemma Joined20()
    ensures RangeRegex.Join(Texts20, "|") == "2\\d|[3-9]\\d|1\\d{2}|200"
  {
    Joined30();
    Pinned.JoinCons("2\\d", Texts30, "|", "[3-9]\\d|1\\d{2}|200", "2\\d|[3-9]\\d|1\\d{2}|200");
  }

  /** With the block end, `regex_for_range(20, 200)` is the alternation the
      algorithm is built to produce. */
  lemma Corrected20To200()
    ensures RangeRegex.RegexForRange(20, 200) == "2\\d|[3-9]\\d|1\\d{2}|200"
  {
    Patterns20To200();
    Joined20();
    Pinned.FromPatterns(20, 200, Texts20, "2\\d|[3-9]\\d|1\\d{2}|200");
  }

  // ---------------------------------------------------------------------------
  // The crate's own tests, as written.

  /** The tests with non-negative bounds give the same strings as written. */
  lemma NonNegativeTestsAsWritten()
    ensures RegexForRangeAsWritten(1, 1) == "1"
    ensures RegexForRangeAsWritten(0, 1) == "[0-1]"
    ensures RegexForRangeAsWritten(0, 2) == "[0-2]"
  {
    RegexAsWrittenAgrees(1, 1);
    Pinned.Regex1To1();
    RegexAsWrittenAgrees(0, 1);
    Pinned.Regex0To1();
    RegexAsWrittenAgrees(0, 2);
    Pinned.Regex0To2();
  }

  /** The all-negative tests give the same strings as written. */
  lemma NegativeTestsAsWritten()
    ensures RegexForRangeAsWritten(-1, -1) == "-1"
    ensures RegexForRangeAsWritten(-4, -2) == "-[2-4]"
  {
    RegexAsWrittenAgrees(-1, -1);
    Pinned.RegexNeg1ToNeg1();
    RegexAsWrittenAgrees(-4, -2);
    Pinned.RegexNeg4ToNeg2();
  }

  /** The tests across zero that end at 0 or 1 give the same strings as written. */
  lemma CrossingTestsAsWritten()
    ensures RegexForRangeAsWritten(-1, 0) == "-1|0"
    ensures RegexForRangeAsWritten(-1, 1) == "-1|[0-1]"
    ensures RegexForRangeAsWritten(-3, 1) == "-[1-3]|[0-1]"
  {
    RegexAsWrittenAgrees(-1, 0);
    Pinned.RegexNeg1To0();
    RegexAsWrittenAgrees(-1, 1);
    Pinned.RegexNeg1To1();
    RegexAsWrittenAgrees(-3, 1);
    Pinned.RegexNeg3To1();
  }

  /** The remaining tests across zero give the same strings as written. */
  lemma MoreCrossingTestsAsWritten()
    ensures RegexForRangeAsWritten(-2, 0) == "-[1-2]|0"
    ensures RegexForRangeAsWritten(-1, 3) == "-1|[0-3]"
  {
    RegexAsWrittenAgrees(-2, 0);
    Pinned.RegexNeg2To0();
    RegexAsWrittenAgrees(-1, 3);
    Pinned.RegexNeg1To3();
  }

  /** The larger inputs of the crate's tests give the same strings as written. */
  lemma LargeTestsAsWritten()
    ensures RegexForRangeAsWritten(65666, 65667) == "6566[6-7]"
    ensures RegexForRangeAsWritten(12, 3456)
      == "1[2-9]|[2-9]\\d|" + "[1-9]\\d{2}|[1-2]\\d{3}|3[0-3]\\d{2}|34[0-4]\\d|345[0-6]"
    ensures RegexForRangeAsWritten(1, 19) == "[1-9]|1\\d"
    ensures RegexForRangeAsWritten(1, 99) == "[1-9]|[1-9]\\d"
  {
    RegexAsWrittenAgrees(65666, 65667);
    Pinned.Regex65666To65667();
    RegexAsWrittenAgrees(12, 3456);
    Pinned.Regex12To3456();
    RegexAsWrittenAgrees(1, 19);
    Pinned.Regex1To19();
    RegexAsWrittenAgrees(1, 99);
    Pinned.Regex1To99();
  }
}
