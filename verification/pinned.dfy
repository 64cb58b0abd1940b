/** The outputs the source's tests pin down (src/lib.rs:192-216), derived
    from the model layer by layer: the steppers' stops, the fragments of the
    sub-ranges, and the assembly. */
module Pinned {
  import opened Decimal
  import opened RangeRegex
  import FillByNines
  import FillByZeros
  import Merge
  import Split
  import Pattern

  /** When neither stepper yields a stop, the range is one sub-range and one
      fragment. */
  lemma OneStop(a: int, b: int)
    requires 0 <= a <= b
    requires !(a <= FillByNines.FillByNines(a, 1) <= b)
    requires !(a < FillByZeros.FillByZeros(b + 1, 1) - 1 <= b)
    ensures Split.SplitToRanges(a, b) == [b]
    ensures Split.SplitToPatterns(a, b) == [Pattern.RangeToPattern(a, b)]
  {
    assert FillByNines.Nines(a, b) == [];
    assert FillByZeros.Zeros(a, b) == [];
    assert Split.PushMax(Split.Collapse([]), b) == [b];
    assert Split.Reverse([b]) == [b];
    assert Merge.MergeInner([b], 1, []) == [];
    assert Merge.MergeDescToAsc([b], []) == [b];
  }

  /** A range inside 0..8 is a single sub-range. */
  lemma SmallOneStop(a: int, b: int)
    requires 0 <= a <= b <= 8
    ensures Split.SplitToRanges(a, b) == [b]
    ensures Split.SplitToPatterns(a, b) == [Pattern.RangeToPattern(a, b)]
  {
    assert Pow10(1) == 10;
    assert FillByNines.FillByNines(a, 1) == 9 by {
      if a > 0 {
        DivModUnique(a, 10, 0, a);
      }
    }
    assert FillByZeros.FillByZeros(b + 1, 1) == 0 by {
      DivModUnique(b + 1, 10, 0, b + 1);
    }
    OneStop(a, b);
  }

  /** A range inside 0..8 prints the digit or the class its bounds give. */
  lemma SmallPattern(a: int, b: int)
    requires 0 <= a <= b <= 8
    ensures Pattern.RangeToPattern(a, b) == Pattern.Lead(a, b)
  {
    assert Pow10(0) == 1;
    assert a * Pow10(0) == a && b * Pow10(0) + (Pow10(0) - 1) == b;
    assert a / 10 == 0 && a % 10 == a by {
      DivModUnique(a, 10, 0, a);
    }
    assert b / 10 == 0 && b % 10 == b by {
      DivModUnique(b, 10, 0, b);
    }
    Pattern.BlockPattern(a, b, 0, a, b);
    assert Pattern.PrefixStr(0) == "" && Pattern.AnyDigits(0) == "";
  }

  /** [min, max] inside 0..8: one fragment. */
  lemma SmallRange(min: int, max: int, text: string)
    requires 0 <= min <= max <= 8
    requires text == Pattern.Lead(min, max)
    ensures RegexForRange(min, max) == text
  {
    SmallOneStop(min, max);
    SmallPattern(min, max);
    NonNegativeRange(min, max);
  }

  /** The magnitudes [a, b] inside 1..8 print one fragment; written with
      `-` in front and joined, that is the whole text. */
  lemma NegativeText(a: int, b: int, text: string)
    requires 1 <= a <= b <= 8
    requires text == "-" + Pattern.Lead(a, b)
    ensures Join(Prefixed("-", Split.SplitToPatterns(a, b)), "|") == text
  {
    SmallOneStop(a, b);
    SmallPattern(a, b);
    PrefixedOne("-", Pattern.Lead(a, b));
  }

  /** A range of negatives [-hi, -lo] with one-digit magnitudes below 9: one
      fragment, with `-` in front. */
  lemma BelowZero(lo: int, hi: int, text: string)
    requires 1 <= lo <= hi <= 8
    requires text == "-" + Pattern.Lead(lo, hi)
    ensures RegexForRange(-hi, -lo) == text
  {
    NegativeText(lo, hi, text);
    NegativeRange(lo, hi);
  }

  lemma PrefixedOne(p: string, x: string)
    ensures Prefixed(p, [x]) == [p + x]
  {
  }

  /** A magnitude range starting at 1 and a range starting at 0 never print
      the same fragment: their first digits differ. */
  lemma LeadsDiffer(a: int, b: int)
    requires 1 <= a <= 8 && 0 <= b <= 8
    ensures Pattern.Lead(1, a) != Pattern.Lead(0, b)
  {
    var n, p := Pattern.Lead(1, a), Pattern.Lead(0, b);
    if a == 1 {
      assert n[0] == '1' && p[0] != '1';
    } else {
      assert |n| == 5 && n[1] == '1';
      assert |p| != 5 || p[1] == '0';
    }
  }

  /** One negative and one positive fragment, different from each other: the
      negative alternative comes first. */
  lemma TwoAlternatives(n: string, p: string)
    requires n != p
    ensures Assemble([n], [p]) == "-" + n + "|" + p
  {
    assert Without([n], [p]) == [n];
    assert Without([p], [n]) == [p];
    assert Within([n], [p]) == [];
    assert Alternatives([n], [p]) == ["-" + n, p];
    assert Join(["-" + n, p], "|") == "-" + n + "|" + p by {
      assert ["-" + n, p][1..] == [p];
    }
  }

  /** A range across zero with one-digit bounds below 9: one fragment for the
      magnitudes, one for the non-negatives. */
  lemma AcrossZero(min: int, max: int, text: string)
    requires -8 <= min < 0 <= max <= 8
    requires text == "-" + Pattern.Lead(1, -min) + "|" + Pattern.Lead(0, max)
    ensures RegexForRange(min, max) == text
  {
    SmallOneStop(1, -min);
    SmallOneStop(0, max);
    SmallPattern(1, -min);
    SmallPattern(0, max);
    LeadsDiffer(-min, max);
    TwoAlternatives(Pattern.Lead(1, -min), Pattern.Lead(0, max));
  }

  lemma Regex1To1()
    ensures RegexForRange(1, 1) == "1"
  {
    SmallRange(1, 1, "1");
  }

  lemma Regex0To1()
    ensures RegexForRange(0, 1) == "[0-1]"
  {
    SmallRange(0, 1, "[0-1]");
  }

  lemma Regex0To2()
    ensures RegexForRange(0, 2) == "[0-2]"
  {
    SmallRange(0, 2, "[0-2]");
  }

  lemma RegexNeg1ToNeg1()
    ensures RegexForRange(-1, -1) == "-1"
  {
    BelowZero(1, 1, "-1");
  }

  lemma RegexNeg4ToNeg2()
    ensures RegexForRange(-4, -2) == "-[2-4]"
  {
    BelowZero(2, 4, "-[2-4]");
  }

  lemma RegexNeg1To0()
    ensures RegexForRange(-1, 0) == "-1|0"
  {
    AcrossZero(-1, 0, "-1|0");
  }

  lemma RegexNeg1To1()
    ensures RegexForRange(-1, 1) == "-1|[0-1]"
  {
    AcrossZero(-1, 1, "-1|[0-1]");
  }

  lemma RegexNeg3To1()
    ensures RegexForRange(-3, 1) == "-[1-3]|[0-1]"
  {
    AcrossZero(-3, 1, "-[1-3]|[0-1]");
  }

  lemma RegexNeg2To0()
    ensures RegexForRange(-2, 0) == "-[1-2]|0"
  {
    AcrossZero(-2, 0, "-[1-2]|0");
  }

  lemma RegexNeg1To3()
    ensures RegexForRange(-1, 3) == "-1|[0-3]"
  {
    AcrossZero(-1, 3, "-1|[0-3]");
  }

  // ---------------------------------------------------------------------------
  // Ranges with several digits.

  /** A block whose text is known: the block fragment with its bounds
      named. */
  lemma BlockText(lo: int, hi: int, j: nat, start: int, stop: int, text: string)
    requires 0 <= lo <= hi && lo / 10 == hi / 10 && (lo >= 1 || j == 0)
    requires start == lo * Pow10(j) && stop == hi * Pow10(j) + (Pow10(j) - 1)
    requires text == Pattern.PrefixStr(lo / 10) + Pattern.Lead(lo % 10, hi % 10)
      + Pattern.AnyDigits(if lo % 10 == 0 && hi % 10 == 9 then j + 1 else j)
    ensures Pattern.RangeToPattern(start, stop) == text
  {
    Pattern.BlockPattern(lo, hi, j, start, stop);
  }

  /** One step of the fragment loop: the fragment of the first sub-range,
      then those of the rest. */
  lemma PatternsStep(start: int, stop: int, rest: seq<int>, text: string, texts: seq<string>)
    requires Pattern.RangeToPattern(start, stop) == text
    requires Split.PatternsFrom(stop + 1, rest) == texts
    ensures Split.PatternsFrom(start, [stop] + rest) == [text] + texts
  {
    TailOfCons(stop, rest);
    Split.PatternsFromCons(start, [stop] + rest);
  }

  lemma TailOfCons(x: int, rest: seq<int>)
    ensures ([x] + rest)[0] == x && ([x] + rest)[1..] == rest
  {
  }

  /** A non-negative range whose fragments are known prints them joined. */
  lemma FromPatterns(min: int, max: int, texts: seq<string>, text: string)
    requires 0 <= min <= max <= I32Max
    requires Split.SplitToPatterns(min, max) == texts
    requires Join(texts, "|") == text
    ensures RegexForRange(min, max) == text
  {
    NonNegativeRange(min, max);
  }

  lemma Prefix6566()
    ensures Pattern.PrefixStr(6566) == "6566"
  {
    assert NatStr(65) == "65";
    assert NatStr(656) == "656";
  }

  lemma Pattern65666()
    ensures Pattern.RangeToPattern(65666, 65667) == "6566[6-7]"
  {
    Prefix6566();
    assert Pattern.Lead(6, 7) == "[6-7]";
    BlockText(65666, 65667, 0, 65666, 65667, "6566[6-7]");
  }

  lemma Patterns65666To65667()
    ensures Split.SplitToPatterns(65666, 65667) == ["6566[6-7]"]
  {
    assert Pow10(1) == 10;
    assert FillByNines.FillByNines(65666, 1) == 65669;
    assert FillByZeros.FillByZeros(65668, 1) == 65660;
    OneStop(65666, 65667);
    Pattern65666();
  }

  lemma Regex65666To65667()
    ensures RegexForRange(65666, 65667) == "6566[6-7]"
  {
    Patterns65666To65667();
    FromPatterns(65666, 65667, ["6566[6-7]"], "6566[6-7]");
  }

  /** Sequence facts kept apart from the steppers' contracts, whose
      quantifiers make even a small sequence equality expensive. */
  lemma Cons1(a: int)
    ensures [a] + [] == [a]
  {
  }

  lemma Cons2(a: int, b: int)
    ensures [a] + [b] == [a, b]
  {
  }

  lemma Cons3(a: int, b: int, c: int)
    ensures [a] + [b, c] == [a, b, c]
  {
  }

  /** One step of the ascending stepper: a candidate inside the range is
      yielded before the rest. */
  lemma NinesStep(min: int, max: int, k: nat, v: int, rest: seq<int>, s: seq<int>)
    requires 0 <= min && FillByNines.FillByNines(min, k) == v && min <= v <= max
    requires FillByNines.NinesFrom(min, max, k + 1) == rest && s == [v] + rest
    ensures FillByNines.NinesFrom(min, max, k) == s
  {
  }

  /** The ascending stepper ends at the first candidate outside the range. */
  lemma NinesEnd(min: int, max: int, k: nat, v: int)
    requires 0 <= min && FillByNines.FillByNines(min, k) == v && !(min <= v <= max)
    ensures FillByNines.NinesFrom(min, max, k) == []
  {
  }

  /** One step of the descending stepper. */
  lemma ZerosStep(min: int, max: int, k: nat, v: int, rest: seq<int>, s: seq<int>)
    requires 0 <= min <= max && FillByZeros.FillByZeros(max + 1, k) - 1 == v && min < v <= max
    requires FillByZeros.ZerosFrom(min, max, k + 1) == rest && s == [v] + rest
    ensures FillByZeros.ZerosFrom(min, max, k) == s
  {
  }

  /** The descending stepper ends at the first candidate outside the range. */
  lemma ZerosEnd(min: int, max: int, k: nat, v: int)
    requires 0 <= min <= max && FillByZeros.FillByZeros(max + 1, k) - 1 == v && !(min < v <= max)
    ensures FillByZeros.ZerosFrom(min, max, k) == []
  {
  }

  lemma Nines1To19()
    ensures FillByNines.Nines(1, 19) == [9]
  {
    assert FillByNines.FillByNines(1, 2) == 99;
    NinesEnd(1, 19, 2, 99);
    assert FillByNines.FillByNines(1, 1) == 9;
    Cons1(9);
    NinesStep(1, 19, 1, 9, [], [9]);
  }

  lemma Zeros1To19()
    ensures FillByZeros.Zeros(1, 19) == [19]
  {
    assert FillByZeros.FillByZeros(20, 2) == 0;
    ZerosEnd(1, 19, 2, -1);
    assert FillByZeros.FillByZeros(20, 1) == 20;
    Cons1(19);
    ZerosStep(1, 19, 1, 19, [], [19]);
  }

  lemma Reversed1To19()
    ensures Split.Reverse(Split.PushMax(Split.Collapse([9]), 19)) == [19, 9]
  {
    assert Split.Collapse([9]) == [9];
    assert Split.PushMax([9], 19) == [9, 19];
    assert Split.Reverse([9, 19]) == [19, 9];
  }

  lemma Merge1To19()
    ensures Merge.MergeDescToAsc([19, 9], [19]) == [9, 19]
  {
  }

  lemma Stops1To19()
    ensures Split.SplitToRanges(1, 19) == [9, 19]
  {
    Nines1To19();
    Zeros1To19();
    Reversed1To19();
    Merge1To19();
    StopsFrom(1, 19, [9], [19], [9, 19]);
  }


  lemma Pattern1To9()
    ensures Pattern.RangeToPattern(1, 9) == "[1-9]"
  {
    BlockText(1, 9, 0, 1, 9, "[1-9]");
  }

  lemma Pattern10To19()
    ensures Pattern.RangeToPattern(10, 19) == "1\\d"
  {
    BlockText(1, 1, 1, 10, 19, "1\\d");
  }

  lemma Pattern10To99()
    ensures Pattern.RangeToPattern(10, 99) == "[1-9]\\d"
  {
    BlockText(1, 9, 1, 10, 99, "[1-9]\\d");
  }

  lemma PatternsFrom1To19()
    ensures Split.PatternsFrom(1, [9, 19]) == ["[1-9]", "1\\d"]
  {
    Pattern10To19();
    PatternsStep(10, 19, [], "1\\d", []);
    Pattern1To9();
    PatternsStep(1, 9, [19], "[1-9]", ["1\\d"]);
  }

  lemma Patterns1To19()
    ensures Split.SplitToPatterns(1, 19) == ["[1-9]", "1\\d"]
  {
    Stops1To19();
    PatternsFrom1To19();
  }

  lemma Joined1To19()
    ensures Join(["[1-9]", "1\\d"], "|") == "[1-9]|1\\d"
  {
  }

  lemma Regex1To19()
    ensures RegexForRange(1, 19) == "[1-9]|1\\d"
  {
    Joined1To19();
    Patterns1To19();
    FromPatterns(1, 19, ["[1-9]", "1\\d"], "[1-9]|1\\d");
  }

  lemma Nines1To99()
    ensures FillByNines.Nines(1, 99) == [9, 99]
  {
    assert FillByNines.FillByNines(1, 3) == 999;
    NinesEnd(1, 99, 3, 999);
    assert FillByNines.FillByNines(1, 2) == 99;
    Cons1(99);
    NinesStep(1, 99, 2, 99, [], [99]);
    assert FillByNines.FillByNines(1, 1) == 9;
    Cons2(9, 99);
    NinesStep(1, 99, 1, 9, [99], [9, 99]);
  }

  lemma Zeros1To99()
    ensures FillByZeros.Zeros(1, 99) == [99, 99]
  {
    assert FillByZeros.FillByZeros(100, 3) == 0;
    ZerosEnd(1, 99, 3, -1);
    assert FillByZeros.FillByZeros(100, 2) == 100;
    Cons1(99);
    ZerosStep(1, 99, 2, 99, [], [99]);
    assert FillByZeros.FillByZeros(100, 1) == 100;
    Cons2(99, 99);
    ZerosStep(1, 99, 1, 99, [99], [99, 99]);
  }

  lemma Reversed1To99()
    ensures Split.Reverse(Split.PushMax(Split.Collapse([9, 99]), 99)) == [99, 9]
  {
    assert Split.Collapse([9, 99]) == [9, 99];
    assert Split.PushMax([9, 99], 99) == [9, 99];
    assert Split.Reverse([9, 99]) == [99, 9];
  }

  lemma Merge1To99()
    ensures Merge.MergeDescToAsc([99, 9], [99, 99]) == [9, 99]
  {
  }

  lemma Stops1To99()
    ensures Split.SplitToRanges(1, 99) == [9, 99]
  {
    Nines1To99();
    Zeros1To99();
    Reversed1To99();
    Merge1To99();
    StopsFrom(1, 99, [9, 99], [99, 99], [9, 99]);
  }


  lemma PatternsFrom1To99()
    ensures Split.PatternsFrom(1, [9, 99]) == ["[1-9]", "[1-9]\\d"]
  {
    Pattern10To99();
    PatternsStep(10, 99, [], "[1-9]\\d", []);
    Pattern1To9();
    PatternsStep(1, 9, [99], "[1-9]", ["[1-9]\\d"]);
  }

  lemma Patterns1To99()
    ensures Split.SplitToPatterns(1, 99) == ["[1-9]", "[1-9]\\d"]
  {
    Stops1To99();
    PatternsFrom1To99();
  }


  lemma Joined1To99()
    ensures Join(["[1-9]", "[1-9]\\d"], "|") == "[1-9]|[1-9]\\d"
  {
  }

  lemma Regex1To99()
    ensures RegexForRange(1, 99) == "[1-9]|[1-9]\\d"
  {
    Joined1To99();
    Patterns1To99();
    FromPatterns(1, 99, ["[1-9]", "[1-9]\\d"], "[1-9]|[1-9]\\d");
  }

  lemma Nines12To3456()
    ensures FillByNines.Nines(12, 3456) == [19, 99, 999]
  {
    assert FillByNines.FillByNines(12, 4) == 9999;
    NinesEnd(12, 3456, 4, 9999);
    assert FillByNines.FillByNines(12, 3) == 999;
    Cons1(999);
    NinesStep(12, 3456, 3, 999, [], [999]);
    assert FillByNines.FillByNines(12, 2) == 99;
    Cons2(99, 999);
    NinesStep(12, 3456, 2, 99, [999], [99, 999]);
    assert FillByNines.FillByNines(12, 1) == 19;
    Cons3(19, 99, 999);
    NinesStep(12, 3456, 1, 19, [99, 999], [19, 99, 999]);
  }

  lemma Zeros12To3456()
    ensures FillByZeros.Zeros(12, 3456) == [3449, 3399, 2999]
  {
    assert FillByZeros.FillByZeros(3457, 4) == 0;
    ZerosEnd(12, 3456, 4, -1);
    assert FillByZeros.FillByZeros(3457, 3) == 3000;
    Cons1(2999);
    ZerosStep(12, 3456, 3, 2999, [], [2999]);
    assert FillByZeros.FillByZeros(3457, 2) == 3400;
    Cons2(3399, 2999);
    ZerosStep(12, 3456, 2, 3399, [2999], [3399, 2999]);
    assert FillByZeros.FillByZeros(3457, 1) == 3450;
    Cons3(3449, 3399, 2999);
    ZerosStep(12, 3456, 1, 3449, [3399, 2999], [3449, 3399, 2999]);
  }

  lemma Merge12To3456()
    ensures Merge.MergeDescToAsc([3456, 999, 99, 19], [3449, 3399, 2999])
      == [19, 99, 999, 2999, 3399, 3449, 3456]
  {
  }

  // The stops and the fragments of the (12, 3456) case, built back to front,
  // so that each step below only names the part it adds.
  const Stops3450: seq<int> := [3456]
  const Stops3400: seq<int> := [3449] + Stops3450
  const Stops3000: seq<int> := [3399] + Stops3400
  const Stops1000: seq<int> := [2999] + Stops3000
  const Stops100: seq<int> := [999] + Stops1000
  const Stops20: seq<int> := [99] + Stops100
  const Stops12: seq<int> := [19] + Stops20

  const Texts3450: seq<string> := ["345[0-6]"]
  const Texts3400: seq<string> := ["34[0-4]\\d"] + Texts3450
  const Texts3000: seq<string> := ["3[0-3]\\d{2}"] + Texts3400
  const Texts1000: seq<string> := ["[1-2]\\d{3}"] + Texts3000
  const Texts100: seq<string> := ["[1-9]\\d{2}"] + Texts1000
  const Texts20: seq<string> := ["[2-9]\\d"] + Texts100
  const Texts12: seq<string> := ["1[2-9]"] + Texts20

  lemma Collapse12To3456()
    ensures Split.Collapse([19, 99, 999]) == [19, 99, 999]
  {
    assert [19, 99, 999][..2] == [19, 99];
    assert [19, 99][..1] == [19];
    assert Split.Collapse([19]) == [19];
    assert Split.Collapse([19, 99]) == [19, 99];
  }

  /** The stops of a range from its two candidate streams. */
  lemma StopsFrom(min: int, max: int, nines: seq<int>, zeros: seq<int>, stops: seq<int>)
    requires 0 <= min <= max
    requires FillByNines.Nines(min, max) == nines && FillByZeros.Zeros(min, max) == zeros
    requires Merge.MergeDescToAsc(Split.Reverse(Split.PushMax(Split.Collapse(nines), max)), zeros) == stops
    ensures Split.SplitToRanges(min, max) == stops
  {
  }

  lemma Reversed12To3456()
    ensures Split.Reverse(Split.PushMax(Split.Collapse([19, 99, 999]), 3456)) == [3456, 999, 99, 19]
  {
    Collapse12To3456();
    assert Split.PushMax([19, 99, 999], 3456) == [19, 99, 999, 3456];
    assert Split.Reverse([19, 99, 999, 3456]) == [3456, 999, 99, 19];
  }

  lemma Stops12Listed()
    ensures Stops12 == [19, 99, 999, 2999, 3399, 3449, 3456]
  {
  }

  lemma Stops12To3456()
    ensures Split.SplitToRanges(12, 3456) == Stops12
  {
    Nines12To3456();
    Zeros12To3456();
    Reversed12To3456();
    Merge12To3456();
    Stops12Listed();
    StopsFrom(12, 3456, [19, 99, 999], [3449, 3399, 2999], Stops12);
  }

  lemma Pattern12To19()
    ensures Pattern.RangeToPattern(12, 19) == "1[2-9]"
  {
    BlockText(12, 19, 0, 12, 19, "1[2-9]");
  }

  lemma Pattern20To99()
    ensures Pattern.RangeToPattern(20, 99) == "[2-9]\\d"
  {
    BlockText(2, 9, 1, 20, 99, "[2-9]\\d");
  }

  lemma Pattern100To999()
    ensures Pattern.RangeToPattern(100, 999) == "[1-9]\\d{2}"
  {
    assert Pattern.AnyDigits(2) == "\\d{2}";
    BlockText(1, 9, 2, 100, 999, "[1-9]\\d{2}");
  }

  lemma Pattern1000To2999()
    ensures Pattern.RangeToPattern(1000, 2999) == "[1-2]\\d{3}"
  {
    assert Pattern.AnyDigits(3) == "\\d{3}";
    BlockText(1, 2, 3, 1000, 2999, "[1-2]\\d{3}");
  }

  lemma Pattern3000To3399()
    ensures Pattern.RangeToPattern(3000, 3399) == "3[0-3]\\d{2}"
  {
    assert Pattern.AnyDigits(2) == "\\d{2}";
    BlockText(30, 33, 2, 3000, 3399, "3[0-3]\\d{2}");
  }

  lemma Pattern3400To3449()
    ensures Pattern.RangeToPattern(3400, 3449) == "34[0-4]\\d"
  {
    assert NatStr(34) == "34";
    BlockText(340, 344, 1, 3400, 3449, "34[0-4]\\d");
  }

  lemma Pattern3450To3456()
    ensures Pattern.RangeToPattern(3450, 3456) == "345[0-6]"
  {
    assert NatStr(345) == "345" by {
      assert NatStr(34) == "34";
    }
    BlockText(3450, 3456, 0, 3450, 3456, "345[0-6]");
  }

  lemma PatternsFrom3450()
    ensures Split.PatternsFrom(3450, Stops3450) == Texts3450
  {
    Pattern3450To3456();
    PatternsStep(3450, 3456, [], "345[0-6]", []);
  }

  lemma PatternsFrom3400()
    ensures Split.PatternsFrom(3400, Stops3400) == Texts3400
  {
    PatternsFrom3450();
    Pattern3400To3449();
    PatternsStep(3400, 3449, Stops3450, "34[0-4]\\d", Texts3450);
  }

  lemma PatternsFrom3000()
    ensures Split.PatternsFrom(3000, Stops3000) == Texts3000
  {
    PatternsFrom3400();
    Pattern3000To3399();
    PatternsStep(3000, 3399, Stops3400, "3[0-3]\\d{2}", Texts3400);
  }

  lemma PatternsFrom1000()
    ensures Split.PatternsFrom(1000, Stops1000) == Texts1000
  {
    PatternsFrom3000();
    Pattern1000To2999();
    PatternsStep(1000, 2999, Stops3000, "[1-2]\\d{3}", Texts3000);
  }

  lemma PatternsFrom100()
    ensures Split.PatternsFrom(100, Stops100) == Texts100
  {
    PatternsFrom1000();
    Pattern100To999();
    PatternsStep(100, 999, Stops1000, "[1-9]\\d{2}", Texts1000);
  }

  lemma PatternsFrom20()
    ensures Split.PatternsFrom(20, Stops20) == Texts20
  {
    PatternsFrom100();
    Pattern20To99();
    PatternsStep(20, 99, Stops100, "[2-9]\\d", Texts100);
  }

  lemma Patterns12To3456()
    ensures Split.SplitToPatterns(12, 3456) == Texts12
  {
    Stops12To3456();
    PatternsFrom20();
    Pattern12To19();
    PatternsStep(12, 19, Stops20, "1[2-9]", Texts20);
  }

  /** Joining one more item in front. */
  lemma JoinCons(x: string, xs: seq<string>, sep: string, joined: string, text: string)
    requires |xs| > 0 && Join(xs, sep) == joined && text == x + sep + joined
    ensures Join([x] + xs, sep) == text
  {
    assert ([x] + xs)[1..] == xs;
  }

  lemma Joined3450()
    ensures Join(Texts3450, "|") == "345[0-6]"
  {
  }

  lemma Cat3400()
    ensures "34[0-4]\\d" + "|" + "345[0-6]" == "34[0-4]\\d|345[0-6]"
  {
  }

  lemma Joined3400()
    ensures Join(Texts3400, "|") == "34[0-4]\\d|345[0-6]"
  {
    Cat3400();
    Joined3450();
    JoinCons("34[0-4]\\d", Texts3450, "|", "345[0-6]", "34[0-4]\\d|345[0-6]");
  }

  lemma Cat3000()
    ensures "3[0-3]\\d{2}" + "|" + "34[0-4]\\d|345[0-6]" == "3[0-3]\\d{2}|34[0-4]\\d|345[0-6]"
  {
  }

  lemma Joined3000()
    ensures Join(Texts3000, "|") == "3[0-3]\\d{2}|34[0-4]\\d|345[0-6]"
  {
    Cat3000();
    Joined3400();
    JoinCons("3[0-3]\\d{2}", Texts3400, "|", "34[0-4]\\d|345[0-6]", "3[0-3]\\d{2}|34[0-4]\\d|345[0-6]");
  }

  lemma Cat1000()
    ensures "[1-2]\\d{3}" + "|" + "3[0-3]\\d{2}|34[0-4]\\d|345[0-6]" == "[1-2]\\d{3}|3[0-3]\\d{2}|34[0-4]\\d|345[0-6]"
  {
  }

  lemma Joined1000()
    ensures Join(Texts1000, "|") == "[1-2]\\d{3}|3[0-3]\\d{2}|34[0-4]\\d|345[0-6]"
  {
    Cat1000();
    Joined3000();
    JoinCons("[1-2]\\d{3}", Texts3000, "|", "3[0-3]\\d{2}|34[0-4]\\d|345[0-6]", "[1-2]\\d{3}|3[0-3]\\d{2}|34[0-4]\\d|345[0-6]");
  }

  lemma Cat100()
    ensures "[1-9]\\d{2}" + "|" + "[1-2]\\d{3}|3[0-3]\\d{2}|34[0-4]\\d|345[0-6]" == "[1-9]\\d{2}|[1-2]\\d{3}|3[0-3]\\d{2}|34[0-4]\\d|345[0-6]"
  {
  }

  lemma Joined100()
    ensures Join(Texts100, "|") == "[1-9]\\d{2}|[1-2]\\d{3}|3[0-3]\\d{2}|34[0-4]\\d|345[0-6]"
  {
    Cat100();
    Joined1000();
    JoinCons("[1-9]\\d{2}", Texts1000, "|", "[1-2]\\d{3}|3[0-3]\\d{2}|34[0-4]\\d|345[0-6]", "[1-9]\\d{2}|[1-2]\\d{3}|3[0-3]\\d{2}|34[0-4]\\d|345[0-6]");
  }

  /** Concatenation regroups; stated over variables, where the solver does
      not have to spell long string literals out character by character. */
  lemma Regroup(a: string, b: string, c: string)
    ensures a + (b + c) == (a + b) + c
  {
  }

  lemma Joined20()
    ensures Join(Texts20, "|") == "[2-9]\\d|" + "[1-9]\\d{2}|[1-2]\\d{3}|3[0-3]\\d{2}|34[0-4]\\d|345[0-6]"
  {
    Joined100();
    JoinCons("[2-9]\\d", Texts100, "|", "[1-9]\\d{2}|[1-2]\\d{3}|3[0-3]\\d{2}|34[0-4]\\d|345[0-6]", "[2-9]\\d" + "|" + "[1-9]\\d{2}|[1-2]\\d{3}|3[0-3]\\d{2}|34[0-4]\\d|345[0-6]");
    assert "[2-9]\\d" + "|" == "[2-9]\\d|";
  }

  lemma Joined12()
    ensures Join(Texts12, "|") == "1[2-9]|[2-9]\\d|" + "[1-9]\\d{2}|[1-2]\\d{3}|3[0-3]\\d{2}|34[0-4]\\d|345[0-6]"
  {
    Joined20();
    JoinCons("1[2-9]", Texts20, "|", "[2-9]\\d|" + "[1-9]\\d{2}|[1-2]\\d{3}|3[0-3]\\d{2}|34[0-4]\\d|345[0-6]", "1[2-9]" + "|" + ("[2-9]\\d|" + "[1-9]\\d{2}|[1-2]\\d{3}|3[0-3]\\d{2}|34[0-4]\\d|345[0-6]"));
    Regroup("1[2-9]" + "|", "[2-9]\\d|", "[1-9]\\d{2}|[1-2]\\d{3}|3[0-3]\\d{2}|34[0-4]\\d|345[0-6]");
    assert "1[2-9]" + "|" + "[2-9]\\d|" == "1[2-9]|[2-9]\\d|";
  }

  lemma Regex12To3456()
    ensures RegexForRange(12, 3456)
      == "1[2-9]|[2-9]\\d|" + "[1-9]\\d{2}|[1-2]\\d{3}|3[0-3]\\d{2}|34[0-4]\\d|345[0-6]"
  {
    Joined12();
    Patterns12To3456();
    FromPatterns(12, 3456, Texts12,
      "1[2-9]|[2-9]\\d|" + "[1-9]\\d{2}|[1-2]\\d{3}|3[0-3]\\d{2}|34[0-4]\\d|345[0-6]");
  }
}
