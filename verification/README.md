# range-regex in Dafny

A model of the `range-regex` crate. Its one public function,
`regex_for_range(min, max)`, takes two `i32` bounds and returns a regular
expression (an alternation of fragments such as `1[2-9]|[2-9]\d|[1-9]\d{2}`)
for the decimal strings of the integers from `min` to `max`.

The algorithm runs in four layers, and each is modelled in its own module:

- `Digits`: `Base10DigitIterator`, the left-to-right digit stream of an
  `i64`. It is an explicit state machine (`New`, `Next`) and `Drain` collects
  its whole output.
- `FillByNines`, `FillByZeros`: the two candidate generators.
  - `fill_by_nines` raises n to the end of its 10^k block.
  - `fill_by_zeros` lowers n to the start of its block.
  - Each iterator becomes a recursive function that lists what the iterator
    yields from a given digit count `k` onwards.
- `Merge`: `merge_desc_to_asc`, with its recursion on a vector and a peekable
  stream. It is modelled as a pure function that returns the vector's final
  contents.
- `Split`: `split_to_ranges`, which computes the sorted sub-range stops, and
  `split_to_patterns`, which prints one fragment per sub-range.
- `Pattern`: `range_to_pattern`, the digit-pair walk that prints one
  fragment.
- `Blocks`: the shape of the sub-ranges. The stops are the values of one
  non-decreasing chain: the nines candidates for 1 to K nines, then the
  zeros candidates for K down to 0 zeros. Each step up of the chain spans a
  block `[lo * 10^j, hi * 10^j + 10^j - 1]`, where lo and hi differ only in
  their last digit.
- `RangeRegex`: `regex_for_range`. It covers the sign split, the three
  filtered loops (negative-only, positive-only, shared fragments) and the
  final `pop` of the trailing `|`.

Support modules:

- `Decimal` holds powers of ten, `ilog10`, and a reference decimal string
  (`Show`, which is Rust's `to_string` for integers), with the arithmetic
  lemmas that connect them.
- `Pinned` pins the outputs that the crate's own unit tests state.
- `Findings` keeps one line of the source as written and shows the input on
  which it goes wrong. The other modules use the corrected rule; see
  "## Findings".

The main results are proved about the corrected fill (see "## Findings").
`Findings.RegexAsWrittenAgrees` carries them over to the code as written
wherever each split starts at 0 or at a number that is not a multiple of
ten; every input of the crate's own tests is such a range. The shape of the
stops, the partition of [min, max] and the split of the regex at `|` hold
as written on every input (`Findings.SplitPartitionAsWritten`,
`Findings.RegexAlternativesAsWritten`).

The main results:

- The digit stream is the decimal string, for every integer.
- Each fill function gives the least (or greatest) number with k trailing
  nines (zeros) on the right side of n.
- The merge is the strictly ascending, duplicate-free union of its inputs.
- The stops are strictly ascending, lie in `[min, max]` and end at `max`.
- The sub-ranges they cut partition `[min, max]` exactly.
- Every fragment is non-empty and free of `|`, so splitting the regex at `|`
  gives back exactly the alternatives that were written.
- Every sub-range is a block, so its two bounds have the same number of
  digits. Its fragment is a prefix, then one digit or class, then `\d{j}`.
- Every output asserted by the crate's tests holds.

## Model

| member | source | states |
|---|---|---|
| Digits.New | src/digits.rs:9-17 | the iterator starts at the number itself; its place value is 1 for 0 (and for 1) and 10^ilog10(abs(n)) for every other n; the state is valid, meaning the place value is a power of ten and abs(number) < 10 * place value |
| Digits.Next | src/digits.rs:24-50 | a valid state yields `-` exactly when its number is negative, and then keeps the place value; otherwise it yields a digit character and the place value drops; it stops exactly when the place value is 0; the next state is valid and non-negative |
| Digits.Drain | src/digits.rs:20-51 | the whole output starts with `-` exactly when the number is negative and every other character is a digit |
| Digits.DigitString | src/digits.rs:9-51 | the string the iterator yields for n is never empty, starts with `-` exactly when n < 0, and holds only digits after its first character (only digits for n >= 0) |
| Digits.DrainLeading | src/digits.rs:42-49 | the first digit yielded is number / place value, which lies in 0..9, followed by the output of the reduced state (number mod place value, place value / 10) |
| Digits.DrainPadded | src/digits.rs:31-49 | from place value 10^k, a number below 10^(k+1) yields exactly its k+1 low decimal digits, zero-padded |
| Digits.DigitStringIsShow | src/digits.rs:57-69 | for every integer the iterator yields the characters of its decimal string (`to_string`), which the test checks on a list of values |
| Digits.DigitStringShape | src/digits.rs:9-50 | the output is never empty; it starts with `-` iff n < 0; its length is the sign plus ilog10(abs(n)) + 1; a positive number has no leading zero; 0 gives "0" |
| Digits.TrailingZeros | src/digits.rs:24-50 | the digits of m * 10^j are the digits of m followed by j zeros |
| FillByNines.FillByNines | src/fill_by_nines.rs:2-12 | (corrected rule) the result ends in k nines (== 10^k - 1 mod 10^k) and lies in [n, n + 10^k) |
| FillByNines.FillByNinesLeast | src/fill_by_nines.rs:2-12 | every x >= n that ends in k nines is at least the result: the result is the least such number |
| FillByNines.FillByNinesMonotone | src/fill_by_nines.rs:2-12 | the result does not decrease when k grows |
| FillByNines.NinesFrom | src/fill_by_nines.rs:21-45 | (corrected rule) from digit count k on, the i-th value yielded is the fill of min with k + i nines; all values yielded lie in [min, max]; the first candidate not yielded falls outside [min, max] |
| FillByNines.Nines | src/lib.rs:129 | (corrected rule) the stream that `split_to_ranges` reads, from one nine on: value i is the fill of min with i + 1 nines, every value lies in [min, max], and the next candidate lies outside [min, max] |
| FillByNines.NinesNonDecreasing | src/fill_by_nines.rs:30-45 | the values yielded never decrease (the ascending order that src/lib.rs:129 relies on) |
| FillByNines.NinesRepeats | src/fill_by_nines.rs:30-45 | the iterator can yield a value twice in a row: 95..1000 yields 99, 99, 999 |
| FillByZeros.FillByZeros | src/fill_by_zeros.rs:2-4 | the result is a non-negative multiple of 10^k with result <= n < result + 10^k |
| FillByZeros.FillByZerosGreatest | src/fill_by_zeros.rs:2-4 | every multiple of 10^k at or below n is at most the result: the result is the greatest such number |
| FillByZeros.FillByZerosMonotone | src/fill_by_zeros.rs:2-4 | the result does not increase when k grows |
| FillByZeros.ZerosFrom | src/fill_by_zeros.rs:13-36 | from digit count k on, the i-th value yielded is (max + 1) lowered to a multiple of 10^(k+i), minus 1; all values yielded lie in (min, max]; the first candidate not yielded falls outside (min, max] |
| FillByZeros.Zeros | src/lib.rs:151 | the stream that `split_to_ranges` reads, from one zero on: value i is (max + 1) lowered to a multiple of 10^(i+1), minus 1, every value lies in (min, max], and the next candidate lies outside (min, max] |
| FillByZeros.ZerosAligned | src/fill_by_zeros.rs:2-4 | one past value i of that stream is a multiple of 10^(i+1) |
| FillByZeros.ZerosNonIncreasing | src/fill_by_zeros.rs:26-36 | the values yielded never increase (the descending order that src/lib.rs:151 relies on) |
| FillByZeros.ZerosRepeats | src/fill_by_zeros.rs:26-36 | the iterator can yield a value repeatedly: 0..1000 yields 999 three times |
| Merge.MergeInner | src/lib.rs:78-120 | whatever its inputs, the vector left by the recursion holds exactly the values of a from idx on together with the values of b |
| Merge.MergeInnerAscending | src/lib.rs:74-120 | for a strictly descending a and a non-increasing b (the inputs documented at src/lib.rs:74-75), the resulting vector is strictly ascending |
| Merge.MergeDescToAsc | src/lib.rs:77-123 | the merged vector holds exactly the values of a and of b |
| Merge.MergeDescToAscSorted | src/lib.rs:74-123 | for inputs ordered as documented, the merge is the strictly ascending union of a and b, with no duplicates |
| Merge.MergeExample | src/lib.rs:211-216 | merging [3, 2, 1] with [4, 3, 2, 1] gives [1, 2, 3, 4] |
| Merge.MergeKeepsRepeatsOfA | src/lib.rs:96-102 | a repeat inside a is not collapsed: [3, 3] merged with nothing stays [3, 3] |
| Split.Collapse | src/lib.rs:131-139 | dropping a value equal to the last one pushed keeps the same set of values and the same last value |
| Split.CollapseAscending | src/lib.rs:129-139 | a non-decreasing stream becomes strictly ascending |
| Split.PushMax | src/lib.rs:141-147 | after the push, the stops are the old stops plus max, and max is last |
| Split.Reverse | src/lib.rs:149 | element i of the result is element n - 1 - i of the input |
| Split.SplitToRanges | src/lib.rs:126-155 | (corrected rule) a value is a stop exactly when the nines iterator yields it, or it is max, or the zeros iterator yields it |
| Split.AscendingStops | src/lib.rs:130-147 | the stops before the reverse are strictly ascending |
| Split.SplitToRangesAscending | src/lib.rs:126-155 | the stops are strictly ascending |
| Split.SplitToRangesShape | src/lib.rs:126-155 | (corrected rule) the stops are non-empty and strictly ascending, all lie in [min, max], and the last one is max |
| Split.PatternsFrom | src/lib.rs:64-69 | one fragment per stop; fragment i prints the sub-range from the previous stop + 1 (or the start, for i = 0) to stop i |
| Split.SplitToPatterns | src/lib.rs:61-72 | (corrected rule) one fragment per stop of `split_to_ranges(min, max)`; fragment i prints sub-range i |
| Split.SubRangesPartition | src/lib.rs:64-69 | for strictly ascending stops, each sub-range is non-empty, the sub-ranges are ordered and disjoint, and together they cover exactly [start, last stop] |
| Split.SplitPartition | src/lib.rs:61-72 | (corrected rule) the sub-ranges of `split_to_patterns(min, max)` are non-empty and disjoint and cover exactly the integers of [min, max] |
| Pattern.Zip | src/lib.rs:162-164 | the pairs run up to the end of the shorter stream, and pair i is (start digit i, stop digit i) |
| Pattern.FreeCount | src/lib.rs:160-177 | the count of ('0', '9') positions is at most the number of pairs (the exact count for a block is Pattern.BodyFree and Pattern.BlockWalk) |
| Pattern.AnyDigitsRoundTrip | src/lib.rs:179-185 | the trailing token can be read back as the free-position count: it is empty for 0, `\d` for 1, and `\d{n}` (longer than `\d`) for n >= 2 |
| Pattern.BodyConcat | src/lib.rs:164-177 | the text and the count of a walk over two concatenated pair lists are the sums of the two walks |
| Pattern.BodySame | src/lib.rs:165-166 | a walk over equal digit strings prints the string itself and counts nothing |
| Pattern.BodyFree | src/lib.rs:174-176 | a walk over j zeros paired with j nines prints nothing and counts j |
| Pattern.RangeToPattern | src/lib.rs:158-186 | every fragment is non-empty and contains no bar |
| Pattern.SinglePattern | src/lib.rs:158-186 | the fragment for [n, n] is the decimal string of n |
| Pattern.BlockWalk | src/lib.rs:164-177 | for a walk over a shared prefix, then one digit pair a <= b, then j pairs ('0', '9'): the text is the prefix plus the lead for (a, b), and the count is j, or j + 1 when (a, b) = (0, 9) |
| Pattern.BlockPattern | src/lib.rs:158-186 | for a block [lo * 10^j, hi * 10^j + 10^j - 1] where lo and hi differ only in their last digit, the fragment is the digits of lo / 10, then the lead (a digit or a class `[a-b]`), then `\d` or `\d{n}` for the free positions |
| Blocks.NinesStops | src/fill_by_nines.rs:30-45 | (corrected rule) the nines candidate for k >= 1 nines is yielded exactly when k <= K, where K is the number of values the iterator yields, and then it is the (k-1)-th value and at most max; the candidate for K + 1 nines lies above max |
| Blocks.ZerosStops | src/fill_by_zeros.rs:22-36 | the zeros candidate for k >= 1 zeros is the (k-1)-th value yielded when k is within the iterator's output, and then it lies above min; past the output it is at most min |
| Blocks.TopRun | src/fill_by_nines.rs:30-45 | (corrected rule) when the nines iterator stops after K values, min and max lie in one run of 10^(K+1) numbers, and max + 1 lies inside that run too |
| Blocks.ZerosBeyond | src/fill_by_zeros.rs:22-36 | with more than K zeros, where K is the nines iterator's count, the zeros candidate lies below min |
| Blocks.ZerosCount | src/lib.rs:151-152 | the zeros iterator yields at most as many values as the nines iterator |
| Blocks.NinesBelowZeros | src/lib.rs:126-155 | the last nines value is at most the zeros candidate with the same number of zeros |
| Blocks.ChainOrdered | src/lib.rs:126-155 | the chain of candidates (the nines candidates for 1..K nines, then the zeros candidates for K..0 zeros) never decreases |
| Blocks.ChainInStops | src/lib.rs:126-155 | every chain value is one of the stops `split_to_ranges` returns |
| Blocks.StopInChain | src/lib.rs:126-155 | every stop `split_to_ranges` returns is a chain value |
| Blocks.ChainSeqCovers | src/lib.rs:126-155 | the stops and the chain hold exactly the same values |
| Blocks.FirstBlock | src/lib.rs:126-155 | (corrected rule) from min to the first chain value is a block of depth 0: both lie in one run of ten numbers |
| Blocks.NinesBlock | src/fill_by_nines.rs:2-12 | (corrected rule) from one past the nines candidate for m nines to the candidate for m + 1 nines, when they differ, is a block of depth m |
| Blocks.MiddleBlock | src/lib.rs:126-155 | (corrected rule) from one past the last nines value to the zeros candidate with K zeros, when they differ, is a block of depth K |
| Blocks.ZerosBlock | src/fill_by_zeros.rs:1-4 | from one past the zeros candidate for k + 1 zeros to the one for k zeros, for k < K and when they differ, is a block of depth k |
| Blocks.ChainBlock | src/lib.rs:126-155 | (corrected rule) each step up of the chain spans a block whose depth is the step's digit count |
| Blocks.SubRangeBlock | src/lib.rs:126-155 | (corrected rule) every sub-range that the stops cut (from min, or from one past the previous stop, to the stop) is a block: it starts at a multiple of 10^j, ends one below a multiple of 10^j, stays inside one run of 10^(j+1), and its start has more than j digits unless j = 0 |
| Blocks.SplitBlocks | src/lib.rs:61-72 | (corrected rule) every sub-range that `split_to_patterns` prints is a block of some depth |
| Blocks.BlockBounds | src/lib.rs:158-186 | a block of depth j is [lo * 10^j, hi * 10^j + 10^j - 1], where 0 <= lo <= hi, lo and hi differ only in their last digit, and lo >= 1 unless j = 0 |
| Blocks.BoundsBlock | src/lib.rs:158-186 | every such run is a block of depth j, the converse of Blocks.BlockBounds |
| Blocks.BlockFragment | src/lib.rs:158-186 | both bounds of a block have the same number of digits, and the fragment for the block is the digits of lo / 10, then the digit or class for lo mod 10 to hi mod 10, then the free `\d` positions |
| Blocks.SplitDigitLengths | src/lib.rs:61-72 | (corrected rule) the start and the stop of every sub-range have the same number of digits |
| RangeRegex.NegativeMagnitudes | src/lib.rs:20-26 | for min < 0 the magnitudes run from 1 (when max >= 0) or from abs(max) (when max < 0), up to abs(min) |
| RangeRegex.PositiveStart | src/lib.rs:29 | the positive part starts at min when min >= 0 and at 0 when min is negative; either way at or above min and non-negative |
| RangeRegex.NegativePatterns | src/lib.rs:20-30 | (corrected rule) there are negative fragments exactly when min < 0 |
| RangeRegex.PositivePatterns | src/lib.rs:32-34 | (corrected rule) there are positive fragments exactly when max >= 0 |
| RangeRegex.Without | src/lib.rs:38-48 | keeps exactly the fragments of the first list that the second list does not contain |
| RangeRegex.Within | src/lib.rs:50-54 | keeps exactly the fragments of the first list that the second list also contains |
| RangeRegex.WithoutWithinSplit | src/lib.rs:38-54 | the first and third loops together visit every negative fragment exactly once (multiset equality) |
| RangeRegex.WithoutConcat | src/lib.rs:38-48 | the negative-only loop keeps order: filtering a concatenation is the concatenation of the filtered parts |
| RangeRegex.WithinConcat | src/lib.rs:50-54 | the shared loop keeps order in the same way |
| RangeRegex.FiltersSingle | src/lib.rs:38-54 | on one fragment, the negative-only loop keeps it exactly when the positive fragments do not contain it, and the shared loop exactly when they do |
| RangeRegex.FilterNone | src/lib.rs:38-54 | with no positive fragments, the negative-only loop keeps every negative fragment and the shared loop keeps none |
| RangeRegex.Prefixed | src/lib.rs:40-52 | each alternative is the prefix (`-` or `-?`) followed by the fragment, in order |
| RangeRegex.Alternatives | src/lib.rs:36-54 | every negative fragment not among the positive ones appears with `-`, every positive fragment not among the negative ones appears unchanged, every shared fragment appears with `-?`; and every alternative is one of these three kinds: a fragment only the positive part has, `-` and a fragment only the negative part has, or `-?` and a fragment both parts have |
| RangeRegex.Pop | src/lib.rs:56 | on a non-empty string the last character is removed; an empty string is unchanged |
| RangeRegex.PopTerminated | src/lib.rs:36-57 | writing each alternative followed by a bar and then popping gives the alternatives joined by bars |
| RangeRegex.Assemble | src/lib.rs:36-57 | the three loops and the pop give the bar-join of the negative-only, the positive-only and the shared alternatives, in that order |
| RangeRegex.SplitOnJoin | src/lib.rs:36-57 | splitting a join at the bar gives back the joined items when none contains a bar |
| RangeRegex.SplitToPatternsFragments | src/lib.rs:61-72 | every fragment of `split_to_patterns` is non-empty and free of bars |
| RangeRegex.PositiveOnly | src/lib.rs:43-48 | with no negative fragments, the alternatives are the positive fragments unchanged |
| RangeRegex.NegativeOnly | src/lib.rs:37-42 | with no positive fragments, the alternatives are the negative fragments, each prefixed with `-` |
| RangeRegex.RegexAlternatives | src/lib.rs:12-58 | the alternatives are non-empty and each is free of bars; splitting the regex at the bar gives back exactly the negative-only, positive-only and shared alternatives |
| RangeRegex.NegativeFragmentsOnce | src/lib.rs:38-54 | each negative fragment appears exactly once among the `-` and `-?` alternatives |
| RangeRegex.RegexForRange | src/lib.rs:12-58 | (corrected rule) the regex is the bar-join of the alternatives built from the negative and the positive fragments |
| RangeRegex.NonNegativeRange | src/lib.rs:32-34 | for 0 <= min, the regex is the bar-join of `split_to_patterns(min, max)` |
| RangeRegex.NegativeRange | src/lib.rs:20-30 | for an all-negative range [-hi, -lo], the regex is the bar-join of the fragments of [lo, hi], each prefixed with `-` |
| RangeRegex.SignSplit | src/lib.rs:20-34 | the magnitudes of the negative part are exactly the negative members of [min, max], and the positive part covers exactly the non-negative members |
| Pinned.SmallRange | src/lib.rs:32-34 | for 0 <= min <= max <= 8 the regex is the single digit or the class `[min-max]` |
| Pinned.BelowZero | src/lib.rs:20-30 | for -8 <= -hi <= -lo <= -1 the regex is `-` followed by the digit or the class for lo..hi |
| Pinned.AcrossZero | src/lib.rs:12-58 | for -8 <= min < 0 <= max <= 8 the regex is the negative class and the positive class, joined by a bar |
| Pinned.Regex1To1 | src/lib.rs:194 | regex_for_range(1, 1) is `1` |
| Pinned.Regex0To1 | src/lib.rs:195 | regex_for_range(0, 1) is `[0-1]` |
| Pinned.RegexNeg1ToNeg1 | src/lib.rs:196 | regex_for_range(-1, -1) is `-1` |
| Pinned.RegexNeg1To0 | src/lib.rs:197 | regex_for_range(-1, 0) is the alternatives `-1` and `0`, joined by a bar |
| Pinned.RegexNeg1To1 | src/lib.rs:198 | regex_for_range(-1, 1) is the alternatives `-1` and `[0-1]`, joined by a bar |
| Pinned.RegexNeg4ToNeg2 | src/lib.rs:199 | regex_for_range(-4, -2) is `-[2-4]` |
| Pinned.RegexNeg3To1 | src/lib.rs:200 | regex_for_range(-3, 1) is the alternatives `-[1-3]` and `[0-1]`, joined by a bar |
| Pinned.RegexNeg2To0 | src/lib.rs:201 | regex_for_range(-2, 0) is the alternatives `-[1-2]` and `0`, joined by a bar |
| Pinned.Regex0To2 | src/lib.rs:202 | regex_for_range(0, 2) is `[0-2]` |
| Pinned.RegexNeg1To3 | src/lib.rs:203 | regex_for_range(-1, 3) is the alternatives `-1` and `[0-3]`, joined by a bar |
| Pinned.Regex65666To65667 | src/lib.rs:204 | regex_for_range(65666, 65667) is `6566[6-7]` |
| Pinned.Stops12To3456 | src/lib.rs:126-155 | the stops for [12, 3456] are 19, 99, 999, 2999, 3399, 3449, 3456 |
| Pinned.Regex12To3456 | src/lib.rs:205 | regex_for_range(12, 3456) is the alternatives `1[2-9]`, `[2-9]\d`, `[1-9]\d{2}`, `[1-2]\d{3}`, `3[0-3]\d{2}`, `34[0-4]\d`, `345[0-6]`, joined by bars |
| Pinned.Stops1To19 | src/lib.rs:126-155 | the stops for [1, 19] are 9, 19 |
| Pinned.Regex1To19 | src/lib.rs:206 | regex_for_range(1, 19) is the alternatives `[1-9]` and `1\d`, joined by a bar |
| Pinned.Stops1To99 | src/lib.rs:126-155 | the stops for [1, 99] are 9, 99 |
| Pinned.Regex1To99 | src/lib.rs:207 | regex_for_range(1, 99) is the alternatives `[1-9]` and `[1-9]\d`, joined by a bar |
| Findings.FillByNinesAsWritten | src/fill_by_nines.rs:2-12 | as written: the result ends in k nines; off the multiples of 10^k it equals the corrected fill; on a multiple of 10^k it is 10^k - 1 |
| Findings.AsWrittenBelowStart | src/fill_by_nines.rs:4-5 | for a positive multiple n of 10^k, the result as written lies below n, while the corrected fill lies at or above n |
| Findings.NinesFromAsWritten | src/fill_by_nines.rs:21-45 | the iterator over the fill as written yields only values in [min, max] |
| Findings.AgreeOnStart | src/fill_by_nines.rs:2-12 | for n = 0 or n not a multiple of ten, and k >= 1, the fill as written equals the corrected fill |
| Findings.NinesFromAgree | src/fill_by_nines.rs:21-45 | on such a start the iterator as written yields exactly what the corrected iterator yields |
| Findings.NinesAsWritten | src/lib.rs:129 | the nines stream as written is the corrected one on such a start, and empty on a positive multiple of ten |
| Findings.SplitToRangesAsWritten | src/lib.rs:126-155 | the stops as written equal the corrected stops on such a start; on a positive multiple of ten they are the merge of max alone with the zeros stream |
| Findings.SplitToPatternsAsWritten | src/lib.rs:61-72 | the fragments as written equal the corrected fragments on such a start |
| Findings.NegativePatternsAsWritten | src/lib.rs:20-30 | the negative fragments as written are empty for min >= 0 and equal the corrected ones when the smallest magnitude starts cleanly |
| Findings.PositivePatternsAsWritten | src/lib.rs:32-34 | the positive fragments as written are empty for max < 0 and equal the corrected ones when the positive part starts cleanly |
| Findings.RegexForRangeAsWritten | src/lib.rs:12-58 | the regex as written is the bar-join of the alternatives built from the as-written fragments |
| Findings.RegexAsWrittenAgrees | src/lib.rs:12-58 | the regex as written equals the corrected regex when min >= 0 starts cleanly, when an all-negative range has a max whose magnitude starts cleanly, and always across zero |
| Findings.AsWrittenBlocks | src/lib.rs:126-155 | on a clean start every sub-range cut by the stops as written is a block |
| Findings.MergedZerosShape | src/lib.rs:141-155 | max merged with the zeros stream, which is what the stops become when the nines stream is empty, is non-empty, strictly ascending, inside [min, max] and ends at max |
| Findings.SplitToRangesAsWrittenShape | src/lib.rs:126-155 | for every 0 <= min <= max, the stops as written are non-empty and strictly ascending, lie in [min, max] and end at max |
| Findings.SplitPartitionAsWritten | src/lib.rs:61-72 | for every 0 <= min <= max, the sub-ranges cut as written are non-empty and disjoint and cover exactly [min, max] |
| Findings.PatternsAsWrittenFragments | src/lib.rs:61-72 | for every 0 <= min <= max, the fragments as written are at least one, each non-empty and free of bars |
| Findings.RegexAlternativesAsWritten | src/lib.rs:12-58 | for every pair of i32 bounds, the alternatives as written are non-empty and free of bars, and splitting the regex as written at the bar gives them back exactly |
| Findings.NinesAsWrittenEmpty | src/fill_by_nines.rs:21-45 | for a positive multiple of ten, the iterator as written yields nothing |
| Findings.NonNegativeTestsAsWritten | src/lib.rs:194-202 | as written, regex_for_range gives `1` for (1, 1), `[0-1]` for (0, 1) and `[0-2]` for (0, 2) |
| Findings.NegativeTestsAsWritten | src/lib.rs:196-199 | as written, regex_for_range gives `-1` for (-1, -1) and `-[2-4]` for (-4, -2) |
| Findings.CrossingTestsAsWritten | src/lib.rs:197-200 | as written, regex_for_range gives the alternatives `-1` and `0` for (-1, 0), `-1` and `[0-1]` for (-1, 1), `-[1-3]` and `[0-1]` for (-3, 1) |
| Findings.MoreCrossingTestsAsWritten | src/lib.rs:201-203 | as written, regex_for_range gives the alternatives `-[1-2]` and `0` for (-2, 0), and `-1` and `[0-3]` for (-1, 3) |
| Findings.LargeTestsAsWritten | src/lib.rs:204-207 | as written, regex_for_range gives the strings the tests expect for (65666, 65667), (12, 3456), (1, 19) and (1, 99) |
| Findings.AsWritten20To200 | src/fill_by_nines.rs:4-5 | as written, the stops for [20, 200] are 199, 200, and the first fragment is `[2-1]\d` |
| Findings.Stops20To200 | src/lib.rs:126-155 | with the corrected fill, the stops for [20, 200] are 29, 99, 199, 200 |
| Findings.Corrected20To200 | src/lib.rs:12-58 | with the corrected fill, regex_for_range(20, 200) is the alternatives `2\d`, `[3-9]\d`, `1\d{2}`, `200`, joined by bars |

## Left out

- The bump arena and the shared pattern buffer are left out. They only carry
  storage: each fragment is modelled as a fresh string.
- The `i64` arithmetic is modelled as unbounded integers. Both bounds are
  `i32` widened to `i64`, so no intermediate value (abs(min), max + 1, 10^k
  for the digit counts reached) can overflow. `RangeRegex.RegexForRange`
  requires i32 bounds.
- Rust's truncating `/` and `%` are not modelled separately. Every division
  in the core has a non-negative dividend and a positive divisor, where they
  agree with Dafny's Euclidean operators. The fill functions require n >= 0
  for this reason.
- `min > max` is excluded by `RangeRegex.RegexForRange`. The crate's only
  callers, the fuzz targets, order the bounds first.
- The fuzz and bench harnesses are left out, and so is any semantics of
  regular-expression matching. The claim that the regex matches exactly
  `min..=max` (the assertion in fuzz/fuzz_targets/match.rs:20) is not stated.
  What is proved instead:
  - the sub-ranges partition [min, max];
  - the regex splits at `|` into exactly the fragments written;
  - every sub-range is a block and prints as prefix, digit or class, and
    `\d{j}`.
- Blocks.NinesStops, Blocks.TopRun, Blocks.FirstBlock, Blocks.NinesBlock,
  Blocks.MiddleBlock, Blocks.ChainBlock, Blocks.SubRangeBlock,
  Blocks.SplitBlocks and Blocks.SplitDigitLengths hold for the corrected
  fill. For the code as written they can fail when a split starts at a
  positive multiple of ten, as on (20, 200) (see "## Findings"); on every
  other start they carry over through
  Findings.SplitToRangesAsWritten and Findings.AsWrittenBlocks.
- Pinned.Regex12To3456: the expected string is written as the concatenation
  of two literals, which is the same string as the test's literal.
- Merge.MergeInner: the source reads `a` by index while it grows. The model
  relies on every read happening before the clear at src/lib.rs:93. It
  returns the final vector rather than modelling the vector's intermediate
  states.

## Findings

| source | as written | input that shows it | evidently intended | confidence | as-written member | corrected member |
|---|---|---|---|---|---|---|
| src/fill_by_nines.rs:4-5 | `fill_by_nines(n, k)` returns 10^k - 1 whenever n is a multiple of 10^k, which is below n for every positive such n | `regex_for_range(20, 200)`: the nines iterator yields nothing, the stops are 199, 200, and the first fragment is `[2-1]\d`, a class range from 2 down to 1, which a regex parser rejects, so `Regex::new(..).unwrap()` in the fuzz targets (fuzz/fuzz_targets/match.rs:16) panics | round n down to a multiple of 10^k and add 10^k - 1 for every n (the end of n's block), which gives the alternatives `2\d`, `[3-9]\d`, `1\d{2}`, `200` | high (not executed) | Findings.AsWritten20To200 | FillByNines.FillByNinesLeast |
