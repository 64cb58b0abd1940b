/** `regex_for_range` (src/lib.rs:12-58): the public entry point.

    For min < 0 the negative part of [min, max] is handled as the range of
    magnitudes [|max| or 1, |min|], and the non-negative part then starts at
    0. Each part is cut into fragments by `split_to_patterns`. The result lists
    the negative-only fragments with a `-` in front, then the positive-only
    fragments, then the fragments both parts share with `-?` in front, all
    joined by `|`. */
module RangeRegex {
  import opened Decimal
  import Split
  import Pattern

  const I32Min: int := -0x8000_0000
  const I32Max: int := 0x7fff_ffff

  /** The magnitudes of the negative numbers in [min, max], for min < 0: from
      |max| (or 1 when max >= 0) up to |min|. */
  function NegativeMagnitudes(min: int, max: int): (r: (int, int))
    requires min < 0 && min <= max
    ensures 1 <= r.0 <= r.1 == -min
    ensures max < 0 ==> r.0 == -max
    ensures max >= 0 ==> r.0 == 1
  {
    (if max < 0 then -max else 1, -min)
  }

  /** Where the non-negative part starts: 0 once the negative part has been
      split off. */
  function PositiveStart(min: int): (s: int)
    ensures s >= 0 && s >= min
    ensures min >= 0 ==> s == min
    ensures min < 0 ==> s == 0
  {
    if min < 0 then 0 else min
  }

  /** `negative_subpatterns`: the fragments for the magnitudes, or none. */
  function NegativePatterns(min: int, max: int): (ps: seq<string>)
    requires min <= max
    ensures min < 0 <==> |ps| > 0
  {
    if min < 0 then
      var m := NegativeMagnitudes(min, max);
      Split.SplitToRangesShape(m.0, m.1);
      Split.SplitToPatterns(m.0, m.1)
    else []
  }

  /** `positive_subpatterns`: the fragments for the non-negative part, or none. */
  function PositivePatterns(min: int, max: int): (ps: seq<string>)
    requires min <= max
    ensures max >= 0 <==> |ps| > 0
  {
    if max >= 0 then
      Split.SplitToRangesShape(PositiveStart(min), max);
      Split.SplitToPatterns(PositiveStart(min), max)
    else []
  }

  /** The fragments of xs that ys does not contain, in order. */
  function Without(xs: seq<string>, ys: seq<string>): (r: seq<string>)
    ensures forall f :: f in r <==> f in xs && f !in ys
    decreases |xs|
  {
    if |xs| == 0 then []
    else
      assert xs == [xs[0]] + xs[1..];
      (if xs[0] in ys then [] else [xs[0]]) + Without(xs[1..], ys)
  }

  /** The fragments of xs that ys also contains, in order. */
  function Within(xs: seq<string>, ys: seq<string>): (r: seq<string>)
    ensures forall f :: f in r <==> f in xs && f in ys
    decreases |xs|
  {
    if |xs| == 0 then []
    else
      assert xs == [xs[0]] + xs[1..];
      (if xs[0] in ys then [xs[0]] else []) + Within(xs[1..], ys)
  }

  /** Each fragment of xs lands in exactly one of the two filters, as often as
      it occurs in xs. */
  lemma {:induction false} WithoutWithinSplit(xs: seq<string>, ys: seq<string>)
    ensures multiset(Without(xs, ys)) + multiset(Within(xs, ys)) == multiset(xs)
    decreases |xs|
  {
    if |xs| > 0 {
      var x, rest := xs[0], xs[1..];
      WithoutWithinSplit(rest, ys);
      assert xs == [x] + rest;
      var w, v := Without(rest, ys), Within(rest, ys);
      if x in ys {
        assert Without(xs, ys) == w;
        assert Within(xs, ys) == [x] + v;
        assert multiset([x] + v) == multiset([x]) + multiset(v);
      } else {
        assert Without(xs, ys) == [x] + w;
        assert Within(xs, ys) == v;
        assert multiset([x] + w) == multiset([x]) + multiset(w);
      }
      assert multiset(xs) == multiset([x]) + multiset(rest);
    }
  }

  /** The first step of either filter. */
  lemma FiltersUnfold(all: seq<string>, ys: seq<string>)
    requires |all| > 0
    ensures Without(all, ys) == (if all[0] in ys then [] else [all[0]]) + Without(all[1..], ys)
    ensures Within(all, ys) == (if all[0] in ys then [all[0]] else []) + Within(all[1..], ys)
  {
  }

  lemma Assoc(a: seq<string>, b: seq<string>, c: seq<string>)
    ensures a + (b + c) == (a + b) + c
  {
  }

  /** `Without` works item by item, so it keeps the order of xs: the filter
      of a concatenation is the concatenation of the filters. */
  lemma {:induction false} WithoutConcat(xs: seq<string>, zs: seq<string>, ys: seq<string>)
    ensures Without(xs + zs, ys) == Without(xs, ys) + Without(zs, ys)
    decreases |xs|
  {
    if |xs| == 0 {
      assert xs + zs == zs;
    } else {
      var all := xs + zs;
      assert all[0] == xs[0] && all[1..] == xs[1..] + zs;
      FiltersUnfold(all, ys);
      FiltersUnfold(xs, ys);
      WithoutConcat(xs[1..], zs, ys);
      Assoc(if xs[0] in ys then [] else [xs[0]], Without(xs[1..], ys), Without(zs, ys));
    }
  }

  /** `Within` keeps the order of xs in the same way. */
  lemma {:induction false} WithinConcat(xs: seq<string>, zs: seq<string>, ys: seq<string>)
    ensures Within(xs + zs, ys) == Within(xs, ys) + Within(zs, ys)
    decreases |xs|
  {
    if |xs| == 0 {
      assert xs + zs == zs;
    } else {
      var all := xs + zs;
      assert all[0] == xs[0] && all[1..] == xs[1..] + zs;
      FiltersUnfold(all, ys);
      FiltersUnfold(xs, ys);
      WithinConcat(xs[1..], zs, ys);
      Assoc(if xs[0] in ys then [xs[0]] else [], Within(xs[1..], ys), Within(zs, ys));
    }
  }

  /** What each filter makes of a single fragment. */
  lemma FiltersSingle(x: string, ys: seq<string>)
    ensures Without([x], ys) == if x in ys then [] else [x]
    ensures Within([x], ys) == if x in ys then [x] else []
  {
    assert [x][1..] == [];
  }

  /** Filtering against nothing keeps everything and shares nothing. */
  lemma {:induction false} FilterNone(xs: seq<string>)
    ensures Without(xs, []) == xs
    ensures Within(xs, []) == []
    decreases |xs|
  {
    if |xs| > 0 {
      FilterNone(xs[1..]);
    }
  }

  /** Every fragment of xs with p written in front. */
  function Prefixed(p: string, xs: seq<string>): (r: seq<string>)
    ensures |r| == |xs|
    ensures forall i :: 0 <= i < |xs| ==> r[i] == p + xs[i]
    decreases |xs|
  {
    if |xs| == 0 then [] else [p + xs[0]] + Prefixed(p, xs[1..])
  }

  /** The alternatives in the order the three loops write them. Every
      negative fragment appears, with `-` in front when the positive part
      lacks it and with `-?` when it has it, every positive-only fragment
      appears as it is, and nothing else does. */
  function Alternatives(neg: seq<string>, pos: seq<string>): (r: seq<string>)
    ensures forall f :: f in neg && f !in pos ==> "-" + f in r
    ensures forall f :: f in pos && f !in neg ==> f in r
    ensures forall f :: f in neg && f in pos ==> "-?" + f in r
    ensures forall i :: 0 <= i < |r| ==>
      (r[i] in pos && r[i] !in neg)
      || (|r[i]| >= 1 && r[i][..1] == "-" && r[i][1..] in neg && r[i][1..] !in pos)
      || (|r[i]| >= 2 && r[i][..2] == "-?" && r[i][2..] in neg && r[i][2..] in pos)
  {
    var a, b, c := Prefixed("-", Without(neg, pos)), Without(pos, neg), Prefixed("-?", Within(neg, pos));
    PrefixedMembers("-", Without(neg, pos));
    PrefixedMembers("-?", Within(neg, pos));
    var r := a + b + c;
    forall i | 0 <= i < |r|
      ensures (r[i] in pos && r[i] !in neg)
        || (|r[i]| >= 1 && r[i][..1] == "-" && r[i][1..] in neg && r[i][1..] !in pos)
        || (|r[i]| >= 2 && r[i][..2] == "-?" && r[i][2..] in neg && r[i][2..] in pos)
    {
      if i < |a| {
        PrefixedItem("-", Without(neg, pos), i);
        assert r[i] == a[i];
        assert Without(neg, pos)[i] in Without(neg, pos);
      } else if i < |a| + |b| {
        assert r[i] == b[i - |a|];
        assert b[i - |a|] in b;
      } else {
        assert Within(neg, pos)[i - |a| - |b|] in Within(neg, pos);
        PrefixedItem("-?", Within(neg, pos), i - |a| - |b|);
        assert r[i] == c[i - |a| - |b|];
      }
    }
    r
  }

  /** Item i of `Prefixed(p, xs)` reads back as p and xs[i]. */
  lemma PrefixedItem(p: string, xs: seq<string>, i: int)
    requires 0 <= i < |xs|
    ensures |Prefixed(p, xs)[i]| >= |p|
    ensures Prefixed(p, xs)[i][..|p|] == p && Prefixed(p, xs)[i][|p|..] == xs[i]
  {
    var x := Prefixed(p, xs)[i];
    assert x == p + xs[i];
    assert x[..|p|] == p;
    assert x[|p|..] == xs[i];
  }

  /** Every member of xs, with p in front, is a member of `Prefixed(p, xs)`. */
  lemma PrefixedMembers(p: string, xs: seq<string>)
    ensures forall f :: f in xs ==> p + f in Prefixed(p, xs)
  {
    forall f | f in xs
      ensures p + f in Prefixed(p, xs)
    {
      var i :| 0 <= i < |xs| && xs[i] == f;
      assert Prefixed(p, xs)[i] == p + f;
    }
  }

  /** What the three loops write: each alternative followed by `|`. */
  function Terminated(items: seq<string>): (s: string)
    decreases |items|
  {
    if |items| == 0 then "" else items[0] + "|" + Terminated(items[1..])
  }

  /** `String::pop`: drops the last character, if there is one. */
  function Pop(s: string): (r: string)
    ensures |s| > 0 ==> r + [s[|s| - 1]] == s
    ensures |s| == 0 ==> r == s
  {
    if |s| == 0 then s else s[..|s| - 1]
  }

  /** The string the function returns for the two fragment lists: the three
      loops write every alternative followed by `|`, and the final pop leaves
      the alternatives joined by `|`. */
  function Assemble(neg: seq<string>, pos: seq<string>): (r: string)
    ensures r == Join(Alternatives(neg, pos), "|")
  {
    PopTerminated(Alternatives(neg, pos));
    Pop(Terminated(Alternatives(neg, pos)))
  }

  /** `regex_for_range(min, max)`. Both bounds are `i32` values widened to
      `i64` before any arithmetic, so |min| cannot overflow. */
  function RegexForRange(min: int, max: int): (r: string)
    requires I32Min <= min <= max <= I32Max
    ensures r == Join(Alternatives(NegativePatterns(min, max), PositivePatterns(min, max)), "|")
  {
    Assemble(NegativePatterns(min, max), PositivePatterns(min, max))
  }

  // ---------------------------------------------------------------------------
  // The output is the alternation of the alternatives.

  /** The items separated by sep, with nothing after the last. */
  function Join(items: seq<string>, sep: string): string
    decreases |items|
  {
    if |items| == 0 then ""
    else if |items| == 1 then items[0]
    else items[0] + sep + Join(items[1..], sep)
  }

  /** Dropping the last `|` of the terminated list is joining with `|`. */
  lemma {:induction false} PopTerminated(items: seq<string>)
    ensures Pop(Terminated(items)) == Join(items, "|")
    decreases |items|
  {
    if |items| == 1 {
      assert Terminated(items) == items[0] + "|";
    } else if |items| > 1 {
      var rest := Terminated(items[1..]);
      assert |rest| > 0 by {
        assert rest == items[1] + "|" + Terminated(items[2..]);
      }
      PopTerminated(items[1..]);
      assert Terminated(items) == (items[0] + "|") + rest;
      assert Pop(Terminated(items)) == (items[0] + "|") + Pop(rest);
    }
  }

  /** Cuts s at every occurrence of sep. */
  function SplitOn(s: string, sep: char): (parts: seq<string>)
    ensures |parts| > 0
    decreases |s|
  {
    if |s| == 0 then [""]
    else
      var rest := SplitOn(s[1..], sep);
      if s[0] == sep then [""] + rest else [[s[0]] + rest[0]] + rest[1..]
  }

  /** A string without the separator is a single part. */
  lemma {:induction false} SplitOnFree(x: string, sep: char)
    requires sep !in x
    ensures SplitOn(x, sep) == [x]
    decreases |x|
  {
    if |x| > 0 {
      SplitOnFree(x[1..], sep);
      assert [x[0]] + x[1..] == x;
    }
  }

  /** A part without the separator is cut off at the first separator. */
  lemma {:induction false} SplitOnStep(x: string, sep: char, y: string)
    requires sep !in x
    ensures SplitOn(x + [sep] + y, sep) == [x] + SplitOn(y, sep)
    decreases |x|
  {
    var s := x + [sep] + y;
    if |x| == 0 {
      assert s[1..] == y;
    } else {
      SplitOnStep(x[1..], sep, y);
      assert s[1..] == x[1..] + [sep] + y;
      assert [x[0]] + x[1..] == x;
    }
  }

  /** Cutting at the separator undoes joining with it, for parts that do not
      hold it. */
  lemma {:induction false} SplitOnJoin(items: seq<string>, sep: char)
    requires |items| > 0
    requires forall i :: 0 <= i < |items| ==> sep !in items[i]
    ensures SplitOn(Join(items, [sep]), sep) == items
    decreases |items|
  {
    if |items| == 1 {
      SplitOnFree(items[0], sep);
    } else {
      SplitOnJoin(items[1..], sep);
      SplitOnStep(items[0], sep, Join(items[1..], [sep]));
      assert [items[0]] + items[1..] == items;
    }
  }

  /** Every fragment `regex_for_range` prints for a part of the range. */
  predicate Fragments(ps: seq<string>) {
    forall i :: 0 <= i < |ps| ==> |ps[i]| > 0 && '|' !in ps[i]
  }

  lemma SplitToPatternsFragments(min: int, max: int)
    requires 0 <= min <= max
    ensures Fragments(Split.SplitToPatterns(min, max))
  {
    var ps := Split.SplitToPatterns(min, max);
    var stops := Split.SplitToRanges(min, max);
    forall i | 0 <= i < |ps|
      ensures |ps[i]| > 0 && '|' !in ps[i]
    {
      var f := Pattern.RangeToPattern(Split.SubRangeStart(min, stops, i), stops[i]);
    }
  }

  /** A prefix without `|` in front of fragments keeps every item free of `|`. */
  lemma PrefixedFragments(p: string, xs: seq<string>, from: seq<string>)
    requires '|' !in p && Fragments(from)
    requires forall f :: f in xs ==> f in from
    ensures Fragments(Prefixed(p, xs))
  {
    forall i | 0 <= i < |xs|
      ensures |p + xs[i]| > 0 && '|' !in p + xs[i]
    {
      assert xs[i] in from;
    }
  }

  /** A filter of fragments is fragments. */
  lemma SubFragments(xs: seq<string>, from: seq<string>)
    requires Fragments(from)
    requires forall f :: f in xs ==> f in from
    ensures Fragments(xs)
  {
    forall i | 0 <= i < |xs|
      ensures |xs[i]| > 0 && '|' !in xs[i]
    {
      assert xs[i] in from;
    }
  }

  /** The alternatives are non-empty whenever one of the parts is. */
  lemma AlternativesNonEmpty(neg: seq<string>, pos: seq<string>)
    requires |neg| > 0 || |pos| > 0
    ensures |Alternatives(neg, pos)| > 0
  {
    if |pos| > 0 {
      if pos[0] !in neg {
        assert pos[0] in Without(pos, neg);
      } else {
        var i :| 0 <= i < |neg| && neg[i] == pos[0];
        assert neg[i] in Within(neg, pos);
      }
    } else {
      assert neg[0] in Without(neg, pos);
    }
  }

  /** The fragments of both parts are non-empty and free of `|`. */
  lemma PartsFragments(min: int, max: int)
    requires I32Min <= min <= max <= I32Max
    ensures Fragments(NegativePatterns(min, max))
    ensures Fragments(PositivePatterns(min, max))
  {
    if min < 0 {
      var m := NegativeMagnitudes(min, max);
      SplitToPatternsFragments(m.0, m.1);
    }
    if max >= 0 {
      SplitToPatternsFragments(PositiveStart(min), max);
    }
  }

  /** Three lists of fragments, one after the other, are fragments. */
  lemma ConcatFragments(a: seq<string>, b: seq<string>, c: seq<string>)
    requires Fragments(a) && Fragments(b) && Fragments(c)
    ensures Fragments(a + b + c)
  {
    var items := a + b + c;
    forall i | 0 <= i < |items|
      ensures |items[i]| > 0 && '|' !in items[i]
    {
      if i < |a| {
        assert items[i] == a[i];
      } else if i < |a| + |b| {
        assert items[i] == b[i - |a|];
      } else {
        assert items[i] == c[i - |a| - |b|];
      }
    }
  }

  /** The alternatives built from two lists of fragments are fragments. */
  lemma AlternativesFragments(neg: seq<string>, pos: seq<string>)
    requires Fragments(neg) && Fragments(pos)
    ensures Fragments(Alternatives(neg, pos))
  {
    PrefixedFragments("-", Without(neg, pos), neg);
    SubFragments(Without(pos, neg), pos);
    PrefixedFragments("-?", Within(neg, pos), neg);
    ConcatFragments(Prefixed("-", Without(neg, pos)), Without(pos, neg), Prefixed("-?", Within(neg, pos)));
  }

  /** Cutting the returned string at `|` gives back exactly the alternatives,
      in order: the negative-only fragments with `-`, the positive-only ones,
      and the shared ones with `-?`, each of them non-empty. */
  lemma RegexAlternatives(min: int, max: int)
    requires I32Min <= min <= max <= I32Max
    ensures |Alternatives(NegativePatterns(min, max), PositivePatterns(min, max))| > 0
    ensures Fragments(Alternatives(NegativePatterns(min, max), PositivePatterns(min, max)))
    ensures SplitOn(RegexForRange(min, max), '|') ==
      Alternatives(NegativePatterns(min, max), PositivePatterns(min, max))
  {
    var neg, pos := NegativePatterns(min, max), PositivePatterns(min, max);
    PartsFragments(min, max);
    AlternativesNonEmpty(neg, pos);
    AlternativesFragments(neg, pos);
    SplitOnJoin(Alternatives(neg, pos), '|');
  }

  /** Each negative fragment is written exactly once: alone with `-`, or with
      `-?` when the positive part prints it too. */
  lemma NegativeFragmentsOnce(min: int, max: int)
    requires I32Min <= min <= max <= I32Max
    ensures multiset(Without(NegativePatterns(min, max), PositivePatterns(min, max))) +
      multiset(Within(NegativePatterns(min, max), PositivePatterns(min, max))) ==
      multiset(NegativePatterns(min, max))
  {
    WithoutWithinSplit(NegativePatterns(min, max), PositivePatterns(min, max));
  }

  /** Without negative fragments the alternatives are the positive ones. */
  lemma PositiveOnly(pos: seq<string>)
    ensures Alternatives([], pos) == pos
  {
    FilterNone(pos);
    assert Without([], pos) == [] && Within([], pos) == [];
  }

  /** Without positive fragments the alternatives are the negative ones with
      `-` in front. */
  lemma NegativeOnly(neg: seq<string>)
    ensures Alternatives(neg, []) == Prefixed("-", neg)
  {
    FilterNone(neg);
    assert Prefixed("-?", []) == [];
  }

  /** The alternation when only the positive part has fragments. */
  lemma JoinPositive(r: string, neg: seq<string>, pos: seq<string>, ps: seq<string>)
    requires r == Join(Alternatives(neg, pos), "|") && neg == [] && pos == ps
    ensures r == Join(ps, "|")
  {
    PositiveOnly(ps);
  }

  /** The alternation when only the negative part has fragments. */
  lemma JoinNegative(r: string, neg: seq<string>, pos: seq<string>, ps: seq<string>)
    requires r == Join(Alternatives(neg, pos), "|") && neg == ps && pos == []
    ensures r == Join(Prefixed("-", ps), "|")
  {
    NegativeOnly(ps);
  }

  /** A range without negatives gives the alternation of its own fragments. */
  lemma NonNegativeRange(min: int, max: int)
    requires 0 <= min <= max <= I32Max
    ensures RegexForRange(min, max) == Join(Split.SplitToPatterns(min, max), "|")
  {
    JoinPositive(RegexForRange(min, max), NegativePatterns(min, max), PositivePatterns(min, max),
                 Split.SplitToPatterns(min, max));
  }

  /** Equal bounds, equal fragments. */
  lemma SamePatterns(a: int, b: int, c: int, d: int)
    requires 0 <= a <= b && a == c && b == d
    ensures Split.SplitToPatterns(a, b) == Split.SplitToPatterns(c, d)
  {
  }

  /** A range of negatives only, [-hi, -lo], gives the fragments of the
      magnitudes [lo, hi], each with `-` in front. */
  lemma NegativeRange(lo: int, hi: int)
    requires 1 <= lo <= hi <= -I32Min
    ensures RegexForRange(-hi, -lo) == Join(Prefixed("-", Split.SplitToPatterns(lo, hi)), "|")
  {
    var m := NegativeMagnitudes(-hi, -lo);
    assert NegativePatterns(-hi, -lo) == Split.SplitToPatterns(m.0, m.1);
    SamePatterns(m.0, m.1, lo, hi);
    JoinNegative(RegexForRange(-hi, -lo), NegativePatterns(-hi, -lo), PositivePatterns(-hi, -lo),
                 Split.SplitToPatterns(lo, hi));
  }

  // ---------------------------------------------------------------------------
  // The sub-ranges of the two parts.

  /** x lies in one of the sub-ranges of the negative part (by magnitude). */
  predicate InNegativePart(min: int, max: int, x: int)
    requires min <= max
  {
    min < 0 &&
    var m := NegativeMagnitudes(min, max);
    Split.Covered(m.0, Split.SplitToRanges(m.0, m.1), -x)
  }

  /** x lies in one of the sub-ranges of the non-negative part. */
  predicate InPositivePart(min: int, max: int, x: int)
    requires min <= max
  {
    max >= 0 && Split.Covered(PositiveStart(min), Split.SplitToRanges(PositiveStart(min), max), x)
  }

  /** The negatives of [min, max] are exactly the numbers whose magnitude a
      negative sub-range holds, and the non-negatives exactly the numbers a
      positive sub-range holds; so the sub-ranges behind the fragments cover
      [min, max] and nothing else. */
  lemma SignSplit(min: int, max: int)
    requires I32Min <= min <= max <= I32Max
    ensures forall x :: InNegativePart(min, max, x) <==> min <= x <= max && x < 0
    ensures forall x :: InPositivePart(min, max, x) <==> min <= x <= max && x >= 0
  {
    if min < 0 {
      var m := NegativeMagnitudes(min, max);
      Split.SplitPartition(m.0, m.1);
      assert forall x :: InNegativePart(min, max, x) <==> Split.Covered(m.0, Split.SplitToRanges(m.0, m.1), -x);
    }
    if max >= 0 {
      Split.SplitPartition(PositiveStart(min), max);
    }
  }
}
