/** `range_to_pattern` (src/lib.rs:157-186): prints one sub-range
    `[start, stop]` as a regex fragment by walking the two digit streams side
    by side. Per position: an equal pair prints its digit, an unequal pair
    other than ('0', '9') prints a class `[a-b]`, and a ('0', '9') pair prints
    nothing but is counted; after the walk the count c becomes `\d` when
    c >= 1 and gains `{c}` when c >= 2. */
module Pattern {
  import opened Decimal
  import Digits

  /** `start_digits.zip(stop_digits)`: the pairs up to the end of the shorter
      stream. */
  function Zip(s: string, t: string): (ps: seq<(char, char)>)
    ensures |ps| == if |s| < |t| then |s| else |t|
    ensures forall i :: 0 <= i < |ps| ==> ps[i] == (s[i], t[i])
    decreases |s|
  {
    if |s| == 0 || |t| == 0 then [] else [(s[0], t[0])] + Zip(s[1..], t[1..])
  }

  /** A position where any digit is allowed: the pair ('0', '9'). */
  predicate IsFree(p: (char, char)) {
    p.0 != p.1 && p.0 == '0' && p.1 == '9'
  }

  /** What the loop body writes for one pair. */
  function Piece(p: (char, char)): string {
    if p.0 == p.1 then [p.0]
    else if p.0 != '0' || p.1 != '9' then "[" + [p.0] + "-" + [p.1] + "]"
    else ""
  }

  /** Everything the loop writes, in position order. */
  function Body(ps: seq<(char, char)>): string
    decreases |ps|
  {
    if |ps| == 0 then "" else Piece(ps[0]) + Body(ps[1..])
  }

  /** `any_digit_count` after the loop. */
  function FreeCount(ps: seq<(char, char)>): (n: nat)
    ensures n <= |ps|
    decreases |ps|
  {
    if |ps| == 0 then 0 else (if IsFree(ps[0]) then 1 else 0) + FreeCount(ps[1..])
  }

  /** The trailing token for n free positions: `\d`, then `{n}` when n > 1. */
  function AnyDigits(n: nat): string {
    (if n > 0 then "\\d" else "") + (if n > 1 then "{" + Show(n) + "}" else "")
  }

  /** `range_to_pattern(start, stop)`: the contents of the buffer afterwards.
      Every fragment is non-empty and free of `|`, so the alternation the
      caller builds from fragments splits back into them. */
  function RangeToPattern(start: int, stop: int): (r: string)
    ensures |r| > 0
    ensures '|' !in r
  {
    var s, t := Digits.DigitString(start), Digits.DigitString(stop);
    DigitStringNoBar(start);
    DigitStringNoBar(stop);
    Digits.DigitStringShape(start);
    Digits.DigitStringShape(stop);
    var ps := Zip(s, t);
    ZipNoBar(s, t);
    BodyNoBar(ps);
    AnyDigitsNoBar(FreeCount(ps));
    WalkNonEmpty(ps);
    AnyDigitsRoundTrip(FreeCount(ps));
    Body(ps) + AnyDigits(FreeCount(ps))
  }

  // ---------------------------------------------------------------------------
  // The trailing token and its inverse.

  /** Reads back the number of free positions from a trailing token; -1 for a
      string that is no trailing token. */
  function FreeSlots(s: string): int {
    if s == "" then 0
    else if s == "\\d" then 1
    else if |s| >= 4 && s[..3] == "\\d{" && s[|s| - 1] == '}' && AllDigits(s[3..|s| - 1]) then
      ParseDigits(s[3..|s| - 1])
    else -1
  }

  /** The trailing token records the free-position count exactly: it is empty
      for none, `\d` for one, and `\d{n}` otherwise. */
  lemma AnyDigitsRoundTrip(n: nat)
    ensures FreeSlots(AnyDigits(n)) == n
    ensures n == 0 <==> AnyDigits(n) == ""
    ensures n >= 1 ==> AnyDigits(n)[..2] == "\\d"
    ensures n >= 2 <==> |AnyDigits(n)| > 2
  {
    if n >= 2 {
      var s := AnyDigits(n);
      ParseNatStr(n);
      assert s == "\\d{" + NatStr(n) + "}";
      assert s[3..|s| - 1] == NatStr(n);
      assert s[..3] == "\\d{";
    }
  }

  // ---------------------------------------------------------------------------
  // The walk is position by position.

  lemma {:induction false} BodyConcat(ps: seq<(char, char)>, qs: seq<(char, char)>)
    ensures Body(ps + qs) == Body(ps) + Body(qs)
    ensures FreeCount(ps + qs) == FreeCount(ps) + FreeCount(qs)
    decreases |ps|
  {
    if |ps| > 0 {
      assert (ps + qs)[1..] == ps[1..] + qs;
      BodyConcat(ps[1..], qs);
    } else {
      assert ps + qs == qs;
    }
  }

  lemma ZipConcat(s1: string, s2: string, t1: string, t2: string)
    requires |s1| == |t1|
    ensures Zip(s1 + s2, t1 + t2) == Zip(s1, t1) + Zip(s2, t2)
  {
  }

  /** Equal digits print as themselves and count nothing. */
  lemma {:induction false} BodySame(s: string)
    ensures Body(Zip(s, s)) == s
    ensures FreeCount(Zip(s, s)) == 0
    decreases |s|
  {
    if |s| > 0 {
      BodySame(s[1..]);
    }
  }

  /** A run of ('0', '9') pairs prints nothing and counts its length. */
  lemma {:induction false} BodyFree(j: nat)
    ensures Body(Zip(Repeat('0', j), Repeat('9', j))) == ""
    ensures FreeCount(Zip(Repeat('0', j), Repeat('9', j))) == j
    decreases j
  {
    if j > 0 {
      assert Repeat('0', j)[1..] == Repeat('0', j - 1);
      assert Repeat('9', j)[1..] == Repeat('9', j - 1);
      BodyFree(j - 1);
    }
  }

  // ---------------------------------------------------------------------------
  // What a fragment is made of.

  /** A walk over pairs that hold no `|` writes no `|`. */
  lemma {:induction false} BodyNoBar(ps: seq<(char, char)>)
    requires forall i :: 0 <= i < |ps| ==> ps[i].0 != '|' && ps[i].1 != '|'
    ensures '|' !in Body(ps)
    decreases |ps|
  {
    if |ps| > 0 {
      BodyNoBar(ps[1..]);
    }
  }

  /** The characters of a decimal string: a leading sign and digits. */
  lemma DigitStringNoBar(n: int)
    ensures '|' !in Digits.DigitString(n)
  {
    var s := Digits.DigitString(n);
    Digits.DigitStringShape(n);
    forall i | 0 <= i < |s|
      ensures s[i] != '|'
    {
      if i > 0 {
        assert IsDigitChar(s[i]);
      }
    }
  }

  /** The trailing token holds no `|`. */
  lemma AnyDigitsNoBar(n: nat)
    ensures '|' !in AnyDigits(n)
  {
    if n > 1 {
      ShowShape(n);
      assert AnyDigits(n) == "\\d{" + Show(n) + "}";
    }
  }

  /** A walk over at least one pair writes something or counts a free
      position. */
  lemma WalkNonEmpty(ps: seq<(char, char)>)
    requires |ps| > 0
    ensures |Body(ps)| > 0 || FreeCount(ps) >= 1
  {
    assert Body(ps) == Piece(ps[0]) + Body(ps[1..]);
  }

  /** Pairing two strings without `|` gives pairs without `|`. */
  lemma ZipNoBar(s: string, t: string)
    requires '|' !in s && '|' !in t
    ensures forall i :: 0 <= i < |Zip(s, t)| ==> Zip(s, t)[i].0 != '|' && Zip(s, t)[i].1 != '|'
  {
    var ps := Zip(s, t);
    forall i | 0 <= i < |ps|
      ensures ps[i].0 != '|' && ps[i].1 != '|'
    {
      assert ps[i].0 == s[i] && ps[i].1 == t[i];
    }
  }

  /** A sub-range holding a single number prints that number's digits. */
  lemma SinglePattern(n: int)
    ensures RangeToPattern(n, n) == Digits.DigitString(n)
  {
    BodySame(Digits.DigitString(n));
  }

  // ---------------------------------------------------------------------------
  // What a digit-aligned block prints.

  /** The decimal digits of q, or nothing for q = 0. */
  function PrefixStr(q: nat): string {
    if q == 0 then "" else NatStr(q)
  }

  /** The text for the position where the block's bounds first differ: the
      digit itself, a class, or nothing for the full span 0-9 (which joins the
      trailing `\d` count instead). */
  function Lead(a: int, b: int): string
    requires 0 <= a <= b <= 9
  {
    if a == b then [DigitChar(a)]
    else if a == 0 && b == 9 then ""
    else "[" + [DigitChar(a)] + "-" + [DigitChar(b)] + "]"
  }

  /** The decimal string of m is that of m / 10 followed by its last digit. */
  lemma NatStrLastDigit(m: int)
    requires m >= 0
    ensures NatStr(m) == PrefixStr(m / 10) + [DigitChar(m % 10)]
  {
  }

  lemma NinesStr(m: int, j: nat)
    requires m >= 1
    ensures NatStr(m * Pow10(j) + (Pow10(j) - 1)) == NatStr(m) + Repeat('9', j)
  {
    PadExtremes(j);
    NatStrShift(m, j, Pow10(j) - 1);
  }

  lemma ZerosStr(m: int, j: nat)
    requires m >= 1
    ensures NatStr(m * Pow10(j)) == NatStr(m) + Repeat('0', j)
  {
    PadExtremes(j);
    NatStrShift(m, j, 0);
  }

  /** m followed by j zeros. */
  lemma ShiftZeros(m: int, j: nat)
    requires m >= 1
    ensures Digits.DigitString(m * Pow10(j)) == NatStr(m) + Repeat('0', j)
  {
    ZerosStr(m, j);
    Digits.DigitStringIsShow(m * Pow10(j));
  }

  /** m followed by j nines. */
  lemma ShiftNines(m: int, j: nat)
    requires m >= 1
    ensures Digits.DigitString(m * Pow10(j) + (Pow10(j) - 1)) == NatStr(m) + Repeat('9', j)
  {
    NinesStr(m, j);
    Digits.DigitStringIsShow(m * Pow10(j) + (Pow10(j) - 1));
  }

  /** The start of a block: the digits of m, then j zeros. */
  lemma BlockStartDigits(m: int, j: nat)
    requires m >= 0 && (m >= 1 || j == 0)
    ensures Digits.DigitString(m * Pow10(j))
            == PrefixStr(m / 10) + [DigitChar(m % 10)] + Repeat('0', j)
  {
    NatStrLastDigit(m);
    if m >= 1 {
      ShiftZeros(m, j);
    } else {
      assert Pow10(j) == 1;
      Digits.DigitStringIsShow(0);
    }
  }

  /** The stop of a block: the digits of m, then j nines. */
  lemma BlockStopDigits(m: int, j: nat)
    requires m >= 0 && (m >= 1 || j == 0)
    ensures Digits.DigitString(m * Pow10(j) + (Pow10(j) - 1))
            == PrefixStr(m / 10) + [DigitChar(m % 10)] + Repeat('9', j)
  {
    NatStrLastDigit(m);
    if m >= 1 {
      ShiftNines(m, j);
    } else {
      assert Pow10(j) == 1;
      Digits.DigitStringIsShow(0);
    }
  }

  /** Two streams that share a prefix, differ at one position and continue
      with equally long tails zip to the three parts. */
  lemma ZipAround(pre: string, da: char, db: char, zs: string, ns: string)
    requires |zs| == |ns|
    ensures Zip(pre + [da] + zs, pre + [db] + ns) == Zip(pre, pre) + [(da, db)] + Zip(zs, ns)
  {
    var s, t := pre + [da], pre + [db];
    ZipConcat(s, zs, t, ns);
    ZipConcat(pre, [da], pre, [db]);
    assert Zip([da], [db]) == [(da, db)];
    assert Zip(s, t) == Zip(pre, pre) + [(da, db)];
  }

  /** The zipped digit streams of a block: shared prefix digits, the lead
      pair, then j pairs ('0', '9'). */
  lemma BlockZip(lo: int, hi: int, j: nat, start: int, stop: int)
    requires 0 <= lo <= hi && lo / 10 == hi / 10
    requires lo >= 1 || j == 0
    requires start == lo * Pow10(j) && stop == hi * Pow10(j) + (Pow10(j) - 1)
    ensures Zip(Digits.DigitString(start), Digits.DigitString(stop))
            == Zip(PrefixStr(lo / 10), PrefixStr(lo / 10))
               + [(DigitChar(lo % 10), DigitChar(hi % 10))]
               + Zip(Repeat('0', j), Repeat('9', j))
  {
    BlockStartDigits(lo, j);
    BlockStopDigits(hi, j);
    ZipAround(PrefixStr(lo / 10), DigitChar(lo % 10), DigitChar(hi % 10), Repeat('0', j), Repeat('9', j));
  }

  /** What the walk writes and counts over a block's zipped streams. */
  lemma BlockWalk(pre: string, a: int, b: int, j: nat)
    requires 0 <= a <= b <= 9
    ensures Body(Zip(pre, pre) + [(DigitChar(a), DigitChar(b))] + Zip(Repeat('0', j), Repeat('9', j)))
            == pre + Lead(a, b)
    ensures FreeCount(Zip(pre, pre) + [(DigitChar(a), DigitChar(b))] + Zip(Repeat('0', j), Repeat('9', j)))
            == if a == 0 && b == 9 then j + 1 else j
  {
    var head, mid, tail := Zip(pre, pre), [(DigitChar(a), DigitChar(b))], Zip(Repeat('0', j), Repeat('9', j));
    BodyConcat(head + mid, tail);
    BodyConcat(head, mid);
    BodySame(pre);
    BodyFree(j);
    assert Body(mid) == Piece(mid[0]) + Body([]);
    assert FreeCount(mid) == (if IsFree(mid[0]) then 1 else 0) + FreeCount([]);
  }

  /** Two numbers with the same prefix above the last digit are ordered by
      their last digits. */
  lemma LastDigitsOrdered(lo: int, hi: int)
    requires 0 <= lo <= hi && lo / 10 == hi / 10
    ensures 0 <= lo % 10 <= hi % 10 <= 9
  {
    assert lo == 10 * (lo / 10) + lo % 10;
    assert hi == 10 * (hi / 10) + hi % 10;
  }

  /** The pattern of a sub-range from what the walk over its zipped digit
      streams writes and counts. */
  lemma PatternOfWalk(start: int, stop: int, ps: seq<(char, char)>, body: string, n: nat)
    requires Zip(Digits.DigitString(start), Digits.DigitString(stop)) == ps
    requires Body(ps) == body && FreeCount(ps) == n
    ensures RangeToPattern(start, stop) == body + AnyDigits(n)
  {
  }

  /** A digit-aligned block: lo and hi agree on every digit but the last,
      and j trailing positions run from all zeros to all nines. It prints as
      the shared prefix, the lead position, and j free positions; when the
      lead pair is (0, 9) it is free as well. These are the blocks the
      splitter's stops are designed to produce. */
  lemma BlockPattern(lo: int, hi: int, j: nat, start: int, stop: int)
    requires 0 <= lo <= hi && lo / 10 == hi / 10
    requires lo >= 1 || j == 0
    requires start == lo * Pow10(j) && stop == hi * Pow10(j) + (Pow10(j) - 1)
    ensures RangeToPattern(start, stop)
            == PrefixStr(lo / 10) + Lead(lo % 10, hi % 10)
               + AnyDigits(if lo % 10 == 0 && hi % 10 == 9 then j + 1 else j)
  {
    var a, b := lo % 10, hi % 10;
    LastDigitsOrdered(lo, hi);
    var ps := Zip(PrefixStr(lo / 10), PrefixStr(lo / 10)) + [(DigitChar(a), DigitChar(b))]
              + Zip(Repeat('0', j), Repeat('9', j));
    BlockZip(lo, hi, j, start, stop);
    BlockWalk(PrefixStr(lo / 10), a, b, j);
    PatternOfWalk(start, stop, ps,
                  PrefixStr(lo / 10) + Lead(a, b), if a == 0 && b == 9 then j + 1 else j);
  }
}
