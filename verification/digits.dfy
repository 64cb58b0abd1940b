/** The left-to-right digit iterator `Base10DigitIterator` (src/digits.rs).

    The iterator's two fields become the datatype `DigitIterator`; its `next`
    becomes `Next`, which returns the emitted character together with the
    following state, and `Drain` runs the iterator until it reports the end.
    `DigitString(n)` is therefore the whole character stream of
    `Base10DigitIterator::new(n)`. */
module Digits {
  import opened Decimal

  /** `number` is what is left to print, `powered` the place value of the next
      digit (0 once every digit has been printed). */
  datatype DigitIterator = DigitIterator(number: int, powered: int)

  /** What one call of `next` returns: the end, or a character and the new state. */
  datatype Step = Done | Yield(c: char, next: DigitIterator)

  /** The states reachable from `New`: the place value is a power of ten (or 0
      once exhausted) and the number has no more digits than the place value
      allows. */
  predicate Valid(it: DigitIterator) {
    if it.powered == 0 then it.number == 0
    else IsPow10(it.powered) && -10 * it.powered < it.number < 10 * it.powered
  }

  function Abs(n: int): nat {
    if n < 0 then -n else n
  }

  /** `Base10DigitIterator::new`: 0 and 1 start at place value 1, every other
      number at 10^ilog10(|n|). */
  function New(number: int): (it: DigitIterator)
    ensures Valid(it)
    ensures it.number == number
    ensures number != 0 ==> it.powered == Pow10(Log10(Abs(number)))
    ensures number == 0 ==> it.powered == 1
  {
    if number == 0 || number == 1 then
      DigitIterator(number, 1)
    else
      var k := Log10(Abs(number));
      Pow10IsPow10(k);
      DigitIterator(number, Pow10(k))
  }

  /** `Base10DigitIterator::next`. */
  function Next(it: DigitIterator): (r: Step)
    requires Valid(it)
    ensures r.Done? <==> it.powered == 0
    ensures r.Yield? ==> Valid(r.next) && r.next.number >= 0
    ensures r.Yield? ==> (r.c == '-' <==> it.number < 0)
    ensures r.Yield? && it.number >= 0 ==> IsDigitChar(r.c) && r.next.powered < it.powered
    ensures r.Yield? && it.number < 0 ==> r.next.powered == it.powered
  {
    if it.number < 0 then
      // the sign comes first; the magnitude is printed afterwards
      Yield('-', DigitIterator(-it.number, it.powered))
    else if it.powered > 0 && it.number == 0 then
      // a zero digit: every remaining place is zero
      Yield('0', DigitIterator(0, it.powered / 10))
    else if it.number == 0 || it.powered == 0 then
      Done
    else
      var digit := it.number / it.powered;
      DivBelow(it.number, it.powered, 10);
      Yield(DigitChar(digit), DigitIterator(it.number % it.powered, it.powered / 10))
  }

  /** The characters the iterator yields from state `it` until it ends. */
  function Drain(it: DigitIterator): (s: string)
    requires Valid(it)
    ensures |s| > 0 ==> (s[0] == '-' <==> it.number < 0)
    ensures forall i :: 0 < i < |s| ==> IsDigitChar(s[i])
    ensures it.number >= 0 ==> AllDigits(s)
    decreases it.powered, if it.number < 0 then 1 else 0
  {
    match Next(it)
    case Done => []
    case Yield(c, rest) => [c] + Drain(rest)
  }

  /** Every character `Base10DigitIterator::new(n)` yields, in order: a
      non-empty stream that starts with `-` exactly for a negative n and is
      otherwise made of digits. */
  function DigitString(n: int): (s: string)
    ensures |s| > 0
    ensures s[0] == '-' <==> n < 0
    ensures forall i :: 0 < i < |s| ==> IsDigitChar(s[i])
    ensures n >= 0 ==> AllDigits(s)
  {
    Drain(New(n))
  }

  /** From a non-negative state with a digit left to print, the iterator
      prints the leading digit and continues one place lower. Zero is the
      `number == 0` branch, which prints the same '0' a division would. */
  lemma DrainLeading(it: DigitIterator)
    requires Valid(it) && it.number >= 0 && it.powered > 0
    ensures 0 <= it.number / it.powered <= 9
    ensures Valid(DigitIterator(it.number % it.powered, it.powered / 10))
    ensures Drain(it) == [DigitChar(it.number / it.powered)]
                         + Drain(DigitIterator(it.number % it.powered, it.powered / 10))
  {
    var m, p := it.number, it.powered;
    DivBelow(m, p, 10);
    var rest := DigitIterator(m % p, p / 10);
    if m == 0 {
      DivModUnique(0, p, 0, 0);
      assert Next(it) == Yield('0', rest);
    } else {
      assert Next(it) == Yield(DigitChar(m / p), rest);
    }
  }

  /** From a non-negative state at place value 10^k the iterator prints the
      number zero padded to k + 1 digits; the end comes when the place value
      reaches 0. */
  lemma {:induction false} DrainPadded(m: int, k: nat)
    requires 0 <= m < Pow10(k + 1)
    ensures Valid(DigitIterator(m, Pow10(k)))
    ensures Drain(DigitIterator(m, Pow10(k))) == Pad(m, k + 1)
    decreases k
  {
    var p := Pow10(k);
    Pow10IsPow10(k);
    var it := DigitIterator(m, p);
    assert Valid(it);
    DrainLeading(it);
    PadSplitTop(m, k);
    if k == 0 {
      assert Drain(DigitIterator(m % p, p / 10)) == [];
    } else {
      assert p / 10 == Pow10(k - 1);
      DrainPadded(m % p, k - 1);
    }
  }

  /** The digit stream of n is n's canonical decimal string. */
  lemma DigitStringIsShow(n: int)
    ensures DigitString(n) == Show(n)
  {
    var it := New(n);
    if n == 0 {
      DrainPadded(0, 0);
    } else if n > 0 {
      DrainPadded(n, Log10(n));
      NatStrIsPad(n);
    } else {
      var k := Log10(-n);
      assert Next(it) == Yield('-', DigitIterator(-n, Pow10(k)));
      DrainPadded(-n, k);
      NatStrIsPad(-n);
    }
  }

  /** A `-` comes first exactly for negative numbers; then come exactly as many
      digits as ilog10 of the magnitude plus one, without a leading zero. */
  lemma DigitStringShape(n: int)
    ensures |DigitString(n)| >= 1
    ensures DigitString(n)[0] == '-' <==> n < 0
    ensures n < 0 ==> DigitString(n) == "-" + DigitString(-n)
    ensures n >= 0 ==> AllDigits(DigitString(n))
    ensures n == 0 ==> DigitString(n) == "0"
    ensures n != 0 ==> |DigitString(n)| == (if n < 0 then 1 else 0) + Log10(Abs(n)) + 1
    ensures n > 0 ==> DigitString(n)[0] != '0'
  {
    DigitStringIsShow(n);
    DigitStringIsShow(-n);
    NatStrShape(Abs(n));
  }

  /** Multiplying a positive number by 10^j appends j zeros to its digits. */
  lemma TrailingZeros(m: int, j: nat)
    requires m >= 1
    ensures DigitString(m * Pow10(j)) == DigitString(m) + Repeat('0', j)
  {
    NatStrShift(m, j, 0);
    PadExtremes(j);
    DigitStringIsShow(m);
    DigitStringIsShow(m * Pow10(j));
  }
}
