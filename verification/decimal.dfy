/** Decimal arithmetic shared by the whole model: powers of ten, the integer
    base-10 logarithm, digit characters, and the canonical decimal string of an
    integer (what Rust's `to_string` and `format!("{}")` print for an `i64`).

    `Show` is the reference against which the digit iterator is proved, and the
    formatter used for the `{n}` repetition count of a pattern fragment. */
module Decimal {

  /** 10^k. */
  function Pow10(k: nat): (p: int)
    ensures p >= 1
  {
    if k == 0 then 1 else 10 * Pow10(k - 1)
  }

  lemma {:induction false} Pow10Increasing(j: nat, k: nat)
    requires j < k
    ensures Pow10(j) < Pow10(k)
    decreases k
  {
    if j < k - 1 {
      Pow10Increasing(j, k - 1);
    }
  }

  /** The integer base-10 logarithm of a positive integer (Rust's `ilog10`). */
  function Log10(n: int): (k: nat)
    requires n >= 1
    ensures Pow10(k) <= n < Pow10(k + 1)
    decreases n
  {
    if n < 10 then 0
    else
      var k := Log10(n / 10);
      assert 10 * (n / 10) <= n < 10 * (n / 10) + 10;
      1 + k
  }

  /** `ilog10` is the only exponent that brackets n between two powers of ten. */
  lemma Log10Unique(n: int, k: nat)
    requires Pow10(k) <= n < Pow10(k + 1)
    ensures Log10(n) == k
  {
    var l := Log10(n);
    if l < k {
      if l + 1 < k { Pow10Increasing(l + 1, k); }
    } else if k < l {
      if k + 1 < l { Pow10Increasing(k + 1, l); }
    }
  }

  /** True of 1, 10, 100, ... */
  predicate IsPow10(p: int)
    decreases if p < 0 then 0 else p
  {
    p == 1 || (p >= 10 && p % 10 == 0 && IsPow10(p / 10))
  }

  lemma {:induction false} Pow10IsPow10(k: nat)
    ensures IsPow10(Pow10(k))
  {
    if k > 0 {
      Pow10IsPow10(k - 1);
      assert Pow10(k) / 10 == Pow10(k - 1);
    }
  }

  /** Every power of ten is 10^(its own ilog10). */
  lemma {:induction false} IsPow10IsPow10Log(p: int)
    requires IsPow10(p)
    ensures p >= 1 && p == Pow10(Log10(p))
    decreases if p < 0 then 0 else p
  {
    if p != 1 {
      IsPow10IsPow10Log(p / 10);
      assert p == 10 * (p / 10);
      Log10Unique(p, Log10(p / 10) + 1);
    }
  }

  /** The character of the decimal digit d: `(b'0' + d) as char`. */
  function DigitChar(d: int): (c: char)
    requires 0 <= d <= 9
    ensures '0' <= c <= '9'
    ensures c as int - '0' as int == d
  {
    (d + '0' as int) as char
  }

  predicate IsDigitChar(c: char) {
    '0' <= c <= '9'
  }

  predicate AllDigits(s: string) {
    forall i :: 0 <= i < |s| ==> IsDigitChar(s[i])
  }

  /** The decimal string of a natural number, least significant digit last. */
  function NatStr(n: nat): (s: string)
    decreases n
  {
    if n < 10 then [DigitChar(n)] else NatStr(n / 10) + [DigitChar(n % 10)]
  }

  /** The canonical decimal string of an integer: `-` iff negative, no leading
      zeros, "0" for zero. */
  function Show(n: int): (s: string)
  {
    if n < 0 then "-" + NatStr(-n) else NatStr(n)
  }

  /** The low w decimal digits of m, zero padded to exactly w characters. */
  function Pad(m: nat, w: nat): (s: string)
    ensures |s| == w
    decreases w
  {
    if w == 0 then [] else Pad(m / 10, w - 1) + [DigitChar(m % 10)]
  }

  /** The value of a string of decimal digits: the inverse of `NatStr`. */
  function ParseDigits(s: string): (n: int)
    requires AllDigits(s)
    decreases |s|
  {
    if |s| == 0 then 0
    else ParseDigits(s[..|s| - 1]) * 10 + (s[|s| - 1] as int - '0' as int)
  }

  // ---------------------------------------------------------------------------
  // Division facts (all operands non-negative, where Euclidean and truncating
  // division agree).

  lemma MulZero(k: int, d: int)
    requires d > 0 && -d < k * d < d
    ensures k == 0
  {
  }

  /** Quotient and remainder are the only pair that rebuilds n. */
  lemma DivModUnique(n: int, d: int, q: int, r: int)
    requires d > 0 && 0 <= r < d && n == q * d + r
    ensures n / d == q && n % d == r
  {
    var q', r' := n / d, n % d;
    assert (q - q') * d == r' - r;
    MulZero(q - q', d);
  }

  /** A number below b * p has a quotient by p below b. */
  lemma DivBelow(n: int, p: int, b: int)
    requires p > 0 && 0 <= n < b * p
    ensures 0 <= n / p < b
  {
    DivModUnique(n, p, n / p, n % p);
  }

  /** n minus its remainder by p is the largest multiple of p at or below n. */
  lemma RoundDown(n: int, p: int)
    requires n >= 0 && p >= 1
    ensures 0 <= n - n % p <= n < n - n % p + p
    ensures (n - n % p) % p == 0
  {
    var q := n / p;
    assert n - n % p == q * p;
    assert q * p >= 0;
    DivModUnique(q * p, p, q, 0);
  }

  /** Peeling the last digit off m, then dividing by p, is dividing by 10p. */
  lemma DivModNested(m: int, p: int)
    requires m >= 0 && p >= 1
    ensures (m / 10) / p == m / (10 * p)
    ensures (m / 10) % p == (m % (10 * p)) / 10
    ensures (m % (10 * p)) % 10 == m % 10
  {
    var q, r := m / 10, m % 10;
    var a, b := q / p, q % p;
    assert q == a * p + b;
    assert m == a * (10 * p) + (10 * b + r);
    assert 10 * b + r < 10 * p by {
      assert b <= p - 1;
      assert 10 * b <= 10 * p - 10;
    }
    DivModUnique(m, 10 * p, a, 10 * b + r);
    DivModUnique(10 * b + r, 10, b, r);
  }

  /** The last number of n's block of p: n rounded down to a multiple of p,
      plus p - 1. */
  lemma BlockEnd(n: int, p: int)
    requires n >= 0 && p >= 1
    ensures (n / p) * p >= 0
    ensures n <= (n / p) * p + p - 1 < n + p
    ensures ((n / p) * p + p - 1) % p == p - 1
  {
    var q := n / p;
    assert n == q * p + n % p;
    assert q >= 0;
    assert q * p >= 0;
    DivModUnique(q * p + p - 1, p, q, p - 1);
  }

  /** The remainder by p can be read off the remainder by 10p. */
  lemma ModNested(x: int, p: int)
    requires x >= 0 && p >= 1
    ensures x % p == (x % (10 * p)) % p
  {
    var a, b := x / (10 * p), x % (10 * p);
    var c, d := b / p, b % p;
    assert x == a * (10 * p) + b;
    assert b == c * p + d;
    assert a * (10 * p) == (10 * a) * p;
    assert x == (10 * a + c) * p + d;
    DivModUnique(x, p, 10 * a + c, d);
  }

  // ---------------------------------------------------------------------------
  // Facts about the decimal strings.

  /** Pad can equally be read most significant digit first. */
  lemma {:induction false} PadSplitTop(m: int, k: nat)
    requires 0 <= m < Pow10(k + 1)
    ensures Pad(m, k + 1) == [DigitChar(m / Pow10(k))] + Pad(m % Pow10(k), k)
    decreases k
  {
    if k > 0 {
      var p := Pow10(k - 1);
      assert Pow10(k) == 10 * p;
      DivModNested(m, p);
      assert m / 10 < Pow10(k) by {
        DivModUnique(m, 10, m / 10, m % 10);
      }
      PadSplitTop(m / 10, k - 1);
      assert Pad(m % Pow10(k), k) == Pad((m % Pow10(k)) / 10, k - 1) + [DigitChar((m % Pow10(k)) % 10)];
    }
  }

  /** A positive number's decimal string is its ilog10 + 1 low digits. */
  lemma {:induction false} NatStrIsPad(n: int)
    requires n >= 1
    ensures NatStr(n) == Pad(n, Log10(n) + 1)
    decreases n
  {
    if n >= 10 {
      NatStrIsPad(n / 10);
    }
  }

  /** Dropping the last digit of 10t + r, with r below 10p. */
  lemma ShiftDiv(t: int, p: int, r: int)
    requires t >= 1 && p >= 1 && 0 <= r < 10 * p
    ensures 0 <= r / 10 < p
    ensures (10 * t + r) / 10 == t + r / 10
    ensures (10 * t + r) % 10 == r % 10
  {
    DivBelow(r, 10, p);
    DivModUnique(r, 10, r / 10, r % 10);
    DivModUnique(10 * t + r, 10, t + r / 10, r % 10);
  }

  /** Dropping the last digit of m * 10^j + r, with r below 10^j. */
  lemma ShiftStep(m: int, j: nat, r: int)
    requires m >= 1 && j > 0 && 0 <= r < Pow10(j)
    ensures 0 <= r / 10 < Pow10(j - 1)
    ensures m * Pow10(j) + r >= 10
    ensures (m * Pow10(j) + r) / 10 == m * Pow10(j - 1) + r / 10
    ensures (m * Pow10(j) + r) % 10 == r % 10
  {
    var p := Pow10(j - 1);
    var t := m * p;
    assert t >= 1 by {
      assert m * p >= 1 * p;
    }
    assert m * Pow10(j) == 10 * t;
    ShiftDiv(t, p, r);
  }

  /** Appending the w digits of r to the decimal string of m gives the decimal
      string of m * 10^w + r. */
  lemma {:induction false} NatStrShift(m: int, j: nat, r: int)
    requires m >= 1 && 0 <= r < Pow10(j)
    ensures m * Pow10(j) + r >= 1
    ensures NatStr(m * Pow10(j) + r) == NatStr(m) + Pad(r, j)
    decreases j
  {
    if j > 0 {
      ShiftStep(m, j, r);
      NatStrShift(m, j - 1, r / 10);
      var x := m * Pow10(j) + r;
      assert NatStr(x) == NatStr(x / 10) + [DigitChar(x % 10)];
      assert Pad(r, j) == Pad(r / 10, j - 1) + [DigitChar(r % 10)];
    }
  }

  /** `ParseDigits` undoes `Pad` on numbers that fit the width. */
  lemma {:induction false} ParsePad(m: int, w: nat)
    requires 0 <= m < Pow10(w)
    ensures AllDigits(Pad(m, w))
    ensures ParseDigits(Pad(m, w)) == m
    decreases w
  {
    if w > 0 {
      var s := Pad(m, w);
      assert m / 10 < Pow10(w - 1) by {
        DivModUnique(m, 10, m / 10, m % 10);
      }
      ParsePad(m / 10, w - 1);
      assert s[..|s| - 1] == Pad(m / 10, w - 1);
    }
  }

  /** The decimal string of a natural number is all digits, has no leading
      zero (unless it is "0"), and has exactly ilog10 + 1 characters. */
  lemma {:induction false} NatStrShape(n: int)
    requires n >= 0
    ensures AllDigits(NatStr(n))
    ensures n == 0 ==> NatStr(n) == "0"
    ensures n >= 1 ==> |NatStr(n)| == Log10(n) + 1 && NatStr(n)[0] != '0'
    decreases n
  {
    if n >= 10 {
      NatStrShape(n / 10);
      assert NatStr(n)[0] == NatStr(n / 10)[0];
    }
  }

  /** `ParseDigits` is the inverse of `NatStr`. */
  lemma ParseNatStr(n: int)
    requires n >= 0
    ensures AllDigits(NatStr(n))
    ensures ParseDigits(NatStr(n)) == n
  {
    if n == 0 {
    } else {
      NatStrIsPad(n);
      ParsePad(n, Log10(n) + 1);
    }
  }

  /** The canonical decimal string: a sign exactly for negatives, then the
      magnitude's digits. */
  lemma ShowShape(n: int)
    ensures |Show(n)| >= 1
    ensures Show(n)[0] == '-' <==> n < 0
    ensures n < 0 ==> Show(n)[1..] == NatStr(-n)
    ensures n >= 0 ==> AllDigits(Show(n))
  {
    if n < 0 {
      NatStrShape(-n);
      assert ("-" + NatStr(-n))[1..] == NatStr(-n);
    } else {
      NatStrShape(n);
    }
  }

  /** n copies of the character c. */
  function Repeat(c: char, n: nat): (s: string)
    ensures |s| == n
    ensures forall i :: 0 <= i < n ==> s[i] == c
  {
    seq(n, _ => c)
  }

  /** Zero padding of 0 is a run of '0's, and padding 10^w - 1 is a run of '9's. */
  lemma {:induction false} PadExtremes(w: nat)
    ensures Pad(0, w) == Repeat('0', w)
    ensures Pad(Pow10(w) - 1, w) == Repeat('9', w)
    decreases w
  {
    if w > 0 {
      PadExtremes(w - 1);
      var p := Pow10(w - 1);
      DivModUnique(Pow10(w) - 1, 10, p - 1, 9);
      assert Repeat('0', w) == Repeat('0', w - 1) + ['0'];
      assert Repeat('9', w) == Repeat('9', w - 1) + ['9'];
    }
  }
}
