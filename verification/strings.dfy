/**
  The string operations the source relies on: `padStart` with a one-character
  pad, and the relational comparison of strings, which orders them
  lexicographically by character.
 */
module Strings {
  import Sorting

  /** `s.padStart(n, c)`: `c` repeated in front of `s` up to length `n`;
      `s` itself when it is already that long. */
  function PadStart(s: string, n: nat, c: char): (r: string)
    ensures |r| == Width(s, n)
    ensures r[|r| - |s|..] == s
    ensures forall i :: 0 <= i < |r| - |s| ==> r[i] == c
  {
    if |s| >= n then s else seq(n - |s|, _ => c) + s
  }

  /** Padding an already padded string changes nothing. */
  lemma PadStartIdempotent(s: string, n: nat, c: char)
    ensures PadStart(PadStart(s, n, c), n, c) == PadStart(s, n, c)
  {
  }

  /** The length `padStart(n, ...)` produces from `s`. */
  function Width(s: string, n: nat): nat
  {
    if |s| >= n then |s| else n
  }

  /** `field` is `s` right-aligned after nothing but `'0'`s. */
  predicate ZeroPadded(field: string, s: string)
  {
    && |field| >= |s|
    && field[|field| - |s|..] == s
    && forall i :: 0 <= i < |field| - |s| ==> field[i] == '0'
  }

  // ---------------------------------------------------------------------------
  // Relational comparison

  /** `a < b` on strings, with a Dafny `char` (a Unicode code point) standing
      for a JavaScript code unit: the first differing character decides, and
      a proper prefix comes first. */
  function LexLess(a: string, b: string): bool
  {
    if |b| == 0 then false
    else if |a| == 0 then true
    else if a[0] != b[0] then a[0] < b[0]
    else LexLess(a[1..], b[1..])
  }

  /** A three-way comparison built from `LexLess`. */
  function LexCompare(a: string, b: string): int
  {
    if LexLess(a, b) then -1 else if LexLess(b, a) then 1 else 0
  }

  /** Exactly one of `a < b`, `a == b`, `b < a` holds. */
  lemma {:induction false} LexTrichotomy(a: string, b: string)
    ensures LexLess(a, b) || a == b || LexLess(b, a)
    ensures !(LexLess(a, b) && LexLess(b, a))
    ensures !LexLess(a, a)
  {
    if |a| > 0 && |b| > 0 && a[0] == b[0] {
      LexTrichotomy(a[1..], b[1..]);
      if a[1..] == b[1..] {
        assert a == [a[0]] + a[1..] && b == [b[0]] + b[1..];
      }
    }
    if |a| > 0 {
      LexTrichotomy(a[1..], a[1..]);
    }
  }

  lemma {:induction false} LexTransitive(a: string, b: string, c: string)
    requires LexLess(a, b) && LexLess(b, c)
    ensures LexLess(a, c)
  {
    if |a| > 0 && a[0] == b[0] && b[0] == c[0] {
      LexTransitive(a[1..], b[1..], c[1..]);
    }
  }

  /** Code-point order is a comparator `sort` accepts. */
  lemma LexCompareConsistent()
    ensures Sorting.Consistent(LexCompare)
  {
    forall a: string
      ensures LexCompare(a, a) == 0
    {
      LexTrichotomy(a, a);
    }
    forall a: string, b: string
      ensures LexCompare(a, b) < 0 <==> LexCompare(b, a) > 0
    {
      LexTrichotomy(a, b);
    }
    forall a: string, b: string, c: string
      ensures Sorting.Le(LexCompare, a, b) && Sorting.Le(LexCompare, b, c) ==> Sorting.Le(LexCompare, a, c)
    {
      LexTrichotomy(a, b);
      LexTrichotomy(b, c);
      LexTrichotomy(a, c);
      if LexLess(c, a) {
        if LexLess(a, b) {
          LexTransitive(c, a, b);
        } else if LexLess(b, c) {
          LexTransitive(b, c, a);
        }
      }
    }
    forall a: string, b: string, c: string
      ensures Sorting.Equiv(LexCompare, a, b) && Sorting.Equiv(LexCompare, b, c) ==> Sorting.Equiv(LexCompare, a, c)
    {
      LexTrichotomy(a, b);
      LexTrichotomy(b, c);
    }
  }

  /** Comparing two concatenations whose first parts have equal length: the
      first parts decide unless they are equal. */
  lemma {:induction false} LexConcat(x: string, y: string, u: string, v: string)
    requires |x| == |u|
    ensures LexLess(x + y, u + v) == if x == u then LexLess(y, v) else LexLess(x, u)
  {
    if |x| > 0 {
      assert (x + y)[1..] == x[1..] + y;
      assert (u + v)[1..] == u[1..] + v;
      LexConcat(x[1..], y, u[1..], v);
      if x[0] == u[0] && x[1..] == u[1..] {
        assert x == [x[0]] + x[1..] && u == [u[0]] + u[1..];
      }
    } else {
      assert x + y == y && u + v == v;
    }
  }

  // ---------------------------------------------------------------------------
  // Decimal digits and `YYYY-MM` month strings

  predicate IsDigit(c: char)
  {
    '0' <= c <= '9'
  }

  predicate AllDigits(s: string)
  {
    forall i :: 0 <= i < |s| ==> IsDigit(s[i])
  }

  function Pow10(n: nat): (r: nat)
    ensures r > 0
  {
    if n == 0 then 1 else 10 * Pow10(n - 1)
  }

  /** The number a string of decimal digits denotes. */
  function DecimalValue(s: string): (v: nat)
    requires AllDigits(s)
    ensures v < Pow10(|s|)
  {
    if |s| == 0 then 0
    else
      DigitStep(Digit(s[0]), Pow10(|s| - 1), DecimalValue(s[1..]));
      Digit(s[0]) * Pow10(|s| - 1) + DecimalValue(s[1..])
  }

  function Digit(c: char): int
  {
    (c as int) - ('0' as int)
  }

  lemma DigitStep(d: int, p: nat, v: nat)
    requires 0 <= d <= 9 && v < p
    ensures 0 <= d * p + v < 10 * p
  {
    MulMono(d + 1, 10, p);
    assert (d + 1) * p == d * p + p;
  }

  lemma MulMono(x: int, y: int, p: nat)
    requires x <= y
    ensures x * p <= y * p
  {
  }

  /** A smaller leading digit wins whatever follows it. */
  lemma HeadDecides(da: int, db: int, p: nat, x: nat, y: nat)
    requires da < db && x < p && y < p
    ensures da * p + x < db * p + y
  {
    MulMono(da + 1, db, p);
    assert (da + 1) * p == da * p + p;
  }

  /** On digit strings of one length, string order is numeric order. */
  lemma {:induction false} DigitOrder(a: string, b: string)
    requires AllDigits(a) && AllDigits(b) && |a| == |b|
    ensures LexLess(a, b) <==> DecimalValue(a) < DecimalValue(b)
  {
    if |a| > 0 {
      var p := Pow10(|a| - 1);
      var x, y := DecimalValue(a[1..]), DecimalValue(b[1..]);
      assert DecimalValue(a) == Digit(a[0]) * p + x;
      assert DecimalValue(b) == Digit(b[0]) * p + y;
      if a[0] == b[0] {
        DigitOrder(a[1..], b[1..]);
      } else if a[0] < b[0] {
        HeadDecides(Digit(a[0]), Digit(b[0]), p, x, y);
      } else {
        HeadDecides(Digit(b[0]), Digit(a[0]), p, y, x);
      }
    }
  }

  /** Digit strings of one length denote the same number only when equal. */
  lemma DigitsInjective(a: string, b: string)
    requires AllDigits(a) && AllDigits(b) && |a| == |b|
    ensures DecimalValue(a) == DecimalValue(b) <==> a == b
  {
    DigitOrder(a, b);
    DigitOrder(b, a);
    LexTrichotomy(a, b);
  }

  /** A month as the month inputs produce it: four year digits, a dash, two
      month digits. */
  predicate IsMonth(s: string)
  {
    && |s| == 7
    && AllDigits(s[..4])
    && s[4] == '-'
    && AllDigits(s[5..])
  }

  function Year(s: string): nat
    requires IsMonth(s)
  {
    DecimalValue(s[..4])
  }

  function MonthNumber(s: string): nat
    requires IsMonth(s)
  {
    DecimalValue(s[5..])
  }

  /** `YYYY-MM` strings compare as strings exactly as their (year, month)
      pairs compare. */
  lemma MonthOrder(a: string, b: string)
    requires IsMonth(a) && IsMonth(b)
    ensures LexLess(a, b) <==>
              Year(a) < Year(b) || (Year(a) == Year(b) && MonthNumber(a) < MonthNumber(b))
  {
    assert a == a[..4] + a[4..] && b == b[..4] + b[4..];
    LexConcat(a[..4], a[4..], b[..4], b[4..]);
    assert a[4..] == [a[4]] + a[5..] && b[4..] == [b[4]] + b[5..];
    assert LexLess(a[4..], b[4..]) == LexLess(a[5..], b[5..]);
    DigitOrder(a[..4], b[..4]);
    DigitsInjective(a[..4], b[..4]);
    DigitOrder(a[5..], b[5..]);
  }
}
