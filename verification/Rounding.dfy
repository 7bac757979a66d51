/**
 Fixed-point printing and the sole rounding step of internal/billing/amount.go, on exact fractions.
 big.Rat keeps lowest terms; a Ratio need not, and RoundReducesFreely shows that this cannot matter.
 */
module Rounding {
  import opened Text
  import opened Decimals

  datatype Fraction = Fraction(num: int, den: int)

  type Ratio = r: Fraction | r.den > 0 witness Fraction(0, 1)

  /** v <= w as exact fractions. */
  predicate AtMost(v: Ratio, w: Ratio) {
    v.num * w.den <= w.num * v.den
  }

  function Abs(x: int): (a: nat)
    ensures a == x || a == -x
  {
    if x < 0 then -x else x
  }

  /** big.Int.QuoRem truncates toward zero. */
  function Quo(n: int, d: int): int
    requires d > 0
  {
    if n < 0 then -(-n / d) else n / d
  }

  function Rem(n: int, d: int): int
    requires d > 0
  {
    if n < 0 then -(-n % d) else n % d
  }

  /** The integer that roundFixed prints: v in units of 10^-scale, rounded once. */
  function RoundUnits(v: Ratio, scale: nat): int {
    RoundQuotient(v.num * Pow10(scale), v.den, v.num < 0)
  }

  function RoundQuotient(n: int, d: int, negative: bool): int
    requires d > 0
  {
    var q, r := Quo(n, d), Rem(n, d);
    if r != 0 && 2 * Abs(r) >= d then (if negative then q - 1 else q + 1) else q
  }

  /** The decimal numeral of n, as big.Int.String prints it. */
  function DigitsOf(n: nat): (s: string)
    ensures s != "" && AllDigits(s)
  {
    if n < 10 then [DigitChar(n)] else DigitsOf(n / 10) + [DigitChar(n % 10)]
  }

  function DigitChar(d: nat): (c: char)
    requires d <= 9
    ensures IsDigit(c) && DigitValue(c) == d
  {
    '0' + d as char
  }

  /** The digits of q, padded so that at least one stands before the point. */
  function Padded(q: nat, scale: nat): (s: string)
    ensures |s| > scale
  {
    var digits := DigitsOf(q);
    if |digits| <= scale then Zeros(scale - |digits| + 1) + digits else digits
  }

  function Pointed(digits: string, scale: nat): string
    requires |digits| >= scale
  {
    digits[..|digits| - scale] + "." + digits[|digits| - scale..]
  }

  function ScaledIntegerString(value: int, scale: nat): string {
    var formatted := Pointed(Padded(Abs(value), scale), scale);
    if value < 0 then "-" + formatted else formatted
  }

  function RoundFixed(v: Ratio, scale: nat): string {
    ScaledIntegerString(RoundUnits(v, scale), scale)
  }

  function RoundAmount(v: Ratio): (r: Option<string>) {
    var result := RoundFixed(v, AMOUNT_SCALE);
    if ParseBounded(result, AMOUNT_SCALE, true, true).None? then None else Some(result)
  }

  // ---------------------------------------------------------------- rounding

  /** r is the integer nearest to n/d, and the one farther from zero when two are equally near. */
  ghost predicate NearestHalfAway(n: int, d: int, r: int) {
    && 2 * Abs(r * d - n) <= d
    && (2 * Abs(r * d - n) == d ==> Abs(r * d) > Abs(n))
  }

  /** floor(n/d + 1/2) for a non-negative n. */
  ghost predicate HalfUp(n: nat, d: int, r: nat) {
    2 * (r * d) <= 2 * n + d < 2 * (r * d) + 2 * d
  }

  lemma QuoRemHalfUp(n: int, d: int)
    requires d > 0
    ensures HalfUp(Abs(n), d, Abs(RoundQuotient(n, d, n < 0)))
    ensures n >= 0 ==> RoundQuotient(n, d, n < 0) >= 0
    ensures n <= 0 ==> RoundQuotient(n, d, n < 0) <= 0
  {
    var a := Abs(n);
    Euclid(a, d);
    AddOne(a / d, d);
    assert Abs(RoundQuotient(n, d, n < 0)) == if 2 * (a % d) >= d then a / d + 1 else a / d;
  }

  lemma Euclid(a: nat, d: int)
    requires d > 0
    ensures a == (a / d) * d + a % d && 0 <= a % d < d && a / d >= 0
  {
  }

  lemma AddOne(q: int, d: int)
    ensures (q + 1) * d == q * d + d
  {
  }

  lemma RoundMagnitude(v: Ratio, scale: nat)
    ensures Abs(v.num) * Pow10(scale) >= 0
    ensures HalfUp(Abs(v.num) * Pow10(scale), v.den, Abs(RoundUnits(v, scale)))
    ensures v.num >= 0 ==> RoundUnits(v, scale) >= 0
    ensures v.num <= 0 ==> RoundUnits(v, scale) <= 0
  {
    SignedProduct(v.num, Pow10(scale));
    SignOfProduct(v.num, Pow10(scale));
    QuoRemHalfUp(v.num * Pow10(scale), v.den);
  }

  /** The rounded value errs by at most half a unit, and ties go away from zero. */
  lemma RoundNearest(v: Ratio, scale: nat)
    ensures NearestHalfAway(v.num * Pow10(scale), v.den, RoundUnits(v, scale))
  {
    var p, r, d := Pow10(scale), RoundUnits(v, scale), v.den;
    RoundMagnitude(v, scale);
    SignedProduct(v.num, p);
    SignedProduct(r, d);
    HalfUpIsNearest(v.num * p, d, r * d, Abs(v.num) * p, Abs(r) * d);
  }

  lemma HalfUpIsNearest(n: int, d: int, x: int, a: int, b: int)
    requires 2 * b <= 2 * a + d < 2 * b + 2 * d && a >= 0 && b >= 0
    requires (n == a && x == b) || (n == -a && x == -b)
    ensures 2 * Abs(x - n) <= d && (2 * Abs(x - n) == d ==> Abs(x) > Abs(n))
  {
  }

  lemma SignedProduct(x: int, p: int)
    requires p > 0
    ensures Abs(x) * p == Abs(x * p)
    ensures x >= 0 ==> x * p == Abs(x) * p
    ensures x <= 0 ==> x * p == -(Abs(x) * p)
  {
    if x < 0 { assert (-x) * p == -(x * p); MulLe(x, 0, p); } else { MulLe(0, x, p); }
  }

  /** Nothing else is nearest: the rounding mode determines the result. */
  lemma NearestUnique(n: int, d: int, r: int, t: int)
    requires d > 0 && NearestHalfAway(n, d, r) && NearestHalfAway(n, d, t)
    ensures r == t
  {
    if r <= t { NearestOrdered(n, d, r, t); } else { NearestOrdered(n, d, t, r); }
  }

  lemma NearestOrdered(n: int, d: int, r: int, t: int)
    requires d > 0 && NearestHalfAway(n, d, r) && NearestHalfAway(n, d, t) && r <= t
    ensures r == t
  {
    if r < t {
      MulLe(r + 1, t, d);
      assert (r + 1) * d == r * d + d;
      SignOfProduct(r, d);
      SignOfProduct(t, d);
    }
  }

  lemma SignOfProduct(r: int, d: int)
    requires d > 0
    ensures r * d >= 0 <==> r >= 0
    ensures r * d > 0 <==> r > 0
    ensures r < 0 ==> r * d <= -d
    ensures r > 0 ==> r * d >= d
  {
    if r < 0 { MulLe(r, -1, d); } else if r > 0 { MulLe(1, r, d); }
  }

  /** Rounding is monotone. */
  lemma RoundMonotone(v: Ratio, w: Ratio, scale: nat)
    requires AtMost(v, w)
    ensures RoundUnits(v, scale) <= RoundUnits(w, scale)
  {
    var p := Pow10(scale);
    RoundMagnitude(v, scale);
    RoundMagnitude(w, scale);
    SignOfProduct(v.num, w.den);
    SignOfProduct(w.num, v.den);
    if v.num > 0 {
      ScaleOrder(v.num, w.den, w.num, v.den, p);
      HalfUpMonotone(Abs(v.num) * p, v.den, Abs(RoundUnits(v, scale)), Abs(w.num) * p, w.den, Abs(RoundUnits(w, scale)));
    } else if w.num < 0 {
      Negated(w.num, v.den);
      Negated(v.num, w.den);
      ScaleOrder(-w.num, v.den, -v.num, w.den, p);
      HalfUpMonotone(Abs(w.num) * p, w.den, Abs(RoundUnits(w, scale)), Abs(v.num) * p, v.den, Abs(RoundUnits(v, scale)));
    }
  }

  lemma Negated(x: int, p: int)
    ensures (-x) * p == -(x * p)
  {
  }

  lemma ScaleOrder(a: int, b: int, c: int, d: int, p: int)
    requires a * b <= c * d && p >= 0
    ensures (a * p) * b <= (c * p) * d
  {
    MulLe(a * b, c * d, p);
    assert (a * p) * b == (a * b) * p;
    assert (c * p) * d == (c * d) * p;
  }

  lemma HalfUpMonotone(n: nat, d: int, r: nat, m: nat, e: int, t: nat)
    requires d > 0 && e > 0 && HalfUp(n, d, r) && HalfUp(m, e, t) && n * e <= m * d
    ensures r <= t
  {
    var x, y, g := r * d, t * e, d * e;
    MulLe(2 * x + 0, 2 * n + d, e);
    MulLess(2 * m + e, 2 * y + 2 * e, d);
    Expand(x, 0, e);
    Expand(n, d, e);
    Expand(m, e, d);
    Expand(y, 2 * e, d);
    Regroup(r, d, e);
    Regroup(t, e, d);
    Regroup(2, e, d);
    if t < r {
      MulLe(t + 1, r, g);
      AddOne(t, g);
    }
  }

  lemma Regroup(a: int, b: int, c: int)
    ensures (a * b) * c == a * (b * c)
    ensures b * c == c * b
  {
  }

  lemma Expand(a: int, b: int, c: int)
    ensures (2 * a + b) * c == 2 * (a * c) + b * c
  {
  }

  lemma MulLess(a: int, b: int, p: int)
    requires a < b && p > 0
    ensures a * p < b * p
  {
  }

  /** Equal fractions round alike, so reducing to lowest terms is immaterial. */
  lemma RoundReducesFreely(v: Ratio, w: Ratio, scale: nat)
    requires v.num * w.den == w.num * v.den
    ensures RoundUnits(v, scale) == RoundUnits(w, scale)
  {
    RoundMonotone(v, w, scale);
    RoundMonotone(w, v, scale);
  }

  // ---------------------------------------------------------------- printing

  lemma OneDigit(d: nat)
    requires d <= 9
    ensures Numeral([DigitChar(d)]) == d
  {
    var s := [DigitChar(d)];
    assert s[1..] == "";
    assert Units(s, 1) == DigitValue(s[0]) * Pow10(0) + Units(s[1..], 0);
  }

  lemma {:induction false} DigitsOfValue(n: nat)
    ensures Numeral(DigitsOf(n)) == n
    ensures ValidInteger(DigitsOf(n))
    ensures n > 0 ==> DigitsOf(n)[0] != '0'
  {
    if n < 10 {
      OneDigit(n);
    } else {
      DigitsOfValue(n / 10);
      NumeralConcat(DigitsOf(n / 10), [DigitChar(n % 10)]);
      OneDigit(n % 10);
      assert Pow10(1) == 10;
      assert DigitsOf(n)[0] == DigitsOf(n / 10)[0];
    }
  }

  /** n has at most m digits exactly when n < 10^m. */
  lemma DigitsOfLength(n: nat, m: nat)
    requires m > 0
    ensures |DigitsOf(n)| <= m <==> n < Pow10(m)
  {
    DigitsOfValue(n);
    var s := DigitsOf(n);
    UnitsBound(s, |s|);
    if |s| <= m {
      PowMonotone(|s|, m);
    } else {
      if n == 0 { assert |s| == 1; }
      LeadingDigit(s);
      PowMonotone(m, |s| - 1);
    }
  }

  lemma PaddedValue(q: nat, k: nat)
    requires k > 0
    ensures var d := Padded(q, k);
            && |d| > k && AllDigits(d) && Numeral(d) == q && ValidInteger(d[..|d| - k])
            && (|d[..|d| - k]| <= MAX_INTEGER_DIGITS <==> |DigitsOf(q)| <= MAX_INTEGER_DIGITS + k)
  {
    DigitsOfValue(q);
    var digits := DigitsOf(q);
    if |digits| <= k {
      var z := Zeros(k - |digits| + 1);
      NumeralConcat(z, digits);
      ZerosUnits(|z|, |z|);
      assert (z + digits)[..1] == "0";
    }
  }

  lemma PrintMagnitude(q: nat, k: nat)
    requires k > 0
    ensures var m := Pointed(Padded(q, k), k);
            && MatchesDecimal(m) && |FractionPart(m)| == k && MagnitudeUnits(m, k) == q
            && (|IntegerPart(m)| <= MAX_INTEGER_DIGITS <==> |DigitsOf(q)| <= MAX_INTEGER_DIGITS + k)
  {
    hide Units, DigitsOf, Padded, Pow10, MatchesDecimal, ValidInteger;
    var d := Padded(q, k);
    PaddedValue(q, k);
    var i, f := d[..|d| - k], d[|d| - k..];
    assert d == i + f;
    NumeralConcat(i, f);
    JoinParts(i, f);
    assert Pointed(d, k) == Join(i, f);
  }

  /** Printing q units of 10^-k is exact, with exactly k fraction digits. */
  lemma PrintExact(q: int, k: nat)
    requires k > 0
    ensures var s := ScaledIntegerString(q, k);
            && FitsScale(s, k) && ValueUnits(s, k) == q
            && |FractionPart(Magnitude(s))| == k && (Signed(s) <==> q < 0)
            && (|IntegerPart(Magnitude(s))| <= MAX_INTEGER_DIGITS <==> Abs(q) < Pow10(MAX_INTEGER_DIGITS + k))
  {
    hide MagnitudeUnits, DigitsOf, Padded, Pointed, MatchesDecimal, Pow10;
    DigitsOfLength(Abs(q), MAX_INTEGER_DIGITS + k);
    PrintMagnitude(Abs(q), k);
    WithSign(Pointed(Padded(Abs(q), k), k), k);
  }

  /**
   roundAmount prints the rounded value exactly, and refuses it exactly when it needs more than
   eighteen integer digits. What it prints always re-parses.
   */
  lemma RoundAmountExactly(v: Ratio)
    ensures RoundAmount(v).Some? <==> Abs(RoundUnits(v, AMOUNT_SCALE)) < Pow10(30)
    ensures RoundAmount(v).Some? ==>
              var s := RoundAmount(v).value;
              && FitsScale(s, AMOUNT_SCALE) && ValueUnits(s, AMOUNT_SCALE) == RoundUnits(v, AMOUNT_SCALE)
              && ParseBounded(s, AMOUNT_SCALE, true, true).Some?
  {
    var q := RoundUnits(v, AMOUNT_SCALE);
    PrintExact(q, AMOUNT_SCALE);
    ParseAcceptsExactly(RoundFixed(v, AMOUNT_SCALE), AMOUNT_SCALE, true, true);
  }

  /** A larger exact amount never prints smaller, and if it is in range so is a smaller non-negative one. */
  lemma RoundAmountMonotone(v: Ratio, w: Ratio)
    requires AtMost(v, w) && v.num >= 0 && RoundAmount(w).Some?
    ensures RoundAmount(v).Some?
    ensures FitsScale(RoundAmount(v).value, AMOUNT_SCALE) && FitsScale(RoundAmount(w).value, AMOUNT_SCALE)
    ensures ValueUnits(RoundAmount(v).value, AMOUNT_SCALE) <= ValueUnits(RoundAmount(w).value, AMOUNT_SCALE)
  {
    RoundMonotone(v, w, AMOUNT_SCALE);
    RoundMagnitude(v, AMOUNT_SCALE);
    RoundAmountExactly(v);
    RoundAmountExactly(w);
  }
}
