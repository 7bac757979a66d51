/**
 Exact decimals of internal/billing/amount.go: the bounded parser, the fixed-point printer and the
 single rounding step. A decimal with at most k fraction digits is measured in units of 10^-k.
 */
module Decimals {
  import opened Text

  const AMOUNT_SCALE: nat := 12
  const MAX_INTEGER_DIGITS: nat := 18

  // ---------------------------------------------------------------- digits

  predicate IsDigit(c: char) {
    '0' <= c <= '9'
  }

  predicate AllDigits(s: string) {
    forall i :: 0 <= i < |s| ==> IsDigit(s[i])
  }

  function DigitValue(c: char): (d: nat)
    requires IsDigit(c)
    ensures d <= 9
  {
    (c - '0') as nat
  }

  function Pow10(n: nat): (p: nat)
    ensures p > 0
  {
    if n == 0 then 1 else 10 * Pow10(n - 1)
  }

  lemma MulLe(a: int, b: int, p: int)
    requires a <= b && 0 <= p
    ensures a * p <= b * p
  {
  }

  lemma Distribute(d: int, p: int, u: int, q: int)
    ensures (d * p + u) * q == d * (p * q) + u * q
  {
  }

  /** The value of the digits s read as the leading digits of an n-digit numeral. */
  function Units(s: string, n: nat): (u: nat)
    requires AllDigits(s) && |s| <= n
    decreases |s|
  {
    if s == "" then 0 else DigitValue(s[0]) * Pow10(n - 1) + Units(s[1..], n - 1)
  }

  function Numeral(s: string): nat
    requires AllDigits(s)
  {
    Units(s, |s|)
  }

  lemma PowAdd(a: nat, b: nat)
    ensures Pow10(a + b) == Pow10(a) * Pow10(b)
  {
    if a > 0 {
      PowAdd(a - 1, b);
      Distribute(10, Pow10(a - 1), 0, Pow10(b));
    }
  }

  lemma PowMonotone(a: nat, b: nat)
    requires a <= b
    ensures Pow10(a) <= Pow10(b)
  {
    if a < b { PowMonotone(a, b - 1); }
  }

  lemma {:induction false} UnitsBound(s: string, n: nat)
    requires AllDigits(s) && |s| <= n
    ensures Units(s, n) < Pow10(n)
    decreases |s|
  {
    if s != "" {
      UnitsBound(s[1..], n - 1);
      var d, p := DigitValue(s[0]), Pow10(n - 1);
      MulLe(d, 9, p);
    }
  }

  lemma {:induction false} UnitsConcat(a: string, b: string, n: nat)
    requires AllDigits(a) && AllDigits(b) && |a| + |b| <= n
    ensures AllDigits(a + b) && Units(a + b, n) == Units(a, n) + Units(b, n - |a|)
    decreases |a|
  {
    assert AllDigits(a + b) by {
      forall i | 0 <= i < |a + b| ensures IsDigit((a + b)[i]) {
        if i >= |a| { assert (a + b)[i] == b[i - |a|]; }
      }
    }
    if a == "" {
      assert a + b == b;
    } else {
      UnitsConcat(a[1..], b, n - 1);
      assert (a + b)[1..] == a[1..] + b;
    }
  }

  lemma {:induction false} UnitsScale(s: string, n: nat, k: nat)
    requires AllDigits(s) && |s| <= n
    ensures Units(s, n + k) == Units(s, n) * Pow10(k)
    decreases |s|
  {
    if s != "" {
      UnitsScale(s[1..], n - 1, k);
      PowAdd(n - 1, k);
      Distribute(DigitValue(s[0]), Pow10(n - 1), Units(s[1..], n - 1), Pow10(k));
    }
  }

  /** Numerals concatenate positionally. */
  lemma NumeralConcat(a: string, b: string)
    requires AllDigits(a) && AllDigits(b)
    ensures AllDigits(a + b) && Numeral(a + b) == Numeral(a) * Pow10(|b|) + Numeral(b)
  {
    hide Units;
    UnitsConcat(a, b, |a| + |b|);
    UnitsScale(a, |a|, |b|);
  }

  function Zeros(n: nat): (s: string)
    ensures |s| == n && AllDigits(s)
  {
    seq(n, _ => '0')
  }

  lemma {:induction false} ZerosUnits(k: nat, n: nat)
    requires k <= n
    ensures Units(Zeros(k), n) == 0
  {
    if k > 0 {
      assert Zeros(k)[1..] == Zeros(k - 1);
      ZerosUnits(k - 1, n - 1);
    }
  }

  // ---------------------------------------------------------------- trimming

  /** strings.TrimLeft(s, "0") */
  function TrimLeftZeros(s: string): string {
    if s != "" && s[0] == '0' then TrimLeftZeros(s[1..]) else s
  }

  /** strings.TrimRight(s, "0") */
  function TrimRightZeros(s: string): (t: string)
    ensures t <= s
    ensures t != "" ==> t[|t| - 1] != '0'
  {
    if s != "" && s[|s| - 1] == '0' then TrimRightZeros(s[..|s| - 1]) else s
  }

  lemma {:induction false} TrimRightZerosUnits(s: string, n: nat)
    requires AllDigits(s) && |s| <= n
    ensures AllDigits(TrimRightZeros(s)) && Units(TrimRightZeros(s), n) == Units(s, n)
  {
    if s != "" && s[|s| - 1] == '0' {
      var t := s[..|s| - 1];
      TrimRightZerosUnits(t, n);
      UnitsConcat(t, "0", n);
      assert s == t + "0";
    }
  }

  // ---------------------------------------------------------------- grammar

  function IntegerPart(s: string): string {
    s[..IndexOf(s, '.')]
  }

  function FractionPart(s: string): string {
    if IndexOf(s, '.') == |s| then "" else s[IndexOf(s, '.') + 1..]
  }

  predicate ValidInteger(s: string) {
    s != "" && AllDigits(s) && (s[0] == '0' ==> |s| == 1)
  }

  /** The pattern ^(0|[1-9][0-9]*)(?:\.([0-9]+))?$ */
  predicate MatchesDecimal(s: string) {
    && ValidInteger(IntegerPart(s))
    && (IndexOf(s, '.') < |s| ==> FractionPart(s) != "" && AllDigits(FractionPart(s)))
  }

  predicate Signed(s: string) {
    s != "" && (s[0] == '-' || s[0] == '+')
  }

  function Magnitude(s: string): string {
    if Signed(s) then s[1..] else s
  }

  /** The strings parseBounded reads as decimals, before its bounds. */
  predicate IsDecimal(s: string) {
    MatchesDecimal(Magnitude(s))
  }

  predicate FitsScale(s: string, k: nat) {
    IsDecimal(s) && |FractionPart(Magnitude(s))| <= k
  }

  /** The value of an unsigned decimal in units of 10^-k. */
  function MagnitudeUnits(m: string, k: nat): (u: int)
    requires MatchesDecimal(m) && |FractionPart(m)| <= k
    ensures u >= 0
  {
    MulLe(0, Numeral(IntegerPart(m)), Pow10(k));
    Numeral(IntegerPart(m)) * Pow10(k) + Units(FractionPart(m), k)
  }

  /** The value of a decimal in units of 10^-k. */
  function ValueUnits(s: string, k: nat): int
    requires FitsScale(s, k)
  {
    var u := MagnitudeUnits(Magnitude(s), k);
    if s[0] == '-' then -u else u
  }

  function Join(integer: string, fraction: string): string {
    if fraction == "" then integer else integer + "." + fraction
  }

  lemma JoinParts(integer: string, fraction: string)
    requires AllDigits(integer) && AllDigits(fraction)
    ensures IntegerPart(Join(integer, fraction)) == integer
    ensures FractionPart(Join(integer, fraction)) == fraction
    ensures ValidInteger(integer) ==> MatchesDecimal(Join(integer, fraction))
  {
    var rest := if fraction == "" then "" else "." + fraction;
    assert Join(integer, fraction) == integer + rest;
    IndexOfSplit(integer, '.', rest);
  }

  // ---------------------------------------------------------------- parseBounded

  /** The canonical spelling of an unsigned decimal. */
  function Normalize(m: string): string {
    var trimmed := TrimLeftZeros(IntegerPart(m));
    Join(if trimmed == "" then "0" else trimmed, TrimRightZeros(FractionPart(m)))
  }

  function ParseBounded(value: string, scale: nat, signed: bool, allowZero: bool): (r: Option<string>) {
    if value == "" || TrimSpace(value) != value then None
    else if Signed(value) && !signed then None
    else
      var unsigned := Magnitude(value);
      if !MatchesDecimal(unsigned) || |IntegerPart(unsigned)| > MAX_INTEGER_DIGITS || |FractionPart(unsigned)| > scale then None
      else
        var canonical := Normalize(unsigned);
        if canonical == "0" then (if allowZero then Some(canonical) else None)
        else if value[0] == '-' then Some("-" + canonical)
        else Some(canonical)
  }

  /** The canonical spelling of a magnitude: no trailing fraction zero, no bare point. */
  ghost predicate CanonicalMagnitude(m: string) {
    && MatchesDecimal(m) && m == Join(IntegerPart(m), FractionPart(m))
    && (FractionPart(m) != "" ==> FractionPart(m)[|FractionPart(m)| - 1] != '0')
  }

  /** The canonical spelling of a decimal: also no plus sign and no negative zero. */
  ghost predicate Canonical(s: string) {
    s != "" && s[0] != '+' && s != "-0" && CanonicalMagnitude(Magnitude(s))
  }

  lemma FractionDigits(m: string)
    requires MatchesDecimal(m)
    ensures AllDigits(FractionPart(m))
  {
  }

  lemma StartsWithDigit(m: string)
    requires MatchesDecimal(m)
    ensures m != "" && IsDigit(m[0]) && !Signed(m)
  {
    assert IntegerPart(m)[0] == m[0];
  }

  lemma IntegerKept(integer: string)
    requires ValidInteger(integer)
    ensures (if TrimLeftZeros(integer) == "" then "0" else TrimLeftZeros(integer)) == integer
  {
    if integer[0] == '0' {
      assert integer == "0";
      assert integer[1..] == "";
    }
  }

  /** Normalizing keeps the value and the integer part, and drops trailing fraction zeros. */
  lemma NormalizeKeepsValue(m: string, k: nat)
    requires MatchesDecimal(m) && |FractionPart(m)| <= k
    ensures var c := Normalize(m);
            && CanonicalMagnitude(c) && IntegerPart(c) == IntegerPart(m) && |FractionPart(c)| <= k
            && MagnitudeUnits(c, k) == MagnitudeUnits(m, k)
  {
    FractionDigits(m);
    IntegerKept(IntegerPart(m));
    TrimRightZerosUnits(FractionPart(m), k);
    JoinParts(IntegerPart(m), TrimRightZeros(FractionPart(m)));
  }

  lemma WithSign(m: string, k: nat)
    requires MatchesDecimal(m) && |FractionPart(m)| <= k
    ensures m != "" && Magnitude(m) == m && Magnitude("-" + m) == m && m[0] != '+' && m[0] != '-'
    ensures FitsScale(m, k) && ValueUnits(m, k) == MagnitudeUnits(m, k)
    ensures FitsScale("-" + m, k) && ValueUnits("-" + m, k) == 0 - MagnitudeUnits(m, k)
  {
    hide MagnitudeUnits;
    StartsWithDigit(m);
    assert ("-" + m)[1..] == m;
  }

  /** Accepted input keeps its value, and the result is canonical. */
  lemma ParsePreservesValue(value: string, scale: nat, signed: bool, allowZero: bool)
    requires ParseBounded(value, scale, signed, allowZero).Some?
    ensures FitsScale(value, scale)
    ensures var c := ParseBounded(value, scale, signed, allowZero).value;
            && Canonical(c) && FitsScale(c, scale) && ValueUnits(c, scale) == ValueUnits(value, scale)
            && |IntegerPart(Magnitude(c))| <= MAX_INTEGER_DIGITS
            && (!signed ==> !Signed(c))
  {
    hide MagnitudeUnits, Normalize, TrimSpace, MatchesDecimal;
    var m := Magnitude(value);
    NormalizeKeepsValue(m, scale);
    WithSign(Normalize(m), scale);
    ZeroExactly(Normalize(m), scale);
    assert ("-" + Normalize(m))[1..] == Normalize(m) && "-0"[1..] == "0" && "-0"[0] == '-';
  }

  lemma NoEdgeSpace(s: string)
    requires s != "" && !IsSpace(s[0]) && !IsSpace(s[|s| - 1])
    ensures TrimSpace(s) == s
  {
  }

  lemma DecimalHasNoEdgeSpace(s: string)
    requires IsDecimal(s)
    ensures s != "" && TrimSpace(s) == s
  {
    var m := Magnitude(s);
    FractionDigits(m);
    assert m != "" by { assert IntegerPart(m) != ""; }
    assert IsDigit(m[0]) by { assert IntegerPart(m)[0] == m[0]; }
    assert IsDigit(m[|m| - 1]) by {
      if IndexOf(m, '.') == |m| { assert IntegerPart(m) == m; }
      else { assert FractionPart(m)[|FractionPart(m)| - 1] == m[|m| - 1]; }
    }
    NoEdgeSpace(s);
  }

  /** The exact set of accepted inputs. */
  lemma ParseAcceptsExactly(value: string, scale: nat, signed: bool, allowZero: bool)
    ensures ParseBounded(value, scale, signed, allowZero).Some? <==>
            && FitsScale(value, scale)
            && |IntegerPart(Magnitude(value))| <= MAX_INTEGER_DIGITS
            && (Signed(value) ==> signed)
            && (ValueUnits(value, scale) == 0 ==> allowZero)
  {
    hide MagnitudeUnits, Normalize, TrimSpace, MatchesDecimal;
    if FitsScale(value, scale) {
      DecimalHasNoEdgeSpace(value);
      NormalizeKeepsValue(Magnitude(value), scale);
      ZeroExactly(Normalize(Magnitude(value)), scale);
    }
  }

  /** A canonical magnitude is zero only when it is spelled "0". */
  lemma ZeroExactly(c: string, k: nat)
    requires CanonicalMagnitude(c) && |FractionPart(c)| <= k
    ensures MagnitudeUnits(c, k) == 0 <==> c == "0"
  {
    var i, f := IntegerPart(c), FractionPart(c);
    FractionDigits(c);
    SumIsZero(Numeral(i), Pow10(k), Units(f, k));
    if f != "" { PositiveFraction(f, k); }
    if i[0] == '0' { assert i == "0"; } else { LeadingDigit(i); }
    JoinParts("0", "");
    assert Numeral("0") == 0;
  }

  lemma SumIsZero(a: nat, p: nat, u: nat)
    requires p > 0
    ensures a * p + u == 0 <==> a == 0 && u == 0
  {
    if a > 0 { MulLe(1, a, p); }
  }

  lemma {:induction false} PositiveFraction(f: string, n: nat)
    requires AllDigits(f) && f != "" && f[|f| - 1] != '0' && |f| <= n
    ensures Units(f, n) > 0
    decreases |f|
  {
    if |f| > 1 { PositiveFraction(f[1..], n - 1); }
    else { assert DigitValue(f[0]) * Pow10(n - 1) > 0; }
  }

  lemma LeadingDigit(i: string)
    requires AllDigits(i) && i != "" && i[0] != '0'
    ensures Numeral(i) >= Pow10(|i| - 1)
  {
    MulLe(1, DigitValue(i[0]), Pow10(|i| - 1));
  }

  // ---------------------------------------------------------------- uniqueness of canonical spellings

  lemma QuotientsUnique(a: nat, r: nat, b: nat, t: nat, p: nat)
    requires r < p && t < p && a * p + r == b * p + t
    ensures a == b && r == t
  {
    if a < b { MulLe(a + 1, b, p); }
    if b < a { MulLe(b + 1, a, p); }
  }

  lemma {:induction false} SameLengthUnique(a: string, b: string)
    requires AllDigits(a) && AllDigits(b) && |a| == |b| && Numeral(a) == Numeral(b)
    ensures a == b
  {
    if a != "" {
      var n := |a| - 1;
      UnitsBound(a[1..], n);
      UnitsBound(b[1..], n);
      QuotientsUnique(DigitValue(a[0]), Units(a[1..], n), DigitValue(b[0]), Units(b[1..], n), Pow10(n));
      SameLengthUnique(a[1..], b[1..]);
      assert a == [a[0]] + a[1..] && b == [b[0]] + b[1..];
    }
  }

  lemma IntegersUnique(a: string, b: string)
    requires ValidInteger(a) && ValidInteger(b) && Numeral(a) == Numeral(b)
    ensures a == b
  {
    if |a| < |b| { LongerIsLarger(a, b); }
    else if |b| < |a| { LongerIsLarger(b, a); }
    else { SameLengthUnique(a, b); }
  }

  lemma LongerIsLarger(a: string, b: string)
    requires ValidInteger(a) && ValidInteger(b) && |a| < |b|
    ensures Numeral(a) < Numeral(b)
  {
    UnitsBound(a, |a|);
    LeadingDigit(b);
    PowMonotone(|a|, |b| - 1);
  }

  lemma {:induction false} FractionsUnique(f: string, g: string, n: nat)
    requires AllDigits(f) && AllDigits(g) && |f| <= n && |g| <= n
    requires f == "" || f[|f| - 1] != '0'
    requires g == "" || g[|g| - 1] != '0'
    requires Units(f, n) == Units(g, n)
    ensures f == g
    decreases |f|
  {
    if f == "" {
      if g != "" { PositiveFraction(g, n); }
    } else if g == "" {
      PositiveFraction(f, n);
    } else {
      UnitsBound(f[1..], n - 1);
      UnitsBound(g[1..], n - 1);
      QuotientsUnique(DigitValue(f[0]), Units(f[1..], n - 1), DigitValue(g[0]), Units(g[1..], n - 1), Pow10(n - 1));
      FractionsUnique(f[1..], g[1..], n - 1);
      assert f == [f[0]] + f[1..] && g == [g[0]] + g[1..];
    }
  }

  lemma MagnitudesUnique(a: string, b: string, k: nat)
    requires CanonicalMagnitude(a) && CanonicalMagnitude(b) && |FractionPart(a)| <= k && |FractionPart(b)| <= k
    requires MagnitudeUnits(a, k) == MagnitudeUnits(b, k)
    ensures a == b
  {
    FractionDigits(a);
    FractionDigits(b);
    UnitsBound(FractionPart(a), k);
    UnitsBound(FractionPart(b), k);
    QuotientsUnique(Numeral(IntegerPart(a)), Units(FractionPart(a), k), Numeral(IntegerPart(b)), Units(FractionPart(b), k), Pow10(k));
    IntegersUnique(IntegerPart(a), IntegerPart(b));
    FractionsUnique(FractionPart(a), FractionPart(b), k);
  }

  /** Equal values have one canonical spelling. */
  lemma CanonicalUnique(s: string, t: string, k: nat)
    requires Canonical(s) && Canonical(t) && FitsScale(s, k) && FitsScale(t, k)
    requires ValueUnits(s, k) == ValueUnits(t, k)
    ensures s == t
  {
    hide MagnitudeUnits, MatchesDecimal;
    var a, b := Magnitude(s), Magnitude(t);
    MagnitudesUnique(a, b, k);
    ZeroExactly(a, k);
    assert s == if Signed(s) then [s[0]] + a else a;
    assert t == if Signed(t) then [t[0]] + b else b;
  }

  /** Two accepted inputs get the same spelling exactly when they have the same value. */
  lemma ParseEqualExactly(s: string, t: string, scale: nat, signed: bool, allowZero: bool)
    requires ParseBounded(s, scale, signed, allowZero).Some? && ParseBounded(t, scale, signed, allowZero).Some?
    ensures FitsScale(s, scale) && FitsScale(t, scale)
    ensures ParseBounded(s, scale, signed, allowZero) == ParseBounded(t, scale, signed, allowZero)
            <==> ValueUnits(s, scale) == ValueUnits(t, scale)
  {
    ParsePreservesValue(s, scale, signed, allowZero);
    ParsePreservesValue(t, scale, signed, allowZero);
    if ValueUnits(s, scale) == ValueUnits(t, scale) {
      CanonicalUnique(ParseBounded(s, scale, signed, allowZero).value, ParseBounded(t, scale, signed, allowZero).value, scale);
    }
  }

  /** Parsing a parsed value changes nothing. */
  lemma ParseIdempotent(value: string, scale: nat, signed: bool, allowZero: bool)
    requires ParseBounded(value, scale, signed, allowZero).Some?
    ensures var c := ParseBounded(value, scale, signed, allowZero).value;
            ParseBounded(c, scale, signed, allowZero) == Some(c)
  {
    var c := ParseBounded(value, scale, signed, allowZero).value;
    ParsePreservesValue(value, scale, signed, allowZero);
    ParseAcceptsExactly(value, scale, signed, allowZero);
    ParseAcceptsExactly(c, scale, signed, allowZero);
    ParsePreservesValue(c, scale, signed, allowZero);
    CanonicalUnique(ParseBounded(c, scale, signed, allowZero).value, c, scale);
  }
}
