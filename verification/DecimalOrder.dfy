/**
 maxDecimal of internal/config/pricing.go compares prices as padded strings. On accepted prices that
 order is the numeric order, whether the format pads the integer part with spaces or with zeros.
 */
module DecimalOrder {
  import opened Text
  import opened Decimals
  import opened Costs

  /** Go's < on strings. */
  predicate LexLess(a: string, b: string) {
    if b == "" then false
    else if a == "" then true
    else a[0] < b[0] || (a[0] == b[0] && LexLess(a[1..], b[1..]))
  }

  function Repeat(c: char, n: nat): (s: string)
    ensures |s| == n
  {
    seq(n, _ => c)
  }

  /** The verb %018s: padded on the left, with zeros or, under other readings of the flag, spaces. */
  function PadLeft(s: string, width: nat, pad: char): string {
    if |s| < width then Repeat(pad, width - |s|) + s else s
  }

  /** The verb %-012s: padded on the right with spaces. */
  function PadRight(s: string, width: nat): string {
    if |s| < width then s + Repeat(' ', width - |s|) else s
  }

  function SortKey(value: string, pad: char): string {
    PadLeft(IntegerPart(value), MAX_INTEGER_DIGITS, pad) + PadRight(FractionPart(value), AMOUNT_SCALE)
  }

  /** A parse error leaves the empty string behind, as in the source. */
  function ParsedOrEmpty(value: string): string {
    if IsPrice(value) then ParsePrice(value).value else ""
  }

  function MaxDecimal(left: string, right: string, pad: char): string {
    var l, r := ParsedOrEmpty(left), ParsedOrEmpty(right);
    if LexLess(SortKey(l, pad), SortKey(r, pad)) then r else l
  }

  predicate PadsBelowDigits(pad: char) {
    pad == ' ' || pad == '0'
  }

  // ---------------------------------------------------------------- lexicographic order

  lemma {:induction false} LexPrefix(p: string, a: string, b: string)
    ensures LexLess(p + a, p + b) <==> LexLess(a, b)
  {
    if p == "" {
      assert p + a == a && p + b == b;
    } else {
      LexPrefix(p[1..], a, b);
      assert (p + a)[1..] == p[1..] + a && (p + b)[1..] == p[1..] + b;
    }
  }

  lemma {:induction false} LexConcat(x: string, y: string, u: string, v: string)
    requires |x| == |y|
    ensures LexLess(x + u, y + v) <==> LexLess(x, y) || (x == y && LexLess(u, v))
  {
    if x == "" {
      assert x + u == u && y + v == v;
    } else {
      LexConcat(x[1..], y[1..], u, v);
      assert (x + u)[1..] == x[1..] + u && (y + v)[1..] == y[1..] + v;
      assert x == [x[0]] + x[1..] && y == [y[0]] + y[1..];
    }
  }

  lemma LeadingTerms(a: nat, b: nat, u: nat, v: nat, p: nat)
    requires u < p && v < p
    ensures a * p + u < b * p + v <==> a < b || (a == b && u < v)
  {
    if a < b { MulLe(a + 1, b, p); }
    if b < a { MulLe(b + 1, a, p); }
  }

  lemma {:induction false} SameLengthOrder(a: string, b: string)
    requires AllDigits(a) && AllDigits(b) && |a| == |b|
    ensures LexLess(a, b) <==> Numeral(a) < Numeral(b)
  {
    if a != "" {
      var n := |a| - 1;
      SameLengthOrder(a[1..], b[1..]);
      UnitsBound(a[1..], n);
      UnitsBound(b[1..], n);
      LeadingTerms(DigitValue(a[0]), DigitValue(b[0]), Units(a[1..], n), Units(b[1..], n), Pow10(n));
    }
  }

  lemma ShorterIsLess(a: string, b: string, width: nat, pad: char)
    requires ValidInteger(a) && ValidInteger(b) && |a| < |b| <= width && PadsBelowDigits(pad)
    ensures LexLess(PadLeft(a, width, pad), PadLeft(b, width, pad)) && !LexLess(PadLeft(b, width, pad), PadLeft(a, width, pad))
  {
    var p := Repeat(pad, width - |b|);
    var rest := Repeat(pad, |b| - |a|) + a;
    assert PadLeft(a, width, pad) == p + rest;
    assert PadLeft(b, width, pad) == p + b;
    LexPrefix(p, rest, b);
    LexPrefix(p, b, rest);
    assert rest[0] == pad && pad < b[0];
  }

  lemma IntegerKeyOrder(a: string, b: string, width: nat, pad: char)
    requires ValidInteger(a) && ValidInteger(b) && |a| <= width && |b| <= width && PadsBelowDigits(pad)
    ensures LexLess(PadLeft(a, width, pad), PadLeft(b, width, pad)) <==> Numeral(a) < Numeral(b)
    ensures PadLeft(a, width, pad) == PadLeft(b, width, pad) <==> a == b
  {
    if |a| < |b| {
      ShorterIsLess(a, b, width, pad);
      LongerIsLarger(a, b);
      Irreflexive(PadLeft(a, width, pad));
    } else if |b| < |a| {
      ShorterIsLess(b, a, width, pad);
      LongerIsLarger(b, a);
      Irreflexive(PadLeft(a, width, pad));
    } else {
      var p := Repeat(pad, width - |a|);
      assert PadLeft(a, width, pad) == p + a && PadLeft(b, width, pad) == p + b;
      LexPrefix(p, a, b);
      SameLengthOrder(a, b);
      assert (p + a)[|p|..] == a && (p + b)[|p|..] == b;
    }
  }

  lemma {:induction false} Irreflexive(s: string)
    ensures !LexLess(s, s)
  {
    if s != "" { Irreflexive(s[1..]); }
  }

  lemma {:induction false} FractionKeyOrder(f: string, g: string, n: nat)
    requires AllDigits(f) && AllDigits(g) && |f| <= n && |g| <= n
    requires f == "" || f[|f| - 1] != '0'
    requires g == "" || g[|g| - 1] != '0'
    ensures LexLess(PadRight(f, n), PadRight(g, n)) <==> Units(f, n) < Units(g, n)
    decreases |f| + |g|
  {
    var x, y := PadRight(f, n), PadRight(g, n);
    if f == "" && g == "" {
      Irreflexive(x);
    } else if f == "" {
      PositiveFraction(g, n);
      assert x[0] == ' ' && y[0] == g[0];
    } else if g == "" {
      assert y[0] == ' ' && x[0] == f[0];
    } else {
      PadRightStep(f, n);
      PadRightStep(g, n);
      hide PadRight, Units;
      FractionKeyOrder(f[1..], g[1..], n - 1);
      HeadOrder(f, g, n);
    }
  }

  lemma PadRightStep(f: string, n: nat)
    requires 0 < |f| <= n
    ensures PadRight(f, n) != "" && PadRight(f, n)[0] == f[0] && PadRight(f, n)[1..] == PadRight(f[1..], n - 1)
  {
  }

  lemma HeadOrder(f: string, g: string, n: nat)
    requires AllDigits(f) && AllDigits(g) && 0 < |f| <= n && 0 < |g| <= n
    ensures Units(f, n) < Units(g, n) <==> f[0] < g[0] || (f[0] == g[0] && Units(f[1..], n - 1) < Units(g[1..], n - 1))
  {
    UnitsBound(f[1..], n - 1);
    UnitsBound(g[1..], n - 1);
    LeadingTerms(DigitValue(f[0]), DigitValue(g[0]), Units(f[1..], n - 1), Units(g[1..], n - 1), Pow10(n - 1));
  }

  /** On canonical magnitudes the padded strings are ordered as the values are. */
  lemma SortKeyOrder(l: string, r: string, pad: char)
    requires CanonicalMagnitude(l) && CanonicalMagnitude(r) && PadsBelowDigits(pad)
    requires |IntegerPart(l)| <= MAX_INTEGER_DIGITS && |IntegerPart(r)| <= MAX_INTEGER_DIGITS
    requires |FractionPart(l)| <= AMOUNT_SCALE && |FractionPart(r)| <= AMOUNT_SCALE
    ensures LexLess(SortKey(l, pad), SortKey(r, pad)) <==> MagnitudeUnits(l, AMOUNT_SCALE) < MagnitudeUnits(r, AMOUNT_SCALE)
  {
    hide LexLess, PadLeft, PadRight, Units, Pow10;
    var i, j, f, g := IntegerPart(l), IntegerPart(r), FractionPart(l), FractionPart(r);
    FractionDigits(l);
    FractionDigits(r);
    IntegerKeyOrder(i, j, MAX_INTEGER_DIGITS, pad);
    FractionKeyOrder(f, g, AMOUNT_SCALE);
    PaddedLengths(i, j, pad);
    LexConcat(PadLeft(i, MAX_INTEGER_DIGITS, pad), PadLeft(j, MAX_INTEGER_DIGITS, pad), PadRight(f, AMOUNT_SCALE), PadRight(g, AMOUNT_SCALE));
    UnitsBound(f, AMOUNT_SCALE);
    UnitsBound(g, AMOUNT_SCALE);
    LeadingTerms(Numeral(i), Numeral(j), Units(f, AMOUNT_SCALE), Units(g, AMOUNT_SCALE), Pow10(AMOUNT_SCALE));
    if Numeral(i) == Numeral(j) { IntegersUnique(i, j); }
  }

  lemma PaddedLengths(i: string, j: string, pad: char)
    requires |i| <= MAX_INTEGER_DIGITS && |j| <= MAX_INTEGER_DIGITS
    ensures |PadLeft(i, MAX_INTEGER_DIGITS, pad)| == |PadLeft(j, MAX_INTEGER_DIGITS, pad)|
  {
  }

  /** A canonical accepted price: its own parse. */
  ghost predicate CanonicalPrice(value: string) {
    ParsePrice(value) == Some(value)
  }

  lemma ParsedIsCanonical(value: string)
    requires IsPrice(value)
    ensures var c := ParsePrice(value).value;
            && CanonicalPrice(c) && PriceUnits(c) == PriceUnits(value) && CanonicalMagnitude(c)
            && |IntegerPart(c)| <= MAX_INTEGER_DIGITS && |FractionPart(c)| <= AMOUNT_SCALE
            && MagnitudeUnits(c, AMOUNT_SCALE) == PriceUnits(c)
  {
    hide ParseBounded, MagnitudeUnits;
    ParsePreservesValue(value, AMOUNT_SCALE, false, true);
    ParseIdempotent(value, AMOUNT_SCALE, false, true);
    WithSign(ParsePrice(value).value, AMOUNT_SCALE);
  }

  /** maxDecimal is the numeric maximum, spelled canonically, and the choice of padding is immaterial. */
  lemma MaxDecimalIsMaximum(left: string, right: string, pad: char)
    requires IsPrice(left) && IsPrice(right) && PadsBelowDigits(pad)
    ensures var m := MaxDecimal(left, right, pad);
            && CanonicalPrice(m) && PriceUnits(m) == Max(PriceUnits(left), PriceUnits(right))
            && m == MaxDecimal(left, right, '0')
  {
    hide ParseBounded, MagnitudeUnits, PriceUnits, SortKey, LexLess, CanonicalMagnitude;
    ParsedIsCanonical(left);
    ParsedIsCanonical(right);
    SortKeyOrder(ParsePrice(left).value, ParsePrice(right).value, pad);
    SortKeyOrder(ParsePrice(left).value, ParsePrice(right).value, '0');
  }

  /** Equal amounts have one canonical spelling. */
  lemma CanonicalPriceUnique(a: string, b: string)
    requires CanonicalPrice(a) && CanonicalPrice(b) && PriceUnits(a) == PriceUnits(b)
    ensures a == b
  {
    hide ParseBounded, ValueUnits;
    ParseEqualExactly(a, b, AMOUNT_SCALE, false, true);
  }
}
