/**
 The charge of one request, internal/billing/amount.go: exact accumulation over big.Rat, one
 multiplication, one rounding. Each method is proved equal to a closed form over integer units.
 */
module Costs {
  import opened Text
  import opened Decimals
  import opened Rounding

  /** Token counts of one request. write5m and write1h are the observed TTL split, if ttlPresent. */
  datatype TokenCounts = TokenCounts(
    input: int, cached: int, cacheWrite: int, write5m: int, write1h: int, output: int, ttlPresent: bool)

  /** Prices per million tokens, as written in a pricing decision. */
  datatype PriceCard = PriceCard(
    input: string, cached: string, cacheWrite: string, write5m: string, write1h: string, output: string)

  datatype CostError = InvalidTokenCounts | InvalidMode | InvalidPrice | InvalidMultiplier | OutOfRange

  datatype Outcome = Charged(amount: string) | Refused(error: CostError)

  const SEPARATE := "separate"
  const INCLUDED_IN_INPUT := "included_in_input"

  function ParsePrice(value: string): Option<string> {
    ParseBounded(value, AMOUNT_SCALE, false, true)
  }

  function ParseMultiplier(value: string): Option<string> {
    ParseBounded(value, AMOUNT_SCALE, false, false)
  }

  predicate IsPrice(value: string) {
    ParsePrice(value).Some?
  }

  /** The value of an accepted price or multiplier in units of 10^-12. */
  function PriceUnits(value: string): (u: nat)
    requires IsPrice(value)
  {
    ParseAcceptsExactly(value, AMOUNT_SCALE, false, true);
    ValueUnits(value, AMOUNT_SCALE)
  }

  function MultiplierUnits(value: string): (u: nat)
    requires ParseMultiplier(value).Some?
    ensures u > 0
  {
    ParseAcceptsExactly(value, AMOUNT_SCALE, false, false);
    ValueUnits(value, AMOUNT_SCALE)
  }

  // ---------------------------------------------------------------- big.Rat

  function PositiveProduct(a: int, b: int): (p: int)
    requires a > 0 && b > 0
    ensures p == a * b && p > 0
  {
    SignOfProduct(a, b);
    a * b
  }

  function FromInt(n: int): Ratio {
    Fraction(n, 1)
  }

  function Mul(a: Ratio, b: Ratio): Ratio {
    Fraction(a.num * b.num, PositiveProduct(a.den, b.den))
  }

  function Add(a: Ratio, b: Ratio): Ratio {
    Fraction(a.num * b.den + b.num * a.den, PositiveProduct(a.den, b.den))
  }

  function QuoInt(a: Ratio, n: int): Ratio
    requires n > 0
  {
    Fraction(a.num, PositiveProduct(a.den, n))
  }

  /** big.Rat.SetString of a canonical non-negative decimal. */
  function FromDecimal(c: string): Ratio
    requires FitsScale(c, AMOUNT_SCALE)
  {
    Fraction(ValueUnits(c, AMOUNT_SCALE), Pow10(AMOUNT_SCALE))
  }

  /** r is n/d as an exact fraction. */
  ghost predicate Denotes(r: Ratio, n: int, d: int) {
    r.num * d == n * r.den
  }

  lemma AddDenotes(a: Ratio, b: Ratio, n: int, m: int, d: int)
    requires Denotes(a, n, d) && Denotes(b, m, d)
    ensures Denotes(Add(a, b), n + m, d)
  {
    calc {
      (a.num * b.den + b.num * a.den) * d;
      (a.num * d) * b.den + (b.num * d) * a.den;
      (n * a.den) * b.den + (m * b.den) * a.den;
      (n + m) * (a.den * b.den);
    }
  }

  lemma ScaledDenotes(a: Ratio, b: Ratio, n: int, m: int, d: int, e: int)
    requires Denotes(a, n, d) && Denotes(b, m, e)
    ensures Denotes(Mul(a, b), n * m, d * e)
  {
    calc {
      (a.num * b.num) * (d * e);
      (a.num * d) * (b.num * e);
      (n * a.den) * (m * b.den);
      (n * m) * (a.den * b.den);
    }
  }

  lemma QuotientDenotes(a: Ratio, n: int, d: int, k: int)
    requires Denotes(a, n, d) && k > 0
    ensures Denotes(QuoInt(a, k), n, d * k)
  {
    calc {
      a.num * (d * k);
      (a.num * d) * k;
      (n * a.den) * k;
      n * (a.den * k);
    }
  }

  lemma TokensDenote(tokens: int, price: Ratio, units: int)
    requires Denotes(price, units, Pow10(AMOUNT_SCALE))
    ensures Denotes(Mul(FromInt(tokens), price), tokens * units, Pow10(AMOUNT_SCALE))
  {
    ScaledDenotes(FromInt(tokens), price, tokens, units, 1, Pow10(AMOUNT_SCALE));
  }

  // ---------------------------------------------------------------- settling

  /** The charge for n units of 10^-12 per million tokens, times the multiplier, rounded once. */
  function Settle(n: int, multiplier: string): Outcome {
    if ParseMultiplier(multiplier).None? then Refused(InvalidMultiplier)
    else
      match RoundAmount(Fraction(n * MultiplierUnits(multiplier), Pow10(30)))
      case Some(amount) => Charged(amount)
      case None => Refused(OutOfRange)
  }

  lemma SettleDenotes(total: Ratio, n: int, factor: Ratio, m: int)
    requires Denotes(total, n, Pow10(AMOUNT_SCALE)) && Denotes(factor, m, Pow10(AMOUNT_SCALE))
    ensures RoundAmount(Mul(QuoInt(total, 1_000_000), factor)) == RoundAmount(Fraction(n * m, Pow10(30)))
  {
    var value := Mul(QuoInt(total, 1_000_000), factor);
    QuotientDenotes(total, n, Pow10(12), 1_000_000);
    ScaledDenotes(QuoInt(total, 1_000_000), factor, n, m, Pow10(12) * 1_000_000, Pow10(12));
    assert Pow10(6) == 1_000_000;
    PowAdd(12, 6);
    PowAdd(18, 12);
    RoundReducesFreely(value, Fraction(n * m, Pow10(30)), AMOUNT_SCALE);
  }

  /** Settling is monotone, and whatever is below an in-range charge is in range. */
  lemma SettleMonotone(n: nat, m: nat, multiplier: string)
    requires n <= m && Settle(m, multiplier).Charged?
    ensures Settle(n, multiplier).Charged?
    ensures FitsScale(Settle(n, multiplier).amount, AMOUNT_SCALE) && FitsScale(Settle(m, multiplier).amount, AMOUNT_SCALE)
    ensures ValueUnits(Settle(n, multiplier).amount, AMOUNT_SCALE) <= ValueUnits(Settle(m, multiplier).amount, AMOUNT_SCALE)
  {
    hide ParseBounded, MultiplierUnits, RoundAmount, ValueUnits, FitsScale, Pow10;
    var u := MultiplierUnits(multiplier);
    MulLe(n, m, u);
    MulLe(0, n, u);
    MulLe(n * u, m * u, Pow10(30));
    RoundAmountMonotone(Fraction(n * u, Pow10(30)), Fraction(m * u, Pow10(30)));
  }

  /**
   A charge is the multiple of 10^-12 nearest to n * 10^-12 per million tokens times the multiplier,
   ties away from zero; only a charge of 10^18 or more is refused.
   */
  lemma SettleIsNearest(n: int, multiplier: string)
    requires ParseMultiplier(multiplier).Some?
    ensures match Settle(n, multiplier)
            case Charged(amount) =>
              FitsScale(amount, AMOUNT_SCALE) && Abs(ValueUnits(amount, AMOUNT_SCALE)) < Pow10(30)
              && NearestHalfAway(n * MultiplierUnits(multiplier), Pow10(18), ValueUnits(amount, AMOUNT_SCALE))
            case Refused(error) =>
              error == OutOfRange && exists r :: NearestHalfAway(n * MultiplierUnits(multiplier), Pow10(18), r) && Abs(r) >= Pow10(30)
  {
    hide ParseBounded, MultiplierUnits, RoundAmount, ValueUnits, FitsScale, RoundUnits, NearestHalfAway, Pow10;
    var x := n * MultiplierUnits(multiplier);
    var v: Ratio := Fraction(x, Pow10(30));
    RoundAmountExactly(v);
    RoundNearest(v, AMOUNT_SCALE);
    var r := RoundUnits(v, AMOUNT_SCALE);
    CancelScale(x, r);
  }

  lemma CancelScale(x: int, r: int)
    requires NearestHalfAway(x * Pow10(12), Pow10(30), r)
    ensures NearestHalfAway(x, Pow10(18), r)
  {
    assert Pow10(12) == 1_000_000_000_000 && Pow10(18) == 1_000_000_000_000_000_000;
    assert Pow10(30) == 1_000_000_000_000_000_000_000_000_000_000;
  }

  method MultiplyCostAndRound(total: Ratio, multiplier: string, ghost n: int) returns (r: Outcome)
    requires Denotes(total, n, Pow10(AMOUNT_SCALE))
    ensures r == Settle(n, multiplier)
  {
    var canonical := ParseMultiplier(multiplier);
    if canonical.None? {
      return Refused(InvalidMultiplier);
    }
    ParsePreservesValue(multiplier, AMOUNT_SCALE, false, false);
    var factor := FromDecimal(canonical.value);
    SettleDenotes(total, n, factor, MultiplierUnits(multiplier));
    var rounded := RoundAmount(Mul(QuoInt(total, 1_000_000), factor));
    r := if rounded.Some? then Charged(rounded.value) else Refused(OutOfRange);
  }

  lemma PriceDenotes(value: string)
    requires IsPrice(value)
    ensures FitsScale(ParsePrice(value).value, AMOUNT_SCALE)
    ensures Denotes(FromDecimal(ParsePrice(value).value), PriceUnits(value), Pow10(AMOUNT_SCALE))
  {
    hide ParseBounded, ValueUnits;
    ParsePreservesValue(value, AMOUNT_SCALE, false, true);
  }

  /** Every accepted price becomes its exact fraction; one bad price refuses them all. */
  method ParsePrices(values: seq<string>) returns (r: Option<seq<Ratio>>)
    ensures r.Some? <==> forall i :: 0 <= i < |values| ==> IsPrice(values[i])
    ensures r.Some? ==> |r.value| == |values|
    ensures r.Some? ==> forall i :: 0 <= i < |values| ==> Denotes(r.value[i], PriceUnits(values[i]), Pow10(AMOUNT_SCALE))
  {
    hide ParseBounded, PriceUnits, FromDecimal, Denotes, FitsScale;
    var prices: seq<Ratio> := [];
    for index := 0 to |values|
      invariant |prices| == index
      invariant forall i :: 0 <= i < index ==> IsPrice(values[i]) && Denotes(prices[i], PriceUnits(values[i]), Pow10(AMOUNT_SCALE))
    {
      var canonical := ParsePrice(values[index]);
      if canonical.None? {
        return None;
      }
      PriceDenotes(values[index]);
      prices := prices + [FromDecimal(canonical.value)];
    }
    return Some(prices);
  }

  method Accumulate(total: Ratio, tokens: int, price: Ratio, ghost n: int, ghost units: int) returns (r: Ratio)
    requires Denotes(total, n, Pow10(AMOUNT_SCALE)) && Denotes(price, units, Pow10(AMOUNT_SCALE))
    ensures Denotes(r, n + tokens * units, Pow10(AMOUNT_SCALE))
  {
    var line := Mul(FromInt(tokens), price);
    TokensDenote(tokens, price, units);
    AddDenotes(total, line, n, tokens * units, Pow10(AMOUNT_SCALE));
    r := Add(total, line);
  }

  // ---------------------------------------------------------------- the three formulas

  predicate ValidBasicCounts(t: TokenCounts) {
    t.input >= 0 && t.cached >= 0 && t.output >= 0 && t.cached <= t.input
  }

  predicate ValidBasicPrices(p: PriceCard) {
    IsPrice(p.input) && IsPrice(p.cached) && IsPrice(p.output)
  }

  /** Tokens times prices of the three-price formula. */
  function BasicUnits(t: TokenCounts, p: PriceCard): int
    requires ValidBasicPrices(p)
  {
    (t.input - t.cached) * PriceUnits(p.input) + t.cached * PriceUnits(p.cached) + t.output * PriceUnits(p.output)
  }

  function BasicCharge(t: TokenCounts, p: PriceCard, multiplier: string): Outcome {
    if !ValidBasicCounts(t) then Refused(InvalidTokenCounts)
    else if !ValidBasicPrices(p) then Refused(InvalidPrice)
    else Settle(BasicUnits(t, p), multiplier)
  }

  method CalculateCostWithMultiplier(t: TokenCounts, p: PriceCard, multiplier: string) returns (r: Outcome)
    ensures r == BasicCharge(t, p, multiplier)
  {
    hide ParseBounded, PriceUnits, Denotes, Settle;
    if t.input < 0 || t.cached < 0 || t.output < 0 || t.cached > t.input {
      return Refused(InvalidTokenCounts);
    }
    var values := [p.input, p.cached, p.output];
    var prices := ParsePrices(values);
    if prices.None? {
      assert !(IsPrice(values[0]) && IsPrice(values[1]) && IsPrice(values[2]));
      return Refused(InvalidPrice);
    }
    assert IsPrice(values[0]) && IsPrice(values[1]) && IsPrice(values[2]);
    var uncached := t.input - t.cached;
    var total := Mul(FromInt(uncached), prices.value[0]);
    TokensDenote(uncached, prices.value[0], PriceUnits(p.input));
    ghost var n := uncached * PriceUnits(p.input);
    total := Accumulate(total, t.cached, prices.value[1], n, PriceUnits(p.cached));
    n := n + t.cached * PriceUnits(p.cached);
    total := Accumulate(total, t.output, prices.value[2], n, PriceUnits(p.output));
    r := MultiplyCostAndRound(total, multiplier, BasicUnits(t, p));
  }

  predicate ValidCounts(t: TokenCounts, mode: string) {
    ValidBasicCounts(t) && t.cacheWrite >= 0 && (mode == SEPARATE ==> t.cacheWrite <= t.input - t.cached)
  }

  predicate ValidPrices(p: PriceCard) {
    ValidBasicPrices(p) && IsPrice(p.cacheWrite)
  }

  /** Tokens times prices of the four-price formula. */
  function CategoryUnits(t: TokenCounts, mode: string, p: PriceCard): int
    requires ValidPrices(p)
  {
    if mode == SEPARATE then
      (t.input - t.cached - t.cacheWrite) * PriceUnits(p.input) + t.cached * PriceUnits(p.cached)
      + t.cacheWrite * PriceUnits(p.cacheWrite) + t.output * PriceUnits(p.output)
    else
      BasicUnits(t, p)
  }

  function CategoryCharge(t: TokenCounts, mode: string, p: PriceCard, multiplier: string): Outcome {
    if !ValidCounts(t, "") then Refused(InvalidTokenCounts)
    else if mode != SEPARATE && mode != INCLUDED_IN_INPUT then Refused(InvalidMode)
    else if !ValidCounts(t, mode) then Refused(InvalidTokenCounts)
    else if !ValidPrices(p) then Refused(InvalidPrice)
    else Settle(CategoryUnits(t, mode, p), multiplier)
  }

  method CalculateCostV2WithMultiplier(t: TokenCounts, mode: string, p: PriceCard, multiplier: string) returns (r: Outcome)
    ensures r == CategoryCharge(t, mode, p, multiplier)
  {
    hide ParseBounded, PriceUnits, Denotes, Settle;
    if t.input < 0 || t.cached < 0 || t.cacheWrite < 0 || t.output < 0 || t.cached > t.input {
      return Refused(InvalidTokenCounts);
    }
    if mode != SEPARATE && mode != INCLUDED_IN_INPUT {
      return Refused(InvalidMode);
    }
    if mode == SEPARATE && t.cacheWrite > t.input - t.cached {
      return Refused(InvalidTokenCounts);
    }
    var values := [p.input, p.cached, p.cacheWrite, p.output];
    var prices := ParsePrices(values);
    if prices.None? {
      assert !(IsPrice(values[0]) && IsPrice(values[1]) && IsPrice(values[2]) && IsPrice(values[3]));
      return Refused(InvalidPrice);
    }
    assert IsPrice(values[0]) && IsPrice(values[1]) && IsPrice(values[2]) && IsPrice(values[3]);
    var ordinary := t.input - t.cached;
    if mode == SEPARATE {
      ordinary := ordinary - t.cacheWrite;
    }
    var total := Mul(FromInt(ordinary), prices.value[0]);
    TokensDenote(ordinary, prices.value[0], PriceUnits(p.input));
    ghost var n := ordinary * PriceUnits(p.input);
    total := Accumulate(total, t.cached, prices.value[1], n, PriceUnits(p.cached));
    n := n + t.cached * PriceUnits(p.cached);
    if mode == SEPARATE {
      total := Accumulate(total, t.cacheWrite, prices.value[2], n, PriceUnits(p.cacheWrite));
      n := n + t.cacheWrite * PriceUnits(p.cacheWrite);
    }
    total := Accumulate(total, t.output, prices.value[3], n, PriceUnits(p.output));
    r := MultiplyCostAndRound(total, multiplier, CategoryUnits(t, mode, p));
  }

  predicate ValidTtlCounts(t: TokenCounts) {
    && ValidCounts(t, SEPARATE) && t.write5m >= 0 && t.write1h >= 0
    && (if t.ttlPresent then t.write5m + t.write1h == t.cacheWrite else t.write5m == 0 && t.write1h == 0)
  }

  predicate ValidTtlPrices(p: PriceCard) {
    ValidBasicPrices(p) && IsPrice(p.write5m) && IsPrice(p.write1h)
  }

  function Max(a: int, b: int): int {
    if b > a then b else a
  }

  /** The write part: by observed TTL, or the whole aggregate at the dearer price. */
  function WriteUnits(t: TokenCounts, p: PriceCard): int
    requires ValidTtlPrices(p)
  {
    if t.ttlPresent then t.write5m * PriceUnits(p.write5m) + t.write1h * PriceUnits(p.write1h)
    else t.cacheWrite * Max(PriceUnits(p.write5m), PriceUnits(p.write1h))
  }

  function TtlUnits(t: TokenCounts, p: PriceCard): int
    requires ValidTtlPrices(p)
  {
    (t.input - t.cached - t.cacheWrite) * PriceUnits(p.input) + t.cached * PriceUnits(p.cached)
    + WriteUnits(t, p) + t.output * PriceUnits(p.output)
  }

  function TtlCharge(t: TokenCounts, p: PriceCard, multiplier: string): Outcome {
    if !ValidTtlCounts(t) then Refused(InvalidTokenCounts)
    else if !ValidTtlPrices(p) then Refused(InvalidPrice)
    else Settle(TtlUnits(t, p), multiplier)
  }

  method CalculateCostV2TTLWithMultiplier(t: TokenCounts, p: PriceCard, multiplier: string) returns (r: Outcome)
    ensures r == TtlCharge(t, p, multiplier)
  {
    hide ParseBounded, PriceUnits, Denotes, Settle, AtMost;
    if t.input < 0 || t.cached < 0 || t.cacheWrite < 0 || t.write5m < 0 || t.write1h < 0 || t.output < 0
       || t.cached > t.input || t.cacheWrite > t.input - t.cached {
      return Refused(InvalidTokenCounts);
    }
    if t.ttlPresent {
      if t.write5m > t.cacheWrite || t.write1h != t.cacheWrite - t.write5m {
        return Refused(InvalidTokenCounts);
      }
    } else if t.write5m != 0 || t.write1h != 0 {
      return Refused(InvalidTokenCounts);
    }
    var values := [p.input, p.cached, p.write5m, p.write1h, p.output];
    var prices := ParsePrices(values);
    if prices.None? {
      assert !(IsPrice(values[0]) && IsPrice(values[1]) && IsPrice(values[2]) && IsPrice(values[3]) && IsPrice(values[4]));
      return Refused(InvalidPrice);
    }
    assert IsPrice(values[0]) && IsPrice(values[1]) && IsPrice(values[2]) && IsPrice(values[3]) && IsPrice(values[4]);
    var ordinary := t.input - t.cached - t.cacheWrite;
    var total := Mul(FromInt(ordinary), prices.value[0]);
    TokensDenote(ordinary, prices.value[0], PriceUnits(p.input));
    ghost var n := ordinary * PriceUnits(p.input);
    total := Accumulate(total, t.cached, prices.value[1], n, PriceUnits(p.cached));
    n := n + t.cached * PriceUnits(p.cached);
    if t.ttlPresent {
      total := Accumulate(total, t.write5m, prices.value[2], n, PriceUnits(p.write5m));
      n := n + t.write5m * PriceUnits(p.write5m);
      total := Accumulate(total, t.write1h, prices.value[3], n, PriceUnits(p.write1h));
      n := n + t.write1h * PriceUnits(p.write1h);
    } else {
      var maximum := prices.value[2];
      ghost var units := PriceUnits(p.write5m);
      SameDenominator(prices.value[3], PriceUnits(p.write1h), maximum, units);
      if !AtMost(prices.value[3], maximum) {
        maximum := prices.value[3];
        units := PriceUnits(p.write1h);
      }
      total := Accumulate(total, t.cacheWrite, maximum, n, units);
      n := n + t.cacheWrite * units;
    }
    total := Accumulate(total, t.output, prices.value[4], n, PriceUnits(p.output));
    r := MultiplyCostAndRound(total, multiplier, TtlUnits(t, p));
  }

  lemma SameDenominator(a: Ratio, m: int, b: Ratio, n: int)
    requires Denotes(a, m, Pow10(AMOUNT_SCALE)) && Denotes(b, n, Pow10(AMOUNT_SCALE))
    ensures AtMost(a, b) <==> m <= n
  {
    var d := Pow10(AMOUNT_SCALE);
    var x, y, g := a.num * b.den, b.num * a.den, PositiveProduct(a.den, b.den);
    calc { x * d; (a.num * d) * b.den; (m * a.den) * b.den; m * g; }
    calc { y * d; (b.num * d) * a.den; (n * b.den) * a.den; n * g; }
    if x <= y { MulLe(x, y, d); } else { MulLess(y, x, d); }
    if m <= n { MulLe(m, n, g); } else { MulLess(n, m, g); }
  }

  // ---------------------------------------------------------------- theorems about charges

  lemma OneMore(tokens: int, price: int)
    ensures (tokens + 1) * price == tokens * price + price && 0 * price == 0
  {
  }

  /** Nothing costs nothing, and each further token costs the price of its own category. */
  lemma BasicPerToken(t: TokenCounts, p: PriceCard)
    requires ValidBasicPrices(p)
    ensures BasicUnits(TokenCounts(0, 0, 0, 0, 0, 0, false), p) == 0
    ensures BasicUnits(t.(input := t.input + 1), p) == BasicUnits(t, p) + PriceUnits(p.input)
    ensures BasicUnits(t.(input := t.input + 1, cached := t.cached + 1), p) == BasicUnits(t, p) + PriceUnits(p.cached)
    ensures BasicUnits(t.(output := t.output + 1), p) == BasicUnits(t, p) + PriceUnits(p.output)
  {
    hide PriceUnits, ParseBounded;
    OneMore(t.input - t.cached, PriceUnits(p.input));
    OneMore(t.cached, PriceUnits(p.cached));
    OneMore(t.output, PriceUnits(p.output));
  }

  /** The same with cache writes: priced of their own when separate, as ordinary input when included. */
  lemma CategoryPerToken(t: TokenCounts, mode: string, p: PriceCard)
    requires ValidPrices(p)
    ensures CategoryUnits(TokenCounts(0, 0, 0, 0, 0, 0, false), mode, p) == 0
    ensures CategoryUnits(t.(input := t.input + 1), mode, p) == CategoryUnits(t, mode, p) + PriceUnits(p.input)
    ensures CategoryUnits(t.(input := t.input + 1, cached := t.cached + 1), mode, p) == CategoryUnits(t, mode, p) + PriceUnits(p.cached)
    ensures CategoryUnits(t.(input := t.input + 1, cacheWrite := t.cacheWrite + 1), mode, p)
            == CategoryUnits(t, mode, p) + PriceUnits(if mode == SEPARATE then p.cacheWrite else p.input)
    ensures CategoryUnits(t.(output := t.output + 1), mode, p) == CategoryUnits(t, mode, p) + PriceUnits(p.output)
  {
    hide PriceUnits, ParseBounded;
    OneMore(t.input - t.cached, PriceUnits(p.input));
    OneMore(t.input - t.cached - t.cacheWrite, PriceUnits(p.input));
    OneMore(t.cached, PriceUnits(p.cached));
    OneMore(t.cacheWrite, PriceUnits(p.cacheWrite));
    OneMore(t.output, PriceUnits(p.output));
  }

  /** The same with the TTL split: each write at the price of its lifetime, or at the dearer one where the split is unknown. */
  lemma TtlPerToken(t: TokenCounts, p: PriceCard)
    requires ValidTtlPrices(p)
    ensures TtlUnits(TokenCounts(0, 0, 0, 0, 0, 0, t.ttlPresent), p) == 0
    ensures TtlUnits(t.(input := t.input + 1), p) == TtlUnits(t, p) + PriceUnits(p.input)
    ensures TtlUnits(t.(input := t.input + 1, cached := t.cached + 1), p) == TtlUnits(t, p) + PriceUnits(p.cached)
    ensures t.ttlPresent ==>
              && TtlUnits(t.(input := t.input + 1, cacheWrite := t.cacheWrite + 1, write5m := t.write5m + 1), p) == TtlUnits(t, p) + PriceUnits(p.write5m)
              && TtlUnits(t.(input := t.input + 1, cacheWrite := t.cacheWrite + 1, write1h := t.write1h + 1), p) == TtlUnits(t, p) + PriceUnits(p.write1h)
    ensures !t.ttlPresent ==>
              var more := TtlUnits(t.(input := t.input + 1, cacheWrite := t.cacheWrite + 1), p) - TtlUnits(t, p);
              more >= PriceUnits(p.write5m) && more >= PriceUnits(p.write1h) && (more == PriceUnits(p.write5m) || more == PriceUnits(p.write1h))
    ensures TtlUnits(t.(output := t.output + 1), p) == TtlUnits(t, p) + PriceUnits(p.output)
  {
    hide PriceUnits, ParseBounded;
    OneMore(t.input - t.cached - t.cacheWrite, PriceUnits(p.input));
    OneMore(t.cached, PriceUnits(p.cached));
    OneMore(t.write5m, PriceUnits(p.write5m));
    OneMore(t.write1h, PriceUnits(p.write1h));
    OneMore(t.cacheWrite, Max(PriceUnits(p.write5m), PriceUnits(p.write1h)));
    OneMore(t.output, PriceUnits(p.output));
  }

  /** Every component of q costs at least the same component of p. */
  ghost predicate Dominates(q: PriceCard, p: PriceCard)
    requires ValidBasicPrices(p) && ValidBasicPrices(q)
  {
    && PriceUnits(p.input) <= PriceUnits(q.input)
    && PriceUnits(p.cached) <= PriceUnits(q.cached)
    && PriceUnits(p.output) <= PriceUnits(q.output)
    && (IsPrice(p.cacheWrite) ==> IsPrice(q.cacheWrite) && PriceUnits(p.cacheWrite) <= PriceUnits(q.cacheWrite))
    && (IsPrice(p.write5m) ==> IsPrice(q.write5m) && PriceUnits(p.write5m) <= PriceUnits(q.write5m))
    && (IsPrice(p.write1h) ==> IsPrice(q.write1h) && PriceUnits(p.write1h) <= PriceUnits(q.write1h))
  }

  /** b charges at least what a charges, and is refused whenever a is out of range. */
  ghost predicate ChargesAtLeast(b: Outcome, a: Outcome) {
    b.Charged? ==>
      && a.Charged? && FitsScale(a.amount, AMOUNT_SCALE) && FitsScale(b.amount, AMOUNT_SCALE)
      && ValueUnits(a.amount, AMOUNT_SCALE) <= ValueUnits(b.amount, AMOUNT_SCALE)
  }

  lemma Line(tokens: int, p: nat, q: nat)
    requires tokens >= 0 && p <= q
    ensures 0 <= tokens * p <= tokens * q
  {
    MulLe(p, q, tokens);
    MulLe(0, tokens, p);
  }

  lemma BasicUnitsMonotone(t: TokenCounts, p: PriceCard, q: PriceCard)
    requires ValidBasicCounts(t) && ValidBasicPrices(p) && ValidBasicPrices(q) && Dominates(q, p)
    ensures 0 <= BasicUnits(t, p) <= BasicUnits(t, q)
  {
    hide ParseBounded, PriceUnits, Settle;
    Line(t.input - t.cached, PriceUnits(p.input), PriceUnits(q.input));
    Line(t.cached, PriceUnits(p.cached), PriceUnits(q.cached));
    Line(t.output, PriceUnits(p.output), PriceUnits(q.output));
  }

  /** Dearer prices never make the rounded four-price charge smaller. */
  lemma CategoryChargeMonotone(t: TokenCounts, mode: string, p: PriceCard, q: PriceCard, multiplier: string)
    requires ValidPrices(p) && ValidPrices(q) && Dominates(q, p)
    ensures ChargesAtLeast(CategoryCharge(t, mode, q, multiplier), CategoryCharge(t, mode, p, multiplier))
  {
    hide ParseBounded, PriceUnits, Settle;
    if CategoryCharge(t, mode, q, multiplier).Charged? {
      BasicUnitsMonotone(t, p, q);
      if mode == SEPARATE {
        Line(t.input - t.cached - t.cacheWrite, PriceUnits(p.input), PriceUnits(q.input));
        Line(t.cached, PriceUnits(p.cached), PriceUnits(q.cached));
        Line(t.cacheWrite, PriceUnits(p.cacheWrite), PriceUnits(q.cacheWrite));
        Line(t.output, PriceUnits(p.output), PriceUnits(q.output));
      }
      SettleMonotone(CategoryUnits(t, mode, p), CategoryUnits(t, mode, q), multiplier);
    }
  }

  lemma WriteUnitsMonotone(t: TokenCounts, p: PriceCard, q: PriceCard)
    requires ValidTtlCounts(t) && ValidTtlPrices(p) && ValidTtlPrices(q) && Dominates(q, p)
    ensures 0 <= WriteUnits(t, p) <= WriteUnits(t, q)
  {
    hide ParseBounded, PriceUnits, Settle;
    Line(t.write5m, PriceUnits(p.write5m), PriceUnits(q.write5m));
    Line(t.write1h, PriceUnits(p.write1h), PriceUnits(q.write1h));
    Line(t.cacheWrite, Max(PriceUnits(p.write5m), PriceUnits(p.write1h)), Max(PriceUnits(q.write5m), PriceUnits(q.write1h)));
  }

  /** Dearer prices never make the rounded TTL charge smaller. */
  lemma TtlChargeMonotone(t: TokenCounts, p: PriceCard, q: PriceCard, multiplier: string)
    requires ValidTtlPrices(p) && ValidTtlPrices(q) && Dominates(q, p)
    ensures ChargesAtLeast(TtlCharge(t, q, multiplier), TtlCharge(t, p, multiplier))
  {
    hide ParseBounded, PriceUnits, Settle;
    if TtlCharge(t, q, multiplier).Charged? {
      Line(t.input - t.cached - t.cacheWrite, PriceUnits(p.input), PriceUnits(q.input));
      Line(t.cached, PriceUnits(p.cached), PriceUnits(q.cached));
      Line(t.output, PriceUnits(p.output), PriceUnits(q.output));
      WriteUnitsMonotone(t, p, q);
      SettleMonotone(TtlUnits(t, p), TtlUnits(t, q), multiplier);
    }
  }

  /** Without a TTL breakdown the charge is at least that of every split of the same aggregate. */
  lemma MissingSplitIsConservative(t: TokenCounts, short: int, long: int, p: PriceCard, multiplier: string)
    requires !t.ttlPresent && short >= 0 && long >= 0 && short + long == t.cacheWrite
    requires ValidTtlPrices(p)
    ensures ChargesAtLeast(TtlCharge(t, p, multiplier),
                           TtlCharge(t.(ttlPresent := true, write5m := short, write1h := long), p, multiplier))
  {
    hide ParseBounded, PriceUnits, Settle;
    var split := t.(ttlPresent := true, write5m := short, write1h := long);
    if TtlCharge(t, p, multiplier).Charged? {
      var a, b := PriceUnits(p.write5m), PriceUnits(p.write1h);
      Line(short, a, Max(a, b));
      Line(long, b, Max(a, b));
      SumDistributes(short, long, Max(a, b));
      Line(t.input - t.cached - t.cacheWrite, PriceUnits(p.input), PriceUnits(p.input));
      Line(t.cached, PriceUnits(p.cached), PriceUnits(p.cached));
      Line(t.output, PriceUnits(p.output), PriceUnits(p.output));
      SettleMonotone(TtlUnits(split, p), TtlUnits(t, p), multiplier);
    }
  }

  lemma SumDistributes(a: int, b: int, p: int)
    ensures (a + b) * p == a * p + b * p
  {
  }
}
