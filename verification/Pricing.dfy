/**
 Price selection of internal/config/pricing.go: an exact published price, or the component-wise
 maximum of the published prices it has to stand in for.
 */
module Pricing {
  import opened Text
  import opened Decimals
  import opened Costs
  import opened DecimalOrder

  const SEPARATE_BY_TTL := "separate_by_ttl"
  const STANDARD := "standard"
  const FLEX := "flex"
  const FAST := "fast"
  const MAX_PUBLISHED := "max_published"
  const SHORT := "short"
  const LONG := "long"
  const UNKNOWN_SERVICE_TIER := "unknown_service_tier"
  const MISSING_SERVICE_TIER := "missing_service_tier"
  const MISSING_PRICE_COMBINATION := "missing_price_combination"

  datatype TokenPricing = TokenPricing(
    input: string, cached: string, cacheWrite: Option<string>, write5m: Option<string>, write1h: Option<string>, output: string)

  datatype ServiceTierPricing = ServiceTierPricing(short: Option<TokenPricing>, long: Option<TokenPricing>)

  /** The first three fields belong to the older schema and must be empty here. */
  datatype ModelPricing = ModelPricing(
    input: string, cached: string, output: string,
    mode: string, maxInputTokens: int, longContextThreshold: int, tiers: map<string, ServiceTierPricing>)

  datatype PricingDecision = PricingDecision(tier: string, contextClass: string, card: PriceCard, reasons: set<string>)

  // ---------------------------------------------------------------- validation

  predicate ValidTokenPricing(t: TokenPricing, mode: string) {
    && IsPrice(t.input) && IsPrice(t.cached) && IsPrice(t.output)
    && (if mode == SEPARATE then t.cacheWrite.Some? && IsPrice(t.cacheWrite.value) else t.cacheWrite.None?)
    && (if mode == SEPARATE_BY_TTL
        then t.write5m.Some? && IsPrice(t.write5m.value) && t.write1h.Some? && IsPrice(t.write1h.value)
        else t.write5m.None? && t.write1h.None?)
  }

  predicate ValidTier(tier: string, s: ServiceTierPricing, mode: string) {
    && (tier == STANDARD || tier == FLEX || tier == FAST)
    && (s.short.Some? || s.long.Some?)
    && (s.short.Some? ==> ValidTokenPricing(s.short.value, mode))
    && (s.long.Some? ==> ValidTokenPricing(s.long.value, mode))
  }

  predicate ValidHeader(rule: ModelPricing) {
    && rule.input == "" && rule.cached == "" && rule.output == ""
    && (rule.mode == SEPARATE || rule.mode == SEPARATE_BY_TTL || rule.mode == INCLUDED_IN_INPUT)
    && 0 < rule.longContextThreshold <= rule.maxInputTokens
    && |rule.tiers| > 0
  }

  ghost predicate ValidRule(rule: ModelPricing) {
    ValidHeader(rule) && forall tier :: tier in rule.tiers ==> ValidTier(tier, rule.tiers[tier], rule.mode)
  }

  /** The tiers are visited in an arbitrary order, as Go ranges over a map. */
  method ValidateV2ModelPricing(rule: ModelPricing) returns (ok: bool)
    ensures ok <==> ValidRule(rule)
  {
    hide ValidTier;
    if rule.input != "" || rule.cached != "" || rule.output != "" {
      return false;
    }
    if rule.mode != SEPARATE && rule.mode != SEPARATE_BY_TTL && rule.mode != INCLUDED_IN_INPUT {
      return false;
    }
    if rule.maxInputTokens <= 0 || rule.longContextThreshold <= 0 || rule.longContextThreshold > rule.maxInputTokens {
      return false;
    }
    if |rule.tiers| == 0 {
      return false;
    }
    var remaining := rule.tiers.Keys;
    while remaining != {}
      invariant remaining <= rule.tiers.Keys
      invariant forall tier :: tier in rule.tiers && tier !in remaining ==> ValidTier(tier, rule.tiers[tier], rule.mode)
    {
      var tier :| tier in remaining;
      if !ValidTier(tier, rule.tiers[tier], rule.mode) {
        return false;
      }
      remaining := remaining - {tier};
    }
    return true;
  }

  // ---------------------------------------------------------------- component maximum

  datatype Component = Input | Cached | CacheWrite | Write5m | Write1h | Output

  function Get(t: TokenPricing, c: Component): Option<string> {
    match c
    case Input => Some(t.input)
    case Cached => Some(t.cached)
    case CacheWrite => t.cacheWrite
    case Write5m => t.write5m
    case Write1h => t.write1h
    case Output => Some(t.output)
  }

  function Raise(current: string, o: Option<string>): string {
    if o.None? then current else MaxDecimal(current, o.value, '0')
  }

  /** The running maximum of one component over the prices seen so far. */
  function Highest(values: seq<TokenPricing>, c: Component): string {
    if values == [] then "0" else Raise(Highest(values[..|values| - 1], c), Get(values[|values| - 1], c))
  }

  function ComponentMax(values: seq<TokenPricing>, mode: string): TokenPricing {
    TokenPricing(
      Highest(values, Input), Highest(values, Cached),
      if mode == SEPARATE then Some(Highest(values, CacheWrite)) else None,
      if mode == SEPARATE_BY_TTL then Some(Highest(values, Write5m)) else None,
      if mode == SEPARATE_BY_TTL then Some(Highest(values, Write1h)) else None,
      Highest(values, Output))
  }

  method ComponentMaximum(values: seq<TokenPricing>, mode: string) returns (r: Option<TokenPricing>)
    ensures values == [] ==> r == None
    ensures values != [] ==> r == Some(ComponentMax(values, mode))
  {
    hide MaxDecimal;
    if |values| == 0 {
      return None;
    }
    var input, cached, output := "0", "0", "0";
    var cacheWrite, write5m, write1h := "0", "0", "0";
    for index := 0 to |values|
      invariant input == Highest(values[..index], Input) && cached == Highest(values[..index], Cached)
      invariant output == Highest(values[..index], Output) && cacheWrite == Highest(values[..index], CacheWrite)
      invariant write5m == Highest(values[..index], Write5m) && write1h == Highest(values[..index], Write1h)
    {
      var value := values[index];
      assert values[..index + 1][..index] == values[..index];
      input := MaxDecimal(input, value.input, '0');
      cached := MaxDecimal(cached, value.cached, '0');
      output := MaxDecimal(output, value.output, '0');
      if value.cacheWrite.Some? {
        cacheWrite := MaxDecimal(cacheWrite, value.cacheWrite.value, '0');
      }
      if value.write5m.Some? {
        write5m := MaxDecimal(write5m, value.write5m.value, '0');
      }
      if value.write1h.Some? {
        write1h := MaxDecimal(write1h, value.write1h.value, '0');
      }
    }
    assert values[..|values|] == values;
    r := Some(TokenPricing(
                input, cached,
                if mode == SEPARATE then Some(cacheWrite) else None,
                if mode == SEPARATE_BY_TTL then Some(write5m) else None,
                if mode == SEPARATE_BY_TTL then Some(write1h) else None,
                output));
  }

  /** Whether component c is priced at all under the mode. */
  predicate Priced(mode: string, c: Component) {
    match c
    case CacheWrite => mode == SEPARATE
    case Write5m => mode == SEPARATE_BY_TTL
    case Write1h => mode == SEPARATE_BY_TTL
    case _ => true
  }

  lemma GetValid(t: TokenPricing, mode: string, c: Component)
    requires ValidTokenPricing(t, mode)
    ensures Get(t, c).Some? <==> Priced(mode, c)
    ensures Priced(mode, c) ==> IsPrice(Get(t, c).value)
  {
    hide IsPrice;
  }

  lemma ZeroPrice()
    ensures CanonicalPrice("0") && IsPrice("0") && PriceUnits("0") == 0
  {
    assert IntegerPart("0") == "0" && FractionPart("0") == "" by { JoinParts("0", ""); }
    assert MatchesDecimal("0");
    ParseAcceptsExactly("0", AMOUNT_SCALE, false, true);
    ParsePreservesValue("0", AMOUNT_SCALE, false, true);
    assert CanonicalMagnitude("0") by { JoinParts("0", ""); }
    ZeroExactly("0", AMOUNT_SCALE);
    CanonicalUnique("0", ParsePrice("0").value, AMOUNT_SCALE);
  }

  lemma {:induction false} HighestIsMaximum(values: seq<TokenPricing>, mode: string, c: Component)
    requires Priced(mode, c) && forall v :: v in values ==> ValidTokenPricing(v, mode)
    ensures IsPrice(Highest(values, c)) && CanonicalPrice(Highest(values, c))
    ensures forall v :: v in values ==> Get(v, c).Some? && IsPrice(Get(v, c).value)
    ensures forall v :: v in values ==> PriceUnits(Get(v, c).value) <= PriceUnits(Highest(values, c))
    ensures PriceUnits(Highest(values, c)) == 0
            || exists v :: v in values && PriceUnits(Get(v, c).value) == PriceUnits(Highest(values, c))
  {
    hide ParsePrice, PriceUnits, MaxDecimal, ValidTokenPricing, Get;
    ZeroPrice();
    if values != [] {
      var rest, last := values[..|values| - 1], values[|values| - 1];
      assert values == rest + [last];
      HighestIsMaximum(rest, mode, c);
      GetValid(last, mode, c);
      MaxDecimalIsMaximum(Highest(rest, c), Get(last, c).value, '0');
    }
  }

  /** m carries the highest published amount of every component, spelled canonically. */
  ghost predicate MaximumOf(published: set<TokenPricing>, mode: string, m: TokenPricing)
    requires forall p :: p in published ==> ValidTokenPricing(p, mode)
  {
    && ValidTokenPricing(m, mode)
    && forall c :: Priced(mode, c) ==> IsHighest(published, mode, c, m)
  }

  ghost predicate IsHighest(published: set<TokenPricing>, mode: string, c: Component, m: TokenPricing)
    requires Priced(mode, c) && ValidTokenPricing(m, mode)
    requires forall p :: p in published ==> ValidTokenPricing(p, mode)
  {
    GetValid(m, mode, c);
    var top := Get(m, c).value;
    && CanonicalPrice(top)
    && (forall p :: p in published ==> PriceUnits(ValidGet(p, mode, c)) <= PriceUnits(top))
    && (PriceUnits(top) == 0 || exists p :: p in published && PriceUnits(ValidGet(p, mode, c)) == PriceUnits(top))
  }

  ghost function ValidGet(p: TokenPricing, mode: string, c: Component): (value: string)
    requires ValidTokenPricing(p, mode) && Priced(mode, c)
    ensures IsPrice(value)
  {
    GetValid(p, mode, c);
    Get(p, c).value
  }

  lemma ComponentMaxIsMaximum(values: seq<TokenPricing>, mode: string)
    requires forall v :: v in values ==> ValidTokenPricing(v, mode)
    ensures MaximumOf((set v | v in values), mode, ComponentMax(values, mode))
  {
    hide ParsePrice, PriceUnits, MaxDecimal, Highest;
    var m := ComponentMax(values, mode);
    forall c | Priced(mode, c)
      ensures IsPrice(Highest(values, c)) && Get(m, c) == Some(Highest(values, c))
    {
      HighestIsMaximum(values, mode, c);
    }
    assert Priced(mode, Input) && Priced(mode, Cached) && Priced(mode, Output);
    assert mode == SEPARATE ==> Priced(mode, CacheWrite);
    assert mode == SEPARATE_BY_TTL ==> Priced(mode, Write5m) && Priced(mode, Write1h);
    assert ValidTokenPricing(m, mode);
    forall c | Priced(mode, c) ensures IsHighest((set v | v in values), mode, c, m) {
      HighestIsMaximum(values, mode, c);
      if PriceUnits(Highest(values, c)) != 0 {
        var v :| v in values && PriceUnits(Get(v, c).value) == PriceUnits(Highest(values, c));
        assert PriceUnits(ValidGet(v, mode, c)) == PriceUnits(Highest(values, c));
      }
    }
  }

  /** The maximum depends only on the set of prices: every map iteration order gives the same strings. */
  lemma MaximumUnique(published: set<TokenPricing>, mode: string, a: TokenPricing, b: TokenPricing)
    requires forall p :: p in published ==> ValidTokenPricing(p, mode)
    requires MaximumOf(published, mode, a) && MaximumOf(published, mode, b)
    ensures a == b
  {
    hide ParsePrice, PriceUnits;
    forall c | Priced(mode, c) ensures Get(a, c) == Get(b, c) {
      GetValid(a, mode, c);
      GetValid(b, mode, c);
      assert IsHighest(published, mode, c, a) && IsHighest(published, mode, c, b);
      CanonicalPriceUnique(Get(a, c).value, Get(b, c).value);
    }
    assert Get(a, Input) == Get(b, Input) && Get(a, Cached) == Get(b, Cached) && Get(a, Output) == Get(b, Output);
    assert mode == SEPARATE ==> Get(a, CacheWrite) == Get(b, CacheWrite);
    assert mode == SEPARATE_BY_TTL ==> Get(a, Write5m) == Get(b, Write5m) && Get(a, Write1h) == Get(b, Write1h);
  }

  // ---------------------------------------------------------------- published prices

  function ContextPrice(s: ServiceTierPricing, contextClass: string): Option<TokenPricing> {
    if contextClass == LONG then s.long else s.short
  }

  ghost function PublishedFor(rule: ModelPricing, contextClass: string): set<TokenPricing> {
    set tier | tier in rule.tiers && ContextPrice(rule.tiers[tier], contextClass).Some?
      :: ContextPrice(rule.tiers[tier], contextClass).value
  }

  ghost function Published(rule: ModelPricing): set<TokenPricing> {
    PublishedFor(rule, SHORT) + PublishedFor(rule, LONG)
  }

  lemma PublishedValid(rule: ModelPricing)
    requires ValidRule(rule)
    ensures Published(rule) != {}
    ensures forall p :: p in Published(rule) ==> ValidTokenPricing(p, rule.mode)
    ensures PublishedFor(rule, SHORT) <= Published(rule) && PublishedFor(rule, LONG) <= Published(rule)
  {
    hide ValidTokenPricing;
    var tier :| tier in rule.tiers;
    assert ValidTier(tier, rule.tiers[tier], rule.mode);
    var s := rule.tiers[tier];
    if s.short.Some? {
      assert ContextPrice(s, SHORT).value in PublishedFor(rule, SHORT);
    } else {
      assert ContextPrice(s, LONG).value in PublishedFor(rule, LONG);
    }
  }

  method MaxPublishedForContext(rule: ModelPricing, contextClass: string) returns (r: Option<TokenPricing>)
    requires ValidRule(rule) && (contextClass == SHORT || contextClass == LONG)
    ensures r.Some? <==> PublishedFor(rule, contextClass) != {}
    ensures forall p :: p in PublishedFor(rule, contextClass) ==> ValidTokenPricing(p, rule.mode)
    ensures r.Some? ==> MaximumOf(PublishedFor(rule, contextClass), rule.mode, r.value)
  {
    hide ValidTokenPricing, MaximumOf, ComponentMax;
    PublishedValid(rule);
    var values: seq<TokenPricing> := [];
    var remaining := rule.tiers.Keys;
    while remaining != {}
      invariant remaining <= rule.tiers.Keys
      invariant forall tier :: tier in rule.tiers && tier !in remaining && ContextPrice(rule.tiers[tier], contextClass).Some?
                  ==> ContextPrice(rule.tiers[tier], contextClass).value in values
      invariant forall v :: v in values ==> v in PublishedFor(rule, contextClass)
    {
      var tier :| tier in remaining;
      var price := ContextPrice(rule.tiers[tier], contextClass);
      if price.Some? {
        values := values + [price.value];
      }
      remaining := remaining - {tier};
    }
    assert (set v | v in values) == PublishedFor(rule, contextClass);
    ComponentMaxIsMaximum(values, rule.mode);
    r := ComponentMaximum(values, rule.mode);
    if values != [] {
      assert values[0] in values;
    }
  }

  method MaxPublished(rule: ModelPricing) returns (r: Option<TokenPricing>)
    requires ValidRule(rule)
    ensures r.Some?
    ensures forall p :: p in Published(rule) ==> ValidTokenPricing(p, rule.mode)
    ensures MaximumOf(Published(rule), rule.mode, r.value)
  {
    hide ValidTokenPricing, MaximumOf, ComponentMax;
    PublishedValid(rule);
    var values: seq<TokenPricing> := [];
    var remaining := rule.tiers.Keys;
    while remaining != {}
      invariant remaining <= rule.tiers.Keys
      invariant forall tier :: tier in rule.tiers && tier !in remaining && rule.tiers[tier].short.Some? ==> rule.tiers[tier].short.value in values
      invariant forall tier :: tier in rule.tiers && tier !in remaining && rule.tiers[tier].long.Some? ==> rule.tiers[tier].long.value in values
      invariant forall v :: v in values ==> v in Published(rule)
    {
      var tier :| tier in remaining;
      var s := rule.tiers[tier];
      if s.short.Some? {
        assert ContextPrice(s, SHORT).value in PublishedFor(rule, SHORT);
        values := values + [s.short.value];
      }
      if s.long.Some? {
        assert ContextPrice(s, LONG).value in PublishedFor(rule, LONG);
        values := values + [s.long.value];
      }
      remaining := remaining - {tier};
    }
    assert (set v | v in values) == Published(rule);
    ghost var some: TokenPricing :| some in Published(rule);
    assert some in (set v | v in values);
    ComponentMaxIsMaximum(values, rule.mode);
    r := ComponentMaximum(values, rule.mode);
  }

  // ---------------------------------------------------------------- Select

  /** Lower case, as far as the recognised spellings can tell. */
  function LowerChar(c: char): char {
    if 'A' <= c <= 'Z' then c - 'A' + 'a' else if c == '\U{130}' then 'i' else if c == '\U{212A}' then 'k' else c
  }

  function NormalizeServiceTier(value: string): Option<string> {
    var trimmed := TrimSpace(value);
    var name := seq(|trimmed|, i requires 0 <= i < |trimmed| => LowerChar(trimmed[i]));
    if name == "default" || name == "standard" then Some(STANDARD)
    else if name == "flex" then Some(FLEX)
    else if name == "priority" || name == "fast" then Some(FAST)
    else None
  }

  /** A letter as it may be written: itself, its capital, or one of two capitals from elsewhere that Go lowers to it. */
  predicate Writes(c: char, letter: char) {
    || c == letter || ('a' <= letter <= 'z' && c == letter - 'a' + 'A')
    || (letter == 'i' && c == '\U{130}') || (letter == 'k' && c == '\U{212A}')
  }

  /** The word in any case, with any space around it. */
  predicate Spells(value: string, word: string) {
    var trimmed := TrimSpace(value);
    |trimmed| == |word| && forall i :: 0 <= i < |word| ==> Writes(trimmed[i], word[i])
  }

  lemma WritesExactly(c: char, letter: char)
    requires 'a' <= letter <= 'z'
    ensures LowerChar(c) == letter <==> Writes(c, letter)
  {
  }

  lemma SpellsExactly(value: string, word: string)
    requires forall i :: 0 <= i < |word| ==> 'a' <= word[i] <= 'z'
    ensures var trimmed := TrimSpace(value);
            seq(|trimmed|, i requires 0 <= i < |trimmed| => LowerChar(trimmed[i])) == word <==> Spells(value, word)
  {
    hide LowerChar, TrimSpace, Writes;
    var trimmed := TrimSpace(value);
    var name := seq(|trimmed|, i requires 0 <= i < |trimmed| => LowerChar(trimmed[i]));
    if |trimmed| == |word| {
      forall i | 0 <= i < |word| ensures name[i] == word[i] <==> Writes(trimmed[i], word[i]) { WritesExactly(trimmed[i], word[i]); }
      if Spells(value, word) { assert name == word; }
      if name == word { assert forall i :: 0 <= i < |word| ==> name[i] == word[i]; }
    }
  }

  /** The spellings of the tiers. */
  const SPELLINGS := map["default" := STANDARD, "standard" := STANDARD, "flex" := FLEX, "priority" := FAST, "fast" := FAST]

  /** A value names the tier of the word it spells, and names none if it spells none. */
  lemma TierExactly(value: string, tier: string)
    ensures NormalizeServiceTier(value) == Some(tier) <==> exists word :: word in SPELLINGS && Spells(value, word) && SPELLINGS[word] == tier
  {
    hide Spells, LowerChar, TrimSpace;
    SpellsExactly(value, "default");
    SpellsExactly(value, "standard");
    SpellsExactly(value, "flex");
    SpellsExactly(value, "priority");
    SpellsExactly(value, "fast");
    assert "default" in SPELLINGS && "standard" in SPELLINGS && "flex" in SPELLINGS && "priority" in SPELLINGS && "fast" in SPELLINGS;
  }

  function ContextClass(rule: ModelPricing, inputTokens: int): string {
    if inputTokens > rule.longContextThreshold then LONG else SHORT
  }

  /** The published price for exactly this tier and context, if there is one. */
  function ExactPrice(rule: ModelPricing, tier: string, inputTokens: int): Option<TokenPricing> {
    var name := NormalizeServiceTier(tier);
    if inputTokens > rule.maxInputTokens || TrimSpace(tier) == "" || name.None? || name.value !in rule.tiers then None
    else ContextPrice(rule.tiers[name.value], ContextClass(rule, inputTokens))
  }

  /**
   The published prices a fallback answers for: those of the request's context class when only the
   tier is unknown, otherwise all of them.
   */
  ghost function StandsInFor(rule: ModelPricing, tier: string, inputTokens: int): set<TokenPricing> {
    var same := PublishedFor(rule, ContextClass(rule, inputTokens));
    if inputTokens <= rule.maxInputTokens && (TrimSpace(tier) == "" || NormalizeServiceTier(tier).None?) && same != {} then same
    else Published(rule)
  }

  function Card(t: TokenPricing, mode: string): PriceCard {
    if mode == SEPARATE_BY_TTL && t.write5m.Some? && t.write1h.Some? then
      PriceCard(t.input, t.cached, MaxDecimal(t.write5m.value, t.write1h.value, '0'), t.write5m.value, t.write1h.value, t.output)
    else
      PriceCard(t.input, t.cached, if t.cacheWrite.Some? then t.cacheWrite.value else "0", "", "", t.output)
  }

  /** The price Select settles on: the exact one, or the maximum of those it stands in for. */
  ghost predicate Settled(rule: ModelPricing, tier: string, inputTokens: int, price: TokenPricing)
    requires ValidRule(rule)
  {
    StandsInValid(rule, tier, inputTokens);
    match ExactPrice(rule, tier, inputTokens)
    case Some(exact) => price == exact
    case None => MaximumOf(StandsInFor(rule, tier, inputTokens), rule.mode, price)
  }

  method FallBack(rule: ModelPricing, tier: string, inputTokens: int, contextClass: string, tierUnknown: bool) returns (price: TokenPricing, missing: bool)
    requires ValidRule(rule) && contextClass == ContextClass(rule, inputTokens)
    requires ExactPrice(rule, tier, inputTokens).None?
    requires tierUnknown <==> inputTokens <= rule.maxInputTokens && (TrimSpace(tier) == "" || NormalizeServiceTier(tier).None?)
    ensures Settled(rule, tier, inputTokens, price)
    ensures missing <==> !(tierUnknown && PublishedFor(rule, contextClass) != {})
  {
    hide MaximumOf, NormalizeServiceTier, ExactPrice, ValidTokenPricing, ValidTier, TrimSpace, PublishedFor;
    PublishedValid(rule);
    var selected: Option<TokenPricing> := None;
    if tierUnknown {
      selected := MaxPublishedForContext(rule, contextClass);
    }
    missing := selected.None?;
    if missing {
      selected := MaxPublished(rule);
    }
    price := selected.value;
  }

  lemma SettledIsValid(rule: ModelPricing, tier: string, inputTokens: int, price: TokenPricing)
    requires ValidRule(rule) && Settled(rule, tier, inputTokens, price)
    ensures ValidTokenPricing(price, rule.mode)
  {
    hide ValidTokenPricing, NormalizeServiceTier, TrimSpace, MaximumOf;
    PublishedValid(rule);
    StandsInValid(rule, tier, inputTokens);
    if ExactPrice(rule, tier, inputTokens).Some? {
      var s := rule.tiers[NormalizeServiceTier(tier).value];
      assert ContextPrice(s, ContextClass(rule, inputTokens)).value in PublishedFor(rule, ContextClass(rule, inputTokens));
    } else {
      MaximumIsValid(StandsInFor(rule, tier, inputTokens), rule.mode, price);
    }
  }

  /** What Select promises of a decision. */
  ghost predicate DecisionFor(rule: ModelPricing, tier: string, inputTokens: int, d: PricingDecision)
    requires ValidRule(rule)
  {
    && d.contextClass == ContextClass(rule, inputTokens)
    && (exists price :: Settled(rule, tier, inputTokens, price) && d.card == Card(price, rule.mode))
    && (if ExactPrice(rule, tier, inputTokens).Some? then d.tier == NormalizeServiceTier(tier).value && d.reasons == {}
        else d.tier == MAX_PUBLISHED && d.reasons == FallbackReasons(rule, tier, inputTokens))
  }

  /** Why an exact price could not be used. */
  ghost function FallbackReasons(rule: ModelPricing, tier: string, inputTokens: int): set<string> {
    (if TrimSpace(tier) == "" then {MISSING_SERVICE_TIER} else if NormalizeServiceTier(tier).None? then {UNKNOWN_SERVICE_TIER} else {})
    + (if inputTokens <= rule.maxInputTokens && (TrimSpace(tier) == "" || NormalizeServiceTier(tier).None?)
          && PublishedFor(rule, ContextClass(rule, inputTokens)) != {} then {} else {MISSING_PRICE_COMBINATION})
  }

  /** Succeeds on every validated rule and every non-negative count; never reads an absent price. */
  method Select(rule: ModelPricing, tier: string, inputTokens: int) returns (r: Option<PricingDecision>)
    requires ValidRule(rule)
    ensures r.Some? <==> inputTokens >= 0
    ensures r.Some? ==> DecisionFor(rule, tier, inputTokens, r.value)
  {
    hide MaximumOf, MaxDecimal, NormalizeServiceTier, ValidTier, StandsInFor, IsPrice, TrimSpace, ContextPrice;
    if inputTokens < 0 {
      return None;
    }
    var contextClass := SHORT;
    if inputTokens > rule.longContextThreshold {
      contextClass := LONG;
    }
    var reasons: set<string> := {};
    var selected: Option<TokenPricing> := None;
    var pricingTier := "";
    var overMaximum := inputTokens > rule.maxInputTokens;
    if overMaximum {
      reasons := reasons + {MISSING_PRICE_COMBINATION};
    }
    var missingTier := TrimSpace(tier) == "";
    var normalized := if missingTier then None else NormalizeServiceTier(tier);
    if missingTier {
      reasons := reasons + {MISSING_SERVICE_TIER};
    } else if normalized.None? {
      reasons := reasons + {UNKNOWN_SERVICE_TIER};
    }
    if !overMaximum && normalized.Some? {
      if normalized.value in rule.tiers {
        selected := ContextPrice(rule.tiers[normalized.value], contextClass);
      }
      if selected.Some? {
        pricingTier := normalized.value;
      } else {
        reasons := reasons + {MISSING_PRICE_COMBINATION};
      }
    }
    assert selected == ExactPrice(rule, tier, inputTokens);
    var price;
    if selected.Some? {
      price := selected.value;
    } else {
      var missing;
      price, missing := FallBack(rule, tier, inputTokens, contextClass, !overMaximum && normalized.None?);
      if missing {
        reasons := reasons + {MISSING_PRICE_COMBINATION};
      }
      pricingTier := MAX_PUBLISHED;
    }
    SettledIsValid(rule, tier, inputTokens, price);
    var cacheWrite, write5m, write1h := "0", "", "";
    if price.cacheWrite.Some? {
      cacheWrite := price.cacheWrite.value;
    }
    if rule.mode == SEPARATE_BY_TTL {
      write5m := price.write5m.value;
      write1h := price.write1h.value;
      cacheWrite := MaxDecimal(write5m, write1h, '0');
    }
    r := Some(PricingDecision(pricingTier, contextClass, PriceCard(price.input, price.cached, cacheWrite, write5m, write1h, price.output), reasons));
  }

  /** Whatever spelling the tier comes in, its published price for the size of the request is the one selected. */
  lemma SelectsSpelledTier(rule: ModelPricing, value: string, word: string, inputTokens: int, d: PricingDecision)
    requires ValidRule(rule) && DecisionFor(rule, value, inputTokens, d) && 0 <= inputTokens <= rule.maxInputTokens
    requires word in SPELLINGS && Spells(value, word) && SPELLINGS[word] in rule.tiers
    requires var s := rule.tiers[SPELLINGS[word]]; if inputTokens > rule.longContextThreshold then s.long.Some? else s.short.Some?
    ensures var s := rule.tiers[SPELLINGS[word]];
            && d.tier == SPELLINGS[word] && d.reasons == {}
            && d.card == Card(if inputTokens > rule.longContextThreshold then s.long.value else s.short.value, rule.mode)
  {
    hide NormalizeServiceTier, ValidRule, Card, StandsInFor, MaximumOf, Spells;
    TierExactly(value, SPELLINGS[word]);
    SpelledIsNotBlank(value, word);
    var price :| Settled(rule, value, inputTokens, price) && d.card == Card(price, rule.mode);
  }

  lemma SpelledIsNotBlank(value: string, word: string)
    requires word in SPELLINGS && Spells(value, word)
    ensures TrimSpace(value) != ""
  {
  }

  lemma MaximumIsValid(published: set<TokenPricing>, mode: string, m: TokenPricing)
    requires forall p :: p in published ==> ValidTokenPricing(p, mode)
    requires MaximumOf(published, mode, m)
    ensures ValidTokenPricing(m, mode)
  {
  }

  // ---------------------------------------------------------------- conservative charging

  /** The charge settled for a rule's mode. */
  function Charge(mode: string, t: TokenCounts, card: PriceCard, multiplier: string): Outcome {
    if mode == SEPARATE_BY_TTL then TtlCharge(t, card, multiplier) else CategoryCharge(t, mode, card, multiplier)
  }

  lemma CardValid(t: TokenPricing, mode: string)
    requires ValidTokenPricing(t, mode)
    ensures ValidPrices(Card(t, mode))
    ensures mode == SEPARATE_BY_TTL ==> ValidTtlPrices(Card(t, mode))
    ensures mode != SEPARATE_BY_TTL ==> Card(t, mode).write5m == "" && Card(t, mode).write1h == "" && !IsPrice("")
    ensures mode == SEPARATE_BY_TTL ==> PriceUnits(Card(t, mode).cacheWrite)
                                        == Max(PriceUnits(Card(t, mode).write5m), PriceUnits(Card(t, mode).write1h))
  {
    hide MaxDecimal, PriceUnits;
    ZeroPrice();
    if mode == SEPARATE_BY_TTL { MaxDecimalIsMaximum(t.write5m.value, t.write1h.value, '0'); }
  }

  lemma MaximumDominates(published: set<TokenPricing>, mode: string, top: TokenPricing, p: TokenPricing)
    requires forall q :: q in published ==> ValidTokenPricing(q, mode)
    requires MaximumOf(published, mode, top) && p in published
    ensures ValidPrices(Card(top, mode)) && ValidPrices(Card(p, mode))
    ensures mode == SEPARATE_BY_TTL ==> ValidTtlPrices(Card(top, mode)) && ValidTtlPrices(Card(p, mode))
    ensures Dominates(Card(top, mode), Card(p, mode))
  {
    hide ParsePrice, PriceUnits, MaxDecimal, ValidTokenPricing;
    CardValid(top, mode);
    CardValid(p, mode);
    forall c | Priced(mode, c) ensures PriceUnits(ValidGet(p, mode, c)) <= PriceUnits(ValidGet(top, mode, c)) {
      assert IsHighest(published, mode, c, top);
    }
    assert PriceUnits(ValidGet(p, mode, Input)) <= PriceUnits(ValidGet(top, mode, Input));
    assert PriceUnits(ValidGet(p, mode, Cached)) <= PriceUnits(ValidGet(top, mode, Cached));
    assert PriceUnits(ValidGet(p, mode, Output)) <= PriceUnits(ValidGet(top, mode, Output));
    if mode == SEPARATE {
      GetValid(p, mode, CacheWrite);
      GetValid(top, mode, CacheWrite);
      assert PriceUnits(ValidGet(p, mode, CacheWrite)) <= PriceUnits(ValidGet(top, mode, CacheWrite));
    } else if mode == SEPARATE_BY_TTL {
      GetValid(p, mode, Write5m);
      GetValid(p, mode, Write1h);
      GetValid(top, mode, Write5m);
      GetValid(top, mode, Write1h);
      assert PriceUnits(ValidGet(p, mode, Write5m)) <= PriceUnits(ValidGet(top, mode, Write5m));
      assert PriceUnits(ValidGet(p, mode, Write1h)) <= PriceUnits(ValidGet(top, mode, Write1h));
    } else {
      GetValid(p, mode, CacheWrite);
      GetValid(top, mode, CacheWrite);
    }
  }

  /**
   Whenever Select falls back, the rounded charge under its decision is at least the rounded charge
   under every published price the decision stands in for, for every token count and multiplier.
   */
  lemma FallbackIsConservative(
      rule: ModelPricing, tier: string, inputTokens: int, d: PricingDecision, p: TokenPricing, t: TokenCounts, multiplier: string)
    requires ValidRule(rule) && DecisionFor(rule, tier, inputTokens, d)
    requires ExactPrice(rule, tier, inputTokens).None? && p in StandsInFor(rule, tier, inputTokens)
    ensures ChargesAtLeast(Charge(rule.mode, t, d.card, multiplier), Charge(rule.mode, t, Card(p, rule.mode), multiplier))
  {
    hide MaximumOf, Card, CategoryCharge, TtlCharge, ChargesAtLeast, Dominates, StandsInFor, ExactPrice, ValidPrices, ValidTtlPrices;
    StandsInValid(rule, tier, inputTokens);
    var published := StandsInFor(rule, tier, inputTokens);
    var top :| Settled(rule, tier, inputTokens, top) && d.card == Card(top, rule.mode);
    MaximumDominates(published, rule.mode, top, p);
    if rule.mode == SEPARATE_BY_TTL {
      TtlChargeMonotone(t, Card(p, rule.mode), d.card, multiplier);
    } else {
      CategoryChargeMonotone(t, rule.mode, Card(p, rule.mode), d.card, multiplier);
    }
  }

  lemma StandsInValid(rule: ModelPricing, tier: string, inputTokens: int)
    requires ValidRule(rule)
    ensures StandsInFor(rule, tier, inputTokens) != {}
    ensures forall p :: p in StandsInFor(rule, tier, inputTokens) ==> ValidTokenPricing(p, rule.mode)
  {
    PublishedValid(rule);
  }
}
