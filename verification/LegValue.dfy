/** The USD value of one trade leg, as the live pipeline and the repair compute it, and what each refuses. */
module LegValue {
  import opened Arithmetic
  import opened Options
  import opened Decimals
  import opened SwapDecoding

  /** Asset prices as texts and asset decimals, for one block. */
  datatype Market = Market(prices: map<int, string>, decimals: map<int, nat>)

  /** One or more digits, and at most twelve decimals after a dot: anything else is rejected by the live pipeline. */
  function PriceToDecimal128(s: string): Parsed {
    var (whole, fraction) := SplitDot(s);
    if whole != "" && AllDigits(whole) && AllDigits(fraction)
       && (s == whole || (s == whole + "." + fraction && 1 <= |fraction| <= 12))
    then
      PaddedIsDigits(whole, fraction);
      Number(ValueOf(whole + PadEnd(fraction, 12)))
    else NotANumber
  }

  lemma PaddedIsDigits(whole: string, fraction: string)
    requires AllDigits(whole) && AllDigits(fraction)
    ensures AllDigits(whole + PadEnd(fraction, 12))
  {
    hide Zeros, ValueOf;
    if |fraction| < 12 { ZerosDenote(12 - |fraction|); }
  }

  /** Digits, and up to twelve more after a dot. */
  predicate IsPriceText(s: string, whole: string, fraction: string) {
    && AllDigits(whole) && AllDigits(fraction) && whole != "" && |fraction| <= 12
    && (s == whole + "." + fraction || (s == whole && fraction == ""))
    && (s == whole + "." + fraction ==> fraction != "")
  }

  /**
   Those texts and no others are read, and as the number they are the decimal notation of, times 10 to the
   twelfth.
  */
  lemma StrictPrices(s: string)
    ensures PriceToDecimal128(s).Number? <==> exists whole, fraction :: IsPriceText(s, whole, fraction)
    ensures forall whole, fraction :: IsPriceText(s, whole, fraction) ==>
      PriceToDecimal128(s).value * Pow10(|fraction|) == ValueOf(whole + fraction) * 1_000_000_000_000
  {
    hide ValueOf, Pow10;
    if PriceToDecimal128(s).Number? {
      var (whole, fraction) := SplitDot(s);
      if s == whole { SplitOfWhole(s); }
      assert IsPriceText(s, whole, fraction);
    }
    forall whole, fraction | IsPriceText(s, whole, fraction)
      ensures PriceToDecimal128(s).Number?
      ensures PriceToDecimal128(s).value * Pow10(|fraction|) == ValueOf(whole + fraction) * 1_000_000_000_000
    {
      SplitAtDot(whole, fraction);
      PaddedDenotes(whole, fraction);
    }
  }

  lemma PaddedDenotes(whole: string, fraction: string)
    requires AllDigits(whole) && AllDigits(fraction) && |fraction| <= 12
    ensures AllDigits(whole + PadEnd(fraction, 12))
    ensures ValueOf(whole + PadEnd(fraction, 12)) * Pow10(|fraction|) == ValueOf(whole + fraction) * 1_000_000_000_000
  {
    hide ValueOf, Zeros, Pow10;
    var n := 12 - |fraction|;
    ZerosDenote(n);
    assert whole + PadEnd(fraction, 12) == whole + fraction + Zeros(n);
    ValueJoin(whole + fraction, Zeros(n));
    TwelveZeros(|fraction|);
    var v := ValueOf(whole + fraction);
    assert v * Pow10(n) * Pow10(|fraction|) == v * (Pow10(n) * Pow10(|fraction|));
  }

  lemma TwelveZeros(k: nat)
    requires k <= 12
    ensures Pow10(12 - k) * Pow10(k) == 1_000_000_000_000
  {
    hide Pow10;
    Pow10Add(12 - k, k);
    TrillionIsPow10();
  }

  lemma SplitOfWhole(s: string)
    requires SplitDot(s).0 == s
    ensures SplitDot(s).1 == ""
  {
  }

  /** The two price parsers agree on everything the strict one accepts. */
  lemma PriceParsersAgree(s: string)
    requires PriceToDecimal128(s).Number?
    ensures DecimalToScaled(s) == PriceToDecimal128(s) && PriceToDecimal128(s).value >= 0 && s != ""
  {
    hide ValueOf;
    var (whole, fraction) := SplitDot(s);
    PaddedIsDigits(whole, fraction);
    assert IsDigit(whole[0]) && s[0] == whole[0];
    if s == whole { SplitOfWhole(s); }
    hide SplitDot;
    if |fraction| < 12 { ZerosDenote(12 - |fraction|); }
    assert |PadEnd(fraction, 12)| == 12;
    assert PadEnd(fraction, 12)[..12] == PadEnd(fraction, 12);
  }

  ghost predicate ValidPrices(m: Market) {
    forall a <- m.prices :: PriceToDecimal128(m.prices[a]).Number?
  }

  datatype CanonicalLeg = CanonicalLeg(leg: Leg, canonical: int)

  /** No asset stands in for another on this chain. */
  function CanonicalLegs(legs: seq<Leg>): seq<CanonicalLeg> {
    seq(|legs|, i requires 0 <= i < |legs| => CanonicalLeg(legs[i], legs[i].asset))
  }

  /** The assets filed under a canonical asset. */
  function Originals(legs: seq<CanonicalLeg>, canonical: int): set<int> {
    set i | 0 <= i < |legs| && legs[i].canonical == canonical :: legs[i].leg.asset
  }

  /** A leg that only converts between two assets of one canonical asset. */
  predicate IsSelfConversion(leg: CanonicalLeg, opposing: seq<CanonicalLeg>) {
    exists a <- Originals(opposing, leg.canonical) :: a != leg.leg.asset
  }

  /** The self-conversion filter never drops a leg. */
  lemma NoLegIsSelfConversion(legs: seq<Leg>, opposing: seq<Leg>, i: nat)
    requires i < |legs|
    ensures !IsSelfConversion(CanonicalLegs(legs)[i], CanonicalLegs(opposing))
  {
  }

  // ---------------------------------------------------------------- live

  function CalculateUsdVolume(amount: nat, asset: int, m: Market): Option<string> {
    if amount == 0 then Some("0.000000000000")
    else if asset !in m.prices || m.prices[asset] == "" || asset !in m.decimals then Some("0.000000000000")
    else
      var price := PriceToDecimal128(m.prices[asset]);
      if price.NotANumber? then None
      else
        var volume := FloorQuotient(amount, price.value, m.decimals[asset]);
        Some(Digits(volume / TRILLION) + "." + PadStart(Digits(volume % TRILLION), 12))
  }

  /** amount * price / 10^decimals, rounded toward zero. */
  function FloorQuotient(amount: nat, price: int, decimals: nat): nat {
    if price <= 0 then 0 else FloorDiv(Times(amount, price), Pow10(decimals))
  }

  lemma FormatNonNegative(v: nat)
    ensures FormatDecimal128(v) == Digits(v / TRILLION) + "." + PadStart(Digits(v % TRILLION), 12)
  {
    assert "" + Digits(v / TRILLION) == Digits(v / TRILLION);
  }

  predicate HasPositivePrice(m: Market, asset: int) {
    asset in m.prices && PriceToDecimal128(m.prices[asset]).Number? && PriceToDecimal128(m.prices[asset]).value > 0
  }

  function LegUsdLive(leg: CanonicalLeg, m: Market): Option<string> {
    CalculateUsdVolume(leg.leg.amount, if HasPositivePrice(m, leg.leg.asset) then leg.leg.asset else leg.canonical, m)
  }

  // ---------------------------------------------------------------- repair

  /** Absent when the repair refuses to value the leg. `priced` lists the assets that must have a price. */
  function RepairUsdVolume(amount: nat, price: Option<string>, decimals: Option<nat>, priced: set<int>,
                           asset: int): Option<string> {
    if amount == 0 then Some("0.000000000000")
    else if price.None? || price.value == "" then (if asset !in priced then Some("0.000000000000") else None)
    else if decimals.None? then None
    else
      var scaled := DecimalToScaled(price.value);
      if scaled.NotANumber? then None else Some(FormatDecimal128(FloorQuotient(amount, scaled.value, decimals.value)))
  }

  function PositivePrice(m: Market, asset: int): Option<string> {
    if HasPositivePrice(m, asset) then Some(m.prices[asset]) else None
  }

  function DecimalsOf(m: Market, asset: int): Option<nat> {
    if asset in m.decimals then Some(m.decimals[asset]) else None
  }

  function LegUsdRepair(leg: CanonicalLeg, m: Market, priced: set<int>): Option<string> {
    var original := PositivePrice(m, leg.leg.asset);
    if original.Some? then RepairUsdVolume(leg.leg.amount, original, DecimalsOf(m, leg.leg.asset), priced,
                                           leg.leg.asset)
    else RepairUsdVolume(leg.leg.amount, PositivePrice(m, leg.canonical), DecimalsOf(m, leg.canonical), priced,
                         leg.canonical)
  }

  // ---------------------------------------------------------------- agreement

  /** What a leg is worth, scaled by 10^12. */
  function Worth(leg: Leg, m: Market): nat {
    if HasPositivePrice(m, leg.asset) && leg.asset in m.decimals
    then FloorQuotient(leg.amount, PriceToDecimal128(m.prices[leg.asset]).value, m.decimals[leg.asset])
    else 0
  }

  /** When the live pipeline does not reject the price, its value of a leg is the text of its worth. */
  lemma LiveIsWorth(leg: Leg, m: Market)
    requires LegUsdLive(CanonicalLeg(leg, leg.asset), m).Some?
    ensures LegUsdLive(CanonicalLeg(leg, leg.asset), m) == Some(FormatDecimal128(Worth(leg, m)))
  {
    hide Digits, PadStart, Pow10, FormatDecimal128, FloorDiv;
    ZeroText();
    if leg.asset in m.prices && PriceToDecimal128(m.prices[leg.asset]).Number? {
      PriceParsersAgree(m.prices[leg.asset]);
    }
    QuotientOfZero(leg, m);
    FormatNonNegative(Worth(leg, m));
  }

  /** The live pipeline rejects a leg exactly when a nonzero amount meets a malformed price text. */
  lemma LiveRefusesExactly(leg: Leg, m: Market)
    ensures LegUsdLive(CanonicalLeg(leg, leg.asset), m).None?
       <==> && leg.amount > 0 && leg.asset in m.prices && m.prices[leg.asset] != "" && leg.asset in m.decimals
            && PriceToDecimal128(m.prices[leg.asset]).NotANumber?
  {
  }

  lemma QuotientOfZero(leg: Leg, m: Market)
    ensures leg.amount == 0 ==> Worth(leg, m) == 0
  {
    if leg.amount == 0 && HasPositivePrice(m, leg.asset) && leg.asset in m.decimals {
      assert Times(0, PriceToDecimal128(m.prices[leg.asset]).value) == 0;
    }
  }

  /** When the repair does not refuse, its value of a leg is the same text. */
  lemma RepairIsWorth(leg: Leg, m: Market, priced: set<int>)
    requires ValidPrices(m) && LegUsdRepair(CanonicalLeg(leg, leg.asset), m, priced).Some?
    ensures LegUsdRepair(CanonicalLeg(leg, leg.asset), m, priced) == Some(FormatDecimal128(Worth(leg, m)))
  {
    hide Digits, PadStart, Pow10;
    ZeroText();
    if leg.asset in m.prices {
      PriceParsersAgree(m.prices[leg.asset]);
    }
    QuotientOfZero(leg, m);
  }

  /**
   The repair refuses a leg exactly when a nonzero amount of a listed asset has no positive price,
   or a positively priced asset has no decimals.
   */
  lemma RepairRefusesExactly(leg: Leg, m: Market, priced: set<int>)
    requires ValidPrices(m)
    ensures LegUsdRepair(CanonicalLeg(leg, leg.asset), m, priced).None?
       <==> leg.amount > 0 && (if HasPositivePrice(m, leg.asset) then leg.asset !in m.decimals else leg.asset in priced)
  {
    if leg.asset in m.prices {
      PriceParsersAgree(m.prices[leg.asset]);
    }
  }

  // ---------------------------------------------------------------- values in numbers

  /** The price that an asset's text denotes, scaled by 10^12; zero without one. */
  function PriceOf(m: Market, asset: int): int {
    if asset in m.prices && m.prices[asset] != "" && DecimalToScaled(m.prices[asset]).Number?
    then DecimalToScaled(m.prices[asset]).value else 0
  }

  /**
   `v` is amount times price over ten to the asset's decimals, rounded down; zero without a positive price
   or decimals.
  */
  predicate IsValue(v: int, amount: nat, asset: int, m: Market) {
    if PriceOf(m, asset) > 0 && asset in m.decimals
    then v * Pow10(m.decimals[asset]) <= amount * PriceOf(m, asset) < (v + 1) * Pow10(m.decimals[asset])
    else v == 0
  }

  lemma QuotientIsValue(amount: nat, price: nat, d: nat)
    requires price > 0
    ensures var v := FloorQuotient(amount, price, d); v * Pow10(d) <= amount * price < (v + 1) * Pow10(d)
  {
  }

  lemma WorthIsValue(leg: Leg, m: Market)
    requires leg.amount > 0 && PriceOf(m, leg.asset) > 0 && leg.asset in m.decimals ==> HasPositivePrice(m, leg.asset)
    ensures IsValue(Worth(leg, m), leg.amount, leg.asset, m)
  {
    hide FloorQuotient, Pow10, DecimalToScaled;
    var asset := leg.asset;
    if HasPositivePrice(m, asset) {
      PriceParsersAgree(m.prices[asset]);
      hide PriceToDecimal128;
      if asset in m.decimals { QuotientIsValue(leg.amount, PriceOf(m, asset), m.decimals[asset]); }
    } else if leg.amount == 0 && PriceOf(m, asset) > 0 && asset in m.decimals {
      NothingIsWorthNothing(PriceOf(m, asset), m.decimals[asset]);
    }
  }

  lemma NothingIsWorthNothing(price: nat, d: nat)
    ensures 0 * Pow10(d) <= 0 * price < (0 + 1) * Pow10(d)
  {
  }

  /** The text either pipeline writes for a leg denotes its value. */
  lemma LegTextsAreValues(leg: Leg, m: Market, priced: set<int>, text: string)
    requires LegUsdLive(CanonicalLeg(leg, leg.asset), m) == Some(text)
             || (ValidPrices(m) && LegUsdRepair(CanonicalLeg(leg, leg.asset), m, priced) == Some(text))
    ensures DecimalToScaled(text).Number? && IsValue(DecimalToScaled(text).value, leg.amount, leg.asset, m)
  {
    hide FormatDecimal128, Worth, DecimalToScaled, IsValue;
    if LegUsdLive(CanonicalLeg(leg, leg.asset), m) == Some(text) {
      LiveIsWorth(leg, m);
    } else {
      RepairIsWorth(leg, m, priced);
    }
    PricedOrRefused(leg, m, priced, text);
    WorthIsValue(leg, m);
    ScaledRoundTrip(Worth(leg, m));
  }

  lemma PricedOrRefused(leg: Leg, m: Market, priced: set<int>, text: string)
    requires LegUsdLive(CanonicalLeg(leg, leg.asset), m) == Some(text)
             || (ValidPrices(m) && LegUsdRepair(CanonicalLeg(leg, leg.asset), m, priced) == Some(text))
    ensures leg.amount > 0 && PriceOf(m, leg.asset) > 0 && leg.asset in m.decimals ==> HasPositivePrice(m, leg.asset)
  {
    var asset := leg.asset;
    if asset in m.prices && PriceToDecimal128(m.prices[asset]).Number? {
      PriceParsersAgree(m.prices[asset]);
    }
    hide PriceToDecimal128, DecimalToScaled, FloorQuotient, FormatDecimal128;
  }
}
