/** Constant-product pricing in whole numbers, the two price scales around it, and the errors of rounding down. */
module Xyk {
  import opened Arithmetic
  import opened Decimals
  import opened Options

  const PRICE_24_SCALE: nat := 1_000_000_000_000_000_000_000_000

  /** A pool seen from the asset whose price is known. */
  datatype Side = Side(reserve: nat, decimals: nat)

  predicate Priceable(known: Side, unknown: Side) { known.reserve > 0 && unknown.reserve > 0 }

  /** The other asset's price: value in equals value out, rounded down. */
  function ComputePrice(known: Side, unknown: Side, knownPrice: nat): nat
    requires Priceable(known, unknown)
  {
    TimesPositive(unknown.reserve, Pow10(known.decimals));
    FloorDiv(Times(Times(known.reserve, Pow10(unknown.decimals)), knownPrice),
             Times(unknown.reserve, Pow10(known.decimals)))
  }

  /** A reserve at eighteen decimals. */
  function Normalized(s: Side): nat {
    if s.decimals < 18 then Times(s.reserve, Pow10(18 - s.decimals))
    else FloorDiv(s.reserve, Pow10(s.decimals - 18))
  }

  function UsdValue18(normalized: nat, price24: nat): nat {
    FloorDiv(Times(normalized, price24), PRICE_24_SCALE)
  }

  /** The smaller of the two sides' USD values. */
  function PoolLiquidityUsd(known: Side, unknown: Side, knownPrice: nat, computedPrice: nat): nat {
    var knownUsd := UsdValue18(Normalized(known), knownPrice);
    var unknownUsd := UsdValue18(Normalized(unknown), computedPrice);
    if knownUsd < unknownUsd then knownUsd else unknownUsd
  }

  // ---------------------------------------------------------------- there and back

  lemma FloorBounds(a: nat, b: nat)
    requires b > 0
    ensures Times(b, FloorDiv(a, b)) <= a < Times(b, FloorDiv(a, b)) + b
  {
  }

  lemma TimesMonotone(a: nat, x: nat, b: nat, y: nat)
    requires a <= b && x <= y
    ensures Times(a, x) <= Times(b, y)
  {
    assert Times(b, y) == Times(a, x) + a * (y - x) + (b - a) * y;
  }

  lemma QuotientIsLeast(a: nat, b: nat, q: nat)
    requires b > 0 && a < Times(b, q)
    ensures FloorDiv(a, b) < q
  {
    FloorBounds(a, b);
    if FloorDiv(a, b) >= q {
      TimesMonotone(b, q, b, FloorDiv(a, b));
    }
  }

  /**
   With `x` and `y` the two cross-multiplied reserves: back never exceeds the start, and falls short by
   less than 1 + y/x.
   */
  lemma FloorThereAndBack(x: nat, y: nat, p: nat)
    requires x > 0 && y > 0
    ensures var back := FloorDiv(Times(y, FloorDiv(Times(x, p), y)), x); back <= p && x * (p - back) < x + y
  {
    var there := FloorDiv(Times(x, p), y);
    var back := FloorDiv(Times(y, there), x);
    FloorBounds(Times(x, p), y);
    FloorBounds(Times(y, there), x);
    assert Times(x, p + 1) == Times(x, p) + x;
    QuotientIsLeast(Times(y, there), x, p + 1);
    assert x * (p - back) == Times(x, p) - Times(x, back);
  }

  /**
   Pricing A to B and back over one pool never gains, and loses less than
   1 + rB*10^dA / (rA*10^dB).
   */
  lemma PriceThereAndBack(a: Side, b: Side, p: nat)
    requires Priceable(a, b)
    ensures var back := ComputePrice(b, a, ComputePrice(a, b, p));
            var x, y := Times(a.reserve, Pow10(b.decimals)), Times(b.reserve, Pow10(a.decimals));
            back <= p && x * (p - back) < x + y
  {
    hide Times;
    TimesPositive(a.reserve, Pow10(b.decimals));
    TimesPositive(b.reserve, Pow10(a.decimals));
    FloorThereAndBack(Times(a.reserve, Pow10(b.decimals)), Times(b.reserve, Pow10(a.decimals)), p);
  }

  // ---------------------------------------------------------------- conservative liquidity

  lemma TimesAssociates(a: nat, b: nat, c: nat)
    ensures Times(Times(a, b), c) == Times(a, Times(b, c)) && Times(a, b) == Times(b, a)
  {
  }

  /** A normalized reserve, scaled back, never exceeds the reserve at eighteen decimals; it is exact up to eighteen. */
  lemma NormalizedBounds(s: Side)
    ensures Times(Normalized(s), Pow10(s.decimals)) <= Times(s.reserve, Pow10(18))
    ensures s.decimals <= 18 ==> Times(Normalized(s), Pow10(s.decimals)) == Times(s.reserve, Pow10(18))
  {
    if s.decimals < 18 {
      hide Times, Pow10;
      var e := Pow10(18 - s.decimals);
      TimesAssociates(s.reserve, e, Pow10(s.decimals));
      ScaledByMissingDecimals(s.decimals);
    } else if s.decimals == 18 {
      assert Pow10(0) == 1;
      assert FloorDiv(s.reserve, 1) == s.reserve;
    } else {
      hide Times, Pow10, FloorDiv;
      var e := Pow10(s.decimals - 18);
      RoundedUpToScale(s.reserve, e, Pow10(18));
      Pow10Add(s.decimals - 18, 18);
    }
  }

  lemma ScaledByMissingDecimals(d: nat)
    requires d <= 18
    ensures Times(Pow10(18 - d), Pow10(d)) == Pow10(18)
  {
    hide Pow10;
    Pow10Add(18 - d, d);
  }

  lemma RoundedUpToScale(r: nat, e: nat, w: nat)
    requires e > 0
    ensures Times(FloorDiv(r, e), e * w) <= Times(r, w)
  {
    FloorBounds(r, e);
    TimesMonotone(Times(e, FloorDiv(r, e)), w, r, w);
    assert Times(FloorDiv(r, e), e * w) == Times(Times(e, FloorDiv(r, e)), w);
  }

  /**
   `nu`, `nk` normalized, `su`, `sk` the decimal scales, `ru`, `rk` the reserves, `w` the common scale:
   a price `q` that respects the pool's ratio makes the unknown side worth no more than the known one.
   */
  lemma CrossCancel(nu: nat, nk: nat, su: nat, sk: nat, ru: nat, rk: nat, q: nat, p: nat, w: nat)
    requires su > 0 && sk > 0 && ru > 0
    requires Times(nu, su) <= Times(ru, w) && Times(nk, sk) == Times(rk, w)
    requires Times(Times(ru, sk), q) <= Times(Times(rk, su), p)
    ensures Times(nu, q) <= Times(nk, p)
  {
    var common := Times(Times(ru, sk), su);
    TimesPositive(ru, sk);
    TimesPositive(Times(ru, sk), su);
    TimesMonotone(Times(nu, su), Times(Times(ru, sk), q), Times(ru, w), Times(Times(rk, su), p));
    Rearranged(nu, su, ru, sk, q);
    Rearranged'(nk, sk, rk, ru, su, p, w);
    assert Times(Times(nk, p) + 1, common) == Times(Times(nk, p), common) + common;
    if Times(nu, q) > Times(nk, p) {
      TimesMonotone(Times(nk, p) + 1, common, Times(nu, q), common);
    }
  }

  lemma Rearranged(nu: nat, su: nat, ru: nat, sk: nat, q: nat)
    ensures Times(Times(nu, su), Times(Times(ru, sk), q)) == Times(Times(nu, q), Times(Times(ru, sk), su))
  {
    var x := Times(ru, sk);
    assert (nu * su) * (x * q) == (nu * q) * (x * su);
  }

  lemma Rearranged'(nk: nat, sk: nat, rk: nat, ru: nat, su: nat, p: nat, w: nat)
    requires Times(nk, sk) == Times(rk, w)
    ensures Times(Times(ru, w), Times(Times(rk, su), p)) == Times(Times(nk, p), Times(Times(ru, sk), su))
  {
    var x := Times(rk, w);
    assert (ru * w) * ((rk * su) * p) == (rk * w) * ((ru * su) * p);
    assert (nk * sk) * ((ru * su) * p) == (nk * p) * ((ru * sk) * su);
  }

  lemma FloorMonotone(a: nat, b: nat, c: nat)
    requires a <= b && c > 0
    ensures FloorDiv(a, c) <= FloorDiv(b, c)
  {
    FloorBounds(b, c);
    assert Times(c, FloorDiv(b, c) + 1) == Times(c, FloorDiv(b, c)) + c;
    QuotientIsLeast(a, c, FloorDiv(b, c) + 1);
  }

  /** The computed side claims no more USD than the known one. */
  predicate Conservative(known: Side, unknown: Side, p: nat)
    requires Priceable(known, unknown)
  {
    UsdValue18(Normalized(unknown), ComputePrice(known, unknown, p)) <= UsdValue18(Normalized(known), p)
  }

  /** It does when the known asset has at most eighteen decimals, so the pool is worth what its computed side is. */
  lemma ComputedSideIsConservative(known: Side, unknown: Side, p: nat)
    requires Priceable(known, unknown) && known.decimals <= 18
    ensures Conservative(known, unknown, p)
    ensures PoolLiquidityUsd(known, unknown, p, ComputePrice(known, unknown, p))
         == UsdValue18(Normalized(unknown), ComputePrice(known, unknown, p))
  {
    hide Times, FloorDiv, Normalized, Pow10;
    var q := ComputePrice(known, unknown, p);
    NormalizedBounds(known);
    NormalizedBounds(unknown);
    TimesPositive(unknown.reserve, Pow10(known.decimals));
    FloorBounds(Times(Times(known.reserve, Pow10(unknown.decimals)), p), Times(unknown.reserve, Pow10(known.decimals)));
    CrossCancel(Normalized(unknown), Normalized(known), Pow10(unknown.decimals), Pow10(known.decimals),
                unknown.reserve, known.reserve, q, p, Pow10(18));
    FloorMonotone(Times(Normalized(unknown), q), Times(Normalized(known), p), PRICE_24_SCALE);
  }

  /** Past eighteen decimals a reserve can normalize to nothing while the price it sets is large. */
  lemma MoreDecimalsOverstate(d: nat)
    requires d > 18
    ensures var e := Pow10(d - 18);
            e >= 10 && !Conservative(Side(e - 1, d), Side(1, 18), e * PRICE_24_SCALE)
  {
    var e := Pow10(d - 18);
    assert e >= 10 by { assert Pow10(d - 18) == 10 * Pow10(d - 19); }
    assert Pow10(d) == e * Pow10(18) by {
      hide Pow10;
      Pow10Add(d - 18, 18);
    }
    assert Pow10(0) == 1;
    hide Pow10;
    RestOfQuotient(e, Pow10(18));
    assert Normalized(Side(1, 18)) == 1;
    assert Normalized(Side(e - 1, d)) == 0;
    Exact(e - 1, PRICE_24_SCALE);
    assert UsdValue18(0, e * PRICE_24_SCALE) == 0;
  }

  lemma RestOfQuotient(e: nat, w: nat)
    requires e >= 10 && w > 0
    ensures FloorDiv(e - 1, e) == 0
    ensures FloorDiv(Times(Times(e - 1, w), e * PRICE_24_SCALE), Times(1, e * w)) == (e - 1) * PRICE_24_SCALE
  {
    assert Times(Times(e - 1, w), e * PRICE_24_SCALE) == ((e - 1) * PRICE_24_SCALE) * (e * w);
    Exact((e - 1) * PRICE_24_SCALE, e * w);
  }

  /** Over all reserves, other sides and prices, the computed side is conservative exactly up to eighteen decimals. */
  lemma ConservativeExactly(d: nat)
    ensures (forall known: Side, unknown: Side, p: nat | known.decimals == d && Priceable(known, unknown) ::
             Conservative(known, unknown, p))
       <==> d <= 18
  {
    hide Conservative;
    if d <= 18 {
      forall known: Side, unknown: Side, p: nat | known.decimals == d && Priceable(known, unknown)
        ensures Conservative(known, unknown, p)
      {
        ComputedSideIsConservative(known, unknown, p);
      }
    } else {
      MoreDecimalsOverstate(d);
    }
  }

  lemma Exact(q: nat, b: nat)
    requires b > 0
    ensures FloorDiv(q * b, b) == q
  {
  }

  // ---------------------------------------------------------------- the two price scales

  /** The 24-decimal number of a price text, whose decimals are padded to twelve and not cut. */
  function PriceTo24(price: string): Parsed {
    var (whole, fraction) := SplitDot(price);
    var digits := whole + PadEnd(fraction, 12);
    if AllDigits(digits) then Number(ValueOf(digits) * TRILLION) else NotANumber
  }

  /** The twelve-decimal text of a 24-decimal number, rounded down. */
  function Price24ToString(p: nat): string {
    var s := PadStart(Digits(p / TRILLION), 13);
    PadStartLongEnough(Digits(p / TRILLION), 13);
    s[..|s|-12] + "." + s[|s|-12..]
  }

  lemma PadStartLongEnough(s: string, width: nat)
    ensures |PadStart(s, width)| >= width
  {
    if |s| < width { ZerosDenote(width - |s|); }
  }

  /** A whole part without leading zeros, a dot, and exactly twelve decimals. */
  predicate CanonicalPrice(s: string) {
    var (whole, fraction) := SplitDot(s);
    Shortest(whole) && AllDigits(fraction) && |fraction| == 12 && s == whole + "." + fraction
  }

  lemma DigitsAreShortest(n: nat)
    ensures Shortest(Digits(n))
  {
    DigitsDenote(n);
    assert Digits(0) == "0";
  }

  lemma SmallPaddedSplits(t: nat)
    requires t < TRILLION
    ensures PadStart(Digits(t), 13) == Digits(t / TRILLION) + PadStart(Digits(t % TRILLION), 12)
  {
    assert t / TRILLION == 0 && t % TRILLION == t;
    assert Digits(0) == "0";
    TrillionIsPow10();
    assert Pow10(13) == 10 * Pow10(12);
    WholeAndFraction(t);
    PaddedDenotes(t, 13);
    hide Digits, ValueOf, PadStart, Pow10;
    SameWidthSameValue(PadStart(Digits(t), 13), Digits(0) + PadStart(Digits(t), 12));
  }

  /** Padding to thirteen digits leaves the whole part and the twelve decimals side by side. */
  lemma PaddedSplits(t: nat)
    ensures PadStart(Digits(t), 13) == Digits(t / TRILLION) + PadStart(Digits(t % TRILLION), 12)
  {
    if t < TRILLION {
      SmallPaddedSplits(t);
    } else {
      var whole, fraction := Digits(t / TRILLION), PadStart(Digits(t % TRILLION), 12);
      assert |whole + fraction| >= 13 ==> PadStart(whole + fraction, 13) == whole + fraction;
      WholeAndFraction(t);
      DigitsDenote(t / TRILLION);
      hide Digits, ValueOf, PadStart;
      assert (whole + fraction)[0] == whole[0];
      ShortestIsDigits(whole + fraction);
    }
  }

  /** Texts survive the trip through 24 decimals. */
  lemma PriceTextRoundTrip(s: string)
    requires CanonicalPrice(s)
    ensures PriceTo24(s).Number? && PriceTo24(s).value >= 0 && Price24ToString(PriceTo24(s).value) == s
  {
    hide Digits, ValueOf, PadStart;
    var (whole, fraction) := SplitDot(s);
    ValueJoin(whole, fraction);
    ValueBelow(fraction);
    TrillionIsPow10();
    var t := ValueOf(whole + fraction);
    assert (t * TRILLION) / TRILLION == t;
    assert t / TRILLION == ValueOf(whole) && t % TRILLION == ValueOf(fraction);
    PaddedSplits(t);
    ShortestIsDigits(whole);
    PaddedDenotes(ValueOf(fraction), 12);
    SameWidthSameValue(PadStart(Digits(ValueOf(fraction)), 12), fraction);
    var padded := PadStart(Digits(t), 13);
    assert padded == whole + fraction;
    assert padded[..|padded|-12] == whole && padded[|padded|-12..] == fraction;
  }

  /** Numbers lose exactly what is below the twelfth decimal. */
  lemma PriceNumberRoundTrip(p: nat)
    ensures CanonicalPrice(Price24ToString(p))
    ensures PriceTo24(Price24ToString(p)) == Number(p - p % TRILLION)
  {
    hide Digits, ValueOf, PadStart;
    var t := p / TRILLION;
    var whole, fraction := Digits(t / TRILLION), PadStart(Digits(t % TRILLION), 12);
    PaddedSplits(t);
    WholeAndFraction(t);
    DigitsAreShortest(t / TRILLION);
    SplitAtDot(whole, fraction);
    var padded := PadStart(Digits(t), 13);
    assert padded[..|padded|-12] == whole && padded[|padded|-12..] == fraction;
    assert Price24ToString(p) == whole + "." + fraction;
    assert PadEnd(fraction, 12) == fraction;
    assert t * TRILLION == p - p % TRILLION;
  }

  /** A price text survives the trip exactly when it is canonical. */
  lemma PriceTextSurvivesExactly(s: string)
    requires PriceTo24(s).Number?
    ensures PriceTo24(s).value >= 0
    ensures Price24ToString(PriceTo24(s).value) == s <==> CanonicalPrice(s)
  {
    assert PriceTo24(s).value >= 0;
    hide PriceTo24, Price24ToString, CanonicalPrice;
    PriceNumberRoundTrip(PriceTo24(s).value);
    if CanonicalPrice(s) { PriceTextRoundTrip(s); }
  }
}
