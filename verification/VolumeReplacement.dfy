/** Writing a repaired stretch of blocks back into the tables. */
module VolumeReplacement {
  import opened Options
  import opened Decimals
  import opened VolumeMath
  import opened VolumeTotals

  datatype Spot = Spot(asset: int, block: int)

  /** A stored price row; the price is scaled by 10^12. */
  datatype PriceRow = PriceRow(timestamp: int, price: int, volumes: Total, hops: nat)

  type Prices = map<Spot, PriceRow>

  /** The blocks to repair, and the assets if not all of them. */
  datatype Stretch = Stretch(from: int, to: int, assets: Option<set<int>>)

  predicate Covers(t: Stretch, block: int) { t.from <= block <= t.to }

  predicate Matches(t: Stretch, asset: int) { t.assets.None? || asset in t.assets.value }

  /** In a query, an empty list of assets filters nothing. */
  predicate QueryMatches(t: Stretch, asset: int) { t.assets.None? || t.assets.value == {} || asset in t.assets.value }

  function MarketKey(s: Spot): Key { Key(s.asset, s.block, None) }

  /** The repaired market rows of the wanted assets. */
  function Corrected(t: Stretch, rows: map<Key, Entry>): map<Spot, Fields> {
    var spots := set k <- rows.Keys :: Spot(k.asset, k.block);
    map s | s in spots && MarketKey(s) in rows && Matches(t, s.asset) :: rows[MarketKey(s)].fields
  }

  /** The numbers that a row's texts are stored as. */
  function VolumesOf(f: Fields): Total {
    var nb, ns, ub, us := BigIntOf(f.nativeBuy), BigIntOf(f.nativeSell), DecimalToScaled(f.usdBuy),
      DecimalToScaled(f.usdSell);
    if nb.Number? && ns.Number? && ub.Number? && us.Number? then Total(nb.value, ns.value, ub.value, us.value) else ZERO
  }

  lemma StoredTextsAreTotals(v: Total)
    ensures VolumesOf(TextOf(v)) == v
  {
    hide BigIntOf, DecimalToScaled, IntText, FormatDecimal128;
    BigIntRoundTrip(v.nativeBuy);
    BigIntRoundTrip(v.nativeSell);
    ScaledRoundTrip(v.usdBuy);
    ScaledRoundTrip(v.usdSell);
  }

  /** The rows read back: nonzero ones of the stretch, and every corrected asset in every corrected block. */
  predicate IsRead(t: Stretch, prices: Prices, times: map<int, int>, corrected: map<Spot, Fields>, s: Spot) {
    && s in prices && s.block in times
    && ((Covers(t, s.block) && QueryMatches(t, s.asset) && prices[s].volumes != ZERO)
        || ((exists c <- corrected :: c.block == s.block) && (exists c <- corrected :: c.asset == s.asset)))
  }

  function Existing(t: Stretch, prices: Prices, times: map<int, int>, corrected: map<Spot, Fields>): Prices {
    map s | s in prices && IsRead(t, prices, times, corrected, s) :: prices[s].(timestamp := times[s.block])
  }

  predicate IsPriced(existing: Prices, s: Spot) { s in existing && existing[s].price > 0 }

  /** Absent when a corrected row has no positive price; a row without one that is not corrected is dropped. */
  function BuildRepairedPriceRows(existing: Prices, corrected: map<Spot, Fields>): Option<Prices> {
    if exists s <- corrected :: !IsPriced(existing, s) then None
    else
      Some(map s | s in existing && IsPriced(existing, s) ::
             existing[s].(volumes := if s in corrected then VolumesOf(corrected[s]) else ZERO))
  }

  function Replaced(prices: Prices, existing: Prices, corrected: map<Spot, Fields>, written: Prices): Prices {
    (prices - (existing.Keys + corrected.Keys)) + written
  }

  /** Delete every row read or corrected, then insert the repaired ones. */
  function ReplacePrices(t: Stretch, prices: Prices, times: map<int, int>, rows: map<Key, Entry>): Option<Prices> {
    var corrected := Corrected(t, rows);
    var existing := Existing(t, prices, times, corrected);
    var written := BuildRepairedPriceRows(existing, corrected);
    if written.None? then None else Some(Replaced(prices, existing, corrected, written.value))
  }

  function ReplaceAccounts(t: Stretch, accounts: map<Key, Entry>, rows: map<Key, Entry>): map<Key, Entry> {
    (map k | k in accounts && !(Covers(t, k.block) && QueryMatches(t, k.asset)) :: accounts[k])
    + (map k | k in rows && Matches(t, k.asset) :: rows[k])
  }

  /**
   The rows a repair reads back, in terms of what was traded: of a known block, either with a volume inside
   the stretch, or of a wanted asset that was traded somewhere, in a block where one was.
   */
  lemma RowsReadBack(t: Stretch, prices: Prices, times: map<int, int>, ms: Markets, trades: seq<BlockTrade>,
                     rows: map<Key, Entry>, s: Spot)
    requires ValidStretch(t) && IsAggregate(ms, trades, false, rows) && s in prices
    ensures IsRead(t, prices, times, Corrected(t, rows), s) <==>
              && s.block in times
              && ((t.from <= s.block <= t.to && Matches(t, s.asset) && prices[s].volumes != ZERO)
                  || (WasTraded(t, trades, (c: Spot) => c.block == s.block)
                      && WasTraded(t, trades, (c: Spot) => c.asset == s.asset)))
  {
    hide Corrected, FiledCount, IsAggregate, Matches, QueryMatches, WasTraded;
    CorrectedWhereTraded(t, ms, trades, rows, (c: Spot) => c.block == s.block);
    CorrectedWhereTraded(t, ms, trades, rows, (c: Spot) => c.asset == s.asset);
    SameFilter(t, s.asset);
  }

  lemma CorrectedWhereTraded(t: Stretch, ms: Markets, trades: seq<BlockTrade>, rows: map<Key, Entry>, p: Spot -> bool)
    requires IsAggregate(ms, trades, false, rows)
    ensures (exists c <- Corrected(t, rows) :: p(c)) <==> WasTraded(t, trades, p)
  {
    hide Corrected, FiledCount, IsAggregate, Matches;
    if c :| c in Corrected(t, rows) && p(c) {
      CorrectedExactly(t, ms, trades, rows, c);
      assert IsTraded(t, trades, c);
    }
    if WasTraded(t, trades, p) {
      var c :| IsTraded(t, trades, c) && p(c);
      CorrectedExactly(t, ms, trades, rows, c);
      assert c in Corrected(t, rows);
    }
  }

  lemma SameFilter(t: Stretch, asset: int)
    requires ValidStretch(t)
    ensures Matches(t, asset) <==> QueryMatches(t, asset)
  {
  }

  ghost predicate IsTraded(t: Stretch, trades: seq<BlockTrade>, c: Spot) {
    Matches(t, c.asset) && FiledCount(trades, MarketKey(c)) > 0
  }

  ghost predicate WasTraded(t: Stretch, trades: seq<BlockTrade>, p: Spot -> bool) {
    exists c: Spot :: IsTraded(t, trades, c) && p(c)
  }

  // ---------------------------------------------------------------- what the tables hold afterwards

  /** The argument parser refuses an empty list of assets. */
  predicate ValidStretch(t: Stretch) { t.assets.Some? ==> t.assets.value != {} }

  ghost predicate TradesWithin(t: Stretch, trades: seq<BlockTrade>) { forall bt <- trades :: Covers(t, bt.block) }

  lemma {:induction false} FiledWithin(t: Stretch, trades: seq<BlockTrade>, k: Key)
    requires TradesWithin(t, trades) && FiledCount(trades, k) > 0
    ensures Covers(t, k.block)
  {
    var init, last := trades[..|trades|-1], trades[|trades|-1];
    assert last in trades && forall bt <- init :: bt in trades;
    if FiledCount(init, k) > 0 { FiledWithin(t, init, k); }
  }

  lemma CorrectedExactly(t: Stretch, ms: Markets, trades: seq<BlockTrade>, rows: map<Key, Entry>, s: Spot)
    requires IsAggregate(ms, trades, false, rows)
    ensures s in Corrected(t, rows) <==> Matches(t, s.asset) && FiledCount(trades, MarketKey(s)) > 0
    ensures s in Corrected(t, rows) ==> VolumesOf(Corrected(t, rows)[s]) == FiledTotal(ms, trades, MarketKey(s))
    ensures s !in Corrected(t, rows) && Matches(t, s.asset) ==> FiledTotal(ms, trades, MarketKey(s)) == ZERO
  {
    hide FiledTotal, FiledCount, TextOf, VolumesOf;
    var k := MarketKey(s);
    assert k in rows ==> Spot(k.asset, k.block) == s;
    StoredTextsAreTotals(FiledTotal(ms, trades, k));
    if FiledCount(trades, k) == 0 { UnfiledIsWorthNothing(ms, trades, k); }
  }

  /** Rows of the stretch and the wanted assets whose block is known. */
  predicate InScope(t: Stretch, times: map<int, int>, s: Spot) {
    Covers(t, s.block) && Matches(t, s.asset) && s.block in times
  }

  /**
   After a repair every price row in scope holds exactly the recomputed volume, zero where nothing was
   traded, and every other row what it held; prices and hops stay. The rows that disappear are those read
   back without a positive price.
   */
  lemma PricesHoldRecomputedVolumes(t: Stretch, prices: Prices, times: map<int, int>, ms: Markets,
                                    trades: seq<BlockTrade>,
                                    rows: map<Key, Entry>, s: Spot)
    requires ValidStretch(t) && IsAggregate(ms, trades, false, rows) && TradesWithin(t, trades)
    requires ReplacePrices(t, prices, times, rows).Some?
    ensures var after := ReplacePrices(t, prices, times, rows).value;
            && (s in after
                <==> s in prices && !(IsRead(t, prices, times, Corrected(t, rows), s) && prices[s].price <= 0))
            && (s in after ==>
                  && after[s].price == prices[s].price && after[s].hops == prices[s].hops
                  && after[s].volumes == if InScope(t, times, s) then FiledTotal(ms, trades, MarketKey(s))
                    else prices[s].volumes)
  {
    var corrected := Corrected(t, rows);
    CorrectedExactly(t, ms, trades, rows, s);
    if s in corrected { FiledWithin(t, trades, MarketKey(s)); }
    forall c <- corrected ensures Matches(t, c.asset) && Covers(t, c.block) {
      CorrectedExactly(t, ms, trades, rows, c);
      FiledWithin(t, trades, MarketKey(c));
    }
    hide FiledTotal, FiledCount, Corrected, VolumesOf, IsAggregate;
  }

  /** One spot of the table after a repair. */
  lemma ReplacedAt(t: Stretch, prices: Prices, times: map<int, int>, rows: map<Key, Entry>, s: Spot)
    requires ReplacePrices(t, prices, times, rows).Some?
    ensures var corrected, after := Corrected(t, rows), ReplacePrices(t, prices, times, rows).value;
            && (s in corrected ==> IsRead(t, prices, times, corrected, s) && prices[s].price > 0)
            && (s in after <==> s in prices && !(IsRead(t, prices, times, corrected, s) && prices[s].price <= 0))
            && (s in after ==> after[s] == if !IsRead(t, prices, times, corrected, s) then prices[s]
                                           else prices[s].(timestamp := times[s.block],
                                                           volumes := if s in corrected then VolumesOf(corrected[s])
                                                             else ZERO))
  {
    hide Corrected, VolumesOf, IsRead;
    var corrected := Corrected(t, rows);
    if s in corrected { assert IsPriced(Existing(t, prices, times, corrected), s); }
  }

  /** Whether a row is read depends on its own volume and on what is corrected. */
  lemma ReadAlikeAt(t: Stretch, prices: Prices, prices': Prices, times: map<int, int>, corrected: map<Spot, Fields>,
                    s: Spot)
    requires s in prices && s in prices' && (prices'[s].volumes == prices[s].volumes
                                             || IsRead(t, prices, times, corrected, s))
    ensures IsRead(t, prices', times, corrected, s) ==> IsRead(t, prices, times, corrected, s)
    ensures s in corrected && s.block in times ==> IsRead(t, prices', times, corrected, s)
  {
  }

  lemma RefusesExactly(existing: Prices, corrected: map<Spot, Fields>)
    ensures BuildRepairedPriceRows(existing, corrected).None? <==> exists s <- corrected :: !IsPriced(existing, s)
  {
  }

  /** The repair refuses exactly when something was traded of a wanted asset where no positive price is stored. */
  lemma RepairRefusesPricesExactly(t: Stretch, prices: Prices, times: map<int, int>, ms: Markets,
                                   trades: seq<BlockTrade>, rows: map<Key, Entry>)
    requires IsAggregate(ms, trades, false, rows)
    ensures ReplacePrices(t, prices, times, rows).None? <==>
              exists s: Spot :: Matches(t, s.asset) && FiledCount(trades, MarketKey(s)) > 0
                                && !(s in prices && s.block in times && prices[s].price > 0)
  {
    var corrected := Corrected(t, rows);
    var existing := Existing(t, prices, times, corrected);
    RefusesExactly(existing, corrected);
    forall s: Spot
      ensures s in corrected <==> Matches(t, s.asset) && FiledCount(trades, MarketKey(s)) > 0
      ensures s in corrected ==> (IsPriced(existing, s) <==> s in prices && s.block in times && prices[s].price > 0)
    {
      CorrectedExactly(t, ms, trades, rows, s);
      PricedExactly(t, prices, times, corrected, s);
    }
    hide FiledCount, Corrected, IsAggregate, Replaced, Existing, IsPriced, BuildRepairedPriceRows, Matches;
  }

  lemma PricedExactly(t: Stretch, prices: Prices, times: map<int, int>, corrected: map<Spot, Fields>, s: Spot)
    ensures s in corrected ==>
              (IsPriced(Existing(t, prices, times, corrected), s)
               <==> s in prices && s.block in times && prices[s].price > 0)
  {
  }

  lemma RepeatedAt(t: Stretch, prices: Prices, times: map<int, int>, rows: map<Key, Entry>, s: Spot)
    requires ReplacePrices(t, prices, times, rows).Some?
    ensures var corrected, after := Corrected(t, rows), ReplacePrices(t, prices, times, rows).value;
            && (s in corrected ==> IsPriced(Existing(t, after, times, corrected), s))
            && (IsRead(t, after, times, corrected, s) ==>
                  s in after && after[s].price > 0 && after[s].timestamp == times[s.block]
                  && after[s].volumes == if s in corrected then VolumesOf(corrected[s]) else ZERO)
  {
    ReplacedAt(t, prices, times, rows, s);
    var corrected, after := Corrected(t, rows), ReplacePrices(t, prices, times, rows).value;
    assert s in corrected ==> s.block in times;
    if s in after && s in prices { ReadAlikeAt(t, prices, after, times, corrected, s); }
    assert IsRead(t, after, times, corrected, s) ==> s in after;
    hide ReplacePrices, Corrected, VolumesOf, IsRead;
  }

  lemma SecondRepairGoesThrough(t: Stretch, prices: Prices, times: map<int, int>, rows: map<Key, Entry>)
    requires ReplacePrices(t, prices, times, rows).Some?
    ensures ReplacePrices(t, ReplacePrices(t, prices, times, rows).value, times, rows).Some?
  {
    var corrected, after := Corrected(t, rows), ReplacePrices(t, prices, times, rows).value;
    var again := Existing(t, after, times, corrected);
    RefusesExactly(again, corrected);
    forall s <- corrected ensures IsPriced(again, s) {
      RepeatedAt(t, prices, times, rows, s);
    }
    hide Existing, Corrected, IsPriced, BuildRepairedPriceRows, Replaced;
  }

  lemma TwiceAt(t: Stretch, prices: Prices, times: map<int, int>, rows: map<Key, Entry>, s: Spot)
    requires ReplacePrices(t, prices, times, rows).Some?
    requires ReplacePrices(t, ReplacePrices(t, prices, times, rows).value, times, rows).Some?
    ensures var after := ReplacePrices(t, prices, times, rows).value;
            var twice := ReplacePrices(t, after, times, rows).value;
            (s in twice <==> s in after) && (s in twice ==> twice[s] == after[s])
  {
    hide ReplacePrices, Corrected, VolumesOf, IsRead, Existing, IsPriced;
    RepeatedAt(t, prices, times, rows, s);
    ReplacedAt(t, ReplacePrices(t, prices, times, rows).value, times, rows, s);
  }

  /** Repairing again changes nothing. */
  lemma RepairIsIdempotent(t: Stretch, prices: Prices, times: map<int, int>, rows: map<Key, Entry>)
    requires ReplacePrices(t, prices, times, rows).Some?
    ensures ReplacePrices(t, ReplacePrices(t, prices, times, rows).value, times, rows)
         == Some(ReplacePrices(t, prices, times, rows).value)
  {
    hide ReplacePrices;
    SecondRepairGoesThrough(t, prices, times, rows);
    var after := ReplacePrices(t, prices, times, rows).value;
    var twice := ReplacePrices(t, after, times, rows).value;
    forall s: Spot ensures (s in twice <==> s in after) && (s in twice ==> twice[s] == after[s]) {
      TwiceAt(t, prices, times, rows, s);
    }
    assert twice == after;
  }

  /**
   The deletes and the inserts are separate statements. If a repair stops after some of its deletes, the
   next attempt refuses exactly when one of the deleted rows is a corrected one.
   */
  lemma StoppedRepairRefusesExactly(t: Stretch, prices: Prices, times: map<int, int>, rows: map<Key, Entry>,
                                    deleted: set<Spot>)
    requires ReplacePrices(t, prices, times, rows).Some?
    ensures ReplacePrices(t, prices - deleted, times, rows).None? <==> exists s <- Corrected(t, rows) :: s in deleted
  {
    var corrected := Corrected(t, rows);
    var existing, left := Existing(t, prices, times, corrected), Existing(t, prices - deleted, times, corrected);
    RefusesExactly(existing, corrected);
    RefusesExactly(left, corrected);
    forall s: Spot | s in corrected ensures IsPriced(left, s) <==> s !in deleted {
      PricedExactly(t, prices, times, corrected, s);
      PricedExactly(t, prices - deleted, times, corrected, s);
      assert IsPriced(existing, s);
    }
    hide Corrected, Existing, IsPriced, BuildRepairedPriceRows, Replaced;
  }

  /** After a repair the account rows in scope are exactly the recomputed ones; no other row changes. */
  lemma AccountsAreRecomputed(t: Stretch, accounts: map<Key, Entry>, ms: Markets, trades: seq<BlockTrade>,
                              rows: map<Key, Entry>, k: Key)
    requires ValidStretch(t) && IsAggregate(ms, trades, true, rows) && TradesWithin(t, trades)
    ensures var after := ReplaceAccounts(t, accounts, rows);
            if Covers(t, k.block) && Matches(t, k.asset)
            then (k in after <==> k in rows) && (k in after ==> after[k] == rows[k])
            else (k in after <==> k in accounts) && (k in after ==> after[k] == accounts[k])
  {
    if k in rows { FiledWithin(t, trades, k); }
    hide FiledTotal, FiledCount, TextOf;
  }
}
