/** The repair over a stretch of stored blocks, and its agreement with the live pipeline, row for row. */
module VolumeRepair {
  import opened Options
  import opened Decimals
  import opened VolumeMath
  import opened SwapDecoding
  import opened LegValue
  import opened VolumeTotals
  import opened VolumeRows
  import opened VolumeLive

  datatype BlockEvent = BlockEvent(block: int, event: Event)

  /** Which stored events the repair reads: the switch to unified events is a block height here. */
  predicate IsRead(be: BlockEvent, unifiedFrom: int) {
    if be.block < unifiedFrom then be.event.name in LEGACY_SELLS + LEGACY_BUYS else be.event.name in BROADCASTS
  }

  /** Trades without any leg are dropped. */
  function TradeOf(be: BlockEvent, unifiedFrom: int): Option<Trade> {
    var decoded := DecodeRepair(be.event);
    if IsRead(be, unifiedFrom) && decoded.Some? && (decoded.value.inputs != [] || decoded.value.outputs != [])
      then decoded else None
  }

  function TradesRepair(events: seq<BlockEvent>, unifiedFrom: int): seq<BlockTrade> {
    if events == [] then []
    else
      var init, last := TradesRepair(events[..|events|-1], unifiedFrom), events[|events|-1];
      if TradeOf(last, unifiedFrom).Some? then init + [BlockTrade(last.block, TradeOf(last, unifiedFrom).value)]
        else init
  }

  predicate Refused(leg: Leg, m: Market, priced: set<int>) {
    LegUsdRepair(CanonicalLeg(leg, leg.asset), m, priced).None?
  }

  predicate AnyRefused(legs: seq<Leg>, m: Market, priced: set<int>) {
    exists l <- legs :: Refused(l, m, priced)
  }

  predicate TradeRefused(t: Trade, m: Market, priced: set<int>) {
    AnyRefused(t.inputs, m, priced) || AnyRefused(t.outputs, m, priced)
  }

  lemma RefusalStep(legs: seq<Leg>, leg: Leg, m: Market, priced: set<int>)
    ensures AnyRefused(legs + [leg], m, priced) <==> AnyRefused(legs, m, priced) || Refused(leg, m, priced)
  {
    hide Refused;
    assert leg in legs + [leg];
    assert forall l <- legs :: l in legs + [leg];
  }

  lemma RefusalOfPart(legs: seq<Leg>, i: nat, m: Market, priced: set<int>)
    requires i < |legs| && Refused(legs[i], m, priced)
    ensures AnyRefused(legs, m, priced)
  {
    hide Refused;
    assert legs[i] in legs;
  }

  /** One side of a trade goes into the asset rows and, when there is a trader, into the trader's rows. */
  method SumLegsRepair(prices: AssetRows, trades: AssetRows, ghost priceTotals: map<int, Total>,
                       ghost tradeTotals: map<int, Total>,
                       hasAccount: bool, legs: seq<Leg>, opposing: seq<Leg>, m: Market, priced: set<int>, sell: bool)
    returns (ok: bool, prices': AssetRows, trades': AssetRows, ghost priceSums: map<int, Total>,
             ghost tradeSums: map<int, Total>)
    requires ValidPrices(m) && Holds(prices, priceTotals) && Holds(trades, tradeTotals)
    ensures ok <==> !AnyRefused(legs, m, priced)
    ensures Holds(prices', priceSums) && Holds(trades', tradeSums)
    ensures ok ==> Summed(priceTotals, priceSums, m, legs, sell)
    ensures ok && hasAccount ==> Summed(tradeTotals, tradeSums, m, legs, sell)
  {
    hide Holds, Summed, ValidPrices, LegUsdRepair, AnyRefused;
    ok, prices', trades', priceSums, tradeSums := true, prices, trades, priceTotals, tradeTotals;
    NothingSummed(priceTotals, m, sell);
    NothingSummed(tradeTotals, m, sell);
    NoneRefused(m, priced);
    assert legs[..0] == [];
    for i := 0 to |legs|
      invariant ok && !AnyRefused(legs[..i], m, priced)
      invariant Holds(prices', priceSums) && Holds(trades', tradeSums)
      invariant Summed(priceTotals, priceSums, m, legs[..i], sell)
      invariant hasAccount ==> Summed(tradeTotals, tradeSums, m, legs[..i], sell)
    {
      var leg := CanonicalLegs(legs)[i];
      NoLegIsSelfConversion(legs, opposing, i);
      assert legs[..i+1] == legs[..i] + [legs[i]];
      RefusalStep(legs[..i], legs[i], m, priced);
      if !IsSelfConversion(leg, CanonicalLegs(opposing)) {
        var usd := LegUsdRepair(leg, m, priced);
        if usd.None? {
          RefusalOfPart(legs, i, m, priced);
          ok := false;
          return;
        }
        RepairIsWorth(legs[i], m, priced);
        SummedStep(priceTotals, priceSums, m, legs[..i], legs[i], sell);
        prices', priceSums := AddToRow(prices', priceSums, leg.canonical, sell, leg.leg.amount, usd.value,
                                       Worth(legs[i], m));
        if hasAccount {
          SummedStep(tradeTotals, tradeSums, m, legs[..i], legs[i], sell);
          trades', tradeSums := AddToRow(trades', tradeSums, leg.canonical, sell, leg.leg.amount, usd.value,
                                         Worth(legs[i], m));
        }
      }
    }
    assert legs[..|legs|] == legs;
  }

  lemma NoneRefused(m: Market, priced: set<int>)
    ensures !AnyRefused([], m, priced)
  {
  }

  datatype TradeRows = TradeRows(priceRows: seq<Row>, tradeRows: seq<Row>)

  method RowsForTrade(t: Trade, block: int, m: Market, priced: set<int>, ghost ms: Markets)
    returns (r: Option<TradeRows>, ghost priceTotals: seq<Total>, ghost tradeTotals: seq<Total>)
    requires ValidPrices(m) && ms(block) == m
    ensures r.None? <==> TradeRefused(t, m, priced)
    ensures r.Some? ==> Covers(r.value.priceRows, priceTotals, ms, [BlockTrade(block, t)], false)
    ensures r.Some? ==> Covers(r.value.tradeRows, tradeTotals, ms, [BlockTrade(block, t)], true)
  {
    hide Covers, Summed, ValidPrices, HoldsAsset, AnyRefused;
    r, priceTotals, tradeTotals := None, [], [];
    var okIn, pricesIn, tradesIn, pIn, tIn :=
      SumLegsRepair(NO_ROWS, NO_ROWS, map[], map[], t.account.Some?, t.inputs, t.outputs, m, priced, true);
    if !okIn { return; }
    var okOut, prices, trades, p, q :=
      SumLegsRepair(pricesIn, tradesIn, pIn, tIn, t.account.Some?, t.outputs, t.inputs, m, priced, false);
    if !okOut { return; }
    BothSides(prices, pIn, p, m, t);
    RowsCoverTrade(prices, p, ms, BlockTrade(block, t), None);
    priceTotals := TotalsOf(prices, p);
    if t.account.Some? {
      BothSides(trades, tIn, q, m, t);
      RowsCoverTrade(trades, q, ms, BlockTrade(block, t), t.account);
      tradeTotals := TotalsOf(trades, q);
      r := Some(TradeRows(RowsOf(prices, block, None), RowsOf(trades, block, t.account)));
    } else {
      AnonymousHasNoAccountRows(ms, BlockTrade(block, t));
      r := Some(TradeRows(RowsOf(prices, block, None), []));
    }
  }

  /** The stored prices and snapshot decimals, by block. */
  function MarketsOf(stored: map<int, Market>): Markets {
    b => if b in stored then stored[b] else Market(map[], map[])
  }

  /** The repair fails on a block without a snapshot, and on a leg it refuses to value. */
  predicate Fails(bt: BlockTrade, stored: map<int, Market>, priced: set<int>) {
    bt.block !in stored || TradeRefused(bt.trade, stored[bt.block], priced)
  }

  datatype Repaired = Repaired(prices: map<Key, Entry>, trades: map<Key, Entry>)

  lemma TradesRepairStep(events: seq<BlockEvent>, i: nat, unifiedFrom: int)
    requires i < |events|
    ensures TradesRepair(events[..i+1], unifiedFrom)
         == if TradeOf(events[i], unifiedFrom).Some?
            then TradesRepair(events[..i], unifiedFrom) + [BlockTrade(events[i].block,
                                                                      TradeOf(events[i], unifiedFrom).value)]
            else TradesRepair(events[..i], unifiedFrom)
  {
    assert events[..i+1][..i] == events[..i];
  }

  lemma {:induction false} TradesRepairGrows(events: seq<BlockEvent>, i: nat, unifiedFrom: int, bt: BlockTrade)
    requires i <= |events| && bt in TradesRepair(events[..i], unifiedFrom)
    ensures bt in TradesRepair(events, unifiedFrom)
    decreases |events| - i
  {
    hide TradeOf, TradesRepair;
    if i == |events| {
      assert events[..i] == events;
    } else {
      TradesRepairStep(events, i, unifiedFrom);
      TradesRepairGrows(events, i + 1, unifiedFrom, bt);
    }
  }

  lemma NoTradesRepair(unifiedFrom: int)
    ensures TradesRepair([], unifiedFrom) == []
  {
  }

  method RepairChunk(events: seq<BlockEvent>, unifiedFrom: int, stored: map<int, Market>, priced: set<int>)
    returns (r: Option<Repaired>)
    requires forall b <- stored :: ValidPrices(stored[b])
    ensures r.None? <==> exists bt <- TradesRepair(events, unifiedFrom) :: Fails(bt, stored, priced)
    ensures r.Some? ==> IsAggregate(MarketsOf(stored), TradesRepair(events, unifiedFrom), false, r.value.prices)
    ensures r.Some? ==> IsAggregate(MarketsOf(stored), TradesRepair(events, unifiedFrom), true, r.value.trades)
  {
    hide Covers, TradeOf, TradesRepair, ValidPrices, IsAggregate, TradeRefused;
    ghost var ms := MarketsOf(stored);
    var priceRows: seq<Row>, tradeRows: seq<Row> := [], [];
    ghost var priceTotals: seq<Total>, tradeTotals: seq<Total> := [], [];
    NoTradesRepair(unifiedFrom);
    NothingCovers(ms, false);
    NothingCovers(ms, true);
    assert events[..0] == [];
    for i := 0 to |events|
      invariant Covers(priceRows, priceTotals, ms, TradesRepair(events[..i], unifiedFrom), false)
      invariant Covers(tradeRows, tradeTotals, ms, TradesRepair(events[..i], unifiedFrom), true)
      invariant forall bt <- TradesRepair(events[..i], unifiedFrom) :: !Fails(bt, stored, priced)
    {
      TradesRepairStep(events, i, unifiedFrom);
      var trade := TradeOf(events[i], unifiedFrom);
      if trade.Some? {
        ghost var bt, before := BlockTrade(events[i].block, trade.value), TradesRepair(events[..i], unifiedFrom);
        TradesRepairGrows(events, i + 1, unifiedFrom, bt);
        if events[i].block !in stored { return None; }
        var rows, priceMore, tradeMore := RowsForTrade(trade.value, events[i].block, stored[events[i].block], priced,
                                                       ms);
        if rows.None? { return None; }
        CoversAppend(priceRows, priceTotals, rows.value.priceRows, priceMore, ms, before, bt, false);
        CoversAppend(tradeRows, tradeTotals, rows.value.tradeRows, tradeMore, ms, before, bt, true);
        priceRows, priceTotals := priceRows + rows.value.priceRows, priceTotals + priceMore;
        tradeRows, tradeTotals := tradeRows + rows.value.tradeRows, tradeTotals + tradeMore;
      }
    }
    assert events[..|events|] == events;
    var prices := AggregateCovering(priceRows, priceTotals, ms, TradesRepair(events, unifiedFrom), false);
    var trades := AggregateCovering(tradeRows, tradeTotals, ms, TradesRepair(events, unifiedFrom), true);
    r := Some(Repaired(prices, trades));
  }

  // ---------------------------------------------------------------- repair equals live

  /** The same prices, whatever their texts: the live texts keep trailing zeros that the stored ones drop. */
  ghost predicate SameMarket(l: Market, m: Market) {
    l.decimals == m.decimals && forall a :: SamePrice(l, m, a)
  }

  ghost predicate SamePrice(l: Market, m: Market, a: int) {
    && (HasPositivePrice(l, a) <==> HasPositivePrice(m, a))
    && (HasPositivePrice(l, a) ==> PriceToDecimal128(l.prices[a]) == PriceToDecimal128(m.prices[a]))
  }

  lemma {:induction false} SameLegs(l: Market, m: Market, legs: seq<Leg>, sell: bool, asset: int)
    requires SameMarket(l, m)
    ensures LegsTotal(l, legs, sell, asset) == LegsTotal(m, legs, sell, asset)
  {
    if legs != [] {
      hide PriceToDecimal128;
      SameLegs(l, m, legs[..|legs|-1], sell, asset);
      assert SamePrice(l, m, legs[|legs|-1].asset);
      assert Worth(legs[|legs|-1], l) == Worth(legs[|legs|-1], m);
    }
  }

  /** The events of one block. */
  function EventsAt(events: seq<BlockEvent>, block: int): seq<Event> {
    if events == [] then []
    else
      EventsAt(events[..|events|-1], block) + (if events[|events|-1].block == block then [events[|events|-1].event]
                                               else [])
  }

  lemma SwitchesAgree(be: BlockEvent, spec: nat, unifiedFrom: int)
    requires spec >= 124 <==> be.block >= unifiedFrom
    ensures IsRead(be, unifiedFrom) == IsSwapEvent(be.event.name, spec)
  {
    hide LEGACY_SELLS, LEGACY_BUYS, BROADCASTS;
  }

  predicate HasLegs(t: Trade) { t.inputs != [] || t.outputs != [] }

  /** What only the repair makes of an event: no codec of the block's runtime matches it. */
  function MissedTrade(e: Event, spec: nat): Option<Trade> {
    var decoded := DecodeRepair(e);
    if IsSwapEvent(e.name, spec) && !ReadAlike(e) && decoded.Some? && HasLegs(decoded.value) then decoded else None
  }

  /** The trades of a block that only the repair files. */
  function Missed(events: seq<BlockEvent>, block: int, spec: nat): seq<BlockTrade> {
    if events == [] then []
    else
      var init, last := Missed(events[..|events|-1], block, spec), events[|events|-1];
      var trade := MissedTrade(last.event, spec);
      if last.block == block && trade.Some? then init + [BlockTrade(block, trade.value)] else init
  }

  /** Of a swap event of the block: the decoders agree on it, or it has no legs to file. */
  predicate FiledAlike(e: Event) {
    ReadAlike(e) || (e.args.Fill? && e.args.inputs == [] && e.args.outputs == [])
  }

  ghost predicate BlockFiledAlike(events: seq<BlockEvent>, block: int, spec: nat) {
    forall be <- events :: be.block == block && IsSwapEvent(be.event.name, spec) ==> FiledAlike(be.event)
  }

  lemma MissedExactly(e: Event, spec: nat)
    ensures MissedTrade(e, spec).None? <==> (IsSwapEvent(e.name, spec) ==> FiledAlike(e))
  {
    if IsSwapEvent(e.name, spec) {
      DecodersAgreeExactly(e);
      if e.name in BROADCASTS { BroadcastNames(e.name); }
    }
  }

  lemma {:induction false} NoneMissedExactly(events: seq<BlockEvent>, block: int, spec: nat)
    ensures Missed(events, block, spec) == [] <==> BlockFiledAlike(events, block, spec)
    ensures forall bt <- Missed(events, block, spec) :: bt.block == block && HasLegs(bt.trade)
  {
    if events != [] {
      var init, last := events[..|events|-1], events[|events|-1];
      assert events == init + [last];
      NoneMissedExactly(init, block, spec);
      hide FiledAlike, IsSwapEvent, DecodeRepair, ReadAlike;
      MissedExactly(last.event, spec);
    }
  }

  lemma TradeAlike(be: BlockEvent, spec: nat, unifiedFrom: int)
    requires spec >= 124 <==> be.block >= unifiedFrom
    ensures TradeOf(be, unifiedFrom)
         == if IsSwapEvent(be.event.name, spec) && DecodeLive(be.event).Some?
            then (if HasLegs(DecodeLive(be.event).value) then DecodeLive(be.event) else None)
            else MissedTrade(be.event, spec)
    ensures IsSwapEvent(be.event.name, spec) && DecodeLive(be.event).Some? ==> MissedTrade(be.event, spec).None?
  {
    SwitchesAgree(be, spec, unifiedFrom);
    if IsSwapEvent(be.event.name, spec) { DecodersAgreeExactly(be.event); }
    hide IsRead, IsSwapEvent, DecodeLive, DecodeRepair, ReadAlike;
  }

  lemma LeglessTrade(ms: Markets, bt: BlockTrade, asset: int)
    requires !HasLegs(bt.trade)
    ensures asset !in Assets(bt.trade) && Volume(ms, bt, asset) == ZERO
  {
    PlusLaws(ZERO, ZERO, ZERO);
  }

  lemma SameVolume(ms: Markets, ls: Markets, bt: BlockTrade, asset: int)
    requires SameMarket(ms(bt.block), ls(bt.block))
    ensures Volume(ms, bt, asset) == Volume(ls, bt, asset)
  {
    SameLegs(ms(bt.block), ls(bt.block), bt.trade.inputs, true, asset);
    SameLegs(ms(bt.block), ls(bt.block), bt.trade.outputs, false, asset);
  }

  /** The repair files what the live pipeline files, and the missed trades on top. */
  ghost predicate FiledWith(ms: Markets, repaired: seq<BlockTrade>, ls: Markets, live: seq<BlockTrade>,
                            missed: seq<BlockTrade>, k: Key) {
    && FiledTotal(ms, repaired, k) == Plus(FiledTotal(ls, live, k), FiledTotal(ms, missed, k))
    && FiledCount(repaired, k) == FiledCount(live, k) + FiledCount(missed, k)
  }

  lemma FilingStep(ms: Markets, repaired: seq<BlockTrade>, ls: Markets, live: seq<BlockTrade>, missed: seq<BlockTrade>,
                   bt: BlockTrade, k: Key)
    requires FiledWith(ms, repaired, ls, live, missed, k)
    ensures !Files(bt, k) ==> FiledWith(ms, repaired + [bt], ls, live, missed, k)
    ensures !HasLegs(bt.trade) ==> FiledWith(ms, repaired, ls, live + [bt], missed, k)
    ensures SameMarket(ms(bt.block), ls(bt.block)) ==> FiledWith(ms, repaired + [bt], ls, live + [bt], missed, k)
    ensures FiledWith(ms, repaired + [bt], ls, live, missed + [bt], k)
  {
    FiledAppend(ms, repaired, bt, k);
    FiledAppend(ls, live, bt, k);
    FiledAppend(ms, missed, bt, k);
    hide FiledTotal, FiledCount, Volume, Assets, HasLegs, SameMarket, Plus;
    var l, m, v := FiledTotal(ls, live, k), FiledTotal(ms, missed, k), Volume(ms, bt, k.asset);
    PlusLaws(l, m, v);
    PlusLaws(l, v, m);
    PlusLaws(v, m, l);
    if !HasLegs(bt.trade) { LeglessTrade(ls, bt, k.asset); }
    if SameMarket(ms(bt.block), ls(bt.block)) { SameVolume(ms, ls, bt, k.asset); }
  }

  /** Decoding, filtering and filing a block's events by either pipeline. */
  lemma {:induction false} RepairFilesMissedToo(events: seq<BlockEvent>, unifiedFrom: int, spec: nat, ms: Markets,
                                                ls: Markets, k: Key)
    requires (spec >= 124 <==> k.block >= unifiedFrom) && SameMarket(ms(k.block), ls(k.block))
    ensures FiledWith(ms, TradesRepair(events, unifiedFrom), ls, TradesLive(EventsAt(events, k.block), k.block, spec),
                      Missed(events, k.block, spec), k)
  {
    if events == [] {
      NothingFiledWith(ms, ls, unifiedFrom, spec, k);
    } else {
      hide FiledWith, TradesRepair, TradesLive, EventsAt, Missed, SameMarket;
      var init, last := events[..|events|-1], events[|events|-1];
      assert events == init + [last];
      RepairFilesMissedToo(init, unifiedFrom, spec, ms, ls, k);
      EventStep(events, init, last, unifiedFrom, spec, ms, ls, k);
    }
  }

  lemma NothingFiledWith(ms: Markets, ls: Markets, unifiedFrom: int, spec: nat, k: Key)
    ensures FiledWith(ms, TradesRepair([], unifiedFrom), ls, TradesLive(EventsAt([], k.block), k.block, spec),
                      Missed([], k.block, spec), k)
  {
    NoTradesRepair(unifiedFrom);
    NoTradesLive(k.block, spec);
    NoneMissed(k.block, spec);
    NothingFiled(ms, k);
    NothingFiled(ls, k);
    assert EventsAt([], k.block) == [];
    PlusLaws(ZERO, ZERO, ZERO);
    hide TradesRepair, TradesLive, Missed, FiledTotal, FiledCount, EventsAt;
  }

  lemma NoneMissed(block: int, spec: nat)
    ensures Missed([], block, spec) == []
  {
  }

  lemma EventStep(events: seq<BlockEvent>, init: seq<BlockEvent>, last: BlockEvent, unifiedFrom: int, spec: nat,
                  ms: Markets, ls: Markets, k: Key)
    requires events == init + [last] && (spec >= 124 <==> k.block >= unifiedFrom)
      && SameMarket(ms(k.block), ls(k.block))
    requires FiledWith(ms, TradesRepair(init, unifiedFrom), ls, TradesLive(EventsAt(init, k.block), k.block, spec),
                       Missed(init, k.block, spec), k)
    ensures FiledWith(ms, TradesRepair(events, unifiedFrom), ls, TradesLive(EventsAt(events, k.block), k.block, spec),
                      Missed(events, k.block, spec), k)
  {
    hide FiledWith, TradesRepair, TradesLive, TradeOf, DecodeLive, IsSwapEvent, SameMarket, HasLegs, MissedTrade;
    assert events[..|init|] == init && events[..|init|+1] == events;
    TradesRepairStep(events, |init|, unifiedFrom);
    var at := EventsAt(init, k.block);
    var repaired, live, missed := TradesRepair(init, unifiedFrom), TradesLive(at, k.block, spec),
      Missed(init, k.block, spec);
    if last.block != k.block {
      assert EventsAt(events, k.block) == at;
      if TradeOf(last, unifiedFrom).Some? {
        FilingStep(ms, repaired, ls, live, missed, BlockTrade(last.block, TradeOf(last, unifiedFrom).value), k);
      }
    } else {
      assert EventsAt(events, k.block) == at + [last.event];
      var events' := at + [last.event];
      assert events'[..|at|] == at && events'[..|at|+1] == events';
      TradesLiveStep(events', |at|, k.block, spec);
      TradeAlike(last, spec, unifiedFrom);
      if IsSwapEvent(last.event.name, spec) && DecodeLive(last.event).Some? {
        FilingStep(ms, repaired, ls, live, missed, BlockTrade(k.block, DecodeLive(last.event).value), k);
      } else if MissedTrade(last.event, spec).Some? {
        FilingStep(ms, repaired, ls, live, missed, BlockTrade(k.block, MissedTrade(last.event, spec).value), k);
      }
    }
  }

  function SomeAsset(t: Trade): (a: int)
    requires HasLegs(t)
    ensures a in Assets(t)
  {
    if t.inputs != [] then assert t.inputs[0] in t.inputs; t.inputs[0].asset
    else assert t.outputs[0] in t.outputs; t.outputs[0].asset
  }

  /** Market and account volumes by key, as the two pipelines see the same events. */
  ghost predicate SameFiling(ms: Markets, repaired: seq<BlockTrade>, ls: Markets, live: seq<BlockTrade>, k: Key) {
    FiledTotal(ms, repaired, k) == FiledTotal(ls, live, k) && FiledCount(repaired, k) == FiledCount(live, k)
  }

  lemma SameFilingAt(ms: Markets, repaired: seq<BlockTrade>, ls: Markets, live: seq<BlockTrade>,
                     missed: seq<BlockTrade>, k: Key)
    requires FiledWith(ms, repaired, ls, live, missed, k)
    ensures SameFiling(ms, repaired, ls, live, k) <==> FiledCount(missed, k) == 0
  {
    hide FiledTotal, FiledCount, Plus;
    if FiledCount(missed, k) == 0 { UnfiledIsWorthNothing(ms, missed, k); }
    PlusLaws(FiledTotal(ls, live, k), ZERO, ZERO);
  }

  /**
   The two pipelines file a block's events alike under every key exactly when each swap event of the block
   has a codec, a shape of no use to either decoder, or no legs.
   */
  lemma SameEventsSameFiling(events: seq<BlockEvent>, unifiedFrom: int, spec: nat, ms: Markets, ls: Markets, block: int)
    requires (spec >= 124 <==> block >= unifiedFrom) && SameMarket(ms(block), ls(block))
    ensures (forall k: Key | k.block == block ::
               SameFiling(ms, TradesRepair(events, unifiedFrom), ls, TradesLive(EventsAt(events, block), block, spec),
                          k))
       <==> BlockFiledAlike(events, block, spec)
  {
    var repaired, live := TradesRepair(events, unifiedFrom), TradesLive(EventsAt(events, block), block, spec);
    var missed := Missed(events, block, spec);
    NoneMissedExactly(events, block, spec);
    hide SameFiling, TradesRepair, TradesLive, Missed, BlockFiledAlike, SameMarket, HasLegs, FiledWith;
    forall k: Key | k.block == block
      ensures SameFiling(ms, repaired, ls, live, k) <==> FiledCount(missed, k) == 0
    {
      RepairFilesMissedToo(events, unifiedFrom, spec, ms, ls, k);
      SameFilingAt(ms, repaired, ls, live, missed, k);
    }
    if missed != [] {
      assert missed[0] in missed;
      var k := Key(SomeAsset(missed[0].trade), block, None);
      FiledTradeCounts(missed, 0, k);
      assert !SameFiling(ms, repaired, ls, live, k);
    }
  }

  /** Both maps have a row for the key with the same four texts and the same count, or neither has one. */
  predicate SameRow(repaired: map<Key, Entry>, live: map<Key, Entry>, k: Key) {
    (k in repaired <==> k in live) && (k in repaired ==> repaired[k] == live[k])
  }

  /**
   Repair equals live. Whenever the repair of a stretch of blocks goes through, a key has the live
   pipeline's row exactly when no trade without a codec is filed under it, or when it is a market key that
   has a row anyway and those trades are worth nothing.
   */
  lemma RepairEqualsLivePipeline(events: seq<BlockEvent>, unifiedFrom: int, spec: nat, ms: Markets, ls: Markets,
                                 perAccount: bool,
                                 repaired: map<Key, Entry>, live: map<Key, Entry>, k: Key)
    requires (spec >= 124 <==> k.block >= unifiedFrom) && SameMarket(ms(k.block), ls(k.block))
    requires k.account.Some? == perAccount
    requires IsAggregate(ms, TradesRepair(events, unifiedFrom), perAccount, repaired)
    requires IsAggregate(ls, TradesLive(EventsAt(events, k.block), k.block, spec), perAccount, live)
    ensures SameRow(repaired, live, k)
       <==> FiledCount(Missed(events, k.block, spec), k) == 0
            || (!perAccount && k in live && FiledTotal(ms, Missed(events, k.block, spec), k) == ZERO)
    ensures BlockFiledAlike(events, k.block, spec) ==> SameRow(repaired, live, k)
  {
    hide FiledTotal, FiledCount, TextOf, SameMarket, BlockFiledAlike, Missed, TradesRepair, TradesLive, IsAggregate,
      SameRow;
    RepairFilesMissedToo(events, unifiedFrom, spec, ms, ls, k);
    NoneMissedExactly(events, k.block, spec);
    NothingFiled(ms, k);
    SameRowExactly(ms, TradesRepair(events, unifiedFrom), ls, TradesLive(EventsAt(events, k.block), k.block, spec),
                   Missed(events, k.block, spec), perAccount, repaired, live, k);
  }

  lemma SameRowExactly(ms: Markets, rt: seq<BlockTrade>, ls: Markets, lt: seq<BlockTrade>, missed: seq<BlockTrade>,
                       perAccount: bool,
                       repaired: map<Key, Entry>, live: map<Key, Entry>, k: Key)
    requires FiledWith(ms, rt, ls, lt, missed, k) && k.account.Some? == perAccount
    requires IsAggregate(ms, rt, perAccount, repaired) && IsAggregate(ls, lt, perAccount, live)
    ensures SameRow(repaired, live, k)
       <==> FiledCount(missed, k) == 0 || (!perAccount && k in live && FiledTotal(ms, missed, k) == ZERO)
  {
    hide FiledTotal, FiledCount, TextOf, Plus;
    var l, m := FiledTotal(ls, lt, k), FiledTotal(ms, missed, k);
    if FiledCount(missed, k) == 0 { UnfiledIsWorthNothing(ms, missed, k); }
    PlusCancels(l, m);
    if TextOf(Plus(l, m)) == TextOf(l) { TextsAreFaithful(Plus(l, m), l); }
  }

  lemma PlusCancels(a: Total, b: Total)
    ensures Plus(a, b) == a <==> b == ZERO
  {
  }
}
