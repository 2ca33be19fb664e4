/** The live pipeline: the swap events of each block become exactly the volumes that their trades are owed. */
module VolumeLive {
  import opened Options
  import opened Decimals
  import opened VolumeMath
  import opened SwapDecoding
  import opened LegValue
  import opened VolumeTotals
  import opened VolumeRows

  /** The trades of one block's events, in order. */
  function TradesLive(events: seq<Event>, block: int, spec: nat): seq<BlockTrade> {
    if events == [] then []
    else
      var init, last := TradesLive(events[..|events|-1], block, spec), events[|events|-1];
      var decoded := DecodeLive(last);
      if IsSwapEvent(last.name, spec) && decoded.Some? then init + [BlockTrade(block, decoded.value)] else init
  }

  /** The live pipeline throws on the leg. */
  predicate LiveRefused(leg: Leg, m: Market) { LegUsdLive(CanonicalLeg(leg, leg.asset), m).None? }

  predicate AnyLiveRefused(legs: seq<Leg>, m: Market) { exists l <- legs :: LiveRefused(l, m) }

  predicate TradeLiveRefused(t: Trade, m: Market) { AnyLiveRefused(t.inputs, m) || AnyLiveRefused(t.outputs, m) }

  lemma LiveRefusalStep(legs: seq<Leg>, i: nat, m: Market)
    requires i < |legs|
    ensures AnyLiveRefused(legs[..i+1], m) <==> AnyLiveRefused(legs[..i], m) || LiveRefused(legs[i], m)
    ensures LiveRefused(legs[i], m) ==> AnyLiveRefused(legs, m)
  {
    hide LiveRefused;
    assert legs[..i+1] == legs[..i] + [legs[i]];
    assert legs[i] in legs[..i+1] && legs[i] in legs;
    assert forall l <- legs[..i] :: l in legs[..i+1];
  }

  lemma NoneLiveRefused(m: Market)
    ensures !AnyLiveRefused([], m)
  {
  }

  function LegRow(leg: Leg, block: int, sell: bool, usd: string): Row {
    Row(Key(leg.asset, block, None),
        if sell then Fields("0", IntText(leg.amount), "0.000000000000", usd)
        else Fields(IntText(leg.amount), "0", usd, "0.000000000000"), 0)
  }

  lemma LegRowText(leg: Leg, block: int, sell: bool, worth: nat)
    ensures LegRow(leg, block, sell, FormatDecimal128(worth)).fields == TextOf(SideTotal(sell, leg.amount, worth))
  {
    hide IntText, FormatDecimal128;
    ZeroFields();
  }

  /** The rows of one side hold its legs, one row a leg. */
  ghost predicate SideRows(rows: seq<Row>, totals: seq<Total>, m: Market, legs: seq<Leg>, block: int, sell: bool) {
    && Texts(rows, totals)
    && (forall r <- rows :: r.key.account.None?)
    && (forall k: Key :: k.account.None? ==> SideOwed(rows, totals, m, legs, block, sell, k))
  }

  ghost predicate SideOwed(rows: seq<Row>, totals: seq<Total>, m: Market, legs: seq<Leg>, block: int, sell: bool,
                           k: Key)
    requires |totals| == |rows|
  {
    && TotalAt(rows, totals, k) == (if k.block == block then LegsTotal(m, legs, sell, k.asset) else ZERO)
    && (HasRow(rows, k) <==> k.block == block && k.asset in AssetsOf(legs))
    && CountAt(rows, k) == 0
  }

  lemma SideRowsStep(rows: seq<Row>, totals: seq<Total>, m: Market, legs: seq<Leg>, leg: Leg, block: int, sell: bool)
    requires SideRows(rows, totals, m, legs, block, sell)
    ensures SideRows(rows + [LegRow(leg, block, sell, FormatDecimal128(Worth(leg, m)))],
                     totals + [SideTotal(sell, leg.amount, Worth(leg, m))], m, legs + [leg], block, sell)
  {
    hide SideOwed, TextOf, SideTotal;
    var row, total := LegRow(leg, block, sell, FormatDecimal128(Worth(leg, m))),
      SideTotal(sell, leg.amount, Worth(leg, m));
    LegRowText(leg, block, sell, Worth(leg, m));
    forall k: Key | k.account.None?
      ensures SideOwed(rows + [row], totals + [total], m, legs + [leg], block, sell, k)
    {
      SideOwedStep(rows, totals, m, legs, leg, block, sell, row, k);
    }
  }

  lemma SideOwedStep(rows: seq<Row>, totals: seq<Total>, m: Market, legs: seq<Leg>, leg: Leg, block: int, sell: bool,
                     row: Row, k: Key)
    requires |totals| == |rows| && k.account.None? && SideOwed(rows, totals, m, legs, block, sell, k)
    requires row.key == Key(leg.asset, block, None) && row.count == 0
    ensures SideOwed(rows + [row], totals + [SideTotal(sell, leg.amount, Worth(leg, m))], m, legs + [leg], block, sell,
                     k)
  {
    hide LegsTotal, AssetsOf, SideTotal, Worth, TotalAt, CountAt, HasRow, Plus;
    var total := SideTotal(sell, leg.amount, Worth(leg, m));
    TotalsConcat(rows, totals, [row], [total], k);
    LegsAppend(m, legs, leg, sell, k.asset);
    PlusLaws(TotalAt(rows, totals, k), total, total);
    OneRow(row, total, k);
  }

  lemma OneRow(row: Row, total: Total, k: Key)
    ensures TotalAt([row], [total], k) == if row.key == k then total else ZERO
    ensures CountAt([row], k) == if row.key == k then row.count else 0
    ensures HasRow([row], k) <==> row.key == k
  {
    assert [row][..0] == [] && [total][..0] == [];
    assert [row][0] == row;
    PlusLaws(total, total, total);
  }

  method LegsToVolumeRows(legs: seq<Leg>, opposing: seq<Leg>, block: int, m: Market, sell: bool)
    returns (ok: bool, rows: seq<Row>, ghost totals: seq<Total>)
    ensures ok <==> !AnyLiveRefused(legs, m)
    ensures ok ==> SideRows(rows, totals, m, legs, block, sell)
  {
    hide SideRows, LegUsdLive, LegRow, AnyLiveRefused;
    ok, rows, totals := true, [], [];
    NoSideRows(m, block, sell);
    NoneLiveRefused(m);
    assert legs[..0] == [];
    for i := 0 to |legs|
      invariant ok && !AnyLiveRefused(legs[..i], m) && SideRows(rows, totals, m, legs[..i], block, sell)
    {
      var leg := CanonicalLegs(legs)[i];
      NoLegIsSelfConversion(legs, opposing, i);
      LiveRefusalStep(legs, i, m);
      if !IsSelfConversion(leg, CanonicalLegs(opposing)) {
        var usd := LegUsdLive(leg, m);
        if usd.None? {
          ok := false;
          return;
        }
        LiveIsWorth(legs[i], m);
        SideRowsStep(rows, totals, m, legs[..i], legs[i], block, sell);
        assert legs[..i+1] == legs[..i] + [legs[i]];
        rows := rows + [LegRow(leg.leg, block, sell, usd.value)];
        totals := totals + [SideTotal(sell, legs[i].amount, Worth(legs[i], m))];
      }
    }
    assert legs[..|legs|] == legs;
  }

  lemma NoSideRows(m: Market, block: int, sell: bool)
    ensures SideRows([], [], m, [], block, sell)
  {
  }

  lemma SidesCover(inRows: seq<Row>, inTotals: seq<Total>, outRows: seq<Row>, outTotals: seq<Total>, ms: Markets,
                   bt: BlockTrade)
    requires SideRows(inRows, inTotals, ms(bt.block), bt.trade.inputs, bt.block, true)
    requires SideRows(outRows, outTotals, ms(bt.block), bt.trade.outputs, bt.block, false)
    ensures Covers(inRows + outRows, inTotals + outTotals, ms, [bt], false)
  {
    hide SideOwed, Owed, TextOf;
    forall k: Key | k.account.None?
      ensures Owed(inRows + outRows, inTotals + outTotals, ms, [bt], false, k)
    {
      SidesOwed(inRows, inTotals, outRows, outTotals, ms, bt, k);
    }
  }

  lemma SidesOwed(inRows: seq<Row>, inTotals: seq<Total>, outRows: seq<Row>, outTotals: seq<Total>, ms: Markets,
                  bt: BlockTrade, k: Key)
    requires |inRows| == |inTotals| && |outRows| == |outTotals| && k.account.None?
    requires SideOwed(inRows, inTotals, ms(bt.block), bt.trade.inputs, bt.block, true, k)
    requires SideOwed(outRows, outTotals, ms(bt.block), bt.trade.outputs, bt.block, false, k)
    ensures Owed(inRows + outRows, inTotals + outTotals, ms, [bt], false, k)
  {
    hide LegsTotal, AssetsOf, TotalAt, CountAt, HasRow, Plus, FiledTotal, FiledCount;
    TotalsConcat(inRows, inTotals, outRows, outTotals, k);
    assert [] + [bt] == [bt];
    FiledAppend(ms, [], bt, k);
    NothingFiled(ms, k);
    PlusLaws(Volume(ms, bt, k.asset), ZERO, ZERO);
    PlusLaws(ZERO, ZERO, ZERO);
  }

  method TradeToVolumeRows(t: Trade, block: int, m: Market, ghost ms: Markets)
    returns (ok: bool, rows: seq<Row>, ghost totals: seq<Total>)
    requires ms(block) == m
    ensures ok <==> !TradeLiveRefused(t, m)
    ensures ok ==> Covers(rows, totals, ms, [BlockTrade(block, t)], false)
  {
    hide SideRows, Covers, AnyLiveRefused;
    rows, totals := [], [];
    var okIn, inRows, inTotals := LegsToVolumeRows(t.inputs, t.outputs, block, m, true);
    if !okIn { return false, [], []; }
    var okOut, outRows, outTotals := LegsToVolumeRows(t.outputs, t.inputs, block, m, false);
    if !okOut { return false, [], []; }
    SidesCover(inRows, inTotals, outRows, outTotals, ms, BlockTrade(block, t));
    ok, rows, totals := true, inRows + outRows, inTotals + outTotals;
  }

  lemma TradesLiveStep(events: seq<Event>, i: nat, block: int, spec: nat)
    requires i < |events|
    ensures TradesLive(events[..i+1], block, spec)
         == if IsSwapEvent(events[i].name, spec) && DecodeLive(events[i]).Some?
            then TradesLive(events[..i], block, spec) + [BlockTrade(block, DecodeLive(events[i]).value)]
            else TradesLive(events[..i], block, spec)
  {
    assert events[..i+1][..i] == events[..i];
  }

  lemma {:induction false} TradesLiveGrows(events: seq<Event>, i: nat, block: int, spec: nat, bt: BlockTrade)
    requires i <= |events| && bt in TradesLive(events[..i], block, spec)
    ensures bt in TradesLive(events, block, spec)
    decreases |events| - i
  {
    hide DecodeLive, IsSwapEvent, TradesLive;
    if i == |events| {
      assert events[..i] == events;
    } else {
      TradesLiveStep(events, i, block, spec);
      TradesLiveGrows(events, i + 1, block, spec, bt);
    }
  }

  /** Absent when a leg's price text is malformed: the block then fails. */
  method ExtractVolumeFromSwaps(events: seq<Event>, block: int, spec: nat, m: Market, ghost ms: Markets)
    returns (rows: Option<seq<Row>>, ghost totals: seq<Total>)
    requires ms(block) == m
    ensures rows.None? <==> exists bt <- TradesLive(events, block, spec) :: TradeLiveRefused(bt.trade, m)
    ensures rows.Some? ==> Covers(rows.value, totals, ms, TradesLive(events, block, spec), false)
  {
    hide Covers, DecodeLive, IsSwapEvent, TradesLive, TradeLiveRefused;
    var out: seq<Row> := [];
    totals := [];
    NoTradesLive(block, spec);
    NothingCovers(ms, false);
    assert events[..0] == [];
    for i := 0 to |events|
      invariant Covers(out, totals, ms, TradesLive(events[..i], block, spec), false)
      invariant forall bt <- TradesLive(events[..i], block, spec) :: !TradeLiveRefused(bt.trade, m)
    {
      TradesLiveStep(events, i, block, spec);
      if IsSwapEvent(events[i].name, spec) {
        var trade := DecodeLive(events[i]);
        if trade.Some? {
          ghost var bt := BlockTrade(block, trade.value);
          TradesLiveGrows(events, i + 1, block, spec, bt);
          var ok, more, moreTotals := TradeToVolumeRows(trade.value, block, m, ms);
          if !ok { return None, []; }
          CoversAppend(out, totals, more, moreTotals, ms, TradesLive(events[..i], block, spec), bt, false);
          out, totals := out + more, totals + moreTotals;
        }
      }
    }
    assert events[..|events|] == events;
    rows := Some(out);
  }

  lemma NoTradesLive(block: int, spec: nat)
    ensures TradesLive([], block, spec) == []
  {
  }

  method SumLegsLive(rs: AssetRows, ghost totals: map<int, Total>, legs: seq<Leg>, opposing: seq<Leg>, m: Market,
                     sell: bool)
    returns (ok: bool, next: AssetRows, ghost sums: map<int, Total>)
    requires Holds(rs, totals)
    ensures ok <==> !AnyLiveRefused(legs, m)
    ensures Holds(next, sums) && (ok ==> Summed(totals, sums, m, legs, sell))
  {
    hide Holds, Summed, LegUsdLive, AnyLiveRefused;
    ok, next, sums := true, rs, totals;
    NothingSummed(totals, m, sell);
    NoneLiveRefused(m);
    assert legs[..0] == [];
    for i := 0 to |legs|
      invariant ok && !AnyLiveRefused(legs[..i], m) && Holds(next, sums) && Summed(totals, sums, m, legs[..i], sell)
    {
      var leg := CanonicalLegs(legs)[i];
      NoLegIsSelfConversion(legs, opposing, i);
      LiveRefusalStep(legs, i, m);
      if !IsSelfConversion(leg, CanonicalLegs(opposing)) {
        var usd := LegUsdLive(leg, m);
        if usd.None? {
          ok := false;
          return;
        }
        LiveIsWorth(legs[i], m);
        SummedStep(totals, sums, m, legs[..i], legs[i], sell);
        assert legs[..i+1] == legs[..i] + [legs[i]];
        next, sums := AddToRow(next, sums, leg.canonical, sell, leg.leg.amount, usd.value, Worth(legs[i], m));
      }
    }
    assert legs[..|legs|] == legs;
  }

  lemma NothingSummed(totals: map<int, Total>, m: Market, sell: bool)
    ensures Summed(totals, totals, m, [], sell)
  {
  }

  method TradeToAccountVolumeRows(t: Trade, block: int, m: Market, ghost ms: Markets)
    returns (ok: bool, rows: seq<Row>, ghost totals: seq<Total>)
    requires ms(block) == m
    ensures ok <==> t.account.None? || !TradeLiveRefused(t, m)
    ensures ok ==> Covers(rows, totals, ms, [BlockTrade(block, t)], true)
  {
    if t.account.None? {
      AnonymousHasNoAccountRows(ms, BlockTrade(block, t));
      return true, [], [];
    }
    hide Covers, Summed, HoldsAsset, AnyLiveRefused;
    rows, totals := [], [];
    var okIn, half, halfSums := SumLegsLive(NO_ROWS, map[], t.inputs, t.outputs, m, true);
    if !okIn { return false, [], []; }
    var okOut, whole, sums := SumLegsLive(half, halfSums, t.outputs, t.inputs, m, false);
    if !okOut { return false, [], []; }
    BothSides(whole, halfSums, sums, m, t);
    RowsCoverTrade(whole, sums, ms, BlockTrade(block, t), t.account);
    ok, rows, totals := true, RowsOf(whole, block, t.account), TotalsOf(whole, sums);
  }

  lemma AnonymousHasNoAccountRows(ms: Markets, bt: BlockTrade)
    requires bt.trade.account.None?
    ensures Covers([], [], ms, [bt], true)
  {
    hide Volume, Assets;
    forall k: Key | k.account.Some?
      ensures Owed([], [], ms, [bt], true, k)
    {
      assert [] + [bt] == [bt];
      FiledAppend(ms, [], bt, k);
    }
  }

  method ExtractTradeVolumeFromSwaps(events: seq<Event>, block: int, spec: nat, m: Market, ghost ms: Markets)
    returns (r: Option<map<Key, Entry>>)
    requires ms(block) == m
    ensures r.None?
      <==> exists bt <- TradesLive(events, block, spec) :: bt.trade.account.Some? && TradeLiveRefused(bt.trade, m)
    ensures r.Some? ==> IsAggregate(ms, TradesLive(events, block, spec), true, r.value)
  {
    hide Covers, DecodeLive, IsSwapEvent, TradesLive, IsAggregate, TradeLiveRefused;
    var rows: seq<Row> := [];
    ghost var totals: seq<Total> := [];
    NoTradesLive(block, spec);
    NothingCovers(ms, true);
    assert events[..0] == [];
    for i := 0 to |events|
      invariant Covers(rows, totals, ms, TradesLive(events[..i], block, spec), true)
      invariant forall bt <- TradesLive(events[..i], block, spec) ::
        bt.trade.account.None? || !TradeLiveRefused(bt.trade, m)
    {
      TradesLiveStep(events, i, block, spec);
      if IsSwapEvent(events[i].name, spec) {
        var trade := DecodeLive(events[i]);
        if trade.Some? {
          ghost var bt := BlockTrade(block, trade.value);
          TradesLiveGrows(events, i + 1, block, spec, bt);
          var ok, more, moreTotals := TradeToAccountVolumeRows(trade.value, block, m, ms);
          if !ok { return None; }
          CoversAppend(rows, totals, more, moreTotals, ms, TradesLive(events[..i], block, spec), bt, true);
          rows, totals := rows + more, totals + moreTotals;
        }
      }
    }
    assert events[..|events|] == events;
    var aggregated := AggregateCovering(rows, totals, ms, TradesLive(events, block, spec), true);
    r := Some(aggregated);
  }
}
