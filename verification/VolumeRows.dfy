/** Unaggregated volume rows, and the per-asset rows of one trade: what both pipelines build and then aggregate. */
module VolumeRows {
  import opened Options
  import opened Decimals
  import opened VolumeMath
  import opened SwapDecoding
  import opened LegValue
  import opened VolumeTotals

  ghost predicate HasRow(rows: seq<Row>, k: Key) {
    exists i :: 0 <= i < |rows| && rows[i].key == k
  }

  ghost predicate Texts(rows: seq<Row>, totals: seq<Total>) {
    |totals| == |rows| && forall i :: 0 <= i < |rows| ==> rows[i].fields == TextOf(totals[i])
  }

  ghost predicate Owed(rows: seq<Row>, totals: seq<Total>, ms: Markets, trades: seq<BlockTrade>, perAccount: bool,
                       k: Key)
    requires |totals| == |rows|
  {
    && TotalAt(rows, totals, k) == FiledTotal(ms, trades, k)
    && (HasRow(rows, k) <==> FiledCount(trades, k) > 0)
    && CountAt(rows, k) == if perAccount then FiledCount(trades, k) else 0
  }

  /** Unaggregated rows that add up to what the trades are owed. */
  ghost predicate Covers(rows: seq<Row>, totals: seq<Total>, ms: Markets, trades: seq<BlockTrade>, perAccount: bool) {
    && Texts(rows, totals)
    && (forall r <- rows :: r.key.account.Some? == perAccount)
    && (forall k: Key :: k.account.Some? == perAccount ==> Owed(rows, totals, ms, trades, perAccount, k))
  }

  lemma {:induction false} TotalsConcat(rows: seq<Row>, totals: seq<Total>, more: seq<Row>, moreTotals: seq<Total>,
                                        k: Key)
    requires |totals| == |rows| && |moreTotals| == |more|
    ensures TotalAt(rows + more, totals + moreTotals, k) == Plus(TotalAt(rows, totals, k), TotalAt(more, moreTotals, k))
    ensures CountAt(rows + more, k) == CountAt(rows, k) + CountAt(more, k)
    ensures HasRow(rows + more, k) <==> HasRow(rows, k) || HasRow(more, k)
    decreases |more|
  {
    if more == [] {
      assert rows + more == rows && totals + moreTotals == totals;
    } else {
      var n := |more| - 1;
      TotalsConcat(rows, totals, more[..n], moreTotals[..n], k);
      assert (rows + more)[..|rows| + n] == rows + more[..n]
        && (totals + moreTotals)[..|rows| + n] == totals + moreTotals[..n];
      RowsConcat(rows, more, k);
    }
  }

  lemma RowsConcat(rows: seq<Row>, more: seq<Row>, k: Key)
    ensures HasRow(rows + more, k) <==> HasRow(rows, k) || HasRow(more, k)
  {
    if HasRow(rows, k) {
      var i :| 0 <= i < |rows| && rows[i].key == k;
      assert (rows + more)[i].key == k;
    } else if HasRow(more, k) {
      var i :| 0 <= i < |more| && more[i].key == k;
      assert (rows + more)[|rows| + i].key == k;
    }
  }

  lemma OwedAppend(rows: seq<Row>, totals: seq<Total>, more: seq<Row>, moreTotals: seq<Total>,
                   ms: Markets, trades: seq<BlockTrade>, bt: BlockTrade, perAccount: bool, k: Key)
    requires |totals| == |rows| && |moreTotals| == |more|
    requires Owed(rows, totals, ms, trades, perAccount, k) && Owed(more, moreTotals, ms, [bt], perAccount, k)
    ensures Owed(rows + more, totals + moreTotals, ms, trades + [bt], perAccount, k)
  {
    hide TotalAt, CountAt, HasRow, FiledTotal, FiledCount, Volume, Files, Assets;
    TotalsConcat(rows, totals, more, moreTotals, k);
    FiledAppend(ms, trades, bt, k);
    FiledAppend(ms, [], bt, k);
    assert [] + [bt] == [bt];
    NothingFiled(ms, k);
  }

  lemma NothingFiled(ms: Markets, k: Key)
    ensures FiledTotal(ms, [], k) == ZERO && FiledCount([], k) == 0
  {
  }

  lemma CoversAppend(rows: seq<Row>, totals: seq<Total>, more: seq<Row>, moreTotals: seq<Total>,
                     ms: Markets, trades: seq<BlockTrade>, bt: BlockTrade, perAccount: bool)
    requires Covers(rows, totals, ms, trades, perAccount) && Covers(more, moreTotals, ms, [bt], perAccount)
    ensures Covers(rows + more, totals + moreTotals, ms, trades + [bt], perAccount)
  {
    hide Owed, TextOf;
    forall k: Key | k.account.Some? == perAccount
      ensures Owed(rows + more, totals + moreTotals, ms, trades + [bt], perAccount, k)
    {
      OwedAppend(rows, totals, more, moreTotals, ms, trades, bt, perAccount, k);
    }
  }

  lemma NothingCovers(ms: Markets, perAccount: bool)
    ensures Covers([], [], ms, [], perAccount)
  {
  }

  /** Aggregating rows that cover the trades gives the result both pipelines owe. */
  method AggregateCovering(rows: seq<Row>, ghost totals: seq<Total>, ghost ms: Markets, ghost trades: seq<BlockTrade>,
                           ghost perAccount: bool)
    returns (m: map<Key, Entry>)
    requires Covers(rows, totals, ms, trades, perAccount)
    ensures IsAggregate(ms, trades, perAccount, m)
  {
    hide TextOf, FiledTotal, FiledCount, TotalAt, CountAt;
    m := Aggregate(rows, totals);
    assert forall k :: k in m <==> HasRow(rows, k);
    assert forall k :: k in m ==> Owed(rows, totals, ms, trades, perAccount, k);
  }

  // ---------------------------------------------------------------- one trade, a row per asset

  /** A JavaScript `Map` from assets to rows: its keys in insertion order, and its entries. */
  datatype AssetRows = AssetRows(order: seq<int>, at: map<int, Fields>)

  const NO_ROWS := AssetRows([], map[])

  ghost predicate Holds(rs: AssetRows, totals: map<int, Total>) {
    && (forall i, j :: 0 <= i < j < |rs.order| ==> rs.order[i] != rs.order[j])
    && (forall i :: 0 <= i < |rs.order| ==> rs.order[i] in rs.at)
    && (forall a <- rs.at :: a in rs.order)
    && totals.Keys == rs.at.Keys
    && (forall a <- rs.at :: rs.at[a] == TextOf(totals[a]))
  }

  ghost function Held(totals: map<int, Total>, a: int): Total { if a in totals then totals[a] else ZERO }

  /** The row of an asset, made on first use, takes in one leg. */
  method AddToRow(rs: AssetRows, ghost totals: map<int, Total>, asset: int, sell: bool, amount: nat, usd: string,
                  ghost worth: nat)
    returns (next: AssetRows, ghost sums: map<int, Total>)
    requires Holds(rs, totals) && usd == FormatDecimal128(worth)
    ensures Holds(next, sums)
    ensures sums == totals[asset := Plus(Held(totals, asset), SideTotal(sell, amount, worth))]
  {
    hide IntText, FormatDecimal128, SumBigIntStrings, SumDecimal128Strings;
    ghost var was := Held(totals, asset);
    var order, row := rs.order, ZERO_TEXT;
    ZeroFields();
    if asset in rs.at {
      row := rs.at[asset];
    } else {
      order := order + [asset];
    }
    assert row == TextOf(was);
    if sell {
      SumsAreExact(was.nativeSell, amount);
      SumsAreExact(was.usdSell, worth);
      row := row.(nativeSell := SumBigIntStrings(row.nativeSell, IntText(amount)).value,
                  usdSell := SumDecimal128Strings(row.usdSell, usd).value);
    } else {
      SumsAreExact(was.nativeBuy, amount);
      SumsAreExact(was.usdBuy, worth);
      row := row.(nativeBuy := SumBigIntStrings(row.nativeBuy, IntText(amount)).value,
                  usdBuy := SumDecimal128Strings(row.usdBuy, usd).value);
    }
    next := AssetRows(order, rs.at[asset := row]);
    sums := totals[asset := Plus(was, SideTotal(sell, amount, worth))];
  }

  /** `sums` is `totals` with the legs of one side added. */
  ghost predicate Summed(totals: map<int, Total>, sums: map<int, Total>, m: Market, legs: seq<Leg>, sell: bool) {
    forall a :: SummedAt(totals, sums, m, legs, sell, a)
  }

  ghost predicate SummedAt(totals: map<int, Total>, sums: map<int, Total>, m: Market, legs: seq<Leg>, sell: bool,
                           a: int) {
    && Held(sums, a) == Plus(Held(totals, a), LegsTotal(m, legs, sell, a))
    && (a in sums <==> a in totals || a in AssetsOf(legs))
  }

  lemma LegsAppend(m: Market, legs: seq<Leg>, leg: Leg, sell: bool, a: int)
    ensures LegsTotal(m, legs + [leg], sell, a)
         == if leg.asset == a then Plus(LegsTotal(m, legs, sell, a), SideTotal(sell, leg.amount, Worth(leg, m)))
           else LegsTotal(m, legs, sell, a)
    ensures a in AssetsOf(legs + [leg]) <==> a in AssetsOf(legs) || a == leg.asset
  {
    assert (legs + [leg])[..|legs|] == legs;
    assert forall l <- legs :: l in legs + [leg];
    assert leg in legs + [leg];
  }

  lemma SummedStep(totals: map<int, Total>, sums: map<int, Total>, m: Market, legs: seq<Leg>, leg: Leg, sell: bool)
    requires Summed(totals, sums, m, legs, sell)
    ensures Summed(totals, sums[leg.asset := Plus(Held(sums, leg.asset), SideTotal(sell, leg.amount, Worth(leg, m)))],
                   m, legs + [leg], sell)
  {
    hide SummedAt;
    var next := sums[leg.asset := Plus(Held(sums, leg.asset), SideTotal(sell, leg.amount, Worth(leg, m)))];
    forall a
      ensures SummedAt(totals, next, m, legs + [leg], sell, a)
    {
      SummedStepAt(totals, sums, m, legs, leg, sell, a);
    }
  }

  lemma SummedStepAt(totals: map<int, Total>, sums: map<int, Total>, m: Market, legs: seq<Leg>, leg: Leg, sell: bool,
                     a: int)
    requires SummedAt(totals, sums, m, legs, sell, a)
    ensures SummedAt(totals, sums[leg.asset := Plus(Held(sums, leg.asset), SideTotal(sell, leg.amount, Worth(leg, m)))],
                     m, legs + [leg], sell, a)
  {
    hide LegsTotal, Worth, AssetsOf, SideTotal, Plus;
    LegsAppend(m, legs, leg, sell, a);
    PlusLaws(Held(totals, a), LegsTotal(m, legs, sell, a), SideTotal(sell, leg.amount, Worth(leg, m)));
  }

  /** What the rows of one trade must hold. */
  ghost predicate HoldsTrade(rs: AssetRows, totals: map<int, Total>, m: Market, t: Trade) {
    Holds(rs, totals) && forall a :: HoldsAsset(totals, m, t, a)
  }

  ghost predicate HoldsAsset(totals: map<int, Total>, m: Market, t: Trade, a: int) {
    Held(totals, a) == TradeTotal(m, t, a) && (a in totals <==> a in Assets(t))
  }

  lemma BothSides(rs: AssetRows, half: map<int, Total>, whole: map<int, Total>, m: Market, t: Trade)
    requires Holds(rs, whole) && Summed(map[], half, m, t.inputs, true) && Summed(half, whole, m, t.outputs, false)
    ensures HoldsTrade(rs, whole, m, t)
  {
    hide Holds, SummedAt, HoldsAsset;
    forall a
      ensures HoldsAsset(whole, m, t, a)
    {
      BothSidesAt(half, whole, m, t, a);
    }
  }

  lemma BothSidesAt(half: map<int, Total>, whole: map<int, Total>, m: Market, t: Trade, a: int)
    requires SummedAt(map[], half, m, t.inputs, true, a) && SummedAt(half, whole, m, t.outputs, false, a)
    ensures HoldsAsset(whole, m, t, a)
  {
    hide LegsTotal, AssetsOf, Plus;
    PlusLaws(LegsTotal(m, t.inputs, true, a), ZERO, ZERO);
    assert Held(map[], a) == ZERO;
  }

  /** The rows a trade's map is spread into, under its block and account. */
  function RowsOf(rs: AssetRows, block: int, account: Option<string>): (rows: seq<Row>)
    requires forall i :: 0 <= i < |rs.order| ==> rs.order[i] in rs.at
    ensures |rows| == |rs.order|
  {
    seq(|rs.order|, i requires 0 <= i < |rs.order| =>
      Row(Key(rs.order[i], block, account), rs.at[rs.order[i]], if account.Some? then 1 else 0))
  }

  ghost function TotalsOf(rs: AssetRows, totals: map<int, Total>): (sums: seq<Total>)
    requires forall i :: 0 <= i < |rs.order| ==> rs.order[i] in totals
    ensures |sums| == |rs.order|
  {
    seq(|rs.order|, i requires 0 <= i < |rs.order| => totals[rs.order[i]])
  }

  lemma {:induction false} LoneRow(rows: seq<Row>, totals: seq<Total>, i: nat)
    requires |totals| == |rows| && i < |rows|
    requires forall j :: 0 <= j < |rows| && j != i ==> rows[j].key != rows[i].key
    ensures TotalAt(rows, totals, rows[i].key) == totals[i] && CountAt(rows, rows[i].key) == rows[i].count
  {
    var n := |rows| - 1;
    if i == n {
      NothingThere(rows[..n], totals[..n], rows[i].key);
    } else {
      LoneRow(rows[..n], totals[..n], i);
    }
  }

  lemma RowsCoverTrade(rs: AssetRows, totals: map<int, Total>, ms: Markets, bt: BlockTrade, account: Option<string>)
    requires HoldsTrade(rs, totals, ms(bt.block), bt.trade)
    requires account.None? || account == bt.trade.account
    ensures Covers(RowsOf(rs, bt.block, account), TotalsOf(rs, totals), ms, [bt], account.Some?)
  {
    hide TextOf, Owed, HoldsAsset;
    var rows, sums := RowsOf(rs, bt.block, account), TotalsOf(rs, totals);
    forall k: Key | k.account.Some? == account.Some?
      ensures Owed(rows, sums, ms, [bt], account.Some?, k)
    {
      OneTradeOwed(rs, totals, ms, bt, account, k);
    }
  }

  lemma RowAt(rs: AssetRows, totals: map<int, Total>, block: int, account: Option<string>, i: nat)
    requires Holds(rs, totals) && i < |rs.order|
    ensures var rows, sums := RowsOf(rs, block, account), TotalsOf(rs, totals);
            && rows[i].key == Key(rs.order[i], block, account) && rows[i].count == (if account.Some? then 1 else 0)
            && sums[i] == Held(totals, rs.order[i]) && rs.order[i] in totals
            && forall j :: 0 <= j < |rows| && j != i ==> rows[j].key != rows[i].key
  {
    hide TextOf;
  }

  lemma OneTradeOwed(rs: AssetRows, totals: map<int, Total>, ms: Markets, bt: BlockTrade, account: Option<string>,
                     k: Key)
    requires Holds(rs, totals) && HoldsAsset(totals, ms(bt.block), bt.trade, k.asset)
    requires account.None? || account == bt.trade.account
    requires k.account.Some? == account.Some?
    ensures Owed(RowsOf(rs, bt.block, account), TotalsOf(rs, totals), ms, [bt], account.Some?, k)
  {
    LoneBlockTrade(ms, bt, k);
    if HasRow(RowsOf(rs, bt.block, account), k) {
      RowOwed(rs, totals, ms, bt, account, k);
    } else {
      NoRowOwed(rs, totals, ms, bt, account, k);
    }
  }

  lemma RowOwed(rs: AssetRows, totals: map<int, Total>, ms: Markets, bt: BlockTrade, account: Option<string>, k: Key)
    requires Holds(rs, totals) && HoldsAsset(totals, ms(bt.block), bt.trade, k.asset)
    requires account.None? || account == bt.trade.account
    requires HasRow(RowsOf(rs, bt.block, account), k)
    ensures Owed(RowsOf(rs, bt.block, account), TotalsOf(rs, totals), ms, [bt], account.Some?, k)
  {
    var rows, sums := RowsOf(rs, bt.block, account), TotalsOf(rs, totals);
    var i :| 0 <= i < |rows| && rows[i].key == k;
    hide Holds, RowsOf, TotalsOf, Held, TotalAt, CountAt, TradeTotal, Assets, FiledTotal, FiledCount;
    RowAt(rs, totals, bt.block, account, i);
    LoneRow(rows, sums, i);
    LoneBlockTrade(ms, bt, k);
  }

  lemma NoRowOwed(rs: AssetRows, totals: map<int, Total>, ms: Markets, bt: BlockTrade, account: Option<string>, k: Key)
    requires Holds(rs, totals) && HoldsAsset(totals, ms(bt.block), bt.trade, k.asset)
    requires account.None? || account == bt.trade.account
    requires k.account.Some? == account.Some? && !HasRow(RowsOf(rs, bt.block, account), k)
    ensures Owed(RowsOf(rs, bt.block, account), TotalsOf(rs, totals), ms, [bt], account.Some?, k)
  {
    if Files(bt, k) { NotHeld(rs, bt, account, k); }
    assert Files(bt, k) ==> k.asset !in totals;
    var rows, sums := RowsOf(rs, bt.block, account), TotalsOf(rs, totals);
    hide Holds, RowsOf, TotalsOf, TotalAt, CountAt, TradeTotal, Assets, FiledTotal, FiledCount;
    assert forall j :: 0 <= j < |rows| ==> rows[j].key != k;
    NothingThere(rows, sums, k);
    LoneBlockTrade(ms, bt, k);
  }

  lemma LoneBlockTrade(ms: Markets, bt: BlockTrade, k: Key)
    ensures FiledTotal(ms, [bt], k) == if Files(bt, k) then TradeTotal(ms(bt.block), bt.trade, k.asset) else ZERO
    ensures FiledCount([bt], k) == if Files(bt, k) && k.asset in Assets(bt.trade) then 1 else 0
  {
    hide TradeTotal, Assets, FiledTotal, FiledCount, Plus;
    assert [] + [bt] == [bt];
    FiledAppend(ms, [], bt, k);
    NothingFiled(ms, k);
    PlusLaws(Volume(ms, bt, k.asset), ZERO, ZERO);
  }

  lemma NotHeld(rs: AssetRows, bt: BlockTrade, account: Option<string>, k: Key)
    requires forall i :: 0 <= i < |rs.order| ==> rs.order[i] in rs.at
    requires account.None? || account == bt.trade.account
    requires k.account.Some? == account.Some? && Files(bt, k) && !HasRow(RowsOf(rs, bt.block, account), k)
    ensures k.asset !in rs.order
  {
    forall i | 0 <= i < |rs.order|
      ensures rs.order[i] != k.asset
    {
      assert RowsOf(rs, bt.block, account)[i].key != k;
    }
  }
}
