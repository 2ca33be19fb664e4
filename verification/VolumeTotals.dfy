/** What the volumes of a list of trades are, independently of how either of the pipelines adds them up. */
module VolumeTotals {
  import opened Options
  import opened Decimals
  import opened VolumeMath
  import opened SwapDecoding
  import opened LegValue

  datatype BlockTrade = BlockTrade(block: int, trade: Trade)

  /** The prices and decimals of each block. */
  type Markets = int -> Market

  function SideTotal(sell: bool, amount: nat, usd: nat): Total {
    if sell then Total(0, amount, 0, usd) else Total(amount, 0, usd, 0)
  }

  /** One asset's volume over the legs of one side. */
  function LegsTotal(m: Market, legs: seq<Leg>, sell: bool, asset: int): Total {
    if legs == [] then ZERO
    else
      var rest, last := LegsTotal(m, legs[..|legs|-1], sell, asset), legs[|legs|-1];
      if last.asset == asset then Plus(rest, SideTotal(sell, last.amount, Worth(last, m))) else rest
  }

  function TradeTotal(m: Market, t: Trade, asset: int): Total {
    Plus(LegsTotal(m, t.inputs, true, asset), LegsTotal(m, t.outputs, false, asset))
  }

  function AssetsOf(legs: seq<Leg>): set<int> { set l <- legs :: l.asset }

  function Assets(t: Trade): set<int> { AssetsOf(t.inputs) + AssetsOf(t.outputs) }

  /** What a trade moves of an asset, at the prices of its own block. */
  function Volume(ms: Markets, bt: BlockTrade, asset: int): Total {
    TradeTotal(ms(bt.block), bt.trade, asset)
  }

  /** A trade is filed in the market rows of its block, and in the account rows of its trader. */
  predicate Files(bt: BlockTrade, k: Key) {
    bt.block == k.block && (k.account.None? || k.account == bt.trade.account)
  }

  function FiledTotal(ms: Markets, trades: seq<BlockTrade>, k: Key): Total {
    if trades == [] then ZERO
    else
      var rest, last := FiledTotal(ms, trades[..|trades|-1], k), trades[|trades|-1];
      if Files(last, k) then Plus(rest, Volume(ms, last, k.asset)) else rest
  }

  /** How many of the filed trades touch the asset. */
  function FiledCount(trades: seq<BlockTrade>, k: Key): nat {
    if trades == [] then 0
    else
      var last := trades[|trades|-1];
      FiledCount(trades[..|trades|-1], k) + (if Files(last, k) && k.asset in Assets(last.trade) then 1 else 0)
  }

  /**
   The result both pipelines owe: a row for every key with a filed trade that touches its asset, holding
   the exact sums.
   */
  ghost predicate IsAggregate(ms: Markets, trades: seq<BlockTrade>, perAccount: bool, m: map<Key, Entry>) {
    && (forall k :: k in m <==> k.account.Some? == perAccount && FiledCount(trades, k) > 0)
    && (forall k <- m :: m[k] == Entry(TextOf(FiledTotal(ms, trades, k)), if perAccount then FiledCount(trades, k)
                                       else 0))
  }

  // ---------------------------------------------------------------- facts about the totals

  lemma PlusLaws(a: Total, b: Total, c: Total)
    ensures Plus(a, ZERO) == a && Plus(ZERO, a) == a && Plus(a, b) == Plus(b, a)
      && Plus(Plus(a, b), c) == Plus(a, Plus(b, c))
  {
  }

  lemma FiledAppend(ms: Markets, init: seq<BlockTrade>, last: BlockTrade, k: Key)
    ensures FiledTotal(ms, init + [last], k)
         == if Files(last, k) then Plus(FiledTotal(ms, init, k), Volume(ms, last, k.asset)) else FiledTotal(ms, init, k)
    ensures FiledCount(init + [last], k)
         == FiledCount(init, k) + (if Files(last, k) && k.asset in Assets(last.trade) then 1 else 0)
  {
    assert (init + [last])[..|init|] == init;
  }

  lemma {:induction false} UnfiledIsWorthNothing(ms: Markets, trades: seq<BlockTrade>, k: Key)
    requires FiledCount(trades, k) == 0
    ensures FiledTotal(ms, trades, k) == ZERO
  {
    if trades != [] {
      var init, last := trades[..|trades|-1], trades[|trades|-1];
      UnfiledIsWorthNothing(ms, init, k);
      if Files(last, k) {
        UntouchedAsset(ms, last, k.asset);
        PlusLaws(ZERO, ZERO, ZERO);
      }
    }
  }

  lemma UntouchedAsset(ms: Markets, bt: BlockTrade, asset: int)
    requires asset !in Assets(bt.trade)
    ensures Volume(ms, bt, asset) == ZERO
  {
    UntouchedLegs(ms(bt.block), bt.trade.inputs, true, asset);
    UntouchedLegs(ms(bt.block), bt.trade.outputs, false, asset);
    PlusLaws(ZERO, ZERO, ZERO);
  }

  lemma {:induction false} UntouchedLegs(m: Market, legs: seq<Leg>, sell: bool, asset: int)
    requires asset !in AssetsOf(legs)
    ensures LegsTotal(m, legs, sell, asset) == ZERO
  {
    if legs != [] {
      assert legs == legs[..|legs|-1] + [legs[|legs|-1]];
      assert legs[|legs|-1].asset in AssetsOf(legs);
      UntouchedLegs(m, legs[..|legs|-1], sell, asset);
    }
  }

  lemma {:induction false} FiledTradeCounts(trades: seq<BlockTrade>, i: nat, k: Key)
    requires i < |trades| && Files(trades[i], k) && k.asset in Assets(trades[i].trade)
    ensures FiledCount(trades, k) > 0
  {
    if i < |trades| - 1 { FiledTradeCounts(trades[..|trades|-1], i, k); }
  }

  /** How much of an asset the legs move. */
  function AmountOf(legs: seq<Leg>, asset: int): nat {
    if legs == [] then 0
    else AmountOf(legs[..|legs|-1], asset) + (if legs[|legs|-1].asset == asset then legs[|legs|-1].amount else 0)
  }

  /** And what those legs are worth, each rounded down by itself. */
  function WorthOf(m: Market, legs: seq<Leg>, asset: int): nat {
    if legs == [] then 0
    else WorthOf(m, legs[..|legs|-1], asset) + (if legs[|legs|-1].asset == asset then Worth(legs[|legs|-1], m) else 0)
  }

  lemma {:induction false} LegsTotalExactly(m: Market, legs: seq<Leg>, sell: bool, asset: int)
    ensures var t := LegsTotal(m, legs, sell, asset);
            && t.nativeSell == (if sell then AmountOf(legs, asset) else 0)
            && t.nativeBuy == (if sell then 0 else AmountOf(legs, asset))
            && t.usdSell == (if sell then WorthOf(m, legs, asset) else 0)
            && t.usdBuy == (if sell then 0 else WorthOf(m, legs, asset))
  {
    if legs != [] {
      hide Worth;
      LegsTotalExactly(m, legs[..|legs|-1], sell, asset);
    }
  }

  /** What goes into a trade is sold, what comes out is bought. */
  lemma InputsAreSold(ms: Markets, bt: BlockTrade, asset: int)
    ensures var v, m := Volume(ms, bt, asset), ms(bt.block);
            && v.nativeSell == AmountOf(bt.trade.inputs, asset) && v.usdSell == WorthOf(m, bt.trade.inputs, asset)
            && v.nativeBuy == AmountOf(bt.trade.outputs, asset) && v.usdBuy == WorthOf(m, bt.trade.outputs, asset)
  {
    LegsTotalExactly(ms(bt.block), bt.trade.inputs, true, asset);
    LegsTotalExactly(ms(bt.block), bt.trade.outputs, false, asset);
  }

  // ---------------------------------------------------------------- conservation

  function AccountSum(ms: Markets, trades: seq<BlockTrade>, asset: int, block: int, accounts: seq<string>): Total {
    if accounts == [] then ZERO
    else
      Plus(AccountSum(ms, trades, asset, block, accounts[..|accounts|-1]),
           FiledTotal(ms, trades, Key(asset, block, Some(accounts[|accounts|-1]))))
  }

  /** The trades without a trader. */
  function AnonymousTotal(ms: Markets, trades: seq<BlockTrade>, asset: int, block: int): Total {
    if trades == [] then ZERO
    else
      var rest, last := AnonymousTotal(ms, trades[..|trades|-1], asset, block), trades[|trades|-1];
      if last.block == block && last.trade.account.None? then Plus(rest, Volume(ms, last, asset)) else rest
  }

  ghost predicate DistinctAccounts(accounts: seq<string>) {
    forall i, j :: 0 <= i < j < |accounts| ==> accounts[i] != accounts[j]
  }

  lemma AccountAppend(ms: Markets, trades: seq<BlockTrade>, asset: int, block: int, accounts: seq<string>, a: string)
    ensures AccountSum(ms, trades, asset, block, accounts + [a])
         == Plus(AccountSum(ms, trades, asset, block, accounts), FiledTotal(ms, trades, Key(asset, block, Some(a))))
  {
    assert (accounts + [a])[..|accounts|] == accounts;
  }

  predicate TradesAs(bt: BlockTrade, block: int, accounts: seq<string>) {
    bt.block == block && bt.trade.account.Some? && bt.trade.account.value in accounts
  }

  function PlusIf(t: Total, c: bool, v: Total): Total { if c then Plus(t, v) else t }

  lemma PlusIfMoves(t: Total, own: Total, v: Total, c: bool, d: bool)
    requires !c || !d
    ensures Plus(PlusIf(t, c, v), PlusIf(own, d, v)) == PlusIf(Plus(t, own), c || d, v)
  {
  }

  lemma LastAccount(bt: BlockTrade, asset: int, block: int, others: seq<string>, a: string)
    requires a !in others
    ensures TradesAs(bt, block, others + [a]) == (TradesAs(bt, block, others) || Files(bt, Key(asset, block, Some(a))))
    ensures !TradesAs(bt, block, others) || !Files(bt, Key(asset, block, Some(a)))
  {
  }

  lemma {:induction false} AccountSumGrows(ms: Markets, init: seq<BlockTrade>, last: BlockTrade, asset: int, block: int,
                                           accounts: seq<string>)
    requires DistinctAccounts(accounts)
    ensures AccountSum(ms, init + [last], asset, block, accounts)
         == PlusIf(AccountSum(ms, init, asset, block, accounts), TradesAs(last, block, accounts),
                   Volume(ms, last, asset))
  {
    if accounts != [] {
      var others, a := accounts[..|accounts|-1], accounts[|accounts|-1];
      assert accounts == others + [a];
      AccountSumGrows(ms, init, last, asset, block, others);
      AccountSumStep(ms, init, last, asset, block, others, a);
    }
  }

  lemma AccountSumStep(ms: Markets, init: seq<BlockTrade>, last: BlockTrade, asset: int, block: int,
                       others: seq<string>, a: string)
    requires a !in others
    requires AccountSum(ms, init + [last], asset, block, others)
         == PlusIf(AccountSum(ms, init, asset, block, others), TradesAs(last, block, others), Volume(ms, last, asset))
    ensures AccountSum(ms, init + [last], asset, block, others + [a])
         == PlusIf(AccountSum(ms, init, asset, block, others + [a]), TradesAs(last, block, others + [a]),
                   Volume(ms, last, asset))
  {
    hide FiledTotal, AccountSum, Volume, TradesAs, Files, Plus;
    FiledAppend(ms, init, last, Key(asset, block, Some(a)));
    AccountAppend(ms, init, asset, block, others, a);
    AccountAppend(ms, init + [last], asset, block, others, a);
    LastAccount(last, asset, block, others, a);
    PlusIfMoves(AccountSum(ms, init, asset, block, others), FiledTotal(ms, init, Key(asset, block, Some(a))),
                Volume(ms, last, asset), TradesAs(last, block, others), Files(last, Key(asset, block, Some(a))));
  }

  predicate Anonymous(bt: BlockTrade, block: int) { bt.block == block && bt.trade.account.None? }

  lemma AnonymousAppend(ms: Markets, init: seq<BlockTrade>, last: BlockTrade, asset: int, block: int)
    ensures AnonymousTotal(ms, init + [last], asset, block)
         == PlusIf(AnonymousTotal(ms, init, asset, block), Anonymous(last, block), Volume(ms, last, asset))
  {
    assert (init + [last])[..|init|] == init;
  }

  /** Every trader who touched the asset is listed. */
  ghost predicate KnowsTraders(trades: seq<BlockTrade>, asset: int, block: int, accounts: seq<string>) {
    forall bt <- trades :: bt.block == block && asset in Assets(bt.trade) && bt.trade.account.Some? ==>
      bt.trade.account.value in accounts
  }

  lemma TradersSplit(init: seq<BlockTrade>, last: BlockTrade, asset: int, block: int, accounts: seq<string>)
    requires KnowsTraders(init + [last], asset, block, accounts)
    ensures KnowsTraders(init, asset, block, accounts)
    ensures asset in Assets(last.trade) ==>
              Files(last, Key(asset, block, None)) == (TradesAs(last, block, accounts) || Anonymous(last, block))
  {
    assert forall bt <- init :: bt in init + [last];
    assert last in init + [last];
  }

  /** A block's volume of an asset is the sum over its traders, plus the trades that have no trader. */
  lemma {:induction false} VolumeIsConserved(ms: Markets, trades: seq<BlockTrade>, asset: int, block: int,
                                             accounts: seq<string>)
    requires DistinctAccounts(accounts) && KnowsTraders(trades, asset, block, accounts)
    ensures FiledTotal(ms, trades, Key(asset, block, None))
         == Plus(AccountSum(ms, trades, asset, block, accounts), AnonymousTotal(ms, trades, asset, block))
  {
    hide *;
    if trades == [] {
      NoTradesToConserve(ms, asset, block, accounts);
    } else {
      var init, last := trades[..|trades|-1], trades[|trades|-1];
      assert trades == init + [last];
      TradersSplit(init, last, asset, block, accounts);
      VolumeIsConserved(ms, init, asset, block, accounts);
      ConservationStep(ms, init, last, asset, block, accounts);
    }
  }

  lemma NoTradesToConserve(ms: Markets, asset: int, block: int, accounts: seq<string>)
    ensures FiledTotal(ms, [], Key(asset, block, None))
         == Plus(AccountSum(ms, [], asset, block, accounts), AnonymousTotal(ms, [], asset, block))
  {
    hide AccountSum;
    NoTradesNoSum(ms, asset, block, accounts);
  }

  lemma TraderOrNone(bt: BlockTrade, block: int, accounts: seq<string>)
    ensures !TradesAs(bt, block, accounts) || !Anonymous(bt, block)
  {
  }

  lemma ConservationStep(ms: Markets, init: seq<BlockTrade>, last: BlockTrade, asset: int, block: int,
                         accounts: seq<string>)
    requires DistinctAccounts(accounts)
    requires asset in Assets(last.trade) ==>
               Files(last, Key(asset, block, None)) == (TradesAs(last, block, accounts) || Anonymous(last, block))
    requires FiledTotal(ms, init, Key(asset, block, None))
          == Plus(AccountSum(ms, init, asset, block, accounts), AnonymousTotal(ms, init, asset, block))
    ensures FiledTotal(ms, init + [last], Key(asset, block, None))
         == Plus(AccountSum(ms, init + [last], asset, block, accounts), AnonymousTotal(ms, init + [last], asset, block))
  {
    hide FiledTotal, AccountSum, AnonymousTotal, Volume, Files, Plus, DistinctAccounts;
    AccountSumGrows(ms, init, last, asset, block, accounts);
    FiledAppend(ms, init, last, Key(asset, block, None));
    AnonymousAppend(ms, init, last, asset, block);
    if asset in Assets(last.trade) {
      TraderOrNone(last, block, accounts);
      PlusIfMoves(AccountSum(ms, init, asset, block, accounts), AnonymousTotal(ms, init, asset, block),
                  Volume(ms, last, asset), TradesAs(last, block, accounts), Anonymous(last, block));
    } else {
      UntouchedAsset(ms, last, asset);
      PlusLaws(FiledTotal(ms, init, Key(asset, block, None)), ZERO, ZERO);
      PlusLaws(AccountSum(ms, init, asset, block, accounts), ZERO, ZERO);
      PlusLaws(AnonymousTotal(ms, init, asset, block), ZERO, ZERO);
    }
  }

  lemma {:induction false} NoTradesNoSum(ms: Markets, asset: int, block: int, accounts: seq<string>)
    ensures AccountSum(ms, [], asset, block, accounts) == ZERO
  {
    if accounts != [] {
      NoTradesNoSum(ms, asset, block, accounts[..|accounts|-1]);
    }
  }

  // ---------------------------------------------------------------- conservation in the rows themselves

  /** The texts of a key's row, or of nothing. */
  function RowText(m: map<Key, Entry>, k: Key): Fields {
    if k in m then m[k].fields else ZERO_TEXT
  }

  /** The account rows of an asset in a block, summed text by text. */
  function SumOfRows(m: map<Key, Entry>, asset: int, block: int, accounts: seq<string>): Option<Fields> {
    if accounts == [] then Some(ZERO_TEXT)
    else
      var rest := SumOfRows(m, asset, block, accounts[..|accounts|-1]);
      if rest.None? then None
      else SumVolumeFields(rest.value, RowText(m, Key(asset, block, Some(accounts[|accounts|-1]))))
  }

  lemma RowIsTotal(ms: Markets, trades: seq<BlockTrade>, perAccount: bool, m: map<Key, Entry>, k: Key)
    requires IsAggregate(ms, trades, perAccount, m) && k.account.Some? == perAccount
    ensures RowText(m, k) == TextOf(FiledTotal(ms, trades, k))
  {
    hide FiledTotal, FiledCount, TextOf;
    ZeroFields();
    if FiledCount(trades, k) == 0 { UnfiledIsWorthNothing(ms, trades, k); }
  }

  lemma {:induction false} RowsSumToTotals(ms: Markets, trades: seq<BlockTrade>, m: map<Key, Entry>, asset: int,
                                           block: int, accounts: seq<string>)
    requires IsAggregate(ms, trades, true, m)
    ensures SumOfRows(m, asset, block, accounts) == Some(TextOf(AccountSum(ms, trades, asset, block, accounts)))
  {
    if accounts == [] {
      ZeroFields();
    } else {
      hide IsAggregate, FiledTotal, FiledCount, TextOf, SumVolumeFields, Plus, RowText;
      var init, k := accounts[..|accounts|-1], Key(asset, block, Some(accounts[|accounts|-1]));
      RowsSumToTotals(ms, trades, m, asset, block, init);
      RowIsTotal(ms, trades, true, m, k);
      FieldSumsAreExact(AccountSum(ms, trades, asset, block, init), FiledTotal(ms, trades, k));
    }
  }

  lemma TradersHaveRows(ms: Markets, trades: seq<BlockTrade>, m: map<Key, Entry>, asset: int, block: int,
                        accounts: seq<string>)
    requires IsAggregate(ms, trades, true, m)
    requires forall k <- m :: k.asset == asset && k.block == block && k.account.Some? ==> k.account.value in accounts
    ensures KnowsTraders(trades, asset, block, accounts)
  {
    hide FiledTotal, FiledCount, TextOf, Assets;
    forall bt <- trades | bt.block == block && asset in Assets(bt.trade) && bt.trade.account.Some?
      ensures bt.trade.account.value in accounts
    {
      var i :| 0 <= i < |trades| && trades[i] == bt;
      var k := Key(asset, block, bt.trade.account);
      FiledTradeCounts(trades, i, k);
      assert k in m;
    }
  }

  /**
   Of the rows that the two extractions return: adding up the texts of an asset's account rows in a block,
   and what was traded without a trader, gives the very texts of its market row.
   */
  lemma AccountRowsAddUpToMarketRow(ms: Markets, trades: seq<BlockTrade>, market: map<Key, Entry>,
                                    byAccount: map<Key, Entry>,
                                    asset: int, block: int, accounts: seq<string>)
    requires IsAggregate(ms, trades, false, market) && IsAggregate(ms, trades, true, byAccount)
    requires DistinctAccounts(accounts)
    requires forall k <- byAccount :: k.asset == asset && k.block == block && k.account.Some? ==>
      k.account.value in accounts
    ensures SumOfRows(byAccount, asset, block, accounts).Some?
    ensures SumVolumeFields(SumOfRows(byAccount, asset, block, accounts).value,
                            TextOf(AnonymousTotal(ms, trades, asset, block)))
         == Some(RowText(market, Key(asset, block, None)))
  {
    TradersHaveRows(ms, trades, byAccount, asset, block, accounts);
    hide IsAggregate, FiledTotal, FiledCount, TextOf, SumVolumeFields, Plus, RowText, SumOfRows, KnowsTraders,
      AnonymousTotal, AccountSum;
    RowsSumToTotals(ms, trades, byAccount, asset, block, accounts);
    RowIsTotal(ms, trades, false, market, Key(asset, block, None));
    VolumeIsConserved(ms, trades, asset, block, accounts);
    FieldSumsAreExact(AccountSum(ms, trades, asset, block, accounts), AnonymousTotal(ms, trades, asset, block));
  }
}
