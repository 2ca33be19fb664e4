/** Putting a block's market volumes into its price rows, and what becomes of the totals as they merge. */
module VolumeMerge {
  import opened Options
  import opened VolumeMath
  import opened VolumeTotals
  import opened VolumeRows

  /** A row of the prices table; a price row comes without volumes, a volume row with the price "0". */
  datatype PriceRow = PriceRow(asset: int, price: string, volumes: Option<Fields>)

  predicate Traded(trades: seq<BlockTrade>, block: int, asset: int) { FiledCount(trades, Key(asset, block, None)) > 0 }

  function VolumesOf(ms: Markets, trades: seq<BlockTrade>, block: int, asset: int): Option<Fields> {
    Some(TextOf(FiledTotal(ms, trades, Key(asset, block, None))))
  }

  predicate IsPriced(priceRows: seq<PriceRow>, asset: int) {
    exists i :: 0 <= i < |priceRows| && priceRows[i].asset == asset
  }

  /** Price rows first, in order, each with its asset's volumes; then one row for every other traded asset. */
  ghost predicate IsMerge(result: seq<PriceRow>, priceRows: seq<PriceRow>, ms: Markets, trades: seq<BlockTrade>,
                          block: int) {
    var n := |priceRows|;
    && |result| >= n
    && (forall i :: 0 <= i < n ==> result[i].asset == priceRows[i].asset && result[i].price == priceRows[i].price)
    && (forall i :: 0 <= i < n ==>
          result[i].volumes == if Traded(trades, block, priceRows[i].asset)
            then VolumesOf(ms, trades, block, priceRows[i].asset)
                               else priceRows[i].volumes)
    && (forall i :: n <= i < |result| ==>
          && result[i] == PriceRow(result[i].asset, "0", VolumesOf(ms, trades, block, result[i].asset))
          && Traded(trades, block, result[i].asset) && !IsPriced(priceRows, result[i].asset))
    && (forall i, j :: n <= i < j < |result| ==> result[i].asset != result[j].asset)
    && (forall a :: Traded(trades, block, a) && !IsPriced(priceRows, a) ==>
        exists i :: n <= i < |result| && result[i].asset == a)
  }

  /** A traded asset has exactly one row that carries its volumes. */
  ghost predicate CarriedOnce(result: seq<PriceRow>, volumes: Option<Fields>, asset: int) {
    exists i :: IsOnlyRow(result, asset, i) && result[i].volumes == volumes
  }

  ghost predicate IsOnlyRow(result: seq<PriceRow>, asset: int, i: int) {
    && 0 <= i < |result| && result[i].asset == asset
    && forall j :: 0 <= j < |result| && result[j].asset == asset ==> j == i
  }

  /** Merging keeps a traded asset's total in exactly one row, unless two price rows name the asset. */
  lemma MergeKeepsTotals(result: seq<PriceRow>, priceRows: seq<PriceRow>, ms: Markets, trades: seq<BlockTrade>,
                         block: int, asset: int)
    requires IsMerge(result, priceRows, ms, trades, block) && Traded(trades, block, asset)
    ensures CarriedOnce(result, VolumesOf(ms, trades, block, asset), asset)
       <==> forall i, j :: 0 <= i < j < |priceRows| && priceRows[i].asset == asset ==> priceRows[j].asset != asset
  {
    hide Traded, VolumesOf;
    var n := |priceRows|;
    if i, j :| 0 <= i < j < n && priceRows[i].asset == asset && priceRows[j].asset == asset {
      assert result[i].asset == asset && result[j].asset == asset;
    } else if i :| 0 <= i < n && priceRows[i].asset == asset {
      assert IsPriced(priceRows, asset);
      assert IsOnlyRow(result, asset, i);
    } else {
      assert !IsPriced(priceRows, asset);
      var i :| n <= i < |result| && result[i].asset == asset;
      assert forall j :: 0 <= j < n ==> result[j].asset != asset;
      assert IsOnlyRow(result, asset, i);
    }
  }

  /** An untraded asset's rows are its price rows, as they were. */
  lemma MergeAddsNothing(result: seq<PriceRow>, priceRows: seq<PriceRow>, ms: Markets, trades: seq<BlockTrade>,
                         block: int, i: nat)
    requires IsMerge(result, priceRows, ms, trades, block) && i < |result| && !Traded(trades, block, result[i].asset)
    ensures i < |priceRows| && result[i] == priceRows[i]
  {
    hide Traded, VolumesOf;
  }

  lemma {:induction false} FiledInBlock(trades: seq<BlockTrade>, block: int, k: Key)
    requires FiledCount(trades, k) > 0 && forall bt <- trades :: bt.block == block
    ensures k.block == block
  {
    if trades != [] && k.block != block {
      assert trades[|trades|-1] in trades;
      FiledInBlock(trades[..|trades|-1], block, k);
    }
  }

  /** Volume rows left over, in the order their assets first appear. */
  method Standalone(rows: seq<Row>, volumes: map<Key, Entry>, processed: set<int>, block: int)
    returns (out: seq<PriceRow>)
    requires forall k :: k in volumes <==> HasRow(rows, k)
    requires forall r <- rows :: r.key == Key(r.key.asset, block, None)
    ensures forall i :: 0 <= i < |out| ==> Key(out[i].asset, block, None) in volumes && out[i].asset !in processed
    ensures forall i :: 0 <= i < |out| ==>
      out[i] == PriceRow(out[i].asset, "0", Some(volumes[Key(out[i].asset, block, None)].fields))
    ensures forall i, j :: 0 <= i < j < |out| ==> out[i].asset != out[j].asset
    ensures forall k <- volumes :: k.asset in processed || exists i :: 0 <= i < |out| && out[i].asset == k.asset
  {
    out := [];
    var done := {};
    for i := 0 to |rows|
      invariant forall j :: 0 <= j < |out| ==> Key(out[j].asset, block, None) in volumes && out[j].asset !in processed
      invariant forall j :: 0 <= j < |out| ==>
        out[j] == PriceRow(out[j].asset, "0", Some(volumes[Key(out[j].asset, block, None)].fields))
      invariant forall j :: 0 <= j < |out| ==> out[j].asset in done
      invariant forall a :: a in done ==> HasAsset(out, a)
      invariant forall j, l :: 0 <= j < l < |out| ==> out[j].asset != out[l].asset
      invariant forall j :: 0 <= j < i ==> rows[j].key.asset in processed || rows[j].key.asset in done
    {
      var asset := rows[i].key.asset;
      assert rows[i] in rows && HasRow(rows, rows[i].key);
      if asset !in done && asset !in processed {
        var row := PriceRow(asset, "0", Some(volumes[rows[i].key].fields));
        HasAssetSnoc(out, row);
        out := out + [row];
        done := done + {asset};
      }
    }
    forall k | k in volumes
      ensures k.asset in processed || exists i :: 0 <= i < |out| && out[i].asset == k.asset
    {
      var i :| 0 <= i < |rows| && rows[i].key == k;
      assert k.asset in done ==> HasAsset(out, k.asset);
    }
  }

  ghost predicate HasAsset(out: seq<PriceRow>, asset: int) { exists i :: 0 <= i < |out| && out[i].asset == asset }

  lemma HasAssetSnoc(out: seq<PriceRow>, row: PriceRow)
    ensures HasAsset(out + [row], row.asset)
    ensures forall a :: HasAsset(out, a) ==> HasAsset(out + [row], a)
  {
    assert (out + [row])[|out|] == row;
    forall a | HasAsset(out, a) ensures HasAsset(out + [row], a) {
      var i :| 0 <= i < |out| && out[i].asset == a;
      assert (out + [row])[i].asset == a;
    }
  }

  /** The price rows, in order, with their volumes; and which assets took theirs. */
  method PricedRows(priceRows: seq<PriceRow>, volumes: map<Key, Entry>, block: int)
    returns (result: seq<PriceRow>, processed: set<int>)
    ensures |result| == |priceRows|
    ensures forall i :: 0 <= i < |result| ==> result[i] == WithVolumes(priceRows[i], volumes, block)
    ensures forall a :: a in processed <==> Key(a, block, None) in volumes && IsPriced(priceRows, a)
  {
    hide IsPriced;
    result, processed := [], {};
    NothingPriced();
    assert priceRows[..0] == [];
    for i := 0 to |priceRows|
      invariant |result| == i
      invariant forall j :: 0 <= j < i ==> result[j] == WithVolumes(priceRows[j], volumes, block)
      invariant forall a :: a in processed <==> Key(a, block, None) in volumes && IsPriced(priceRows[..i], a)
    {
      var key := Key(priceRows[i].asset, block, None);
      PricedStep(priceRows, i);
      if key in volumes {
        result := result + [priceRows[i].(volumes := Some(volumes[key].fields))];
        processed := processed + {priceRows[i].asset};
      } else {
        result := result + [priceRows[i]];
      }
    }
    assert priceRows[..|priceRows|] == priceRows;
  }

  function WithVolumes(row: PriceRow, volumes: map<Key, Entry>, block: int): PriceRow {
    var key := Key(row.asset, block, None);
    if key in volumes then row.(volumes := Some(volumes[key].fields)) else row
  }

  lemma NothingPriced()
    ensures forall a :: !IsPriced([], a)
  {
  }

  method MergePriceAndVolumeRows(priceRows: seq<PriceRow>, rows: seq<Row>, block: int,
                                 ghost totals: seq<Total>, ghost ms: Markets, ghost trades: seq<BlockTrade>)
    returns (result: seq<PriceRow>)
    requires Covers(rows, totals, ms, trades, false) && forall bt <- trades :: bt.block == block
    ensures IsMerge(result, priceRows, ms, trades, block)
  {
    hide Covers, IsMerge, IsAggregate;
    var volumes := AggregateCovering(rows, totals, ms, trades, false);
    VolumesAreTraded(volumes, rows, totals, ms, trades, block);
    if rows == [] {
      NoVolumes(volumes, priceRows, ms, trades, block);
      return priceRows;
    }
    var priced, processed := PricedRows(priceRows, volumes, block);
    var others := Standalone(rows, volumes, processed, block);
    Assembled(priced, others, processed, volumes, priceRows, ms, trades, block);
    result := priced + others;
  }

  /** The volumes are those of the traded assets. */
  ghost predicate AreTraded(volumes: map<Key, Entry>, ms: Markets, trades: seq<BlockTrade>, block: int) {
    forall a :: (Key(a, block, None) in volumes <==> Traded(trades, block, a))
             && (Key(a, block, None) in volumes ==>
                 VolumesOf(ms, trades, block, a) == Some(volumes[Key(a, block, None)].fields))
  }

  lemma NoVolumes(volumes: map<Key, Entry>, priceRows: seq<PriceRow>, ms: Markets, trades: seq<BlockTrade>, block: int)
    requires AreTraded(volumes, ms, trades, block) && volumes == map[]
    ensures IsMerge(priceRows, priceRows, ms, trades, block)
  {
    hide Traded, VolumesOf, IsPriced;
  }

  lemma Assembled(priced: seq<PriceRow>, others: seq<PriceRow>, processed: set<int>, volumes: map<Key, Entry>,
                  priceRows: seq<PriceRow>, ms: Markets, trades: seq<BlockTrade>, block: int)
    requires AreTraded(volumes, ms, trades, block)
    requires |priced| == |priceRows| && forall i :: 0 <= i < |priced| ==>
      priced[i] == WithVolumes(priceRows[i], volumes, block)
    requires forall a :: a in processed <==> Key(a, block, None) in volumes && IsPriced(priceRows, a)
    requires forall i :: 0 <= i < |others| ==>
      Key(others[i].asset, block, None) in volumes && others[i].asset !in processed
    requires forall i :: 0 <= i < |others| ==>
      others[i] == PriceRow(others[i].asset, "0", Some(volumes[Key(others[i].asset, block, None)].fields))
    requires forall i, j :: 0 <= i < j < |others| ==> others[i].asset != others[j].asset
    requires forall k <- volumes :: k.asset in processed || exists i :: 0 <= i < |others| && others[i].asset == k.asset
    ensures IsMerge(priced + others, priceRows, ms, trades, block)
  {
    hide Traded, VolumesOf, IsPriced;
    var result, n := priced + others, |priceRows|;
    assert forall i :: 0 <= i < n ==> result[i] == priced[i];
    assert forall i :: n <= i < |result| ==> result[i] == others[i - n];
    forall a | Traded(trades, block, a) && !IsPriced(priceRows, a)
      ensures exists i :: n <= i < |result| && result[i].asset == a
    {
      assert Key(a, block, None) in volumes;
      var i :| 0 <= i < |others| && others[i].asset == a;
      assert result[n + i].asset == a;
    }
  }

  lemma PricedStep(priceRows: seq<PriceRow>, i: nat)
    requires i < |priceRows|
    ensures forall a :: IsPriced(priceRows[..i+1], a) <==> IsPriced(priceRows[..i], a) || a == priceRows[i].asset
  {
    forall a
      ensures IsPriced(priceRows[..i+1], a) <==> IsPriced(priceRows[..i], a) || a == priceRows[i].asset
    {
      assert priceRows[..i+1][i] == priceRows[i];
      if IsPriced(priceRows[..i], a) {
        var j :| 0 <= j < i && priceRows[..i][j].asset == a;
        assert priceRows[..i+1][j].asset == a;
      }
    }
  }

  lemma VolumesAreTraded(volumes: map<Key, Entry>, rows: seq<Row>, totals: seq<Total>, ms: Markets,
                         trades: seq<BlockTrade>, block: int)
    requires Covers(rows, totals, ms, trades, false) && IsAggregate(ms, trades, false, volumes)
    requires forall bt <- trades :: bt.block == block
    ensures forall k :: k in volumes <==> HasRow(rows, k)
    ensures forall r <- rows :: r.key == Key(r.key.asset, block, None)
    ensures AreTraded(volumes, ms, trades, block)
  {
    hide FiledTotal, FiledCount, TextOf, TotalAt, CountAt;
    forall k
      ensures k in volumes <==> HasRow(rows, k)
    {
      if k.account.None? { assert Owed(rows, totals, ms, trades, false, k); }
    }
    forall i | 0 <= i < |rows|
      ensures rows[i].key == Key(rows[i].key.asset, block, None)
    {
      assert rows[i] in rows && HasRow(rows, rows[i].key);
      FiledInBlock(trades, block, rows[i].key);
    }
  }
}
