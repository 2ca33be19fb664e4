/** Chunked concurrent storage reads. */
module BatchedReads {
  // They are measured against one read of every key.
  import opened Options
  import opened Workers

  datatype Indexed<T> = Indexed(item: T, index: nat)

  /** The chunks hold every item under its own index. */
  ghost predicate HoldsAll<T>(chunks: seq<seq<Indexed<T>>>, items: seq<T>, upto: nat) {
    && (forall c, j :: 0 <= c < |chunks| && 0 <= j < |chunks[c]| ==>
        chunks[c][j].index < upto <= |items| && chunks[c][j].item == items[chunks[c][j].index])
    && (forall i :: 0 <= i < upto ==> HasIndex(chunks, i))
  }

  ghost predicate HasIndex<T>(chunks: seq<seq<Indexed<T>>>, i: nat) {
    exists c, j :: 0 <= c < |chunks| && 0 <= j < |chunks[c]| && chunks[c][j].index == i
  }

  method ChunkIndexed<T>(items: seq<T>, size: nat) returns (chunks: seq<seq<Indexed<T>>>)
    requires size > 0
    ensures HoldsAll(chunks, items, |items|)
    ensures forall c <- chunks :: 1 <= |c| <= size
  {
    chunks := [];
    var index := 0;
    while index < |items|
      invariant 0 <= index <= |items| && HoldsAll(chunks, items, index)
      invariant forall c <- chunks :: 1 <= |c| <= size
    {
      var end := Min(index + size, |items|);
      var next := seq(end - index, offset requires 0 <= offset < end - index =>
                      Indexed(items[index + offset], index + offset));
      HoldsMore(chunks, items, index, next, end);
      chunks := chunks + [next];
      index := end;
    }
  }

  lemma HoldsMore<T>(chunks: seq<seq<Indexed<T>>>, items: seq<T>, index: nat, next: seq<Indexed<T>>, end: nat)
    requires HoldsAll(chunks, items, index) && index <= end <= |items|
    requires |next| == end - index && forall j :: 0 <= j < |next| ==> next[j] == Indexed(items[index + j], index + j)
    ensures HoldsAll(chunks + [next], items, end)
  {
    var all: seq<seq<Indexed<T>>> := chunks + [next];
    forall i | 0 <= i < end
      ensures HasIndex(all, i)
    {
      if i < index {
        assert HasIndex(chunks, i);
        var c, j :| 0 <= c < |chunks| && 0 <= j < |chunks[c]| && chunks[c][j].index == i;
        assert all[c][j].index == i;
      } else {
        assert all[|chunks|][i - index].index == i;
      }
    }
  }

  /** Some finished chunk holds the index. */
  ghost predicate IsRead<K>(chunks: seq<seq<Indexed<K>>>, finished: seq<nat>, i: nat) {
    exists c <- finished :: c < |chunks| && InChunk(chunks[c], i)
  }

  ghost predicate InChunk<K>(chunk: seq<Indexed<K>>, i: nat) { exists j :: 0 <= j < |chunk| && chunk[j].index == i }

  /** One handler's writes, when its chunk's values arrive. */
  method WriteChunk<K, V>(results: array<Option<V>>, chunk: seq<Indexed<K>>, read: K -> V)
    requires forall j :: 0 <= j < |chunk| ==> chunk[j].index < results.Length
    requires forall i, j :: 0 <= i < |chunk| && 0 <= j < |chunk| && chunk[i].index == chunk[j].index ==>
      chunk[i] == chunk[j]
    modifies results
    ensures forall j :: 0 <= j < |chunk| ==> results[chunk[j].index] == Some(read(chunk[j].item))
    ensures forall i :: 0 <= i < results.Length && !InChunk(chunk, i) ==> results[i] == old(results[i])
  {
    var values := seq(|chunk|, j requires 0 <= j < |chunk| => read(chunk[j].item));
    for j := 0 to |chunk|
      invariant forall i :: 0 <= i < j ==> results[chunk[i].index] == Some(read(chunk[i].item))
      invariant forall i :: 0 <= i < results.Length && !InChunk(chunk, i) ==> results[i] == old(results[i])
    {
      results[chunk[j].index] := Some(values[j]);
    }
  }

  /** However the workers interleave, the chunked read is the pointwise read of every key. */
  method GetManyChunked<K, V>(keys: seq<K>, read: K -> V, batchSize: nat, concurrency: nat) returns (values: seq<V>)
    requires batchSize > 0 && concurrency > 0
    ensures |values| == |keys| && forall i :: 0 <= i < |keys| ==> values[i] == read(keys[i])
  {
    if |keys| == 0 { return []; }
    var results := new Option<V>[|keys|](_ => None);
    var chunks := ChunkIndexed(keys, batchSize);
    var order, peak := ForEachConcurrent(|chunks|, concurrency);
    for k := 0 to |order|
      invariant forall i :: 0 <= i < |keys| && IsRead(chunks, order[..k], i) ==> results[i] == Some(read(keys[i]))
    {
      ghost var before := results[..];
      var c := order[k];
      assert c in order;
      WriteChunk(results, chunks[c], read);
      forall i | 0 <= i < |keys| && IsRead(chunks, order[..k+1], i)
        ensures results[i] == Some(read(keys[i]))
      {
        if !InChunk(chunks[c], i) {
          assert IsRead(chunks, order[..k], i);
          assert results[i] == before[i];
        }
      }
    }
    assert order[..|order|] == order;
    forall i | 0 <= i < |keys|
      ensures results[i] == Some(read(keys[i]))
    {
      assert HasIndex(chunks, i);
      var c, j :| 0 <= c < |chunks| && 0 <= j < |chunks[c]| && chunks[c][j].index == i;
      assert c in order;
      assert IsRead(chunks, order, i);
    }
    values := seq(|keys|, i requires 0 <= i < |keys| && results[i].Some? reads results => results[i].value);
  }

  // ---------------------------------------------------------------- reserves of the XYK pools

  datatype Pool = Pool(account: string, assetA: int, assetB: int)

  /** A leg without an entry has no reserve; the native asset always has one. */
  datatype Reserves = Reserves(a: Option<int>, b: Option<int>)

  const NATIVE := 0

  /** The free balances a block's storage holds; a block may lack either storage item. */
  datatype Storage = Storage(tokens: Option<(string, int) -> Option<int>>, system: Option<string -> Option<int>>,
                             systemDefault: int)

  /** One leg looked up on its own. */
  function Direct(s: Storage, account: string, asset: int): Option<int>
    requires s.tokens.Some? && (asset == NATIVE ==> s.system.Some?)
  {
    if asset == NATIVE then Some(s.system.value(account).Or(s.systemDefault)) else s.tokens.value(account, asset)
  }

  /**
   The native asset is number 0: it is read from the accounts and always has a reserve; every other from
   the tokens.
  */
  lemma NativeIsAssetZero(s: Storage, account: string, asset: int)
    requires s.tokens.Some? && s.system.Some?
    ensures asset == 0 ==> Direct(s, account, asset).Some?
    ensures asset == 0 && s.system.value(account).Some? ==> Direct(s, account, asset) == s.system.value(account)
    ensures asset != 0 ==> Direct(s, account, asset) == s.tokens.value(account, asset)
  {
  }

  predicate HasNativeLeg(pools: seq<Pool>) {
    exists i :: 0 <= i < |pools| && (pools[i].assetA == NATIVE || pools[i].assetB == NATIVE)
  }

  /** What the key-collecting loop has put down for the legs so far. */
  datatype Slots = Slots(tokenKeys: seq<(string, int)>, tokenSlots: seq<int>, nativeAccounts: seq<string>,
                         nativeSlotByAccount: map<string, nat>)

  const NO_SLOTS := Slots([], [], [], map[])

  ghost predicate ValidSlots(s: Slots) {
    && (forall a <- s.nativeSlotByAccount :: s.nativeSlotByAccount[a] < |s.nativeAccounts|
                                             && s.nativeAccounts[s.nativeSlotByAccount[a]] == a)
    && (forall a <- s.nativeAccounts :: a in s.nativeSlotByAccount)
    && (forall i, j :: 0 <= i < j < |s.nativeAccounts| ==> s.nativeAccounts[i] != s.nativeAccounts[j])
  }

  /** Where a leg's balance will be found. */
  ghost predicate Points(s: Slots, leg: nat, account: string, asset: int) {
    && leg < |s.tokenSlots|
    && if asset == NATIVE then s.tokenSlots[leg] == -1 && account in s.nativeSlotByAccount
       else 0 <= s.tokenSlots[leg] < |s.tokenKeys| && s.tokenKeys[s.tokenSlots[leg]] == (account, asset)
  }

  method AddLeg(s: Slots, account: string, asset: int) returns (next: Slots)
    requires ValidSlots(s)
    ensures ValidSlots(next) && |next.tokenSlots| == |s.tokenSlots| + 1
    ensures Points(next, |s.tokenSlots|, account, asset)
    ensures forall leg, a, b :: Points(s, leg, a, b) ==> Points(next, leg, a, b)
    ensures next.nativeAccounts == [] <==> s.nativeAccounts == [] && asset != NATIVE
  {
    if asset == NATIVE {
      next := s;
      if account !in s.nativeSlotByAccount {
        next := next.(nativeSlotByAccount := s.nativeSlotByAccount[account := |s.nativeAccounts|],
                      nativeAccounts := s.nativeAccounts + [account]);
      }
      next := next.(tokenSlots := s.tokenSlots + [-1]);
    } else {
      next := s.(tokenSlots := s.tokenSlots + [|s.tokenKeys|], tokenKeys := s.tokenKeys + [(account, asset)]);
    }
  }

  /** Each leg gets what a lookup of its own would return; absent when the block lacks a storage item the pools need. */
  method ReadXykPoolReserves(storage: Storage, pools: seq<Pool>, batchSize: nat, concurrency: nat)
    returns (reserves: Option<seq<Reserves>>)
    requires batchSize > 0 && concurrency > 0
    ensures reserves.None? <==> pools != [] && (storage.tokens.None? || (HasNativeLeg(pools) && storage.system.None?))
    ensures reserves.Some? ==> |reserves.value| == |pools|
    ensures reserves.Some? ==> forall i :: 0 <= i < |pools| ==>
      reserves.value[i] == Reserves(Direct(storage, pools[i].account, pools[i].assetA),
                                    Direct(storage, pools[i].account, pools[i].assetB))
  {
    if |pools| == 0 { return Some([]); }
    if storage.tokens.None? { return None; }
    var s := CollectSlots(pools);
    if |s.nativeAccounts| > 0 && storage.system.None? { return None; }
    var tokenRead := storage.tokens.value;
    var tokenBalances := GetManyChunked(s.tokenKeys, (k: (string, int)) => tokenRead(k.0, k.1), batchSize, concurrency);
    var nativeBalances := [];
    if |s.nativeAccounts| > 0 {
      nativeBalances := GetManyChunked(s.nativeAccounts, storage.system.value, batchSize, concurrency);
    }
    var out := [];
    for i := 0 to |pools|
      invariant |out| == i
      invariant forall j :: 0 <= j < i ==>
        out[j] == Reserves(Direct(storage, pools[j].account, pools[j].assetA),
                           Direct(storage, pools[j].account, pools[j].assetB))
    {
      assert HasSlots(s, pools[i], i);
      var a := ReserveAt(s, storage, tokenBalances, nativeBalances, 2 * i, pools[i].account, pools[i].assetA);
      var b := ReserveAt(s, storage, tokenBalances, nativeBalances, 2 * i + 1, pools[i].account, pools[i].assetB);
      out := out + [Reserves(a, b)];
    }
    reserves := Some(out);
  }

  /** Both legs of the `i`th pool point to where their balances will be. */
  ghost predicate HasSlots(s: Slots, pool: Pool, i: nat) {
    Points(s, 2 * i, pool.account, pool.assetA) && Points(s, 2 * i + 1, pool.account, pool.assetB)
  }

  method CollectSlots(pools: seq<Pool>) returns (s: Slots)
    ensures ValidSlots(s) && forall i :: 0 <= i < |pools| ==> HasSlots(s, pools[i], i)
    ensures s.nativeAccounts != [] <==> HasNativeLeg(pools)
  {
    s := NO_SLOTS;
    for i := 0 to |pools|
      invariant ValidSlots(s) && |s.tokenSlots| == 2 * i
      invariant forall j :: 0 <= j < i ==> HasSlots(s, pools[j], j)
      invariant s.nativeAccounts != [] <==> HasNativeLeg(pools[..i])
    {
      hide ValidSlots, Points, HasNativeLeg;
      NativeLegStep(pools, i);
      s := AddLeg(s, pools[i].account, pools[i].assetA);
      s := AddLeg(s, pools[i].account, pools[i].assetB);
    }
    assert pools[..|pools|] == pools;
  }

  lemma NativeLegStep(pools: seq<Pool>, i: nat)
    requires i < |pools|
    ensures HasNativeLeg(pools[..i+1])
      <==> HasNativeLeg(pools[..i]) || pools[i].assetA == NATIVE || pools[i].assetB == NATIVE
  {
    assert pools[..i+1][i] == pools[i];
    if HasNativeLeg(pools[..i]) {
      var j :| 0 <= j < i && (pools[..i][j].assetA == NATIVE || pools[..i][j].assetB == NATIVE);
      assert pools[..i+1][j] == pools[j];
    }
  }

  method ReserveAt(s: Slots, storage: Storage, tokenBalances: seq<Option<int>>, nativeBalances: seq<Option<int>>,
                   slot: nat, account: string, ghost asset: int)
    returns (reserve: Option<int>)
    requires ValidSlots(s) && Points(s, slot, account, asset) && storage.tokens.Some?
    requires s.nativeAccounts != [] ==> storage.system.Some? && |nativeBalances| == |s.nativeAccounts|
    requires s.nativeAccounts != [] ==> forall i :: 0 <= i < |nativeBalances| ==>
      nativeBalances[i] == storage.system.value(s.nativeAccounts[i])
    requires |tokenBalances| == |s.tokenKeys|
    requires forall i :: 0 <= i < |tokenBalances| ==>
      tokenBalances[i] == storage.tokens.value(s.tokenKeys[i].0, s.tokenKeys[i].1)
    ensures asset == NATIVE ==> storage.system.Some?
    ensures reserve == Direct(storage, account, asset)
  {
    var tokenIndex := s.tokenSlots[slot];
    if tokenIndex >= 0 {
      reserve := tokenBalances[tokenIndex];
    } else {
      reserve := Some(nativeBalances[s.nativeSlotByAccount[account]].Or(storage.systemDefault));
    }
  }
}
