/** Balance observation rows. */
module BalanceReads {
  // One row a distinct candidate, by batched or by grouped concurrent reads.
  import opened Options
  import opened Workers

  /** A balance to observe; `id` is its observation id, `kind` and `asset` texts as found in the event or call. */
  datatype Candidate = Candidate(id: string, account: string, kind: string, asset: string, evidence: string)

  type Balance = string

  const NATIVE: string := "0"

  /** A block's storage: a missing item, an asset text that is no safe integer, or a failing read gives nothing. */
  datatype Storage = Storage(native: Option<string -> Option<Balance>>,
                             tokens: Option<(string, int) -> Option<Balance>>,
                             assetNumber: string -> Option<int>)

  /** A lookup of one candidate's balance. */
  function ReadBalance(s: Storage, c: Candidate): Option<Balance> {
    if c.asset == NATIVE then (if s.native.Some? then s.native.value(c.account) else None)
    else if s.assetNumber(c.asset).None? || s.tokens.None? then None
    else s.tokens.value(c.account, s.assetNumber(c.asset).value)
  }

  /** The native asset is the text "0", read from the accounts; every other asset is read from the tokens. */
  lemma NativeIsAssetZero(s: Storage, c: Candidate)
    ensures c.asset == "0" && s.native.Some? ==> ReadBalance(s, c) == s.native.value(c.account)
    ensures c.asset == "0" ==> ReadBalance(s.(tokens := None), c) == ReadBalance(s, c)
    ensures c.asset != "0" ==> ReadBalance(s.(native := None), c) == ReadBalance(s, c)
  {
  }

  datatype Result = Observed(candidate: Candidate, balance: Balance) | Warned(candidate: Candidate)

  datatype Extraction = Extraction(observations: seq<Result>, warnings: seq<Result>)

  // ---------------------------------------------------------------- what is owed

  predicate HasId(cs: seq<Candidate>, id: string) { exists i :: 0 <= i < |cs| && cs[i].id == id }

  /** The first candidate of every id, in order. */
  function FirstAppearances(cs: seq<Candidate>): seq<Candidate> {
    if cs == [] then []
    else
      var init, last := cs[..|cs|-1], cs[|cs|-1];
      FirstAppearances(init) + (if HasId(init, last.id) then [] else [last])
  }

  function ResultOf(s: Storage, c: Candidate): Result {
    var balance := ReadBalance(s, c);
    if balance.Some? then Observed(c, balance.value) else Warned(c)
  }

  /** Every distinct candidate looked up on its own: an observation each, or a warning where the lookup fails. */
  function OneByOne(s: Storage, unique: seq<Candidate>): Extraction {
    if unique == [] then Extraction([], [])
    else Extend(OneByOne(s, unique[..|unique|-1]), ResultOf(s, unique[|unique|-1]))
  }

  function Extend(x: Extraction, r: Result): Extraction {
    if r.Observed? then Extraction(x.observations + [r], x.warnings) else Extraction(x.observations, x.warnings + [r])
  }

  /** The rows of a longer list are those of its parts, observations and warnings each in the list's order. */
  lemma {:induction false} ReadsInOrder(s: Storage, a: seq<Candidate>, b: seq<Candidate>)
    ensures OneByOne(s, a + b).observations == OneByOne(s, a).observations + OneByOne(s, b).observations
    ensures OneByOne(s, a + b).warnings == OneByOne(s, a).warnings + OneByOne(s, b).warnings
    ensures forall c :: OneByOne(s, [c]) == if ReadBalance(s, c).Some?
                                            then Extraction([Observed(c, ReadBalance(s, c).value)], [])
                                            else Extraction([], [Warned(c)])
  {
    hide ReadBalance;
    forall c
      ensures OneByOne(s, [c]) == Extend(Extraction([], []), ResultOf(s, c))
    {
      assert [c][..0] == [];
    }
    if b == [] {
      assert a + b == a;
    } else {
      ReadsInOrder(s, a, b[..|b|-1]);
      assert (a + b)[..|a + b|-1] == a + b[..|b|-1];
    }
  }

  ghost predicate DistinctIds(cs: seq<Candidate>) { forall i, j :: 0 <= i < j < |cs| ==> cs[i].id != cs[j].id }

  lemma DistinctSnoc(cs: seq<Candidate>, c: Candidate)
    requires DistinctIds(cs) && !HasId(cs, c.id)
    ensures DistinctIds(cs + [c])
  {
  }

  lemma {:induction false} FirstAppearancesAreDistinct(cs: seq<Candidate>)
    ensures forall id :: HasId(FirstAppearances(cs), id) <==> HasId(cs, id)
    ensures DistinctIds(FirstAppearances(cs))
  {
    if cs != [] {
      var init, last := cs[..|cs|-1], cs[|cs|-1];
      FirstAppearancesAreDistinct(init);
      var u := FirstAppearances(init);
      assert cs == init + [last];
      assert FirstAppearances(cs) == if HasId(init, last.id) then u else u + [last];
      if !HasId(u, last.id) { DistinctSnoc(u, last); }
      forall id
        ensures HasId(FirstAppearances(cs), id) <==> HasId(cs, id)
      {
        HasIdSnoc(init, last, id);
        HasIdSnoc(u, last, id);
      }
    }
  }

  lemma HasIdSnoc(cs: seq<Candidate>, c: Candidate, id: string)
    ensures HasId(cs + [c], id) <==> HasId(cs, id) || c.id == id
  {
    assert (cs + [c])[|cs|] == c;
    if i :| 0 <= i < |cs| && cs[i].id == id { assert (cs + [c])[i] == cs[i]; }
  }

  // ---------------------------------------------------------------- the batched readers

  method Chunk<T>(items: seq<T>, size: nat) returns (chunks: seq<seq<T>>)
    requires size > 0
    ensures forall c <- chunks :: 1 <= |c| <= size && forall x <- c :: x in items
    ensures forall x <- items :: exists i :: 0 <= i < |chunks| && x in chunks[i]
  {
    chunks := [];
    var index := 0;
    while index < |items|
      invariant 0 <= index <= |items|
      invariant forall c <- chunks :: 1 <= |c| <= size && forall x <- c :: x in items
      invariant forall x <- items[..index] :: exists i :: 0 <= i < |chunks| && x in chunks[i]
    {
      var end := Min(index + size, |items|);
      ghost var before := chunks;
      chunks := chunks + [items[index..end]];
      forall x | x in items[..end]
        ensures exists i :: 0 <= i < |chunks| && x in chunks[i]
      {
        if x in items[..index] {
          var i :| 0 <= i < |before| && x in before[i];
          assert x in chunks[i];
        } else {
          assert items[..end] == items[..index] + items[index..end];
          assert x in chunks[|before|];
        }
      }
      index := end;
    }
    assert items[..index] == items;
  }

  /** The ids filed under each key, and the keys in order of first use. */
  ghost predicate Files<K(!new)>(keys: seq<K>, ids: map<K, seq<string>>, entries: seq<(K, string)>) {
    && (forall k :: k in keys <==> k in ids)
    && (forall k <- ids :: ids[k] != [])
    && (forall k, id :: k in ids && id in ids[k] <==> (k, id) in entries)
  }

  method GroupIds<K(==, !new)>(entries: seq<(K, string)>) returns (keys: seq<K>, ids: map<K, seq<string>>)
    ensures Files(keys, ids, entries)
  {
    keys, ids := [], map[];
    for i := 0 to |entries|
      invariant Files(keys, ids, entries[..i])
    {
      var (k, id) := entries[i];
      assert entries[..i+1] == entries[..i] + [(k, id)];
      if k !in ids {
        keys, ids := keys + [k], ids[k := [id]];
      } else {
        ids := ids[k := ids[k] + [id]];
      }
    }
    assert entries[..|entries|] == entries;
  }

  /** Each id belongs to one key. */
  ghost predicate Apart<K(!new)>(ids: map<K, seq<string>>) {
    forall k <- ids, l <- ids, id <- ids[k] :: id in ids[l] ==> k == l
  }

  /** The map holds the balance of every id of the keys read so far. */
  ghost predicate Wrote<K(!new)>(m: map<string, Balance>, done: seq<K>, ids: map<K, seq<string>>,
                                 read: K -> Option<Balance>) {
    && (forall k <- done :: k in ids && read(k).Some?)
    && (forall id <- m :: exists k <- done :: k in ids && id in ids[k])
    && (forall k <- done, id <- ids[k] :: id in m && m[id] == read(k).value)
  }

  /** Every id gets the balance. */
  method WriteIds(m0: map<string, Balance>, ids: seq<string>, balance: Balance) returns (m: map<string, Balance>)
    ensures forall id :: id in m <==> id in m0 || id in ids
    ensures forall id <- ids :: m[id] == balance
    ensures forall id <- m0 :: id !in ids ==> m[id] == m0[id]
  {
    m := m0;
    for j := 0 to |ids|
      invariant forall id :: id in m <==> id in m0 || id in ids[..j]
      invariant forall id <- ids[..j] :: m[id] == balance
      invariant forall id <- m0 :: id !in ids ==> m[id] == m0[id]
    {
      m := m[ids[j] := balance];
    }
    assert ids[..|ids|] == ids;
  }

  /** One page's balances; absent when a read fails. */
  method WritePage<K(==, !new)>(m0: map<string, Balance>, ghost done: seq<K>, page: seq<K>, ids: map<K, seq<string>>,
                                read: K -> Option<Balance>)
    returns (r: Option<map<string, Balance>>)
    requires Wrote(m0, done, ids, read) && Apart(ids) && forall k <- page :: k in ids
    ensures r.None? <==> exists k <- page :: read(k).None?
    ensures r.Some? ==> Wrote(r.value, done + page, ids, read)
  {
    hide Wrote, Apart;
    var m := m0;
    assert done + page[..0] == done;
    for i := 0 to |page|
      invariant Wrote(m, done + page[..i], ids, read)
      invariant forall k <- page[..i] :: read(k).Some?
    {
      var key := page[i];
      assert key in page;
      var balance := read(key);
      if balance.None? { return None; }
      var next := WriteIds(m, ids[key], balance.value);
      WroteMore(m, next, done + page[..i], key, ids, read);
      assert done + page[..i+1] == done + page[..i] + [key];
      m := next;
    }
    assert page[..|page|] == page;
    r := Some(m);
  }

  lemma WroteMore<K(!new)>(was: map<string, Balance>, m: map<string, Balance>, done: seq<K>, key: K,
                           ids: map<K, seq<string>>, read: K -> Option<Balance>)
    requires Wrote(was, done, ids, read) && Apart(ids) && key in ids && read(key).Some?
    requires forall id :: id in m <==> id in was || id in ids[key]
    requires forall id <- ids[key] :: m[id] == read(key).value
    requires forall id <- was :: id !in ids[key] ==> m[id] == was[id]
    ensures Wrote(m, done + [key], ids, read)
  {
    assert key in done + [key];
    forall id <- m
      ensures exists k <- done + [key] :: k in ids && id in ids[k]
    {
      if id !in ids[key] {
        var k :| k in done && k in ids && id in ids[k];
        assert k in done + [key];
      }
    }
  }

  /** Pages of keys, read by concurrent workers; `dropped` says that some page's call fails on its own. */
  method ReadPages<K(==, !new)>(keys: seq<K>, ids: map<K, seq<string>>, read: K -> Option<Balance>, pageSize: nat,
                                concurrency: nat, dropped: bool)
    returns (r: Option<map<string, Balance>>)
    requires pageSize > 0 && concurrency > 0 && Apart(ids) && forall k :: k in keys <==> k in ids
    ensures (exists k <- keys :: read(k).None?) ==> r.None?
    ensures !dropped && (forall k <- keys :: read(k).Some?) ==> r.Some?
    ensures r.Some? ==> Wrote(r.value, keys, ids, read)
  {
    var pages := Chunk(keys, pageSize);
    var order, peak := ForEachConcurrent(|pages|, concurrency);
    assert forall j :: 0 <= j < |order| ==> order[j] in order;
    var m: map<string, Balance> := map[];
    ghost var done: seq<K> := [];
    for i := 0 to |order|
      invariant Wrote(m, done, ids, read) && forall k <- done :: k in keys
      invariant forall j, k :: 0 <= j < i && k in pages[order[j]] ==> k in done
    {
      var page := pages[order[i]];
      assert page in pages;
      var next := WritePage(m, done, page, ids, read);
      if next.None? || dropped { return None; }
      m, done := next.value, done + page;
    }
    forall k <- keys
      ensures k in done
    {
      var c :| 0 <= c < |pages| && k in pages[c];
      assert c in order;
      var j :| 0 <= j < |order| && order[j] == c;
    }
    assert Wrote(m, keys, ids, read);
    r := Some(m);
  }

  // ---------------------------------------------------------------- the batched path

  method ReadNativeBalances(s: Storage, cs: seq<Candidate>, pageSize: nat, concurrency: nat, dropped: bool)
    returns (r: Option<map<string, Balance>>)
    requires pageSize > 0 && concurrency > 0 && DistinctIds(cs) && forall c <- cs :: c.asset == NATIVE
    ensures (exists c <- cs :: ReadBalance(s, c).None?) ==> r.None?
    ensures !dropped && (forall c <- cs :: ReadBalance(s, c).Some?) ==> r.Some?
    ensures r.Some? ==> Balances(r.value, s, cs)
  {
    if |cs| == 0 { return Some(map[]); }
    if s.native.None? {
      assert ReadBalance(s, cs[0]).None? && cs[0] in cs;
      return None;
    }
    var entries := seq(|cs|, i requires 0 <= i < |cs| => (cs[i].account, cs[i].id));
    var keys, ids := GroupIds(entries);
    EntriesOf(cs, (c: Candidate) => c.account, entries);
    FiledApart(keys, ids, entries);
    var read := s.native.value;
    forall c <- cs
      ensures c.account in keys && ReadBalance(s, c) == read(c.account)
    {
      assert (c.account, c.id) in entries;
    }
    forall k <- keys
      ensures exists c <- cs :: c.account == k
    {
      assert ids[k][0] in ids[k] && (k, ids[k][0]) in entries;
    }
    r := ReadPages(keys, ids, read, pageSize, concurrency, dropped);
    if r.Some? { PointwiseBalances(r.value, s, cs, (c: Candidate) => c.account, entries, keys, ids, read); }
  }

  /** The map holds exactly the candidates' ids, each with what its own lookup returns. */
  ghost predicate Balances(m: map<string, Balance>, s: Storage, cs: seq<Candidate>) {
    && (forall id :: id in m <==> HasId(cs, id))
    && (forall c <- cs :: c.id in m && ReadBalance(s, c) == Some(m[c.id]))
  }

  lemma EntriesOf<K(!new)>(cs: seq<Candidate>, key: Candidate -> K, entries: seq<(K, string)>)
    requires DistinctIds(cs) && |entries| == |cs| && forall i :: 0 <= i < |cs| ==> entries[i] == (key(cs[i]), cs[i].id)
    ensures forall c <- cs :: (key(c), c.id) in entries
    ensures forall e <- entries :: exists c <- cs :: e == (key(c), c.id)
    ensures forall d <- entries, e <- entries :: d.1 == e.1 ==> d == e
  {
    forall c <- cs
      ensures (key(c), c.id) in entries
    {
      var i :| 0 <= i < |cs| && cs[i] == c;
      assert entries[i] == (key(c), c.id);
    }
    forall e <- entries
      ensures exists c <- cs :: e == (key(c), c.id)
    {
      var i :| 0 <= i < |entries| && entries[i] == e;
      assert cs[i] in cs;
    }
  }

  lemma FiledApart<K(!new)>(keys: seq<K>, ids: map<K, seq<string>>, entries: seq<(K, string)>)
    requires Files(keys, ids, entries) && forall d <- entries, e <- entries :: d.1 == e.1 ==> d == e
    ensures Apart(ids)
  {
    forall k <- ids, l <- ids, id | id in ids[k] && id in ids[l]
      ensures k == l
    {
      assert (k, id) in entries && (l, id) in entries;
      assert (k, id).1 == (l, id).1;
    }
  }

  lemma PointwiseBalances<K(!new)>(m: map<string, Balance>, s: Storage, cs: seq<Candidate>, key: Candidate -> K,
                                   entries: seq<(K, string)>,
                                   keys: seq<K>, ids: map<K, seq<string>>, read: K -> Option<Balance>)
    requires Files(keys, ids, entries) && Wrote(m, keys, ids, read)
    requires forall c <- cs :: (key(c), c.id) in entries && ReadBalance(s, c) == read(key(c))
    requires forall e <- entries :: exists c <- cs :: e == (key(c), c.id)
    ensures Balances(m, s, cs)
  {
    forall c <- cs
      ensures c.id in m && ReadBalance(s, c) == Some(m[c.id])
    {
      assert key(c) in ids && c.id in ids[key(c)] && key(c) in keys;
    }
    forall id
      ensures id in m <==> HasId(cs, id)
    {
      if id in m {
        var k :| k in keys && k in ids && id in ids[k];
        assert (k, id) in entries;
        var c :| c in cs && (k, id) == (key(c), c.id);
        var i :| 0 <= i < |cs| && cs[i] == c;
      }
      if HasId(cs, id) {
        var i :| 0 <= i < |cs| && cs[i].id == id;
        assert cs[i] in cs;
      }
    }
  }

  /** A token's storage key; `0` stands where the asset text is no integer. */
  function TokenKey(s: Storage, c: Candidate): (string, int) { (c.account, s.assetNumber(c.asset).Or(0)) }

  method ReadTokenBalances(s: Storage, cs: seq<Candidate>, pageSize: nat, concurrency: nat, dropped: bool)
    returns (r: Option<map<string, Balance>>)
    requires pageSize > 0 && concurrency > 0 && DistinctIds(cs) && forall c <- cs :: c.asset != NATIVE
    ensures (exists c <- cs :: ReadBalance(s, c).None?) ==> r.None?
    ensures !dropped && (forall c <- cs :: ReadBalance(s, c).Some?) ==> r.Some?
    ensures r.Some? ==> Balances(r.value, s, cs)
  {
    if |cs| == 0 { return Some(map[]); }
    if s.tokens.None? {
      assert ReadBalance(s, cs[0]).None? && cs[0] in cs;
      return None;
    }
    var entries := [];
    for i := 0 to |cs|
      invariant |entries| == i
      invariant forall j :: 0 <= j < i ==>
        s.assetNumber(cs[j].asset).Some? && entries[j] == (TokenKey(s, cs[j]), cs[j].id)
    {
      if s.assetNumber(cs[i].asset).None? {
        assert ReadBalance(s, cs[i]).None? && cs[i] in cs;
        return None;
      }
      entries := entries + [(TokenKey(s, cs[i]), cs[i].id)];
    }
    var keys, ids := GroupIds(entries);
    EntriesOf(cs, (c: Candidate) => TokenKey(s, c), entries);
    FiledApart(keys, ids, entries);
    var tokens := s.tokens.value;
    var read := (k: (string, int)) => tokens(k.0, k.1);
    forall c <- cs
      ensures TokenKey(s, c) in keys && ReadBalance(s, c) == read(TokenKey(s, c))
    {
      assert (TokenKey(s, c), c.id) in entries;
      var i :| 0 <= i < |cs| && cs[i] == c;
      assert s.assetNumber(cs[i].asset).Some?;
    }
    forall k <- keys
      ensures exists c <- cs :: TokenKey(s, c) == k
    {
      assert ids[k][0] in ids[k] && (k, ids[k][0]) in entries;
    }
    r := ReadPages(keys, ids, read, pageSize, concurrency, dropped);
    if r.Some? { PointwiseBalances(r.value, s, cs, (c: Candidate) => TokenKey(s, c), entries, keys, ids, read); }
  }

  function OfAsset(cs: seq<Candidate>, native: bool): seq<Candidate> {
    if cs == [] then []
    else OfAsset(cs[..|cs|-1], native) + (if (cs[|cs|-1].asset == NATIVE) == native then [cs[|cs|-1]] else [])
  }

  lemma {:induction false} OfAssetKeeps(cs: seq<Candidate>, native: bool)
    ensures forall c :: c in OfAsset(cs, native) <==> c in cs && (c.asset == NATIVE) == native
    ensures DistinctIds(cs) ==> DistinctIds(OfAsset(cs, native))
  {
    if cs != [] {
      var init, last := cs[..|cs|-1], cs[|cs|-1];
      assert cs == init + [last];
      OfAssetKeeps(init, native);
      var kept := OfAsset(init, native);
      if DistinctIds(cs) && (last.asset == NATIVE) == native {
        assert forall c <- kept :: c in init;
        DistinctSnoc(kept, last);
        assert OfAsset(cs, native) == kept + [last];
      } else if DistinctIds(cs) {
        assert OfAsset(cs, native) == kept;
      }
    }
  }

  method ReadBalancesBatched(s: Storage, cs: seq<Candidate>, pageSize: nat, concurrency: nat, dropped: bool)
    returns (r: Option<map<string, Balance>>)
    requires pageSize > 0 && concurrency > 0 && DistinctIds(cs)
    ensures (exists c <- cs :: ReadBalance(s, c).None?) ==> r.None?
    ensures !dropped && (forall c <- cs :: ReadBalance(s, c).Some?) ==> r.Some?
    ensures r.Some? ==> forall c <- cs :: c.id in r.value && ReadBalance(s, c) == Some(r.value[c.id])
  {
    hide ReadBalance, DistinctIds;
    OfAssetKeeps(cs, true);
    OfAssetKeeps(cs, false);
    var nativeCandidates, tokenCandidates := OfAsset(cs, true), OfAsset(cs, false);
    var nativeBalances := ReadNativeBalances(s, nativeCandidates, pageSize, concurrency, dropped);
    var tokenBalances := ReadTokenBalances(s, tokenCandidates, pageSize, concurrency, dropped);
    forall c <- cs
      ensures if c.asset == NATIVE then c in nativeCandidates else c in tokenCandidates
    {
    }
    if nativeBalances.None? || tokenBalances.None? { return None; }
    Disjoint(cs, nativeBalances.value, tokenBalances.value, s);
    r := Some(nativeBalances.value + tokenBalances.value);
  }

  lemma ApartByAsset(cs: seq<Candidate>, c: Candidate, d: Candidate)
    requires DistinctIds(cs) && c in cs && d in cs && c.asset == NATIVE && d.asset != NATIVE
    ensures c.id != d.id
  {
    if c.id == d.id { SameIdSameCandidate(cs, c, d); }
  }

  lemma Disjoint(cs: seq<Candidate>, native: map<string, Balance>, tokens: map<string, Balance>, s: Storage)
    requires DistinctIds(cs) && Balances(native, s, OfAsset(cs, true)) && Balances(tokens, s, OfAsset(cs, false))
    ensures native.Keys !! tokens.Keys
  {
    OfAssetKeeps(cs, true);
    OfAssetKeeps(cs, false);
    var natives, others := OfAsset(cs, true), OfAsset(cs, false);
    assert forall i :: 0 <= i < |natives| ==> natives[i] in natives;
    assert forall i :: 0 <= i < |others| ==> others[i] in others;
    hide ReadBalance, OfAsset, DistinctIds;
    forall id | id in native
      ensures id !in tokens
    {
      var i :| 0 <= i < |natives| && natives[i].id == id;
      forall j | 0 <= j < |others| ensures others[j].id != id { ApartByAsset(cs, natives[i], others[j]); }
    }
  }

  lemma SameIdSameCandidate(cs: seq<Candidate>, c: Candidate, d: Candidate)
    requires DistinctIds(cs) && c in cs && d in cs && c.id == d.id
    ensures c == d
  {
  }

  // ---------------------------------------------------------------- the grouped path

  /** Candidates that share one lookup: the first of them, and where all of them stand. */
  datatype Group = Group(candidate: Candidate, entries: seq<nat>)

  datatype ReadKey = ReadKey(kind: string, asset: string, account: string)

  function KeyOf(c: Candidate): ReadKey { ReadKey(c.kind, c.asset, c.account) }

  ghost predicate IsGroup(group: Group, unique: seq<Candidate>, n: nat)
    requires n <= |unique|
  {
    forall e :: 0 <= e < |group.entries| ==>
      && group.entries[e] < n
      && unique[group.entries[e]].kind == group.candidate.kind
      && unique[group.entries[e]].asset == group.candidate.asset
      && unique[group.entries[e]].account == group.candidate.account
  }

  ghost predicate Grouped(groups: seq<Group>, slots: map<ReadKey, nat>, unique: seq<Candidate>, n: nat)
    requires n <= |unique|
  {
    && (forall k <- slots :: slots[k] < |groups| && KeyOf(groups[slots[k]].candidate) == k)
    && (forall g :: 0 <= g < |groups| ==> IsGroup(groups[g], unique, n))
    && (forall i :: 0 <= i < n ==> KeyOf(unique[i]) in slots && i in groups[slots[KeyOf(unique[i])]].entries)
  }

  method GroupReads(unique: seq<Candidate>) returns (groups: seq<Group>, slots: map<ReadKey, nat>)
    ensures Grouped(groups, slots, unique, |unique|)
  {
    groups, slots := [], map[];
    for index := 0 to |unique|
      invariant Grouped(groups, slots, unique, index)
    {
      var key := KeyOf(unique[index]);
      if key !in slots {
        slots := slots[key := |groups|];
        groups := groups + [Group(unique[index], [index])];
      } else {
        var g := groups[slots[key]];
        groups := groups[slots[key] := g.(entries := g.entries + [index])];
      }
    }
  }

  /** Equal keys are looked up alike. */
  lemma KeyDecidesRead(s: Storage, c: Candidate, d: Candidate)
    requires KeyOf(c) == KeyOf(d)
    ensures ReadBalance(s, c) == ReadBalance(s, d)
  {
  }

  method WriteGroup(s: Storage, results: array<Option<Result>>, unique: seq<Candidate>, group: Group)
    requires results.Length == |unique| && IsGroup(group, unique, |unique|)
    modifies results
    ensures forall i :: 0 <= i < results.Length ==>
      results[i] == if i in group.entries then Some(ResultOf(s, unique[i])) else old(results[i])
  {
    var balance := ReadBalance(s, group.candidate);
    for j := 0 to |group.entries|
      invariant forall i :: 0 <= i < results.Length ==>
        results[i] == if i in group.entries[..j] then Some(ResultOf(s, unique[i])) else old(results[i])
    {
      var index := group.entries[j];
      KeyDecidesRead(s, unique[index], group.candidate);
      assert group.entries[..j+1] == group.entries[..j] + [index];
      results[index] := Some(if balance.Some? then Observed(unique[index], balance.value) else Warned(unique[index]));
    }
    assert group.entries[..|group.entries|] == group.entries;
  }

  /** The result slot of every entry of the groups handled so far. */
  ghost predicate Handled(groups: seq<Group>, order: seq<nat>, i: nat) {
    exists g <- order :: g < |groups| && i in groups[g].entries
  }

  method GroupedReads(s: Storage, unique: seq<Candidate>, concurrency: nat) returns (x: Extraction)
    requires concurrency > 0
    ensures x == OneByOne(s, unique)
  {
    hide ReadBalance, OneByOne, ResultOf, KeyOf, IsGroup;
    var results := new Option<Result>[|unique|](_ => None);
    var groups, slots := GroupReads(unique);
    var order, peak := ForEachConcurrent(|groups|, concurrency);
    for k := 0 to |order|
      invariant forall i :: 0 <= i < |unique| && Handled(groups, order[..k], i) ==>
        results[i] == Some(ResultOf(s, unique[i]))
    {
      ghost var before := results[..];
      assert order[k] in order;
      WriteGroup(s, results, unique, groups[order[k]]);
      assert order[..k+1] == order[..k] + [order[k]];
      forall i | 0 <= i < |unique| && Handled(groups, order[..k+1], i)
        ensures results[i] == Some(ResultOf(s, unique[i]))
      {
        if i !in groups[order[k]].entries {
          assert Handled(groups, order[..k], i);
          assert before[i] == Some(ResultOf(s, unique[i]));
        }
      }
    }
    assert order[..|order|] == order;
    forall i | 0 <= i < |unique|
      ensures results[i] == Some(ResultOf(s, unique[i]))
    {
      assert slots[KeyOf(unique[i])] in order;
      assert Handled(groups, order, i);
    }
    x := Extraction([], []);
    NothingRead(s);
    assert unique[..0] == [];
    for i := 0 to |unique|
      invariant x == OneByOne(s, unique[..i])
      invariant forall j :: 0 <= j < |unique| ==> results[j] == Some(ResultOf(s, unique[j]))
    {
      OneByOneStep(s, unique, i);
      x := Extend(x, results[i].value);
    }
    assert unique[..|unique|] == unique;
  }

  lemma NothingRead(s: Storage)
    ensures OneByOne(s, []) == Extraction([], [])
  {
  }

  lemma OneByOneStep(s: Storage, unique: seq<Candidate>, i: nat)
    requires i < |unique|
    ensures OneByOne(s, unique[..i+1]) == Extend(OneByOne(s, unique[..i]), ResultOf(s, unique[i]))
  {
    assert unique[..i+1][..i] == unique[..i];
  }

  // ---------------------------------------------------------------- both paths

  method UniqueCandidates(candidates: seq<Candidate>) returns (unique: seq<Candidate>)
    ensures unique == FirstAppearances(candidates)
  {
    var seen: set<string> := {};
    unique := [];
    for i := 0 to |candidates|
      invariant unique == FirstAppearances(candidates[..i])
      invariant forall id :: id in seen <==> HasId(candidates[..i], id)
    {
      assert candidates[..i+1][..i] == candidates[..i] && candidates[..i+1] == candidates[..i] + [candidates[i]];
      forall id ensures HasId(candidates[..i+1], id) <==> HasId(candidates[..i], id) || id == candidates[i].id {
        HasIdSnoc(candidates[..i], candidates[i], id);
      }
      if candidates[i].id !in seen {
        seen := seen + {candidates[i].id};
        unique := unique + [candidates[i]];
      }
    }
    assert candidates[..|candidates|] == candidates;
  }

  /**
   With batching on or off, whatever the interleaving, and even when a page's call fails: the distinct
   candidates in order of first appearance, each as a lookup of its own would have it.
   */
  method BuildRowsFromCandidates(s: Storage, candidates: seq<Candidate>, batched: bool, dropped: bool, pageSize: nat,
                                 concurrency: nat)
    returns (x: Extraction)
    requires pageSize > 0 && concurrency > 0
    ensures x == OneByOne(s, FirstAppearances(candidates))
  {
    hide ReadBalance, OneByOne, ResultOf;
    var unique := UniqueCandidates(candidates);
    FirstAppearancesAreDistinct(candidates);
    if batched {
      var balances := ReadBalancesBatched(s, unique, pageSize, concurrency, dropped);
      if balances.Some? {
        x := Extraction([], []);
        NothingRead(s);
        assert unique[..0] == [];
        for i := 0 to |unique|
          invariant x == OneByOne(s, unique[..i])
        {
          OneByOneStep(s, unique, i);
          assert unique[i] in unique;
          ReadResult(s, unique[i]);
          if unique[i].id in balances.value {
            x := Extend(x, Observed(unique[i], balances.value[unique[i].id]));
          } else {
            assert false;
          }
        }
        assert unique[..|unique|] == unique;
        return;
      }
    }
    x := GroupedReads(s, unique, concurrency);
  }

  lemma ReadResult(s: Storage, c: Candidate)
    ensures ResultOf(s, c) == if ReadBalance(s, c).Some? then Observed(c, ReadBalance(s, c).value) else Warned(c)
  {
  }
}
